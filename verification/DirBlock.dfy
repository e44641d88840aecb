/**
 * One block of directory entries: a bitmap of slots, a dentry per slot, and
 * the name bytes.  An entry takes as many consecutive slots as its name needs
 * and is recorded in the first of them.
 */
module DirBlock {

  const SLOT_LEN: nat := 8
  const SLOTS: nat := 214                 // NR_DENTRY_IN_BLOCK

  type Name = seq<nat>

  datatype Dentry = Dentry(hash: nat, len: nat, ino: nat)

  datatype Block = Block(bits: seq<bool>, de: seq<Dentry>, area: seq<nat>)

  /** GET_DENTRY_SLOTS */
  function SlotsFor(len: nat): (r: nat) { (len + SLOT_LEN - 1) / SLOT_LEN }

  ghost predicate Shape(b: Block) {
    |b.bits| == SLOTS && |b.de| == SLOTS && |b.area| == SLOTS * SLOT_LEN
  }

  /** The slot after the entry at `p`. */
  function End(b: Block, p: nat): (r: nat)
    requires p < |b.de|
  {
    p + SlotsFor(b.de[p].len)
  }

  ghost predicate Used(b: Block, starts: set<nat>, i: nat)
    requires Shape(b)
  {
    exists p :: p in starts && p < SLOTS && p <= i < End(b, p)
  }

  /** `starts` are the entries of the block: within it, apart, and exactly what the bitmap marks. */
  ghost predicate Layout(b: Block, starts: set<nat>) {
    && Shape(b)
    && (forall p :: p in starts ==> p < SLOTS && b.de[p].len > 0 && End(b, p) <= SLOTS)
    && (forall p, q :: p in starts && q in starts && p < q ==> End(b, p) <= q)
    && (forall i: nat :: i < SLOTS ==> (b.bits[i] <==> Used(b, starts, i)))
  }

  /** The name of the entry at `p`: its first len bytes from its slot on. */
  function NameAt(b: Block, p: nat): (r: Name)
    requires Shape(b) && p < SLOTS && End(b, p) <= SLOTS
  {
    b.area[p * SLOT_LEN..p * SLOT_LEN + b.de[p].len]
  }

  ghost predicate IsEntry(b: Block, p: nat, name: Name, hash: nat, ino: nat)
    requires Shape(b)
  {
    p < SLOTS && End(b, p) <= SLOTS && NameAt(b, p) == name && b.de[p].hash == hash && b.de[p].ino == ino
  }

  predicate Matches(b: Block, p: nat, name: Name, hash: nat)
    requires Shape(b) && p < SLOTS && End(b, p) <= SLOTS
  {
    b.de[p].len == |name| && b.de[p].hash == hash && NameAt(b, p) == name
  }

  /** A block just allocated: no bit is set. */
  function Fresh(): (r: Block) {
    Block(seq(SLOTS, i => false), seq(SLOTS, i => Dentry(0, 0, 0)), seq(SLOTS * SLOT_LEN, i => 0))
  }

  lemma FreshLayout()
    ensures Layout(Fresh(), {})
  {
  }

  // ---- searching ----

  /**
   * find_target_dentry: walk from entry to entry.  The walk never lands inside
   * an entry, so it sees each one, and meets the wanted name if it is there.
   */
  method FindTarget(b: Block, ghost starts: set<nat>, name: Name, hash: nat) returns (found: bool, pos: nat, maxSlots: nat)
    requires Layout(b, starts)
    ensures found ==> pos in starts && pos < SLOTS && End(b, pos) <= SLOTS && Matches(b, pos, name, hash)
    ensures !found ==> forall p :: p in starts ==> !Matches(b, p, name, hash)
    ensures !found ==> forall n: nat :: n > 0 ==> (n <= maxSlots <==> HasRun(b.bits, n))
  {
    pos, maxSlots := 0, 0;
    var run: nat := 0;
    while pos < SLOTS
      invariant pos <= SLOTS && Longest(b.bits, pos, run, maxSlots)
      invariant forall p :: p in starts ==> pos <= p || End(b, p) <= pos
      invariant forall p :: p in starts && p < pos ==> !Matches(b, p, name, hash)
      decreases SLOTS - pos
    {
      if !b.bits[pos] {
        NotStart(b, starts, pos);
        pos := pos + 1;
        run := run + 1;
        continue;
      }
      AtStart(b, starts, pos);
      if Matches(b, pos, name, hash) {
        maxSlots := if run > maxSlots then run else maxSlots;
        return true, pos, maxSlots;
      }
      EntryBits(b, starts, pos);
      LongestUsed(b.bits, pos, run, maxSlots, End(b, pos));
      maxSlots := if run > maxSlots then run else maxSlots;
      run := 0;
      pos := End(b, pos);
    }
    LongestEnd(b.bits, run, maxSlots);
    maxSlots := if run > maxSlots then run else maxSlots;
    found := false;
  }

  /** Some `n` clear slots lie side by side. */
  ghost predicate HasRun(bits: seq<bool>, n: nat) {
    exists k: nat :: FreeRun(bits, k, n)
  }

  /** Before `pos` lie `run` clear slots, and of the runs before those the longest has `max`. */
  ghost predicate Longest(bits: seq<bool>, pos: nat, run: nat, max: nat) {
    && run <= pos <= |bits| && (forall i :: pos - run <= i < pos ==> !bits[i]) && (pos - run > 0 ==> bits[pos - run - 1])
    && (max == 0 || HasRun(bits, max))
    && forall k: nat, n: nat :: n > max && k + n <= pos - run ==> !FreeRun(bits, k, n)
  }

  lemma EntryBits(b: Block, starts: set<nat>, p: nat)
    requires Layout(b, starts) && p in starts
    ensures p < End(b, p) <= SLOTS && forall i :: p <= i < End(b, p) ==> b.bits[i]
  {
    forall i: nat | p <= i < End(b, p) ensures b.bits[i] {
      assert Used(b, starts, i);
    }
  }

  lemma LongestUsed(bits: seq<bool>, pos: nat, run: nat, max: nat, next: nat)
    requires Longest(bits, pos, run, max) && pos < next <= |bits| && forall i :: pos <= i < next ==> bits[i]
    ensures Longest(bits, next, 0, if run > max then run else max)
  {
    var m := if run > max then run else max;
    if run > max {
      assert FreeRun(bits, pos - run, run);
    }
    forall k: nat, n: nat | n > m && k + n <= next ensures !FreeRun(bits, k, n) {
      RunWithin(bits, pos, run, max, next, k, n);
    }
  }

  lemma RunWithin(bits: seq<bool>, pos: nat, run: nat, max: nat, next: nat, k: nat, n: nat)
    requires Longest(bits, pos, run, max) && pos <= next <= |bits| && (forall i :: pos <= i < next ==> bits[i])
    requires n > max && n > run && k + n <= next
    ensures !FreeRun(bits, k, n)
  {
    if k + n > pos {
      assert bits[if k > pos then k else pos];
    } else if k + n > pos - run {
      assert k < pos - run && bits[pos - run - 1];
    }
  }

  lemma ShorterRun(bits: seq<bool>, m: nat, n: nat)
    requires HasRun(bits, m) && n <= m
    ensures HasRun(bits, n)
  {
    var k: nat :| FreeRun(bits, k, m);
    assert FreeRun(bits, k, n);
  }

  lemma LongestEnd(bits: seq<bool>, run: nat, max: nat)
    requires Longest(bits, |bits|, run, max)
    ensures forall n: nat :: n > 0 ==> (n <= (if run > max then run else max) <==> HasRun(bits, n))
  {
    var m := if run > max then run else max;
    if run > max {
      assert FreeRun(bits, |bits| - run, run);
    }
    forall n: nat | n > 0 ensures n <= m <==> HasRun(bits, n) {
      if n <= m {
        ShorterRun(bits, m, n);
      } else {
        forall k: nat ensures !FreeRun(bits, k, n) {
          if k + n <= |bits| { RunWithin(bits, |bits|, run, max, |bits|, k, n); }
        }
      }
    }
  }

  lemma NotStart(b: Block, starts: set<nat>, i: nat)
    requires Layout(b, starts) && i < SLOTS && !b.bits[i]
    ensures i !in starts
  {
    if i in starts {
      assert Used(b, starts, i);
    }
  }

  lemma AtStart(b: Block, starts: set<nat>, i: nat)
    requires Layout(b, starts) && i < SLOTS && b.bits[i]
    requires forall p :: p in starts ==> i <= p || End(b, p) <= i
    ensures i in starts
    ensures forall p :: p in starts ==> End(b, i) <= p || p == i || End(b, p) <= i
  {
    assert Used(b, starts, i);
  }

  /** find_next_zero_bit_le and find_next_bit_le */
  method FindNextSlot(bits: seq<bool>, max: nat, start: nat, value: bool) returns (i: nat)
    requires max <= |bits|
    ensures start <= i || i == max
    ensures i <= max && (i < max ==> bits[i] == value)
    ensures forall k :: start <= k < i ==> bits[k] != value
  {
    if start >= max {
      return max;
    }
    i := start;
    while i < max && bits[i] != value
      invariant start <= i <= max && forall k :: start <= k < i ==> bits[k] != value
    {
      i := i + 1;
    }
  }

  ghost predicate FreeRun(bits: seq<bool>, p: nat, n: nat) {
    p + n <= |bits| && forall i :: p <= i < p + n ==> !bits[i]
  }

  /** room_for_filename: the first run of clear slots that is long enough, or the end */
  method RoomForFilename(bits: seq<bool>, slots: nat) returns (p: nat)
    requires slots > 0
    ensures p <= |bits|
    ensures p < |bits| ==> FreeRun(bits, p, slots) && forall k: nat :: k < p ==> !FreeRun(bits, k, slots)
    ensures p == |bits| <==> !HasRun(bits, slots)
  {
    var max := |bits|;
    var start := 0;
    while true
      invariant start <= max + 1
      invariant start > 0 ==> start <= max
      invariant forall k: nat :: k < start ==> !FreeRun(bits, k, slots)
      decreases max + 1 - start
    {
      var zs := FindNextSlot(bits, max, start, false);
      NoRunBefore(bits, start, zs, slots);
      if zs >= max {
        return max;
      }
      var ze := FindNextSlot(bits, max, zs, true);
      if ze - zs >= slots {
        return zs;
      }
      NoRunIn(bits, zs, ze, slots);
      if ze + 1 >= max {
        NoRunAfter(bits, ze, slots);
        return max;
      }
      start := ze + 1;
    }
  }

  lemma NoRunBefore(bits: seq<bool>, start: nat, zs: nat, slots: nat)
    requires slots > 0 && zs <= |bits| && forall k :: start <= k < zs ==> bits[k]
    ensures forall k: nat :: start <= k < zs ==> !FreeRun(bits, k, slots)
  {
    forall k: nat | start <= k < zs ensures !FreeRun(bits, k, slots) {
      assert bits[k];
    }
  }

  lemma NoRunIn(bits: seq<bool>, zs: nat, ze: nat, slots: nat)
    requires slots > 0 && zs <= ze <= |bits| && ze - zs < slots && (ze < |bits| ==> bits[ze])
    ensures forall k: nat :: zs <= k <= ze && k < |bits| ==> !FreeRun(bits, k, slots)
  {
  }

  lemma NoRunAfter(bits: seq<bool>, ze: nat, slots: nat)
    requires slots > 0 && ze + 1 >= |bits|
    ensures forall k: nat :: ze < k < |bits| ==> !FreeRun(bits, k, slots)
  {
  }

  // ---- adding and removing ----

  function SetBits(bits: seq<bool>, p: nat, n: nat, value: bool): (r: seq<bool>) {
    seq(|bits|, i requires 0 <= i < |bits| => if p <= i < p + n then value else bits[i])
  }

  method WriteBits(bits: seq<bool>, p: nat, n: nat, value: bool) returns (r: seq<bool>)
    requires p + n <= |bits|
    ensures r == SetBits(bits, p, n, value)
  {
    r := bits;
    for i := 0 to n
      invariant |r| == |bits| && forall k :: 0 <= k < |bits| ==> r[k] == if p <= k < p + i then value else bits[k]
    {
      r := r[p + i := value];
    }
  }

  /** f2fs_update_dentry: record the entry, copy the name, mark its slots */
  function Added(b: Block, p: nat, name: Name, hash: nat, ino: nat): (r: Block)
    requires Shape(b) && p + SlotsFor(|name|) <= SLOTS && |name| > 0
  {
    Block(SetBits(b.bits, p, SlotsFor(|name|), true),
          b.de[p := Dentry(hash, |name|, ino)],
          b.area[..p * SLOT_LEN] + name + b.area[p * SLOT_LEN + |name|..])
  }

  /** The new entry is there, and every other keeps its place, name, hash and inode. */
  lemma AddedEntries(b: Block, starts: set<nat>, p: nat, name: Name, hash: nat, ino: nat)
    requires Layout(b, starts) && |name| > 0 && p + SlotsFor(|name|) <= SLOTS && FreeRun(b.bits, p, SlotsFor(|name|))
    ensures p !in starts && Layout(Added(b, p, name, hash, ino), starts + {p})
    ensures IsEntry(Added(b, p, name, hash, ino), p, name, hash, ino)
    ensures forall q :: q in starts ==>
      && End(Added(b, p, name, hash, ino), q) == End(b, q)
      && NameAt(Added(b, p, name, hash, ino), q) == NameAt(b, q)
      && Added(b, p, name, hash, ino).de[q] == b.de[q]
  {
    var r := Added(b, p, name, hash, ino);
    var n := SlotsFor(|name|);
    assert p < p + n;
    NotStart(b, starts, p);
    Apart(b, starts, p, n);
    AreaWrite(b, p, name);
    forall q | q in starts
      ensures End(r, q) == End(b, q) && NameAt(r, q) == NameAt(b, q) && r.de[q] == b.de[q]
    {
      OtherName(b, r, p, name, q);
    }
    forall i: nat | i < SLOTS ensures r.bits[i] <==> Used(r, starts + {p}, i) {
      if p <= i < p + n {
        assert End(r, p) == p + n;
      } else if b.bits[i] {
        var q :| q in starts && q < SLOTS && q <= i < End(b, q);
        assert q in starts + {p} && End(r, q) == End(b, q);
      }
    }
  }

  lemma Apart(b: Block, starts: set<nat>, p: nat, n: nat)
    requires Layout(b, starts) && n > 0 && FreeRun(b.bits, p, n)
    ensures forall q :: q in starts ==> End(b, q) <= p || p + n <= q
  {
    forall q | q in starts ensures End(b, q) <= p || p + n <= q {
      if p < End(b, q) && q < p + n {
        var i := if q < p then p else q;
        assert Used(b, starts, i);
      }
    }
  }

  lemma AreaWrite(b: Block, p: nat, name: Name)
    requires Shape(b) && p + SlotsFor(|name|) <= SLOTS
    ensures p * SLOT_LEN + |name| <= |b.area|
    ensures var a := b.area[..p * SLOT_LEN] + name + b.area[p * SLOT_LEN + |name|..];
      |a| == |b.area| && a[p * SLOT_LEN..p * SLOT_LEN + |name|] == name
  {
  }

  /** Slots apart means name bytes apart. */
  lemma OtherName(b: Block, r: Block, p: nat, name: Name, q: nat)
    requires Shape(b) && p + SlotsFor(|name|) <= SLOTS && |name| > 0 && q < SLOTS && q != p && End(b, q) <= SLOTS
    requires End(b, q) <= p || p + SlotsFor(|name|) <= q
    requires Shape(r) && r.de[q] == b.de[q]
    requires p * SLOT_LEN + |name| <= |b.area|
    requires r.area == b.area[..p * SLOT_LEN] + name + b.area[p * SLOT_LEN + |name|..]
    ensures NameAt(r, q) == NameAt(b, q)
  {
    var lo, hi := q * SLOT_LEN, q * SLOT_LEN + b.de[q].len;
    forall i | lo <= i < hi ensures r.area[i] == b.area[i] { }
  }

  /** f2fs_delete_entry on the block: clear the entry's slots */
  function Removed(b: Block, p: nat): (r: Block)
    requires Shape(b) && p < SLOTS
  {
    b.(bits := SetBits(b.bits, p, SlotsFor(b.de[p].len), false))
  }

  lemma RemovedEntries(b: Block, starts: set<nat>, p: nat)
    requires Layout(b, starts) && p in starts
    ensures Layout(Removed(b, p), starts - {p})
    ensures forall q :: q in starts - {p} ==> End(b, q) <= SLOTS && NameAt(Removed(b, p), q) == NameAt(b, q)
  {
    var r := Removed(b, p);
    forall i: nat | i < SLOTS ensures r.bits[i] <==> Used(r, starts - {p}, i) {
      if !(p <= i < End(b, p)) && b.bits[i] {
        var q :| q in starts && q < SLOTS && q <= i < End(b, q);
        assert q in starts - {p} && q <= i < End(r, q);
      }
    }
  }

  /** No bit set means no entry. */
  lemma EmptyBlock(b: Block, starts: set<nat>)
    requires Layout(b, starts) && forall i :: 0 <= i < SLOTS ==> !b.bits[i]
    ensures starts == {}
  {
    if starts != {} {
      var p :| p in starts;
      assert Used(b, starts, p);
    }
  }
}
