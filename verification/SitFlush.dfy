/**
 * The on-disk side of the segment information table: the SIT journal, the two
 * copies of each SIT block, and the flush that brings them up to date with the
 * entries in memory.
 */
module SitFlush {
  import opened Common
  import opened Shadow

  const SIT_ENTRY_PER_BLOCK: nat := 55
  const SIT_JOURNAL_ENTRIES: nat := 6

  /** struct sit_entry_set: how many dirty entries a SIT block has */
  datatype SitSet = SitSet(id: nat, cnt: int)

  function BlockOf(x: nat): (r: nat) { x / SIT_ENTRY_PER_BLOCK }

  ghost function InBlock(d: set<nat>, b: nat): (r: set<nat>) {
    set x | x in d && BlockOf(x) == b
  }

  // ---- the set list ----

  ghost predicate DistinctIds(sets: seq<SitSet>) {
    forall i, k :: 0 <= i < k < |sets| ==> sets[i].id != sets[k].id
  }

  /** Smaller sets come first. */
  ghost predicate Ascending(sets: seq<SitSet>) {
    forall i, k :: 0 <= i < k < |sets| ==> sets[i].cnt <= sets[k].cnt
  }

  /** One set per SIT block with dirty entries, each with their number. */
  ghost predicate SetsFor(d: set<nat>, sets: seq<SitSet>) {
    && DistinctIds(sets)
    && (forall e :: e in sets ==> e.cnt == |InBlock(d, e.id)| && e.cnt > 0)
    && (forall x :: x in d ==> HasSet(sets, BlockOf(x)))
  }

  ghost predicate HasSet(sets: seq<SitSet>, b: nat) {
    sets != [] && (sets[|sets| - 1].id == b || HasSet(sets[..|sets| - 1], b))
  }

  lemma {:induction false} HasSetAt(sets: seq<SitSet>, i: nat)
    requires i < |sets|
    ensures HasSet(sets, sets[i].id)
  {
    if i < |sets| - 1 {
      HasSetAt(sets[..|sets| - 1], i);
    }
  }

  lemma {:induction false} HasSetIndex(sets: seq<SitSet>, b: nat) returns (i: nat)
    requires HasSet(sets, b)
    ensures i < |sets| && sets[i].id == b
  {
    if sets[|sets| - 1].id == b {
      i := |sets| - 1;
    } else {
      i := HasSetIndex(sets[..|sets| - 1], b);
    }
  }

  lemma InBlockAdd(d: set<nat>, x: nat, b: nat)
    requires x !in d
    ensures |InBlock(d + {x}, b)| == |InBlock(d, b)| + if BlockOf(x) == b then 1 else 0
  {
    if BlockOf(x) == b {
      assert InBlock(d + {x}, b) == InBlock(d, b) + {x};
    } else {
      assert InBlock(d + {x}, b) == InBlock(d, b);
    }
  }

  /** A new set at the front. */
  lemma PushSet(d: set<nat>, sets: seq<SitSet>, x: nat)
    requires SetsFor(d, sets) && x !in d && !HasSet(sets, BlockOf(x))
    ensures SetsFor(d + {x}, [SitSet(BlockOf(x), 1)] + sets)
  {
    var r := [SitSet(BlockOf(x), 1)] + sets;
    assert forall i :: 0 < i < |r| ==> r[i] == sets[i - 1];
    forall e | e in r ensures e.cnt == |InBlock(d + {x}, e.id)| && e.cnt > 0 {
      InBlockAdd(d, x, e.id);
      if e.id == BlockOf(x) {
        forall y | y in d ensures BlockOf(y) != BlockOf(x) { assert HasSet(sets, BlockOf(y)); }
        assert InBlock(d, e.id) == {};
      }
    }
    forall y | y in d + {x} ensures HasSet(r, BlockOf(y)) {
      if y == x {
        HasSetAt(r, 0);
      } else {
        var i := HasSetIndex(sets, BlockOf(y));
        HasSetAt(r, i + 1);
      }
    }
  }

  /** Set `k` grows by one and moves back to position `m`. */
  function Moved(sets: seq<SitSet>, k: nat, m: nat): (r: seq<SitSet>)
    requires k <= m < |sets|
  {
    sets[..k] + sets[k + 1..m + 1] + [SitSet(sets[k].id, sets[k].cnt + 1)] + sets[m + 1..]
  }

  function Source(k: nat, m: nat, i: nat): (r: nat) {
    if i < k || i > m then i else if i == m then k else i + 1
  }

  lemma MovedAt(sets: seq<SitSet>, k: nat, m: nat, i: nat)
    requires k <= m < |sets| && i < |sets|
    ensures |Moved(sets, k, m)| == |sets| && Source(k, m, i) < |sets|
    ensures Moved(sets, k, m)[i].id == sets[Source(k, m, i)].id
    ensures Moved(sets, k, m)[i].cnt == sets[Source(k, m, i)].cnt + if i == m then 1 else 0
  {
  }

  lemma MoveSet(d: set<nat>, sets: seq<SitSet>, x: nat, k: nat, m: nat)
    requires SetsFor(d, sets) && x !in d && k <= m < |sets| && sets[k].id == BlockOf(x)
    ensures SetsFor(d + {x}, Moved(sets, k, m))
  {
    MovedIds(sets, k, m);
    var r := Moved(sets, k, m);
    forall e | e in r ensures e.cnt == |InBlock(d + {x}, e.id)| && e.cnt > 0 {
      var i :| 0 <= i < |r| && r[i] == e;
      MovedCount(d, sets, x, k, m, i);
    }
    forall y | y in d + {x} ensures HasSet(r, BlockOf(y)) {
      MovedHas(sets, k, m, if y == x then BlockOf(x) else BlockOf(y));
    }
  }

  lemma MovedIds(sets: seq<SitSet>, k: nat, m: nat)
    requires DistinctIds(sets) && k <= m < |sets|
    ensures DistinctIds(Moved(sets, k, m))
  {
    var r := Moved(sets, k, m);
    forall i, j | 0 <= i < j < |r| ensures r[i].id != r[j].id {
      MovedAt(sets, k, m, i);
      MovedAt(sets, k, m, j);
      assert Source(k, m, i) != Source(k, m, j);
    }
  }

  lemma MovedCount(d: set<nat>, sets: seq<SitSet>, x: nat, k: nat, m: nat, i: nat)
    requires SetsFor(d, sets) && x !in d && k <= m < |sets| && sets[k].id == BlockOf(x) && i < |Moved(sets, k, m)|
    ensures var e := Moved(sets, k, m)[i]; e.cnt == |InBlock(d + {x}, e.id)| && e.cnt > 0
  {
    MovedAt(sets, k, m, i);
    InBlockAdd(d, x, Moved(sets, k, m)[i].id);
    assert sets[Source(k, m, i)] in sets;
    if i != m {
      assert Source(k, m, i) != k;
    }
  }

  lemma MovedHas(sets: seq<SitSet>, k: nat, m: nat, b: nat)
    requires k <= m < |sets| && HasSet(sets, b)
    ensures HasSet(Moved(sets, k, m), b)
  {
    var j := HasSetIndex(sets, b);
    var i := if j < k || j > m then j else if j == k then m else j - 1;
    MovedAt(sets, k, m, i);
    HasSetAt(Moved(sets, k, m), i);
  }

  lemma MovedAscending(sets: seq<SitSet>, k: nat, m: nat)
    requires Ascending(sets) && k <= m < |sets|
    requires forall i :: k < i <= m ==> sets[i].cnt < sets[k].cnt + 1
    requires m + 1 < |sets| ==> sets[k].cnt + 1 <= sets[m + 1].cnt
    ensures Ascending(Moved(sets, k, m))
  {
    var r := Moved(sets, k, m);
    forall i, j | 0 <= i < j < |r| ensures r[i].cnt <= r[j].cnt {
      MovedAt(sets, k, m, i);
      MovedAt(sets, k, m, j);
      if i == m && m + 1 < j {
        assert sets[m + 1].cnt <= sets[j].cnt;
      }
    }
  }

  method FindSet(sets: seq<SitSet>, b: nat) returns (k: nat)
    ensures k <= |sets| && (k < |sets| <==> HasSet(sets, b))
    ensures k < |sets| ==> sets[k].id == b
  {
    k := 0;
    while k < |sets| && sets[k].id != b
      invariant k <= |sets| && forall i :: 0 <= i < k ==> sets[i].id != b
    {
      k := k + 1;
    }
    if k < |sets| {
      HasSetAt(sets, k);
    } else if HasSet(sets, b) {
      ghost var i := HasSetIndex(sets, b);
    }
  }

  /** adjust_sit_entry_set: stop before the first later set that is at least as large */
  method AdjustPosition(sets: seq<SitSet>, k: nat) returns (m: nat)
    requires k < |sets|
    ensures k <= m < |sets|
    ensures forall i :: k < i <= m ==> sets[i].cnt < sets[k].cnt + 1
    ensures m + 1 < |sets| ==> sets[k].cnt + 1 <= sets[m + 1].cnt
  {
    m := k;
    while m + 1 < |sets| && !(sets[k].cnt + 1 <= sets[m + 1].cnt)
      invariant k <= m < |sets| && forall i :: k < i <= m ==> sets[i].cnt < sets[k].cnt + 1
    {
      m := m + 1;
    }
  }

  /** add_sit_entry */
  method AddSitEntry(ghost d: set<nat>, sets: seq<SitSet>, x: nat) returns (r: seq<SitSet>)
    requires SetsFor(d, sets) && Ascending(sets) && x !in d
    ensures SetsFor(d + {x}, r) && Ascending(r)
  {
    var k := FindSet(sets, BlockOf(x));
    if k < |sets| {
      var m := AdjustPosition(sets, k);
      MoveSet(d, sets, x, k, m);
      MovedAscending(sets, k, m);
      r := Moved(sets, k, m);
    } else {
      PushSet(d, sets, x);
      r := [SitSet(BlockOf(x), 1)] + sets;
    }
  }

  /** add_sits_in_set: count every dirty entry */
  method AddSitsInSet(d: set<nat>, segs: nat) returns (sets: seq<SitSet>)
    requires forall x :: x in d ==> x < segs
    ensures SetsFor(d, sets) && Ascending(sets)
  {
    sets := [];
    for x := 0 to segs
      invariant SetsFor(Below(d, x), sets) && Ascending(sets)
    {
      if x in d {
        sets := AddSitEntry(Below(d, x), sets, x);
        assert Below(d, x + 1) == Below(d, x) + {x};
      } else {
        assert Below(d, x + 1) == Below(d, x);
      }
    }
    assert Below(d, segs) == d;
  }

  // ---- the store ----

  ghost predicate JournalOk<T>(t: Table<T>, j: Journal<T>) {
    && Distinct(j) && |j| <= SIT_JOURNAL_ENTRIES
    && forall i :: 0 <= i < |j| ==> BlockOf(j[i].key) < |t.copy0|
  }

  function Persist<T>(t: Table<T>, j: Journal<T>, x: nat): (r: T)
    requires TableOk(t, SIT_ENTRY_PER_BLOCK) && BlockOf(x) < |t.copy0|
  {
    Lookup(t, j, SIT_ENTRY_PER_BLOCK, x)
  }

  /** The table has a block for every segment, and the journal names segments only. */
  ghost predicate StoreOk<T>(t: Table<T>, j: Journal<T>, segs: nat) {
    && TableOk(t, SIT_ENTRY_PER_BLOCK) && JournalOk(t, j)
    && (forall x: nat :: x < segs ==> BlockOf(x) < |t.copy0|)
    && (forall i :: 0 <= i < |j| ==> j[i].key < segs)
  }

  /** Journal and blocks agree with the entries in memory, outside the dirty ones. */
  ghost predicate UpToDate<T>(t: Table<T>, j: Journal<T>, vals: seq<T>, d: set<nat>)
    requires StoreOk(t, j, |vals|)
  {
    forall x :: 0 <= x < |vals| && x !in d ==> Persist(t, j, x) == vals[x]
  }

  class SitStore<T> {
    var journal: Journal<T>
    var table: Table<T>
    var dirty: set<nat>
    var dirtyCnt: int

    ghost predicate Valid(vals: seq<T>)
      reads this
    {
      && StoreOk(table, journal, |vals|)
      && (forall x :: x in dirty ==> x < |vals|) && dirtyCnt == |dirty|
      && UpToDate(table, journal, vals, dirty)
    }

    /** Write one entry to the journal, or to its block once that has been turned over. */
    method WriteEntry(x: nat, vals: seq<T>, toJournal: bool, ghost t0: Table<T>)
      requires Valid(vals) && x in dirty && Shadowed(t0, table)
      requires toJournal ==> |journal| < SIT_JOURNAL_ENTRIES
      requires !toJournal ==> !Has(journal, x) && (BlockOf(x) in t0.bitmap <==> BlockOf(x) !in table.bitmap)
      modifies this
      ensures Valid(vals) && dirty == old(dirty) - {x}
      ensures Shadowed(t0, table) && table.bitmap == old(table).bitmap
      ensures forall m :: Has(journal, m) ==> Has(old(journal), m) || (toJournal && m == x)
      ensures |journal| <= |old(journal)| + if toJournal then 1 else 0
      ensures toJournal ==> table == old(table)
    {
      if toJournal {
        var i := Search(journal, x);
        PutUpToDate(table, journal, vals, dirty, x);
        journal := if i >= 0 then journal[i := Record(x, vals[x])] else journal + [Record(x, vals[x])];
      } else {
        assert BlockOf(x) < |table.copy0|;
        StoreUpToDate(table, journal, vals, dirty, x);
        StoreShadowed(t0, table, SIT_ENTRY_PER_BLOCK, x, vals[x]);
        table := Store(table, SIT_ENTRY_PER_BLOCK, x, vals[x]);
      }
      dirty := dirty - {x};
      dirtyCnt := dirtyCnt - 1;
    }

    /** get_next_sit_page */
    method TurnOver(b: nat, vals: seq<T>, ghost t0: Table<T>)
      requires Valid(vals) && Shadowed(t0, table) && b < |t0.copy0|
      requires b in t0.bitmap <==> b in table.bitmap
      modifies `table
      ensures Valid(vals) && Shadowed(t0, table)
      ensures b in t0.bitmap <==> b !in table.bitmap
      ensures forall c :: c != b ==> (c in table.bitmap <==> c in old(table).bitmap)
    {
      FlipShadowed(t0, table, b, Current(table, b));
      FlipUpToDate(table, journal, vals, dirty, b);
      table := Flip(table, b, Current(table, b));
    }

    /** remove_sits_in_journal: what the journal holds is marked dirty, and the journal emptied */
    method RemoveSitsInJournal(vals: seq<T>, sets: seq<SitSet>) returns (r: seq<SitSet>)
      requires Valid(vals) && SetsFor(dirty, sets) && Ascending(sets)
      modifies `journal, `dirty, `dirtyCnt
      ensures Valid(vals) && SetsFor(dirty, r) && Ascending(r) && journal == []
    {
      r, dirty, dirtyCnt := MarkJournal(journal, sets, dirty, dirtyCnt);
      Weaken(table, journal, vals, old(dirty), dirty);
      EmptyJournal(table, journal, vals, dirty);
      journal := [];
    }

    /** The entries of one set that are still dirty are written, in segment order. */
    method FlushSet(e: SitSet, toJournal: bool, vals: seq<T>, ghost t0: Table<T>, ghost fits: bool)
      requires Valid(vals) && Shadowed(t0, table) && JournalRoom(dirty, journal, SIT_JOURNAL_ENTRIES, fits) && (!toJournal ==> !fits)
      requires e.cnt == |InBlock(dirty, e.id)| && e.cnt > 0
      requires toJournal ==> |journal| + |InBlock(dirty, e.id)| <= SIT_JOURNAL_ENTRIES
      requires !toJournal ==> (e.id in t0.bitmap <==> e.id !in table.bitmap)
      modifies this
      ensures Valid(vals) && Shadowed(t0, table) && JournalRoom(dirty, journal, SIT_JOURNAL_ENTRIES, fits)
      ensures dirty == old(dirty) - InBlock(old(dirty), e.id)
      ensures table.bitmap == old(table).bitmap && (toJournal ==> table == old(table))
    {
      ghost var d := InBlock(dirty, e.id);
      var start := e.id * SIT_ENTRY_PER_BLOCK;
      var end := if start + SIT_ENTRY_PER_BLOCK < |vals| then start + SIT_ENTRY_PER_BLOCK else |vals|;
      BlockStart(dirty, e.id, |vals|);
      for x := start to end
        invariant Valid(vals) && Shadowed(t0, table) && JournalRoom(dirty, journal, SIT_JOURNAL_ENTRIES, fits)
        invariant toJournal ==> |journal| + |InBlock(dirty, e.id)| <= SIT_JOURNAL_ENTRIES
        invariant table.bitmap == old(table).bitmap && (toJournal ==> table == old(table))
        invariant dirty == old(dirty) - Below(d, x)
      {
        FlushAt(x, e.id, toJournal, vals, t0, fits, old(dirty));
      }
      BlockRange(old(dirty), e.id, |vals|, end);
    }

    method FlushAt(x: nat, b: nat, toJournal: bool, vals: seq<T>, ghost t0: Table<T>, ghost fits: bool, ghost d: set<nat>)
      requires Valid(vals) && b * SIT_ENTRY_PER_BLOCK <= x < (b + 1) * SIT_ENTRY_PER_BLOCK
      requires dirty == d - Below(InBlock(d, b), x)
      requires Shadowed(t0, table) && JournalRoom(dirty, journal, SIT_JOURNAL_ENTRIES, fits) && (!toJournal ==> !fits)
      requires toJournal ==> |journal| + |InBlock(dirty, b)| <= SIT_JOURNAL_ENTRIES
      requires !toJournal ==> (b in t0.bitmap <==> b !in table.bitmap)
      modifies this
      ensures Valid(vals) && Shadowed(t0, table) && JournalRoom(dirty, journal, SIT_JOURNAL_ENTRIES, fits)
      ensures toJournal ==> |journal| + |InBlock(dirty, b)| <= SIT_JOURNAL_ENTRIES
      ensures dirty == d - Below(InBlock(d, b), x + 1) && table.bitmap == old(table).bitmap
      ensures toJournal ==> table == old(table)
    {
      BelowStep(InBlock(d, b), x);
      assert BlockOf(x) == b;
      if x in dirty {
        FlushOne(x, b, toJournal, vals, t0, fits);
      }
    }

    method FlushOne(x: nat, b: nat, toJournal: bool, vals: seq<T>, ghost t0: Table<T>, ghost fits: bool)
      requires Valid(vals) && x in dirty && BlockOf(x) == b
      requires Shadowed(t0, table) && JournalRoom(dirty, journal, SIT_JOURNAL_ENTRIES, fits) && (!toJournal ==> !fits)
      requires toJournal ==> |journal| + |InBlock(dirty, b)| <= SIT_JOURNAL_ENTRIES
      requires !toJournal ==> (b in t0.bitmap <==> b !in table.bitmap)
      modifies this
      ensures Valid(vals) && Shadowed(t0, table) && JournalRoom(dirty, journal, SIT_JOURNAL_ENTRIES, fits)
      ensures toJournal ==> |journal| + |InBlock(dirty, b)| <= SIT_JOURNAL_ENTRIES
      ensures dirty == old(dirty) - {x} && table.bitmap == old(table).bitmap
      ensures toJournal ==> table == old(table)
    {
      InBlockAdd(dirty - {x}, x, b);
      assert dirty - {x} + {x} == dirty;
      WriteEntry(x, vals, toJournal, t0);
    }

    /**
     * flush_sit_entries: afterwards nothing is dirty, journal and blocks hold
     * every entry, and every block was turned over at most once; if the
     * journal has room for all that was dirty no block is touched.
     */
    method Flush(vals: seq<T>)
      requires Valid(vals)
      modifies this
      ensures Valid(vals) && dirty == {}
      ensures Shadowed(old(table), table)
      ensures |old(journal)| + |old(dirty)| <= SIT_JOURNAL_ENTRIES ==> table == old(table)
    {
      ShadowedRefl(table);
      if dirtyCnt == 0 {
        return;
      }
      var sets := AddSitsInSet(dirty, |vals|);
      ghost var fits := dirtyCnt <= SIT_JOURNAL_ENTRIES - |journal|;
      if !(dirtyCnt <= SIT_JOURNAL_ENTRIES - |journal|) {
        sets := RemoveSitsInJournal(vals, sets);
      }
      FlushSets(sets, vals, table, fits);
    }

    method FlushSets(sets: seq<SitSet>, vals: seq<T>, ghost t0: Table<T>, ghost fits: bool)
      requires Valid(vals) && t0 == table && SetsFor(dirty, sets) && JournalRoom(dirty, journal, SIT_JOURNAL_ENTRIES, fits)
      modifies this
      ensures Valid(vals) && dirty == {} && Shadowed(t0, table) && (fits ==> table == t0)
    {
      ShadowedRefl(table);
      var toJournal := true;
      var k := 0;
      assert sets[0..] == sets;
      while k < |sets|
        invariant 0 <= k <= |sets| && Valid(vals) && Shadowed(t0, table) && JournalRoom(dirty, journal, SIT_JOURNAL_ENTRIES, fits)
        invariant SetsFor(dirty, sets[k..]) && (!toJournal ==> !fits) && (fits ==> table == t0)
        invariant forall i :: k <= i < |sets| ==> (sets[i].id in t0.bitmap <==> sets[i].id in table.bitmap)
      {
        toJournal := FlushNextSet(sets, k, toJournal, vals, t0, fits);
        k := k + 1;
      }
    }

    method FlushNextSet(sets: seq<SitSet>, k: nat, inJournal: bool, vals: seq<T>, ghost t0: Table<T>, ghost fits: bool)
      returns (toJournal: bool)
      requires k < |sets| && Valid(vals) && Shadowed(t0, table) && JournalRoom(dirty, journal, SIT_JOURNAL_ENTRIES, fits)
      requires SetsFor(dirty, sets[k..]) && (!inJournal ==> !fits)
      requires forall i :: k <= i < |sets| ==> (sets[i].id in t0.bitmap <==> sets[i].id in table.bitmap)
      modifies this
      ensures Valid(vals) && Shadowed(t0, table) && JournalRoom(dirty, journal, SIT_JOURNAL_ENTRIES, fits)
      ensures SetsFor(dirty, sets[k + 1..]) && (!toJournal ==> !fits) && (fits ==> table == old(table))
      ensures forall i :: k < i < |sets| ==> (sets[i].id in t0.bitmap <==> sets[i].id in table.bitmap)
    {
      var e := sets[k];
      assert sets[k..][0] == e;
      SetFits(dirty, e, |vals|, |t0.copy0|);
      toJournal := inJournal && e.cnt <= SIT_JOURNAL_ENTRIES - |journal|;
      if !toJournal {
        TurnOver(e.id, vals, t0);
      }
      FlushSet(e, toJournal, vals, t0, fits);
      NextSet(old(dirty), sets, k);
    }
  }

  /** The reads of build_sit_entries: the journal first, then the current block. */
  method LoadEntries<T>(t: Table<T>, j: Journal<T>, segs: nat) returns (vals: seq<T>)
    requires StoreOk(t, j, segs)
    ensures |vals| == segs && forall x :: 0 <= x < segs ==> vals[x] == Persist(t, j, x)
  {
    vals := [];
    for x := 0 to segs
      invariant |vals| == x && forall y :: 0 <= y < x ==> vals[y] == Persist(t, j, y)
    {
      assert BlockOf(x) < |t.copy0|;
      var i := Search(j, x);
      var v := if i >= 0 then j[i].val else Current(t, BlockOf(x))[x % SIT_ENTRY_PER_BLOCK];
      vals := vals + [v];
    }
  }

  ghost function Keys<T>(j: Journal<T>): (r: set<nat>) {
    set k | 0 <= k < |j| :: j[k].key
  }

  /** __mark_sit_entry_dirty for every journal entry, last one first, with the account of the newly dirty ones */
  method MarkJournal<T>(j: Journal<T>, sets: seq<SitSet>, d: set<nat>, cnt: int)
    returns (sets': seq<SitSet>, d': set<nat>, cnt': int)
    requires SetsFor(d, sets) && Ascending(sets) && cnt == |d|
    ensures SetsFor(d', sets') && Ascending(sets') && cnt' == |d'| && d <= d'
    ensures forall k :: 0 <= k < |j| ==> j[k].key in d'
    ensures d' <= d + Keys(j)
  {
    sets', d', cnt' := sets, d, cnt;
    var i := |j|;
    while i > 0
      invariant 0 <= i <= |j| && SetsFor(d', sets') && Ascending(sets') && cnt' == |d'| && d <= d'
      invariant forall k :: i <= k < |j| ==> j[k].key in d'
      invariant d' <= d + Keys(j)
    {
      i := i - 1;
      var x := j[i].key;
      if x !in d' {
        sets' := AddSitEntry(d', sets', x);
        d', cnt' := d' + {x}, cnt' + 1;
      }
    }
  }

  lemma Weaken<T>(t: Table<T>, j: Journal<T>, vals: seq<T>, d: set<nat>, e: set<nat>)
    requires StoreOk(t, j, |vals|) && UpToDate(t, j, vals, d) && d <= e
    requires (forall x :: x in d ==> x < |vals|) && e <= d + Keys(j)
    ensures UpToDate(t, j, vals, e) && forall x :: x in e ==> x < |vals|
  {
  }

  /** A journal that speaks of dirty entries only can be emptied. */
  lemma EmptyJournal<T>(t: Table<T>, j: Journal<T>, vals: seq<T>, d: set<nat>)
    requires StoreOk(t, j, |vals|) && UpToDate(t, j, vals, d)
    requires forall k :: 0 <= k < |j| ==> j[k].key in d
    ensures StoreOk(t, [], |vals|) && UpToDate(t, [], vals, d)
  {
    forall m | 0 <= m < |vals| && m !in d ensures BlockOf(m) < |t.copy0| && Persist(t, [], m) == vals[m] {
      assert Persist(t, j, m) == vals[m];
    }
  }

  lemma PutUpToDate<T>(t: Table<T>, j: Journal<T>, vals: seq<T>, d: set<nat>, x: nat)
    requires StoreOk(t, j, |vals|) && UpToDate(t, j, vals, d) && x < |vals| && |j| < SIT_JOURNAL_ENTRIES
    ensures StoreOk(t, Put(j, x, vals[x]), |vals|) && UpToDate(t, Put(j, x, vals[x]), vals, d - {x})
    ensures |Put(j, x, vals[x])| <= |j| + 1
    ensures forall m :: Has(Put(j, x, vals[x]), m) ==> Has(j, m) || m == x
  {
    var p := Put(j, x, vals[x]);
    PutFind(j, x, vals[x], x);
    forall m | Has(p, m) ensures Has(j, m) || m == x { PutFind(j, x, vals[x], m); }
    PutKeys(j, x, vals[x], |vals|);
    assert BlockOf(x) < |t.copy0|;
    forall m | 0 <= m < |vals| && m !in d - {x} ensures Persist(t, p, m) == vals[m] {
      assert BlockOf(m) < |t.copy0|;
      PutLookup(t, j, SIT_ENTRY_PER_BLOCK, x, vals[x], m);
    }
  }

  lemma PutKeys<T>(j: Journal<T>, x: nat, v: T, segs: nat)
    requires x < segs && forall i :: 0 <= i < |j| ==> j[i].key < segs
    ensures forall i :: 0 <= i < |Put(j, x, v)| ==> Put(j, x, v)[i].key < segs
  {
  }

  lemma StoreUpToDate<T>(t: Table<T>, j: Journal<T>, vals: seq<T>, d: set<nat>, x: nat)
    requires StoreOk(t, j, |vals|) && UpToDate(t, j, vals, d) && x < |vals| && BlockOf(x) < |t.copy0| && !Has(j, x)
    ensures var u := Store(t, SIT_ENTRY_PER_BLOCK, x, vals[x]);
      StoreOk(u, j, |vals|) && UpToDate(u, j, vals, d - {x})
  {
    StoreLookup(t, j, SIT_ENTRY_PER_BLOCK, x, vals[x], x);
    forall m | 0 <= m < |vals| && m !in d - {x}
      ensures Persist(Store(t, SIT_ENTRY_PER_BLOCK, x, vals[x]), j, m) == vals[m]
    {
      assert BlockOf(m) < |t.copy0|;
      StoreLookup(t, j, SIT_ENTRY_PER_BLOCK, x, vals[x], m);
    }
  }

  lemma FlipUpToDate<T>(t: Table<T>, j: Journal<T>, vals: seq<T>, d: set<nat>, b: nat)
    requires StoreOk(t, j, |vals|) && UpToDate(t, j, vals, d) && b < |t.copy0|
    ensures var u := Flip(t, b, Current(t, b)); StoreOk(u, j, |vals|) && UpToDate(u, j, vals, d)
  {
    var u := Flip(t, b, Current(t, b));
    assert TableOk(u, SIT_ENTRY_PER_BLOCK);
    forall m | 0 <= m < |vals| && m !in d ensures Persist(u, j, m) == vals[m] {
      assert BlockOf(m) < |t.copy0|;
      FlipLookup(t, j, SIT_ENTRY_PER_BLOCK, b, m);
    }
  }

  lemma BlockStart(d: set<nat>, b: nat, segs: nat)
    requires |InBlock(d, b)| > 0 && forall x :: x in d ==> x < segs
    ensures b * SIT_ENTRY_PER_BLOCK <= segs
    ensures Below(InBlock(d, b), b * SIT_ENTRY_PER_BLOCK) == {}
  {
    var x :| x in InBlock(d, b);
  }

  lemma BlockRange(d: set<nat>, b: nat, segs: nat, end: nat)
    requires forall x :: x in d ==> x < segs
    requires end >= b * SIT_ENTRY_PER_BLOCK + SIT_ENTRY_PER_BLOCK || end >= segs
    ensures Below(InBlock(d, b), end) == InBlock(d, b)
  {
  }

  /** A set's count is positive and at most the number of dirty entries; its block exists. */
  lemma SetFits(d: set<nat>, e: SitSet, segs: nat, blocks: nat)
    requires e.cnt == |InBlock(d, e.id)| && e.cnt > 0
    requires forall x :: x in d ==> x < segs
    requires forall x: nat :: x < segs ==> BlockOf(x) < blocks
    ensures e.id < blocks && e.cnt <= |d|
  {
    var x :| x in InBlock(d, e.id);
    assert d == InBlock(d, e.id) + (d - InBlock(d, e.id));
  }

  lemma NextSet(d: set<nat>, sets: seq<SitSet>, k: nat)
    requires k < |sets| && SetsFor(d, sets[k..])
    ensures SetsFor(d - InBlock(d, sets[k].id), sets[k + 1..])
  {
    var b := sets[k].id;
    var r := d - InBlock(d, b);
    var s, t := sets[k..], sets[k + 1..];
    assert t == s[1..] && s[0].id == b;
    forall e | e in t ensures e.cnt == |InBlock(r, e.id)| && e.cnt > 0 {
      var i :| 0 <= i < |t| && t[i] == e;
      assert s[i + 1] == e;
      assert InBlock(r, e.id) == InBlock(d, e.id);
    }
    forall x | x in r ensures HasSet(t, BlockOf(x)) {
      var i := HasSetIndex(s, BlockOf(x));
      assert i > 0 && t[i - 1] == s[i];
      HasSetAt(t, i - 1);
    }
  }
}
