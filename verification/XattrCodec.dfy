/**
 * The byte format of extended attributes: a header, entries aligned to four
 * bytes, and a zero word that ends the list.
 */
module XattrCodec {
  import opened Common

  const HEADER: nat := 24            // sizeof(struct f2fs_xattr_header)
  const FIXED: nat := 4              // sizeof(struct f2fs_xattr_entry)

  type Bytes = seq<nat>

  datatype Key = Key(index: nat, name: Bytes)

  datatype Entry = Entry(key: Key, value: Bytes)

  /** XATTR_ALIGN */
  function Align(n: nat): (r: nat)
    ensures n <= r < n + 4
  {
    (n + 3) / 4 * 4
  }

  function Zeros(n: nat): (r: Bytes)
    ensures |r| == n && forall i :: 0 <= i < n ==> r[i] == 0
  {
    seq(n, i => 0)
  }

  /** The fields fit their bytes, and the entry is not mistaken for the end. */
  predicate EntryOk(e: Entry) {
    && e.key.index < 256 && |e.key.name| < 256 && |e.value| < 65536
    && !(e.key.index == 0 && |e.key.name| == 0 && |e.value| == 0)
  }

  function Size(e: Entry): (r: nat)
    ensures r >= FIXED
  {
    Align(FIXED + |e.key.name| + |e.value|)
  }

  function Enc(e: Entry): (r: Bytes)
    ensures |r| == Size(e)
  {
    [e.key.index, |e.key.name|, |e.value| % 256, |e.value| / 256] + e.key.name + e.value
    + Zeros(Size(e) - (FIXED + |e.key.name| + |e.value|))
  }

  /** The one entry whose first word is that of the end mark. */
  lemma EndMark(e: Entry)
    ensures Enc(e)[..4] == Zeros(4) <==> e == Entry(Key(0, []), [])
  {
    assert Enc(e)[..4] == [e.key.index, |e.key.name|, |e.value| % 256, |e.value| / 256];
    assert Zeros(4) == [0, 0, 0, 0];
    assert |e.value| == |e.value| / 256 * 256 + |e.value| % 256;
  }

  function EncAll(es: seq<Entry>): (r: Bytes) {
    if es == [] then [] else EncAll(es[..|es| - 1]) + Enc(es[|es| - 1])
  }

  // ---- a buffer that holds entries ----

  /** Header, entries, and zero bytes to the end, at least the four of the end mark. */
  ghost predicate Holds(b: Bytes, es: seq<Entry>) {
    && HEADER + |EncAll(es)| + 4 <= |b|
    && b[HEADER..] == EncAll(es) + Zeros(|b| - HEADER - |EncAll(es)|)
    && (forall i :: 0 <= i < |es| ==> EntryOk(es[i]))
  }

  /** Byte offset of entry `i`, or of the end for i == |es|. */
  ghost function OffsetOf(es: seq<Entry>, i: nat): (r: nat)
    requires i <= |es|
  {
    HEADER + |EncAll(es[..i])|
  }

  lemma {:induction false} EncSplit(es: seq<Entry>, i: nat)
    requires i <= |es|
    ensures EncAll(es) == EncAll(es[..i]) + EncAll(es[i..])
  {
    if i == |es| {
      assert es[..i] == es && es[i..] == [];
    } else {
      var k := |es| - 1;
      var front, rest := es[..k], es[i..];
      EncSplit(front, i);
      assert front[..i] == es[..i] && front[i..] == es[i..k];
      assert rest[..|rest| - 1] == es[i..k] && rest[|rest| - 1] == es[k];
      Join(EncAll(es[..i]), EncAll(es[i..k]), Enc(es[k]));
    }
  }

  lemma Join(a: Bytes, b: Bytes, c: Bytes)
    ensures (a + b) + c == a + (b + c)
  {
  }

  lemma {:induction false} EncStep(es: seq<Entry>, i: nat)
    requires i < |es|
    ensures EncAll(es[..i + 1]) == EncAll(es[..i]) + Enc(es[i])
    ensures OffsetOf(es, i + 1) == OffsetOf(es, i) + Size(es[i])
  {
    assert es[..i + 1][..i] == es[..i];
  }

  /** Around entry `i`: what lies before, the entry, and what lies behind. */
  lemma {:induction false} EncAround(es: seq<Entry>, i: nat)
    requires i < |es|
    ensures EncAll(es) == EncAll(es[..i]) + Enc(es[i]) + EncAll(es[i + 1..])
  {
    EncSplit(es, i + 1);
    EncStep(es, i);
  }

  /** The bytes at the offset of entry `i` are that entry's. */
  lemma {:induction false} EntryBytes(b: Bytes, es: seq<Entry>, i: nat)
    requires Holds(b, es) && i < |es|
    ensures var o := OffsetOf(es, i);
      && o + Size(es[i]) + 4 <= |b|
      && b[o..o + Size(es[i])] == Enc(es[i])
  {
    EncAround(es, i);
    var pre, post := EncAll(es[..i]), EncAll(es[i + 1..]);
    var z := Zeros(|b| - HEADER - |EncAll(es)|);
    Behind(b, HEADER, pre, Enc(es[i]), post, z);
  }

  lemma Behind(b: Bytes, o: nat, pre: Bytes, x: Bytes, post: Bytes, z: Bytes)
    requires o <= |b| && b[o..] == pre + x + post + z
    ensures o + |pre| + |x| + |z| <= |b| && b[o + |pre|..o + |pre| + |x|] == x
  {
    Middle(b[o..], pre, x, post, z);
    Slice(b, o, |b| - o, |pre|, |pre| + |x|);
    assert b[o..o + (|b| - o)] == b[o..];
  }

  lemma Middle(w: Bytes, pre: Bytes, x: Bytes, post: Bytes, z: Bytes)
    requires w == pre + x + post + z
    ensures |pre| + |x| <= |w| && w[|pre|..|pre| + |x|] == x
  {
  }

  lemma Slice(b: Bytes, o: nat, n: nat, i: nat, k: nat)
    requires o + n <= |b| && i <= k <= n
    ensures b[o..o + n][i..k] == b[o + i..o + k]
  {
    var x, y := b[o..o + n][i..k], b[o + i..o + k];
    assert |x| == |y|;
    forall j | 0 <= j < |x| ensures x[j] == y[j] {
      assert x[j] == b[o..o + n][i + j];
    }
  }

  /** The bytes at `o` read as entry `e`. */
  ghost predicate Shows(b: Bytes, o: nat, e: Entry) {
    && o + Size(e) + 4 <= |b|
    && b[o] == e.key.index && b[o + 1] == |e.key.name|
    && b[o + 2] + 256 * b[o + 3] == |e.value|
    && b[o + 4..o + 4 + |e.key.name|] == e.key.name
    && b[o + 4 + |e.key.name|..o + 4 + |e.key.name| + |e.value|] == e.value
    && !(b[o] == 0 && b[o + 1] == 0 && b[o + 2] == 0 && b[o + 3] == 0)
  }

  /** Reading the fields of entry `i`. */
  lemma {:induction false} ReadEntry(b: Bytes, es: seq<Entry>, i: nat)
    requires Holds(b, es) && i < |es|
    ensures Shows(b, OffsetOf(es, i), es[i])
  {
    EntryBytes(b, es, i);
    EncFields(es[i]);
    ShowsIf(b, OffsetOf(es, i), es[i]);
  }

  lemma EncFields(e: Entry)
    ensures var w, n, v := Enc(e), |e.key.name|, |e.value|;
      && w[0] == e.key.index && w[1] == n && w[2] == v % 256 && w[3] == v / 256
      && w[4..4 + n] == e.key.name && w[4 + n..4 + n + v] == e.value
  {
  }

  lemma {:induction false} ShowsIf(b: Bytes, o: nat, e: Entry)
    requires EntryOk(e) && o + Size(e) + 4 <= |b| && b[o..o + Size(e)] == Enc(e)
    ensures Shows(b, o, e)
  {
    EncFields(e);
    var w, n, v := b[o..o + Size(e)], |e.key.name|, |e.value|;
    assert w[0] == b[o] && w[1] == b[o + 1] && w[2] == b[o + 2] && w[3] == b[o + 3];
    Slice(b, o, Size(e), 4, 4 + n);
    Slice(b, o, Size(e), 4 + n, 4 + n + v);
  }

  /** Behind the last entry there is a zero word. */
  lemma {:induction false} ReadEnd(b: Bytes, es: seq<Entry>)
    requires Holds(b, es)
    ensures var o := OffsetOf(es, |es|);
      o + 4 <= |b| && forall k :: o <= k < |b| ==> b[k] == 0
  {
    assert es[..|es|] == es;
    var o := OffsetOf(es, |es|);
    forall k | o <= k < |b| ensures b[k] == 0 {
      assert b[HEADER..][k - HEADER] == b[k];
    }
  }

  /** All a walk over the buffer needs: where the entries are, what they show, and where they end. */
  ghost predicate Walkable(b: Bytes, es: seq<Entry>, at: seq<nat>) {
    && |at| == |es| + 1 && at[0] == HEADER
    && (forall i :: 0 <= i < |es| ==> Shows(b, at[i], es[i]) && at[i + 1] == at[i] + Size(es[i]))
    && at[|es|] + 4 <= |b| && (forall k :: at[|es|] <= k < |b| ==> b[k] == 0)
  }

  ghost function Offsets(es: seq<Entry>): (r: seq<nat>)
    ensures |r| == |es| + 1 && forall i :: 0 <= i <= |es| ==> r[i] == OffsetOf(es, i)
  {
    seq(|es| + 1, i requires 0 <= i <= |es| => OffsetOf(es, i))
  }

  lemma {:induction false} HoldsWalkable(b: Bytes, es: seq<Entry>)
    requires Holds(b, es)
    ensures Walkable(b, es, Offsets(es))
  {
    ReadEnd(b, es);
    assert es[..0] == [];
    forall i | 0 <= i < |es| ensures Shows(b, OffsetOf(es, i), es[i]) && OffsetOf(es, i + 1) == OffsetOf(es, i) + Size(es[i]) {
      ReadEntry(b, es, i);
      EncStep(es, i);
    }
  }

  /** Enc byte by byte. */
  lemma EncByte(e: Entry, j: nat)
    requires j < Size(e)
    ensures Enc(e)[j] ==
      if j == 0 then e.key.index else if j == 1 then |e.key.name|
      else if j == 2 then |e.value| % 256 else if j == 3 then |e.value| / 256
      else if j < 4 + |e.key.name| then e.key.name[j - 4]
      else if j < 4 + |e.key.name| + |e.value| then e.value[j - 4 - |e.key.name|]
      else 0
  {
  }

  // ---- the map the entries stand for ----

  ghost predicate Unique(es: seq<Entry>) {
    forall i, k :: 0 <= i < k < |es| ==> es[i].key != es[k].key
  }

  ghost function Get(es: seq<Entry>, key: Key): (r: Option<Bytes>) {
    if i :| 0 <= i < |es| && es[i].key == key then Some(es[i].value) else None
  }

  lemma GetAt(es: seq<Entry>, i: nat)
    requires Unique(es) && i < |es|
    ensures Get(es, es[i].key) == Some(es[i].value)
  {
  }

  /** Entry `i` taken out. */
  function Drop(es: seq<Entry>, i: nat): (r: seq<Entry>)
    requires i < |es|
  {
    es[..i] + es[i + 1..]
  }

  lemma DropGet(es: seq<Entry>, i: nat, k: Key)
    requires Unique(es) && i < |es|
    ensures Unique(Drop(es, i))
    ensures Get(Drop(es, i), k) == if k == es[i].key then None else Get(es, k)
  {
    var r := Drop(es, i);
    assert forall j :: 0 <= j < |r| ==> r[j] == es[if j < i then j else j + 1];
    if k != es[i].key {
      if j :| 0 <= j < |es| && es[j].key == k {
        var at := if j < i then j else j - 1;
        assert r[at] == es[j];
        GetAt(r, at);
        GetAt(es, j);
      }
    }
  }

  lemma PushGet(es: seq<Entry>, e: Entry, k: Key)
    requires Unique(es) && forall i :: 0 <= i < |es| ==> es[i].key != e.key
    ensures Unique(es + [e])
    ensures Get(es + [e], k) == if k == e.key then Some(e.value) else Get(es, k)
  {
    var r := es + [e];
    assert r[|es|] == e;
    if k == e.key {
      GetAt(r, |es|);
    } else if j :| 0 <= j < |es| && es[j].key == k {
      assert r[j] == es[j];
      GetAt(r, j);
      GetAt(es, j);
    }
  }

  // ---- the edits, on bytes ----

  /** Bytes taken out of the middle, and as many zeros put in behind. */
  lemma CutBytes(b: Bytes, pre: Bytes, x: Bytes, post: Bytes, z: Bytes, here: nat, last: nat)
    requires |b| >= HEADER && b[HEADER..] == pre + x + post + z
    requires here == HEADER + |pre| && last == here + |x| + |post|
    ensures last <= |b|
    ensures |b[..here] + b[here + |x|..last] + Zeros(|x|) + b[last..]| == |b|
    ensures (b[..here] + b[here + |x|..last] + Zeros(|x|) + b[last..])[HEADER..] == pre + post + Zeros(|x|) + z
  {
    FourParts(b, HEADER, pre, x, post, z);
    assert b[..here][HEADER..] == b[HEADER..here] == pre;
    TailOf(b[..here], b[here + |x|..last], Zeros(|x|), b[last..], HEADER);
  }

  /** The parts of what lies behind an offset, by their own offsets. */
  lemma FourParts(b: Bytes, o: nat, pre: Bytes, x: Bytes, post: Bytes, z: Bytes)
    requires o <= |b| && b[o..] == pre + x + post + z
    ensures |b| == o + |pre| + |x| + |post| + |z|
    ensures b[o..o + |pre|] == pre && b[o + |pre| + |x|..o + |pre| + |x| + |post|] == post
    ensures b[o + |pre| + |x| + |post|..] == z
  {
    assert |b[o..]| == |pre| + |x| + |post| + |z|;
    Behind(b, o, [], pre, x + post, z) by {
      assert pre + x + post + z == [] + pre + (x + post) + z;
    }
    Behind(b, o, pre + x, post, [], z) by {
      assert pre + x + post + z == (pre + x) + post + [] + z;
    }
    var n := |pre| + |x| + |post|;
    assert b[o..][n..] == b[o + n..];
    assert (pre + x + post + z)[n..] == z;
  }

  lemma TailOf(a: Bytes, b: Bytes, c: Bytes, d: Bytes, o: nat)
    requires o <= |a|
    ensures (a + b + c + d)[o..] == a[o..] + b + c + d
  {
  }

  lemma {:induction false} EncDrop(es: seq<Entry>, i: nat)
    requires i < |es|
    ensures EncAll(Drop(es, i)) == EncAll(es[..i]) + EncAll(es[i + 1..])
  {
    EncSplit(Drop(es, i), i);
    assert Drop(es, i)[..i] == es[..i] && Drop(es, i)[i..] == es[i + 1..];
  }

  lemma JoinZeros(m: nat, n: nat)
    ensures Zeros(m) + Zeros(n) == Zeros(m + n)
  {
  }

  lemma DropOffsets(es: seq<Entry>, i: nat)
    requires i < |es|
    ensures var pre, post := EncAll(es[..i]), EncAll(es[i + 1..]);
      && OffsetOf(es, i) == HEADER + |pre|
      && OffsetOf(es, |es|) == HEADER + |EncAll(es)| == HEADER + |pre| + Size(es[i]) + |post|
      && |Drop(es, i)| == |es| - 1 && OffsetOf(Drop(es, i), |es| - 1) == HEADER + |pre| + |post|
  {
    assert es[..|es|] == es && Drop(es, i)[..|es| - 1] == Drop(es, i);
    EncAround(es, i);
    EncDrop(es, i);
  }

  /** memmove of the bytes behind an entry to its place, then zeros where they ended. */
  lemma {:induction false} DropBytes(b: Bytes, es: seq<Entry>, i: nat, here: nat, size: nat, last: nat)
    requires Holds(b, es) && i < |es|
    requires here == OffsetOf(es, i) && size == Size(es[i]) && last == OffsetOf(es, |es|)
    ensures here + size <= last <= |b|
    ensures Holds(b[..here] + b[here + size..last] + Zeros(size) + b[last..], Drop(es, i))
    ensures OffsetOf(Drop(es, i), |es| - 1) == last - size
  {
    DropOffsets(es, i);
    EncAround(es, i);
    EncDrop(es, i);
    var pre, post := EncAll(es[..i]), EncAll(es[i + 1..]);
    var k := |b| - HEADER - |EncAll(es)|;
    DropEntriesOk(es, i);
    CutHolds(b, Drop(es, i), pre, Enc(es[i]), post, k, here, last);
  }

  lemma {:induction false} CutHolds(b: Bytes, es: seq<Entry>, pre: Bytes, x: Bytes, post: Bytes, k: nat, here: nat, last: nat)
    requires |b| >= HEADER && b[HEADER..] == pre + x + post + Zeros(k) && k >= 4
    requires here == HEADER + |pre| && last == here + |x| + |post|
    requires EncAll(es) == pre + post && forall i :: 0 <= i < |es| ==> EntryOk(es[i])
    ensures last <= |b|
    ensures Holds(b[..here] + b[here + |x|..last] + Zeros(|x|) + b[last..], es)
  {
    CutBytes(b, pre, x, post, Zeros(k), here, last);
    ZerosBehind(pre + post, |x|, k);
    HoldsIf(b[..here] + b[here + |x|..last] + Zeros(|x|) + b[last..], es, pre + post, |x| + k);
  }

  lemma {:induction false} HoldsIf(r: Bytes, es: seq<Entry>, w: Bytes, m: nat)
    requires |r| >= HEADER && r[HEADER..] == w + Zeros(m) && w == EncAll(es) && m >= 4
    requires forall k :: 0 <= k < |es| ==> EntryOk(es[k])
    ensures Holds(r, es)
  {
    assert |r[HEADER..]| == |w| + m;
    assert m == |r| - HEADER - |w|;
  }

  lemma ZerosBehind(w: Bytes, n: nat, k: nat)
    ensures w + Zeros(n) + Zeros(k) == w + Zeros(n + k)
  {
    JoinZeros(n, k);
    Join(w, Zeros(n), Zeros(k));
  }

  lemma DropEntriesOk(es: seq<Entry>, i: nat)
    requires i < |es| && forall k :: 0 <= k < |es| ==> EntryOk(es[k])
    ensures forall k :: 0 <= k < |Drop(es, i)| ==> EntryOk(Drop(es, i)[k])
  {
  }

  /** A new entry written over the end mark. */
  lemma {:induction false} PushBytes(b: Bytes, es: seq<Entry>, e: Entry)
    requires Holds(b, es) && EntryOk(e) && OffsetOf(es, |es|) + Size(e) + 4 <= |b|
    ensures var last := OffsetOf(es, |es|);
      Holds(b[..last] + Enc(e) + b[last + Size(e)..], es + [e])
  {
    assert es[..|es|] == es;
    var last := OffsetOf(es, |es|);
    var r := b[..last] + Enc(e) + b[last + Size(e)..];
    ReadEnd(b, es);
    var all := EncAll(es);
    assert b[..last][HEADER..] == b[HEADER..][..|all|] == all;
    assert b[last + Size(e)..] == Zeros(|b| - last - Size(e));
    assert (es + [e])[..|es|] == es;
    assert EncAll(es + [e]) == all + Enc(e);
    assert r[HEADER..] == all + Enc(e) + Zeros(|b| - last - Size(e));
  }
}
