/**
 * The tree of extents an inode has when the extent_cache option is on: an
 * ordered set of extents that is searched, split and merged as block addresses
 * change, against the block map it shortcuts.
 *
 * The red-black tree is a search tree of any shape; its nodes in order are the
 * extents.  What the code does to it depends on the order alone.
 */
module ExtentTree {
  import opened Common
  import opened Extent

  function End(e: Info): (r: nat) { e.fofs + e.len }

  /** __is_extent_mergeable */
  predicate Mergeable(back: Info, front: Info) {
    End(back) == front.fofs && back.blk + back.len == front.blk
  }

  /** In order, apart, and none empty. */
  ghost predicate Sorted(s: seq<Info>) {
    && (forall i :: 0 <= i < |s| ==> s[i].len > 0)
    && (forall i, j :: 0 <= i < j < |s| ==> End(s[i]) <= s[j].fofs)
  }

  /** No two neighbours could be one extent. */
  ghost predicate Maximal(s: seq<Info>) {
    forall i :: 0 <= i < |s| - 1 ==> !Mergeable(s[i], s[i + 1])
  }

  ghost predicate Agrees(s: seq<Info>, m: BlockMap) {
    forall i :: 0 <= i < |s| ==> Predicts(s[i], m)
  }

  ghost predicate Apart(s: seq<Info>, e: Info) {
    forall i :: 0 <= i < |s| ==> End(s[i]) <= e.fofs || End(e) <= s[i].fofs
  }

  // ---- inserting ----

  /** How many extents start before `x`. */
  function Rank(s: seq<Info>, x: nat): (r: nat)
    ensures r <= |s| && (forall i :: 0 <= i < r ==> s[i].fofs < x) && (r < |s| ==> s[r].fofs >= x)
  {
    if s == [] || s[0].fofs >= x then 0 else 1 + Rank(s[1..], x)
  }

  /** `e` belongs between the first `k` extents and the others. */
  ghost predicate Fits(s: seq<Info>, k: nat, e: Info) {
    && k <= |s| && e.len > 0
    && (forall i :: 0 <= i < k ==> End(s[i]) <= e.fofs)
    && (forall i :: k <= i < |s| ==> End(e) <= s[i].fofs)
  }

  /** The extent before `e` ends where `e` begins, on disk as well. */
  predicate TouchesBack(s: seq<Info>, k: nat, e: Info)
    requires k <= |s|
  {
    k > 0 && Mergeable(s[k - 1], e)
  }

  predicate TouchesFront(s: seq<Info>, k: nat, e: Info)
    requires k <= |s|
  {
    k < |s| && Mergeable(e, s[k])
  }

  predicate Touches(s: seq<Info>, e: Info) {
    TouchesBack(s, Rank(s, e.fofs), e) || TouchesFront(s, Rank(s, e.fofs), e)
  }

  function Join(a: Info, b: Info): (r: Info) { Info(a.fofs, a.blk, a.len + b.len) }

  /** `e` joined with the neighbours it can be one extent with. */
  function Joined(s: seq<Info>, k: nat, e: Info): (r: Info)
    requires k <= |s|
  {
    var back := if TouchesBack(s, k, e) then Join(s[k - 1], e) else e;
    if TouchesFront(s, k, e) then Join(back, s[k]) else back
  }

  function Before(s: seq<Info>, k: nat, e: Info): (r: seq<Info>)
    requires k <= |s|
  {
    s[..if TouchesBack(s, k, e) then k - 1 else k]
  }

  function Behind(s: seq<Info>, k: nat, e: Info): (r: seq<Info>)
    requires k <= |s|
  {
    s[if TouchesFront(s, k, e) then k + 1 else k..]
  }

  function InsertAt(s: seq<Info>, k: nat, e: Info): (r: seq<Info>)
    requires k <= |s|
  {
    Before(s, k, e) + [Joined(s, k, e)] + Behind(s, k, e)
  }

  function Insert(s: seq<Info>, e: Info): (r: seq<Info>) {
    InsertAt(s, Rank(s, e.fofs), e)
  }

  lemma RankFits(s: seq<Info>, e: Info)
    requires Sorted(s) && Apart(s, e) && e.len > 0
    ensures Fits(s, Rank(s, e.fofs), e)
  {
    var k := Rank(s, e.fofs);
    forall i | k <= i < |s| ensures End(e) <= s[i].fofs {
      assert k < i ==> End(s[k]) <= s[i].fofs;
    }
  }

  lemma FitsRank(s: seq<Info>, k: nat, e: Info)
    requires Sorted(s) && Fits(s, k, e)
    ensures Rank(s, e.fofs) == k
  {
    forall i | 0 <= i < k ensures s[i].fofs < e.fofs {
      assert s[i].len > 0;
    }
    if k < |s| {
      assert End(e) <= s[k].fofs;
    }
  }

  /** Extents before, one extent, and extents behind it are in order. */
  lemma Around(a: seq<Info>, e: Info, b: seq<Info>)
    requires Sorted(a) && Sorted(b) && e.len > 0
    requires (forall i :: 0 <= i < |a| ==> End(a[i]) <= e.fofs) && (forall i :: 0 <= i < |b| ==> End(e) <= b[i].fofs)
    ensures Sorted(a + [e] + b)
  {
    var r := a + [e] + b;
    forall i, j | 0 <= i < j < |r| ensures End(r[i]) <= r[j].fofs {
      if i < |a| && |a| < j {
        assert End(a[i]) <= e.fofs <= End(e) <= b[j - |a| - 1].fofs;
      }
    }
  }

  lemma SortedPart(s: seq<Info>, lo: nat, hi: nat)
    requires Sorted(s) && lo <= hi <= |s|
    ensures Sorted(s[lo..hi])
  {
  }

  lemma InsertSorted(s: seq<Info>, k: nat, e: Info)
    requires Sorted(s) && Fits(s, k, e)
    ensures Sorted(InsertAt(s, k, e))
  {
    var a, j, b := Before(s, k, e), Joined(s, k, e), Behind(s, k, e);
    SortedPart(s, 0, |a|);
    SortedPart(s, |s| - |b|, |s|);
    BeforeEnds(s, k, e);
    BehindStarts(s, k, e);
    Around(a, j, b);
  }

  lemma BeforeEnds(s: seq<Info>, k: nat, e: Info)
    requires Sorted(s) && Fits(s, k, e)
    ensures forall i :: 0 <= i < |Before(s, k, e)| ==> End(Before(s, k, e)[i]) <= Joined(s, k, e).fofs
  {
    forall i | 0 <= i < |Before(s, k, e)| ensures End(s[i]) <= Joined(s, k, e).fofs {
      assert TouchesBack(s, k, e) ==> End(s[i]) <= s[k - 1].fofs;
    }
  }

  lemma BehindStarts(s: seq<Info>, k: nat, e: Info)
    requires Sorted(s) && Fits(s, k, e)
    ensures forall i :: 0 <= i < |Behind(s, k, e)| ==> End(Joined(s, k, e)) <= Behind(s, k, e)[i].fofs
  {
    var lo := |s| - |Behind(s, k, e)|;
    forall i | lo <= i < |s| ensures End(Joined(s, k, e)) <= s[i].fofs {
      assert TouchesFront(s, k, e) ==> End(s[k]) <= s[i].fofs;
    }
  }

  /** A joined extent is right exactly when its parts are. */
  lemma JoinPredicts(a: Info, b: Info, m: BlockMap)
    requires Mergeable(a, b)
    ensures Predicts(Join(a, b), m) <==> Predicts(a, m) && Predicts(b, m)
  {
    var j := Join(a, b);
    if Predicts(j, m) {
      forall o | b.fofs <= o < End(b) ensures At(m, o) == b.blk + (o - b.fofs) && At(m, o) != NULL_ADDR {
        assert j.fofs <= o < End(j);
      }
    }
    if Predicts(a, m) && Predicts(b, m) {
      forall o | j.fofs <= o < End(j) ensures At(m, o) == j.blk + (o - j.fofs) && At(m, o) != NULL_ADDR {
        assert a.fofs <= o < End(a) || b.fofs <= o < End(b);
      }
    }
  }

  lemma AgreesParts(a: seq<Info>, e: Info, b: seq<Info>, m: BlockMap)
    ensures Agrees(a + [e] + b, m) <==> Agrees(a, m) && Predicts(e, m) && Agrees(b, m)
  {
    var r := a + [e] + b;
    assert r[|a|] == e && forall i :: 0 <= i < |a| ==> r[i] == a[i];
    assert forall i :: 0 <= i < |b| ==> r[|a| + 1 + i] == b[i];
  }

  lemma AgreesCat(a: seq<Info>, b: seq<Info>, m: BlockMap)
    ensures Agrees(a + b, m) <==> Agrees(a, m) && Agrees(b, m)
  {
    assert forall i :: 0 <= i < |b| ==> (a + b)[|a| + i] == b[i];
    assert forall i :: 0 <= i < |a| ==> (a + b)[i] == a[i];
  }

  /** Inserting adds what the new extent claims and nothing else, however it merges. */
  lemma InsertAgrees(s: seq<Info>, k: nat, e: Info, m: BlockMap)
    requires k <= |s|
    ensures Agrees(InsertAt(s, k, e), m) <==> Agrees(s, m) && Predicts(e, m)
  {
    assert s == s[..k] + s[k..];
    AgreesCat(s[..k], s[k..], m);
    BackKept(s, k, e, m);
    FrontKept(s, k, e, m);
    var back := if TouchesBack(s, k, e) then Join(s[k - 1], e) else e;
    if TouchesBack(s, k, e) { JoinPredicts(s[k - 1], e, m); }
    if TouchesFront(s, k, e) { JoinPredicts(back, s[k], m); }
    AgreesParts(Before(s, k, e), Joined(s, k, e), Behind(s, k, e), m);
  }

  lemma BackKept(s: seq<Info>, k: nat, e: Info, m: BlockMap)
    requires k <= |s|
    ensures Agrees(s[..k], m) <==> Agrees(Before(s, k, e), m) && (TouchesBack(s, k, e) ==> Predicts(s[k - 1], m))
  {
    if TouchesBack(s, k, e) {
      assert s[..k] == Before(s, k, e) + [s[k - 1]];
      AgreesCat(Before(s, k, e), [s[k - 1]], m);
      AloneAgrees(s[k - 1], m);
    }
  }

  lemma FrontKept(s: seq<Info>, k: nat, e: Info, m: BlockMap)
    requires k <= |s|
    ensures Agrees(s[k..], m) <==> Agrees(Behind(s, k, e), m) && (TouchesFront(s, k, e) ==> Predicts(s[k], m))
  {
    if TouchesFront(s, k, e) {
      assert s[k..] == [s[k]] + Behind(s, k, e);
      AgreesCat([s[k]], Behind(s, k, e), m);
      AloneAgrees(s[k], m);
    }
  }

  lemma AloneAgrees(e: Info, m: BlockMap)
    ensures Agrees([e], m) <==> Predicts(e, m)
  {
    assert [e][0] == e;
  }

  lemma InsertMaximal(s: seq<Info>, k: nat, e: Info)
    requires Maximal(s) && k <= |s|
    ensures Maximal(InsertAt(s, k, e))
  {
    var a, j, b := Before(s, k, e), Joined(s, k, e), Behind(s, k, e);
    MaximalPart(s, 0, |a|);
    MaximalPart(s, |s| - |b|, |s|);
    if a != [] && TouchesBack(s, k, e) { assert !Mergeable(s[k - 2], s[k - 1]); }
    if b != [] && TouchesFront(s, k, e) { assert !Mergeable(s[k], s[k + 1]); }
    MaximalAround(a, j, b);
  }

  lemma MaximalPart(s: seq<Info>, lo: nat, hi: nat)
    requires Maximal(s) && lo <= hi <= |s|
    ensures Maximal(s[lo..hi])
  {
    var r := s[lo..hi];
    forall i | 0 <= i < |r| - 1 ensures !Mergeable(r[i], r[i + 1]) {
      assert !Mergeable(s[lo + i], s[lo + i + 1]);
    }
  }

  lemma MaximalAround(a: seq<Info>, e: Info, b: seq<Info>)
    requires Maximal(a) && Maximal(b)
    requires (a != [] ==> !Mergeable(a[|a| - 1], e)) && (b != [] ==> !Mergeable(e, b[0]))
    ensures Maximal(a + [e] + b)
  {
    var r := a + [e] + b;
    forall i | 0 <= i < |r| - 1 ensures !Mergeable(r[i], r[i + 1]) {
      if i + 1 < |a| {
        assert !Mergeable(a[i], a[i + 1]);
      } else if i > |a| {
        var j := i - |a| - 1;
        assert r[i] == b[j] && r[i + 1] == b[j + 1] && !Mergeable(b[j], b[j + 1]);
      }
    }
  }

  /** Whatever was apart from the tree and from `e` is apart from both together. */
  lemma InsertApart(s: seq<Info>, k: nat, e: Info, x: Info)
    requires Sorted(s) && Fits(s, k, e) && Apart(s, x) && x.len > 0
    requires End(e) <= x.fofs || End(x) <= e.fofs
    ensures Apart(InsertAt(s, k, e), x)
  {
    var a, b := Before(s, k, e), Behind(s, k, e);
    JoinedApart(s, k, e, x);
    assert Apart(a, x);
    assert Apart(b, x) by {
      assert forall i :: 0 <= i < |b| ==> b[i] == s[|s| - |b| + i];
    }
    ApartParts(a, Joined(s, k, e), b, x);
  }

  lemma ApartParts(a: seq<Info>, e: Info, b: seq<Info>, x: Info)
    requires Apart(a, x) && Apart(b, x) && (End(e) <= x.fofs || End(x) <= e.fofs)
    ensures Apart(a + [e] + b, x)
  {
  }

  lemma JoinedApart(s: seq<Info>, k: nat, e: Info, x: Info)
    requires Sorted(s) && Fits(s, k, e) && Apart(s, x) && x.len > 0 && (End(e) <= x.fofs || End(x) <= e.fofs)
    ensures End(Joined(s, k, e)) <= x.fofs || End(x) <= Joined(s, k, e).fofs
  {
    if TouchesBack(s, k, e) {
      assert End(s[k - 1]) <= x.fofs || End(x) <= s[k - 1].fofs;
    }
    if TouchesFront(s, k, e) {
      assert End(s[k]) <= x.fofs || End(x) <= s[k].fofs;
    }
  }

  // ---- one update ----

  /** The extent that covers `o`, or -1. */
  function Find(s: seq<Info>, o: nat): (r: int)
    ensures -1 <= r < |s| && (r >= 0 ==> Covers(s[r], o))
    ensures r == -1 <==> forall i :: 0 <= i < |s| ==> !Covers(s[i], o)
  {
    if s == [] then -1
    else if Covers(s[|s| - 1], o) then |s| - 1
    else Find(s[..|s| - 1], o)
  }

  function Without(s: seq<Info>, i: nat): (r: seq<Info>)
    requires i < |s|
  {
    s[..i] + s[i + 1..]
  }

  function LeftPart(d: Info, fofs: nat): (r: Info)
    requires Covers(d, fofs)
  {
    Info(d.fofs, d.blk, fofs - d.fofs)
  }

  /** The right part as the code computes it: offsets from `fofs` + 1 on, but blocks from that of `fofs` on. */
  function RightPart(d: Info, fofs: nat): (r: Info)
    requires Covers(d, fofs)
  {
    Info(fofs + 1, fofs - d.fofs + d.blk, End(d) - 1 - fofs)
  }

  /** A part goes back if it is long enough; where it would have to merge the code stops, having no place for the merged node. */
  function PutBack(s: seq<Info>, part: Info): (r: Option<seq<Info>>) {
    if part.len < MIN_EXTENT_LEN then Some(s)
    else if Touches(s, part) then None
    else Some(Insert(s, part))
  }

  /** Take extent `i` out, and put the parts before and behind `fofs` back. */
  function SplitAt(s: seq<Info>, i: nat, fofs: nat): (r: Option<seq<Info>>)
    requires i < |s| && Covers(s[i], fofs)
  {
    PutBoth(Without(s, i), LeftPart(s[i], fofs), RightPart(s[i], fofs))
  }

  function PutBoth(s: seq<Info>, l: Info, r: Info): (t: Option<seq<Info>>) {
    if PutBack(s, l).None? then None else PutBack(PutBack(s, l).value, r)
  }

  /** f2fs_update_extent_tree; None where it stops with BUG() */
  function UpdateTree(s: seq<Info>, fofs: nat, blk: nat): (r: Option<seq<Info>>) {
    var t := Removed(s, fofs);
    if t.None? || blk == NULL_ADDR then t else Some(Insert(t.value, Info(fofs, blk, 1)))
  }

  /** The extent around `fofs`, if there is one, gives way to its parts. */
  function Removed(s: seq<Info>, fofs: nat): (r: Option<seq<Info>>) {
    if Find(s, fofs) < 0 then Some(s) else SplitAt(s, Find(s, fofs), fofs)
  }

  /** The update splits off a right part long enough to go back into the tree. */
  predicate KeepsRight(s: seq<Info>, fofs: nat) {
    Find(s, fofs) >= 0 && End(s[Find(s, fofs)]) - 1 - fofs >= MIN_EXTENT_LEN
  }

  lemma WithoutAt(s: seq<Info>, i: nat)
    requires i < |s|
    ensures |Without(s, i)| == |s| - 1
    ensures forall k :: 0 <= k < |s| - 1 ==> Without(s, i)[k] == s[if k < i then k else k + 1]
  {
  }

  lemma WithoutOk(s: seq<Info>, i: nat)
    requires Sorted(s) && i < |s|
    ensures Sorted(Without(s, i)) && Apart(Without(s, i), s[i])
  {
    WithoutAt(s, i);
  }

  lemma WithoutMaximal(s: seq<Info>, i: nat)
    requires Sorted(s) && Maximal(s) && i < |s|
    ensures Maximal(Without(s, i))
  {
    WithoutAt(s, i);
    var r := Without(s, i);
    forall k | 0 <= k < |r| - 1 ensures !Mergeable(r[k], r[k + 1]) {
      if k + 1 == i {
        assert End(s[k]) <= s[i].fofs < End(s[i]) <= s[i + 1].fofs;
      } else {
        var j := if k < i then k else k + 1;
        assert !Mergeable(s[j], s[j + 1]);
      }
    }
  }

  lemma WithoutFind(s: seq<Info>, i: nat, o: nat)
    requires Sorted(s) && i < |s| && Covers(s[i], o)
    ensures Find(Without(s, i), o) == -1
  {
    WithoutAt(s, i);
  }

  lemma WithoutAgrees(s: seq<Info>, i: nat, m: BlockMap)
    requires i < |s|
    ensures Agrees(s, m) <==> Agrees(Without(s, i), m) && Predicts(s[i], m)
  {
    assert s == s[..i] + [s[i]] + s[i + 1..];
    AgreesParts(s[..i], s[i], s[i + 1..], m);
    AgreesCat(s[..i], s[i + 1..], m);
  }

  /** A change at `o` is no matter to extents that do not cover it. */
  lemma ElsewhereAgrees(s: seq<Info>, m: BlockMap, o: nat, b: nat)
    requires Find(s, o) == -1
    ensures Agrees(s, m) <==> Agrees(s, m[o := b])
  {
    forall i | 0 <= i < |s| ensures Predicts(s[i], m) <==> Predicts(s[i], m[o := b]) {
      ElsewherePredicts(s[i], m, o, b);
    }
  }

  lemma ElsewherePredicts(e: Info, m: BlockMap, o: nat, b: nat)
    requires !Covers(e, o)
    ensures Predicts(e, m) <==> Predicts(e, m[o := b])
  {
    var n := m[o := b];
    forall p: nat | e.fofs <= p < e.fofs + e.len
      ensures (At(m, p) == e.blk + (p - e.fofs) && At(m, p) != NULL_ADDR) <==> (At(n, p) == e.blk + (p - e.fofs) && At(n, p) != NULL_ADDR)
    {
      assert At(n, p) == At(m, p);
    }
  }

  lemma SubApart(s: seq<Info>, d: Info, e: Info)
    requires Apart(s, d) && d.fofs <= e.fofs && End(e) <= End(d)
    ensures Apart(s, e)
  {
  }

  lemma PutBackOk(s: seq<Info>, part: Info)
    requires Sorted(s) && Apart(s, part) && PutBack(s, part).Some?
    ensures Sorted(PutBack(s, part).value) && (Maximal(s) ==> Maximal(PutBack(s, part).value))
  {
    if part.len >= MIN_EXTENT_LEN {
      RankFits(s, part);
      InsertSorted(s, Rank(s, part.fofs), part);
      if Maximal(s) { InsertMaximal(s, Rank(s, part.fofs), part); }
    }
  }

  lemma PutBackAgrees(s: seq<Info>, part: Info, m: BlockMap)
    requires PutBack(s, part).Some?
    ensures Agrees(PutBack(s, part).value, m) <==>
      Agrees(s, m) && (part.len >= MIN_EXTENT_LEN ==> Predicts(part, m))
  {
    InsertAgrees(s, Rank(s, part.fofs), part, m);
  }

  lemma PutBackApart(s: seq<Info>, part: Info, x: Info)
    requires Sorted(s) && Apart(s, part) && PutBack(s, part).Some? && Apart(s, x) && x.len > 0
    requires End(part) <= x.fofs || End(x) <= part.fofs
    ensures Apart(PutBack(s, part).value, x)
  {
    if part.len >= MIN_EXTENT_LEN {
      RankFits(s, part);
      InsertApart(s, Rank(s, part.fofs), part, x);
    }
  }

  /** The tree between taking the old extent out and putting the new block in. */
  lemma SplitOk(s: seq<Info>, i: nat, fofs: nat)
    requires Sorted(s) && i < |s| && Covers(s[i], fofs) && SplitAt(s, i, fofs).Some?
    ensures var t := SplitAt(s, i, fofs).value;
      Sorted(t) && Apart(t, Info(fofs, 0, 1)) && (Maximal(s) ==> Maximal(t))
  {
    var w, l, r := Without(s, i), LeftPart(s[i], fofs), RightPart(s[i], fofs);
    WithoutOk(s, i);
    if Maximal(s) { WithoutMaximal(s, i); }
    PartsApart(s, i, fofs);
    PutBackOk(w, l);
    PutBackOk(PutBack(w, l).value, r);
  }

  lemma EmptyApart(s: seq<Info>, e: Info, x: Info)
    requires Sorted(s) && Apart(s, x) && x.len == 1 && e.fofs == End(x) && e.len == 0
    ensures Apart(s, e)
  {
  }

  /** The left part of a right extent is right after the change, the right part wrong at its first offset. */
  lemma PartsPredict(d: Info, m: BlockMap, fofs: nat, blk: nat)
    requires Predicts(d, m) && Covers(d, fofs)
    ensures Predicts(LeftPart(d, fofs), m[fofs := blk])
    ensures Predicts(RightPart(d, fofs), m[fofs := blk]) <==> RightPart(d, fofs).len == 0
  {
    var n, r := m[fofs := blk], RightPart(d, fofs);
    assert forall o :: d.fofs <= o < fofs ==> At(n, o) == At(m, o);
    if r.len > 0 {
      assert At(n, fofs + 1) == At(m, fofs + 1) == d.blk + (fofs + 1 - d.fofs);
      assert r.fofs <= fofs + 1 < r.fofs + r.len;
    }
  }

  lemma NewPredicts(m: BlockMap, fofs: nat, blk: nat)
    requires blk != NULL_ADDR
    ensures Predicts(Info(fofs, blk, 1), m[fofs := blk])
  {
  }

  lemma NotFoundApart(s: seq<Info>, fofs: nat)
    requires Sorted(s) && Find(s, fofs) == -1
    ensures Apart(s, Info(fofs, 0, 1))
  {
    forall i | 0 <= i < |s| ensures End(s[i]) <= fofs || fofs + 1 <= s[i].fofs {
      assert !Covers(s[i], fofs);
    }
  }

  /** Order, distance and maximality survive every update the code completes. */
  lemma UpdateOrdered(s: seq<Info>, fofs: nat, blk: nat)
    requires Sorted(s) && UpdateTree(s, fofs, blk).Some?
    ensures Sorted(UpdateTree(s, fofs, blk).value)
    ensures Maximal(s) ==> Maximal(UpdateTree(s, fofs, blk).value)
  {
    var i, e := Find(s, fofs), Info(fofs, blk, 1);
    if i >= 0 { SplitOk(s, i, fofs); } else { NotFoundApart(s, fofs); }
    if blk != NULL_ADDR {
      var t := if i < 0 then s else SplitAt(s, i, fofs).value;
      SubApart(t, Info(fofs, 0, 1), e);
      RankFits(t, e);
      InsertSorted(t, Rank(t, fofs), e);
      if Maximal(s) { InsertMaximal(t, Rank(t, fofs), e); }
    }
  }

  /**
   * An update of a tree that agrees with the block map leaves it in agreement
   * with the new map exactly when no right part goes back into the tree.
   */
  lemma UpdateAgrees(s: seq<Info>, m: BlockMap, fofs: nat, blk: nat)
    requires Sorted(s) && Agrees(s, m) && UpdateTree(s, fofs, blk).Some?
    ensures Agrees(UpdateTree(s, fofs, blk).value, m[fofs := blk]) <==> !KeepsRight(s, fofs)
  {
    var i, n := Find(s, fofs), m[fofs := blk];
    if i < 0 { ElsewhereAgrees(s, m, fofs, blk); } else { SplitAgrees(s, i, m, fofs, blk); }
    if blk != NULL_ADDR {
      NewPredicts(m, fofs, blk);
      var t := if i < 0 then s else SplitAt(s, i, fofs).value;
      InsertAgrees(t, Rank(t, fofs), Info(fofs, blk, 1), n);
    }
  }

  lemma SplitAgrees(s: seq<Info>, i: nat, m: BlockMap, fofs: nat, blk: nat)
    requires Sorted(s) && Agrees(s, m) && i < |s| && Covers(s[i], fofs) && SplitAt(s, i, fofs).Some?
    ensures Agrees(SplitAt(s, i, fofs).value, m[fofs := blk]) <==> End(s[i]) - 1 - fofs < MIN_EXTENT_LEN
  {
    var n, w, l := m[fofs := blk], Without(s, i), LeftPart(s[i], fofs);
    WithoutFind(s, i, fofs);
    WithoutAgrees(s, i, m);
    ElsewhereAgrees(w, m, fofs, blk);
    PartsPredict(s[i], m, fofs, blk);
    PutBackAgrees(w, l, n);
    PutBackAgrees(PutBack(w, l).value, RightPart(s[i], fofs), n);
  }

  /** The extent behind `i` on disk and in the file is one that repeats `i`'s last block. */
  predicate RepeatsLast(s: seq<Info>, i: nat)
    requires i < |s|
  {
    i + 1 < |s| && s[i + 1].fofs == End(s[i]) && s[i + 1].blk == s[i].blk + s[i].len - 1
  }

  /** When the code stops: only over a right part, wrong by one, that meets the next extent. */
  lemma UpdateStops(s: seq<Info>, fofs: nat, blk: nat)
    requires Sorted(s) && Maximal(s)
    ensures UpdateTree(s, fofs, blk).None? <==> KeepsRight(s, fofs) && RepeatsLast(s, Find(s, fofs))
  {
    if Find(s, fofs) >= 0 {
      SplitStops(s, Find(s, fofs), fofs);
    }
  }

  lemma SplitStops(s: seq<Info>, i: nat, fofs: nat)
    requires Sorted(s) && Maximal(s) && i < |s| && Covers(s[i], fofs)
    ensures SplitAt(s, i, fofs).None? <==> End(s[i]) - 1 - fofs >= MIN_EXTENT_LEN && RepeatsLast(s, i)
  {
    LeftGoesBack(s, i, fofs);
    if End(s[i]) - 1 - fofs >= MIN_EXTENT_LEN {
      RightGoesBack(s, i, fofs);
    }
  }

  /** Around an extent that is out of the tree its neighbours are those it had. */
  lemma GapFits(s: seq<Info>, i: nat, e: Info)
    requires Sorted(s) && i < |s| && s[i].fofs <= e.fofs && End(e) <= End(s[i]) && e.len > 0
    ensures Fits(Without(s, i), i, e) && Rank(Without(s, i), e.fofs) == i
  {
    WithoutAt(s, i);
    WithoutOk(s, i);
    FitsRank(Without(s, i), i, e);
  }

  lemma LeftGoesBack(s: seq<Info>, i: nat, fofs: nat)
    requires Sorted(s) && Maximal(s) && i < |s| && Covers(s[i], fofs)
    ensures PutBack(Without(s, i), LeftPart(s[i], fofs)).Some?
  {
    var w, l := Without(s, i), LeftPart(s[i], fofs);
    WithoutAt(s, i);
    if l.len >= MIN_EXTENT_LEN {
      GapFits(s, i, l);
      assert i > 0 ==> !Mergeable(s[i - 1], s[i]);
    }
  }

  lemma RightGoesBack(s: seq<Info>, i: nat, fofs: nat)
    requires Sorted(s) && i < |s| && Covers(s[i], fofs) && End(s[i]) - 1 - fofs >= MIN_EXTENT_LEN
    requires PutBack(Without(s, i), LeftPart(s[i], fofs)).Some?
    ensures Touches(PutBack(Without(s, i), LeftPart(s[i], fofs)).value, RightPart(s[i], fofs)) <==> RepeatsLast(s, i)
  {
    var w, l, r := Without(s, i), LeftPart(s[i], fofs), RightPart(s[i], fofs);
    GapFits(s, i, r);
    RightTouches(s, i, fofs);
    if l.len >= MIN_EXTENT_LEN {
      GapFits(s, i, l);
      WithoutOk(s, i);
      WithLeft(w, i, l, r);
    }
  }

  lemma RightTouches(s: seq<Info>, i: nat, fofs: nat)
    requires Sorted(s) && i < |s| && Covers(s[i], fofs)
    ensures |Without(s, i)| == |s| - 1
    ensures !TouchesBack(Without(s, i), i, RightPart(s[i], fofs))
    ensures TouchesFront(Without(s, i), i, RightPart(s[i], fofs)) <==> RepeatsLast(s, i)
  {
    WithoutAt(s, i);
    if i > 0 {
      assert End(s[i - 1]) <= s[i].fofs;
    }
  }

  /** A part that touches nothing goes between its neighbours, and the next part behind it. */
  lemma WithLeft(w: seq<Info>, i: nat, l: Info, r: Info)
    requires Sorted(w) && Fits(w, i, l) && Fits(w, i, r) && End(l) < r.fofs
    requires !TouchesBack(w, i, l) && !TouchesFront(w, i, l)
    ensures Touches(Insert(w, l), r) <==> TouchesFront(w, i, r)
  {
    FitsRank(w, i, l);
    InsertSorted(w, i, l);
    PlainInsert(w, i, l);
    FitsRank(InsertAt(w, i, l), i + 1, r);
  }

  lemma PlainInsert(w: seq<Info>, i: nat, l: Info)
    requires i <= |w| && !TouchesBack(w, i, l) && !TouchesFront(w, i, l)
    ensures var t := InsertAt(w, i, l);
      && |t| == |w| + 1 && t[i] == l
      && (forall j :: 0 <= j < i ==> t[j] == w[j]) && (forall j :: i < j < |t| ==> t[j] == w[j - 1])
  {
  }

  /** Where no block has two places the code does not stop. */
  lemma NoRepeat(s: seq<Info>, m: BlockMap, i: nat)
    requires Sorted(s) && Agrees(s, m) && i < |s|
    requires forall a: nat, b: nat :: At(m, a) == At(m, b) != NULL_ADDR ==> a == b
    ensures !RepeatsLast(s, i)
  {
    var last := End(s[i]) - 1;
    assert At(m, last) == s[i].blk + s[i].len - 1 != NULL_ADDR by { assert Predicts(s[i], m); }
    if i + 1 < |s| {
      assert At(m, s[i + 1].fofs) == s[i + 1].blk by { assert Predicts(s[i + 1], m); }
    }
  }

  /** A file of `len` blocks in one piece. */
  function OnePiece(len: nat, blk: nat): (m: BlockMap)
    ensures forall o: nat :: o < len ==> At(m, o) == blk + o
  {
    if len == 0 then map[] else OnePiece(len - 1, blk)[len - 1 := blk + len - 1]
  }

  /** A file of 66 blocks in one piece whose first block moves: the tree then has its last 65 one block early. */
  lemma WrongRightPartOccurs()
    ensures var s, m := [Info(0, 100, 66)], OnePiece(66, 100);
      && Sorted(s) && Maximal(s) && Agrees(s, m)
      && UpdateTree(s, 0, 500).Some? && !Agrees(UpdateTree(s, 0, 500).value, m[0 := 500])
  {
    var e, m := Info(0, 100, 66), OnePiece(66, 100);
    assert Predicts(e, m);
    OneTree(e);
    UpdateStops([e], 0, 500);
    UpdateAgrees([e], m, 0, 500);
  }

  lemma OneTree(e: Info)
    requires e.len > 0
    ensures Sorted([e]) && Maximal([e]) && Find([e], e.fofs) == 0
  {
    assert [e][0] == e;
  }

  // ---- what the tree keeps ----

  ghost predicate Covered(s: seq<Info>, o: nat) {
    exists i :: 0 <= i < |s| && Covers(s[i], o)
  }

  lemma CoveredParts(a: seq<Info>, e: Info, b: seq<Info>, o: nat)
    ensures Covered(a + [e] + b, o) <==> Covered(a, o) || Covers(e, o) || Covered(b, o)
  {
    var r := a + [e] + b;
    if i :| 0 <= i < |a| && Covers(a[i], o) { assert r[i] == a[i]; }
    if i :| 0 <= i < |b| && Covers(b[i], o) { assert r[|a| + 1 + i] == b[i]; }
    assert r[|a|] == e;
    if i :| 0 <= i < |r| && Covers(r[i], o) {
      assert i < |a| ==> a[i] == r[i];
      assert i > |a| ==> b[i - |a| - 1] == r[i];
    }
  }

  lemma CoveredCat(a: seq<Info>, b: seq<Info>, o: nat)
    ensures Covered(a + b, o) <==> Covered(a, o) || Covered(b, o)
  {
    if i :| 0 <= i < |a| && Covers(a[i], o) { assert (a + b)[i] == a[i]; }
    if i :| 0 <= i < |b| && Covers(b[i], o) { assert (a + b)[|a| + i] == b[i]; }
    if i :| 0 <= i < |a + b| && Covers((a + b)[i], o) {
      assert if i < |a| then a[i] == (a + b)[i] else b[i - |a|] == (a + b)[i];
    }
  }

  /** However it merges, an insertion adds the new extent's offsets and loses none. */
  lemma InsertCovers(s: seq<Info>, k: nat, e: Info, o: nat)
    requires k <= |s|
    ensures Covered(InsertAt(s, k, e), o) <==> Covered(s, o) || Covers(e, o)
  {
    var a, j, b := Before(s, k, e), Joined(s, k, e), Behind(s, k, e);
    CoveredParts(a, j, b, o);
    assert s == s[..k] + s[k..];
    CoveredCat(s[..k], s[k..], o);
    if TouchesBack(s, k, e) {
      assert s[..k] == a + [s[k - 1]];
      CoveredCat(a, [s[k - 1]], o);
      CoveredOne(s[k - 1], o);
    }
    if TouchesFront(s, k, e) {
      assert s[k..] == [s[k]] + b;
      CoveredCat([s[k]], b, o);
      CoveredOne(s[k], o);
    }
  }

  lemma CoveredOne(e: Info, o: nat)
    ensures Covered([e], o) <==> Covers(e, o)
  {
    assert [e][0] == e;
  }

  lemma PutBackCovers(s: seq<Info>, part: Info, o: nat)
    requires PutBack(s, part).Some?
    ensures Covered(PutBack(s, part).value, o) <==> Covered(s, o) || (part.len >= MIN_EXTENT_LEN && Covers(part, o))
  {
    InsertCovers(s, Rank(s, part.fofs), part, o);
  }

  lemma WithoutCovers(s: seq<Info>, i: nat, o: nat)
    requires Sorted(s) && i < |s|
    ensures Covered(Without(s, i), o) <==> Covered(s, o) && !Covers(s[i], o)
  {
    assert s == s[..i] + [s[i]] + s[i + 1..];
    CoveredParts(s[..i], s[i], s[i + 1..], o);
    CoveredCat(s[..i], s[i + 1..], o);
    if Covers(s[i], o) {
      WithoutFind(s, i, o);
    }
  }

  /** `o` lies in a part of the extent `d` beside `fofs` that is long enough to keep. */
  predicate InKeptPart(d: Info, fofs: nat, o: nat) {
    || (d.fofs <= o < fofs && fofs - d.fofs >= MIN_EXTENT_LEN)
    || (fofs < o < End(d) && End(d) - 1 - fofs >= MIN_EXTENT_LEN)
  }

  /**
   * Which offsets the tree covers after an update: the one changed if it has a
   * block, those of the extent around it that lie in a part of 64 blocks or
   * more, and all that other extents covered.
   */
  lemma UpdateCovers(s: seq<Info>, fofs: nat, blk: nat, o: nat)
    requires Sorted(s) && UpdateTree(s, fofs, blk).Some?
    ensures Covered(UpdateTree(s, fofs, blk).value, o) <==>
      if o == fofs then blk != NULL_ADDR else Covered(s, o) && Spared(s, fofs, o)
  {
    RemovedCovers(s, fofs, o);
    var t := Removed(s, fofs).value;
    if blk != NULL_ADDR {
      InsertCovers(t, Rank(t, fofs), Info(fofs, blk, 1), o);
    }
  }

  /** If an extent covers both, `o` lies in a part of it that is kept. */
  ghost predicate Spared(s: seq<Info>, fofs: nat, o: nat) {
    forall i :: 0 <= i < |s| && Covers(s[i], fofs) && Covers(s[i], o) ==> InKeptPart(s[i], fofs, o)
  }

  lemma RemovedCovers(s: seq<Info>, fofs: nat, o: nat)
    requires Sorted(s) && Removed(s, fofs).Some?
    ensures Covered(Removed(s, fofs).value, o) <==> o != fofs && Covered(s, o) && Spared(s, fofs, o)
  {
    if Find(s, fofs) >= 0 {
      SplitRemoves(s, Find(s, fofs), fofs, o);
    } else {
      NoneAround(s, fofs, o);
    }
  }

  lemma NoneAround(s: seq<Info>, fofs: nat, o: nat)
    requires Find(s, fofs) == -1
    ensures !Covered(s, fofs) && Spared(s, fofs, o)
  {
  }

  lemma SplitRemoves(s: seq<Info>, i: nat, fofs: nat, o: nat)
    requires Sorted(s) && i < |s| && Covers(s[i], fofs) && SplitAt(s, i, fofs).Some?
    ensures Covered(SplitAt(s, i, fofs).value, o) <==> o != fofs && Covered(s, o) && Spared(s, fofs, o)
  {
    SplitCovers(s, i, fofs, o);
    OnlyOne(s, i, fofs, o);
    if InKeptPart(s[i], fofs, o) { KeptCovered(s, i, fofs, o); }
  }

  lemma KeptCovered(s: seq<Info>, i: nat, fofs: nat, o: nat)
    requires i < |s| && Covers(s[i], fofs) && InKeptPart(s[i], fofs, o)
    ensures o != fofs && Covers(s[i], o) && Covered(s, o)
  {
  }

  lemma OnlyOne(s: seq<Info>, i: nat, fofs: nat, o: nat)
    requires Sorted(s) && i < |s| && Covers(s[i], fofs)
    ensures Covered(s, o) && Spared(s, fofs, o) <==> Covered(s, o) && (Covers(s[i], o) ==> InKeptPart(s[i], fofs, o))
  {
    forall j | 0 <= j < |s| && Covers(s[j], fofs) ensures j == i {
      SameExtent(s, i, j, fofs);
    }
  }

  lemma SameExtent(s: seq<Info>, i: nat, j: nat, o: nat)
    requires Sorted(s) && i < |s| && j < |s| && Covers(s[i], o) && Covers(s[j], o)
    ensures i == j
  {
  }

  lemma SplitCovers(s: seq<Info>, i: nat, fofs: nat, o: nat)
    requires Sorted(s) && i < |s| && Covers(s[i], fofs) && SplitAt(s, i, fofs).Some?
    ensures Covered(SplitAt(s, i, fofs).value, o) <==>
      (Covered(s, o) && !Covers(s[i], o)) || InKeptPart(s[i], fofs, o)
  {
    var w, l, r := Without(s, i), LeftPart(s[i], fofs), RightPart(s[i], fofs);
    WithoutCovers(s, i, o);
    PutBackCovers(w, l, o);
    PutBackCovers(PutBack(w, l).value, r, o);
  }

  // ---- runs ----

  /** A block gets a new address, or memory pressure takes an extent out. */
  datatype Op = Set(fofs: nat, blk: nat) | Shrink(i: nat)

  ghost function PlayMap(m: BlockMap, ops: seq<Op>): (r: BlockMap) {
    if ops == [] then m
    else
      var op, n := ops[|ops| - 1], PlayMap(m, ops[..|ops| - 1]);
      if op.Set? then n[op.fofs := op.blk] else n
  }

  /** The tree after the operations, None once the code has stopped. */
  function PlayTree(s: seq<Info>, ops: seq<Op>): (r: Option<seq<Info>>) {
    if ops == [] then Some(s)
    else
      var op, t := ops[|ops| - 1], PlayTree(s, ops[..|ops| - 1]);
      if t.None? then None
      else if op.Set? then UpdateTree(t.value, op.fofs, op.blk)
      else if op.i < |t.value| then Some(Without(t.value, op.i)) else t
  }

  /** No operation of the run puts a right part back. */
  ghost predicate NeverRight(s: seq<Info>, ops: seq<Op>) {
    forall k :: 0 <= k < |ops| && ops[k].Set? && PlayTree(s, ops[..k]).Some? ==>
      !KeepsRight(PlayTree(s, ops[..k]).value, ops[k].fofs)
  }

  /**
   * Over every run the tree stays in order and maximal; as long as no right
   * part goes back the code does not stop and the tree agrees with the block
   * map; and the first right part that does go back ends that.
   */
  lemma {:induction false} TreeRun(s: seq<Info>, m: BlockMap, ops: seq<Op>)
    requires Sorted(s) && Maximal(s) && Agrees(s, m)
    ensures PlayTree(s, ops).Some? ==> Sorted(PlayTree(s, ops).value) && Maximal(PlayTree(s, ops).value)
    ensures NeverRight(s, ops) ==> PlayTree(s, ops).Some? && Agrees(PlayTree(s, ops).value, PlayMap(m, ops))
    ensures ops != [] && NeverRight(s, ops[..|ops| - 1]) && !NeverRight(s, ops) ==>
      PlayTree(s, ops).None? || !Agrees(PlayTree(s, ops).value, PlayMap(m, ops))
  {
    if ops != [] {
      var k := |ops| - 1;
      TreeRun(s, m, ops[..k]);
      RightPrefix(s, ops);
      if PlayTree(s, ops[..k]).Some? {
        TreeStep(PlayTree(s, ops[..k]).value, PlayMap(m, ops[..k]), ops[k], NeverRight(s, ops[..k]));
      }
    }
  }

  lemma RightPrefix(s: seq<Info>, ops: seq<Op>)
    requires ops != []
    ensures var k := |ops| - 1;
      var right := ops[k].Set? && PlayTree(s, ops[..k]).Some? && KeepsRight(PlayTree(s, ops[..k]).value, ops[k].fofs);
      NeverRight(s, ops) <==> NeverRight(s, ops[..k]) && !right
  {
    var k := |ops| - 1;
    assert forall j :: 0 <= j < k ==> ops[..k][..j] == ops[..j] && ops[..k][j] == ops[j];
  }

  lemma TreeStep(t: seq<Info>, m: BlockMap, op: Op, good: bool)
    requires Sorted(t) && Maximal(t) && (good ==> Agrees(t, m))
    ensures op.Set? && UpdateTree(t, op.fofs, op.blk).Some? ==>
      Sorted(UpdateTree(t, op.fofs, op.blk).value) && Maximal(UpdateTree(t, op.fofs, op.blk).value)
    ensures op.Set? && good ==>
      (!KeepsRight(t, op.fofs) <==>
        UpdateTree(t, op.fofs, op.blk).Some? && Agrees(UpdateTree(t, op.fofs, op.blk).value, m[op.fofs := op.blk]))
    ensures op.Shrink? && op.i < |t| ==>
      Sorted(Without(t, op.i)) && Maximal(Without(t, op.i)) && (good ==> Agrees(Without(t, op.i), m))
  {
    match op {
      case Set(fofs, blk) =>
        UpdateStops(t, fofs, blk);
        if UpdateTree(t, fofs, blk).Some? {
          UpdateOrdered(t, fofs, blk);
          if good { UpdateAgrees(t, m, fofs, blk); }
        }
      case Shrink(i) =>
        if i < |t| {
          WithoutOk(t, i);
          WithoutMaximal(t, i);
          WithoutAgrees(t, i, m);
        }
    }
  }

  // ---- the tree itself ----

  datatype Node = Leaf | Node(left: Node, ei: Info, right: Node)

  function Inorder(t: Node): (s: seq<Info>) {
    if t.Leaf? then [] else Inorder(t.left) + [t.ei] + Inorder(t.right)
  }

  /** Where rb_insert_color and rb_erase leave these extents: in some tree with this order. */
  method Rebalance(s: seq<Info>) returns (t: Node)
    ensures Inorder(t) == s
  {
    t := Leaf;
    var i := |s|;
    while i > 0
      invariant 0 <= i <= |s| && Inorder(t) == s[i..]
    {
      i := i - 1;
      t := Node(Leaf, s[i], t);
      assert s[i..] == [s[i]] + s[i + 1..];
    }
  }

  /** The extents of a subtree are those from `lo` to `hi` in the order. */
  ghost predicate Spans(s: seq<Info>, t: Node, lo: nat, hi: nat) {
    lo <= hi <= |s| && Inorder(t) == s[lo..hi]
  }

  /** A node of the tree and its subtrees, by their places in the order. */
  lemma NodeAt(s: seq<Info>, t: Node, lo: nat, hi: nat) returns (m: nat)
    requires t.Node? && Spans(s, t, lo, hi)
    ensures lo <= m < hi && s[m] == t.ei && Spans(s, t.left, lo, m) && Spans(s, t.right, m + 1, hi)
  {
    m := lo + |Inorder(t.left)|;
    var r := Inorder(t);
    assert |r| == |Inorder(t.left)| + 1 + |Inorder(t.right)| == hi - lo;
    assert r[m - lo] == t.ei;
    assert Inorder(t.left) == r[..m - lo] == s[lo..m];
    assert Inorder(t.right) == r[m - lo + 1..] == s[m + 1..hi];
  }

  /** __lookup_extent_tree below the root */
  method Search(t: Node, fofs: nat) returns (en: Option<Info>)
    requires Sorted(Inorder(t))
    ensures if Find(Inorder(t), fofs) < 0 then en == None else en == Some(Inorder(t)[Find(Inorder(t), fofs)])
  {
    ghost var s := Inorder(t);
    ghost var lo: nat, hi: nat := 0, |s|;
    var node := t;
    while node.Node?
      invariant Spans(s, node, lo, hi)
      invariant (lo > 0 ==> End(s[lo - 1]) <= fofs) && (hi < |s| ==> fofs < s[hi].fofs)
      decreases node
    {
      ghost var m := NodeAt(s, node, lo, hi);
      if fofs < node.ei.fofs {
        node, hi := node.left, m;
      } else if fofs >= node.ei.fofs + node.ei.len {
        node, lo := node.right, m + 1;
      } else {
        FindIs(s, m, fofs);
        return Some(node.ei);
      }
    }
    FindNone(s, lo, fofs);
    en := None;
  }

  lemma FindNone(s: seq<Info>, k: nat, o: nat)
    requires Sorted(s) && k <= |s| && (k > 0 ==> End(s[k - 1]) <= o) && (k < |s| ==> o < s[k].fofs)
    ensures Find(s, o) == -1
  {
    forall i | 0 <= i < |s| ensures !Covers(s[i], o) {
      if i < k {
        assert i < k - 1 ==> End(s[i]) <= s[k - 1].fofs;
      } else {
        assert k < i ==> End(s[k]) <= s[i].fofs;
      }
    }
  }

  lemma FindIs(s: seq<Info>, i: nat, o: nat)
    requires Sorted(s) && i < |s| && Covers(s[i], o)
    ensures Find(s, o) == i
  {
    var r := Find(s, o);
    assert Covers(s[r], o);
  }

  /** Where an insertion ends: at a node to merge with, or below the tree. */
  datatype Place = Front(at: Info) | Back(at: Info) | Gap

  /**
   * The descent of __insert_extent_tree.  On its way to the gap it meets both
   * neighbours of the new extent, whatever the shape of the tree.
   */
  method SearchPlace(t: Node, e: Info, ghost k: nat) returns (p: Place)
    requires Sorted(Inorder(t)) && Fits(Inorder(t), k, e)
    ensures var s := Inorder(t);
      match p
      case Front(at) => TouchesFront(s, k, e) && at == s[k]
      case Back(at) => TouchesBack(s, k, e) && at == s[k - 1]
      case Gap => !TouchesFront(s, k, e) && !TouchesBack(s, k, e)
  {
    ghost var s := Inorder(t);
    ghost var lo: nat, hi: nat := 0, |s|;
    var node := t;
    while node.Node?
      invariant Spans(s, node, lo, hi) && Closes(s, k, e, lo, hi)
      decreases node
    {
      ghost var m := NodeAt(s, node, lo, hi);
      SideOf(s, k, e, m);
      ClosesIn(s, k, e, lo, hi, m);
      if e.fofs < node.ei.fofs {
        if Mergeable(e, node.ei) {
          return Front(node.ei);
        }
        node, hi := node.left, m;
      } else {
        if Mergeable(node.ei, e) {
          return Back(node.ei);
        }
        node, lo := node.right, m + 1;
      }
    }
    assert lo == hi;
    p := Gap;
  }

  /** The gap for `e` lies between `lo` and `hi`, and a neighbour already left behind does not merge. */
  ghost predicate Closes(s: seq<Info>, k: nat, e: Info, lo: nat, hi: nat) {
    && lo <= k <= hi <= |s|
    && (0 < lo == k ==> !Mergeable(s[k - 1], e)) && (k == hi < |s| ==> !Mergeable(e, s[k]))
  }

  lemma ClosesIn(s: seq<Info>, k: nat, e: Info, lo: nat, hi: nat, m: nat)
    requires Sorted(s) && Fits(s, k, e) && Closes(s, k, e, lo, hi) && lo <= m < hi
    ensures e.fofs < s[m].fofs && !Mergeable(e, s[m]) ==> Closes(s, k, e, lo, m)
    ensures e.fofs >= s[m].fofs && !Mergeable(s[m], e) ==> Closes(s, k, e, m + 1, hi)
  {
    SideOf(s, k, e, m);
  }

  /** On which side of `e` an extent lies, and when it is its neighbour. */
  lemma SideOf(s: seq<Info>, k: nat, e: Info, m: nat)
    requires Sorted(s) && Fits(s, k, e) && m < |s|
    ensures e.fofs < s[m].fofs <==> k <= m
    ensures Mergeable(e, s[m]) ==> m == k
    ensures Mergeable(s[m], e) ==> m == k - 1
  {
    assert s[m].len > 0;
    if k < m { assert End(s[k]) <= s[m].fofs && s[k].len > 0; }
    if m < k - 1 { assert End(s[m]) <= s[k - 1].fofs && s[k - 1].len > 0; }
  }

  /** An extent that does not merge stays in the tree. */
  lemma StaysIn(s: seq<Info>, k: nat, e: Info, c: Info)
    requires k <= |s| && c in s
    ensures (TouchesBack(s, k, e) && c == s[k - 1]) || (TouchesFront(s, k, e) && c == s[k]) || c in InsertAt(s, k, e)
  {
    var i :| 0 <= i < |s| && s[i] == c;
    var a, b := Before(s, k, e), Behind(s, k, e);
    if i < |a| {
      assert a[i] == c;
    } else if i >= |s| - |b| {
      assert b[i - (|s| - |b|)] == c;
    }
  }

  class Tree {
    var root: Node
    var cached: Option<Info>       // cached_en

    ghost function Exts(): (s: seq<Info>)
      reads this
    {
      Inorder(root)
    }

    ghost predicate Valid()
      reads this
    {
      Sorted(Exts()) && (cached.Some? ==> cached.value in Exts())
    }

    constructor ()
      ensures Valid() && Exts() == []
    {
      root, cached := Leaf, None;
    }

    /** __lookup_extent_tree */
    method Lookup(fofs: nat) returns (en: Option<Info>)
      requires Valid()
      modifies `cached
      ensures Valid()
      ensures if Find(Exts(), fofs) < 0 then en == None else en == Some(Exts()[Find(Exts(), fofs)]) && cached == en
    {
      if cached.Some? && cached.value.fofs <= fofs && cached.value.fofs + cached.value.len > fofs {
        ghost var i :| 0 <= i < |Exts()| && Exts()[i] == cached.value;
        FindIs(Exts(), i, fofs);
        return cached;
      }
      en := Search(root, fofs);
      if en.Some? {
        cached := en;
      }
    }

    /** __detach_extent_node */
    method Detach(i: nat)
      requires Valid() && i < |Exts()|
      modifies this
      ensures Valid() && Exts() == Without(old(Exts()), i)
    {
      var s := Inorder(root);
      WithoutOk(s, i);
      WithoutStays(s, i);
      root := Rebalance(Without(s, i));
      if cached == Some(s[i]) {
        cached := None;
      }
    }

    /** The node `was` of the tree is `now` from here on; `gone` is detached. */
    method Replace(was: Info, now: Info, gone: Option<Info>, s: seq<Info>)
      requires Sorted(s) && now in s
      requires forall c :: c in Exts() && c != was && Some(c) != gone ==> c in s
      requires cached.Some? ==> cached.value in Exts()
      modifies this
      ensures Valid() && Exts() == s
    {
      root := Rebalance(s);
      cached := if cached == gone then None else if cached == Some(was) then Some(now) else cached;
    }

    /** __insert_extent_tree; `merge` says there is a place for a node that merging sets free */
    method InsertExtent(e: Info, merge: bool) returns (stop: bool)
      requires Valid() && Apart(Exts(), e) && e.len > 0
      modifies this
      ensures stop <==> !merge && Touches(old(Exts()), e)
      ensures !stop ==> Valid() && Exts() == Insert(old(Exts()), e)
    {
      var s, k := Inorder(root), Rank(Inorder(root), e.fofs);
      RankFits(s, e);
      InsertSorted(s, k, e);
      forall c | c in s
        ensures (TouchesBack(s, k, e) && c == s[k - 1]) || (TouchesFront(s, k, e) && c == s[k]) || c in InsertAt(s, k, e)
      {
        StaysIn(s, k, e, c);
      }
      var p := SearchPlace(root, e, k);
      stop := false;
      match p {
        case Front(en) =>
          if !merge {
            return true;
          }
          MergeFront(s, k, e);
        case Back(en) =>
          if !merge {
            return true;
          }
          MergeBack(s, k, e);
        case Gap =>
          Replace(e, e, None, InsertAt(s, k, e));
      }
    }

    /** The node behind takes the new extent in, then __try_back_merge. */
    method MergeFront(s: seq<Info>, k: nat, e: Info)
      requires s == Exts() && Valid() && Fits(s, k, e) && TouchesFront(s, k, e) && Sorted(InsertAt(s, k, e))
      requires forall c :: c in s && c != s[k] && !(TouchesBack(s, k, e) && c == s[k - 1]) ==> c in InsertAt(s, k, e)
      modifies this
      ensures Valid() && Exts() == InsertAt(s, k, e)
    {
      var en := Info(e.fofs, e.blk, s[k].len + e.len);
      if k > 0 && Mergeable(s[k - 1], en) {
        en := Info(s[k - 1].fofs, s[k - 1].blk, en.len + s[k - 1].len);
        assert InsertAt(s, k, e) == s[..k - 1] + [en] + s[k + 1..];
        Replace(s[k], en, Some(s[k - 1]), s[..k - 1] + [en] + s[k + 1..]);
      } else {
        assert InsertAt(s, k, e) == s[..k] + [en] + s[k + 1..];
        Replace(s[k], en, None, s[..k] + [en] + s[k + 1..]);
      }
    }

    /** The node before takes the new extent in, then __try_front_merge. */
    method MergeBack(s: seq<Info>, k: nat, e: Info)
      requires s == Exts() && Valid() && Fits(s, k, e) && TouchesBack(s, k, e) && Sorted(InsertAt(s, k, e))
      requires forall c :: c in s && c != s[k - 1] && !(TouchesFront(s, k, e) && c == s[k]) ==> c in InsertAt(s, k, e)
      modifies this
      ensures Valid() && Exts() == InsertAt(s, k, e)
    {
      var en := s[k - 1].(len := s[k - 1].len + e.len);
      if k < |s| && Mergeable(en, s[k]) {
        en := en.(len := en.len + s[k].len);
        assert InsertAt(s, k, e) == s[..k - 1] + [en] + s[k + 1..];
        Replace(s[k - 1], en, Some(s[k]), s[..k - 1] + [en] + s[k + 1..]);
      } else {
        assert InsertAt(s, k, e) == s[..k - 1] + [en] + s[k..];
        Replace(s[k - 1], en, None, s[..k - 1] + [en] + s[k..]);
      }
    }

    method PutPartBack(part: Info) returns (stop: bool)
      requires Valid() && Apart(Exts(), part)
      modifies this
      ensures stop <==> PutBack(old(Exts()), part).None?
      ensures !stop ==> Valid() && Exts() == PutBack(old(Exts()), part).value
    {
      stop := false;
      if part.len >= MIN_EXTENT_LEN {
        stop := InsertExtent(part, false);
      }
    }

    /** Steps 1 and 2 of f2fs_update_extent_tree, for an extent that covers `fofs`. */
    method SplitExtent(i: nat, fofs: nat) returns (stop: bool)
      requires Valid() && i < |Exts()| && Covers(Exts()[i], fofs)
      modifies this
      ensures stop <==> SplitAt(old(Exts()), i, fofs).None?
      ensures !stop ==> Valid() && Exts() == SplitAt(old(Exts()), i, fofs).value && Apart(Exts(), Info(fofs, 0, 1))
    {
      var dei := Inorder(root)[i];
      PartsApart(Exts(), i, fofs);
      Detach(i);
      stop := PutSplit(dei, fofs);
    }

    method PutSplit(dei: Info, fofs: nat) returns (stop: bool)
      requires Valid() && Covers(dei, fofs) && Apart(Exts(), LeftPart(dei, fofs))
      requires var t := PutBack(Exts(), LeftPart(dei, fofs)); t.Some? ==> Apart(t.value, RightPart(dei, fofs))
      modifies this
      ensures stop <==> PutBoth(old(Exts()), LeftPart(dei, fofs), RightPart(dei, fofs)).None?
      ensures !stop ==> Valid() && Exts() == PutBoth(old(Exts()), LeftPart(dei, fofs), RightPart(dei, fofs)).value
    {
      var l, r := LeftPart(dei, fofs), RightPart(dei, fofs);
      stop := false;
      if dei.len > 1 {
        stop := PutPartsBack(l, r);
      } else {
        NoParts(Exts(), l, r);
      }
    }

    method PutPartsBack(l: Info, r: Info) returns (stop: bool)
      requires Valid() && Apart(Exts(), l) && (PutBack(Exts(), l).Some? ==> Apart(PutBack(Exts(), l).value, r))
      modifies this
      ensures stop <==> PutBoth(old(Exts()), l, r).None?
      ensures !stop ==> Valid() && Exts() == PutBoth(old(Exts()), l, r).value
    {
      stop := PutPartBack(l);
      if !stop {
        stop := PutPartBack(r);
      }
    }

    /** f2fs_update_extent_tree does what UpdateTree says, for every shape of the tree. */
    method UpdateExtentTree(fofs: nat, blk: nat) returns (stop: bool)
      requires Valid()
      modifies this
      ensures stop <==> UpdateTree(old(Exts()), fofs, blk).None?
      ensures !stop ==> Valid() && Exts() == UpdateTree(old(Exts()), fofs, blk).value
    {
      stop := RemoveAround(fofs);
      if !stop && blk != NULL_ADDR {
        SubApart(Exts(), Info(fofs, 0, 1), Info(fofs, blk, 1));
        stop := InsertExtent(Info(fofs, blk, 1), true);
      }
    }

    /** Steps 1 and 2: the extent around `fofs`, if there is one, gives way to its parts. */
    method RemoveAround(fofs: nat) returns (stop: bool)
      requires Valid()
      modifies this
      ensures stop <==> Removed(old(Exts()), fofs).None?
      ensures !stop ==> Valid() && Exts() == Removed(old(Exts()), fofs).value && Apart(Exts(), Info(fofs, 0, 1))
    {
      var en := Lookup(fofs);
      stop := false;
      if en.Some? {
        stop := SplitExtent(Find(Inorder(root), fofs), fofs);
      } else {
        NotFoundApart(Exts(), fofs);
      }
    }
  }

  lemma NoParts(s: seq<Info>, l: Info, r: Info)
    requires l.len < MIN_EXTENT_LEN && r.len < MIN_EXTENT_LEN
    ensures PutBoth(s, l, r) == Some(s)
  {
  }

  lemma WithoutStays(s: seq<Info>, i: nat)
    requires i < |s|
    ensures forall c :: c in s && c != s[i] ==> c in Without(s, i)
  {
    forall c | c in s && c != s[i] ensures c in Without(s, i) {
      var j :| 0 <= j < |s| && s[j] == c;
      assert Without(s, i)[if j < i then j else j - 1] == c;
    }
  }

  /** Each part, and at last the new block, finds its place free when its turn comes. */
  lemma PartsApart(s: seq<Info>, i: nat, fofs: nat)
    requires Sorted(s) && i < |s| && Covers(s[i], fofs)
    ensures SplitAt(s, i, fofs).Some? ==> Apart(SplitAt(s, i, fofs).value, Info(fofs, 0, 1))
    ensures Apart(Without(s, i), LeftPart(s[i], fofs))
    ensures var t := PutBack(Without(s, i), LeftPart(s[i], fofs)); t.Some? ==> Apart(t.value, RightPart(s[i], fofs))
  {
    var d, w, x := s[i], Without(s, i), Info(fofs, 0, 1);
    var l, r := LeftPart(d, fofs), RightPart(d, fofs);
    WithoutOk(s, i);
    SubApart(w, d, l);
    SubApart(w, d, r);
    SubApart(w, d, x);
    if PutBack(w, l).Some? {
      PutBackOk(w, l);
      PutBackApart(w, l, x);
      if r.len > 0 { PutBackApart(w, l, r); } else { EmptyApart(PutBack(w, l).value, r, x); }
      if PutBoth(w, l, r).Some? { PutBackApart(PutBack(w, l).value, r, x); }
    }
  }
}
