/** What every operation of the segment manager keeps, and the safety of block
    allocation over all runs. */
module SegmentSafety {
  import opened Common
  import opened SegmentModel

  // ------------------------------------------------------------- invariants

  /** Counters and maps of one SIT entry agree: `valid_blocks` is the size of the
      current map, `ckpt_valid_blocks` the size of the union of both maps. */
  ghost predicate EntryOk(e: Entry) {
    && (forall k :: k in e.cur || k in e.ckpt || k in e.discard ==> k < BLOCKS)
    && e.valid == |e.cur|
    && e.ckptValid == |e.cur + e.ckpt|
    && e.cur <= e.discard
  }

  function SumValid(entries: seq<Entry>, lo: nat, n: nat): (r: int)
    requires lo + n <= |entries|
  {
    if n == 0 then 0 else SumValid(entries, lo, n - 1) + entries[lo + n - 1].valid
  }

  function SumClear(entries: seq<Entry>, n: nat): (r: int)
    requires n <= |entries|
  {
    if n == 0 then 0 else SumClear(entries, n - 1) + (BLOCKS - |entries[n - 1].discard|)
  }

  lemma MulStep(a: nat, b: nat, d: nat)
    requires a < b
    ensures a * d + d <= b * d
  {
    var k := b - a - 1;
    assert b * d == (a + 1 + k) * d == a * d + d + k * d;
  }

  lemma DivRange(x: nat, q: nat, d: nat)
    requires d > 0
    ensures q * d <= x < q * d + d <==> x / d == q
  {
    var p := x / d;
    assert x == p * d + x % d;
    if p < q {
      MulStep(p, q, d);
    } else if p > q {
      MulStep(q, p, d);
    }
  }

  lemma SecBounds(g: Geometry, sec: nat)
    requires g.Valid() && sec < g.Secs()
    ensures 0 <= sec * g.segsPerSec <= sec * g.segsPerSec + g.segsPerSec <= g.segs
    ensures forall x: nat :: sec * g.segsPerSec <= x < sec * g.segsPerSec + g.segsPerSec <==> g.SecOf(x) == sec
  {
    MulStep(sec, g.Secs(), g.segsPerSec);
    forall x: nat
      ensures sec * g.segsPerSec <= x < sec * g.segsPerSec + g.segsPerSec <==> g.SecOf(x) == sec
    {
      DivRange(x, sec, g.segsPerSec);
    }
  }

  ghost predicate SectionSum(g: Geometry, sit: Sit, sec: nat)
    requires SitShape(g, sit) && sec < g.Secs()
  {
    SecBounds(g, sec);
    sit.secValid[sec] == SumValid(sit.entries, sec * g.segsPerSec, g.segsPerSec)
  }

  ghost predicate SitInv(g: Geometry, sit: Sit) {
    && SitShape(g, sit)
    && (forall x :: 0 <= x < g.segs ==> EntryOk(sit.entries[x]))
    && sit.dirtyCnt == |sit.dirty|
    && (forall x :: 0 <= x < g.segs && x !in sit.dirty ==> sit.entries[x].ckpt == sit.entries[x].cur)
    && sit.written == SumValid(sit.entries, 0, g.segs)
    && sit.discardBlks == SumClear(sit.entries, g.segs)
    && (g.segsPerSec > 1 ==> forall c :: 0 <= c < g.Secs() ==> SectionSum(g, sit, c))
  }

  /** free_secmap is derived from free_segmap, and both counters count. */
  ghost predicate FreeInv(g: Geometry, f: FreeMap) {
    && g.Valid()
    && (forall x :: x in f.segs ==> x < g.segs)
    && (forall c: nat :: c in f.secs <==> c < g.Secs() && SectionFree(g, f.segs, c))
    && f.nsegs == |f.segs|
    && f.nsecs == |f.secs|
  }

  /** The DIRTY map is the disjoint union of the six typed maps, a segment being
      in the map of its own type, and every nr_dirty counts its map. */
  ghost predicate ListInv(g: Geometry, d: DirtyList, entries: seq<Entry>) {
    && |entries| == g.segs
    && ListShape(g, d)
    && (forall t :: 0 <= t < MAPS ==> d.nr[t] == |d.maps[t]|)
    && (forall t, x :: 0 <= t < TYPES ==>
         (x in d.maps[t] <==> x in d.maps[DIRTY] && entries[x].typ == t))
  }

  /** Where segment x stands outside a running checkpoint: free, open as a log,
      or by its number of valid blocks prefree, dirty or full. */
  ghost predicate Classified(s: State, x: nat)
    requires Shape(s) && x < s.g.segs
  {
    var e := s.sit.entries[x];
    var dirty, pre := x in s.lists.maps[DIRTY], x in s.lists.maps[PRE];
    if x in s.free.segs then
      !IsCurseg(s.logs, x) && !dirty && !pre && e.cur == {} && e.ckpt == {}
    else if IsCurseg(s.logs, x) then !dirty && !pre
    else (pre <==> e.valid == 0) && (dirty <==> 0 < e.valid < BLOCKS)
  }

  /** Weaker, for a segment between an SIT update and its locate_dirty_segment. */
  ghost predicate Pending(s: State, x: nat)
    requires Shape(s) && x < s.g.segs
  {
    && x !in s.free.segs && x !in s.lists.maps[PRE]
    && (IsCurseg(s.logs, x) ==> x !in s.lists.maps[DIRTY])
  }

  /** The log head is a block neither live now nor in the last checkpoint; in an
      LFS log the same holds of everything after it. */
  ghost predicate LogOk(s: State, l: nat)
    requires Shape(s) && l < |s.logs|
  {
    var c := s.logs[l];
    var e := s.sit.entries[c.segno];
    && e.typ == l % TYPES
    && (c.ssr ==> c.next !in e.cur && c.next !in e.ckpt)
    && (!c.ssr ==> forall k :: c.next <= k ==> k !in e.cur && k !in e.ckpt)
  }

  ghost predicate LogsDistinct(logs: seq<Log>) {
    forall l, m :: 0 <= l < |logs| && 0 <= m < |logs| && logs[l].segno == logs[m].segno ==> l == m
  }

  /** The part that ties logs, maps and SIT together, up to a set of segments
      still to be located. */
  ghost predicate Placed(s: State, todo: set<nat>)
    requires Shape(s)
  {
    && LogsDistinct(s.logs)
    && (forall l :: 0 <= l < |s.logs| ==> LogOk(s, l))
    && (forall x :: 0 <= x < s.g.segs ==> Classified(s, x) || (x in todo && Pending(s, x)))
  }

  ghost predicate InvExcept(s: State, todo: set<nat>) {
    && Shape(s)
    && SitInv(s.g, s.sit)
    && FreeInv(s.g, s.free)
    && ListInv(s.g, s.lists, s.sit.entries)
    && Placed(s, todo)
  }

  ghost predicate Inv(s: State) {
    && InvExcept(s, {})
    && (forall l :: 0 <= l < |s.logs| ==> s.logs[l].next < BLOCKS)
  }

  // ---------------------------------------------------------------- SIT part

  lemma {:induction false} SumValidUpdate(entries: seq<Entry>, lo: nat, n: nat, x: nat, e: Entry)
    requires lo + n <= |entries| && x < |entries|
    ensures SumValid(entries[x := e], lo, n) ==
            SumValid(entries, lo, n) + if lo <= x < lo + n then e.valid - entries[x].valid else 0
  {
    if n > 0 {
      SumValidUpdate(entries, lo, n - 1, x, e);
    }
  }

  lemma {:induction false} SumClearUpdate(entries: seq<Entry>, n: nat, x: nat, e: Entry)
    requires n <= |entries| && x < |entries|
    ensures SumClear(entries[x := e], n) ==
            SumClear(entries, n) + if x < n then |entries[x].discard| - |e.discard| else 0
  {
    if n > 0 {
      SumClearUpdate(entries, n - 1, x, e);
    }
  }

  /** Replacing one entry moves every sum by the difference. */
  lemma SitReplace(g: Geometry, sit: Sit, r: Sit, x: nat)
    requires SitInv(g, sit) && SitShape(g, r) && x < g.segs
    requires r.entries == sit.entries[x := r.entries[x]] && EntryOk(r.entries[x])
    requires r.dirtyCnt == |r.dirty| && sit.dirty <= r.dirty
    requires x in r.dirty || r.entries[x].ckpt == r.entries[x].cur
    requires r.written == sit.written + r.entries[x].valid - sit.entries[x].valid
    requires r.discardBlks == sit.discardBlks + |sit.entries[x].discard| - |r.entries[x].discard|
    requires g.SecOf(x) < g.Secs()
    requires g.segsPerSec > 1 ==>
      r.secValid == sit.secValid[g.SecOf(x) := sit.secValid[g.SecOf(x)] + r.entries[x].valid - sit.entries[x].valid]
    ensures SitInv(g, r)
  {
    var e := r.entries[x];
    SumValidUpdate(sit.entries, 0, g.segs, x, e);
    SumClearUpdate(sit.entries, g.segs, x, e);
    if g.segsPerSec > 1 {
      forall c | 0 <= c < g.Secs() ensures SectionSum(g, r, c) {
        assert SectionSum(g, sit, c);
        SecBounds(g, c);
        SumValidUpdate(sit.entries, c * g.segsPerSec, g.segsPerSec, x, e);
      }
    }
    forall y | 0 <= y < g.segs && y !in r.dirty ensures r.entries[y].ckpt == r.entries[y].cur {
      assert y != x ==> r.entries[y] == sit.entries[y];
    }
  }

  lemma UpdateEntryOk(e: Entry, off: nat, alloc: bool)
    requires EntryOk(e) && off < BLOCKS && (alloc <==> off !in e.cur)
    ensures EntryOk(UpdateEntry(e, off, alloc))
  {
    if alloc {
      UnionAdd(e.cur, e.ckpt, off);
    } else {
      UnionDrop(e.cur, e.ckpt, off);
    }
  }

  lemma UnionAdd(cur: set<nat>, ckpt: set<nat>, off: nat)
    requires off !in cur
    ensures |cur + {off}| == |cur| + 1
    ensures |cur + {off} + ckpt| == |cur + ckpt| + if off in ckpt then 0 else 1
  {
    if off in ckpt {
      assert cur + {off} + ckpt == cur + ckpt;
    } else {
      assert cur + {off} + ckpt == (cur + ckpt) + {off};
    }
  }

  lemma UnionDrop(cur: set<nat>, ckpt: set<nat>, off: nat)
    requires off in cur
    ensures |cur - {off}| == |cur| - 1
    ensures |(cur - {off}) + ckpt| == |cur + ckpt| - if off in ckpt then 0 else 1
  {
    if off in ckpt {
      assert (cur - {off}) + ckpt == cur + ckpt;
    } else {
      assert (cur - {off}) + ckpt == (cur + ckpt) - {off};
    }
  }

  lemma MarkDirtyCount(sit: Sit, x: nat)
    requires sit.dirtyCnt == |sit.dirty|
    ensures var r := MarkDirty(sit, x);
      r.dirtyCnt == |r.dirty| && r.dirty == sit.dirty + {x} && r == sit.(dirty := r.dirty, dirtyCnt := r.dirtyCnt)
  {
  }

  lemma UpdateSitInv(g: Geometry, sit: Sit, b: Blk, alloc: bool)
    requires SitInv(g, sit) && InMain(g, b) && (alloc <==> b.off !in sit.entries[b.seg].cur)
    ensures SitInv(g, UpdateSit(g, sit, b, alloc))
  {
    UpdateEntryOk(sit.entries[b.seg], b.off, alloc);
    MarkDirtyCount(sit, b.seg);
    SecInRange(g, b.seg);
    SitReplace(g, sit, UpdateSit(g, sit, b, alloc), b.seg);
  }

  lemma SetTypeInv(g: Geometry, sit: Sit, x: nat, typ: nat)
    requires SitInv(g, sit) && x < g.segs && typ < TYPES
    ensures SitInv(g, SetType(g, sit, x, typ))
  {
    MarkDirtyCount(sit, x);
    SecInRange(g, x);
    SitReplace(g, sit, SetType(g, sit, x, typ), x);
  }

  lemma DiscardInv(g: Geometry, sit: Sit, b: Blk)
    requires SitInv(g, sit) && InMain(g, b)
    ensures SitInv(g, Discard(g, sit, b))
  {
    SecInRange(g, b.seg);
    SitReplace(g, sit, Discard(g, sit, b), b.seg);
  }

  // --------------------------------------------------------------- free maps

  lemma SetInuseInv(g: Geometry, f: FreeMap, x: nat)
    requires FreeInv(g, f) && x < g.segs
    ensures FreeInv(g, SetInuse(g, f, x))
    ensures SetInuse(g, f, x).segs == f.segs - {x}
  {
    var r := SetInuse(g, f, x);
    if x in f.segs {
      var sec := g.SecOf(x);
      SecInRange(g, x);
      assert !SectionFree(g, r.segs, sec);
      forall c: nat | c != sec ensures SectionFree(g, r.segs, c) <==> SectionFree(g, f.segs, c) {
      }
      assert f.segs == r.segs + {x};
      if sec in f.secs {
        assert f.secs == r.secs + {sec};
      } else {
        assert f.secs == r.secs;
      }
    }
  }

  lemma SetFreeInv(g: Geometry, f: FreeMap, x: nat)
    requires FreeInv(g, f) && x < g.segs
    ensures FreeInv(g, SetFree(g, f, x))
    ensures SetFree(g, f, x).segs == f.segs + {x}
  {
    if x !in f.segs {
      SecInRange(g, x);
      OtherSections(g, f.segs, x);
      FreeMore(g, f, SetFree(g, f, x), x);
    }
  }

  /** Freeing a segment concerns its own section only. */
  lemma OtherSections(g: Geometry, segs: set<nat>, x: nat)
    requires g.Valid() && x < g.segs && x !in segs
    ensures !SectionFree(g, segs, g.SecOf(x))
    ensures forall c: nat :: c != g.SecOf(x) ==> (SectionFree(g, segs + {x}, c) <==> SectionFree(g, segs, c))
  {
    forall c: nat | c != g.SecOf(x) ensures SectionFree(g, segs + {x}, c) <==> SectionFree(g, segs, c) {
      if SectionFree(g, segs + {x}, c) {
        forall y: nat | y < g.segs && g.SecOf(y) == c ensures y in segs { assert y in segs + {x}; }
      }
    }
  }

  lemma FreeMore(g: Geometry, f: FreeMap, r: FreeMap, x: nat)
    requires FreeInv(g, f) && x < g.segs && x !in f.segs && g.SecOf(x) < g.Secs()
    requires r.segs == f.segs + {x} && r.nsegs == f.nsegs + 1
    requires !SectionFree(g, f.segs, g.SecOf(x))
    requires forall c: nat :: c != g.SecOf(x) ==> (SectionFree(g, r.segs, c) <==> SectionFree(g, f.segs, c))
    requires if SectionFree(g, r.segs, g.SecOf(x)) then r.secs == f.secs + {g.SecOf(x)} && r.nsecs == f.nsecs + 1
             else r.secs == f.secs && r.nsecs == f.nsecs
    ensures FreeInv(g, r)
  {
    assert g.SecOf(x) !in f.secs;
  }

  lemma {:induction false} FreeAllInv(g: Geometry, f: FreeMap, todo: set<nat>)
    requires FreeInv(g, f) && forall x :: x in todo ==> x < g.segs
    ensures FreeInv(g, FreeAll(g, f, todo))
    ensures FreeAll(g, f, todo).segs == f.segs + todo
    decreases todo
  {
    if todo != {} {
      var x := FreeAllStep(g, f, todo);
      var h := SetFree(g, f, x);
      SetFreeInv(g, f, x);
      FreeAllInv(g, h, todo - {x});
      Rejoin(f.segs, todo, x);
    }
  }

  lemma Rejoin(a: set<nat>, b: set<nat>, x: nat)
    requires x in b
    ensures a + {x} + (b - {x}) == a + b
  {
  }

  lemma FreeAllStep(g: Geometry, f: FreeMap, todo: set<nat>) returns (x: nat)
    requires g.segsPerSec > 0 && todo != {}
    ensures x in todo && FreeAll(g, f, todo) == FreeAll(g, SetFree(g, f, x), todo - {x})
  {
    x :| x in todo && FreeAll(g, f, todo) == FreeAll(g, SetFree(g, f, x), todo - {x});
  }

  // ------------------------------------------------------------- dirty lists

  lemma AddDirtyInv(g: Geometry, d: DirtyList, entries: seq<Entry>, x: nat)
    requires ListInv(g, d, entries) && x < g.segs && entries[x].typ < TYPES
    ensures var r := AddDirty(d, x, entries[x].typ);
      ListInv(g, r, entries) && r.maps[DIRTY] == d.maps[DIRTY] + {x} && r.maps[PRE] == d.maps[PRE]
  {
  }

  lemma DropDirtyInv(g: Geometry, d: DirtyList, sit: Sit, x: nat)
    requires ListInv(g, d, sit.entries) && SitShape(g, sit) && x < g.segs
    ensures var r := DropDirty(g, d, sit, x);
      ListInv(g, r, sit.entries) && r.maps[DIRTY] == d.maps[DIRTY] - {x} && r.maps[PRE] == d.maps[PRE]
  {
    var t := sit.entries[x].typ;
    var d1 := DropFromMap(d, x, DIRTY);
    DropCounts(d, x, DIRTY);
    DropCounts(d1, x, t);
    DropTyped(g, d, DropFromMap(d1, x, t), sit.entries, x);
  }

  ghost predicate CountsOk(d: DirtyList) {
    |d.maps| == MAPS == |d.nr| && forall t :: 0 <= t < MAPS ==> d.nr[t] == |d.maps[t]|
  }

  lemma DropCounts(d: DirtyList, x: nat, t: nat)
    requires CountsOk(d) && t < MAPS
    ensures CountsOk(DropFromMap(d, x, t))
    ensures DropFromMap(d, x, t).maps == d.maps[t := d.maps[t] - {x}]
  {
    if x !in d.maps[t] {
      assert d.maps[t] - {x} == d.maps[t];
    }
  }

  lemma DropTyped(g: Geometry, d: DirtyList, r: DirtyList, entries: seq<Entry>, x: nat)
    requires ListInv(g, d, entries) && x < g.segs && entries[x].typ < TYPES && CountsOk(r)
    requires r.maps == d.maps[DIRTY := d.maps[DIRTY] - {x}][entries[x].typ := d.maps[entries[x].typ] - {x}]
    ensures ListInv(g, r, entries)
  {
  }

  lemma PreInv(g: Geometry, d: DirtyList, entries: seq<Entry>, x: nat)
    requires ListInv(g, d, entries) && x < g.segs
    ensures var r := AddToMap(d, x, PRE);
      ListInv(g, r, entries) && r.maps[DIRTY] == d.maps[DIRTY] && r.maps[PRE] == d.maps[PRE] + {x}
    ensures var r := DropFromMap(d, x, PRE);
      ListInv(g, r, entries) && r.maps[DIRTY] == d.maps[DIRTY] && r.maps[PRE] == d.maps[PRE] - {x}
  {
  }

  /** What locate_dirty_segment does to the DIRTY and PRE maps. */
  lemma LocateMaps(g: Geometry, d: DirtyList, sit: Sit, logs: seq<Log>, x: nat)
    requires ListInv(g, d, sit.entries) && SitShape(g, sit) && x < g.segs && !IsCurseg(logs, x)
    ensures var r := Locate(g, d, sit, logs, x);
      var v := sit.entries[x].valid;
      && ListInv(g, r, sit.entries)
      && r.maps[DIRTY] == (if v != 0 && v < BLOCKS then d.maps[DIRTY] + {x} else d.maps[DIRTY] - {x})
      && r.maps[PRE] == (if v == 0 then d.maps[PRE] + {x} else d.maps[PRE])
  {
    PreInv(g, d, sit.entries, x);
    AddDirtyInv(g, d, sit.entries, x);
    DropDirtyInv(g, d, sit, x);
    DropDirtyInv(g, AddToMap(d, x, PRE), sit, x);
  }

  /** locate_dirty_segment settles one pending segment and moves no other. */
  lemma LocateInv(s: State, todo: set<nat>, x: nat)
    requires InvExcept(s, todo) && x < s.g.segs && x !in s.free.segs
    ensures InvExcept(s.(lists := Locate(s.g, s.lists, s.sit, s.logs, x)), todo - {x})
  {
    var r := s.(lists := Locate(s.g, s.lists, s.sit, s.logs, x));
    assert EntryOk(s.sit.entries[x]);
    if IsCurseg(s.logs, x) {
      LocateReclassify(s, r, todo, x);
    } else {
      LocateMaps(s.g, s.lists, s.sit, s.logs, x);
      LocateReclassify(s, r, todo, x);
    }
  }

  lemma LocateReclassify(s: State, r: State, todo: set<nat>, x: nat)
    requires Shape(s) && Placed(s, todo) && x < s.g.segs && x !in s.free.segs
    requires Shape(r) && r == s.(lists := r.lists)
    requires forall y :: y != x ==>
      && (y in r.lists.maps[DIRTY] <==> y in s.lists.maps[DIRTY])
      && (y in r.lists.maps[PRE] <==> y in s.lists.maps[PRE])
    requires Classified(s, x) || Pending(s, x) ==> Classified(r, x)
    ensures Placed(r, todo - {x})
  {
    forall l | 0 <= l < |s.logs| ensures LogOk(r, l) {
      assert LogOk(s, l);
    }
    forall y | 0 <= y < s.g.segs ensures Classified(r, y) || (y in todo - {x} && Pending(r, y)) {
      assert Classified(s, y) || (y in todo && Pending(s, y));
    }
  }

  // ------------------------------------------------------------- SIT updates

  /** No log would hand out the block again. */
  ghost predicate BehindLogs(s: State, b: Blk) {
    forall l :: 0 <= l < |s.logs| && s.logs[l].segno == b.seg ==>
      if s.logs[l].ssr then s.logs[l].next != b.off else b.off < s.logs[l].next
  }

  lemma UpdateInv(s: State, todo: set<nat>, b: Blk, alloc: bool)
    requires InvExcept(s, todo) && InMain(s.g, b)
    requires alloc <==> b.off !in s.sit.entries[b.seg].cur
    requires alloc ==> b.seg !in s.free.segs && b.seg !in s.lists.maps[PRE] && BehindLogs(s, b)
    ensures InvExcept(s.(sit := UpdateSit(s.g, s.sit, b, alloc)), todo + {b.seg})
    ensures b.seg !in s.free.segs
  {
    var r := s.(sit := UpdateSit(s.g, s.sit, b, alloc));
    UpdateSitInv(s.g, s.sit, b, alloc);
    assert EntryOk(s.sit.entries[b.seg]);
    assert Classified(s, b.seg) || Pending(s, b.seg);
    UpdateLogs(s, r, b, alloc);
    UpdateClasses(s, r, todo, b);
  }

  lemma UpdateLogs(s: State, r: State, b: Blk, alloc: bool)
    requires Shape(s) && Shape(r) && InMain(s.g, b) && r == s.(sit := r.sit)
    requires r.sit.entries == s.sit.entries[b.seg := UpdateEntry(s.sit.entries[b.seg], b.off, alloc)]
    requires alloc ==> BehindLogs(s, b)
    requires forall l :: 0 <= l < |s.logs| ==> LogOk(s, l)
    ensures forall l :: 0 <= l < |r.logs| ==> LogOk(r, l)
  {
    forall l | 0 <= l < |s.logs| ensures LogOk(r, l) {
      assert LogOk(s, l);
    }
  }

  lemma UpdateClasses(s: State, r: State, todo: set<nat>, b: Blk)
    requires Shape(s) && Shape(r) && InMain(s.g, b) && r == s.(sit := r.sit)
    requires r.sit.entries == s.sit.entries[b.seg := r.sit.entries[b.seg]]
    requires b.seg !in s.free.segs && b.seg !in s.lists.maps[PRE]
    requires forall x :: 0 <= x < s.g.segs ==> Classified(s, x) || (x in todo && Pending(s, x))
    ensures forall x :: 0 <= x < r.g.segs ==> Classified(r, x) || (x in todo + {b.seg} && Pending(r, x))
  {
    forall y | 0 <= y < s.g.segs ensures Classified(r, y) || (y in todo + {b.seg} && Pending(r, y)) {
      assert Classified(s, y) || (y in todo && Pending(s, y));
    }
  }

  lemma InvalidateInv(s: State, b: Blk)
    requires Inv(s) && InMain(s.g, b) && b.off in s.sit.entries[b.seg].cur
    ensures Inv(Invalidate(s, b))
  {
    UpdateInv(s, {}, b, false);
    LocateInv(s.(sit := UpdateSit(s.g, s.sit, b, false)), {} + {b.seg}, b.seg);
    assert {} + {b.seg} - {b.seg} == {};
  }

  lemma RefreshInv(s: State, todo: set<nat>, prev: Option<Blk>, b: Blk)
    requires InvExcept(s, todo) && InMain(s.g, b) && todo <= {b.seg}
    requires b.off !in s.sit.entries[b.seg].cur
    requires b.seg !in s.free.segs && b.seg !in s.lists.maps[PRE] && BehindLogs(s, b)
    requires prev.Some? ==> InMain(s.g, prev.value) && prev.value.off in s.sit.entries[prev.value.seg].cur
    ensures InvExcept(RefreshSit(s, prev, b), {}) && RefreshSit(s, prev, b).logs == s.logs
  {
    UpdateInv(s, todo, b, true);
    var s1 := s.(sit := UpdateSit(s.g, s.sit, b, true));
    if prev.None? {
      LocateInv(s1, todo + {b.seg}, b.seg);
      assert todo + {b.seg} - {b.seg} == {};
    } else {
      var p := prev.value;
      UpdateInv(s1, todo + {b.seg}, p, false);
      var s2 := s1.(sit := UpdateSit(s.g, s1.sit, p, false));
      LocateInv(s2, todo + {b.seg} + {p.seg}, p.seg);
      var s3 := s2.(lists := Locate(s.g, s.lists, s2.sit, s.logs, p.seg));
      LocateInv(s3, todo + {b.seg} + {p.seg} - {p.seg}, b.seg);
      assert todo + {b.seg} + {p.seg} - {p.seg} - {b.seg} == {};
    }
  }

  // -------------------------------------------------------------------- logs

  lemma CursegUpdate(logs: seq<Log>, l: nat, c: Log)
    requires l < |logs| && LogsDistinct(logs)
    ensures forall x: nat ::
      IsCurseg(logs[l := c], x) <==> x == c.segno || (x != logs[l].segno && IsCurseg(logs, x))
  {
    var r := logs[l := c];
    forall x: nat
      ensures IsCurseg(r, x) <==> x == c.segno || (x != logs[l].segno && IsCurseg(logs, x))
    {
      if IsCurseg(r, x) && x != c.segno {
        var m :| 0 <= m < |r| && r[m].segno == x;
        assert logs[m].segno == x;
      }
      if x == c.segno {
        assert r[l].segno == x;
      } else if x != logs[l].segno && IsCurseg(logs, x) {
        var m :| 0 <= m < |logs| && logs[m].segno == x;
        assert r[m].segno == x;
      }
    }
  }

  /** Moving the log head leaves a block that is free in both maps behind it. */
  lemma AdvanceInv(s: State, l: nat)
    requires Inv(s) && l < |s.logs|
    ensures InvExcept(Advance(s, l), {})
    ensures BehindLogs(Advance(s, l), Head(s, l))
    ensures var b := Head(s, l);
      && b.off !in s.sit.entries[b.seg].cur && b.off !in s.sit.entries[b.seg].ckpt
      && b.seg !in s.free.segs && b.seg !in s.lists.maps[PRE]
  {
    var r := Advance(s, l);
    var b := Head(s, l);
    assert LogOk(s, l);
    assert EntryOk(s.sit.entries[b.seg]);
    CursegUpdate(s.logs, l, r.logs[l]);
    assert IsCurseg(s.logs, b.seg);
    forall m | 0 <= m < |r.logs| ensures LogOk(r, m) {
      assert LogOk(s, m);
    }
    forall y | 0 <= y < s.g.segs ensures Classified(r, y) {
      assert Classified(s, y);
      assert IsCurseg(r.logs, y) <==> IsCurseg(s.logs, y);
    }
    assert Classified(s, b.seg);
    assert LogsDistinct(r.logs);
  }

  /** The log may take segment x: free for LFS; for SSR dirty, in no section a
      log works in, and with room left in both maps. */
  ghost predicate ChoiceOk(s: State, c: Choice)
    requires Shape(s)
  {
    && c.x < s.g.segs
    && match c
       case UseFree(x) => x in s.free.segs
       case UseDirty(x) =>
         && x in s.lists.maps[DIRTY]
         && !IsCursec(s.g, s.logs, s.g.SecOf(x))
         && s.sit.entries[x].ckptValid < BLOCKS
  }

  lemma {:induction false} FullSize(n: nat, t: set<nat>)
    requires forall k :: 0 <= k < n ==> k in t
    requires forall k :: k in t ==> k < n
    ensures |t| == n
    decreases n
  {
    if n > 0 {
      FullSize(n - 1, t - {n - 1});
    } else {
      assert t == {};
    }
  }

  lemma RoomLeft(e: Entry)
    requires EntryOk(e) && e.ckptValid < BLOCKS
    ensures NextZero(e.cur + e.ckpt, 0) < BLOCKS
  {
    if NextZero(e.cur + e.ckpt, 0) == BLOCKS {
      FullSize(BLOCKS, e.cur + e.ckpt);
    }
  }

  /** Log l moves from its segment to segment x, which no log holds and which is
      taken off the free and dirty maps: the rest of the invariant follows, and
      the segment left behind waits to be located. */
  lemma MoveLog(s: State, r: State, l: nat, x: nat)
    requires Shape(s) && Placed(s, {}) && l < |s.logs| && x < s.g.segs && !IsCurseg(s.logs, x)
    requires Shape(r) && r.g == s.g
    requires r.logs == s.logs[l := r.logs[l]] && r.logs[l].segno == x
    requires r.sit.entries == s.sit.entries[x := s.sit.entries[x].(typ := l % TYPES)]
    requires r.free.segs == s.free.segs - {x}
    requires r.lists.maps[DIRTY] == s.lists.maps[DIRTY] - {x}
    requires r.lists.maps[PRE] == s.lists.maps[PRE] - {x}
    requires LogOk(r, l)
    ensures Placed(r, {s.logs[l].segno})
  {
    var was := s.logs[l].segno;
    assert IsCurseg(s.logs, was);
    CursegUpdate(s.logs, l, r.logs[l]);
    forall m | 0 <= m < |r.logs| ensures LogOk(r, m) {
      if m != l {
        assert LogOk(s, m);
        assert s.logs[m].segno != x;
      }
    }
    forall y | 0 <= y < s.g.segs ensures Classified(r, y) || (y in {was} && Pending(r, y)) {
      assert Classified(s, y);
    }
    forall m, n | 0 <= m < |r.logs| && 0 <= n < |r.logs| && r.logs[m].segno == r.logs[n].segno ensures m == n {
      assert m != l ==> r.logs[m] == s.logs[m] && s.logs[m].segno != x;
      assert n != l ==> r.logs[n] == s.logs[n] && s.logs[n].segno != x;
    }
  }

  lemma RetypeList(g: Geometry, d: DirtyList, entries: seq<Entry>, x: nat, typ: nat)
    requires ListInv(g, d, entries) && x < g.segs && x !in d.maps[DIRTY]
    ensures ListInv(g, d, entries[x := entries[x].(typ := typ)])
  {
  }

  lemma NewCursegPlaced(s: State, l: nat, x: nat)
    requires Shape(s) && Placed(s, {}) && l < |s.logs| && x in s.free.segs && x < s.g.segs
    ensures Placed(NewCurseg(s, l, x), {s.logs[l].segno})
    ensures !IsCurseg(s.logs, x) && x !in s.lists.maps[DIRTY]
  {
    assert Classified(s, x);
    var r := NewCurseg(s, l, x);
    MoveLog(s, r, l, x);
  }

  lemma NewCursegInv(s: State, l: nat, x: nat)
    requires InvExcept(s, {}) && l < |s.logs| && x in s.free.segs
    ensures InvExcept(NewCurseg(s, l, x), {s.logs[l].segno})
    ensures !IsCurseg(s.logs, x)
  {
    NewCursegPlaced(s, l, x);
    SetInuseInv(s.g, s.free, x);
    SetTypeInv(s.g, s.sit, x, l % TYPES);
    RetypeList(s.g, s.lists, s.sit.entries, x, l % TYPES);
  }

  lemma ChangeCursegPlaced(s: State, l: nat, x: nat)
    requires Shape(s) && Placed(s, {}) && l < |s.logs| && x in s.lists.maps[DIRTY] && x < s.g.segs
    requires EntryOk(s.sit.entries[x]) && s.sit.entries[x].ckptValid < BLOCKS
    requires SetInuse(s.g, s.free, x).segs == s.free.segs - {x}
    requires ListInv(s.g, s.lists, s.sit.entries)
    ensures Placed(ChangeCurseg(s, l, x), {s.logs[l].segno})
    ensures ChangeCurseg(s, l, x).logs[l].next < BLOCKS
    ensures !IsCurseg(s.logs, x)
    ensures ListInv(s.g, ChangeCurseg(s, l, x).lists, s.sit.entries[x := s.sit.entries[x].(typ := l % TYPES)])
  {
    assert Classified(s, x);
    var r := ChangeCurseg(s, l, x);
    RoomLeft(s.sit.entries[x]);
    PreInv(s.g, s.lists, s.sit.entries, x);
    DropDirtyInv(s.g, DropFromMap(s.lists, x, PRE), s.sit, x);
    MoveLog(s, r, l, x);
    RetypeList(s.g, r.lists, s.sit.entries, x, l % TYPES);
  }

  lemma ChangeCursegInv(s: State, l: nat, x: nat)
    requires InvExcept(s, {}) && l < |s.logs| && x in s.lists.maps[DIRTY] && s.sit.entries[x].ckptValid < BLOCKS
    ensures InvExcept(ChangeCurseg(s, l, x), {s.logs[l].segno})
    ensures ChangeCurseg(s, l, x).logs[l].next < BLOCKS
    ensures !IsCurseg(s.logs, x)
  {
    SetInuseInv(s.g, s.free, x);
    ChangeCursegPlaced(s, l, x);
    SetTypeInv(s.g, s.sit, x, l % TYPES);
  }

  lemma SwitchInv(s: State, l: nat, c: Choice)
    requires InvExcept(s, {}) && l < |s.logs| && ChoiceOk(s, c)
    ensures InvExcept(Switch(s, l, c), {s.logs[l].segno})
    ensures Switch(s, l, c).logs[l].next < BLOCKS
    ensures c.x != s.logs[l].segno
  {
    assert IsCurseg(s.logs, s.logs[l].segno);
    if c.UseFree? {
      NewCursegInv(s, l, c.x);
    } else {
      ChangeCursegInv(s, l, c.x);
    }
  }

  // --------------------------------------------------------------- operations

  lemma ForceNewInv(s: State, l: nat, x: nat)
    requires Inv(s) && l < |s.logs| && x in s.free.segs
    ensures Inv(ForceNew(s, l, x))
  {
    var was := s.logs[l].segno;
    var r := NewCurseg(s, l, x);
    assert Switch(s, l, UseFree(x)) == r;
    SwitchInv(s, l, UseFree(x));
    LeftBehind(s, l, UseFree(x));
    LocateInv(r, {was}, was);
    assert {was} - {was} == {};
  }

  ghost predicate PrevOk(s: State, prev: Option<Blk>)
    requires Shape(s)
  {
    prev.Some? ==> InMain(s.g, prev.value) && prev.value.off in s.sit.entries[prev.value.seg].cur
  }

  lemma AllocateSwitchInv(s: State, l: nat, prev: Option<Blk>, c: Choice, b: Blk)
    requires InvExcept(s, {}) && l < |s.logs| && ChoiceOk(s, c) && PrevOk(s, prev)
    requires forall m :: 0 <= m < |s.logs| && m != l ==> s.logs[m].next < BLOCKS
    requires InMain(s.g, b) && b.seg == s.logs[l].segno && b.off !in s.sit.entries[b.seg].cur
    ensures Inv(RefreshSit(Switch(s, l, c), prev, b))
  {
    SwitchInv(s, l, c);
    LeftBehind(s, l, c);
    SwitchHeads(s, Switch(s, l, c), l);
    RefreshLeft(Switch(s, l, c), prev, b);
  }

  lemma SwitchHeads(s: State, r: State, l: nat)
    requires l < |s.logs| == |r.logs| && r.logs == s.logs[l := r.logs[l]] && r.logs[l].next < BLOCKS
    requires forall m :: 0 <= m < |s.logs| && m != l ==> s.logs[m].next < BLOCKS
    ensures forall m :: 0 <= m < |r.logs| ==> r.logs[m].next < BLOCKS
  {
  }

  /** The segment a log leaves is on no free or prefree map and no log's. */
  lemma LeftBehind(s: State, l: nat, c: Choice)
    requires Shape(s) && Placed(s, {}) && l < |s.logs| && c.x < s.g.segs && c.x != s.logs[l].segno
    ensures var r, x := Switch(s, l, c), s.logs[l].segno;
      && x !in r.free.segs && x !in r.lists.maps[PRE]
      && (forall m :: 0 <= m < |r.logs| ==> r.logs[m].segno != x)
      && r.logs == s.logs[l := r.logs[l]] && r.g == s.g
      && (forall y :: 0 <= y < s.g.segs ==> r.sit.entries[y].cur == s.sit.entries[y].cur)
  {
    var x := s.logs[l].segno;
    assert IsCurseg(s.logs, x);
    assert Classified(s, x);
  }

  lemma RefreshLeft(r: State, prev: Option<Blk>, b: Blk)
    requires InvExcept(r, {b.seg}) && InMain(r.g, b) && b.off !in r.sit.entries[b.seg].cur
    requires b.seg !in r.free.segs && b.seg !in r.lists.maps[PRE]
    requires forall m :: 0 <= m < |r.logs| ==> r.logs[m].segno != b.seg && r.logs[m].next < BLOCKS
    requires PrevOk(r, prev)
    ensures Inv(RefreshSit(r, prev, b))
  {
    RefreshInv(r, {b.seg}, prev, b);
  }

  /** Moving a log's head changes nothing a choice of segment depends on. */
  lemma AdvanceChoice(s: State, l: nat, c: Choice)
    requires Shape(s) && l < |s.logs| && ChoiceOk(s, c)
    ensures ChoiceOk(Advance(s, l), c)
  {
    var s1 := Advance(s, l);
    forall m | 0 <= m < |s1.logs| ensures s1.logs[m].segno == s.logs[m].segno {
    }
  }

  lemma AllocateInv(s: State, l: nat, prev: Option<Blk>, c: Choice)
    requires Inv(s) && l < |s.logs| && c.x < s.g.segs && PrevOk(s, prev)
    requires Advance(s, l).logs[l].next >= BLOCKS ==> ChoiceOk(s, c)
    ensures Inv(Allocate(s, l, prev, c))
  {
    AdvanceInv(s, l);
    if Advance(s, l).logs[l].next >= BLOCKS {
      AdvanceChoice(s, l, c);
    }
    AllocateFrom(s, Advance(s, l), l, prev, c);
  }

  lemma AllocateFrom(s: State, s1: State, l: nat, prev: Option<Blk>, c: Choice)
    requires Shape(s) && l < |s.logs| && c.x < s.g.segs && PrevOk(s, prev)
    requires forall m :: 0 <= m < |s.logs| ==> s.logs[m].next < BLOCKS
    requires s1 == Advance(s, l) && InvExcept(s1, {}) && BehindLogs(s1, Head(s, l))
    requires var b := Head(s, l);
      b.off !in s.sit.entries[b.seg].cur && b.seg !in s.free.segs && b.seg !in s.lists.maps[PRE]
    requires s1.logs[l].next >= BLOCKS ==> ChoiceOk(s1, c)
    ensures Inv(Allocate(s, l, prev, c))
  {
    if s1.logs[l].next < BLOCKS {
      RefreshInv(s1, {}, prev, Head(s, l));
    } else {
      AllocateSwitchInv(s1, l, prev, c, Head(s, l));
    }
  }

  lemma FlushSitInv(g: Geometry, sit: Sit)
    requires SitInv(g, sit)
    ensures SitInv(g, FlushSit(sit))
    ensures var r := FlushSit(sit);
      && (forall x :: 0 <= x < g.segs ==> r.entries[x].ckpt == r.entries[x].cur == sit.entries[x].cur)
      && (forall x :: 0 <= x < g.segs ==> r.entries[x].typ == sit.entries[x].typ)
      && (forall x :: 0 <= x < g.segs ==> r.entries[x].valid == sit.entries[x].valid)
  {
    var r := FlushSit(sit);
    forall x | 0 <= x < g.segs ensures EntryOk(r.entries[x]) {
      assert EntryOk(sit.entries[x]);
      var e := sit.entries[x];
      assert e.cur + e.cur == e.cur;
    }
    SumsCongruent(sit.entries, r.entries, 0, g.segs);
    if g.segsPerSec > 1 {
      forall c | 0 <= c < g.Secs() ensures SectionSum(g, r, c) {
        assert SectionSum(g, sit, c);
        SecBounds(g, c);
        SumsCongruent(sit.entries, r.entries, c * g.segsPerSec, g.segsPerSec);
      }
    }
  }

  lemma {:induction false} SumsCongruent(p: seq<Entry>, q: seq<Entry>, lo: nat, n: nat)
    requires |p| == |q| && lo + n <= |p|
    requires forall x :: 0 <= x < |p| ==> p[x].valid == q[x].valid && p[x].discard == q[x].discard
    ensures SumValid(p, lo, n) == SumValid(q, lo, n)
    ensures lo == 0 ==> SumClear(p, n) == SumClear(q, n)
  {
    if n > 0 {
      SumsCongruent(p, q, lo, n - 1);
    }
  }

  lemma CheckpointPlaced(s: State, r: State)
    requires Shape(s) && Placed(s, {}) && Shape(r)
    requires r.g == s.g && r.logs == s.logs
    requires forall x :: 0 <= x < s.g.segs ==>
      var e, e' := s.sit.entries[x], r.sit.entries[x];
      && e'.ckpt == e'.cur == e.cur && e'.typ == e.typ && e'.valid == e.valid && (e.valid == 0 ==> e.cur == {})
    requires r.free.segs == s.free.segs + s.lists.maps[PRE]
    requires r.lists.maps[PRE] == {} && r.lists.maps[DIRTY] == s.lists.maps[DIRTY]
    ensures Placed(r, {})
  {
    forall l | 0 <= l < |s.logs| ensures LogOk(r, l) {
      assert LogOk(s, l);
    }
    forall x | 0 <= x < s.g.segs ensures Classified(r, x) {
      assert Classified(s, x);
    }
  }

  lemma EmptyPre(g: Geometry, d: DirtyList, p: seq<Entry>, q: seq<Entry>)
    requires ListInv(g, d, p) && |q| == |p| && forall x :: 0 <= x < |p| ==> q[x].typ == p[x].typ
    ensures ListInv(g, EmptyPrefree(d), q)
  {
  }

  lemma CheckpointInv(s: State)
    requires Inv(s)
    ensures Inv(Checkpoint(s))
  {
    var r := Checkpoint(s);
    FlushSitInv(s.g, s.sit);
    FreeAllInv(s.g, s.free, s.lists.maps[PRE]);
    EmptyPre(s.g, s.lists, s.sit.entries, r.sit.entries);
    assert Shape(r);
    forall x | 0 <= x < s.g.segs && s.sit.entries[x].valid == 0 ensures s.sit.entries[x].cur == {} {
      assert EntryOk(s.sit.entries[x]);
    }
    CheckpointPlaced(s, r);
  }

  // -------------------------------------------------------------------- runs

  datatype Op =
    | Alloc(l: nat, direct: bool, seg: nat, prev: Option<Blk>, c: Choice)
    | Inval(b: Blk)
    | Ckpt
    | Trim(b: Blk)

  /** allocate_data_block before it reads the log head: direct I/O starts on a
      fresh segment. */
  function Prepared(s: State, op: Op): (r: State)
    requires Shape(s) && op.Alloc? && op.l < |s.logs|
    requires op.direct && s.logs[op.l].next != 0 ==> op.seg < s.g.segs
    ensures Shape(r) && |r.logs| == |s.logs| && r.g == s.g
  {
    if op.direct && s.logs[op.l].next != 0 then ForceNew(s, op.l, op.seg) else s
  }

  /** What the code guarantees or demands when it performs the operation: blocks
      given up are live, and new log segments come from the right maps. */
  ghost predicate OpOk(s: State, op: Op)
    requires Shape(s)
  {
    match op
    case Alloc(l, direct, x, prev, c) =>
      && l < |s.logs|
      && (direct && s.logs[l].next != 0 ==> x in s.free.segs)
      && var r := Prepared(s, op);
         && r.logs[l].next < BLOCKS
         && c.x < s.g.segs
         && PrevOk(s, prev)
         && (Advance(r, l).logs[l].next >= BLOCKS ==> ChoiceOk(r, c))
    case Inval(b) => InMain(s.g, b) && b.off in s.sit.entries[b.seg].cur
    case Ckpt => true
    case Trim(b) => InMain(s.g, b)
  }

  /** The block an allocation hands out. */
  function Handed(s: State, op: Op): (b: Blk)
    requires Shape(s) && op.Alloc? && op.l < |s.logs|
    requires op.direct && s.logs[op.l].next != 0 ==> op.seg < s.g.segs
  {
    Head(Prepared(s, op), op.l)
  }

  ghost function Do(s: State, op: Op): (r: State)
    requires Shape(s) && OpOk(s, op)
    ensures r.g == s.g
  {
    match op
    case Alloc(l, _, _, prev, c) => Allocate(Prepared(s, op), l, prev, c)
    case Inval(b) => Invalidate(s, b)
    case Ckpt => Checkpoint(s)
    case Trim(b) => s.(sit := Discard(s.g, s.sit, b))
  }

  ghost predicate Run(trace: seq<State>, ops: seq<Op>) {
    && |trace| == |ops| + 1
    && Inv(trace[0])
    && forall i :: 0 <= i < |ops| ==>
         Shape(trace[i]) && OpOk(trace[i], ops[i]) && trace[i + 1] == Do(trace[i], ops[i])
  }

  lemma TrimInv(s: State, b: Blk)
    requires Inv(s) && InMain(s.g, b)
    ensures Inv(s.(sit := Discard(s.g, s.sit, b)))
  {
    DiscardInv(s.g, s.sit, b);
    DiscardPlaced(s, s.(sit := Discard(s.g, s.sit, b)));
  }

  /** The discard maps matter to nothing but their own count. */
  lemma DiscardPlaced(s: State, r: State)
    requires Shape(s) && Shape(r) && Placed(s, {}) && r == s.(sit := r.sit)
    requires forall x :: 0 <= x < s.g.segs ==> r.sit.entries[x] == s.sit.entries[x].(discard := r.sit.entries[x].discard)
    ensures Placed(r, {})
  {
    forall l | 0 <= l < |s.logs| ensures LogOk(r, l) {
      assert LogOk(s, l);
    }
    forall x | 0 <= x < s.g.segs ensures Classified(r, x) {
      assert Classified(s, x);
    }
  }

  /** The forced switch changes no block map and keeps the invariant. */
  lemma PreparedInv(s: State, op: Op)
    requires Inv(s) && op.Alloc? && OpOk(s, op)
    ensures Inv(Prepared(s, op))
    ensures SameMaps(s, Prepared(s, op))
  {
    if op.direct && s.logs[op.l].next != 0 {
      ForceNewInv(s, op.l, op.seg);
      ForceNewMaps(s, op.l, op.seg);
    }
  }

  ghost predicate SameMaps(s: State, r: State) {
    && |r.sit.entries| == |s.sit.entries|
    && forall x :: 0 <= x < |s.sit.entries| ==>
         r.sit.entries[x].cur == s.sit.entries[x].cur && r.sit.entries[x].ckpt == s.sit.entries[x].ckpt
  }

  lemma ForceNewMaps(s: State, l: nat, x: nat)
    requires Shape(s) && l < |s.logs| && x < s.g.segs
    ensures SameMaps(s, ForceNew(s, l, x))
  {
  }

  lemma DoInv(s: State, op: Op)
    requires Inv(s) && OpOk(s, op)
    ensures Inv(Do(s, op))
  {
    match op
    case Alloc(l, _, _, prev, c) =>
      PreparedInv(s, op);
      AllocateInv(Prepared(s, op), l, prev, c);
    case Inval(b) => InvalidateInv(s, b);
    case Ckpt => CheckpointInv(s);
    case Trim(b) => TrimInv(s, b);
  }

  lemma {:induction false} RunInv(trace: seq<State>, ops: seq<Op>, i: nat)
    requires Run(trace, ops) && i < |trace|
    ensures Inv(trace[i])
  {
    if i > 0 {
      RunInv(trace, ops, i - 1);
      assert trace[i - 1 + 1] == Do(trace[i - 1], ops[i - 1]);
      DoInv(trace[i - 1], ops[i - 1]);
    }
  }

  // ------------------------------------------------------------ main results

  /** Allocation safety: in every interleaving of allocations in any log and
      mode, invalidations, checkpoints and discards, the block handed out is in
      neither the current nor the checkpointed valid map, and no two logs hold
      the same segment. */
  lemma AllocationSafe(trace: seq<State>, ops: seq<Op>, i: nat)
    requires Run(trace, ops) && i < |ops|
    ensures LogsDistinct(trace[i].logs)
    ensures ops[i].Alloc? ==>
      var b, s := Handed(trace[i], ops[i]), trace[i];
      InMain(s.g, b) && b.off !in s.sit.entries[b.seg].cur && b.off !in s.sit.entries[b.seg].ckpt
  {
    RunInv(trace, ops, i);
    if ops[i].Alloc? {
      var r := Prepared(trace[i], ops[i]);
      PreparedInv(trace[i], ops[i]);
      assert LogOk(r, ops[i].l);
    }
  }

  lemma AllocateKeepsCkpt(s: State, l: nat, prev: Option<Blk>, c: Choice, x: nat)
    requires Shape(s) && l < |s.logs| && s.logs[l].next < BLOCKS && c.x < s.g.segs && x < s.g.segs
    requires prev.Some? ==> InMain(s.g, prev.value)
    ensures var r := Allocate(s, l, prev, c);
      r.g == s.g && |r.sit.entries| == s.g.segs && r.sit.entries[x].ckpt == s.sit.entries[x].ckpt
  {
    var s1 := Advance(s, l);
    var s2 := if s1.logs[l].next < BLOCKS then s1 else Switch(s1, l, c);
    assert s2.g == s.g && s2.sit.entries[x].ckpt == s.sit.entries[x].ckpt;
    var sit1 := UpdateSit(s.g, s2.sit, Head(s, l), true);
    assert sit1.entries[x].ckpt == s2.sit.entries[x].ckpt;
  }

  /** Only a checkpoint changes the checkpointed maps, and it copies the current
      ones. */
  lemma CkptMap(s: State, op: Op, x: nat)
    requires Inv(s) && OpOk(s, op) && x < s.g.segs
    ensures Do(s, op).g == s.g && |Do(s, op).sit.entries| == s.g.segs
    ensures Do(s, op).sit.entries[x].ckpt == if op.Ckpt? then s.sit.entries[x].cur else s.sit.entries[x].ckpt
  {
    match op
    case Alloc(l, _, _, prev, c) =>
      PreparedInv(s, op);
      AllocateKeepsCkpt(Prepared(s, op), l, prev, c, x);
    case Ckpt => FlushSitInv(s.g, s.sit);
    case Inval(_) =>
    case Trim(_) =>
  }

  lemma CkptMapAt(trace: seq<State>, ops: seq<Op>, k: nat, x: nat)
    requires Run(trace, ops) && k < |ops| && x < trace[k].g.segs
    ensures Shape(trace[k]) && Shape(trace[k + 1]) && trace[k + 1].g == trace[k].g
    ensures trace[k + 1].sit.entries[x].ckpt ==
            if ops[k].Ckpt? then trace[k].sit.entries[x].cur else trace[k].sit.entries[x].ckpt
  {
    RunInv(trace, ops, k);
    RunInv(trace, ops, k + 1);
    CkptMap(trace[k], ops[k], x);
  }

  lemma {:induction false} Carried(curs: seq<set<nat>>, ckpts: seq<set<nat>>, isCkpt: seq<bool>, j: nat, i: nat)
    requires |curs| == |ckpts| == |isCkpt| + 1 && j < i < |curs|
    requires forall k :: 0 <= k < |isCkpt| ==> ckpts[k + 1] == if isCkpt[k] then curs[k] else ckpts[k]
    requires isCkpt[j] && forall k :: j < k < i ==> !isCkpt[k]
    ensures ckpts[i] == curs[j]
    decreases i
  {
    assert ckpts[i - 1 + 1] == if isCkpt[i - 1] then curs[i - 1] else ckpts[i - 1];
    if i > j + 1 {
      Carried(curs, ckpts, isCkpt, j, i - 1);
    }
  }

  lemma CkptSnapshot(trace: seq<State>, ops: seq<Op>, j: nat, i: nat, x: nat)
    requires Run(trace, ops) && j < i < |trace| && x < trace[0].g.segs
    requires ops[j].Ckpt? && forall k :: j < k < i ==> !ops[k].Ckpt?
    ensures Shape(trace[i]) && Shape(trace[j]) && trace[i].g == trace[j].g == trace[0].g
    ensures trace[i].sit.entries[x].ckpt == trace[j].sit.entries[x].cur
  {
    forall k | 0 <= k < |trace| ensures Shape(trace[k]) && trace[k].g == trace[0].g {
      RunInv(trace, ops, k);
      GeometryFixed(trace, ops, k);
    }
    var curs := seq(|trace|, k requires 0 <= k < |trace| && Shape(trace[k]) && x < trace[k].g.segs =>
      trace[k].sit.entries[x].cur);
    var ckpts := seq(|trace|, k requires 0 <= k < |trace| && Shape(trace[k]) && x < trace[k].g.segs =>
      trace[k].sit.entries[x].ckpt);
    var isCkpt := seq(|ops|, k requires 0 <= k < |ops| => ops[k].Ckpt?);
    forall k | 0 <= k < |isCkpt| ensures ckpts[k + 1] == if isCkpt[k] then curs[k] else ckpts[k] {
      CkptMapAt(trace, ops, k, x);
    }
    Carried(curs, ckpts, isCkpt, j, i);
  }

  /** A block live when checkpoint j ran is not handed out before the next
      checkpoint, even if it was invalidated in between: after a crash the
      state of checkpoint j is still intact. */
  lemma CheckpointedBlocksKept(trace: seq<State>, ops: seq<Op>, j: nat, i: nat)
    requires Run(trace, ops) && j < i < |ops| && ops[i].Alloc?
    requires ops[j].Ckpt? && forall k :: j < k < i ==> !ops[k].Ckpt?
    ensures Shape(trace[j])
    ensures var b := Handed(trace[i], ops[i]);
      InMain(trace[j].g, b) && b.off !in trace[j].sit.entries[b.seg].cur
  {
    AllocationSafe(trace, ops, i);
    var b := Handed(trace[i], ops[i]);
    GeometryFixed(trace, ops, j);
    GeometryFixed(trace, ops, i);
    CkptSnapshot(trace, ops, j, i, b.seg);
  }

  lemma {:induction false} GeometryFixed(trace: seq<State>, ops: seq<Op>, i: nat)
    requires Run(trace, ops) && i < |trace|
    ensures trace[i].g == trace[0].g
  {
    if i > 0 {
      GeometryFixed(trace, ops, i - 1);
      assert trace[i - 1 + 1] == Do(trace[i - 1], ops[i - 1]);
    }
  }

  ghost predicate Free(s: State, x: nat) { x in s.free.segs }
  ghost predicate Open(s: State, x: nat) { IsCurseg(s.logs, x) }
  ghost predicate Prefree(s: State, x: nat) requires Shape(s) { x in s.lists.maps[PRE] }
  ghost predicate Dirty(s: State, x: nat) requires Shape(s) { x in s.lists.maps[DIRTY] }
  ghost predicate Full(s: State, x: nat) requires Shape(s) && x < s.g.segs {
    s.sit.entries[x].valid == BLOCKS && !Open(s, x)
  }

  /** Between checkpoints every main segment is exactly one of free, open log,
      prefree, dirty or full, dirty segments are listed once under their own
      type, and all counters count. */
  lemma Partition(trace: seq<State>, ops: seq<Op>, i: nat)
    requires Run(trace, ops) && i < |trace|
    ensures Shape(trace[i])
    ensures var s := trace[i];
      && (forall x :: 0 <= x < s.g.segs ==>
           One(Free(s, x)) + One(Open(s, x)) + One(Prefree(s, x)) + One(Dirty(s, x)) + One(Full(s, x)) == 1)
      && (forall x :: 0 <= x < s.g.segs ==>
           (Dirty(s, x) <==> x in s.lists.maps[s.sit.entries[x].typ])
           && forall t :: 0 <= t < TYPES && x in s.lists.maps[t] ==> t == s.sit.entries[x].typ)
      && (forall t :: 0 <= t < MAPS ==> s.lists.nr[t] == |s.lists.maps[t]|)
      && s.free.nsegs == |s.free.segs| && s.free.nsecs == |s.free.secs|
      && (forall c: nat :: c in s.free.secs <==> c < s.g.Secs() && SectionFree(s.g, s.free.segs, c))
  {
    RunInv(trace, ops, i);
    var s := trace[i];
    forall x | 0 <= x < s.g.segs
      ensures One(Free(s, x)) + One(Open(s, x)) + One(Prefree(s, x)) + One(Dirty(s, x)) + One(Full(s, x)) == 1
    {
      assert Classified(s, x);
      assert EntryOk(s.sit.entries[x]);
      SizeBound(BLOCKS, s.sit.entries[x].cur);
    }
  }

  lemma {:induction false} SizeBound(n: nat, t: set<nat>)
    requires forall k :: k in t ==> k < n
    ensures |t| <= n
    decreases n
  {
    if n > 0 {
      SizeBound(n - 1, t - {n - 1});
    } else {
      assert t == {};
    }
  }

  /** Block accounting in every run: valid_blocks, ckpt_valid_blocks, section
      counts, the total and discard_blks all match the bitmaps. */
  lemma Accounting(trace: seq<State>, ops: seq<Op>, i: nat)
    requires Run(trace, ops) && i < |trace|
    ensures Shape(trace[i])
    ensures var s := trace[i];
      && (forall x :: 0 <= x < s.g.segs ==>
           var e := s.sit.entries[x];
           && e.valid == |e.cur| && e.ckptValid == |e.cur + e.ckpt|
           && (x !in s.sit.dirty ==> e.ckpt == e.cur))
      && (s.g.segsPerSec > 1 ==> forall c :: 0 <= c < s.g.Secs() ==> SectionSum(s.g, s.sit, c))
      && s.sit.written == SumValid(s.sit.entries, 0, s.g.segs)
      && s.sit.discardBlks == SumClear(s.sit.entries, s.g.segs)
      && s.sit.dirtyCnt == |s.sit.dirty|
  {
    RunInv(trace, ops, i);
    var s := trace[i];
    forall x | 0 <= x < s.g.segs
      ensures var e := s.sit.entries[x]; e.valid == |e.cur| && e.ckptValid == |e.cur + e.ckpt|
    {
      assert EntryOk(s.sit.entries[x]);
    }
  }
}
