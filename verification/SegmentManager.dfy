/** The segment manager as the object that the kernel updates in place: its
    search loops, and each operation tied to the function that specifies it. */
module SegmentManager {
  import opened Common
  import opened SegmentModel
  import opened SegmentSafety
  import opened SegmentLaws

  // ------------------------------------------------------- bitmap searches

  /** find_next_bit over the one bits `bits` of a map of `max` bits */
  method FindNext(bits: set<nat>, max: nat, from: nat) returns (r: nat)
    ensures from < max ==> from <= r <= max
    ensures from >= max ==> r == max
    ensures r < max ==> r in bits
    ensures forall k :: from <= k < r ==> k !in bits
  {
    if from >= max {
      return max;
    }
    r := from;
    while r < max && r !in bits
      invariant from <= r <= max
      invariant forall k :: from <= k < r ==> k !in bits
    {
      r := r + 1;
    }
  }

  /** __find_rev_next_zero_bit over ckpt_valid_map | cur_valid_map */
  method FindRevNextZero(used: set<nat>, start: nat) returns (r: nat)
    ensures r == NextZero(used, start)
  {
    if start >= BLOCKS {
      return BLOCKS;
    }
    r := start;
    while r < BLOCKS && r in used
      invariant start <= r <= BLOCKS
      invariant NextZero(used, start) == NextZero(used, r)
    {
      r := r + 1;
    }
  }

  lemma ZoneHint(secs: nat, perZone: nat, zone: nat)
    requires perZone > 0
    ensures zone + 1 < secs / perZone ==> (zone + 1) * perZone <= secs
    ensures zone > 0 ==> zone * perZone >= 1
    ensures forall c: nat :: c / perZone == zone ==> zone * perZone <= c < (zone + 1) * perZone
  {
    var n := secs / perZone;
    assert n * perZone <= secs;
    if zone + 1 < n {
      MulStep(zone + 1, n, perZone);
    }
    if zone > 0 {
      MulStep(0, zone, perZone);
    }
    forall c: nat | c / perZone == zone ensures zone * perZone <= c < (zone + 1) * perZone {
      DivRange(c, zone, perZone);
    }
  }

  /** How far a section reaches behind one of its segments. */
  lemma SectionRest(g: Geometry, near: nat, y: nat)
    requires g.segsPerSec > 0 && near < y
    ensures g.SecOf(y) == g.SecOf(near) <==> y - near < g.segsPerSec - near % g.segsPerSec
  {
    var per, q := g.segsPerSec, near / g.segsPerSec;
    assert near == q * per + near % per;
    DivRange(y, q, per);
  }

  lemma NothingFollows(g: Geometry, segs: set<nat>, near: nat, x: nat)
    requires g.segsPerSec > 0
    ensures (near + 1) % g.segsPerSec == 0 ==> forall y: nat :: near < y ==> g.SecOf(y) != g.SecOf(near)
    ensures near < x && x - near >= g.segsPerSec - near % g.segsPerSec ==>
      forall y: nat :: near < y && g.SecOf(y) == g.SecOf(near) ==> y < x
  {
    forall y: nat | near < y
      ensures g.SecOf(y) == g.SecOf(near) <==> y - near < g.segsPerSec - near % g.segsPerSec
    {
      SectionRest(g, near, y);
    }
    if (near + 1) % g.segsPerSec == 0 {
      LastOfSection(near, g.segsPerSec);
    }
  }

  lemma LastOfSection(a: nat, per: nat)
    requires per > 0 && (a + 1) % per == 0
    ensures a % per == per - 1
  {
    var q := (a + 1) / per;
    assert a + 1 == q * per;
    assert q > 0;
    assert a == (q - 1) * per + (per - 1);
    DivRange(a, q - 1, per);
    assert a == a / per * per + a % per;
  }

  class Manager {
    const g: Geometry
    const maxVictimSearch: nat
    const reservedSecs: nat        // reserved_sections
    const noheap: bool             // mount option
    var sit: Sit
    var free: FreeMap
    var lists: DirtyList
    var logs: seq<Log>
    var lastVictim: nat            // last_victim[GC_GREEDY]
    var curVictimSec: Option<nat>  // cur_victim_sec

    ghost function St(): (s: State)
      reads this
    {
      State(g, sit, free, lists, logs)
    }

    ghost predicate Valid()
      reads this
    {
      Inv(St())
    }

    // ---------------------------------------------------------- SIT updates

    method MarkSitEntryDirty(x: nat) returns (was: bool)
      modifies `sit
      ensures sit == MarkDirty(old(sit), x)
      ensures was <==> x in old(sit).dirty
    {
      was := x in sit.dirty;
      if !was {
        sit := sit.(dirty := sit.dirty + {x});
        sit := sit.(dirtyCnt := sit.dirtyCnt + 1);
      }
    }

    method UpdateSitEntry(b: Blk, alloc: bool)
      requires SitShape(g, sit) && InMain(g, b)
      modifies `sit
      ensures sit == UpdateSit(g, old(sit), b, alloc)
    {
      SecInRange(g, b.seg);
      var del := if alloc then 1 else -1;
      var se := sit.entries[b.seg];
      se := se.(valid := se.valid + del);
      if alloc {
        se := se.(cur := se.cur + {b.off});
        if b.off !in se.discard {
          se := se.(discard := se.discard + {b.off});
          sit := sit.(discardBlks := sit.discardBlks - 1);
        }
      } else {
        se := se.(cur := se.cur - {b.off});
        if b.off in se.discard {
          se := se.(discard := se.discard - {b.off});
          sit := sit.(discardBlks := sit.discardBlks + 1);
        }
      }
      if b.off !in se.ckpt {
        se := se.(ckptValid := se.ckptValid + del);
      }
      ghost var before := sit.entries[b.seg];
      assert before.discard + {b.off} == if b.off in before.discard then before.discard else before.discard + {b.off};
      assert b.off !in before.discard ==> before.discard - {b.off} == before.discard;
      sit := sit.(entries := sit.entries[b.seg := se]);
      var _ := MarkSitEntryDirty(b.seg);
      sit := sit.(written := sit.written + del);
      if g.segsPerSec > 1 {
        var sec := g.SecOf(b.seg);
        sit := sit.(secValid := sit.secValid[sec := sit.secValid[sec] + del]);
      }
    }

    // ---------------------------------------------------------- dirty lists

    /** IS_CURSEG, scanning log by log and type by type */
    method IsCursegScan(x: nat) returns (r: bool)
      requires |logs| == TYPES * g.mlogs
      ensures r <==> IsCurseg(logs, x)
    {
      for i := 0 to g.mlogs
        invariant forall k :: 0 <= k < TYPES * i ==> logs[k].segno != x
      {
        for j := 0 to TYPES
          invariant forall k :: 0 <= k < TYPES * i + j ==> logs[k].segno != x
        {
          if logs[j + i * TYPES].segno == x {
            return true;
          }
        }
      }
      return false;
    }

    /** sec_usage_check: IS_CURSEC or the section being cleaned */
    method SecUsageCheck(sec: nat) returns (r: bool)
      requires g.segsPerSec > 0 && |logs| == TYPES * g.mlogs
      ensures r <==> IsCursec(g, logs, sec) || curVictimSec == Some(sec)
    {
      for i := 0 to g.mlogs
        invariant forall k :: 0 <= k < TYPES * i ==> g.SecOf(logs[k].segno) != sec
      {
        for j := 0 to TYPES
          invariant forall k :: 0 <= k < TYPES * i + j ==> g.SecOf(logs[k].segno) != sec
        {
          if g.SecOf(logs[j + i * TYPES].segno) == sec {
            return true;
          }
        }
      }
      return curVictimSec == Some(sec);
    }

    method TestAndSet(x: nat, t: nat)
      requires |lists.maps| == MAPS == |lists.nr| && t < MAPS
      modifies `lists
      ensures lists == AddToMap(old(lists), x, t)
    {
      if x !in lists.maps[t] {
        lists := lists.(maps := lists.maps[t := lists.maps[t] + {x}]);
        lists := lists.(nr := lists.nr[t := lists.nr[t] + 1]);
      }
    }

    method TestAndClear(x: nat, t: nat)
      requires |lists.maps| == MAPS == |lists.nr| && t < MAPS
      modifies `lists
      ensures lists == DropFromMap(old(lists), x, t)
    {
      if x in lists.maps[t] {
        lists := lists.(maps := lists.maps[t := lists.maps[t] - {x}]);
        lists := lists.(nr := lists.nr[t := lists.nr[t] - 1]);
      }
    }

    /** __locate_dirty_segment for PRE or DIRTY */
    method LocateDirtyType(x: nat, t: nat)
      requires SitShape(g, sit) && ListShape(g, lists) && LogShape(g, logs) && x < g.segs && (t == DIRTY || t == PRE)
      modifies `lists
      ensures lists ==
        if IsCurseg(logs, x) then old(lists)
        else if t == DIRTY then AddDirty(old(lists), x, sit.entries[x].typ) else AddToMap(old(lists), x, PRE)
    {
      var open := IsCursegScan(x);
      if open {
        return;
      }
      TestAndSet(x, t);
      if t == DIRTY {
        TestAndSet(x, sit.entries[x].typ);
      }
    }

    /** __remove_dirty_segment for PRE or DIRTY */
    method RemoveDirtyType(x: nat, t: nat)
      requires SitShape(g, sit) && |lists.maps| == MAPS == |lists.nr| && x < g.segs && (t == DIRTY || t == PRE)
      modifies `lists
      ensures lists == if t == DIRTY then DropDirty(g, old(lists), sit, x) else DropFromMap(old(lists), x, PRE)
    {
      TestAndClear(x, t);
      if t == DIRTY {
        TestAndClear(x, sit.entries[x].typ);
        if SectionValid(g, sit, x) == 0 {
          lists := lists.(victims := lists.victims - {g.SecOf(x)});
        }
      }
    }

    method LocateDirtySegment(x: nat)
      requires SitShape(g, sit) && ListShape(g, lists) && LogShape(g, logs) && x < g.segs
      modifies `lists
      ensures lists == Locate(g, old(lists), sit, logs, x)
    {
      var open := IsCursegScan(x);
      if open {
        return;
      }
      var valid := sit.entries[x].valid;
      if valid == 0 {
        LocateDirtyType(x, PRE);
        RemoveDirtyType(x, DIRTY);
      } else if valid < BLOCKS {
        LocateDirtyType(x, DIRTY);
      } else {
        RemoveDirtyType(x, DIRTY);
      }
    }

    method RefreshSitEntry(prev: Option<Blk>, b: Blk)
      requires Shape(St()) && InMain(g, b) && (prev.Some? ==> InMain(g, prev.value))
      modifies `sit, `lists
      ensures St() == RefreshSit(old(St()), prev, b)
      ensures prev != Some(b) ==>
        forall d :: InMain(g, d) ==> (Live(St(), d) <==> d == b || (Live(old(St()), d) && prev != Some(d)))
    {
      UpdateSitEntry(b, true);
      if prev.Some? {
        UpdateSitEntry(prev.value, false);
        LocateDirtySegment(prev.value.seg);
      }
      LocateDirtySegment(b.seg);
      if prev != Some(b) {
        forall d | InMain(g, d) ensures Live(St(), d) <==> d == b || (Live(old(St()), d) && prev != Some(d)) {
          RefreshLive(old(St()), prev, b, d.seg, d.off);
        }
      }
    }

    method InvalidateBlocks(b: Blk)
      requires Valid() && InMain(g, b) && b.off in sit.entries[b.seg].cur
      modifies `sit, `lists
      ensures Valid() && St() == Invalidate(old(St()), b)
      ensures forall d :: InMain(g, d) ==> (Live(St(), d) <==> Live(old(St()), d) && d != b)
    {
      InvalidateInv(St(), b);
      InvalidateBody(b);
      forall d | InMain(g, d) ensures Live(St(), d) <==> Live(old(St()), d) && d != b {
        InvalLive(old(St()), b, d);
      }
    }

    method InvalidateBody(b: Blk)
      requires Shape(St()) && InMain(g, b)
      modifies `sit, `lists
      ensures St() == Invalidate(old(St()), b)
    {
      UpdateSitEntry(b, false);
      LocateDirtySegment(b.seg);
    }

    // ------------------------------------------------------------ free maps

    method TakeSegment(x: nat)
      requires g.segsPerSec > 0 && x in free.segs
      modifies `free
      ensures free == SetInuse(g, old(free), x)
    {
      var sec := g.SecOf(x);
      free := free.(segs := free.segs - {x}, nsegs := free.nsegs - 1);
      if sec in free.secs {
        free := free.(secs := free.secs - {sec}, nsecs := free.nsecs - 1);
      } else {
        assert free.secs - {sec} == free.secs;
      }
    }

    /** __set_test_and_free, whose inner search looks for a segment in use */
    method SetTestAndFree(x: nat)
      requires g.Valid() && x < g.segs
      modifies `free
      ensures free == SetFree(g, old(free), x)
    {
      if x in free.segs {
        return;
      }
      var sec := g.SecOf(x);
      var start := sec * g.segsPerSec;
      SecInRange(g, x);
      SecBounds(g, sec);
      free := free.(segs := free.segs + {x}, nsegs := free.nsegs + 1);
      var next := start;
      while next < start + g.segsPerSec && next in free.segs
        invariant start <= next <= start + g.segsPerSec
        invariant forall k :: start <= k < next ==> k in free.segs
      {
        next := next + 1;
      }
      if next >= start + g.segsPerSec {
        assert SectionFree(g, free.segs, sec);
        if sec !in free.secs {
          free := free.(secs := free.secs + {sec}, nsecs := free.nsecs + 1);
        } else {
          assert free.secs + {sec} == free.secs;
        }
      } else {
        assert g.SecOf(next) == sec && next !in free.segs;
      }
    }

    /** The zone test of get_new_segment as written: its `break` leaves only the
        inner loop, so the last mlog alone decides. */
    method ZoneBusy(zone: nat) returns (busy: bool)
      requires g.Valid() && |logs| == TYPES * g.mlogs
      ensures busy <==> exists k :: TYPES * (g.mlogs - 1) <= k < |logs| && g.ZoneOf(logs[k].segno) == zone
    {
      var i := 0;
      for j := 0 to g.mlogs
        invariant 0 <= i <= TYPES
        invariant j > 0 && i < TYPES ==> g.ZoneOf(logs[i + (j - 1) * TYPES].segno) == zone
        invariant j > 0 && i == TYPES ==>
          forall k :: TYPES * (j - 1) <= k < TYPES * j ==> g.ZoneOf(logs[k].segno) != zone
      {
        i := 0;
        while i < TYPES && g.ZoneOf(logs[i + j * TYPES].segno) != zone
          invariant 0 <= i <= TYPES
          invariant forall k :: TYPES * j <= k < TYPES * j + i ==> g.ZoneOf(logs[k].segno) != zone
        {
          i := i + 1;
        }
      }
      busy := i < TYPES;
    }

    /** The leftward scan of get_new_segment: down to section 0, then the first
        free section from the start. */
    method ScanLeft(from: nat) returns (r: Option<nat>)
      requires FreeInv(g, free) && from < g.Secs()
      ensures r.Some? ==> r.value in free.secs
      ensures r.None? ==> free.secs == {}
      ensures from in free.secs ==> r == Some(from)
      ensures r.Some? && (exists c :: c in free.secs && c <= from) ==>
        r.value <= from && forall c :: c in free.secs && c <= from ==> c <= r.value
    {
      var left: nat := from;
      while left !in free.secs
        invariant left <= from
        invariant from in free.secs ==> left == from
        invariant forall c :: c in free.secs && c <= from ==> c <= left
        decreases left
      {
        if left == 0 {
          left := FindNext(free.secs, g.Secs(), 0);
          return if left >= g.Secs() then None else Some(left);
        }
        left := left - 1;
      }
      return Some(left);
    }

    /** The first free section from the hint on; if there is none, the first of all, or going left the last before the hint. */
    ghost predicate Nearest(secs: set<nat>, hint: nat, right: bool, c: nat) {
      if exists d :: d in secs && d >= hint then c >= hint && forall d :: d in secs && d >= hint ==> c <= d
      else if right then forall d :: d in secs ==> c <= d
      else forall d :: d in secs ==> d <= c
    }

    /** One pass of get_new_segment over the section map.  `left` is the sticky
        leftward position, `None` until the search turns left. */
    method FindSection(hint: nat, right: bool, left: Option<nat>) returns (r: Option<nat>, left': Option<nat>)
      requires FreeInv(g, free) && hint <= g.Secs()
      requires right ==> left.None?
      requires left.Some? ==> left.value in free.secs && exists c :: c in free.secs && c >= hint
      ensures r.Some? ==> r.value in free.secs
      ensures r.None? ==> free.secs == {}
      ensures right ==> left'.None?
      ensures left'.Some? && r.Some? ==> left' == r
      ensures left.None? && r.Some? ==> Nearest(free.secs, hint, right, r.value)
    {
      left' := left;
      var secno := FindNext(free.secs, g.Secs(), hint);
      if secno >= g.Secs() {
        assert forall c :: c in free.secs ==> c < hint;
        if right {
          secno := FindNext(free.secs, g.Secs(), 0);
          return if secno >= g.Secs() then None else Some(secno), None;
        }
        if hint == 0 {
          assert free.secs == {};
          return None, left';
        }
        r := ScanLeft(hint - 1);
        left' := r;
      } else if left'.Some? {
        r := ScanLeft(left'.value);
        left' := r;
      } else {
        r := Some(secno);
      }
    }

    /** Where the second pass of get_new_segment starts when the zone of section
        `secno` is in use. */
    method NextHint(secno: nat, leftward: bool) returns (hint: nat)
      requires g.Valid() && secno < g.Secs() && (leftward ==> secno / g.secsPerZone > 0)
      ensures hint <= g.Secs()
      ensures leftward ==> hint <= secno
    {
      var zone := secno / g.secsPerZone;
      ZoneHint(g.Secs(), g.secsPerZone, zone);
      if leftward {
        hint := zone * g.secsPerZone - 1;
      } else if zone + 1 >= g.Secs() / g.secsPerZone {
        hint := 0;
      } else {
        hint := (zone + 1) * g.secsPerZone;
      }
    }

    /** The section search of get_new_segment: at most two passes. */
    method FindOtherZone(near: nat, right: bool) returns (sec: Option<nat>, ghost passes: nat)
      requires FreeInv(g, free) && LogShape(g, logs) && near < g.segs
      ensures sec.Some? ==> sec.value in free.secs
      ensures sec.None? ==> free.secs == {}
      ensures sec.Some? && g.secsPerZone == 1 ==> Nearest(free.secs, g.SecOf(near), right, sec.value)
      ensures passes <= 2
    {
      SecInRange(g, near);
      passes := 0;
      var hint: nat := g.SecOf(near);
      var left: Option<nat> := None;
      var init := true;
      while true
        invariant passes == (if init then 0 else 1) && (init ==> hint == g.SecOf(near) && left.None?)
        invariant g.secsPerZone == 1 ==> init
        invariant hint <= g.Secs()
        invariant right ==> left.None?
        invariant left.Some? ==> left.value in free.secs && exists c :: c in free.secs && c >= hint
        decreases init
      {
        var again;
        sec, left, again, hint := ZonePass(near, right, hint, left, init);
        passes := passes + 1;
        if !again {
          return;
        }
        init := false;
      }
    }

    /** One pass, and whether another zone is to be tried after it. */
    method ZonePass(near: nat, right: bool, hint: nat, left: Option<nat>, init: bool)
      returns (sec: Option<nat>, left': Option<nat>, again: bool, hint': nat)
      requires FreeInv(g, free) && LogShape(g, logs) && near < g.segs && hint <= g.Secs()
      requires right ==> left.None?
      requires left.Some? ==> left.value in free.secs && exists c :: c in free.secs && c >= hint
      ensures sec.Some? ==> sec.value in free.secs
      ensures sec.None? ==> free.secs == {} && !again
      ensures left.None? && sec.Some? ==> Nearest(free.secs, hint, right, sec.value)
      ensures (right ==> left'.None?) && hint' <= g.Secs()
      ensures again ==> init && g.secsPerZone != 1
      ensures again && left'.Some? ==> left'.value in free.secs && exists c :: c in free.secs && c >= hint'
    {
      sec, left' := FindSection(hint, right, left);
      again, hint' := false, hint;
      if sec.None? {
        return;
      }
      var zone := sec.value / g.secsPerZone;
      if !init || g.secsPerZone == 1 || zone == g.ZoneOf(near) {
        return;
      }
      if !right && ((left'.None? && zone + 1 >= g.Secs() / g.secsPerZone) || (left'.Some? && zone == 0)) {
        return;
      }
      var busy := ZoneBusy(zone);
      if !busy {
        return;
      }
      hint' := NextHint(sec.value, left'.Some?);
      again := true;
    }

    /** The next free segment of the section `near` is in. */
    ghost predicate Follows(f: FreeMap, near: nat, newSec: bool, x: nat)
      requires g.segsPerSec > 0
    {
      && !newSec && near < x && g.SecOf(x) == g.SecOf(near)
      && forall y: nat :: near < y < x ==> y !in f.segs
    }

    /** The first segment of a free section, when the one `near` is in has no free segment further on or a new section is asked for. */
    ghost predicate Opens(f: FreeMap, near: nat, newSec: bool, right: bool, x: nat)
      requires g.segsPerSec > 0
    {
      && g.SecOf(x) in f.secs && x == g.SecOf(x) * g.segsPerSec
      && (newSec || forall y: nat :: near < y < g.segs && g.SecOf(y) == g.SecOf(near) ==> y !in f.segs)
      && (g.secsPerZone == 1 ==> Nearest(f.secs, g.SecOf(near), right, g.SecOf(x)))
    }

    /** get_new_segment: whenever a free section exists the search ends within
        two passes over the zones and takes a segment that was free. */
    method GetNewSegment(near: nat, newSec: bool, right: bool) returns (r: Option<nat>, ghost passes: nat)
      requires FreeInv(g, free) && LogShape(g, logs) && near < g.segs
      modifies `free
      ensures r.Some? ==> r.value in old(free).segs && free == SetInuse(g, old(free), r.value)
      ensures r.None? ==> free == old(free) && free.secs == {}
      ensures r.Some? ==> Follows(old(free), near, newSec, r.value) || Opens(old(free), near, newSec, right, r.value)
      ensures passes <= 2
    {
      passes := 0;
      var per := g.segsPerSec;
      NothingFollows(g, free.segs, near, g.segs);
      if !newSec && (near + 1) % per != 0 {
        var x := FindNext(free.segs, g.segs, near + 1);
        NothingFollows(g, free.segs, near, x);
        if x - near < per - near % per {
          SameSection(g, near, x);
          TakeSegment(x);
          return Some(x), passes;
        }
      }
      var sec;
      sec, passes := FindOtherZone(near, right);
      if sec.None? {
        return None, passes;
      }
      var segno := sec.value * per;
      SecBounds(g, sec.value);
      assert SectionFree(g, free.segs, sec.value);
      assert g.SecOf(segno) == sec.value;
      TakeSegment(segno);
      return Some(segno), passes;
    }

    // ------------------------------------------------------ victim selection

    /** Segment x may be reused by an SSR log: listed under `typ`, in no section
        that a log or the cleaner works in, and in no section picked for
        background cleaning. */
    ghost predicate Eligible(typ: nat, x: nat)
      requires g.Valid() && |lists.maps| == MAPS && typ < TYPES
      reads this
    {
      && x in lists.maps[typ]
      && !IsCursec(g, logs, g.SecOf(x))
      && curVictimSec != Some(g.SecOf(x))
      && g.SecOf(x) !in lists.victims
    }

    method CheckEligible(typ: nat, x: nat) returns (ok: bool)
      requires g.Valid() && |lists.maps| == MAPS && typ < TYPES && LogShape(g, logs) && x in lists.maps[typ]
      ensures ok <==> Eligible(typ, x)
    {
      var used := SecUsageCheck(g.SecOf(x));
      ok := !used && g.SecOf(x) !in lists.victims;
    }

    ghost predicate NoneBelow(typ: nat, n: nat, cost: int)
      requires g.Valid() && |lists.maps| == MAPS && typ < TYPES && |sit.entries| == g.segs
      reads this
    {
      forall x: nat :: x < n && x < g.segs && Eligible(typ, x) ==> sit.entries[x].ckptValid >= cost
    }

    /** get_victim_by_default with alloc_mode SSR and gc_type BG_GC: a victim is
        found exactly when some eligible segment has a block that is free in both
        maps; a search that starts at the front and is not cut short returns one
        with the fewest blocks live now or in the last checkpoint. */
    method GetVictim(typ: nat) returns (r: Option<nat>)
      requires SitShape(g, sit) && ListShape(g, lists) && LogShape(g, logs) && typ < TYPES
      requires lists.nr[typ] == |lists.maps[typ]|
      requires forall x :: 0 <= x < g.segs ==> sit.entries[x].ckptValid <= BLOCKS
      modifies `lastVictim
      ensures r.Some? ==> Eligible(typ, r.value) && r.value < g.segs && sit.entries[r.value].ckptValid < BLOCKS
      ensures r.None? ==> NoneBelow(typ, g.segs, BLOCKS)
      ensures r.Some? && old(lastVictim) == 0 && |lists.maps[typ]| <= maxVictimSearch ==>
        NoneBelow(typ, g.segs, sit.entries[r.value].ckptValid)
    {
      var m := lists.maps[typ];
      var maxSearch := if lists.nr[typ] > maxVictimSearch then maxVictimSearch else lists.nr[typ];
      var offset: nat := lastVictim;
      var minCost: int := BLOCKS;
      var nsearched := 0;
      r := None;
      while true
        invariant offset > g.segs ==> lastVictim != 0
        invariant r.None? ==> minCost == BLOCKS && nsearched == 0
        invariant r.Some? ==> Eligible(typ, r.value) && r.value < g.segs && minCost == sit.entries[r.value].ckptValid < BLOCKS
        invariant lastVictim == 0 ==> NoneBelow(typ, offset, minCost)
        invariant old(lastVictim) == 0 ==> lastVictim == 0 && nsearched <= |Below(m, offset)|
        decreases lastVictim, g.segs - offset
      {
        var segno := FindNext(m, g.segs, offset);
        if segno >= g.segs {
          if lastVictim != 0 {
            lastVictim := 0;
            offset := 0;
            continue;
          }
          return;
        }
        BelowGrows(m, offset, segno);
        offset := segno + 1;
        var ok := CheckEligible(typ, segno);
        if !ok {
          continue;
        }
        var cost := sit.entries[segno].ckptValid;
        if minCost > cost {
          r := Some(segno);
          minCost := cost;
        } else if cost == BLOCKS {
          continue;
        }
        if nsearched >= maxSearch {
          lastVictim := segno;
          return;
        }
        nsearched := nsearched + 1;
      }
    }

    // ------------------------------------------------------------------ logs

    /** reset_curseg_mlog, with the alloc_type its callers set afterwards */
    method ResetCurseg(l: nat, x: nat, ssr: bool)
      requires Shape(St()) && l < |logs| && x < g.segs
      modifies `sit, `logs
      ensures sit == SetType(g, old(sit), x, l % TYPES)
      ensures logs == old(logs)[l := Log(x, 0, ssr)]
    {
      logs := logs[l := Log(x, 0, ssr)];
      sit := sit.(entries := sit.entries[x := sit.entries[x].(typ := l % TYPES)]);
      var _ := MarkSitEntryDirty(x);
    }

    method NewLogSegment(l: nat, newSec: bool) returns (r: Option<nat>)
      requires Shape(St()) && FreeInv(g, free) && l < |logs|
      modifies `free, `sit, `logs
      ensures r.Some? ==> r.value in old(free).segs && r.value < g.segs && St() == NewCurseg(old(St()), l, r.value)
      ensures r.None? ==> St() == old(St()) && free.secs == {}
    {
      var typ := l % TYPES;
      var right := typ == WARM_DATA || typ == COLD_DATA || noheap;
      ghost var passes;
      r, passes := GetNewSegment(logs[l].segno, newSec, right);
      if r.Some? {
        ResetCurseg(l, r.value, false);
      }
    }

    method ChangeLogSegment(l: nat, x: nat)
      requires Shape(St()) && l < |logs| && x < g.segs && x !in free.segs
      modifies `lists, `sit, `logs
      ensures St() == ChangeCurseg(old(St()), l, x)
    {
      RemoveDirtyType(x, PRE);
      RemoveDirtyType(x, DIRTY);
      ResetCurseg(l, x, true);
      var e := sit.entries[x];
      var next := FindRevNextZero(e.cur + e.ckpt, 0);
      logs := logs[l := logs[l].(next := next)];
    }

    /** A dirty segment of the log's own type, or for data, when free sections are short, of a hotter one. */
    ghost predicate OfType(d: DirtyList, typ: nat, notEnough: bool, x: nat)
      requires |d.maps| == MAPS && typ < TYPES
    {
      x in d.maps[typ] || (notEnough && typ < HOT_NODE && exists t :: 0 <= t < typ && x in d.maps[t])
    }

    /** need_SSR, for a log that may change its mode and has no free segment next to it */
    ghost predicate PrefersSsr(s: State, l: nat, pinned: nat)
      requires l < |s.logs| && s.g.segsPerSec > 0
    {
      var after := s.logs[l].segno + 1;
      && l % TYPES != WARM_NODE
      && !(!s.logs[l].ssr && after < s.g.segs && after % s.g.segsPerSec != 0 && after in s.free.segs)
      && s.free.nsecs <= pinned + reservedSecs + 1
    }

    method GetSsrSegment(typ: nat, notEnough: bool) returns (r: Option<nat>)
      requires InvExcept(St(), {}) && typ < TYPES
      modifies `lastVictim
      ensures r.Some? ==> ChoiceOk(St(), UseDirty(r.value)) && OfType(lists, typ, notEnough, r.value)
      ensures r.None? ==> NoneBelow(typ, g.segs, BLOCKS)
    {
      CostBounded(St());
      if typ >= HOT_NODE || !notEnough {
        r := GetVictim(typ);
        return;
      }
      var t: int := typ;
      r := None;
      while t >= 0
        invariant -1 <= t <= typ && r.None? && (t < typ ==> NoneBelow(typ, g.segs, BLOCKS))
      {
        r := GetVictim(t);
        if r.Some? {
          return;
        }
        t := t - 1;
      }
    }

    /** allocate_segment_by_default; `pinned` stands for node_secs + 2 * dent_secs */
    method AllocateSegment(l: nat, force: bool, pinned: nat) returns (c: Option<Choice>)
      requires InvExcept(St(), {}) && l < |logs|
      modifies `free, `lists, `sit, `logs, `lastVictim
      ensures c.Some? ==> ChoiceOk(old(St()), c.value) && St() == Switch(old(St()), l, c.value)
      ensures c.Some? && force ==> c.value.UseFree?
      ensures c.Some? && c.value.UseDirty? ==>
        && PrefersSsr(old(St()), l, pinned)
        && OfType(old(lists), l % TYPES, old(free).nsecs <= pinned + reservedSecs, c.value.x)
      ensures c.Some? && c.value.UseFree? && !force && PrefersSsr(old(St()), l, pinned) ==>
        old(NoneBelow(l % TYPES, g.segs, BLOCKS))
      ensures c.None? ==> old(free).secs == {}
    {
      var v: Option<nat> := None;
      if !force {
        v := PickDirty(l, pinned);
      }
      if v.Some? {
        assert Classified(St(), v.value);
        ChangeLogSegment(l, v.value);
        return Some(UseDirty(v.value));
      }
      var x := NewLogSegment(l, force);
      return if x.Some? then Some(UseFree(x.value)) else None;
    }

    /** The dirty segment the log is to go on with, if it is to use one. */
    method PickDirty(l: nat, pinned: nat) returns (v: Option<nat>)
      requires InvExcept(St(), {}) && l < |logs|
      modifies `lastVictim
      ensures v.Some? ==>
        && PrefersSsr(St(), l, pinned) && ChoiceOk(St(), UseDirty(v.value))
        && OfType(lists, l % TYPES, free.nsecs <= pinned + reservedSecs, v.value)
      ensures v.None? && PrefersSsr(St(), l, pinned) ==> NoneBelow(l % TYPES, g.segs, BLOCKS)
    {
      var want := WantsSsr(l, pinned);
      v := None;
      if want {
        v := GetSsrSegment(l % TYPES, free.nsecs <= pinned + reservedSecs);
      }
    }

    method WantsSsr(l: nat, pinned: nat) returns (want: bool)
      requires l < |logs| && g.segsPerSec > 0
      ensures want <==> PrefersSsr(St(), l, pinned)
    {
      var after := logs[l].segno + 1;
      var nextFree := after < g.segs && after % g.segsPerSec != 0 && after in free.segs;
      if l % TYPES == WARM_NODE {
        return false;
      }
      if !logs[l].ssr && nextFree {
        return false;
      }
      return free.nsecs <= pinned + reservedSecs + 1;
    }

    /** __refresh_next_blkoff */
    method RefreshNextBlkoff(l: nat)
      requires Shape(St()) && l < |logs|
      modifies `logs
      ensures St() == Advance(old(St()), l)
    {
      var c := logs[l];
      if c.ssr {
        var e := sit.entries[c.segno];
        var next := FindRevNextZero(e.cur + e.ckpt, c.next + 1);
        logs := logs[l := c.(next := next)];
      } else {
        logs := logs[l := c.(next := c.next + 1)];
      }
    }

    /** __allocate_new_segments */
    method AllocateNewSegments(l: nat) returns (ok: bool, ghost x: nat)
      requires Valid() && l < |logs|
      modifies `free, `lists, `sit, `logs, `lastVictim
      ensures ok ==> Valid() && x in old(free).segs && x < g.segs && St() == ForceNew(old(St()), l, x)
      ensures !ok ==> old(free).secs == {}
    {
      var was := logs[l].segno;
      var c := AllocateSegment(l, true, 0);
      ok, x := c.Some?, 0;
      if ok {
        x := c.value.x;
        LocateDirtySegment(was);
        ForceNewInv(old(St()), l, x);
      }
    }

    /** The part of allocate_data_block after the forced switch. */
    method AllocateFromLog(l: nat, prev: Option<Blk>, pinned: nat) returns (r: Option<Blk>, ghost c: Choice)
      requires Valid() && l < |logs| && PrevOk(St(), prev)
      modifies `free, `lists, `sit, `logs, `lastVictim
      ensures c.x < g.segs
      ensures r.Some? ==>
        && Valid() && r.value == Head(old(St()), l)
        && (Advance(old(St()), l).logs[l].next >= BLOCKS ==> ChoiceOk(old(St()), c))
        && St() == Allocate(old(St()), l, prev, c)
      ensures r.None? ==> old(free).secs == {} && Advance(old(St()), l).logs[l].next >= BLOCKS
    {
      var b := Blk(logs[l].segno, logs[l].next);
      ghost var s := St();
      AdvanceInv(s, l);
      RefreshNextBlkoff(l);
      c := UseFree(b.seg);
      if logs[l].next >= BLOCKS {
        var c' := AllocateSegment(l, false, pinned);
        if c'.None? {
          return None, c;
        }
        c := c'.value;
        SameCursec(s, Advance(s, l), c);
      }
      RefreshSitEntry(prev, b);
      AllocateInv(s, l, prev, c);
      return Some(b), c;
    }

    /** allocate_data_block for log l = type + mlog * 6.  With a free section it
        always succeeds; `None` stands for the BUG_ON of get_new_segment. */
    method AllocateDataBlock(l: nat, direct: bool, prev: Option<Blk>, pinned: nat) returns (r: Option<Blk>, ghost op: Op)
      requires Valid() && l < |logs| && PrevOk(St(), prev)
      modifies `free, `lists, `sit, `logs, `lastVictim
      ensures r.Some? ==>
        && Valid()
        && op.Alloc? && op.l == l && op.direct == direct && op.prev == prev
        && OpOk(old(St()), op) && r.value == Handed(old(St()), op) && St() == Do(old(St()), op)
      ensures r.Some? ==>
        forall b :: InMain(g, b) ==> (Live(St(), b) <==> b == r.value || (Live(old(St()), b) && prev != Some(b)))
      ensures r.None? ==> old(free).secs == {}
    {
      r, op := AllocateBlock(l, direct, prev, pinned);
      if r.Some? {
        forall b | InMain(g, b) ensures Live(St(), b) <==> b == r.value || (Live(old(St()), b) && prev != Some(b)) {
          OpLive(old(St()), op, b);
        }
      }
    }

    method AllocateBlock(l: nat, direct: bool, prev: Option<Blk>, pinned: nat) returns (r: Option<Blk>, ghost op: Op)
      requires Valid() && l < |logs| && PrevOk(St(), prev)
      modifies `free, `lists, `sit, `logs, `lastVictim
      ensures r.Some? ==>
        && Valid()
        && op.Alloc? && op.l == l && op.direct == direct && op.prev == prev
        && OpOk(old(St()), op) && r.value == Handed(old(St()), op) && St() == Do(old(St()), op)
      ensures r.None? ==> old(free).secs == {}
    {
      ghost var x: nat := 0;
      ghost var s := St();
      op := Ckpt;
      if direct && logs[l].next != 0 {
        var ok;
        ok, x := AllocateNewSegments(l);
        if !ok {
          return None, op;
        }
        ForceNewHead(s, l, x);
      }
      ghost var s1, c := St(), UseFree(0);
      r, c := AllocateFromLog(l, prev, pinned);
      op := Alloc(l, direct, x, prev, c);
      if r.Some? {
        DirectAlloc(s, s1, op);
      }
    }

    // ------------------------------------------------------------ checkpoint

    /** set_prefree_as_free_segments */
    method SetPrefreeAsFree()
      requires FreeInv(g, free) && ListShape(g, lists)
      modifies `free
      ensures free == FreeAll(g, old(free), lists.maps[PRE])
    {
      var m := lists.maps[PRE];
      var x := FindNext(m, g.segs, 0);
      assert Below(m, x) == {};
      while x < g.segs
        invariant x <= g.segs && FreeInv(g, free)
        invariant x < g.segs ==> x in m
        invariant free.segs == old(free).segs + Below(m, x)
      {
        x := FreeNext(m, x, old(free).segs);
      }
      assert Below(m, x) == m;
      FreeAllInv(g, old(free), m);
      FreeUnique(g, free, FreeAll(g, old(free), m));
    }

    method FreeNext(m: set<nat>, x: nat, ghost segs: set<nat>) returns (next: nat)
      requires FreeInv(g, free) && x < g.segs && x in m && free.segs == segs + Below(m, x)
      modifies `free
      ensures FreeInv(g, free) && x < next <= g.segs && (next < g.segs ==> next in m)
      ensures free.segs == segs + Below(m, next)
    {
      SetFreeInv(g, free, x);
      SetTestAndFree(x);
      next := FindNext(m, g.segs, x + 1);
      BelowNext(m, x, next);
    }

    /** One round of the inner loop of flush_sit_entries (seg_info_to_raw_sit). */
    method FlushOne(x: nat)
      requires x < |sit.entries| && x in sit.dirty
      modifies `sit
      ensures sit == old(sit).(
        entries := old(sit).entries[x := FlushEntry(old(sit).entries[x])],
        dirty := old(sit).dirty - {x}, dirtyCnt := old(sit).dirtyCnt - 1)
    {
      var se := sit.entries[x];
      se := se.(ckpt := se.cur);
      se := se.(ckptValid := se.valid);
      sit := sit.(entries := sit.entries[x := se]);
      sit := sit.(dirty := sit.dirty - {x}, dirtyCnt := sit.dirtyCnt - 1);
    }

    /** flush_sit_entries as far as the in-memory entries go: every dirty entry is
        written out and its current map becomes the checkpointed one. */
    method FlushSitEntries()
      requires SitShape(g, sit)
      modifies `sit
      ensures sit == FlushSit(old(sit))
    {
      ghost var was := sit;
      var x := FindNext(sit.dirty, g.segs, 0);
      assert Below(was.dirty, x) == {};
      while x < g.segs
        invariant x <= g.segs && (x < g.segs ==> x in was.dirty)
        invariant FlushedBelow(was, sit, g.segs, x)
      {
        x := FlushNext(x, was);
      }
      assert Below(was.dirty, x) == was.dirty;
      assert sit.entries == FlushSit(was).entries;
    }

    method FlushNext(x: nat, ghost was: Sit) returns (next: nat)
      requires SitShape(g, was) && x < g.segs && x in was.dirty && FlushedBelow(was, sit, g.segs, x)
      modifies `sit
      ensures x < next <= g.segs && (next < g.segs ==> next in was.dirty)
      ensures FlushedBelow(was, sit, g.segs, next)
    {
      FlushOne(x);
      next := FindNext(sit.dirty, g.segs, x + 1);
      assert forall k :: x < k < next && k in was.dirty ==> k in sit.dirty;
      BelowNext(was.dirty, x, next);
    }

    /** clear_prefree_segments: the prefree list is emptied run by run */
    method ClearPrefree()
      requires ListShape(g, lists)
      modifies `lists
      ensures lists == EmptyPrefree(old(lists))
    {
      ghost var was := lists;
      var start: nat := FindNext(lists.maps[PRE], g.segs, 0);
      assert Below(was.maps[PRE], start) == {};
      while start < g.segs
        invariant start <= g.segs && (start < g.segs ==> start in was.maps[PRE])
        invariant PreClearedTo(was, lists, start, start)
      {
        var end := ClearRun(start, was);
        start := NextRun(start, end, was);
      }
      assert Below(was.maps[PRE], start) == was.maps[PRE];
      assert lists.maps[PRE] == {};
    }

    /** The bits of one run of prefree segments. */
    method ClearRun(start: nat, ghost was: DirtyList) returns (end: nat)
      requires PreClearedTo(was, lists, start, start) && start < g.segs && start in was.maps[PRE]
      modifies `lists
      ensures start < end <= g.segs && PreClearedTo(was, lists, end, start)
      ensures |Below(was.maps[PRE], end)| == |Below(was.maps[PRE], start)| + end - start
    {
      end := start;
      while end < g.segs && end in lists.maps[PRE]
        invariant start <= end <= g.segs && PreClearedTo(was, lists, end, start)
        invariant end == start ==> end in lists.maps[PRE]
        invariant |Below(was.maps[PRE], end)| == |Below(was.maps[PRE], start)| + end - start
      {
        BelowNext(was.maps[PRE], end, end + 1);
        lists := lists.(maps := lists.maps[PRE := lists.maps[PRE] - {end}]);
        end := end + 1;
      }
    }

    /** The counter follows, and the next run is found. */
    method NextRun(start: nat, end: nat, ghost was: DirtyList) returns (next: nat)
      requires start < end <= g.segs && PreClearedTo(was, lists, end, start)
      requires |Below(was.maps[PRE], end)| == |Below(was.maps[PRE], start)| + end - start
      modifies `lists
      ensures end <= next <= g.segs && (next < g.segs ==> next in was.maps[PRE])
      ensures PreClearedTo(was, lists, next, next)
    {
      lists := lists.(nr := lists.nr[PRE := lists.nr[PRE] - (end - start)]);
      next := FindNext(lists.maps[PRE], g.segs, end);
      assert forall k :: end <= k < next && k in was.maps[PRE] ==> k in lists.maps[PRE];
      assert Below(was.maps[PRE], next) == Below(was.maps[PRE], end);
    }
  }

  lemma DirectAlloc(s: State, s1: State, op: Op)
    requires Shape(s) && op.Alloc? && op.l < |s.logs| && op.c.x < s.g.segs && PrevOk(s, op.prev)
    requires op.direct && s.logs[op.l].next != 0 ==> op.seg in s.free.segs && op.seg < s.g.segs
    requires s1 == Prepared(s, op) && s1.logs[op.l].next < BLOCKS
    requires Advance(s1, op.l).logs[op.l].next >= BLOCKS ==> ChoiceOk(s1, op.c)
    ensures OpOk(s, op) && Handed(s, op) == Head(s1, op.l)
    ensures PrevOk(s1, op.prev) ==> Do(s, op) == Allocate(s1, op.l, op.prev, op.c)
  {
  }

  /** Prefree bits below `x` are cleared, and those below `n` are off the counter. */
  ghost predicate PreClearedTo(was: DirtyList, d: DirtyList, x: nat, n: nat) {
    && |was.maps| == MAPS == |was.nr| && |d.maps| == MAPS == |d.nr|
    && d == was.(maps := was.maps[PRE := d.maps[PRE]], nr := was.nr[PRE := d.nr[PRE]])
    && d.maps[PRE] == was.maps[PRE] - Below(was.maps[PRE], x)
    && d.nr[PRE] == was.nr[PRE] - |Below(was.maps[PRE], n)|
  }

  /** Dirty entries below `x` are flushed, the others untouched. */
  ghost predicate FlushedBelow(was: Sit, sit: Sit, segs: nat, x: nat) {
    && |sit.entries| == |was.entries| == segs
    && sit == was.(entries := sit.entries, dirty := sit.dirty, dirtyCnt := sit.dirtyCnt)
    && sit.dirty == was.dirty - Below(was.dirty, x) && sit.dirtyCnt == was.dirtyCnt - |Below(was.dirty, x)|
    && forall y :: 0 <= y < segs ==>
         sit.entries[y] == if y in was.dirty && y < x then FlushEntry(was.entries[y]) else was.entries[y]
  }

  /** The segment map determines the rest of the free map. */
  lemma FreeUnique(g: Geometry, a: FreeMap, b: FreeMap)
    requires FreeInv(g, a) && FreeInv(g, b) && a.segs == b.segs
    ensures a == b
  {
    forall c: nat ensures c in a.secs <==> c in b.secs {
    }
    assert a.secs == b.secs;
  }

  lemma SameCursec(s: State, s1: State, c: Choice)
    requires Shape(s) && Shape(s1) && ChoiceOk(s1, c)
    requires s1 == s.(logs := s1.logs) && |s1.logs| == |s.logs|
    requires forall m :: 0 <= m < |s.logs| ==> s1.logs[m].segno == s.logs[m].segno
    ensures ChoiceOk(s, c)
  {
  }

  /** Right after a forced switch the log is at the start of an LFS segment, so
      the next allocation cannot run out of space. */
  lemma ForceNewHead(s: State, l: nat, x: nat)
    requires Inv(s) && l < |s.logs| && x in s.free.segs && x < s.g.segs
    ensures ForceNew(s, l, x).logs[l] == Log(x, 0, false)
    ensures Advance(ForceNew(s, l, x), l).logs[l].next < BLOCKS
    ensures forall p :: PrevOk(s, p) ==> PrevOk(ForceNew(s, l, x), p)
  {
  }

  const WARM_DATA: nat := 1
  const COLD_DATA: nat := 2
  const HOT_NODE: nat := 3

  lemma CostBounded(s: State)
    requires InvExcept(s, {})
    ensures forall x :: 0 <= x < s.g.segs ==> s.sit.entries[x].ckptValid <= BLOCKS
  {
    forall x | 0 <= x < s.g.segs ensures s.sit.entries[x].ckptValid <= BLOCKS {
      assert EntryOk(s.sit.entries[x]);
      SizeBound(BLOCKS, s.sit.entries[x].cur + s.sit.entries[x].ckpt);
    }
  }

  lemma SameSection(g: Geometry, near: nat, x: nat)
    requires g.Valid() && near < g.segs && near < x && x - near < g.segsPerSec - near % g.segsPerSec
    ensures x < g.segs && g.SecOf(x) == g.SecOf(near)
  {
    SecInRange(g, near);
    SecBounds(g, g.SecOf(near));
    assert near == g.SecOf(near) * g.segsPerSec + near % g.segsPerSec;
  }
}
