/** The in-memory state of the segment manager (Max/segment.c, Max/segment.h)
    and the effect of its operations.

    A bitmap is the set of its one bits.  Everything here runs under
    `sentry_lock`, so each operation is one step.  Two decisions of the code are
    left open and passed in as arguments, because they depend on page-cache
    counters or on search hints: which free segment an LFS switch takes and
    which dirty segment an SSR switch takes (SegmentManager.dfy has the search
    loops that make them).
 */
module SegmentModel {
  import opened Common

  const BLOCKS: nat := 512       // blocks per segment
  const TYPES: nat := 6          // NR_CURSEG_TYPE
  const WARM_NODE: nat := 4      // CURSEG_WARM_NODE
  const DIRTY: nat := 6          // enum dirty_type: six typed maps, then these two
  const PRE: nat := 7
  const MAPS: nat := 8           // NR_DIRTY_TYPE

  datatype Geometry = Geometry(segs: nat, segsPerSec: nat, secsPerZone: nat, mlogs: nat) {
    predicate Valid() {
      && segsPerSec > 0 && secsPerZone > 0 && mlogs > 0
      && segs == Secs() * segsPerSec
    }

    function Secs(): (r: nat) requires segsPerSec > 0 { segs / segsPerSec }

    function SecOf(x: nat): (r: nat) requires segsPerSec > 0 { x / segsPerSec }

    function ZoneOf(x: nat): (r: nat) requires segsPerSec > 0 && secsPerZone > 0 {
      x / segsPerSec / secsPerZone
    }
  }

  datatype Blk = Blk(seg: nat, off: nat)

  /** struct seg_entry */
  datatype Entry = Entry(
    valid: int, cur: set<nat>,
    ckptValid: int, ckpt: set<nat>,
    discard: set<nat>,
    typ: nat)

  /** struct sit_info, with discard_blks of the superblock info */
  datatype Sit = Sit(
    entries: seq<Entry>,
    secValid: seq<int>,                // sec_entries, kept only when segsPerSec > 1
    dirty: set<nat>, dirtyCnt: int,    // dirty_sentries_bitmap, dirty_sentries
    written: int,                      // written_valid_blocks
    discardBlks: int)

  /** struct free_segmap_info; a member of `segs` or `secs` is free */
  datatype FreeMap = FreeMap(segs: set<nat>, secs: set<nat>, nsegs: int, nsecs: int)

  /** struct dirty_seglist_info */
  datatype DirtyList = DirtyList(maps: seq<set<nat>>, nr: seq<int>, victims: set<nat>)

  /** struct curseg_info; log `l` serves type `l % TYPES` of mlog `l / TYPES`. */
  datatype Log = Log(segno: nat, next: nat, ssr: bool)

  datatype State = State(g: Geometry, sit: Sit, free: FreeMap, lists: DirtyList, logs: seq<Log>)

  // -------------------------------------------------------------- shape

  predicate InMain(g: Geometry, b: Blk) {
    b.seg < g.segs && b.off < BLOCKS
  }

  ghost predicate SitShape(g: Geometry, sit: Sit) {
    && g.Valid()
    && |sit.entries| == g.segs
    && |sit.secValid| == g.Secs()
    && (forall x :: 0 <= x < |sit.entries| ==> sit.entries[x].typ < TYPES)
    && (forall x :: x in sit.dirty ==> x < g.segs)
  }

  ghost predicate ListShape(g: Geometry, d: DirtyList) {
    && |d.maps| == MAPS && |d.nr| == MAPS
    && (forall t, x :: 0 <= t < MAPS && x in d.maps[t] ==> x < g.segs)
  }

  ghost predicate LogShape(g: Geometry, logs: seq<Log>) {
    && |logs| == TYPES * g.mlogs
    && (forall l :: 0 <= l < |logs| ==> logs[l].segno < g.segs)
  }

  ghost predicate Shape(s: State) {
    && SitShape(s.g, s.sit)
    && (forall x :: x in s.free.segs ==> x < s.g.segs)
    && (forall c :: c in s.free.secs ==> c < s.g.Secs())
    && ListShape(s.g, s.lists)
    && LogShape(s.g, s.logs)
  }

  /** IS_CURSEG */
  predicate IsCurseg(logs: seq<Log>, x: nat) {
    exists l :: 0 <= l < |logs| && logs[l].segno == x
  }

  /** IS_CURSEC */
  predicate IsCursec(g: Geometry, logs: seq<Log>, sec: nat)
    requires g.segsPerSec > 0
  {
    exists l :: 0 <= l < |logs| && g.SecOf(logs[l].segno) == sec
  }

  lemma SecInRange(g: Geometry, x: nat)
    requires g.Valid() && x < g.segs
    ensures g.SecOf(x) < g.Secs()
  {
    var q := x / g.segsPerSec;
    assert q * g.segsPerSec <= x;
  }

  // ------------------------------------------------------------------- SIT

  /** __mark_sit_entry_dirty */
  function MarkDirty(sit: Sit, x: nat): (r: Sit) {
    if x in sit.dirty then sit else sit.(dirty := sit.dirty + {x}, dirtyCnt := sit.dirtyCnt + 1)
  }

  function UpdateEntry(e: Entry, off: nat, alloc: bool): (r: Entry) {
    var del := if alloc then 1 else -1;
    Entry(
      e.valid + del,
      if alloc then e.cur + {off} else e.cur - {off},
      if off in e.ckpt then e.ckptValid else e.ckptValid + del,
      e.ckpt,
      if alloc then e.discard + {off} else e.discard - {off},
      e.typ)
  }

  /** update_sit_entry with del == 1 (alloc) or del == -1 */
  function UpdateSit(g: Geometry, sit: Sit, b: Blk, alloc: bool): (r: Sit)
    requires SitShape(g, sit) && InMain(g, b)
    ensures SitShape(g, r)
  {
    var e := sit.entries[b.seg];
    var del := if alloc then 1 else -1;
    var sec := g.SecOf(b.seg);
    SecInRange(g, b.seg);
    MarkDirty(sit, b.seg).(
      entries := sit.entries[b.seg := UpdateEntry(e, b.off, alloc)],
      discardBlks :=
        if alloc then if b.off in e.discard then sit.discardBlks else sit.discardBlks - 1
        else if b.off in e.discard then sit.discardBlks + 1 else sit.discardBlks,
      written := sit.written + del,
      secValid := if g.segsPerSec > 1 then sit.secValid[sec := sit.secValid[sec] + del] else sit.secValid)
  }

  /** __set_sit_entry_type with modified == 1 */
  function SetType(g: Geometry, sit: Sit, x: nat, typ: nat): (r: Sit)
    requires SitShape(g, sit) && x < g.segs && typ < TYPES
    ensures SitShape(g, r)
  {
    MarkDirty(sit, x).(entries := sit.entries[x := sit.entries[x].(typ := typ)])
  }

  /** get_valid_blocks(sbi, segno, sbi->segs_per_sec) */
  function SectionValid(g: Geometry, sit: Sit, x: nat): (r: int)
    requires SitShape(g, sit) && x < g.segs
  {
    SecInRange(g, x);
    if g.segsPerSec > 1 then sit.secValid[g.SecOf(x)] else sit.entries[x].valid
  }

  /** One block of f2fs_issue_discard. */
  function Discard(g: Geometry, sit: Sit, b: Blk): (r: Sit)
    requires SitShape(g, sit) && InMain(g, b)
    ensures SitShape(g, r)
  {
    var e := sit.entries[b.seg];
    if b.off in e.discard then sit
    else sit.(entries := sit.entries[b.seg := e.(discard := e.discard + {b.off})],
              discardBlks := sit.discardBlks - 1)
  }

  // ----------------------------------------------------------- dirty lists

  function AddToMap(d: DirtyList, x: nat, t: nat): (r: DirtyList)
    requires |d.maps| == MAPS == |d.nr| && t < MAPS
    ensures |r.maps| == MAPS == |r.nr|
  {
    if x in d.maps[t] then d
    else d.(maps := d.maps[t := d.maps[t] + {x}], nr := d.nr[t := d.nr[t] + 1])
  }

  function DropFromMap(d: DirtyList, x: nat, t: nat): (r: DirtyList)
    requires |d.maps| == MAPS == |d.nr| && t < MAPS
    ensures |r.maps| == MAPS == |r.nr|
  {
    if x !in d.maps[t] then d
    else d.(maps := d.maps[t := d.maps[t] - {x}], nr := d.nr[t := d.nr[t] - 1])
  }

  /** The DIRTY branch of __locate_dirty_segment, for a segment of type `typ`. */
  function AddDirty(d: DirtyList, x: nat, typ: nat): (r: DirtyList)
    requires |d.maps| == MAPS == |d.nr| && typ < TYPES
    ensures |r.maps| == MAPS == |r.nr|
  {
    AddToMap(AddToMap(d, x, DIRTY), x, typ)
  }

  /** The DIRTY branch of __remove_dirty_segment. */
  function DropDirty(g: Geometry, d: DirtyList, sit: Sit, x: nat): (r: DirtyList)
    requires |d.maps| == MAPS == |d.nr| && SitShape(g, sit) && x < g.segs
    ensures |r.maps| == MAPS == |r.nr|
  {
    var d1 := DropFromMap(DropFromMap(d, x, DIRTY), x, sit.entries[x].typ);
    if SectionValid(g, sit, x) == 0 then d1.(victims := d1.victims - {g.SecOf(x)}) else d1
  }

  /** locate_dirty_segment */
  function Locate(g: Geometry, d: DirtyList, sit: Sit, logs: seq<Log>, x: nat): (r: DirtyList)
    requires ListShape(g, d) && SitShape(g, sit) && x < g.segs
    ensures ListShape(g, r)
  {
    var e := sit.entries[x];
    if IsCurseg(logs, x) then d
    else if e.valid == 0 then DropDirty(g, AddToMap(d, x, PRE), sit, x)
    else if e.valid < BLOCKS then AddDirty(d, x, e.typ)
    else DropDirty(g, d, sit, x)
  }

  // ------------------------------------------------------------- free maps

  /** All segments of the section are free. */
  ghost predicate SectionFree(g: Geometry, segs: set<nat>, sec: nat)
    requires g.segsPerSec > 0
  {
    forall x: nat :: x < g.segs && g.SecOf(x) == sec ==> x in segs
  }

  /** __set_inuse and __set_test_and_inuse */
  function SetInuse(g: Geometry, f: FreeMap, x: nat): (r: FreeMap)
    requires g.segsPerSec > 0
  {
    if x !in f.segs then f
    else
      var sec := g.SecOf(x);
      FreeMap(f.segs - {x}, f.secs - {sec}, f.nsegs - 1, if sec in f.secs then f.nsecs - 1 else f.nsecs)
  }

  /** __set_test_and_free */
  ghost function SetFree(g: Geometry, f: FreeMap, x: nat): (r: FreeMap)
    requires g.segsPerSec > 0
  {
    if x in f.segs then f
    else
      var sec := g.SecOf(x);
      var segs := f.segs + {x};
      if SectionFree(g, segs, sec)
      then FreeMap(segs, f.secs + {sec}, f.nsegs + 1, if sec in f.secs then f.nsecs else f.nsecs + 1)
      else FreeMap(segs, f.secs, f.nsegs + 1, f.nsecs)
  }

  // ------------------------------------------------------------- operations

  /** refresh_sit_entry; `prev` is None for NULL_ADDR and NEW_ADDR */
  function RefreshSit(s: State, prev: Option<Blk>, b: Blk): (r: State)
    requires Shape(s) && InMain(s.g, b)
    requires prev.Some? ==> InMain(s.g, prev.value)
    ensures Shape(r) && r.g == s.g
  {
    var sit1 := UpdateSit(s.g, s.sit, b, true);
    if prev.None? then
      s.(sit := sit1, lists := Locate(s.g, s.lists, sit1, s.logs, b.seg))
    else
      var sit2 := UpdateSit(s.g, sit1, prev.value, false);
      var d1 := Locate(s.g, s.lists, sit2, s.logs, prev.value.seg);
      s.(sit := sit2, lists := Locate(s.g, d1, sit2, s.logs, b.seg))
  }

  /** invalidate_blocks for an address in the main area */
  function Invalidate(s: State, b: Blk): (r: State)
    requires Shape(s) && InMain(s.g, b)
    ensures Shape(r) && r.g == s.g
  {
    var sit1 := UpdateSit(s.g, s.sit, b, false);
    s.(sit := sit1, lists := Locate(s.g, s.lists, sit1, s.logs, b.seg))
  }

  /** new_curseg, once get_new_segment has settled on the free segment x */
  function NewCurseg(s: State, l: nat, x: nat): (r: State)
    requires Shape(s) && l < |s.logs| && x < s.g.segs
    ensures Shape(r) && r.g == s.g
  {
    s.(free := SetInuse(s.g, s.free, x),
       sit := SetType(s.g, s.sit, x, l % TYPES),
       logs := s.logs[l := Log(x, 0, false)])
  }

  /** __find_rev_next_zero_bit, clamped at the segment size */
  function NextZero(used: set<nat>, start: nat): (r: nat)
    ensures start <= BLOCKS ==> start <= r <= BLOCKS
    ensures start > BLOCKS ==> r == BLOCKS
    ensures r < BLOCKS ==> r !in used
    ensures forall k :: start <= k < r ==> k in used
    decreases BLOCKS - start
  {
    if start >= BLOCKS then BLOCKS
    else if start !in used then start
    else NextZero(used, start + 1)
  }

  /** change_curseg to the dirty segment x that get_ssr_segment picked */
  function ChangeCurseg(s: State, l: nat, x: nat): (r: State)
    requires Shape(s) && l < |s.logs| && x < s.g.segs
    ensures Shape(r) && r.g == s.g
  {
    var e := s.sit.entries[x];
    s.(free := SetInuse(s.g, s.free, x),
       lists := DropDirty(s.g, DropFromMap(s.lists, x, PRE), s.sit, x),
       sit := SetType(s.g, s.sit, x, l % TYPES),
       logs := s.logs[l := Log(x, NextZero(e.cur + e.ckpt, 0), true)])
  }

  /** __refresh_next_blkoff */
  function Advance(s: State, l: nat): (r: State)
    requires Shape(s) && l < |s.logs|
    ensures Shape(r) && r.g == s.g
  {
    var c := s.logs[l];
    var e := s.sit.entries[c.segno];
    s.(logs := s.logs[l := c.(next := if c.ssr then NextZero(e.cur + e.ckpt, c.next + 1) else c.next + 1)])
  }

  /** How a full log gets its next segment. */
  datatype Choice = UseFree(x: nat) | UseDirty(x: nat)

  function Switch(s: State, l: nat, c: Choice): (r: State)
    requires Shape(s) && l < |s.logs| && c.x < s.g.segs
    ensures Shape(r) && r.g == s.g
  {
    match c
    case UseFree(x) => NewCurseg(s, l, x)
    case UseDirty(x) => ChangeCurseg(s, l, x)
  }

  /** __allocate_new_segments: force a new log segment for direct I/O */
  function ForceNew(s: State, l: nat, x: nat): (r: State)
    requires Shape(s) && l < |s.logs| && x < s.g.segs
    ensures Shape(r) && r.g == s.g
  {
    var r := NewCurseg(s, l, x);
    r.(lists := Locate(r.g, r.lists, r.sit, r.logs, s.logs[l].segno))
  }

  /** NEXT_FREE_BLKADDR */
  function Head(s: State, l: nat): (b: Blk)
    requires l < |s.logs|
  {
    Blk(s.logs[l].segno, s.logs[l].next)
  }

  /** allocate_data_block, after the forced switch that direct I/O may do: the
      address handed out is the log head before the call.  The log moves on, a
      full log switches, and only then the SIT learns about the block. */
  function Allocate(s: State, l: nat, prev: Option<Blk>, c: Choice): (r: State)
    requires Shape(s) && l < |s.logs| && s.logs[l].next < BLOCKS && c.x < s.g.segs
    requires prev.Some? ==> InMain(s.g, prev.value)
    ensures Shape(r) && r.g == s.g
  {
    var s1 := Advance(s, l);
    var s2 := if s1.logs[l].next < BLOCKS then s1 else Switch(s1, l, c);
    RefreshSit(s2, prev, Head(s, l))
  }

  // ------------------------------------------------------------- checkpoint

  /** What flush_sit_entries does to an entry: the current map becomes the
      checkpointed one (seg_info_to_raw_sit). */
  function FlushEntry(e: Entry): (r: Entry) {
    e.(ckpt := e.cur, ckptValid := e.valid)
  }

  function FlushSit(sit: Sit): (r: Sit) {
    sit.(
      entries := seq(|sit.entries|, x requires 0 <= x < |sit.entries| =>
        if x in sit.dirty then FlushEntry(sit.entries[x]) else sit.entries[x]),
      dirty := {}, dirtyCnt := sit.dirtyCnt - |sit.dirty|)
  }

  /** set_prefree_as_free_segments over the segments in `todo` */
  ghost function FreeAll(g: Geometry, f: FreeMap, todo: set<nat>): (r: FreeMap)
    requires g.segsPerSec > 0
    decreases todo
  {
    if todo == {} then f
    else
      var x :| x in todo;
      FreeAll(g, SetFree(g, f, x), todo - {x})
  }

  /** clear_prefree_segments */
  function EmptyPrefree(d: DirtyList): (r: DirtyList)
    requires |d.maps| == MAPS == |d.nr|
  {
    d.(maps := d.maps[PRE := {}], nr := d.nr[PRE := d.nr[PRE] - |d.maps[PRE]|])
  }

  /** write_checkpoint as far as it touches this state: flush every dirty SIT
      entry, turn the prefree segments into free ones, and, the pack being on
      disk, empty the prefree list. */
  ghost function Checkpoint(s: State): (r: State)
    requires Shape(s)
    ensures r.g == s.g
  {
    s.(sit := FlushSit(s.sit),
       free := FreeAll(s.g, s.free, s.lists.maps[PRE]),
       lists := EmptyPrefree(s.lists))
  }
}
