/** Building the segment manager from a checkpoint (build_segment_manager), and
    the round trip through write_checkpoint. */
module SegmentMount {
  import opened Common
  import opened SegmentModel
  import opened SegmentSafety
  import opened SegmentManager

  /** struct f2fs_sit_entry: the count and type share one 16-bit field */
  datatype RawEntry = RawEntry(vblocks: nat, map_: set<nat>)

  const VBLOCKS_SHIFT: nat := 1024       // 1 << SIT_VBLOCKS_SHIFT

  /** seg_info_to_raw_sit */
  function ToRaw(e: Entry): (r: RawEntry)
    requires 0 <= e.valid
  {
    RawEntry(e.typ * VBLOCKS_SHIFT + e.valid, e.cur)
  }

  /** seg_info_from_raw_sit, with the discard map of build_sit_entries */
  function FromRaw(r: RawEntry): (e: Entry) {
    var valid := r.vblocks % VBLOCKS_SHIFT;
    Entry(valid, r.map_, valid, r.map_, r.map_, r.vblocks / VBLOCKS_SHIFT)
  }

  /** Writing an entry out and reading it back gives the flushed entry. */
  lemma RawRoundTrip(e: Entry)
    requires EntryOk(e) && e.typ < TYPES
    ensures FromRaw(ToRaw(e)) == FlushEntry(e).(discard := e.cur)
  {
    SizeBound(BLOCKS, e.cur);
  }

  /** What a checkpoint leaves for the next mount: entries whose maps agree, and logs on distinct segments of their type. */
  ghost predicate Readable(g: Geometry, entries: seq<Entry>, logs: seq<Log>) {
    && g.Valid() && |entries| == g.segs && LogShape(g, logs) && LogsDistinct(logs)
    && (forall x :: 0 <= x < g.segs ==> EntryOk(entries[x]) && entries[x].typ < TYPES)
    && (forall x :: 0 <= x < g.segs ==> entries[x].ckpt == entries[x].cur == entries[x].discard)
    && (forall l :: 0 <= l < |logs| ==> logs[l].next < BLOCKS && entries[logs[l].segno].typ == l % TYPES)
  }

  /** Every log stands on free blocks: an SSR log on one, an LFS log on everything from its head on. */
  ghost predicate HeadsFree(entries: seq<Entry>, logs: seq<Log>) {
    forall l :: 0 <= l < |logs| && logs[l].segno < |entries| ==> HeadFree(entries[logs[l].segno].cur, logs[l])
  }

  ghost predicate HeadFree(cur: set<nat>, c: Log) {
    if c.ssr then c.next !in cur else forall k :: c.next <= k ==> k !in cur
  }

  /** build_sit_entries on top of restored entries */
  ghost predicate SitBuilt(g: Geometry, sit: Sit, entries: seq<Entry>) {
    && SitShape(g, sit)
    && sit.entries == entries
    && sit.dirty == {} && sit.dirtyCnt == 0
    && sit.written == SumValid(entries, 0, g.segs)
    && sit.discardBlks == SumClear(entries, g.segs)
    && (g.segsPerSec > 1 ==> forall c :: 0 <= c < g.Secs() ==> SectionSum(g, sit, c))
  }

  ghost predicate FreeBuilt(g: Geometry, f: FreeMap, entries: seq<Entry>, logs: seq<Log>)
    requires |entries| == g.segs
  {
    && FreeInv(g, f)
    && forall x: nat :: x in f.segs <==> x < g.segs && entries[x].valid == 0 && !IsCurseg(logs, x)
  }

  ghost predicate ListsBuilt(g: Geometry, d: DirtyList, f: FreeMap, entries: seq<Entry>, logs: seq<Log>) {
    && ListInv(g, d, entries)
    && d.maps[PRE] == {} && d.victims == {}
    && forall x: nat :: x in d.maps[DIRTY] <==>
         x < g.segs && x !in f.segs && 0 < entries[x].valid < BLOCKS && !IsCurseg(logs, x)
  }

  /** A freshly built manager satisfies the invariant exactly when its logs stand on free blocks. */
  lemma BuiltInv(s: State)
    requires Readable(s.g, s.sit.entries, s.logs)
    requires SitBuilt(s.g, s.sit, s.sit.entries)
    requires FreeBuilt(s.g, s.free, s.sit.entries, s.logs)
    requires ListsBuilt(s.g, s.lists, s.free, s.sit.entries, s.logs)
    ensures Inv(s) <==> HeadsFree(s.sit.entries, s.logs)
  {
    forall x | 0 <= x < s.g.segs ensures Classified(s, x) {
      assert EntryOk(s.sit.entries[x]);
    }
    forall l | 0 <= l < |s.logs| ensures LogOk(s, l) <==> HeadFree(s.sit.entries[s.logs[l].segno].cur, s.logs[l]) {
    }
  }

  /** The entries the next mount reads after checkpoint `Checkpoint(s)`. */
  ghost function Restored(s: State): (r: seq<Entry>)
    requires Shape(s) && forall x :: 0 <= x < s.g.segs ==> s.sit.entries[x].valid >= 0
  {
    seq(|s.sit.entries|, x requires 0 <= x < |s.sit.entries| => FromRaw(ToRaw(s.sit.entries[x])))
  }

  /** read_compacted_summaries and read_normal_summaries: a log gets its own segment
      and offset back, but the allocation type saved for its type's log of mlog 0. */
  function RestoreLogs(logs: seq<Log>): (r: seq<Log>) {
    seq(|logs|, l requires 0 <= l < |logs| => logs[l].(ssr := logs[l % TYPES].ssr))
  }

  /** No log that comes back in LFS mode from SSR mode has a block in use behind its head. */
  ghost predicate ModesSafe(s: State)
    requires Shape(s)
  {
    forall l :: 0 <= l < |s.logs| && s.logs[l].ssr && !s.logs[l % TYPES].ssr ==>
      forall k :: s.logs[l].next <= k ==> k !in s.sit.entries[s.logs[l].segno].cur
  }

  /** Whatever state a run has reached, a checkpoint followed by a mount restores
      every current valid map, count and type; and it leaves every log on free
      blocks exactly when no log loses an SSR mode it needs. */
  lemma CheckpointMountable(s: State)
    requires Inv(s)
    ensures forall x :: 0 <= x < s.g.segs ==> s.sit.entries[x].valid >= 0
    ensures var r := Checkpoint(s);
      Shape(r) && (forall x :: 0 <= x < s.g.segs ==> r.sit.entries[x].valid >= 0)
      && Readable(s.g, Restored(r), RestoreLogs(s.logs))
      && (HeadsFree(Restored(r), RestoreLogs(s.logs)) <==> ModesSafe(s))
      && forall x :: 0 <= x < s.g.segs ==>
           Restored(r)[x].cur == s.sit.entries[x].cur && Restored(r)[x].valid == s.sit.entries[x].valid
           && Restored(r)[x].typ == s.sit.entries[x].typ
  {
    RestoredFrom(s);
    EntriesReadable(s, Restored(Checkpoint(s)));
  }

  /** Whatever entries a mount restores for `s`, with its logs they can be built on. */
  lemma EntriesReadable(s: State, m: seq<Entry>)
    requires Inv(s) && |m| == s.g.segs && forall x :: 0 <= x < s.g.segs ==> RestoredEntry(s.sit.entries[x], m[x])
    ensures Readable(s.g, m, RestoreLogs(s.logs))
    ensures HeadsFree(m, RestoreLogs(s.logs)) <==> ModesSafe(s)
  {
    LogsReadable(s, m);
    LogsFree(s, m);
  }

  lemma RestoredFrom(s: State)
    requires Inv(s)
    ensures Shape(Checkpoint(s)) && |Checkpoint(s).sit.entries| == s.g.segs
    ensures forall x :: 0 <= x < s.g.segs ==> s.sit.entries[x].valid >= 0 && Checkpoint(s).sit.entries[x].valid >= 0
    ensures |Restored(Checkpoint(s))| == s.g.segs
    ensures forall x :: 0 <= x < s.g.segs ==> RestoredEntry(s.sit.entries[x], Restored(Checkpoint(s))[x])
  {
    CheckpointInv(s);
    CheckpointKeeps(s);
    RestoredAll(Checkpoint(s));
    forall x | 0 <= x < s.g.segs ensures RestoredEntry(s.sit.entries[x], Restored(Checkpoint(s))[x]) {
      assert RestoredEntry(Checkpoint(s).sit.entries[x], Restored(Checkpoint(s))[x]);
    }
  }

  /** A checkpoint leaves every current map, count and type alone. */
  lemma CheckpointKeeps(s: State)
    requires Inv(s)
    ensures |Checkpoint(s).sit.entries| == s.g.segs
    ensures forall x :: 0 <= x < s.g.segs ==>
      var e, r := s.sit.entries[x], Checkpoint(s).sit.entries[x];
      r.cur == e.cur && r.valid == e.valid && r.typ == e.typ && e.valid >= 0
  {
    forall x | 0 <= x < s.g.segs ensures s.sit.entries[x].valid >= 0 {
      assert EntryOk(s.sit.entries[x]);
    }
  }

  /** Entries as a mount restores them agree in all three maps, and with the entries written. */
  lemma RestoredAll(r: State)
    requires Inv(r)
    ensures forall x :: 0 <= x < r.g.segs ==> r.sit.entries[x].valid >= 0
    ensures |Restored(r)| == r.g.segs
    ensures forall x :: 0 <= x < r.g.segs ==> RestoredEntry(r.sit.entries[x], Restored(r)[x])
  {
    forall x | 0 <= x < r.g.segs ensures r.sit.entries[x].valid >= 0 {
      RawEntryOk(r.sit.entries[x]);
    }
    forall x | 0 <= x < r.g.segs ensures RestoredEntry(r.sit.entries[x], Restored(r)[x]) {
      RawEntryOk(r.sit.entries[x]);
    }
  }

  ghost predicate RestoredEntry(e: Entry, m: Entry) {
    && EntryOk(m) && m.typ < TYPES && m.ckpt == m.cur == m.discard
    && m.cur == e.cur && m.valid == e.valid && m.typ == e.typ
  }

  lemma LogsReadable(s: State, m: seq<Entry>)
    requires Shape(s) && LogsDistinct(s.logs) && (forall l :: 0 <= l < |s.logs| ==> LogOk(s, l) && s.logs[l].next < BLOCKS)
    requires |m| == s.g.segs && forall x :: 0 <= x < s.g.segs ==> m[x].typ == s.sit.entries[x].typ
    ensures LogShape(s.g, RestoreLogs(s.logs)) && LogsDistinct(RestoreLogs(s.logs))
    ensures var logs := RestoreLogs(s.logs);
      forall l :: 0 <= l < |logs| ==> logs[l].next < BLOCKS && m[logs[l].segno].typ == l % TYPES
  {
    forall l | 0 <= l < |s.logs| ensures s.sit.entries[s.logs[l].segno].typ == l % TYPES {
      assert LogOk(s, l);
    }
  }

  lemma LogsFree(s: State, m: seq<Entry>)
    requires Shape(s) && (forall l :: 0 <= l < |s.logs| ==> LogOk(s, l))
    requires |m| == s.g.segs && forall x :: 0 <= x < s.g.segs ==> m[x].cur == s.sit.entries[x].cur
    ensures HeadsFree(m, RestoreLogs(s.logs)) <==> ModesSafe(s)
  {
    var logs := RestoreLogs(s.logs);
    forall l | 0 <= l < |s.logs|
      ensures HeadFree(m[logs[l].segno].cur, logs[l]) <==>
        (s.logs[l].ssr && !s.logs[l % TYPES].ssr ==>
          forall k :: s.logs[l].next <= k ==> k !in s.sit.entries[s.logs[l].segno].cur)
    {
      assert LogOk(s, l);
    }
  }

  lemma RawEntryOk(e: Entry)
    requires EntryOk(e) && e.typ < TYPES
    ensures e.valid >= 0 && EntryOk(FromRaw(ToRaw(e)))
    ensures FromRaw(ToRaw(e)) == FlushEntry(e).(discard := e.cur)
  {
    RawRoundTrip(e);
    assert e.cur + e.cur == e.cur;
  }

  /** The state after `n` more blocks of the segment log `l` stands on. */
  ghost function AllocateMany(s: State, l: nat, n: nat): (r: State)
    requires Shape(s) && l < |s.logs| && !s.logs[l].ssr && s.logs[l].next + n < BLOCKS
    ensures Shape(r) && r.g == s.g && |r.logs| == |s.logs|
    ensures r.logs[l] == s.logs[l].(next := s.logs[l].next + n)
  {
    if n == 0 then s else Allocate(AllocateMany(s, l, n - 1), l, None, UseFree(s.logs[l].segno))
  }

  /** If an LFS log does not stand on free blocks, allocation in it reaches a
      block in use and hands it out again. */
  lemma {:induction false} UsedBlockHandedOut(s: State, l: nat, n: nat)
    requires Shape(s) && l < |s.logs| && !s.logs[l].ssr && s.logs[l].next + n < BLOCKS
    requires s.logs[l].next + n in s.sit.entries[s.logs[l].segno].cur
    ensures var b := Head(AllocateMany(s, l, n), l);
      b == Blk(s.logs[l].segno, s.logs[l].next + n) && b.off in AllocateMany(s, l, n).sit.entries[b.seg].cur
  {
    UsedStays(s, l, n, s.logs[l].next + n);
  }

  lemma {:induction false} UsedStays(s: State, l: nat, n: nat, k: nat)
    requires Shape(s) && l < |s.logs| && !s.logs[l].ssr && s.logs[l].next + n < BLOCKS
    requires k in s.sit.entries[s.logs[l].segno].cur
    ensures k in AllocateMany(s, l, n).sit.entries[s.logs[l].segno].cur
  {
    if n > 0 {
      UsedStays(s, l, n - 1, k);
      AllocateAdds(AllocateMany(s, l, n - 1), l, UseFree(s.logs[l].segno), s.logs[l].segno, k);
    }
  }

  lemma AllocateAdds(s: State, l: nat, c: Choice, x: nat, k: nat)
    requires Shape(s) && l < |s.logs| && s.logs[l].next < BLOCKS && c.x < s.g.segs && x < s.g.segs
    requires k in s.sit.entries[x].cur
    ensures k in Allocate(s, l, None, c).sit.entries[x].cur
  {
  }

  /** So when a needed mode is lost, a mounted manager with the checkpoint's maps and
      the logs as restored comes to hand out a block that is in use. */
  lemma LostModeReuses(s: State, m: State) returns (l: nat, n: nat)
    requires Inv(s) && !ModesSafe(s) && Shape(m) && m.g == s.g && m.logs == RestoreLogs(s.logs)
    requires forall x :: 0 <= x < m.g.segs ==> m.sit.entries[x].cur == s.sit.entries[x].cur
    ensures l < |m.logs| && !m.logs[l].ssr && m.logs[l].next + n < BLOCKS
    ensures var r := AllocateMany(m, l, n); Head(r, l).off in r.sit.entries[Head(r, l).seg].cur
  {
    l :| 0 <= l < |s.logs| && s.logs[l].ssr && !s.logs[l % TYPES].ssr
         && !forall k :: s.logs[l].next <= k ==> k !in s.sit.entries[s.logs[l].segno].cur;
    var k :| s.logs[l].next <= k && k in s.sit.entries[s.logs[l].segno].cur;
    assert EntryOk(s.sit.entries[s.logs[l].segno]);
    n := k - s.logs[l].next;
    UsedBlockHandedOut(m, l, n);
  }

  /** Twelve LFS logs on twelve empty segments, the first of mlog 1 at its last block; a thirteenth, dirty, segment. */
  ghost function BeforeLoss(): (s: State) {
    var entries := seq(13, x requires 0 <= x < 13 =>
      if x < 12 then Entry(0, {}, 0, {}, {}, x % TYPES) else Entry(1, {1}, 1, {1}, {1}, 0));
    State(Geometry(13, 1, 1, 2),
      Sit(entries, seq(13, x => 0), {}, 0, SumValid(entries, 0, 13), SumClear(entries, 13)),
      FreeMap({}, {}, 0, 0), AddDirty(NoDirty(), 12, 0),
      seq(12, x requires 0 <= x < 12 => Log(x, if x == TYPES then BLOCKS - 1 else 0, false)))
  }

  lemma BeforeLossInv()
    ensures Inv(BeforeLoss())
  {
    BeforeLossLists();
    BeforeLossFree();
    BeforeLossReadable();
    BuiltInv(BeforeLoss());
  }

  lemma BeforeLossLogs()
    ensures var s := BeforeLoss(); |s.logs| == 12 && forall x: nat :: IsCurseg(s.logs, x) <==> x < 12
  {
    var logs := BeforeLoss().logs;
    forall x: nat | x < 12 ensures IsCurseg(logs, x) {
      assert logs[x].segno == x;
    }
  }

  lemma BeforeLossLists()
    ensures var s := BeforeLoss(); |s.sit.entries| == s.g.segs && ListsBuilt(s.g, s.lists, s.free, s.sit.entries, s.logs)
  {
    var s := BeforeLoss();
    BeforeLossLogs();
    NoDirtyInv(s.g, s.sit.entries);
    AddDirtyInv(s.g, NoDirty(), s.sit.entries, 12);
  }

  lemma BeforeLossFree()
    ensures var s := BeforeLoss(); |s.sit.entries| == s.g.segs && FreeBuilt(s.g, s.free, s.sit.entries, s.logs)
  {
    BeforeLossLogs();
    EmptyFree(BeforeLoss().g);
  }

  lemma BeforeLossReadable()
    ensures var s := BeforeLoss();
      && Readable(s.g, s.sit.entries, s.logs) && SitBuilt(s.g, s.sit, s.sit.entries) && HeadsFree(s.sit.entries, s.logs)
  {
  }

  /** One allocation away from LFS logs alone: the log is full and takes the dirty segment. */
  lemma LostModeOccurs() returns (s: State, op: Op)
    ensures Inv(s) && (forall l :: 0 <= l < |s.logs| ==> !s.logs[l].ssr)
    ensures OpOk(s, op) && Inv(Do(s, op)) && Shape(Do(s, op)) && !ModesSafe(Do(s, op))
  {
    s, op := BeforeLoss(), Alloc(TYPES, false, 0, None, UseDirty(12));
    BeforeLossInv();
    LossFacts();
    LossOk(s, op);
    DoInv(s, op);
    LossStep(s, op);
  }

  lemma LossFacts()
    ensures var s := BeforeLoss();
      && (forall l :: 0 <= l < |s.logs| ==> !s.logs[l].ssr) && |s.logs| == 12 && s.g == Geometry(13, 1, 1, 2)
      && s.logs[TYPES] == Log(TYPES, BLOCKS - 1, false) && (forall l :: 0 <= l < 12 ==> s.logs[l].segno == l)
      && |s.sit.entries| == 13 && s.sit.entries[12] == Entry(1, {1}, 1, {1}, {1}, 0)
      && |s.lists.maps| == MAPS && 12 in s.lists.maps[DIRTY]
  {
  }

  lemma LossOk(s: State, op: Op)
    requires Shape(s) && op == Alloc(TYPES, false, 0, None, UseDirty(12))
    requires s.g == Geometry(13, 1, 1, 2) && |s.logs| == 12 && s.logs[TYPES] == Log(TYPES, BLOCKS - 1, false)
    requires forall l :: 0 <= l < 12 ==> s.logs[l].segno == l
    requires s.sit.entries[12] == Entry(1, {1}, 1, {1}, {1}, 0) && 12 in s.lists.maps[DIRTY]
    ensures OpOk(s, op)
  {
    assert ChoiceOk(s, UseDirty(12));
  }

  lemma LossStep(s: State, op: Op)
    requires Shape(s) && OpOk(s, op) && op == Alloc(TYPES, false, 0, None, UseDirty(12))
    requires |s.logs| == 12 && s.g.segs == 13 && s.logs[TYPES] == Log(TYPES, BLOCKS - 1, false) && !s.logs[0].ssr
    requires s.sit.entries[12].cur == s.sit.entries[12].ckpt == {1} && Shape(Do(s, op))
    ensures !ModesSafe(Do(s, op))
  {
    var r := Do(s, op);
    assert r.logs[TYPES].segno == 12 && r.logs[TYPES].ssr && !r.logs[TYPES % TYPES].ssr;
    assert r.logs[TYPES].next == NextZero({1} + {1}, 0) == 0;
    assert 1 in r.sit.entries[r.logs[TYPES].segno].cur;
  }

  // ------------------------------------------------------- the build loops

  /** build_sit_entries */
  method BuildSit(g: Geometry, entries: seq<Entry>) returns (sit: Sit)
    requires g.Valid() && |entries| == g.segs && forall x :: 0 <= x < g.segs ==> entries[x].typ < TYPES
    requires forall x :: 0 <= x < g.segs ==> entries[x].discard == entries[x].cur && entries[x].valid == |entries[x].cur|
    ensures SitBuilt(g, sit, entries)
  {
    var secValid := seq(g.Secs(), c => 0);
    var discardBlks, written := 0, 0;
    for start := 0 to g.segs
      invariant |secValid| == g.Secs()
      invariant written == SumValid(entries, 0, start)
      invariant discardBlks == SumClear(entries, start)
      invariant g.segsPerSec > 1 ==> forall c :: 0 <= c < g.Secs() ==> secValid[c] == Partial(g, entries, c, start)
    {
      discardBlks := discardBlks + BLOCKS - entries[start].valid;
      written := written + entries[start].valid;
      SecInRange(g, start);
      if g.segsPerSec > 1 {
        var sec := g.SecOf(start);
        secValid := secValid[sec := secValid[sec] + entries[start].valid];
        forall c | 0 <= c < g.Secs()
          ensures Partial(g, entries, c, start + 1) ==
                  Partial(g, entries, c, start) + if c == sec then entries[start].valid else 0
        {
          PartialStep(g, entries, c, start);
        }
      }
    }
    sit := Sit(entries, secValid, {}, 0, written, discardBlks);
    if g.segsPerSec > 1 {
      forall c | 0 <= c < g.Secs() ensures SectionSum(g, sit, c) {
        SecBounds(g, c);
      }
    }
  }

  /** The valid blocks of section c among the segments below n. */
  ghost function Partial(g: Geometry, entries: seq<Entry>, c: nat, n: nat): (r: int)
    requires g.Valid() && |entries| == g.segs && c < g.Secs() && n <= g.segs
  {
    SecBounds(g, c);
    var lo := c * g.segsPerSec;
    SumValid(entries, lo, if n <= lo then 0 else if n - lo >= g.segsPerSec then g.segsPerSec else n - lo)
  }

  lemma PartialStep(g: Geometry, entries: seq<Entry>, c: nat, n: nat)
    requires g.Valid() && |entries| == g.segs && c < g.Secs() && n < g.segs
    ensures Partial(g, entries, c, n + 1) ==
            Partial(g, entries, c, n) + if c == g.SecOf(n) then entries[n].valid else 0
  {
    SecBounds(g, c);
  }

  ghost predicate Ready(m: Manager)
    reads m
  {
    && SitShape(m.g, m.sit) && LogShape(m.g, m.logs)
    && forall x :: 0 <= x < m.g.segs ==> m.sit.entries[x].valid >= 0
  }

  lemma EmptyFree(g: Geometry)
    requires g.Valid()
    ensures FreeInv(g, FreeMap({}, {}, 0, 0))
  {
    forall c: nat | c < g.Secs() ensures !SectionFree(g, {}, c) {
      SecBounds(g, c);
      assert g.SecOf(c * g.segsPerSec) == c;
    }
  }

  ghost function EmptyBelow(entries: seq<Entry>, n: nat): (r: set<nat>)
    requires n <= |entries|
  {
    set x | 0 <= x < n && entries[x].valid == 0
  }

  /** The first loop of init_free_segmap: segments without valid blocks are free. */
  method FreeEmptySegments(m: Manager)
    requires Ready(m) && m.free == FreeMap({}, {}, 0, 0)
    modifies m`free
    ensures FreeInv(m.g, m.free) && m.free.segs == EmptyBelow(m.sit.entries, m.g.segs)
  {
    EmptyFree(m.g);
    for start := 0 to m.g.segs
      invariant FreeInv(m.g, m.free)
      invariant m.free.segs == EmptyBelow(m.sit.entries, start)
    {
      FreeIfEmpty(m, start);
    }
  }

  method FreeIfEmpty(m: Manager, x: nat)
    requires FreeInv(m.g, m.free) && x < m.g.segs == |m.sit.entries| && m.free.segs == EmptyBelow(m.sit.entries, x)
    modifies m`free
    ensures FreeInv(m.g, m.free) && m.free.segs == EmptyBelow(m.sit.entries, x + 1)
  {
    EmptyBelowStep(m.sit.entries, x);
    if m.sit.entries[x].valid == 0 {
      SetFreeInv(m.g, m.free, x);
      m.SetTestAndFree(x);
    }
  }

  lemma EmptyBelowStep(entries: seq<Entry>, x: nat)
    requires x < |entries|
    ensures EmptyBelow(entries, x + 1) ==
      if entries[x].valid == 0 then EmptyBelow(entries, x) + {x} else EmptyBelow(entries, x)
  {
  }

  ghost function LogSegs(logs: seq<Log>): (r: set<nat>) {
    set l | 0 <= l < |logs| :: logs[l].segno
  }

  lemma LogSegsStep(logs: seq<Log>, l: nat)
    requires l < |logs|
    ensures LogSegs(logs[..l + 1]) == LogSegs(logs[..l]) + {logs[l].segno}
  {
    var p, q := logs[..l], logs[..l + 1];
    assert q[l] == logs[l];
    forall y | y in LogSegs(p) ensures y in LogSegs(q) {
      var k :| 0 <= k < |p| && p[k].segno == y;
      assert q[k].segno == y;
    }
    forall y | y in LogSegs(q) ensures y in LogSegs(p) + {logs[l].segno} {
      var k :| 0 <= k < |q| && q[k].segno == y;
      assert k < l ==> p[k].segno == y;
    }
  }

  /** __set_test_and_inuse */
  method TestAndTake(m: Manager, x: nat)
    requires FreeInv(m.g, m.free) && x < m.g.segs
    modifies m`free
    ensures FreeInv(m.g, m.free) && m.free.segs == old(m.free).segs - {x}
  {
    SetInuseInv(m.g, m.free, x);
    if x in m.free.segs {
      m.TakeSegment(x);
    }
  }

  /** The second loop of init_free_segmap: open log segments are in use. */
  method TakeLogSegments(m: Manager)
    requires LogShape(m.g, m.logs) && FreeInv(m.g, m.free)
    modifies m`free
    ensures FreeInv(m.g, m.free) && m.free.segs == old(m.free).segs - LogSegs(m.logs)
  {
    ghost var segs := m.free.segs;
    assert LogSegs(m.logs[..0]) == {};
    for l := 0 to |m.logs|
      invariant TakenUpTo(m, segs, l)
    {
      TakeLog(m, l, segs);
    }
    assert m.logs[..|m.logs|] == m.logs;
  }

  ghost predicate TakenUpTo(m: Manager, segs: set<nat>, l: nat)
    reads m
  {
    l <= |m.logs| && FreeInv(m.g, m.free) && m.free.segs == segs - LogSegs(m.logs[..l])
  }

  method TakeLog(m: Manager, l: nat, ghost segs: set<nat>)
    requires LogShape(m.g, m.logs) && l < |m.logs| && TakenUpTo(m, segs, l)
    modifies m`free
    ensures TakenUpTo(m, segs, l + 1)
  {
    LogSegsStep(m.logs, l);
    TestAndTake(m, m.logs[l].segno);
  }

  /** init_free_segmap */
  method InitFreeSegmap(m: Manager)
    requires Ready(m) && m.free == FreeMap({}, {}, 0, 0)
    modifies m`free
    ensures FreeBuilt(m.g, m.free, m.sit.entries, m.logs)
  {
    FreeEmptySegments(m);
    TakeLogSegments(m);
    forall x: nat ensures x in LogSegs(m.logs) <==> IsCurseg(m.logs, x) {
    }
  }

  ghost function DirtyBelow(f: FreeMap, entries: seq<Entry>, logs: seq<Log>, n: nat): (r: set<nat>)
    requires n <= |entries|
  {
    set x | 0 <= x < n && x !in f.segs && 0 < entries[x].valid < BLOCKS && !IsCurseg(logs, x)
  }

  function NoDirty(): (d: DirtyList) {
    DirtyList([{}, {}, {}, {}, {}, {}, {}, {}], [0, 0, 0, 0, 0, 0, 0, 0], {})
  }

  lemma NoDirtyInv(g: Geometry, entries: seq<Entry>)
    requires |entries| == g.segs
    ensures ListInv(g, NoDirty(), entries)
    ensures NoDirty().maps[PRE] == {} && NoDirty().maps[DIRTY] == {} && NoDirty().victims == {}
  {
  }

  method InitOneDirty(m: Manager, x: nat)
    requires Ready(m) && ListInv(m.g, m.lists, m.sit.entries) && x < m.g.segs
    modifies m`lists
    ensures ListInv(m.g, m.lists, m.sit.entries)
    ensures m.lists.maps[PRE] == old(m.lists).maps[PRE] && m.lists.victims == old(m.lists).victims
    ensures m.lists.maps[DIRTY] == old(m.lists).maps[DIRTY] +
      if x !in m.free.segs && 0 < m.sit.entries[x].valid < BLOCKS && !IsCurseg(m.logs, x) then {x} else {}
  {
    var valid := m.sit.entries[x].valid;
    if x !in m.free.segs && valid != BLOCKS && valid != 0 && valid <= BLOCKS {
      AddDirtyInv(m.g, m.lists, m.sit.entries, x);
      m.LocateDirtyType(x, DIRTY);
    }
  }

  /** init_dirty_segmap */
  method InitDirtySegmap(m: Manager)
    requires Ready(m) && m.lists == NoDirty()
    modifies m`lists
    ensures ListsBuilt(m.g, m.lists, m.free, m.sit.entries, m.logs)
  {
    NoDirtyInv(m.g, m.sit.entries);
    assert DirtyBelow(m.free, m.sit.entries, m.logs, 0) == {};
    for x := 0 to m.g.segs
      invariant DirtyUpTo(m, x)
    {
      InitNextDirty(m, x);
    }
  }

  ghost predicate DirtyUpTo(m: Manager, x: nat)
    reads m
  {
    && ListInv(m.g, m.lists, m.sit.entries) && m.lists.maps[PRE] == {} && m.lists.victims == {}
    && x <= |m.sit.entries| && m.lists.maps[DIRTY] == DirtyBelow(m.free, m.sit.entries, m.logs, x)
  }

  method InitNextDirty(m: Manager, x: nat)
    requires Ready(m) && x < m.g.segs && DirtyUpTo(m, x)
    modifies m`lists
    ensures DirtyUpTo(m, x + 1)
  {
    DirtyBelowStep(m.free, m.sit.entries, m.logs, x);
    InitOneDirty(m, x);
  }

  lemma DirtyBelowStep(f: FreeMap, entries: seq<Entry>, logs: seq<Log>, x: nat)
    requires x < |entries|
    ensures DirtyBelow(f, entries, logs, x + 1) == DirtyBelow(f, entries, logs, x) +
      if x !in f.segs && 0 < entries[x].valid < BLOCKS && !IsCurseg(logs, x) then {x} else {}
  {
  }

  /** build_segment_manager: the object built from what a checkpoint left knows the
      same blocks, and is ready for safe allocation if its logs stand on free ones. */
  method Build(m: Manager, entries: seq<Entry>, logs: seq<Log>)
    requires Readable(m.g, entries, logs)
    modifies m
    ensures m.sit.entries == entries && m.logs == logs
    ensures m.Valid() <==> HeadsFree(entries, logs)
  {
    forall x | 0 <= x < m.g.segs ensures entries[x].valid == |entries[x].cur| {
      assert EntryOk(entries[x]);
    }
    m.logs := logs;
    m.sit := BuildSit(m.g, entries);
    m.free := FreeMap({}, {}, 0, 0);
    InitFreeSegmap(m);
    m.lists := NoDirty();
    InitDirtySegmap(m);
    BuiltInv(m.St());
  }
}
