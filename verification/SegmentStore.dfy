/**
 * The segment manager together with its on-disk table: whatever happens in
 * memory between two checkpoints, an entry that differs from the disk is
 * marked dirty, so the flush brings the disk up to date and a mount reads the
 * entries back.
 */
module SegmentStore {
  import opened Common
  import opened Shadow
  import opened SegmentModel
  import opened SegmentSafety
  import opened SegmentManager
  import opened SegmentMount
  import F = SitFlush

  datatype Store = Store(table: Table<RawEntry>, journal: Journal<RawEntry>)

  /** The entries as the flush would write them. */
  function RawVals(sit: Sit): (r: seq<RawEntry>)
    requires Counted(sit)
  {
    seq(|sit.entries|, x requires 0 <= x < |sit.entries| => ToRaw(sit.entries[x]))
  }

  ghost predicate Counted(sit: Sit) {
    forall x :: 0 <= x < |sit.entries| ==> sit.entries[x].valid >= 0
  }

  /** Disk and memory differ at dirty entries only. */
  ghost predicate Matches(s: State, d: Store) {
    && Counted(s.sit)
    && F.StoreOk(d.table, d.journal, |s.sit.entries|)
    && F.UpToDate(d.table, d.journal, RawVals(s.sit), s.sit.dirty)
  }

  /** Everything written out differs between `a` and `b` at dirty entries of `b` only. */
  ghost predicate Quiet(a: Sit, b: Sit) {
    && |a.entries| == |b.entries| && a.dirty <= b.dirty
    && forall x :: 0 <= x < |b.entries| && x !in b.dirty ==> SameRaw(a.entries[x], b.entries[x])
  }

  ghost predicate SameRaw(a: Entry, b: Entry) {
    a.valid == b.valid && a.cur == b.cur && a.typ == b.typ
  }

  lemma QuietTrans(a: Sit, b: Sit, c: Sit)
    requires Quiet(a, b) && Quiet(b, c)
    ensures Quiet(a, c)
  {
  }

  lemma UpdateQuiet(g: Geometry, sit: Sit, b: Blk, alloc: bool)
    requires SitShape(g, sit) && InMain(g, b)
    ensures Quiet(sit, UpdateSit(g, sit, b, alloc))
  {
  }

  lemma SetTypeQuiet(g: Geometry, sit: Sit, x: nat, typ: nat)
    requires SitShape(g, sit) && x < g.segs && typ < TYPES
    ensures Quiet(sit, SetType(g, sit, x, typ))
  {
  }

  lemma SwitchQuiet(s: State, l: nat, c: Choice)
    requires Shape(s) && l < |s.logs| && c.x < s.g.segs
    ensures Quiet(s.sit, Switch(s, l, c).sit)
  {
    SetTypeQuiet(s.g, s.sit, c.x, l % TYPES);
  }

  lemma RefreshQuiet(s: State, prev: Option<Blk>, b: Blk)
    requires Shape(s) && InMain(s.g, b)
    requires prev.Some? ==> InMain(s.g, prev.value)
    ensures Quiet(s.sit, RefreshSit(s, prev, b).sit)
  {
    UpdateQuiet(s.g, s.sit, b, true);
    if prev.Some? {
      var sit1 := UpdateSit(s.g, s.sit, b, true);
      UpdateQuiet(s.g, sit1, prev.value, false);
      QuietTrans(s.sit, sit1, UpdateSit(s.g, sit1, prev.value, false));
    }
  }

  lemma AllocateQuiet(s: State, l: nat, prev: Option<Blk>, c: Choice)
    requires Shape(s) && l < |s.logs| && s.logs[l].next < BLOCKS && c.x < s.g.segs
    requires prev.Some? ==> InMain(s.g, prev.value)
    ensures Quiet(s.sit, Allocate(s, l, prev, c).sit)
  {
    var s1 := Advance(s, l);
    var s2 := if s1.logs[l].next < BLOCKS then s1 else Switch(s1, l, c);
    SwitchQuiet(s1, l, c);
    RefreshQuiet(s2, prev, Head(s, l));
    QuietTrans(s.sit, s2.sit, Allocate(s, l, prev, c).sit);
  }

  /** No operation but a checkpoint cleans an entry or changes a clean one. */
  lemma OpQuiet(s: State, op: Op)
    requires Shape(s) && OpOk(s, op) && op != Ckpt
    ensures Quiet(s.sit, Do(s, op).sit)
  {
    match op {
      case Alloc(l, direct, x, prev, c) =>
        var r := Prepared(s, op);
        if direct && s.logs[l].next != 0 {
          SetTypeQuiet(s.g, s.sit, x, l % TYPES);
        }
        AllocateQuiet(r, l, prev, c);
        QuietTrans(s.sit, r.sit, Do(s, op).sit);
      case Inval(b) => UpdateQuiet(s.g, s.sit, b, false);
      case Trim(b) =>
    }
  }

  lemma InvCounted(s: State)
    requires Inv(s)
    ensures Counted(s.sit) && |s.sit.entries| == s.g.segs
  {
    forall x | 0 <= x < |s.sit.entries| ensures s.sit.entries[x].valid >= 0 {
      assert EntryOk(s.sit.entries[x]);
    }
  }

  // ---- runs ----

  /** Between checkpoints the disk is left alone; a checkpoint writes the dirty
      entries and leaves what the disk says about the others. */
  ghost predicate Persists(s: State, d: Store, op: Op, e: Store) {
    if op == Ckpt then
      && Counted(s.sit)
      && F.StoreOk(d.table, d.journal, |s.sit.entries|) && F.StoreOk(e.table, e.journal, |s.sit.entries|)
      && Shadowed(d.table, e.table)
      && forall x :: 0 <= x < |s.sit.entries| ==> Written(s.sit, d, e, x)
    else e == d
  }

  ghost predicate Written(sit: Sit, d: Store, e: Store, x: nat)
    requires Counted(sit) && x < |sit.entries|
    requires F.StoreOk(d.table, d.journal, |sit.entries|) && F.StoreOk(e.table, e.journal, |sit.entries|)
  {
    F.Persist(e.table, e.journal, x) == if x in sit.dirty then ToRaw(sit.entries[x]) else F.Persist(d.table, d.journal, x)
  }

  ghost predicate StoreRun(trace: seq<State>, disk: seq<Store>, ops: seq<Op>) {
    && Run(trace, ops) && |disk| == |trace| && Matches(trace[0], disk[0])
    && forall i :: 0 <= i < |ops| ==> Persists(trace[i], disk[i], ops[i], disk[i + 1])
  }

  lemma OpMatches(s: State, d: Store, op: Op, e: Store)
    requires Shape(s) && OpOk(s, op) && Matches(s, d) && Persists(s, d, op, e) && Inv(Do(s, op))
    ensures Matches(Do(s, op), e)
  {
    InvCounted(Do(s, op));
    if op == Ckpt {
      AllWritten(s, d, e);
      FlushedMatches(s, e);
    } else {
      OpQuiet(s, op);
      QuietMatches(s, Do(s, op), d);
    }
  }

  /** If memory and disk differed at dirty entries only, a checkpoint makes the disk say what memory says. */
  lemma AllWritten(s: State, d: Store, e: Store)
    requires Matches(s, d) && Persists(s, d, Ckpt, e)
    ensures F.UpToDate(e.table, e.journal, RawVals(s.sit), {})
  {
    forall x | 0 <= x < |s.sit.entries| ensures F.Persist(e.table, e.journal, x) == RawVals(s.sit)[x] {
      assert Written(s.sit, d, e, x);
      assert x !in s.sit.dirty ==> F.Persist(d.table, d.journal, x) == RawVals(s.sit)[x];
    }
  }

  lemma FlushedMatches(s: State, e: Store)
    requires Shape(s) && Counted(s.sit) && Counted(FlushSit(s.sit))
    requires F.StoreOk(e.table, e.journal, |s.sit.entries|) && F.UpToDate(e.table, e.journal, RawVals(s.sit), {})
    ensures Matches(Checkpoint(s), e)
  {
    var r := Checkpoint(s);
    forall x | 0 <= x < |r.sit.entries| ensures F.Persist(e.table, e.journal, x) == RawVals(r.sit)[x] {
      assert F.Persist(e.table, e.journal, x) == RawVals(s.sit)[x];
    }
  }

  lemma QuietMatches(s: State, r: State, d: Store)
    requires Matches(s, d) && Quiet(s.sit, r.sit) && Counted(r.sit)
    ensures Matches(r, d)
  {
    forall x | 0 <= x < |r.sit.entries| && x !in r.sit.dirty
      ensures F.Persist(d.table, d.journal, x) == RawVals(r.sit)[x]
    {
      assert F.Persist(d.table, d.journal, x) == RawVals(s.sit)[x];
      assert SameRaw(s.sit.entries[x], r.sit.entries[x]);
    }
  }

  /** Over every run, a segment whose entry differs from the disk is dirty. */
  lemma {:induction false} RunMatches(trace: seq<State>, disk: seq<Store>, ops: seq<Op>, k: nat)
    requires StoreRun(trace, disk, ops) && k <= |ops|
    ensures Inv(trace[k]) && Matches(trace[k], disk[k])
  {
    RunInv(trace, ops, k);
    if k > 0 {
      RunMatches(trace, disk, ops, k - 1);
      OpMatches(trace[k - 1], disk[k - 1], ops[k - 1], disk[k]);
    }
  }

  // ---- the checkpoint of the segment manager, on memory and disk ----

  ghost function DiskOf(st: F.SitStore<RawEntry>): (d: Store)
    reads st
  {
    Store(st.table, st.journal)
  }

  /** Entries flushed, prefree segments free, the prefree list still to be emptied. */
  ghost predicate Flushed(s: State, r: State) {
    Shape(s) && r == s.(sit := FlushSit(s.sit), free := FreeAll(s.g, s.free, s.lists.maps[PRE]))
  }

  /**
   * flush_sit_entries on the entries, the journal and the SIT blocks.  It works
   * on the dirty entries alone, and it is one Ckpt step of the disk: that the
   * disk differs at dirty entries only is what the run up to here has kept.
   */
  method FlushSegments(sm: Manager, st: F.SitStore<RawEntry>)
    requires sm.Valid() && Matches(sm.St(), DiskOf(st))
    modifies sm`sit, sm`free, st
    ensures Flushed(old(sm.St()), sm.St())
    ensures Persists(old(sm.St()), old(DiskOf(st)), Ckpt, DiskOf(st)) && st.dirty == {} && st.dirtyCnt == 0
    ensures TableOk(st.table, F.SIT_ENTRY_PER_BLOCK) && Shadowed(old(st.table), st.table)
  {
    st.dirty, st.dirtyCnt := sm.sit.dirty, sm.sit.dirtyCnt;
    var vals := RawVals(sm.sit);
    assert st.Valid(vals);
    st.Flush(vals);
    FlushPersists(sm.St(), old(DiskOf(st)), DiskOf(st));
    sm.FlushSitEntries();
    sm.SetPrefreeAsFree();
  }

  lemma FlushPersists(s: State, d: Store, e: Store)
    requires Matches(s, d) && F.StoreOk(e.table, e.journal, |s.sit.entries|)
    requires F.UpToDate(e.table, e.journal, RawVals(s.sit), {}) && Shadowed(d.table, e.table)
    ensures Persists(s, d, Ckpt, e)
  {
    forall x | 0 <= x < |s.sit.entries| ensures Written(s.sit, d, e, x) {
      assert F.Persist(e.table, e.journal, x) == RawVals(s.sit)[x];
      assert x !in s.sit.dirty ==> F.Persist(d.table, d.journal, x) == RawVals(s.sit)[x];
    }
  }

  /** write_checkpoint as far as segments go. */
  method CheckpointSegments(sm: Manager, st: F.SitStore<RawEntry>)
    requires sm.Valid() && Matches(sm.St(), DiskOf(st))
    modifies sm`sit, sm`free, sm`lists, st
    ensures sm.Valid() && sm.St() == Checkpoint(old(sm.St()))
    ensures Persists(old(sm.St()), old(DiskOf(st)), Ckpt, DiskOf(st)) && Matches(sm.St(), DiskOf(st))
  {
    ghost var s, d := sm.St(), DiskOf(st);
    FlushSegments(sm, st);
    FinishCheckpoint(sm, s, d, DiskOf(st));
  }

  /** clear_prefree_segments, once the pack is on disk */
  method FinishCheckpoint(sm: Manager, ghost s: State, ghost d: Store, ghost e: Store)
    requires Inv(s) && Flushed(s, sm.St()) && Matches(s, d) && Persists(s, d, Ckpt, e)
    modifies sm`lists
    ensures sm.Valid() && sm.St() == Checkpoint(s) && Matches(sm.St(), e)
  {
    sm.ClearPrefree();
    assert sm.St() == Checkpoint(s);
    CheckpointMatches(s, d, e);
  }

  lemma CheckpointMatches(s: State, d: Store, e: Store)
    requires Inv(s) && Matches(s, d) && Persists(s, d, Ckpt, e)
    ensures Inv(Checkpoint(s)) && Matches(Checkpoint(s), e) && Checkpoint(s).sit.dirty == {}
  {
    CheckpointInv(s);
    OpMatches(s, d, Ckpt, e);
  }

  // ---- and back ----

  /** What a mount makes of the entries on disk. */
  ghost function OnDisk(d: Store, segs: nat): (r: seq<Entry>)
    requires F.StoreOk(d.table, d.journal, segs)
  {
    seq(segs, x requires 0 <= x < segs => EntryOnDisk(d, segs, x))
  }

  ghost function EntryOnDisk(d: Store, segs: nat, x: nat): (e: Entry)
    requires F.StoreOk(d.table, d.journal, segs) && x < segs
  {
    FromRaw(F.Persist(d.table, d.journal, x))
  }

  /** build_segment_manager, from journal and SIT blocks on */
  method MountSegments(m: Manager, table: Table<RawEntry>, journal: Journal<RawEntry>, saved: seq<Log>)
    requires F.StoreOk(table, journal, m.g.segs)
    requires Readable(m.g, OnDisk(Store(table, journal), m.g.segs), RestoreLogs(saved))
    modifies m
    ensures m.sit.entries == OnDisk(Store(table, journal), m.g.segs) && m.logs == RestoreLogs(saved)
    ensures m.Valid() <==> HeadsFree(m.sit.entries, m.logs)
  {
    var vals := F.LoadEntries(table, journal, m.g.segs);
    var entries := seq(|vals|, x requires 0 <= x < |vals| => FromRaw(vals[x]));
    assert entries == OnDisk(Store(table, journal), m.g.segs);
    Build(m, entries, RestoreLogs(saved));
  }

  /** What the disk holds after a checkpoint is what the round trip of every entry gives. */
  lemma DiskRestored(s: State, e: Store)
    requires Inv(s) && Matches(Checkpoint(s), e) && Shape(Checkpoint(s)) && Checkpoint(s).sit.dirty == {}
    ensures |Checkpoint(s).sit.entries| == s.g.segs && F.StoreOk(e.table, e.journal, s.g.segs)
    ensures forall x :: 0 <= x < s.g.segs ==> Checkpoint(s).sit.entries[x].valid >= 0
    ensures OnDisk(e, s.g.segs) == Restored(Checkpoint(s))
  {
    CheckpointMountable(s);
    CleanRestored(Checkpoint(s), e);
  }

  lemma CleanRestored(r: State, e: Store)
    requires Matches(r, e) && Shape(r) && r.sit.dirty == {}
    ensures F.StoreOk(e.table, e.journal, r.g.segs) && OnDisk(e, r.g.segs) == Restored(r)
  {
    forall x | 0 <= x < r.g.segs ensures OnDisk(e, r.g.segs)[x] == Restored(r)[x] {
      assert F.Persist(e.table, e.journal, x) == RawVals(r.sit)[x];
    }
  }

  /** A mounted manager knows every segment as `s` did. */
  ghost predicate Remembers(s: State, entries: seq<Entry>) {
    && |entries| == |s.sit.entries|
    && forall x :: 0 <= x < |entries| ==>
         entries[x].cur == s.sit.entries[x].cur && entries[x].valid == s.sit.entries[x].valid
         && entries[x].typ == s.sit.entries[x].typ
  }

  /**
   * Take any run of allocations, invalidations, discards and checkpoints, with
   * the disk as these left it, then one more checkpoint and a mount.  The
   * mounted manager has every map, count and type that was in memory, and is
   * safe to allocate from exactly when no log lost an SSR mode it needs.
   */
  method CheckpointRestores(sm: Manager, st: F.SitStore<RawEntry>, m: Manager,
                            ghost trace: seq<State>, ghost disk: seq<Store>, ghost ops: seq<Op>)
    requires StoreRun(trace, disk, ops) && sm.St() == trace[|ops|] && DiskOf(st) == disk[|ops|]
    requires m != sm && m.g == sm.g
    modifies sm`sit, sm`free, sm`lists, st, m
    ensures Shape(trace[|ops|]) && sm.Valid() && sm.St() == Checkpoint(trace[|ops|])
    ensures Remembers(trace[|ops|], m.sit.entries) && m.logs == RestoreLogs(sm.logs)
    ensures m.Valid() <==> ModesSafe(trace[|ops|])
  {
    RunMatches(trace, disk, ops, |ops|);
    ghost var s := sm.St();
    CheckpointSegments(sm, st);
    CheckpointMountable(s);
    DiskRestored(s, DiskOf(st));
    MountSegments(m, st.table, st.journal, sm.logs);
  }
}
