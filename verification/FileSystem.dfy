/**
 * Node manager, segment manager and checkpoint writer together: one
 * write_checkpoint from memory to disk, and what a mount finds before, after
 * and at every moment of it.
 */
module FileSystem {
  import opened Common
  import opened Shadow
  import N = Nat
  import M = NodeManager
  import F = SitFlush
  import C = Checkpoint
  import P = Summary
  import SM = SegmentModel
  import SegmentSafety
  import G = SegmentManager
  import SegmentMount
  import S = SegmentStore
  import R = Recovery

  type Raw = SegmentMount.RawEntry
  type Disk = C.Disk<N.NatVal, Raw>
  type Pack = C.Ckpt<N.NatVal, Raw>
  type Body = C.Body<N.NatVal, Raw>
  type Volume = C.Mounted<N.NatVal, Raw>

  /** The tables, journals and logs that the last checkpoint recorded, as memory has them. */
  ghost function Recorded(m: M.Manager, st: F.SitStore<Raw>, s: C.State<N.NatVal, Raw>): (v: Volume)
    reads m, st
  {
    C.Mounted(s.cur.head.ver, m.table, m.journal, st.table, st.journal, s.cur.head.logs)
  }

  /** `v` is what checkpoint `c` recorded, its tables perhaps in blocks that the checkpoint's bits do not use. */
  ghost predicate Records(c: Pack, v: Volume) {
    && 0 < c.head.natAt <= |c.bodies| && c.bodies[c.head.natAt - 1].Summary?
    && 0 < c.head.sitAt <= |c.bodies| && c.bodies[c.head.sitAt - 1].Summary?
    && v.ver == c.head.ver && v.logs == c.head.logs
    && v.natJ == C.NatJournal(c) && v.sitJ == C.SitJournal(c)
    && TableOk(v.nat_, N.NAT_ENTRY_PER_BLOCK) && C.SameCurrent(c.nat_, v.nat_)
    && TableOk(v.sit, F.SIT_ENTRY_PER_BLOCK) && C.SameCurrent(c.sit, v.sit)
  }

  /** Tables and journals in memory are those of the last checkpoint on disk. */
  ghost predicate InStep(m: M.Manager, st: F.SitStore<Raw>, s: C.State<N.NatVal, Raw>)
    reads m, st
  {
    && s.phase.Idle?
    && s.disk.perNat == N.NAT_ENTRY_PER_BLOCK && s.disk.perSit == F.SIT_ENTRY_PER_BLOCK
    && m.table == C.NatNow(s.disk, s.cur) && st.table == C.SitNow(s.disk, s.cur)
    && Records(s.cur, Recorded(m, st, s))
  }

  ghost predicate MountsAs(d: Disk, v: Volume) {
    |d.slots| == 2 && C.Mount(d) == Some(v)
  }

  /** A mount of this disk has the version and logs of `v` and reads every entry as `v` gives it. */
  ghost predicate ReadsAs(d: Disk, v: Volume) {
    && |d.slots| == 2 && C.Mount(d).Some?
    && var r := C.Mount(d).value;
       && r.ver == v.ver && r.logs == v.logs
       && TableOk(r.nat_, N.NAT_ENTRY_PER_BLOCK) && TableOk(v.nat_, N.NAT_ENTRY_PER_BLOCK)
       && TableOk(r.sit, F.SIT_ENTRY_PER_BLOCK) && TableOk(v.sit, F.SIT_ENTRY_PER_BLOCK)
       && (forall n :: N.InRange(v.nat_, n) ==>
            N.InRange(r.nat_, n) && N.Persist(r.nat_, r.natJ, n) == N.Persist(v.nat_, v.natJ, n))
       && (forall x: nat :: F.BlockOf(x) < |v.sit.copy0| ==>
            F.BlockOf(x) < |r.sit.copy0| && F.Persist(r.sit, r.sitJ, x) == F.Persist(v.sit, v.sitJ, x))
  }

  // ---- packs ----

  /** The blocks between the two heads of a pack of this layout: payload with the SIT bits, orphans, the data
      summaries, of which the first stands for those with the journals, and the other summaries. */
  function Bodies(c: P.Config, bits: set<nat>, natJ: Journal<N.NatVal>, sitJ: Journal<Raw>): (r: seq<Body>)
    requires P.ConfigOk(c)
    ensures |r| + 2 == P.Total(c)
    ensures r[P.StartSum(c) - 1] == C.Summary(natJ, sitJ) && (c.payload > 0 ==> r[0] == C.Payload(bits))
  {
    P.TotalForward(c);
    seq(c.payload, i => if i == 0 then C.Payload(bits) else C.Plain)
    + seq(c.orphans, i => C.Plain) + [C.Summary(natJ, sitJ)] + seq(P.Total(c) - P.StartSum(c) - 2, i => C.Plain)
  }

  /** The pack that records `v`. */
  function MakePack(v: Volume, c: P.Config): (r: Pack)
    requires P.ConfigOk(c)
  {
    var at := P.StartSum(c);
    C.Ckpt(C.Head(v.ver, P.Total(c), v.nat_.bitmap, v.sit.bitmap, c.payload > 0, at, at, v.logs),
      Bodies(c, v.sit.bitmap, v.natJ, v.sitJ), v.nat_, v.sit)
  }

  lemma MakePackOk(v: Volume, c: P.Config, slotLen: nat)
    requires P.ConfigOk(c) && P.Total(c) <= slotLen
    ensures var k := MakePack(v, c);
      C.CkptOk(k, slotLen) && C.NatJournal(k) == v.natJ && C.SitJournal(k) == v.sitJ
  {
  }

  /** A pack of this layout fits its slot; Summary.AllPacksFit says when every pack does. */
  ghost predicate HasRoom(s: C.State<N.NatVal, Raw>, c: P.Config) {
    P.ConfigOk(c) && |s.disk.slots| == 2 && P.Total(c) <= |s.disk.slots[0]|
  }

  ghost predicate NatFlushed(a: N.State, b: N.State) {
    TableOk(a.table, N.NAT_ENTRY_PER_BLOCK) && N.FlushStep(a, b)
  }

  // ---- mounting ----

  /** A disk in order reads as its last checkpoint recorded. */
  lemma MountReads(s: C.State<N.NatVal, Raw>, v: Volume)
    requires C.Inv(s) && s.disk.perNat == N.NAT_ENTRY_PER_BLOCK && s.disk.perSit == F.SIT_ENTRY_PER_BLOCK
    requires Records(s.cur, v)
    ensures ReadsAs(s.disk, v)
  {
    C.MountsCurrent(s);
    C.ChoosesCurrent(s);
    var r := C.Mount(s.disk).value;
    forall n | N.InRange(v.nat_, n)
      ensures N.InRange(r.nat_, n) && N.Persist(r.nat_, r.natJ, n) == N.Persist(v.nat_, v.natJ, n)
    {
      C.SameLookup(s.cur.nat_, r.nat_, r.natJ, N.NAT_ENTRY_PER_BLOCK, n);
      C.SameLookup(s.cur.nat_, v.nat_, r.natJ, N.NAT_ENTRY_PER_BLOCK, n);
    }
    forall x: nat | F.BlockOf(x) < |v.sit.copy0|
      ensures F.BlockOf(x) < |r.sit.copy0| && F.Persist(r.sit, r.sitJ, x) == F.Persist(v.sit, v.sitJ, x)
    {
      C.SameLookup(s.cur.sit, r.sit, r.sitJ, F.SIT_ENTRY_PER_BLOCK, x);
      C.SameLookup(s.cur.sit, v.sit, r.sitJ, F.SIT_ENTRY_PER_BLOCK, x);
    }
  }

  /** With memory and disk in step a mount rebuilds exactly the tables, journals and logs in memory. */
  lemma MountsRecorded(m: M.Manager, st: F.SitStore<Raw>, s: C.State<N.NatVal, Raw>)
    requires C.Inv(s) && InStep(m, st, s)
    ensures MountsAs(s.disk, Recorded(m, st, s))
  {
    C.MountsCurrent(s);
    C.ChoosesCurrent(s);
  }

  // ---- write_checkpoint ----

  /** The changed blocks and the pack of `v` become durable, and the checkpoint current. */
  method WriteTables(v: Volume, w: C.Writer<N.NatVal, Raw>, c: P.Config)
    requires w.Valid() && w.s.phase.Idle? && v.ver == w.s.cur.head.ver + 1
    requires TableOk(v.nat_, w.s.disk.perNat) && Shadowed(C.NatNow(w.s.disk, w.s.cur), v.nat_)
    requires TableOk(v.sit, w.s.disk.perSit) && Shadowed(C.SitNow(w.s.disk, w.s.cur), v.sit)
    requires HasRoom(w.s, c)
    modifies w
    ensures w.Valid() && w.s.phase.Idle? && old(w.trace) <= w.trace
    ensures w.s.cur.head.ver == v.ver && w.s.cur.head.logs == v.logs && C.CkptOk(w.s.cur, |w.s.disk.slots[0]|)
    ensures C.NatNow(w.s.disk, w.s.cur) == v.nat_ && C.NatJournal(w.s.cur) == v.natJ
    ensures C.SitNow(w.s.disk, w.s.cur) == v.sit && C.SitJournal(w.s.cur) == v.sitJ
    ensures w.s.disk.perNat == old(w.s.disk.perNat) && w.s.disk.perSit == old(w.s.disk.perSit)
  {
    MakePackOk(v, c, |w.s.disk.slots[0]|);
    w.WriteCheckpoint(MakePack(v, c));
  }

  /** Everything a crash on the way from step `a` to step `b` of a run may leave reads as `u` or as `v`. */
  ghost predicate OldOrNew(trace: seq<C.State<N.NatVal, Raw>>, a: nat, u: Volume, v: Volume) {
    forall k, r :: a <= k < |trace| && C.Interrupted(trace[k], r) ==> ReadsAs(r.disk, u) || ReadsAs(r.disk, v)
  }

  lemma EitherWay(trace: seq<C.State<N.NatVal, Raw>>, ops: seq<C.Op<N.NatVal, Raw>>, a: nat, u: Volume, v: Volume)
    requires C.Run(trace, ops) && a <= |ops| && trace[|ops|].cur.head.ver == trace[a].cur.head.ver + 1
    requires trace[a].disk.perNat == N.NAT_ENTRY_PER_BLOCK && trace[a].disk.perSit == F.SIT_ENTRY_PER_BLOCK
    requires Records(trace[a].cur, u) && Records(trace[|ops|].cur, v)
    ensures OldOrNew(trace, a, u, v)
  {
    forall k, r | a <= k < |trace| && C.Interrupted(trace[k], r) ensures ReadsAs(r.disk, u) || ReadsAs(r.disk, v) {
      C.OneOfTwo(trace, ops, a, k, |ops|, r);
      if r.cur == trace[a].cur { MountReads(r, u); } else { MountReads(r, v); }
    }
  }

  /** Tables and journals in memory go to disk, on top of a checkpoint that recorded `u`. */
  method WriteFlushed(m: M.Manager, st: F.SitStore<Raw>, logs: seq<SM.Log>, w: C.Writer<N.NatVal, Raw>,
                      c: P.Config, ghost u: Volume)
    requires w.Valid() && w.s.phase.Idle? && Records(w.s.cur, u)
    requires w.s.disk.perNat == N.NAT_ENTRY_PER_BLOCK && w.s.disk.perSit == F.SIT_ENTRY_PER_BLOCK
    requires TableOk(m.table, N.NAT_ENTRY_PER_BLOCK) && Shadowed(C.NatNow(w.s.disk, w.s.cur), m.table)
    requires TableOk(st.table, F.SIT_ENTRY_PER_BLOCK) && Shadowed(C.SitNow(w.s.disk, w.s.cur), st.table)
    requires HasRoom(w.s, c)
    modifies w
    ensures w.Valid() && InStep(m, st, w.s) && MountsAs(w.s.disk, Recorded(m, st, w.s)) && old(w.trace) <= w.trace
    ensures w.s.cur.head.ver == old(w.s.cur.head.ver) + 1 && w.s.cur.head.logs == logs
    ensures |old(w.trace)| > 0 && OldOrNew(w.trace, |old(w.trace)| - 1, u, Recorded(m, st, w.s))
  {
    ghost var a := |w.ops|;
    WriteTables(C.Mounted(w.s.cur.head.ver + 1, m.table, m.journal, st.table, st.journal, logs), w, c);
    MountsRecorded(m, st, w.s);
    EitherWay(w.trace, w.ops, a, u, Recorded(m, st, w.s));
  }

  /** flush_nat_entries_per_core, then flush_sit_entries */
  method FlushTables(m: M.Manager, sm: G.Manager, st: F.SitStore<Raw>)
    requires m.Valid() && N.NoDirtyPlaceholder(m.Abs())
    requires sm.Valid() && S.Matches(sm.St(), S.DiskOf(st))
    modifies m, sm`sit, sm`free, st
    ensures m.Valid() && NatFlushed(old(m.Abs()), m.Abs())
    ensures TableOk(m.table, N.NAT_ENTRY_PER_BLOCK) && Shadowed(old(m.table), m.table)
    ensures S.Flushed(old(sm.St()), sm.St())
    ensures S.Persists(old(sm.St()), old(S.DiskOf(st)), SegmentSafety.Ckpt, S.DiskOf(st))
    ensures TableOk(st.table, F.SIT_ENTRY_PER_BLOCK) && Shadowed(old(st.table), st.table)
  {
    m.FlushNatEntries();
    S.FlushSegments(sm, st);
  }

  /** write_checkpoint up to the last pack block */
  method FlushAndWrite(m: M.Manager, sm: G.Manager, st: F.SitStore<Raw>, w: C.Writer<N.NatVal, Raw>, c: P.Config)
    requires m.Valid() && N.NoDirtyPlaceholder(m.Abs())
    requires sm.Valid() && S.Matches(sm.St(), S.DiskOf(st))
    requires w.Valid() && InStep(m, st, w.s)
    requires HasRoom(w.s, c)
    modifies m, sm`sit, sm`free, st, w
    ensures m.Valid() && NatFlushed(old(m.Abs()), m.Abs())
    ensures S.Flushed(old(sm.St()), sm.St())
    ensures S.Persists(old(sm.St()), old(S.DiskOf(st)), SegmentSafety.Ckpt, S.DiskOf(st))
    ensures w.Valid() && InStep(m, st, w.s) && MountsAs(w.s.disk, Recorded(m, st, w.s)) && old(w.trace) <= w.trace
    ensures w.s.cur.head.ver == old(w.s.cur.head.ver) + 1 && w.s.cur.head.logs == sm.logs
    ensures |old(w.trace)| > 0 && OldOrNew(w.trace, |old(w.trace)| - 1, old(Recorded(m, st, w.s)), Recorded(m, st, w.s))
  {
    ghost var u := Recorded(m, st, w.s);
    FlushTables(m, sm, st);
    WriteFlushed(m, st, sm.logs, w, c, u);
  }

  /**
   * write_checkpoint from start to end: NAT flush, SIT flush, changed blocks,
   * pack, and the prefree segments at last.  Memory and disk are in step
   * again, so that a mount rebuilds exactly what memory has recorded; that
   * gives every nid the meaning and every segment the entry it had before.
   * And wherever on the way a crash falls, torn block or not, a mount gives
   * either the previous checkpoint, entry by entry, or this one.
   */
  method WriteCheckpoint(m: M.Manager, sm: G.Manager, st: F.SitStore<Raw>, w: C.Writer<N.NatVal, Raw>,
                         c: P.Config)
    requires m.Valid() && N.NoDirtyPlaceholder(m.Abs())
    requires sm.Valid() && S.Matches(sm.St(), S.DiskOf(st))
    requires w.Valid() && InStep(m, st, w.s)
    requires HasRoom(w.s, c)
    modifies m, sm`sit, sm`free, sm`lists, st, w
    ensures m.Valid() && NatFlushed(old(m.Abs()), m.Abs())
    ensures sm.Valid() && sm.St() == SM.Checkpoint(old(sm.St())) && S.Matches(sm.St(), S.DiskOf(st))
    ensures S.Persists(old(sm.St()), old(S.DiskOf(st)), SegmentSafety.Ckpt, S.DiskOf(st))
    ensures w.Valid() && InStep(m, st, w.s) && MountsAs(w.s.disk, Recorded(m, st, w.s)) && old(w.trace) <= w.trace
    ensures w.s.cur.head.ver == old(w.s.cur.head.ver) + 1 && w.s.cur.head.logs == sm.logs
    ensures |old(w.trace)| > 0 && OldOrNew(w.trace, |old(w.trace)| - 1, old(Recorded(m, st, w.s)), Recorded(m, st, w.s))
  {
    ghost var s, d := sm.St(), S.DiskOf(st);
    FlushAndWrite(m, sm, st, w, c);
    S.FinishCheckpoint(sm, s, d, S.DiskOf(st));
  }

  /** The checkpoint that WriteCheckpoint leaves current records the entries and logs memory had:
      it is one that the runs of Recovery start. */
  lemma CheckpointRecords(m: M.Manager, st: F.SitStore<Raw>, s: C.State<N.NatVal, Raw>, mem: SM.State, d: S.Store)
    requires C.Inv(s) && InStep(m, st, s) && s.cur.head.logs == mem.logs
    requires SegmentSafety.Inv(mem) && S.Matches(mem, d) && S.Persists(mem, d, SegmentSafety.Ckpt, S.DiskOf(st))
    ensures R.Records(s.cur, mem)
  {
    S.AllWritten(mem, d, S.DiskOf(st));
    S.InvCounted(mem);
    forall x: nat | x < mem.g.segs
      ensures F.BlockOf(x) < |s.cur.sit.copy0|
      ensures F.Persist(s.cur.sit, C.SitJournal(s.cur), x) == SegmentMount.ToRaw(mem.sit.entries[x])
    {
      assert F.BlockOf(x) < |st.table.copy0|;
      C.SameLookup(s.cur.sit, st.table, st.journal, F.SIT_ENTRY_PER_BLOCK, x);
      assert F.Persist(st.table, st.journal, x) == S.RawVals(mem.sit)[x];
    }
  }

  /**
   * A checkpoint and a mount from the disk alone.  Every nid means what it
   * meant in memory, the new segment manager has every map, count and type,
   * and it is safe to allocate from exactly when no log lost an SSR mode.
   */
  method CheckpointAndMount(m: M.Manager, sm: G.Manager, st: F.SitStore<Raw>, w: C.Writer<N.NatVal, Raw>,
                            c: P.Config, mounted: G.Manager) returns (v: Volume)
    requires m.Valid() && N.NoDirtyPlaceholder(m.Abs())
    requires sm.Valid() && S.Matches(sm.St(), S.DiskOf(st))
    requires w.Valid() && InStep(m, st, w.s)
    requires HasRoom(w.s, c)
    requires mounted != sm && mounted.g == sm.g
    modifies m, sm`sit, sm`free, sm`lists, st, w, mounted
    ensures MountsAs(w.s.disk, v)
    ensures ReadsView(v, old(m.Abs()))
    ensures S.Remembers(old(sm.St()), mounted.sit.entries) && mounted.logs == SegmentMount.RestoreLogs(old(sm.logs))
    ensures mounted.Valid() <==> SegmentMount.ModesSafe(old(sm.St()))
  {
    ghost var s := sm.St();
    WriteCheckpoint(m, sm, st, w, c);
    v := C.Mount(w.s.disk).value;
    FlushedView(old(m.Abs()), m.Abs(), v);
    MountVolume(v, mounted, s);
  }

  /** The NAT of the volume gives every nid the meaning it had in `a`. */
  ghost predicate ReadsView(v: Volume, a: N.State) {
    && TableOk(v.nat_, N.NAT_ENTRY_PER_BLOCK) && TableOk(a.table, N.NAT_ENTRY_PER_BLOCK)
    && |v.nat_.copy0| == |a.table.copy0|
    && forall n :: N.InRange(v.nat_, n) ==> N.Persist(v.nat_, v.natJ, n) == N.View(a, n)
  }

  lemma FlushedView(a: N.State, b: N.State, v: Volume)
    requires NatFlushed(a, b) && v.nat_ == b.table && v.natJ == b.journal
    ensures ReadsView(v, a)
  {
  }

  /** The segment manager of a volume that a checkpoint of `s` left. */
  method MountVolume(v: Volume, mounted: G.Manager, ghost s: SM.State)
    requires SegmentSafety.Inv(s) && mounted.g == s.g && v.logs == s.logs
    requires S.Matches(SM.Checkpoint(s), S.Store(v.sit, v.sitJ))
    modifies mounted
    ensures S.Remembers(s, mounted.sit.entries) && mounted.logs == SegmentMount.RestoreLogs(s.logs)
    ensures mounted.Valid() <==> SegmentMount.ModesSafe(s)
  {
    SegmentMount.CheckpointMountable(s);
    S.DiskRestored(s, S.Store(v.sit, v.sitJ));
    S.MountSegments(mounted, v.sit, v.sitJ, v.logs);
  }
}
