/**
 * The segment manager and the disk over many checkpoints, crashes and mounts.
 *
 * Memory and disk are one machine here: operations change memory, a checkpoint
 * writes blocks one at a time while operations wait, and a crash at any moment
 * throws memory away and mounts again from what the disk holds.
 */
module Recovery {
  import opened Common
  import opened Shadow
  import opened SegmentModel
  import opened SegmentSafety
  import opened SegmentMount
  import N = Nat
  import F = SitFlush
  import C = Checkpoint

  type Volume = C.State<N.NatVal, RawEntry>
  type Pack = C.Ckpt<N.NatVal, RawEntry>
  type Io = C.Op<N.NatVal, RawEntry>

  /** `handed` are the blocks handed out since the last complete checkpoint, crashes or not. */
  datatype Sys = Sys(mem: State, disk: Volume, handed: set<Blk>)

  datatype Event =
    | Work(op: Op)                                  // an operation of the segment manager
    | Start(next: Pack)                             // write_checkpoint, with both tables flushed
    | Write(io: Io)                                 // one block, or the end of the table blocks
    | Fail(after: Volume, mounted: State)           // crash and mount

  // ---- what a checkpoint says about segments ----

  /** The checkpoint has a readable SIT entry for every one of `segs` segments. */
  ghost predicate HasEntries(c: Pack, segs: nat) {
    && 0 < c.head.sitAt <= |c.bodies| && c.bodies[c.head.sitAt - 1].Summary?
    && TableOk(c.sit, F.SIT_ENTRY_PER_BLOCK) && forall x: nat :: x < segs ==> F.BlockOf(x) < |c.sit.copy0|
  }

  ghost function EntryIn(c: Pack, segs: nat, x: nat): (e: Entry)
    requires HasEntries(c, segs) && x < segs
  {
    assert F.BlockOf(x) < |c.sit.copy0|;
    FromRaw(F.Persist(c.sit, C.SitJournal(c), x))
  }

  ghost function EntriesIn(c: Pack, segs: nat): (r: seq<Entry>)
    requires HasEntries(c, segs)
  {
    seq(segs, x requires 0 <= x < segs => EntryIn(c, segs, x))
  }

  /** The checkpoint records the entries and logs in memory. */
  ghost predicate Records(c: Pack, s: State) {
    && Shape(s) && HasEntries(c, s.g.segs) && c.head.logs == s.logs
    && forall x :: 0 <= x < s.g.segs ==>
         s.sit.entries[x].valid >= 0 && EntryIn(c, s.g.segs, x) == FromRaw(ToRaw(s.sit.entries[x]))
  }

  /** What a mount of this disk reads for a segment. */
  ghost predicate ReadsEntry(d: C.Disk<N.NatVal, RawEntry>, x: nat, e: Entry) {
    && |d.slots| == 2 && C.Mount(d).Some?
    && var v := C.Mount(d).value;
       && TableOk(v.sit, F.SIT_ENTRY_PER_BLOCK) && F.BlockOf(x) < |v.sit.copy0|
       && FromRaw(F.Persist(v.sit, v.sitJ, x)) == e
  }

  /** `m` is what mounting this disk builds. */
  ghost predicate MountedFrom(d: C.Disk<N.NatVal, RawEntry>, g: Geometry, m: State) {
    && m.g == g && |m.sit.entries| == g.segs
    && |d.slots| == 2 && C.Mount(d).Some? && m.logs == RestoreLogs(C.Mount(d).value.logs)
    && (forall x :: 0 <= x < g.segs ==> ReadsEntry(d, x, m.sit.entries[x]))
    && SitBuilt(g, m.sit, m.sit.entries)
    && FreeBuilt(g, m.free, m.sit.entries, m.logs)
    && ListsBuilt(g, m.lists, m.free, m.sit.entries, m.logs)
  }

  // ---- the machine ----

  ghost predicate Step(s: Sys, e: Event, r: Sys)
    requires Shape(s.mem) && C.DiskOk(s.disk.disk)
  {
    match e
    case Work(op) =>
      && s.disk.phase.Idle? && op != Ckpt && OpOk(s.mem, op)
      && r == Sys(Do(s.mem, op), s.disk, if op.Alloc? then s.handed + {Handed(s.mem, op)} else s.handed)
    case Start(next) =>
      C.Step(s.disk, C.Begin(next), r.disk) && Records(next, s.mem) && r.mem == s.mem && r.handed == s.handed
    case Write(io) =>
      && (io.WriteNat? || io.WriteSit? || io.MetaDone? || io.WritePack?) && C.Step(s.disk, io, r.disk)
      && if r.disk.phase.Idle? then r.mem == Checkpoint(s.mem) && r.handed == {} else r.mem == s.mem && r.handed == s.handed
    case Fail(after, mounted) =>
      && C.Interrupted(s.disk, after) && MountedFrom(after.disk, s.mem.g, mounted)
      && r == Sys(mounted, after, s.handed)
  }

  /** The checkpoint under way, if any, records what is in memory. */
  ghost predicate NextOk(s: Sys) {
    match s.disk.phase
    case Idle => true
    case Meta(next) => Records(next, s.mem)
    case Packing(next, i) => Records(next, s.mem)
  }

  /** The last checkpoint can be mounted, and its maps are the checkpointed maps in memory. */
  ghost predicate CurOk(c: Pack, s: State)
    requires Shape(s)
  {
    && HasEntries(c, s.g.segs) && Readable(s.g, EntriesIn(c, s.g.segs), RestoreLogs(c.head.logs))
    && forall x :: 0 <= x < s.g.segs ==> EntryIn(c, s.g.segs, x).cur == s.sit.entries[x].ckpt
  }

  ghost predicate HandedOk(handed: set<Blk>, s: State)
    requires Shape(s)
  {
    forall b :: b in handed ==> InMain(s.g, b) && b.off !in s.sit.entries[b.seg].ckpt
  }

  ghost predicate SysInv(s: Sys) {
    && Inv(s.mem) && C.Inv(s.disk) && s.disk.disk.perSit == F.SIT_ENTRY_PER_BLOCK
    && CurOk(s.disk.cur, s.mem) && NextOk(s) && HandedOk(s.handed, s.mem)
  }

  // ---- every step keeps it ----

  lemma HandedFresh(s: State, op: Op)
    requires Inv(s) && OpOk(s, op) && op.Alloc?
    ensures var b := Handed(s, op); InMain(s.g, b) && b.off !in s.sit.entries[b.seg].ckpt
  {
    AllocationSafe([s, Do(s, op)], [op], 0);
  }

  lemma WorkInv(s: Sys, op: Op, r: Sys)
    requires SysInv(s) && Step(s, Work(op), r)
    ensures SysInv(r)
  {
    WorkMem(s.mem, s.disk.cur, s.handed, op);
  }

  lemma WorkMem(s: State, c: Pack, handed: set<Blk>, op: Op)
    requires Inv(s) && CurOk(c, s) && HandedOk(handed, s) && OpOk(s, op) && op != Ckpt
    ensures Inv(Do(s, op)) && CurOk(c, Do(s, op))
    ensures HandedOk(if op.Alloc? then handed + {Handed(s, op)} else handed, Do(s, op))
  {
    DoInv(s, op);
    WorkKeeps(s, op);
    if op.Alloc? {
      HandedFresh(s, op);
    }
    CurStays(c, if op.Alloc? then handed + {Handed(s, op)} else handed, s, Do(s, op));
  }

  ghost predicate SameCkpt(s: State, r: State) {
    && s.g == r.g && |s.sit.entries| == |r.sit.entries| == s.g.segs
    && forall x :: 0 <= x < s.g.segs ==> r.sit.entries[x].ckpt == s.sit.entries[x].ckpt
  }

  lemma WorkKeeps(s: State, op: Op)
    requires Inv(s) && OpOk(s, op) && op != Ckpt
    ensures SameCkpt(s, Do(s, op))
  {
    CkptMap(s, op, 0);
    forall x | 0 <= x < s.g.segs ensures Do(s, op).sit.entries[x].ckpt == s.sit.entries[x].ckpt {
      CkptMap(s, op, x);
    }
  }

  lemma CurStays(c: Pack, handed: set<Blk>, s: State, r: State)
    requires Shape(s) && Shape(r) && SameCkpt(s, r) && CurOk(c, s) && HandedOk(handed, s)
    ensures CurOk(c, r) && HandedOk(handed, r)
  {
  }

  lemma StartInv(s: Sys, next: Pack, r: Sys)
    requires SysInv(s) && Step(s, Start(next), r)
    ensures SysInv(r)
  {
    C.StepInv(s.disk, C.Begin(next), r.disk);
  }

  /** Until the last pack block, writing changes nothing a mount would find. */
  lemma WriteInv(s: Sys, io: Io, r: Sys)
    requires SysInv(s) && Step(s, Write(io), r) && !r.disk.phase.Idle?
    ensures SysInv(r)
  {
    C.StepInv(s.disk, io, r.disk);
    C.StepSizes(s.disk, io, r.disk);
  }

  /** The last pack block: what was recorded is now the last checkpoint, and memory takes its checkpoint step. */
  lemma CommitInv(s: Sys, io: Io, r: Sys)
    requires SysInv(s) && Step(s, Write(io), r) && r.disk.phase.Idle?
    ensures SysInv(r)
  {
    C.StepInv(s.disk, io, r.disk);
    C.StepSizes(s.disk, io, r.disk);
    CheckpointInv(s.mem);
    RecordedCur(r.disk.cur, s.mem);
  }

  lemma RecordedCur(c: Pack, s: State)
    requires Inv(s) && Inv(Checkpoint(s)) && Records(c, s)
    ensures CurOk(c, Checkpoint(s))
  {
    var m := EntriesIn(c, s.g.segs);
    forall x | 0 <= x < s.g.segs
      ensures RestoredEntry(s.sit.entries[x], m[x]) && Checkpoint(s).sit.entries[x].ckpt == m[x].cur
    {
      RawEntryOk(s.sit.entries[x]);
      CkptMap(s, Ckpt, x);
    }
    EntriesReadable(s, m);
  }

  /** A mount after a crash reads the entries of the last checkpoint. */
  lemma ReadsCur(d: Volume, segs: nat, x: nat)
    requires C.Inv(d) && d.disk.perSit == F.SIT_ENTRY_PER_BLOCK && HasEntries(d.cur, segs) && x < segs
    ensures ReadsEntry(d.disk, x, EntryIn(d.cur, segs, x))
  {
    C.MountsCurrent(d);
    C.ChoosesCurrent(d);
    assert F.BlockOf(x) < |d.cur.sit.copy0|;
    C.SameLookup(d.cur.sit, C.Mount(d.disk).value.sit, C.SitJournal(d.cur), F.SIT_ENTRY_PER_BLOCK, x);
  }

  lemma FailInv(s: Sys, after: Volume, m: State, r: Sys)
    requires SysInv(s) && Step(s, Fail(after, m), r) && HeadsFree(m.sit.entries, m.logs)
    ensures SysInv(r)
  {
    C.InterruptedInv(s.disk, after);
    MountedCur(after, s.mem.g, m);
    FailMem(s.mem, after.cur, s.handed, m);
  }

  lemma FailMem(s: State, c: Pack, handed: set<Blk>, m: State)
    requires Shape(s) && CurOk(c, s) && HandedOk(handed, s) && m.g == s.g && HeadsFree(m.sit.entries, m.logs)
    requires m.sit.entries == EntriesIn(c, s.g.segs) && m.logs == RestoreLogs(c.head.logs)
    requires SitBuilt(m.g, m.sit, m.sit.entries) && FreeBuilt(m.g, m.free, m.sit.entries, m.logs)
    requires ListsBuilt(m.g, m.lists, m.free, m.sit.entries, m.logs)
    ensures Inv(m) && CurOk(c, m) && HandedOk(handed, m)
  {
    BuiltInv(m);
    forall x | 0 <= x < s.g.segs ensures m.sit.entries[x].ckpt == s.sit.entries[x].ckpt {
      assert EntryIn(c, s.g.segs, x).cur == s.sit.entries[x].ckpt;
    }
    CurStays(c, handed, s, m);
  }

  lemma MountedCur(d: Volume, g: Geometry, m: State)
    requires C.Inv(d) && d.disk.perSit == F.SIT_ENTRY_PER_BLOCK && HasEntries(d.cur, g.segs) && MountedFrom(d.disk, g, m)
    ensures m.sit.entries == EntriesIn(d.cur, g.segs) && m.logs == RestoreLogs(d.cur.head.logs)
  {
    C.MountsCurrent(d);
    forall x | 0 <= x < g.segs ensures m.sit.entries[x] == EntryIn(d.cur, g.segs, x) {
      ReadsCur(d, g.segs, x);
      assert ReadsEntry(d.disk, x, m.sit.entries[x]);
    }
  }

  lemma StepInv(s: Sys, e: Event, r: Sys)
    requires SysInv(s) && Step(s, e, r)
    requires e.Fail? ==> HeadsFree(e.mounted.sit.entries, e.mounted.logs)
    ensures SysInv(r)
  {
    match e {
      case Work(op) => WorkInv(s, op, r);
      case Start(next) => StartInv(s, next, r);
      case Write(io) => if r.disk.phase.Idle? { CommitInv(s, io, r); } else { WriteInv(s, io, r); }
      case Fail(after, m) => FailInv(s, after, m, r);
    }
  }

  // ---- runs ----

  ghost predicate Run(trace: seq<Sys>, events: seq<Event>) {
    && |trace| == |events| + 1 && SysInv(trace[0])
    && forall k :: 0 <= k < |events| ==>
         Shape(trace[k].mem) && C.DiskOk(trace[k].disk.disk) && Step(trace[k], events[k], trace[k + 1])
  }

  /** Every mount of the run left each log on free blocks (SegmentMount.ModesSafe says when it does). */
  ghost predicate SafeMounts(events: seq<Event>) {
    forall k :: 0 <= k < |events| && events[k].Fail? ==> HeadsFree(events[k].mounted.sit.entries, events[k].mounted.logs)
  }

  lemma {:induction false} RunInv(trace: seq<Sys>, events: seq<Event>, k: nat)
    requires Run(trace, events) && SafeMounts(events) && k <= |events|
    ensures SysInv(trace[k])
  {
    if k > 0 {
      RunInv(trace, events, k - 1);
      StepInv(trace[k - 1], events[k - 1], trace[k]);
    }
  }

  /**
   * Over any number of checkpoints, crashes and mounts: at every moment, and
   * after a crash at that moment, torn block or not, no block that a mount
   * reads as valid has been handed out since the checkpoint it mounts.  So no
   * data of that checkpoint has been overwritten.
   */
  lemma NothingOverwritten(trace: seq<Sys>, events: seq<Event>, k: nat, after: Volume, b: Blk)
    requires Run(trace, events) && SafeMounts(events) && k <= |events|
    requires after == trace[k].disk || C.Interrupted(trace[k].disk, after)
    requires b in trace[k].handed
    ensures exists e :: ReadsEntry(after.disk, b.seg, e) && b.off !in e.cur
  {
    RunInv(trace, events, k);
    if after != trace[k].disk {
      C.InterruptedInv(trace[k].disk, after);
    }
    var segs := trace[k].mem.g.segs;
    assert InMain(trace[k].mem.g, b);
    ReadsCur(after, segs, b.seg);
    assert b.off !in EntryIn(after.cur, segs, b.seg).cur;
  }
}
