/**
 * Checkpoints and crashes.
 *
 * A checkpoint first makes the changed NAT and SIT blocks durable, each in the
 * place its previous version does not use, and then writes one of two packs
 * block by block: a head, the body (payload, orphans, summaries with the two
 * journals), and the head again.  A mount picks the newest pack whose first
 * and last block carry the same version.  The state machine here lets a crash
 * fall between any two block writes, or into one.
 */
module Checkpoint {
  import opened Common
  import opened Shadow
  import SegmentModel

  /** The checkpoint block: `bodyBits` says the SIT bits are in the first payload block; `logs` are
      cur_data_segno, cur_data_blkoff, their counterparts for nodes, and alloc_type. */
  datatype Head = Head(
    ver: nat, total: nat, natBits: set<nat>, sitBits: set<nat>, bodyBits: bool, natAt: nat, sitAt: nat,
    logs: seq<SegmentModel.Log>)

  /** A block between the two heads. */
  datatype Body<N, S> = Payload(bits: set<nat>) | Summary(natJ: Journal<N>, sitJ: Journal<S>) | Plain

  /** A block of the checkpoint area.  A torn head is not a head: its checksum fails. */
  datatype Block<N, S> = First(head: Head) | Inner(body: Body<N, S>) | Torn

  /** The two copies of NAT and SIT, with the entries each block holds, and the two pack slots. */
  datatype Disk<N, S> = Disk(perNat: nat, nat0: seq<seq<N>>, nat1: seq<seq<N>>,
                             perSit: nat, sit0: seq<seq<S>>, sit1: seq<seq<S>>,
                             slots: seq<seq<Block<N, S>>>)

  /** Everything a checkpoint stands for. */
  datatype Ckpt<N, S> = Ckpt(head: Head, bodies: seq<Body<N, S>>, nat_: Table<N>, sit: Table<S>)

  // ---- reading a pack ----

  function SlotOf(ver: nat): (r: nat) {
    if ver % 2 == 1 then 0 else 1
  }

  /** ver_after: the sign of a 64-bit difference */
  predicate VerAfter(a: nat, b: nat) {
    0 < (a - b) % 0x1_0000_0000_0000_0000 < 0x8000_0000_0000_0000
  }

  /** validate_checkpoint */
  function Validate<N, S>(slot: seq<Block<N, S>>): (r: Option<Head>) {
    if |slot| > 0 && slot[0].First? then
      var h := slot[0].head;
      if 0 < h.total <= |slot| && slot[h.total - 1].First? && slot[h.total - 1].head.ver == h.ver
      then Some(h) else None
    else None
  }

  /** get_valid_checkpoint: which slot a mount uses */
  function Choose<N, S>(slots: seq<seq<Block<N, S>>>): (r: Option<nat>)
    requires |slots| == 2
  {
    var a, b := Validate(slots[0]), Validate(slots[1]);
    if a.Some? && b.Some? then Some(if VerAfter(b.value.ver, a.value.ver) then 1 else 0)
    else if a.Some? then Some(0)
    else if b.Some? then Some(1)
    else None
  }

  /** The SIT bits a mount reads: from the head, or from the payload block behind it. */
  function ReadSitBits<N, S>(slot: seq<Block<N, S>>, h: Head): (r: set<nat>) {
    if !h.bodyBits then h.sitBits
    else if |slot| > 1 && slot[1].Inner? && slot[1].body.Payload? then slot[1].body.bits else {}
  }

  function ReadNatJournal<N, S>(slot: seq<Block<N, S>>, h: Head): (r: Journal<N>) {
    if h.natAt < |slot| && slot[h.natAt].Inner? && slot[h.natAt].body.Summary? then slot[h.natAt].body.natJ else []
  }

  function ReadSitJournal<N, S>(slot: seq<Block<N, S>>, h: Head): (r: Journal<S>) {
    if h.sitAt < |slot| && slot[h.sitAt].Inner? && slot[h.sitAt].body.Summary? then slot[h.sitAt].body.sitJ else []
  }

  /** What a mount rebuilds. */
  datatype Mounted<N, S> = Mounted(
    ver: nat, nat_: Table<N>, natJ: Journal<N>, sit: Table<S>, sitJ: Journal<S>, logs: seq<SegmentModel.Log>)

  function Mount<N, S>(d: Disk<N, S>): (r: Option<Mounted<N, S>>)
    requires |d.slots| == 2
  {
    match Choose(d.slots)
    case None => None
    case Some(i) =>
      var h := Validate(d.slots[i]).value;
      Some(Mounted(h.ver,
        Table(d.nat0, d.nat1, h.natBits), ReadNatJournal(d.slots[i], h),
        Table(d.sit0, d.sit1, ReadSitBits(d.slots[i], h)), ReadSitJournal(d.slots[i], h), h.logs))
  }

  // ---- a checkpoint as written ----

  /** A checkpoint whose pack fits its slot and whose head describes it. */
  ghost predicate CkptOk<N, S>(c: Ckpt<N, S>, slotLen: nat) {
    && c.head.total == |c.bodies| + 2 <= slotLen
    && c.head.natBits == c.nat_.bitmap
    && (if c.head.bodyBits
        then |c.bodies| > 0 && c.bodies[0] == Payload(c.sit.bitmap)
        else c.head.sitBits == c.sit.bitmap)
    && 0 < c.head.natAt <= |c.bodies| && c.bodies[c.head.natAt - 1].Summary?
    && 0 < c.head.sitAt <= |c.bodies| && c.bodies[c.head.sitAt - 1].Summary?
  }

  function NatJournal<N, S>(c: Ckpt<N, S>): (r: Journal<N>)
    requires 0 < c.head.natAt <= |c.bodies| && c.bodies[c.head.natAt - 1].Summary?
  {
    c.bodies[c.head.natAt - 1].natJ
  }

  function SitJournal<N, S>(c: Ckpt<N, S>): (r: Journal<S>)
    requires 0 < c.head.sitAt <= |c.bodies| && c.bodies[c.head.sitAt - 1].Summary?
  {
    c.bodies[c.head.sitAt - 1].sitJ
  }

  /** Block `i` of the pack. */
  function PackBlock<N, S>(c: Ckpt<N, S>, i: nat): (r: Block<N, S>)
    requires i < |c.bodies| + 2
  {
    if i == 0 || i == |c.bodies| + 1 then First(c.head) else Inner(c.bodies[i - 1])
  }

  // ---- the machine ----

  /**
   * Idle: mounted, or down after a crash (the difference is only in memory).
   * Meta: a checkpoint is under way and some table blocks are still to be written.
   * Packing: the table blocks are durable and the first `i` pack blocks are.
   */
  datatype Phase<N, S> = Idle | Meta(next: Ckpt<N, S>) | Packing(next: Ckpt<N, S>, i: nat)

  /** `cur` is the last checkpoint whose pack is completely on disk. */
  datatype State<N, S> = State(disk: Disk<N, S>, cur: Ckpt<N, S>, phase: Phase<N, S>)

  datatype Op<N, S> =
    | Begin(next: Ckpt<N, S>)
    | WriteNat(b: nat, blk: seq<N>)
    | WriteSit(b: nat, sblk: seq<S>)
    | MetaDone
    | WritePack
    | TearPack
    | Crash

  /** The tables as a mount of `c` sees them on the present disk. */
  function NatNow<N, S>(d: Disk<N, S>, c: Ckpt<N, S>): (r: Table<N>) {
    Table(d.nat0, d.nat1, c.nat_.bitmap)
  }

  function SitNow<N, S>(d: Disk<N, S>, c: Ckpt<N, S>): (r: Table<S>) {
    Table(d.sit0, d.sit1, c.sit.bitmap)
  }

  /** Write block `b` in the place the bits do not use. */
  function WriteSpare<T>(t: Table<T>, b: nat, blk: seq<T>): (r: Table<T>)
    requires b < |t.copy0| == |t.copy1|
  {
    if b in t.bitmap then t.(copy0 := t.copy0[b := blk]) else t.(copy1 := t.copy1[b := blk])
  }

  function SetSlot<N, S>(d: Disk<N, S>, i: nat, at: nat, blk: Block<N, S>): (r: Disk<N, S>)
    requires i < |d.slots| && at < |d.slots[i]|
  {
    d.(slots := d.slots[i := d.slots[i][at := blk]])
  }

  ghost predicate DiskOk<N, S>(d: Disk<N, S>) {
    && TableOk(Table(d.nat0, d.nat1, {}), d.perNat) && TableOk(Table(d.sit0, d.sit1, {}), d.perSit)
    && |d.slots| == 2 && |d.slots[0]| == |d.slots[1]|
  }

  /** A table write replaces a whole block by another, whatever a torn write leaves in it. */
  ghost predicate Step<N, S>(s: State<N, S>, op: Op<N, S>, r: State<N, S>)
    requires DiskOk(s.disk)
  {
    match op
    case Begin(next) =>
      && s.phase.Idle?
      && next.head.ver == s.cur.head.ver + 1
      && CkptOk(next, |s.disk.slots[0]|)
      && TableOk(next.nat_, s.disk.perNat) && Shadowed(NatNow(s.disk, s.cur), next.nat_)
      && TableOk(next.sit, s.disk.perSit) && Shadowed(SitNow(s.disk, s.cur), next.sit)
      && r == s.(phase := Meta(next))
    case WriteNat(b, blk) =>
      && s.phase.Meta? && b < |s.disk.nat0| && |blk| == s.disk.perNat
      && var t := WriteSpare(NatNow(s.disk, s.cur), b, blk);
         r == s.(disk := s.disk.(nat0 := t.copy0, nat1 := t.copy1))
    case WriteSit(b, blk) =>
      && s.phase.Meta? && b < |s.disk.sit0| && |blk| == s.disk.perSit
      && var t := WriteSpare(SitNow(s.disk, s.cur), b, blk);
         r == s.(disk := s.disk.(sit0 := t.copy0, sit1 := t.copy1))
    case MetaDone =>
      && s.phase.Meta?
      && NatNow(s.disk, s.phase.next) == s.phase.next.nat_
      && SitNow(s.disk, s.phase.next) == s.phase.next.sit
      && r == s.(phase := Packing(s.phase.next, 0))
    case WritePack =>
      && s.phase.Packing? && s.phase.i < s.phase.next.head.total <= |s.disk.slots[0]|
      && s.phase.next.head.total == |s.phase.next.bodies| + 2
      && var next, i := s.phase.next, s.phase.i;
         var d := SetSlot(s.disk, SlotOf(next.head.ver), i, PackBlock(next, i));
         r == if i + 1 == next.head.total then State(d, next, Idle) else State(d, s.cur, Packing(next, i + 1))
    case TearPack =>
      && s.phase.Packing? && s.phase.i < |s.disk.slots[0]|
      && r == State(SetSlot(s.disk, SlotOf(s.phase.next.head.ver), s.phase.i, Torn), s.cur, Idle)
    case Crash => r == s.(phase := Idle)
  }

  // ---- the invariant ----

  /** The pack of `c` is on disk. */
  ghost predicate PackThere<N, S>(slot: seq<Block<N, S>>, c: Ckpt<N, S>) {
    && CkptOk(c, |slot|)
    && (forall i :: 0 <= i < |slot| && slot[i].First? ==> slot[i].head.ver <= c.head.ver)
    && forall i :: 0 <= i < |c.bodies| + 2 ==> slot[i] == PackBlock(c, i)
  }

  /** The other slot holds the pack before, or a broken one; old heads are only old. */
  ghost predicate OtherSlot<N, S>(slot: seq<Block<N, S>>, ver: nat) {
    && (|slot| > 0 && slot[0].First? ==>
          2 <= slot[0].head.total && (slot[0].head.ver == ver - 1 || slot[0].head.ver == ver + 1))
    && (forall i :: 0 < i < |slot| && slot[i].First? ==> slot[i].head.ver < ver)
  }

  /** Every block the bits of `t` use holds in `u` what it holds in `t`. */
  ghost predicate SameCurrent<T>(t: Table<T>, u: Table<T>) {
    && |t.copy0| == |t.copy1| == |u.copy0| == |u.copy1| && t.bitmap == u.bitmap
    && forall b :: 0 <= b < |t.copy0| ==> Current(t, b) == Current(u, b)
  }

  ghost predicate PhaseOk<N, S>(s: State<N, S>)
    requires DiskOk(s.disk)
  {
    match s.phase
    case Idle => true
    case Meta(next) => NextOk(s, next)
    case Packing(next, i) =>
      && NextOk(s, next)
      && i < next.head.total
      && SameCurrent(next.nat_, NatNow(s.disk, next)) && SameCurrent(next.sit, SitNow(s.disk, next))
      && forall k :: 0 <= k < i ==> s.disk.slots[SlotOf(next.head.ver)][k] == PackBlock(next, k)
  }

  ghost predicate NextOk<N, S>(s: State<N, S>, next: Ckpt<N, S>)
    requires DiskOk(s.disk)
  {
    && next.head.ver == s.cur.head.ver + 1 && CkptOk(next, |s.disk.slots[0]|)
    && TableOk(next.nat_, s.disk.perNat) && TableOk(next.sit, s.disk.perSit)
  }

  ghost predicate Inv<N, S>(s: State<N, S>) {
    && DiskOk(s.disk)
    && PackThere(s.disk.slots[SlotOf(s.cur.head.ver)], s.cur)
    && OtherSlot(s.disk.slots[1 - SlotOf(s.cur.head.ver)], s.cur.head.ver)
    && TableOk(s.cur.nat_, s.disk.perNat) && SameCurrent(s.cur.nat_, NatNow(s.disk, s.cur))
    && TableOk(s.cur.sit, s.disk.perSit) && SameCurrent(s.cur.sit, SitNow(s.disk, s.cur))
    && PhaseOk(s)
  }

  // ---- every step keeps it ----

  lemma SlotFlip(ver: nat)
    ensures SlotOf(ver + 1) == 1 - SlotOf(ver)
  {
  }

  /** Writing a spare copy never touches a block the bits use. */
  lemma SpareKept<T>(t: Table<T>, u: Table<T>, b: nat, blk: seq<T>)
    requires SameCurrent(t, u) && b < |t.copy0|
    ensures SameCurrent(t, WriteSpare(u, b, blk))
  {
    forall c | 0 <= c < |t.copy0| ensures Current(t, c) == Current(WriteSpare(u, b, blk), c) {
      assert Current(t, c) == Current(u, c);
    }
  }

  lemma WriteNatInv<N, S>(s: State<N, S>, b: nat, blk: seq<N>, r: State<N, S>)
    requires Inv(s) && Step(s, WriteNat(b, blk), r)
    ensures Inv(r)
  {
    SpareKept(s.cur.nat_, NatNow(s.disk, s.cur), b, blk);
    assert NatNow(r.disk, r.cur) == WriteSpare(NatNow(s.disk, s.cur), b, blk);
  }

  lemma WriteSitInv<N, S>(s: State<N, S>, b: nat, blk: seq<S>, r: State<N, S>)
    requires Inv(s) && Step(s, WriteSit(b, blk), r)
    ensures Inv(r)
  {
    SpareKept(s.cur.sit, SitNow(s.disk, s.cur), b, blk);
    assert SitNow(r.disk, r.cur) == WriteSpare(SitNow(s.disk, s.cur), b, blk);
  }

  /** Until the last block the new pack cannot be mistaken for a complete one. */
  lemma PackMore<N, S>(s: State<N, S>, r: State<N, S>)
    requires Inv(s) && Step(s, WritePack, r) && s.phase.i + 1 < s.phase.next.head.total
    ensures Inv(r)
  {
    SlotFlip(s.cur.head.ver);
  }

  lemma PackTorn<N, S>(s: State<N, S>, r: State<N, S>)
    requires Inv(s) && Step(s, TearPack, r)
    ensures Inv(r)
  {
    SlotFlip(s.cur.head.ver);
  }

  /** The last block makes the new checkpoint the current one. */
  lemma PackLast<N, S>(s: State<N, S>, r: State<N, S>)
    requires Inv(s) && Step(s, WritePack, r) && s.phase.i + 1 == s.phase.next.head.total
    ensures Inv(r)
  {
    var v := s.cur.head.ver;
    SlotFlip(v);
    SlotFlip(v + 1);
    assert r.disk.slots[SlotOf(v)][0] == PackBlock(s.cur, 0);
  }

  lemma StepInv<N, S>(s: State<N, S>, op: Op<N, S>, r: State<N, S>)
    requires Inv(s) && Step(s, op, r)
    ensures Inv(r)
    ensures r.cur == s.cur || (op == WritePack && s.phase.Packing? && r.cur == s.phase.next
                               && r.cur.head.ver == s.cur.head.ver + 1)
  {
    match op {
      case Begin(next) =>
      case WriteNat(b, blk) => WriteNatInv(s, b, blk, r);
      case WriteSit(b, blk) => WriteSitInv(s, b, blk, r);
      case MetaDone =>
      case WritePack => if s.phase.i + 1 < s.phase.next.head.total { PackMore(s, r); } else { PackLast(s, r); }
      case TearPack => PackTorn(s, r);
      case Crash =>
    }
  }

  // ---- what a mount finds ----

  /** A mount picks the slot of the last complete checkpoint. */
  lemma ChoosesCurrent<N, S>(s: State<N, S>)
    requires Inv(s)
    ensures Choose(s.disk.slots) == Some(SlotOf(s.cur.head.ver))
    ensures Validate(s.disk.slots[SlotOf(s.cur.head.ver)]) == Some(s.cur.head)
  {
    var v := s.cur.head.ver;
    var mine, other := s.disk.slots[SlotOf(v)], s.disk.slots[1 - SlotOf(v)];
    assert mine[0] == PackBlock(s.cur, 0);
    assert mine[s.cur.head.total - 1] == PackBlock(s.cur, |s.cur.bodies| + 1);
    assert Validate(mine) == Some(s.cur.head);
    if Validate(other).Some? {
      var h := Validate(other).value;
      assert h.ver == v - 1;
    }
  }

  /** Blocks in use hold the same, so every entry reads the same. */
  lemma SameLookup<T>(t: Table<T>, u: Table<T>, j: Journal<T>, per: nat, key: nat)
    requires SameCurrent(t, u) && TableOk(t, per) && TableOk(u, per) && key / per < |t.copy0|
    ensures Lookup(u, j, per, key) == Lookup(t, j, per, key)
  {
    assert Current(t, key / per) == Current(u, key / per);
  }

  /** What a mount rebuilds is the last complete checkpoint: version, bits, journals, logs, blocks in use. */
  lemma MountsCurrent<N, S>(s: State<N, S>)
    requires Inv(s)
    ensures Mount(s.disk).Some?
    ensures var m := Mount(s.disk).value;
      && m.ver == s.cur.head.ver && m.logs == s.cur.head.logs
      && m.natJ == NatJournal(s.cur) && SameCurrent(s.cur.nat_, m.nat_)
      && m.sitJ == SitJournal(s.cur) && SameCurrent(s.cur.sit, m.sit)
  {
    ChoosesCurrent(s);
    var slot, c := s.disk.slots[SlotOf(s.cur.head.ver)], s.cur;
    assert slot[c.head.natAt] == PackBlock(c, c.head.natAt);
    assert slot[c.head.sitAt] == PackBlock(c, c.head.sitAt);
    assert c.head.bodyBits ==> slot[1] == PackBlock(c, 1);
  }

  // ---- runs ----

  ghost predicate Run<N, S>(trace: seq<State<N, S>>, ops: seq<Op<N, S>>) {
    && |trace| == |ops| + 1 && Inv(trace[0])
    && forall i :: 0 <= i < |ops| ==> DiskOk(trace[i].disk) && Step(trace[i], ops[i], trace[i + 1])
  }

  lemma {:induction false} RunInv<N, S>(trace: seq<State<N, S>>, ops: seq<Op<N, S>>, k: nat)
    requires Run(trace, ops) && k <= |ops|
    ensures Inv(trace[k]) && trace[0].cur.head.ver <= trace[k].cur.head.ver
  {
    if k > 0 {
      RunInv(trace, ops, k - 1);
      StepInv(trace[k - 1], ops[k - 1], trace[k]);
    }
  }

  /**
   * Crash atomicity.  Take any run of checkpoints, block writes, torn writes,
   * crashes and mounts, and stop it anywhere while a checkpoint `next` is
   * being written on top of `cur`.  A mount at that point succeeds, its
   * version is that of `cur`, and every NAT and SIT entry it reads is the one
   * `cur` recorded.  One step later the same holds of `next` instead, exactly
   * when that step is the write of the last pack block.
   */
  lemma CrashAtomic<N, S>(trace: seq<State<N, S>>, ops: seq<Op<N, S>>, k: nat, nid: nat, seg: nat)
    requires Run(trace, ops) && k <= |ops|
    ensures Inv(trace[k]) && Mount(trace[k].disk).Some?
    ensures Mount(trace[k].disk).value.ver == trace[k].cur.head.ver
    ensures nid / trace[k].disk.perNat < |trace[k].cur.nat_.copy0| ==>
      var d, c, m := trace[k].disk, trace[k].cur, Mount(trace[k].disk).value;
      && TableOk(m.nat_, d.perNat) && nid / d.perNat < |m.nat_.copy0|
      && Lookup(m.nat_, m.natJ, d.perNat, nid) == Lookup(c.nat_, NatJournal(c), d.perNat, nid)
    ensures seg / trace[k].disk.perSit < |trace[k].cur.sit.copy0| ==>
      var d, c, m := trace[k].disk, trace[k].cur, Mount(trace[k].disk).value;
      && TableOk(m.sit, d.perSit) && seg / d.perSit < |m.sit.copy0|
      && Lookup(m.sit, m.sitJ, d.perSit, seg) == Lookup(c.sit, SitJournal(c), d.perSit, seg)
    ensures k < |ops| ==>
      if ops[k] == WritePack && trace[k].phase.Packing? && trace[k].phase.i + 1 == trace[k].phase.next.head.total
      then trace[k + 1].cur == trace[k].phase.next && trace[k + 1].cur.head.ver == trace[k].cur.head.ver + 1
      else trace[k + 1].cur == trace[k].cur
  {
    RunInv(trace, ops, k);
    MountsCurrent(trace[k]);
    var c, m := trace[k].cur, Mount(trace[k].disk).value;
    ChoosesCurrent(trace[k]);
    if nid / trace[k].disk.perNat < |c.nat_.copy0| {
      SameLookup(c.nat_, m.nat_, m.natJ, trace[k].disk.perNat, nid);
    }
    if seg / trace[k].disk.perSit < |c.sit.copy0| {
      SameLookup(c.sit, m.sit, m.sitJ, trace[k].disk.perSit, seg);
    }
  }

  /** validate_checkpoint on the checkpoint area as it lies on disk, without a bound on the pack. */
  function ValidateAt<N, S>(area: seq<Block<N, S>>, at: nat): (r: Option<Head>) {
    if at < |area| && area[at].First? then
      var h := area[at].head;
      if 0 < h.total && at + h.total <= |area| && area[at + h.total - 1].First? && area[at + h.total - 1].head.ver == h.ver
      then Some(h) else None
    else None
  }

  /**
   * What a pack that does not fit does: the second pack lies right behind the
   * segment of the first, so writing over the end of that segment replaces the
   * head of the last checkpoint, and until the new pack is complete a mount
   * finds neither.
   */
  lemma OverrunLoses<N, S>(area: seq<Block<N, S>>, slotLen: nat, cur: Ckpt<N, S>, next: Ckpt<N, S>, k: nat)
    requires 0 < slotLen && 2 * slotLen <= |area| && PackThere(area[slotLen..2 * slotLen], cur)
    requires next.head.ver == cur.head.ver + 1 && next.head.total == |next.bodies| + 2 <= |area|
    requires slotLen < k < next.head.total
    requires forall i :: k <= i < |area| && area[i].First? ==> area[i].head.ver <= cur.head.ver
    ensures ValidateAt(area, slotLen) == Some(cur.head)
    ensures var after := seq(|area|, i requires 0 <= i < |area| => if i < k then PackBlock(next, i) else area[i]);
      ValidateAt(after, 0).None? && ValidateAt(after, slotLen).None?
  {
    var slot, t := area[slotLen..2 * slotLen], cur.head.total;
    assert slot[0] == area[slotLen] == PackBlock(cur, 0);
    assert slot[t - 1] == area[slotLen + t - 1] == PackBlock(cur, t - 1);
    var after := seq(|area|, i requires 0 <= i < |area| => if i < k then PackBlock(next, i) else area[i]);
    assert after[0] == First(next.head) && after[slotLen] == Inner(next.bodies[slotLen - 1]);
    assert after[next.head.total - 1] == area[next.head.total - 1];
  }

  /** What a crash in `s` may leave: the disk as it is, or with the block being written torn, whether of
      the pack or of a table, where a torn block may hold anything. */
  ghost predicate Interrupted<N, S>(s: State<N, S>, r: State<N, S>) {
    DiskOk(s.disk) && (Step(s, Crash, r) || Step(s, TearPack, r) || TornTable(s, r))
  }

  ghost predicate TornTable<N, S>(s: State<N, S>, r: State<N, S>)
    requires DiskOk(s.disk)
  {
    && r.phase.Idle?
    && |r.disk.nat0| == |r.disk.nat1| && |r.disk.sit0| == |r.disk.sit1|
    && var q := r.(phase := s.phase);
       || (exists b: nat :: b < |r.disk.nat0| && Step(s, WriteNat(b, Spare(NatNow(r.disk, s.cur), b)), q))
       || (exists b: nat :: b < |r.disk.sit0| && Step(s, WriteSit(b, Spare(SitNow(r.disk, s.cur), b)), q))
  }

  /** The copy of block `b` that the bits do not use. */
  function Spare<T>(t: Table<T>, b: nat): (r: seq<T>)
    requires b < |t.copy0| == |t.copy1|
  {
    if b in t.bitmap then t.copy0[b] else t.copy1[b]
  }

  /** Versions never go back, and one version belongs to one checkpoint. */
  lemma CurKept<N, S>(trace: seq<State<N, S>>, ops: seq<Op<N, S>>, a: nat, k: nat)
    requires Run(trace, ops) && a <= k <= |ops|
    ensures trace[a].cur.head.ver <= trace[k].cur.head.ver
    ensures trace[a].cur.head.ver == trace[k].cur.head.ver ==> trace[a].cur == trace[k].cur
    ensures trace[a].disk.perNat == trace[k].disk.perNat && trace[a].disk.perSit == trace[k].disk.perSit
  {
    var states := trace[a..k + 1];
    forall i | 0 <= i < |states| - 1 ensures MovesOn(states[i], states[i + 1]) {
      RunStep(trace, ops, a + i);
    }
    Climb(states);
  }

  ghost predicate MovesOn<N, S>(s: State<N, S>, r: State<N, S>) {
    && (s.cur == r.cur || s.cur.head.ver + 1 == r.cur.head.ver)
    && s.disk.perNat == r.disk.perNat && s.disk.perSit == r.disk.perSit
  }

  lemma {:induction false} Climb<N, S>(t: seq<State<N, S>>)
    requires t != [] && forall i :: 0 <= i < |t| - 1 ==> MovesOn(t[i], t[i + 1])
    ensures t[0].cur.head.ver <= t[|t| - 1].cur.head.ver
    ensures t[0].cur.head.ver == t[|t| - 1].cur.head.ver ==> t[0].cur == t[|t| - 1].cur
    ensures t[0].disk.perNat == t[|t| - 1].disk.perNat && t[0].disk.perSit == t[|t| - 1].disk.perSit
  {
    var k := |t| - 1;
    if k > 0 {
      Climb(t[..k]);
      assert MovesOn(t[k - 1], t[k]);
    }
  }

  lemma RunStep<N, S>(trace: seq<State<N, S>>, ops: seq<Op<N, S>>, k: nat)
    requires Run(trace, ops) && k < |ops|
    ensures MovesOn(trace[k], trace[k + 1])
  {
    RunInv(trace, ops, k);
    StepInv(trace[k], ops[k], trace[k + 1]);
    StepSizes(trace[k], ops[k], trace[k + 1]);
  }

  lemma StepSizes<N, S>(s: State<N, S>, op: Op<N, S>, r: State<N, S>)
    requires DiskOk(s.disk) && Step(s, op, r)
    ensures s.disk.perNat == r.disk.perNat && s.disk.perSit == r.disk.perSit
  {
  }

  /**
   * While a run moves from one version to the next, whatever a crash leaves is
   * in order, with the checkpoint before or the one after as its last.
   */
  lemma OneOfTwo<N, S>(trace: seq<State<N, S>>, ops: seq<Op<N, S>>, a: nat, k: nat, b: nat, r: State<N, S>)
    requires Run(trace, ops) && a <= k <= b <= |ops| && trace[b].cur.head.ver == trace[a].cur.head.ver + 1
    requires Interrupted(trace[k], r)
    ensures Inv(r) && (r.cur == trace[a].cur || r.cur == trace[b].cur)
    ensures r.disk.perNat == trace[a].disk.perNat && r.disk.perSit == trace[a].disk.perSit
  {
    CurKept(trace, ops, a, k);
    CurKept(trace, ops, k, b);
    RunInv(trace, ops, k);
    InterruptedInv(trace[k], r);
  }

  /** A crash leaves everything in order, with the same last checkpoint. */
  lemma InterruptedInv<N, S>(s: State<N, S>, r: State<N, S>)
    requires Inv(s) && Interrupted(s, r)
    ensures Inv(r) && r.cur == s.cur && r.phase.Idle?
    ensures r.disk.perNat == s.disk.perNat && r.disk.perSit == s.disk.perSit
  {
    if Step(s, Crash, r) {
      StepInv(s, Crash, r);
    } else if Step(s, TearPack, r) {
      StepInv(s, TearPack, r);
      StepSizes(s, TearPack, r);
    } else {
      var q := r.(phase := s.phase);
      if b: nat :| b < |r.disk.nat0| && Step(s, WriteNat(b, Spare(NatNow(r.disk, s.cur), b)), q) {
        TableInv(s, WriteNat(b, Spare(NatNow(r.disk, s.cur), b)), q, r);
      } else {
        var b: nat :| b < |r.disk.sit0| && Step(s, WriteSit(b, Spare(SitNow(r.disk, s.cur), b)), q);
        TableInv(s, WriteSit(b, Spare(SitNow(r.disk, s.cur), b)), q, r);
      }
    }
  }

  lemma TableInv<N, S>(s: State<N, S>, op: Op<N, S>, q: State<N, S>, r: State<N, S>)
    requires Inv(s) && (op.WriteNat? || op.WriteSit?) && Step(s, op, q) && r == q.(phase := Idle)
    ensures Inv(r) && r.cur == s.cur
    ensures r.disk.perNat == s.disk.perNat && r.disk.perSit == s.disk.perSit
  {
    StepInv(s, op, q);
    StepSizes(s, op, q);
    StepInv(q, Crash, r);
  }

  // ---- a checkpoint that is not interrupted ----

  lemma RunExtend<N, S>(trace: seq<State<N, S>>, ops: seq<Op<N, S>>, op: Op<N, S>, r: State<N, S>)
    requires Run(trace, ops) && DiskOk(trace[|ops|].disk) && Step(trace[|ops|], op, r)
    ensures Run(trace + [r], ops + [op]) && (trace + [r])[|ops| + 1] == r
  {
    var t, o := trace + [r], ops + [op];
    forall i | 0 <= i < |o| ensures DiskOk(t[i].disk) && Step(t[i], o[i], t[i + 1]) {
      if i < |ops| {
        assert t[i] == trace[i] && t[i + 1] == trace[i + 1] && o[i] == ops[i];
      }
    }
  }

  /** The blocks below `n` hold in `t` what `u` holds; the others what `t0` held. */
  ghost predicate Synced<T>(t0: Table<T>, t: Table<T>, u: Table<T>, n: nat) {
    && Shadowed(t0, u) && |t.copy0| == |t.copy1| == |t0.copy0| && t.bitmap == t0.bitmap
    && (forall b :: 0 <= b < n && b < |t.copy0| ==> t.copy0[b] == u.copy0[b] && t.copy1[b] == u.copy1[b])
    && (forall b :: n <= b < |t.copy0| ==> t.copy0[b] == t0.copy0[b] && t.copy1[b] == t0.copy1[b])
  }

  /** Writing the spare copy of a turned block brings it up to date; the others already are. */
  lemma SyncStep<T>(t0: Table<T>, t: Table<T>, u: Table<T>, n: nat)
    requires Synced(t0, t, u, n) && n < |t0.copy0|
    ensures (n in t0.bitmap <==> n in u.bitmap) ==> Synced(t0, t, u, n + 1)
    ensures !(n in t0.bitmap <==> n in u.bitmap) ==> Synced(t0, WriteSpare(t, n, Current(u, n)), u, n + 1)
  {
    assert BlockShadowed(t0, u, n);
  }

  /** Two disks that differ in the contents of their pack slots at most. */
  ghost predicate SameTables<N, S>(d: Disk<N, S>, e: Disk<N, S>) {
    && d == e.(slots := d.slots)
    && |d.slots| == |e.slots| && forall i :: 0 <= i < |d.slots| ==> |d.slots[i]| == |e.slots[i]|
  }

  /**
   * write_checkpoint from the moment the tables are flushed: the changed NAT
   * and SIT blocks, then the pack.  If nothing interrupts it, the new
   * checkpoint becomes the current one.
   */
  class Writer<N, S> {
    var s: State<N, S>
    ghost var trace: seq<State<N, S>>
    ghost var ops: seq<Op<N, S>>

    ghost predicate Valid()
      reads this
    {
      Run(trace, ops) && trace[|ops|] == s && Inv(s)
    }

    constructor (s0: State<N, S>)
      requires Inv(s0)
      ensures Valid() && s == s0 && trace == [s0] && ops == []
    {
      s, trace, ops := s0, [s0], [];
    }

    ghost method Record(op: Op<N, S>, was: State<N, S>)
      requires Run(trace, ops) && trace[|ops|] == was && Inv(was) && Step(was, op, s)
      modifies `trace, `ops
      ensures Valid() && trace == old(trace) + [s] && ops == old(ops) + [op]
    {
      RunExtend(trace, ops, op, s);
      StepInv(was, op, s);
      trace, ops := trace + [s], ops + [op];
    }

    method BeginCheckpoint(next: Ckpt<N, S>)
      requires Valid() && Step(s, Begin(next), s.(phase := Meta(next)))
      modifies this
      ensures Valid() && s == old(s).(phase := Meta(next)) && old(trace) <= trace
    {
      ghost var was := s;
      s := s.(phase := Meta(next));
      Record(Begin(next), was);
    }

    method SyncNatBlock(next: Ckpt<N, S>, b: nat, ghost t0: Table<N>)
      requires Valid() && s.phase == Meta(next) && b < |s.disk.nat0|
      requires Synced(t0, NatNow(s.disk, s.cur), next.nat_, b)
      modifies this
      ensures Valid() && old(trace) <= trace
      ensures s == old(s).(disk := old(s).disk.(nat0 := s.disk.nat0, nat1 := s.disk.nat1))
      ensures Synced(t0, NatNow(s.disk, s.cur), next.nat_, b + 1)
    {
      SyncStep(t0, NatNow(s.disk, s.cur), next.nat_, b);
      if !(b in s.cur.nat_.bitmap <==> b in next.nat_.bitmap) {
        ghost var was := s;
        var t := WriteSpare(NatNow(s.disk, s.cur), b, Current(next.nat_, b));
        s := s.(disk := s.disk.(nat0 := t.copy0, nat1 := t.copy1));
        Record(WriteNat(b, Current(next.nat_, b)), was);
      }
    }

    method SyncNat(next: Ckpt<N, S>)
      requires Valid() && s.phase == Meta(next) && Shadowed(NatNow(s.disk, s.cur), next.nat_)
      modifies this
      ensures Valid() && old(trace) <= trace
      ensures s == old(s).(disk := old(s).disk.(nat0 := next.nat_.copy0, nat1 := next.nat_.copy1))
    {
      ghost var t0 := NatNow(s.disk, s.cur);
      for b := 0 to |s.disk.nat0|
        invariant Valid() && old(trace) <= trace && |s.disk.nat0| == |t0.copy0|
        invariant s == old(s).(disk := old(s).disk.(nat0 := s.disk.nat0, nat1 := s.disk.nat1))
        invariant Synced(t0, NatNow(s.disk, s.cur), next.nat_, b)
      {
        SyncNatBlock(next, b, t0);
      }
      assert s.disk.nat0 == next.nat_.copy0 && s.disk.nat1 == next.nat_.copy1;
    }

    method SyncSitBlock(next: Ckpt<N, S>, b: nat, ghost t0: Table<S>)
      requires Valid() && s.phase == Meta(next) && b < |s.disk.sit0|
      requires Synced(t0, SitNow(s.disk, s.cur), next.sit, b)
      modifies this
      ensures Valid() && old(trace) <= trace
      ensures s == old(s).(disk := old(s).disk.(sit0 := s.disk.sit0, sit1 := s.disk.sit1))
      ensures Synced(t0, SitNow(s.disk, s.cur), next.sit, b + 1)
    {
      SyncStep(t0, SitNow(s.disk, s.cur), next.sit, b);
      if !(b in s.cur.sit.bitmap <==> b in next.sit.bitmap) {
        ghost var was := s;
        var t := WriteSpare(SitNow(s.disk, s.cur), b, Current(next.sit, b));
        s := s.(disk := s.disk.(sit0 := t.copy0, sit1 := t.copy1));
        Record(WriteSit(b, Current(next.sit, b)), was);
      }
    }

    method SyncSit(next: Ckpt<N, S>)
      requires Valid() && s.phase == Meta(next) && Shadowed(SitNow(s.disk, s.cur), next.sit)
      modifies this
      ensures Valid() && old(trace) <= trace
      ensures s == old(s).(disk := old(s).disk.(sit0 := next.sit.copy0, sit1 := next.sit.copy1))
    {
      ghost var t0 := SitNow(s.disk, s.cur);
      for b := 0 to |s.disk.sit0|
        invariant Valid() && old(trace) <= trace && |s.disk.sit0| == |t0.copy0|
        invariant s == old(s).(disk := old(s).disk.(sit0 := s.disk.sit0, sit1 := s.disk.sit1))
        invariant Synced(t0, SitNow(s.disk, s.cur), next.sit, b)
      {
        SyncSitBlock(next, b, t0);
      }
      assert s.disk.sit0 == next.sit.copy0 && s.disk.sit1 == next.sit.copy1;
    }

    method WritePackBlocks(next: Ckpt<N, S>)
      requires Valid() && s.phase == Packing(next, 0)
      modifies this
      ensures Valid() && old(trace) <= trace && s.cur == next && s.phase.Idle?
      ensures SameTables(s.disk, old(s).disk)
    {
      var i: nat := 0;
      while i < next.head.total
        invariant i <= next.head.total && Valid() && old(trace) <= trace && SameTables(s.disk, old(s).disk)
        invariant if i < next.head.total then s.phase == Packing(next, i) else s.cur == next && s.phase.Idle?
      {
        WriteNext(next, i, old(s).disk, old(trace));
        i := i + 1;
      }
    }

    method WriteNext(next: Ckpt<N, S>, i: nat, ghost d: Disk<N, S>, ghost before: seq<State<N, S>>)
      requires Valid() && s.phase == Packing(next, i) && SameTables(s.disk, d) && before <= trace
      modifies this
      ensures Valid() && SameTables(s.disk, d) && before <= trace && i < next.head.total
      ensures if i + 1 == next.head.total then s.cur == next && s.phase.Idle? else s.phase == Packing(next, i + 1)
    {
      WriteOne(next, i);
    }

    method WriteOne(next: Ckpt<N, S>, i: nat)
      requires Valid() && s.phase == Packing(next, i)
      modifies this
      ensures Valid() && old(trace) <= trace && i < next.head.total
      ensures if i + 1 == next.head.total then s.cur == next && s.phase.Idle? else s.phase == Packing(next, i + 1)
      ensures SameTables(s.disk, old(s).disk)
    {
      ghost var was := s;
      var d := SetSlot(s.disk, SlotOf(next.head.ver), i, PackBlock(next, i));
      s := if i + 1 == next.head.total then State(d, next, Idle) else State(d, s.cur, Packing(next, i + 1));
      Record(WritePack, was);
    }

    method WriteCheckpoint(next: Ckpt<N, S>)
      requires Valid() && Step(s, Begin(next), s.(phase := Meta(next)))
      modifies this
      ensures Valid() && old(trace) <= trace && s.cur == next && s.phase.Idle?
      ensures NatNow(s.disk, next) == next.nat_ && SitNow(s.disk, next) == next.sit
      ensures s.disk.perNat == old(s).disk.perNat && s.disk.perSit == old(s).disk.perSit
      ensures |s.disk.slots[0]| == |old(s).disk.slots[0]|
    {
      BeginCheckpoint(next);
      SyncNat(next);
      SyncSit(next);
      StartPack(next);
      WritePackBlocks(next);
    }

    method StartPack(next: Ckpt<N, S>)
      requires Valid() && s.phase == Meta(next)
      requires NatNow(s.disk, next) == next.nat_ && SitNow(s.disk, next) == next.sit
      modifies this
      ensures Valid() && old(trace) <= trace && s == old(s).(phase := Packing(next, 0))
    {
      ghost var was := s;
      s := s.(phase := Packing(next, 0));
      Record(MetaDone, was);
    }
  }
}
