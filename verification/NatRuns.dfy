/**
 * Whole runs of the node manager: the view as a plain map, and the life of a
 * nid from allocation to release.
 */
module NatRuns {
  import opened Shadow
  import opened Nids
  import opened Nat

  datatype Op =
    | Look(nid: nat)
    | Drop(nid: nat)
    | Assign(nid: nat, ino: nat, blk: nat)
    | Flush
    | Collect
    | AllocNid(nid: nat)
    | Confirm(nid: nat)
    | Fail(nid: nat, memory: bool)

  /**
   * One operation.  The conditions on Assign, Confirm and Fail are the
   * caller's side of the protocol: a free nid gets an address only from the
   * caller it was handed to, is confirmed once it has one, and is given back
   * without one.
   */
  ghost predicate Does(s: State, op: Op, r: State)
    requires Inv(s)
  {
    match op
    case Look(n) => InRange(s.table, n) && r == Fetch(s, n)
    case Drop(n) => n in s.cache && !s.cache[n].dirty && r == Evict(s, n)
    case Assign(n, ino, blk) =>
      && InRange(s.table, n) && AddrChangeOk(View(s, n).blk, blk)
      && (View(s, n).blk == NULL_ADDR ==> n in s.free.root && s.free.root[n] == Alloc)
      && r == SetAddr(s, n, ino, blk)
    case Flush => NoDirtyPlaceholder(s) && FlushStep(s, r)
    case Collect => BuildStep(s, r.free) && r == s.(free := r.free)
    case AllocNid(n) => n in s.free.root && s.free.root[n] == New && r == s.(free := Take(s.free, n))
    case Confirm(n) =>
      n in s.free.root && s.free.root[n] == Alloc && View(s, n).blk != NULL_ADDR && r == s.(free := Delete(s.free, n))
    case Fail(n, memory) =>
      && n in s.free.root && s.free.root[n] == Alloc && View(s, n).blk == NULL_ADDR
      && r == s.(free := GiveBack(s.free, n, memory))
  }

  lemma StepInv(s: State, op: Op, r: State)
    requires Inv(s) && Does(s, op, r)
    ensures Inv(r) && |r.table.copy0| == |s.table.copy0|
  {
    match op {
      case Look(n) => FetchInv(s, n);
      case Drop(n) => EvictInv(s, n);
      case Assign(n, ino, blk) => SetAddrInv(s, n, ino, blk);
      case Flush => FlushInv(s, r);
      case Collect => BuildInv(s, r.free);
      case AllocNid(n) => NidInv(s, op, r);
      case Confirm(n) => NidInv(s, op, r);
      case Fail(n, memory) => NidInv(s, op, r);
    }
  }

  /** The steps that touch the free lists only. */
  lemma NidInv(s: State, op: Op, r: State)
    requires Inv(s) && Does(s, op, r) && (op.AllocNid? || op.Confirm? || op.Fail?)
    ensures Inv(r)
  {
    match op {
      case AllocNid(n) => TakeOk(s.free, n);
      case Confirm(n) => DeleteOk(s.free, n);
      case Fail(n, memory) => GiveBackOk(s.free, n, memory);
    }
    FreeMove(s, r, op.nid);
  }

  lemma FreeMove(s: State, r: State, n: nat)
    requires Inv(s) && r == s.(free := r.free) && NidsOk(r.free)
    requires r.free.chunk == s.free.chunk && |r.free.lists| == |s.free.lists| && n in s.free.root
    requires forall m :: m in r.free.root ==> m in s.free.root && (m != n ==> r.free.root[m] == s.free.root[m])
    requires n in r.free.root && r.free.root[n] == New ==> View(s, n).blk == NULL_ADDR
    ensures Inv(r)
  {
    forall m | InRange(r.table, m) ensures View(r, m) == View(s, m) { }
  }

  /** Only an assignment changes what a nid means, and only for its own nid. */
  lemma StepView(s: State, op: Op, r: State, n: nat)
    requires Inv(s) && Does(s, op, r) && InRange(s.table, n)
    ensures Inv(r) && InRange(r.table, n)
    ensures View(r, n) ==
      if op.Assign? && op.nid == n then Revalue(View(s, n), op.ino, op.blk) else View(s, n)
  {
    StepInv(s, op, r);
  }

  // ---- runs ----

  ghost predicate Run(trace: seq<State>, ops: seq<Op>) {
    && |trace| == |ops| + 1
    && Inv(trace[0])
    && forall i :: 0 <= i < |ops| ==> Step(trace[i], ops[i], trace[i + 1])
  }

  ghost predicate Step(s: State, op: Op, r: State) {
    Inv(s) ==> Does(s, op, r)
  }

  lemma RunInv(trace: seq<State>, ops: seq<Op>, k: nat)
    requires Run(trace, ops) && k <= |ops|
    ensures Inv(trace[k]) && |trace[k].table.copy0| == |trace[0].table.copy0|
  {
    if k > 0 {
      RunInv(trace, ops, k - 1);
      StepInv(trace[k - 1], ops[k - 1], trace[k]);
    }
  }

  lemma RunStep(trace: seq<State>, ops: seq<Op>, k: nat)
    requires Run(trace, ops) && k < |ops|
    ensures Inv(trace[k]) && Does(trace[k], ops[k], trace[k + 1])
  {
    RunInv(trace, ops, k);
    assert Step(trace[k], ops[k], trace[k + 1]);
  }

  /** What the assignments among `ops` make of a value. */
  ghost function Replayed(v: NatVal, ops: seq<Op>, n: nat): (r: NatVal) {
    if ops == [] then v
    else
      var u := Replayed(v, ops[..|ops| - 1], n);
      var op := ops[|ops| - 1];
      if op.Assign? && op.nid == n then Revalue(u, op.ino, op.blk) else u
  }

  /**
   * The NAT is a map: after any run, the meaning of a nid is its initial
   * meaning with the assignments to it replayed.  Lookups, evictions,
   * flushes and everything done to the free lists leave no trace.
   */
  lemma {:induction false} ViewIsMap(trace: seq<State>, ops: seq<Op>, n: nat)
    requires Run(trace, ops) && InRange(trace[0].table, n)
    ensures Inv(trace[|ops|]) && InRange(trace[|ops|].table, n)
    ensures View(trace[|ops|], n) == Replayed(View(trace[0], n), ops, n)
  {
    if ops != [] {
      var k := |ops| - 1;
      ViewIsMap(trace[..|trace| - 1], ops[..k], n);
      StepView(trace[k], ops[k], trace[k + 1], n);
    }
  }

  ghost predicate Assigns(op: Op, n: nat) { op.Assign? && op.nid == n }

  /** A nid has the owner and the address of the last assignment to it. */
  lemma {:induction false} LastAssigned(trace: seq<State>, ops: seq<Op>, k: nat, i: nat, n: nat)
    requires Run(trace, ops) && InRange(trace[0].table, n) && i < k <= |ops| && Assigns(ops[i], n)
    requires forall j :: i < j < k ==> !Assigns(ops[j], n)
    ensures Inv(trace[k]) && InRange(trace[k].table, n)
    ensures View(trace[k], n).ino == ops[i].ino && View(trace[k], n).blk == ops[i].blk
  {
    ViewAt(trace, ops, k - 1, n);
    if i < k - 1 {
      LastAssigned(trace, ops, k - 1, i, n);
    }
  }

  /** One step of a run, said of the value itself. */
  lemma ViewAt(trace: seq<State>, ops: seq<Op>, k: nat, n: nat)
    requires Run(trace, ops) && InRange(trace[0].table, n) && k < |ops|
    ensures Inv(trace[k]) && InRange(trace[k].table, n) && Inv(trace[k + 1]) && InRange(trace[k + 1].table, n)
    ensures !Assigns(ops[k], n) ==> View(trace[k + 1], n) == View(trace[k], n)
    ensures Assigns(ops[k], n) ==>
      var v, r := View(trace[k], n), View(trace[k + 1], n);
      && r.ino == ops[k].ino && r.blk == ops[k].blk
      && r.version == if Frees(trace[k], ops[k], n) then (v.version + 1) % 256 else v.version
  {
    RunInv(trace, ops, k);
    RunStep(trace, ops, k);
    StepView(trace[k], ops[k], trace[k + 1], n);
  }

  /** The assignment takes away the address of a node that has been written. */
  ghost predicate Frees(s: State, op: Op, n: nat) {
    && TableOk(s.table, NAT_ENTRY_PER_BLOCK) && InRange(s.table, n)
    && Assigns(op, n) && op.blk == NULL_ADDR && View(s, n).blk != NEW_ADDR
  }

  ghost function Version(s: State, n: nat): (r: nat) {
    if TableOk(s.table, NAT_ENTRY_PER_BLOCK) && InRange(s.table, n) then View(s, n).version else 0
  }

  lemma VersionAt(trace: seq<State>, ops: seq<Op>, k: nat, n: nat)
    requires Run(trace, ops) && InRange(trace[0].table, n) && k < |ops|
    ensures var v, b := Versions(trace, n), Freeings(trace, ops, n);
      v[k + 1] == if b[k] then (v[k] + 1) % 256 else v[k]
  {
    ViewAt(trace, ops, k, n);
  }

  ghost function Versions(trace: seq<State>, n: nat): (r: seq<nat>) {
    seq(|trace|, i requires 0 <= i < |trace| => Version(trace[i], n))
  }

  /** The version of a nid counts, in one byte, how often a node written under it was freed. */
  lemma VersionCounts(trace: seq<State>, ops: seq<Op>, k: nat, n: nat)
    requires Run(trace, ops) && InRange(trace[0].table, n) && k <= |ops| && Versions(trace, n)[0] < 256
    ensures Versions(trace, n)[k] == (Versions(trace, n)[0] + Trues(Freeings(trace, ops, n), k)) % 256
  {
    AllVersions(trace, ops, n);
    CountsUp(Versions(trace, n), Freeings(trace, ops, n), k);
  }

  lemma AllVersions(trace: seq<State>, ops: seq<Op>, n: nat)
    requires Run(trace, ops) && InRange(trace[0].table, n)
    ensures var v, b := Versions(trace, n), Freeings(trace, ops, n);
      forall i :: 0 <= i < |b| ==> v[i + 1] == if b[i] then (v[i] + 1) % 256 else v[i]
  {
    var v, b := Versions(trace, n), Freeings(trace, ops, n);
    forall i | 0 <= i < |b| ensures v[i + 1] == if b[i] then (v[i] + 1) % 256 else v[i] {
      VersionAt(trace, ops, i, n);
    }
  }

  /** Which operations free a node written under `n`. */
  ghost function Freeings(trace: seq<State>, ops: seq<Op>, n: nat): (r: seq<bool>)
    requires |trace| == |ops| + 1
  {
    seq(|ops|, i requires 0 <= i < |ops| => Frees(trace[i], ops[i], n))
  }

  ghost function Trues(b: seq<bool>, k: nat): (r: nat)
    requires k <= |b|
  {
    if k == 0 then 0 else Trues(b, k - 1) + if b[k - 1] then 1 else 0
  }

  lemma {:induction false} CountsUp(v: seq<nat>, b: seq<bool>, k: nat)
    requires k < |v| == |b| + 1 && v[0] < 256
    requires forall i :: 0 <= i < |b| ==> v[i + 1] == if b[i] then (v[i] + 1) % 256 else v[i]
    ensures v[k] == (v[0] + Trues(b, k)) % 256
  {
    if k > 0 {
      CountsUp(v, b, k - 1);
      assert v[k - 1 + 1] == if b[k - 1] then (v[k - 1] + 1) % 256 else v[k - 1];
      OneMore(v[0] + Trues(b, k - 1));
    }
  }

  lemma OneMore(a: nat)
    ensures (a % 256 + 1) % 256 == (a + 1) % 256
  {
  }

  /** After a flush, journal and blocks alone hold the meaning replay gives. */
  lemma FlushPersists(trace: seq<State>, ops: seq<Op>, n: nat)
    requires Run(trace, ops) && InRange(trace[0].table, n) && ops != [] && ops[|ops| - 1] == Flush
    ensures Inv(trace[|ops|]) && InRange(trace[|ops|].table, n)
    ensures Persist(trace[|ops|].table, trace[|ops|].journal, n) == Replayed(View(trace[0], n), ops, n)
  {
    ViewIsMap(trace, ops, n);
    RunInv(trace, ops, |ops| - 1);
    StepView(trace[|ops| - 1], Flush, trace[|ops|], n);
  }

  // ---- the life of a nid ----

  /** Handed out, or in use, or freed but not yet through a checkpoint. */
  ghost predicate Held(s: State, n: nat) {
    && TableOk(s.table, NAT_ENTRY_PER_BLOCK) && InRange(s.table, n)
    && if n in s.free.root then s.free.root[n] == Alloc
       else View(s, n).blk != NULL_ADDR || (n in s.cache && !s.cache[n].ckpt)
  }

  /** The two ways a held nid is let go: given back, or a flush after it was freed. */
  ghost predicate Releases(s: State, op: Op, n: nat) {
    || (op.Fail? && op.nid == n)
    || (op == Flush && n !in s.free.root
        && TableOk(s.table, NAT_ENTRY_PER_BLOCK) && InRange(s.table, n) && View(s, n).blk == NULL_ADDR)
  }

  lemma HeldStep(s: State, op: Op, r: State, n: nat)
    requires Inv(s) && Does(s, op, r) && Held(s, n) && !Releases(s, op, n)
    ensures Held(r, n)
  {
    match op {
      case Look(m) =>
      case Drop(m) =>
      case Assign(m, ino, blk) =>
      case Flush => HeldFlush(s, r, n);
      case Collect => HeldCollect(s, r, n);
      case AllocNid(m) =>
        TakeOk(s.free, m);
        HeldFree(s, r, n);
      case Confirm(m) =>
        DeleteOk(s.free, m);
        HeldFree(s, r, n);
      case Fail(m, memory) =>
        GiveBackOk(s.free, m, memory);
        HeldFree(s, r, n);
    }
  }

  lemma HeldFree(s: State, r: State, n: nat)
    requires Held(s, n) && r == s.(free := r.free)
    requires n in r.free.root ==> n in s.free.root && r.free.root[n] == Alloc
    requires n !in r.free.root && n in s.free.root ==> View(s, n).blk != NULL_ADDR
    ensures Held(r, n)
  {
    assert View(r, n) == View(s, n);
  }

  lemma HeldFlush(s: State, r: State, n: nat)
    requires NatOk(s) && FlushStep(s, r) && Held(s, n) && !Releases(s, Flush, n)
    ensures Held(r, n)
  {
    assert View(r, n) == View(s, n);
  }

  lemma HeldCollect(s: State, r: State, n: nat)
    requires NatOk(s) && BuildStep(s, r.free) && r == s.(free := r.free) && Held(s, n)
    ensures Held(r, n)
  {
    assert View(r, n) == View(s, n);
  }

  lemma {:induction false} HeldRun(trace: seq<State>, ops: seq<Op>, i: nat, k: nat, n: nat)
    requires Run(trace, ops) && i <= k <= |ops| && Held(trace[i], n)
    requires forall j :: i <= j < k ==> !Releases(trace[j], ops[j], n)
    ensures Held(trace[k], n)
  {
    if i < k {
      HeldRun(trace, ops, i, k - 1, n);
      RunStep(trace, ops, k - 1);
      HeldStep(trace[k - 1], ops[k - 1], trace[k], n);
    }
  }

  /**
   * A nid handed out is not handed out again before it is given back or,
   * having been freed, goes through a flush.
   */
  lemma NotReissued(trace: seq<State>, ops: seq<Op>, i: nat, k: nat, n: nat)
    requires Run(trace, ops) && i < k < |ops| && ops[i] == AllocNid(n) && ops[k] == AllocNid(n)
    ensures exists j :: i < j < k && Releases(trace[j], ops[j], n)
  {
    RunInv(trace, ops, i);
    RunInv(trace, ops, k);
    TakenHeld(trace[i], trace[i + 1], n);
    assert Does(trace[k], ops[k], trace[k + 1]);
    if forall j :: i < j < k ==> !Releases(trace[j], ops[j], n) {
      HeldRun(trace, ops, i + 1, k, n);
    }
  }

  lemma TakenHeld(s: State, r: State, n: nat)
    requires Inv(s) && Does(s, AllocNid(n), r)
    ensures Held(r, n)
  {
    TakeOk(s.free, n);
  }

  /** At every moment of a run: what is on offer is unmapped, and the offer counts are exact. */
  lemma OffersExact(trace: seq<State>, ops: seq<Op>, k: nat, n: nat, l: nat)
    requires Run(trace, ops) && k <= |ops|
    ensures Inv(trace[k])
    ensures n in trace[k].free.root && trace[k].free.root[n] == New ==>
      InRange(trace[k].table, n) && View(trace[k], n).blk == NULL_ADDR
    ensures l < |trace[k].free.lists| ==> trace[k].free.fcnt[l] == |OnOffer(trace[k].free, l)|
  {
    RunInv(trace, ops, k);
  }
}
