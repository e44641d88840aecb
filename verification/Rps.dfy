/** The reader/writer lock of Max/rps.c as a transition system over any number
    of threads and CPUs.

    Every atomic access of the C code is one action; actions of different
    threads interleave freely and memory is sequentially consistent.
    `synchronize_sched_expedited` is split into its start, which stamps the
    current section clock, and its end, which is enabled once every
    preempt-disabled section opened before that stamp has closed.
 */
module Rps {
  import opened Common

  type Tid = nat

  /** Which lock call a pass through `go_highway` belongs to. */
  datatype Purpose = Lock | TryLock | Unlock

  /** Where a thread stands between two atomic accesses. */
  datatype Pc =
    | Idle
    // go_highway, inside its preempt-disabled section `id`
    | Checking(why: Purpose, id: nat)      // writers_cnt not read yet
    | Committed(why: Purpose, id: nat)     // read zero, per-CPU counter not changed yet
    | Added(why: Purpose, id: nat)         // per-CPU counter changed
    | Refused(why: Purpose, id: nat)       // read non-zero
    // go_lowway, the try-lock slow path, and the slow path of rps_up_read
    | LowWait(why: Purpose)                // before down_read / down_read_trylock
    | LowHold                              // holds rw_sem for reading
    | LowCounted                           // lowway_cnt incremented, rw_sem still held
    | LowLeave                             // before atomic_dec_and_test
    | LowWake                              // the decrement reached zero, before wake_up_all
    | Reading                              // the read-side critical section
    // rps_down_write
    | WCounted                             // writers_cnt incremented
    | WGrace(stamp: nat)                   // in the first synchronize_sched_expedited
    | WGraced                              // before down_write
    | WClear(cpu: nat, sum: int)           // clear_highway, about to read counter `cpu`
    | WZero(cpu: nat, sum: int)            // counter `cpu` added to the sum, not zeroed yet
    | WSum(sum: int)                       // before atomic_add
    | WWait                                // before testing lowway_cnt
    | WSleep                               // tested non-zero, on the wait queue
    | Writing                              // the write-side critical section
    // rps_up_write
    | WReleased                            // rw_sem released
    | WGrace2(stamp: nat)                  // in the second synchronize_sched_expedited
    | WGraced2                             // before atomic_dec

  datatype State = State(
    pc: map<Tid, Pc>,
    clock: nat,                // sections opened so far; the next section gets this id
    writersCnt: int,
    lowway: int,
    highway: seq<int>,         // one counter per possible CPU
    semReaders: set<Tid>,      // holders of rw_sem
    semWriter: set<Tid>        // at most one holder for writing
  )

  predicate Init(s: State) {
    && s.pc == map[]
    && s.clock == 0
    && s.writersCnt == 0
    && s.lowway == 0
    && (forall i :: 0 <= i < |s.highway| ==> s.highway[i] == 0)
    && s.semReaders == {} && s.semWriter == {}
  }

  // ---------------------------------------------------------------- actions

  datatype Action =
    | Enter(t: Tid, why: Purpose)      // preempt_disable
    | Test(t: Tid)                     // atomic_read of writers_cnt
    | Add(t: Tid, cpu: nat)            // this_cpu_add on whatever CPU the thread is on
    | Leave(t: Tid)                    // preempt_enable
    | SemRead(t: Tid)                  // down_read, or a successful down_read_trylock
    | TryFail(t: Tid)                  // a failed down_read_trylock
    | LowInc(t: Tid)                   // atomic_inc of lowway_cnt
    | SemReadUp(t: Tid)                // up_read
    | LowDec(t: Tid)                   // atomic_dec_and_test
    | Wake(t: Tid)                     // wake_up_all
    | WInc(t: Tid)
    | GraceStart(t: Tid)
    | GraceEnd(t: Tid)
    | SemWrite(t: Tid)                 // down_write
    | ClearRead(t: Tid)
    | ClearZero(t: Tid)
    | ClearDone(t: Tid)                // the per-CPU loop ends
    | SumAdd(t: Tid)                   // atomic_add to lowway_cnt
    | WTest(t: Tid)                    // the condition of wait_event
    | SemWriteUp(t: Tid)               // up_write
    | WDec(t: Tid)

  /** The thread runs inside a preempt-disabled section of `go_highway`. */
  predicate InSection(p: Pc) {
    p.Checking? || p.Committed? || p.Added? || p.Refused?
  }

  /** Every section opened before `stamp` has closed. */
  predicate GracePeriodOver(s: State, stamp: nat) {
    forall t :: t in s.pc && InSection(s.pc[t]) ==> s.pc[t].id >= stamp
  }

  /** A thread that has not used the lock yet is idle. */
  function At(s: State, t: Tid): (p: Pc) {
    if t in s.pc then s.pc[t] else Idle
  }

  predicate Enabled(s: State, a: Action) {
    var p := At(s, a.t);
    match a
    case Enter(_, why) => if why.Unlock? then p.Reading? else p.Idle?
    case Test(_) => p.Checking?
    case Add(_, cpu) => p.Committed? && cpu < |s.highway|
    case Leave(_) => p.Added? || p.Refused?
    case SemRead(_) => p.LowWait? && s.semWriter == {}
    case TryFail(_) => p.LowWait? && p.why.TryLock?
    case LowInc(_) => p.LowHold?
    case SemReadUp(_) => p.LowCounted?
    case LowDec(_) => p.LowLeave?
    case Wake(_) => p.LowWake?
    case WInc(_) => p.Idle?
    case GraceStart(_) => p.WCounted? || p.WReleased?
    case GraceEnd(_) => (p.WGrace? || p.WGrace2?) && GracePeriodOver(s, p.stamp)
    case SemWrite(_) => p.WGraced? && s.semReaders == {} && s.semWriter == {}
    case ClearRead(_) => p.WClear? && p.cpu < |s.highway|
    case ClearZero(_) => p.WZero? && p.cpu < |s.highway|
    case ClearDone(_) => p.WClear? && p.cpu >= |s.highway|
    case SumAdd(_) => p.WSum?
    case WTest(_) => p.WWait?
    case SemWriteUp(_) => p.Writing?
    case WDec(_) => p.WGraced2?
  }

  /** `wake_up_all`: every sleeper tests its condition again. */
  function WakeAll(pc: map<Tid, Pc>): (r: map<Tid, Pc>)
    ensures r.Keys == pc.Keys
    ensures forall t :: t in pc ==> r[t] == if pc[t].WSleep? then WWait else pc[t]
  {
    map t | t in pc :: if pc[t].WSleep? then WWait else pc[t]
  }

  function Goto(s: State, t: Tid, p: Pc): (r: State) {
    s.(pc := s.pc[t := p])
  }

  /** Where `preempt_enable` at the end of `go_highway` leads. */
  function AfterSection(p: Pc): (r: Pc)
    requires p.Added? || p.Refused?
  {
    if p.Added? then
      if p.why.Unlock? then Idle else Reading
    else
      if p.why.Unlock? then LowLeave else LowWait(p.why)
  }

  function Apply(s: State, a: Action): (r: State)
    requires Enabled(s, a)
  {
    match a
    case Enter(t, why) => Goto(s, t, Checking(why, s.clock)).(clock := s.clock + 1)
    case Test(t) =>
      var p := At(s, t);
      Goto(s, t, if s.writersCnt == 0 then Committed(p.why, p.id) else Refused(p.why, p.id))
    case Add(t, cpu) =>
      var p := At(s, t);
      var val := if p.why.Unlock? then -1 else 1;
      Goto(s, t, Added(p.why, p.id)).(highway := s.highway[cpu := s.highway[cpu] + val])
    case Leave(t) => Goto(s, t, AfterSection(At(s, t)))
    case SemRead(t) => Goto(s, t, LowHold).(semReaders := s.semReaders + {t})
    case TryFail(t) => Goto(s, t, Idle)
    case LowInc(t) => Goto(s, t, LowCounted).(lowway := s.lowway + 1)
    case SemReadUp(t) => Goto(s, t, Reading).(semReaders := s.semReaders - {t})
    case LowDec(t) =>
      Goto(s, t, if s.lowway - 1 == 0 then LowWake else Idle).(lowway := s.lowway - 1)
    case Wake(t) => Goto(s.(pc := WakeAll(s.pc)), t, Idle)
    case WInc(t) => Goto(s, t, WCounted).(writersCnt := s.writersCnt + 1)
    case GraceStart(t) => Goto(s, t, if At(s, t).WCounted? then WGrace(s.clock) else WGrace2(s.clock))
    case GraceEnd(t) => Goto(s, t, if At(s, t).WGrace? then WGraced else WGraced2)
    case SemWrite(t) => Goto(s, t, WClear(0, 0)).(semWriter := {t})
    case ClearRead(t) => Goto(s, t, WZero(At(s, t).cpu, At(s, t).sum + s.highway[At(s, t).cpu]))
    case ClearZero(t) =>
      Goto(s, t, WClear(At(s, t).cpu + 1, At(s, t).sum)).(highway := s.highway[At(s, t).cpu := 0])
    case ClearDone(t) => Goto(s, t, WSum(At(s, t).sum))
    case SumAdd(t) => Goto(s, t, WWait).(lowway := s.lowway + At(s, t).sum)
    case WTest(t) => Goto(s, t, if s.lowway == 0 then Writing else WSleep)
    case SemWriteUp(t) => Goto(s, t, WReleased).(semWriter := {})
    case WDec(t) => Goto(s, t, Idle).(writersCnt := s.writersCnt - 1)
  }

  /** `trace` is a run of the lock that performs `acts` one after the other. */
  ghost predicate Run(trace: seq<State>, acts: seq<Action>) {
    && |trace| == |acts| + 1
    && Init(trace[0])
    && forall i :: 0 <= i < |acts| ==> Enabled(trace[i], acts[i]) && trace[i + 1] == Apply(trace[i], acts[i])
  }

  // ------------------------------------------------------------- invariants

  /** The reader's +1 is in the counters and its -1 is not. */
  predicate IsCountedIn(p: Pc) {
    || (p.Added? && !p.why.Unlock?)
    || p.LowCounted? || p.Reading? || p.LowLeave?
    || ((p.Checking? || p.Committed? || p.Refused?) && p.why.Unlock?)
  }

  /** The thread's increment of `writers_cnt` is not yet undone. */
  predicate IsWriter(p: Pc) {
    || p.WCounted? || p.WGrace? || p.WReleased? || p.WGrace2? || p.WGraced2?
    || p.WGraced? || HoldsSem(p)
  }

  predicate HoldsSem(p: Pc) {
    p.WClear? || p.WZero? || p.WSum? || p.WWait? || p.WSleep? || p.Writing?
  }

  /** The writer's first grace period is over. */
  predicate PastGrace(p: Pc) {
    IsWriter(p) && !p.WCounted? && !p.WGrace?
  }

  /** `clear_highway` is done and its result is in `lowway_cnt`. */
  predicate Drained(p: Pc) {
    p.WWait? || p.WSleep? || p.Writing?
  }

  function CountedIn(s: State): (r: set<Tid>) {
    set t | t in s.pc && IsCountedIn(s.pc[t])
  }

  function Writers(s: State): (r: set<Tid>) {
    set t | t in s.pc && IsWriter(s.pc[t])
  }

  function Sum(h: seq<int>): (r: int) {
    if h == [] then 0 else Sum(h[..|h| - 1]) + h[|h| - 1]
  }

  /** What the thread has taken from the highway and not yet put into
      `lowway_cnt`; a counter that is summed but not zeroed yet stands in both
      places and is discounted here. */
  function Collected(s: State, t: Tid): (r: int) {
    var p := At(s, t);
    if p.WClear? || p.WSum? then p.sum
    else if p.WZero? && p.cpu < |s.highway| then p.sum - s.highway[p.cpu]
    else 0
  }

  predicate HoldsSemRead(p: Pc) {
    p.LowHold? || p.LowCounted?
  }

  /** rw_sem is a correct lock and its holders are where the code says they are. */
  ghost predicate SemInv(s: State) {
    && (forall t :: t in s.semWriter <==> HoldsSem(At(s, t)))
    && (forall t, u :: t in s.semWriter && u in s.semWriter ==> t == u)
    && (forall t :: t in s.semReaders <==> HoldsSemRead(At(s, t)))
    && (s.semWriter == {} || s.semReaders == {})
  }

  /** Once a writer's first grace period is over no thread stands between
      reading a zero `writers_cnt` and changing its per-CPU counter. */
  ghost predicate GraceInv(s: State) {
    && (forall t :: InSection(At(s, t)) ==> At(s, t).id < s.clock)
    && (forall w, r :: At(s, w).WGrace? && At(s, r).Committed? ==> At(s, r).id < At(s, w).stamp)
    && (forall w, r :: PastGrace(At(s, w)) ==> !At(s, r).Committed?)
  }

  /** The counters that `clear_highway` has passed stay zero. */
  ghost predicate Cleared(p: Pc, highway: seq<int>) {
    var done := if p.WClear? || p.WZero? then p.cpu else |highway|;
    && done <= |highway|
    && (p.WZero? ==> done < |highway|)
    && forall i :: 0 <= i < done ==> highway[i] == 0
  }

  ghost predicate ClearedInv(s: State) {
    forall t :: HoldsSem(At(s, t)) ==> Cleared(At(s, t), s.highway)
  }

  /** Readers in flight are never lost or counted twice: highway, lowway and
      what a writer carries from one to the other add up to them. */
  ghost predicate BalanceInv(s: State) {
    && (s.semWriter == {} ==> Sum(s.highway) + s.lowway == |CountedIn(s)|)
    && (forall t :: t in s.semWriter ==> Sum(s.highway) + s.lowway + Collected(s, t) == |CountedIn(s)|)
  }

  /** No wake-up is lost: a sleeping writer still has readers to wait for, or
      the reader that brought `lowway_cnt` to zero is about to wake it. */
  ghost predicate WakeInv(s: State) {
    && (forall t :: At(s, t).Writing? ==> s.lowway == 0)
    && (forall t :: At(s, t).WSleep? ==> s.lowway != 0 || exists r :: At(s, r).LowWake?)
  }

  ghost predicate Inv(s: State) {
    && SemInv(s)
    && GraceInv(s)
    && s.writersCnt == |Writers(s)|
    && ClearedInv(s)
    && BalanceInv(s)
    && WakeInv(s)
  }

  // ---------------------------------------------------------- preservation

  lemma {:induction false} SumUpdate(h: seq<int>, k: nat, v: int)
    requires k < |h|
    ensures Sum(h[k := v]) == Sum(h) - h[k] + v
  {
    var n := |h| - 1;
    assert h[k := v][..n] == if k < n then h[..n][k := v] else h[..n];
    if k < n {
      SumUpdate(h[..n], k, v);
    }
  }

  lemma {:induction false} SumZero(h: seq<int>)
    requires forall i :: 0 <= i < |h| ==> h[i] == 0
    ensures Sum(h) == 0
  {
    if h != [] {
      SumZero(h[..|h| - 1]);
    }
  }

  /** From s to r only thread t moves, except that sleepers may be woken. */
  ghost predicate Moves(s: State, r: State, t: Tid) {
    forall u :: u != t ==> At(r, u) == At(s, u) || (At(s, u).WSleep? && At(r, u).WWait?)
  }

  lemma ApplyMoves(s: State, a: Action)
    requires Enabled(s, a)
    ensures Moves(s, Apply(s, a), a.t)
  {
  }

  /** A set of threads changes by at most the thread that moves. */
  lemma MoveOne(before: set<Tid>, after: set<Tid>, t: Tid)
    requires forall u :: u != t ==> (u in before <==> u in after)
    ensures |after| - |before| == One(t in after) - One(t in before)
  {
    if t in before && t !in after {
      assert before == after + {t};
    } else if t !in before && t in after {
      assert after == before + {t};
    } else {
      assert after == before;
    }
  }

  lemma CountsMove(s: State, r: State, t: Tid)
    requires Moves(s, r, t)
    ensures |CountedIn(r)| - |CountedIn(s)| == One(IsCountedIn(At(r, t))) - One(IsCountedIn(At(s, t)))
    ensures |Writers(r)| - |Writers(s)| == One(IsWriter(At(r, t))) - One(IsWriter(At(s, t)))
  {
    forall u
      ensures u in CountedIn(s) <==> IsCountedIn(At(s, u))
      ensures u in CountedIn(r) <==> IsCountedIn(At(r, u))
      ensures u in Writers(s) <==> IsWriter(At(s, u))
      ensures u in Writers(r) <==> IsWriter(At(r, u))
    {
    }
    MoveOne(CountedIn(s), CountedIn(r), t);
    MoveOne(Writers(s), Writers(r), t);
  }

  lemma SemMove(s: State, r: State, t: Tid)
    requires SemInv(s) && Moves(s, r, t)
    requires r.semWriter == if HoldsSem(At(r, t)) then s.semWriter + {t} else s.semWriter - {t}
    requires r.semReaders == if HoldsSemRead(At(r, t)) then s.semReaders + {t} else s.semReaders - {t}
    requires HoldsSem(At(r, t)) && !HoldsSem(At(s, t)) ==> s.semReaders == {} == s.semWriter
    requires HoldsSemRead(At(r, t)) && !HoldsSemRead(At(s, t)) ==> s.semWriter == {}
    ensures SemInv(r)
  {
    assert t in s.semWriter <==> HoldsSem(At(s, t));
    assert t in s.semReaders <==> HoldsSemRead(At(s, t));
  }

  lemma SemStep(s: State, a: Action)
    requires SemInv(s) && Enabled(s, a)
    ensures SemInv(Apply(s, a))
  {
    ApplyMoves(s, a);
    assert a.t in s.semWriter <==> HoldsSem(At(s, a.t));
    assert a.t in s.semReaders <==> HoldsSemRead(At(s, a.t));
    SemMove(s, Apply(s, a), a.t);
  }

  lemma GraceMove(s: State, r: State, t: Tid)
    requires GraceInv(s) && Moves(s, r, t) && r.clock >= s.clock
    requires InSection(At(r, t)) ==> At(r, t).id < r.clock
    requires At(r, t).Committed? ==> At(r, t) == At(s, t) || Writers(s) == {}
    requires At(r, t).WGrace? ==> At(r, t) == At(s, t) || At(r, t).stamp == s.clock
    requires PastGrace(At(r, t)) && !PastGrace(At(s, t)) ==> At(s, t).WGrace? && GracePeriodOver(s, At(s, t).stamp)
    ensures GraceInv(r)
  {
    if At(r, t).Committed? && At(r, t) != At(s, t) {
      forall w ensures !IsWriter(At(s, w)) {
        assert w !in Writers(s);
      }
    }
    if At(r, t).WGrace? && At(r, t) != At(s, t) {
      forall u | At(r, u).Committed? ensures At(r, u).id < s.clock {
        assert InSection(At(s, u));
      }
    }
    if PastGrace(At(r, t)) && !PastGrace(At(s, t)) {
      forall u | At(s, u).Committed? ensures false {
        assert u in s.pc && InSection(s.pc[u]);
      }
    }
  }

  lemma GraceStep(s: State, a: Action)
    requires GraceInv(s) && s.writersCnt == |Writers(s)| && Enabled(s, a)
    ensures GraceInv(Apply(s, a))
  {
    ApplyMoves(s, a);
    GraceMove(s, Apply(s, a), a.t);
  }

  lemma ClearedMove(s: State, r: State, t: Tid)
    requires ClearedInv(s) && Moves(s, r, t)
    requires r.highway == s.highway || forall u :: HoldsSem(At(s, u)) ==> u == t
    requires HoldsSem(At(r, t)) ==> Cleared(At(r, t), r.highway)
    ensures ClearedInv(r)
  {
    forall u | u != t && HoldsSem(At(r, u)) ensures Cleared(At(r, u), r.highway) {
      assert HoldsSem(At(s, u));
      assert Cleared(At(s, u), s.highway);
    }
  }

  lemma OneHolder(s: State, t: Tid)
    requires SemInv(s) && GraceInv(s)
    ensures HoldsSem(At(s, t)) ==> s.semWriter == {t}
    ensures At(s, t).Committed? ==> s.semWriter == {}
    ensures HoldsSemRead(At(s, t)) ==> s.semWriter == {}
    ensures forall u :: HoldsSem(At(s, u)) <==> u in s.semWriter
  {
    if HoldsSem(At(s, t)) {
      assert forall u :: u in s.semWriter <==> u == t;
    }
    if At(s, t).Committed? && s.semWriter != {} {
      var w :| w in s.semWriter;
      assert PastGrace(At(s, w));
      assert false;
    }
    if HoldsSemRead(At(s, t)) {
      assert t in s.semReaders;
    }
  }

  lemma ClearedStep(s: State, a: Action)
    requires ClearedInv(s) && SemInv(s) && GraceInv(s) && Enabled(s, a)
    ensures ClearedInv(Apply(s, a))
  {
    ApplyMoves(s, a);
    OneHolder(s, a.t);
    if HoldsSem(At(s, a.t)) {
      assert Cleared(At(s, a.t), s.highway);
    }
    ClearedMove(s, Apply(s, a), a.t);
  }

  lemma BalanceMove(s: State, r: State, t: Tid)
    requires BalanceInv(s) && SemInv(s) && SemInv(r) && Moves(s, r, t)
    requires r.highway == s.highway || s.semWriter <= {t}
    requires
      Sum(r.highway) + r.lowway + Collected(r, t) - Sum(s.highway) - s.lowway - Collected(s, t) ==
      One(IsCountedIn(At(r, t))) - One(IsCountedIn(At(s, t)))
    ensures BalanceInv(r)
  {
    CountsMove(s, r, t);
    assert t in s.semWriter <==> HoldsSem(At(s, t));
    assert t in r.semWriter <==> HoldsSem(At(r, t));
    forall u | u in r.semWriter
      ensures Sum(r.highway) + r.lowway + Collected(r, u) == |CountedIn(r)|
    {
      assert HoldsSem(At(r, u));
      if u != t {
        assert HoldsSem(At(s, u));
        assert u in s.semWriter;
        assert t !in r.semWriter && t !in s.semWriter;
      }
    }
    if r.semWriter == {} && s.semWriter != {} {
      var w :| w in s.semWriter;
      assert HoldsSem(At(s, w));
      assert w != t ==> HoldsSem(At(r, w));
    }
  }

  lemma BalanceStep(s: State, a: Action)
    requires BalanceInv(s) && SemInv(s) && GraceInv(s) && Enabled(s, a)
    ensures BalanceInv(Apply(s, a))
  {
    ApplyMoves(s, a);
    SemStep(s, a);
    OneHolder(s, a.t);
    SumChange(s, a);
    BalanceMove(s, Apply(s, a), a.t);
  }

  /** One action changes the counters by exactly what it changes in who is counted in. */
  lemma SumChange(s: State, a: Action)
    requires Enabled(s, a)
    ensures var r, t := Apply(s, a), a.t;
      Sum(r.highway) + r.lowway + Collected(r, t) - Sum(s.highway) - s.lowway - Collected(s, t) ==
      One(IsCountedIn(At(r, t))) - One(IsCountedIn(At(s, t)))
  {
    match a {
      case Add(t, cpu) => SumUpdate(s.highway, cpu, Apply(s, a).highway[cpu]);
      case ClearZero(t) => SumUpdate(s.highway, At(s, t).cpu, 0);
      case LowInc(t) => LowChange(s, a);
      case LowDec(t) => LowChange(s, a);
      case SumAdd(t) => CarryChange(s, a);
      case ClearRead(t) => CarryChange(s, a);
      case _ => QuietChange(s, a);
    }
  }

  /** The slow lane counts its reader in and out. */
  lemma LowChange(s: State, a: Action)
    requires Enabled(s, a) && (a.LowInc? || a.LowDec?)
    ensures var r, t := Apply(s, a), a.t;
      && r.highway == s.highway && Collected(r, t) == Collected(s, t)
      && r.lowway - s.lowway == One(IsCountedIn(At(r, t))) - One(IsCountedIn(At(s, t)))
  {
  }

  /** What a writer takes from one place it has in the other. */
  lemma CarryChange(s: State, a: Action)
    requires Enabled(s, a) && (a.SumAdd? || a.ClearRead?)
    ensures var r, t := Apply(s, a), a.t;
      && r.highway == s.highway && r.lowway + Collected(r, t) == s.lowway + Collected(s, t)
      && !IsCountedIn(At(r, t)) && !IsCountedIn(At(s, t))
  {
  }

  /** Every other action leaves the counters, and its thread's share in them, alone. */
  lemma QuietChange(s: State, a: Action)
    requires Enabled(s, a) && !a.Add? && !a.ClearZero? && !a.LowInc? && !a.LowDec? && !a.SumAdd? && !a.ClearRead?
    ensures var r := Apply(s, a);
      && r.highway == s.highway && r.lowway == s.lowway && Collected(r, a.t) == Collected(s, a.t)
      && (IsCountedIn(At(r, a.t)) <==> IsCountedIn(At(s, a.t)))
  {
  }

  lemma WakeMove(s: State, r: State, t: Tid)
    requires WakeInv(s) && Moves(s, r, t)
    requires At(r, t).Writing? ==> r.lowway == 0
    requires At(r, t).WSleep? ==> r.lowway != 0
    requires forall u :: At(r, u).Writing? ==> r.lowway == 0
    requires || (r.lowway == s.lowway && !At(s, t).LowWake?)
             || r.lowway != 0 || At(r, t).LowWake?
             || forall u :: !At(r, u).WSleep?
    ensures WakeInv(r)
  {
    forall u | At(r, u).WSleep? && r.lowway == 0 ensures exists w :: At(r, w).LowWake? {
      if At(r, t).LowWake? {
      } else {
        assert u != t && At(s, u).WSleep?;
        var w :| At(s, w).LowWake?;
        assert At(r, w).LowWake?;
      }
    }
  }

  lemma WakeStep(s: State, a: Action)
    requires WakeInv(s) && SemInv(s) && BalanceInv(s) && GraceInv(s) && ClearedInv(s) && Enabled(s, a)
    ensures WakeInv(Apply(s, a))
  {
    var r := Apply(s, a);
    ApplyMoves(s, a);
    OneHolder(s, a.t);
    forall u | At(r, u).Writing? ensures r.lowway == 0 {
      if u != a.t {
        WritingQuiet(s, u);
        assert a.t !in CountedIn(s);
      }
    }
    if a.Wake? || a.SumAdd? || a.LowInc? {
      forall u ensures !At(r, u).WSleep? {
        assert HoldsSem(At(s, u)) <==> u in s.semWriter;
      }
    }
    WakeMove(s, r, a.t);
  }

  /** A writer inside its critical section faces no reader at all. */
  lemma WritingQuiet(s: State, w: Tid)
    requires SemInv(s) && GraceInv(s) && ClearedInv(s) && BalanceInv(s) && WakeInv(s)
    requires At(s, w).Writing?
    ensures CountedIn(s) == {}
  {
    OneHolder(s, w);
    assert Cleared(At(s, w), s.highway);
    SumZero(s.highway);
    assert w in s.semWriter;
  }

  lemma InvStep(s: State, a: Action)
    requires Inv(s) && Enabled(s, a)
    ensures Inv(Apply(s, a))
  {
    SemStep(s, a);
    GraceStep(s, a);
    ApplyMoves(s, a);
    CountsMove(s, Apply(s, a), a.t);
    ClearedStep(s, a);
    BalanceStep(s, a);
    WakeStep(s, a);
  }

  // ------------------------------------------------------------ main results

  lemma {:induction false} RunInv(trace: seq<State>, acts: seq<Action>, i: nat)
    requires Run(trace, acts) && i < |trace|
    ensures Inv(trace[i])
  {
    if i == 0 {
      SumZero(trace[0].highway);
      assert CountedIn(trace[0]) == {} && Writers(trace[0]) == {};
    } else {
      RunInv(trace, acts, i - 1);
      assert trace[i - 1 + 1] == Apply(trace[i - 1], acts[i - 1]);
      InvStep(trace[i - 1], acts[i - 1]);
    }
  }

  /** Mutual exclusion in every run: while a writer is between the return of
      rps_down_write and the start of rps_up_write, no other thread is in a
      read-side or write-side critical section, whatever lane the readers came
      in by and however they locked. */
  lemma MutualExclusion(trace: seq<State>, acts: seq<Action>)
    requires Run(trace, acts)
    ensures forall i, w, u :: 0 <= i < |trace| && At(trace[i], w).Writing? && u != w ==>
      !At(trace[i], u).Reading? && !At(trace[i], u).Writing?
  {
    forall i, w, u | 0 <= i < |trace| && At(trace[i], w).Writing? && u != w
      ensures !At(trace[i], u).Reading? && !At(trace[i], u).Writing?
    {
      var s := trace[i];
      RunInv(trace, acts, i);
      OneHolder(s, w);
      WritingQuiet(s, w);
      assert u !in CountedIn(s);
      assert HoldsSem(At(s, u)) <==> u in s.semWriter;
    }
  }

  /** Conservation in every run: highway plus lowway plus what the one writer
      that may hold rw_sem has collected equals the number of readers counted in
      and not yet counted out. */
  lemma CountersBalance(trace: seq<State>, acts: seq<Action>, i: nat)
    requires Run(trace, acts) && i < |trace|
    ensures (forall t :: !HoldsSem(At(trace[i], t))) ==>
      Sum(trace[i].highway) + trace[i].lowway == |CountedIn(trace[i])|
    ensures forall t :: HoldsSem(At(trace[i], t)) ==>
      Sum(trace[i].highway) + trace[i].lowway + Collected(trace[i], t) == |CountedIn(trace[i])|
    ensures forall t :: Drained(At(trace[i], t)) ==> trace[i].lowway == |CountedIn(trace[i])|
  {
    var s := trace[i];
    RunInv(trace, acts, i);
    OneHolder(s, 0);
    if forall t :: !HoldsSem(At(s, t)) {
      assert s.semWriter == {};
    }
    forall t | Drained(At(s, t)) ensures s.lowway == |CountedIn(s)| {
      assert Cleared(At(s, t), s.highway);
      SumZero(s.highway);
    }
  }

  /** A waiting writer is admitted exactly when no reader is left, and it never
      sleeps through the moment the last reader leaves: either readers remain,
      or the thread whose decrement reached zero is about to wake it. */
  lemma NoLostWakeup(trace: seq<State>, acts: seq<Action>, i: nat, w: Tid)
    requires Run(trace, acts) && i < |trace|
    ensures At(trace[i], w).WWait? ==>
      (At(Apply(trace[i], WTest(w)), w).Writing? <==> CountedIn(trace[i]) == {})
    ensures At(trace[i], w).WSleep? ==>
      CountedIn(trace[i]) != {} || exists r :: At(trace[i], r).LowWake?
  {
    var s := trace[i];
    RunInv(trace, acts, i);
    CountersBalance(trace, acts, i);
    if At(s, w).WWait? || At(s, w).WSleep? {
      assert Drained(At(s, w));
      assert s.lowway == |CountedIn(s)|;
    }
  }

  /** While some writer holds rw_sem, an action counts nobody in. */
  lemma OnlyLeaving(s: State, a: Action, w: Tid)
    requires Inv(s) && Enabled(s, a) && HoldsSem(At(s, w))
    ensures CountedIn(Apply(s, a)) <= CountedIn(s)
  {
    var r := Apply(s, a);
    ApplyMoves(s, a);
    OneHolder(s, w);
    OneHolder(s, a.t);
    forall t | t in CountedIn(r) ensures t in CountedIn(s) {
      assert IsCountedIn(At(r, t));
      assert t != a.t ==> At(r, t) == At(s, t);
    }
  }

  /** The wait of a writer is bounded: from the moment it holds rw_sem until it
      gives it up, readers only leave, so those it waits for are among the ones
      counted in when it took the semaphore. */
  lemma ReadersOnlyLeave(trace: seq<State>, acts: seq<Action>, i: nat, j: nat, w: Tid)
    requires Run(trace, acts) && i <= j < |trace|
    requires forall k :: i <= k < j ==> HoldsSem(At(trace[k], w))
    ensures CountedIn(trace[j]) <= CountedIn(trace[i])
  {
    var counted := seq(|trace|, k requires 0 <= k < |trace| => CountedIn(trace[k]));
    forall k | i <= k < j ensures counted[k + 1] <= counted[k] {
      LeavingAt(trace, acts, k, w);
    }
    Shrinking(counted, i, j);
  }

  lemma {:induction false} Shrinking(c: seq<set<Tid>>, i: nat, j: nat)
    requires i <= j < |c| && forall k :: i <= k < j ==> c[k + 1] <= c[k]
    ensures c[j] <= c[i]
  {
    if i < j {
      Shrinking(c, i, j - 1);
      assert c[j - 1 + 1] <= c[j - 1];
    }
  }

  lemma LeavingAt(trace: seq<State>, acts: seq<Action>, k: nat, w: Tid)
    requires Run(trace, acts) && k < |acts| && HoldsSem(At(trace[k], w))
    ensures CountedIn(trace[k + 1]) <= CountedIn(trace[k])
  {
    RunInv(trace, acts, k);
    OnlyLeaving(trace[k], acts[k], w);
  }

  /** The thread can always take its next step on its own. */
  lemma NeverBlocked(s: State, t: Tid)
    requires Inv(s) && |s.highway| > 0
    requires var p := At(s, t); !p.Idle? && !p.LowWait? && !p.WGrace? && !p.WGrace2? && !p.WGraced? && !p.WSleep?
    ensures exists a: Action :: a.t == t && Enabled(s, a)
  {
    var p := At(s, t);
    if HoldsSem(p) {
      assert Cleared(p, s.highway);
    }
    var a :=
      if p.Checking? then Test(t) else if p.Committed? then Add(t, 0)
      else if p.Added? || p.Refused? then Leave(t) else if p.LowHold? then LowInc(t)
      else if p.LowCounted? then SemReadUp(t) else if p.LowLeave? then LowDec(t)
      else if p.LowWake? then Wake(t) else if p.Reading? then Enter(t, Unlock)
      else if p.WCounted? || p.WReleased? then GraceStart(t)
      else if p.WClear? then (if p.cpu < |s.highway| then ClearRead(t) else ClearDone(t))
      else if p.WZero? then ClearZero(t) else if p.WSum? then SumAdd(t)
      else if p.WWait? then WTest(t) else if p.Writing? then SemWriteUp(t) else WDec(t);
    assert a.t == t && Enabled(s, a);
  }

  /** Whoever holds rw_sem for writing is not stuck for good: it can move, or a
      thread it waits for can. */
  lemma HolderMoves(s: State, w: Tid)
    requires Inv(s) && |s.highway| > 0 && HoldsSem(At(s, w))
    ensures exists a: Action :: !At(s, a.t).Idle? && Enabled(s, a)
  {
    if At(s, w).WSleep? {
      if r :| At(s, r).LowWake? {
        NeverBlocked(s, r);
      } else {
        assert Cleared(At(s, w), s.highway);
        SumZero(s.highway);
        assert w in s.semWriter;
        assert CountedIn(s) != {};
        var r :| r in CountedIn(s);
        NeverBlocked(s, r);
      }
    } else {
      NeverBlocked(s, w);
    }
  }

  lemma SectionMoves(s: State, stamp: nat)
    requires Inv(s) && |s.highway| > 0 && !GracePeriodOver(s, stamp)
    ensures exists a: Action :: !At(s, a.t).Idle? && Enabled(s, a)
  {
    var r :| r in s.pc && InSection(s.pc[r]) && s.pc[r].id < stamp;
    NeverBlocked(s, r);
  }

  /** Deadlock freedom in every run: as long as some thread is inside a lock
      call or a critical section, some such thread has an enabled action. */
  lemma DeadlockFree(trace: seq<State>, acts: seq<Action>, i: nat, t: Tid)
    requires Run(trace, acts) && i < |trace| && |trace[i].highway| > 0
    requires !At(trace[i], t).Idle?
    ensures exists a: Action :: !At(trace[i], a.t).Idle? && Enabled(trace[i], a)
  {
    var s := trace[i];
    RunInv(trace, acts, i);
    var p := At(s, t);
    if p.LowWait? || p.WGraced? {
      if s.semWriter != {} {
        var w :| w in s.semWriter;
        HolderMoves(s, w);
      } else if p.LowWait? {
        assert Enabled(s, SemRead(t));
      } else if s.semReaders != {} {
        var r :| r in s.semReaders;
        assert HoldsSemRead(At(s, r));
        NeverBlocked(s, r);
      } else {
        assert Enabled(s, SemWrite(t));
      }
    } else if p.WGrace? || p.WGrace2? {
      if GracePeriodOver(s, p.stamp) {
        assert Enabled(s, GraceEnd(t));
      } else {
        SectionMoves(s, p.stamp);
      }
    } else if p.WSleep? {
      HolderMoves(s, t);
    } else {
      NeverBlocked(s, t);
    }
  }

  // ------------------------------------------------- what a call ends with

  /** Inside a call for reading made with `why`, and not reading yet. */
  predicate InReadCall(p: Pc, why: Purpose) {
    || ((p.Checking? || p.Committed? || p.Added? || p.Refused? || p.LowWait?) && p.why == why)
    || p.LowHold? || p.LowCounted?
  }

  predicate InReadUnlock(p: Pc) {
    || ((p.Checking? || p.Committed? || p.Added? || p.Refused?) && p.why.Unlock?)
    || p.LowLeave? || p.LowWake?
  }

  predicate InWriteCall(p: Pc) {
    || p.WCounted? || p.WGrace? || p.WGraced?
    || p.WClear? || p.WZero? || p.WSum? || p.WWait? || p.WSleep?
  }

  predicate InWriteUnlock(p: Pc) {
    p.WReleased? || p.WGrace2? || p.WGraced2?
  }

  /** Each call is left only where it has to end. */
  lemma CallStep(s: State, a: Action, t: Tid)
    requires Enabled(s, a)
    ensures var p, r := At(s, t), At(Apply(s, a), t);
      && (InReadCall(p, Lock) ==> InReadCall(r, Lock) || r.Reading?)
      && (InReadCall(p, TryLock) ==> InReadCall(r, TryLock) || r.Reading? || a == TryFail(t))
      && (InReadUnlock(p) ==> InReadUnlock(r) || r.Idle?)
      && (InWriteCall(p) ==> InWriteCall(r) || r.Writing?)
      && (InWriteUnlock(p) ==> InWriteUnlock(r) || r.Idle?)
  {
    ApplyMoves(s, a);
  }

  lemma CallStepAt(trace: seq<State>, acts: seq<Action>, k: nat, t: Tid)
    requires Run(trace, acts) && k < |acts|
    ensures var p, r := At(trace[k], t), At(trace[k + 1], t);
      && (InReadCall(p, Lock) ==> InReadCall(r, Lock) || r.Reading?)
      && (InReadCall(p, TryLock) ==> InReadCall(r, TryLock) || r.Reading? || acts[k] == TryFail(t))
      && (InReadUnlock(p) ==> InReadUnlock(r) || r.Idle?)
      && (InWriteCall(p) ==> InWriteCall(r) || r.Writing?)
      && (InWriteUnlock(p) ==> InWriteUnlock(r) || r.Idle?)
  {
    CallStep(trace[k], acts[k], t);
  }

  /** Whoever is inside at `i` and outside at `j` has passed an exit. */
  lemma {:induction false} Leaves(inside: seq<bool>, exit: seq<bool>, i: nat, j: nat)
    requires |inside| == |exit| && i <= j < |inside| && inside[i] && !inside[j]
    requires forall k :: i <= k < j && inside[k] ==> inside[k + 1] || exit[k + 1]
    ensures exists k :: i < k <= j && exit[k]
  {
    if inside[j - 1] {
      assert exit[j - 1 + 1];
    } else {
      Leaves(inside, exit, i, j - 1);
    }
  }

  /** rps_down_read returns with the lock held: between the call and the thread's
      next idle moment it has been reading. */
  lemma ReadCallHolds(trace: seq<State>, acts: seq<Action>, i: nat, j: nat, t: Tid)
    requires Run(trace, acts) && i < j < |trace| && acts[i] == Enter(t, Lock) && At(trace[j], t).Idle?
    ensures exists k :: i < k < j && At(trace[k], t).Reading?
  {
    var inside := seq(|trace|, k requires 0 <= k < |trace| => InReadCall(At(trace[k], t), Lock));
    var exit := seq(|trace|, k requires 0 <= k < |trace| => At(trace[k], t).Reading?);
    forall k | i < k < j && inside[k] ensures inside[k + 1] || exit[k + 1] {
      CallStepAt(trace, acts, k, t);
    }
    Leaves(inside, exit, i + 1, j);
    var k :| i + 1 < k <= j && exit[k];
    assert At(trace[k], t).Reading?;
  }

  /** rps_down_read_try_lock gives up only where down_read_trylock has failed. */
  lemma TryCallHolds(trace: seq<State>, acts: seq<Action>, i: nat, j: nat, t: Tid)
    requires Run(trace, acts) && i < j < |trace| && acts[i] == Enter(t, TryLock) && At(trace[j], t).Idle?
    ensures exists k :: i < k < j && (At(trace[k], t).Reading? || acts[k] == TryFail(t))
  {
    var inside := seq(|trace|, k requires 0 <= k < |trace| => InReadCall(At(trace[k], t), TryLock));
    var exit := seq(|trace|, k requires 0 <= k < |trace| => TryOver(trace, acts, k, t));
    forall k | i < k < j && inside[k] ensures inside[k + 1] || exit[k + 1] {
      CallStepAt(trace, acts, k, t);
    }
    Leaves(inside, exit, i + 1, j);
    var k :| i + 1 < k <= j && exit[k];
    assert TryOver(trace, acts, k, t);
    assert At(trace[k], t).Reading? || acts[k - 1] == TryFail(t);
  }

  /** At `k` the thread is reading, or its last action was to give up. */
  predicate TryOver(trace: seq<State>, acts: seq<Action>, k: nat, t: Tid)
    requires k < |trace| == |acts| + 1
  {
    At(trace[k], t).Reading? || (k > 0 && acts[k - 1] == TryFail(t))
  }

  /** rps_down_write returns in the write-side critical section. */
  lemma WriteCallHolds(trace: seq<State>, acts: seq<Action>, i: nat, j: nat, t: Tid)
    requires Run(trace, acts) && i < j < |trace| && acts[i] == WInc(t) && At(trace[j], t).Idle?
    ensures exists k :: i < k < j && At(trace[k], t).Writing?
  {
    var inside := seq(|trace|, k requires 0 <= k < |trace| => InWriteCall(At(trace[k], t)));
    var exit := seq(|trace|, k requires 0 <= k < |trace| => At(trace[k], t).Writing?);
    forall k | i < k < j && inside[k] ensures inside[k + 1] || exit[k + 1] {
      CallStepAt(trace, acts, k, t);
    }
    Leaves(inside, exit, i + 1, j);
    var k :| i + 1 < k <= j && exit[k];
    assert At(trace[k], t).Writing?;
  }

  /** Having unlocked, a thread is back in a section only after it has been idle,
      that is, through a new call. */
  lemma UnlockEnds(trace: seq<State>, acts: seq<Action>, i: nat, j: nat, t: Tid)
    requires Run(trace, acts) && i < j < |trace| && (acts[i] == Enter(t, Unlock) || acts[i] == SemWriteUp(t))
    requires At(trace[j], t).Reading? || At(trace[j], t).Writing?
    ensures exists k :: i < k < j && At(trace[k], t).Idle?
  {
    var inside := seq(|trace|, k requires 0 <= k < |trace| => InReadUnlock(At(trace[k], t)) || InWriteUnlock(At(trace[k], t)));
    var exit := seq(|trace|, k requires 0 <= k < |trace| => At(trace[k], t).Idle?);
    forall k | i < k < j && inside[k] ensures inside[k + 1] || exit[k + 1] {
      CallStepAt(trace, acts, k, t);
    }
    Leaves(inside, exit, i + 1, j);
    var k :| i + 1 < k <= j && exit[k];
    assert At(trace[k], t).Idle?;
  }

  /** How many steps of its own a thread is at most away from the end of its call,
      a writer that sleeps being woken at most once more. */
  function StepsLeft(p: Pc, cpus: nat): (r: nat) {
    match p
    case Idle => 0
    case Checking(_, _) => 5
    case Committed(_, _) => 2
    case Added(_, _) => 1
    case Refused(_, _) => 4
    case LowWait(_) => 3
    case LowHold => 2
    case LowCounted => 1
    case LowLeave => 2
    case LowWake => 1
    case Reading => 0
    case WCounted => 2 * cpus + 6
    case WGrace(_) => 2 * cpus + 5
    case WGraced => 2 * cpus + 4
    case WClear(cpu, _) => 3 + if cpu <= cpus then 2 * (cpus - cpu) else 0
    case WZero(cpu, _) => 2 + if cpu <= cpus then 2 * (cpus - cpu) else 0
    case WSum(_) => 2
    case WWait => 1
    case WSleep => 0
    case Writing => 0
    case WReleased => 3
    case WGrace2(_) => 2
    case WGraced2 => 1
  }

  /** The action begins a call. */
  predicate Begins(a: Action) { a.Enter? || a.WInc? || a.SemWriteUp? }

  /** Nobody goes round in circles: inside a call every action of a thread brings
      it nearer to the end, and no other thread's action takes it further away
      except by waking it. */
  lemma CallAdvances(s: State, a: Action, t: Tid)
    requires Enabled(s, a)
    ensures var r, cpus := Apply(s, a), |s.highway|;
      && |r.highway| == cpus
      && (t == a.t && !Begins(a) ==> StepsLeft(At(r, t), cpus) < StepsLeft(At(s, t), cpus))
      && (t != a.t ==> At(r, t) == At(s, t) || (At(s, t).WSleep? && At(r, t).WWait?))
  {
    ApplyMoves(s, a);
  }

  /** The actions of `t` from `i` up to `j`. */
  ghost function OwnActions(acts: seq<Action>, t: Tid, i: nat, j: nat): (r: nat)
    requires i <= j <= |acts|
  {
    if i == j then 0 else OwnActions(acts, t, i, j - 1) + if acts[j - 1].t == t then 1 else 0
  }

  /** A call takes a bounded number of steps: five for a reader, twice the number
      of CPUs and six for a writer until it first tests the count of readers. */
  lemma CallBounded(trace: seq<State>, acts: seq<Action>, i: nat, j: nat, t: Tid)
    requires Run(trace, acts) && i <= j < |trace|
    requires forall k :: i <= k < j ==> !(acts[k].t == t && Begins(acts[k])) && !At(trace[k], t).WSleep?
    ensures OwnActions(acts, t, i, j) + Left(trace, j, t) <= Left(trace, i, t)
  {
    var left := seq(|trace|, k requires 0 <= k < |trace| => Left(trace, k, t));
    forall k | i <= k < j ensures left[k + 1] + (if acts[k].t == t then 1 else 0) <= left[k] {
      LeftStep(trace, acts, k, t);
    }
    CountDown(left, acts, t, i, j);
  }

  function Left(trace: seq<State>, k: nat, t: Tid): (r: nat)
    requires k < |trace|
  {
    StepsLeft(At(trace[k], t), |trace[k].highway|)
  }

  lemma LeftStep(trace: seq<State>, acts: seq<Action>, k: nat, t: Tid)
    requires Run(trace, acts) && k < |acts|
    requires !(acts[k].t == t && Begins(acts[k])) && !At(trace[k], t).WSleep?
    ensures Left(trace, k + 1, t) + (if acts[k].t == t then 1 else 0) <= Left(trace, k, t)
  {
    CallAdvances(trace[k], acts[k], t);
  }

  lemma {:induction false} CountDown(left: seq<nat>, acts: seq<Action>, t: Tid, i: nat, j: nat)
    requires i <= j < |left| == |acts| + 1
    requires forall k :: i <= k < j ==> left[k + 1] + (if acts[k].t == t then 1 else 0) <= left[k]
    ensures OwnActions(acts, t, i, j) + left[j] <= left[i]
  {
    if i < j {
      CountDown(left, acts, t, i, j - 1);
      assert left[j - 1 + 1] + (if acts[j - 1].t == t then 1 else 0) <= left[j - 1];
    }
  }

  // ------------------------------------------- the counters, updated in place

  class Counters {
    const highway: array<int>
    var lowway: int
    var writersCnt: int

    constructor (cpus: nat)
      ensures fresh(highway) && highway.Length == cpus
      ensures forall i :: 0 <= i < cpus ==> highway[i] == 0
      ensures lowway == 0 && writersCnt == 0
    {
      highway := new int[cpus](i => 0);
      lowway, writersCnt := 0, 0;
    }

    /** The number of readers the counters stand for. */
    ghost function Total(): (r: int)
      reads this, highway
    {
      Sum(highway[..]) + lowway
    }

    /** `go_highway` on CPU `cpu`, its section run without interruption. */
    method GoHighway(cpu: nat, val: int) returns (taken: bool)
      requires cpu < highway.Length
      modifies highway
      ensures taken <==> writersCnt == 0
      ensures Total() == old(Total()) + if taken then val else 0
      ensures forall i :: 0 <= i < highway.Length && i != cpu ==> highway[i] == old(highway[i])
    {
      taken := false;
      if writersCnt == 0 {
        ghost var before := highway[..];
        highway[cpu] := highway[cpu] + val;
        assert highway[..] == before[cpu := before[cpu] + val];
        SumUpdate(before, cpu, before[cpu] + val);
        taken := true;
      }
    }

    method ClearHighway() returns (sum: int)
      modifies highway
      ensures sum == Sum(old(highway[..]))
      ensures forall i :: 0 <= i < highway.Length ==> highway[i] == 0
    {
      sum := 0;
      ghost var before := highway[..];
      for cpu := 0 to highway.Length
        invariant sum == Sum(before[..cpu])
        invariant forall i :: 0 <= i < cpu ==> highway[i] == 0
        invariant forall i :: cpu <= i < highway.Length ==> highway[i] == before[i]
      {
        sum := sum + highway[cpu];
        highway[cpu] := 0;
        assert before[..cpu + 1][..cpu] == before[..cpu];
      }
      assert before[..highway.Length] == before;
    }

    /** The accounting part of `rps_down_write`: moving the highway into
        `lowway_cnt` keeps the total, so the counter alone shows it afterwards. */
    method Drain()
      modifies this`lowway, highway
      ensures Total() == old(Total()) && lowway == old(Total())
    {
      var sum := ClearHighway();
      lowway := lowway + sum;
      SumZero(highway[..]);
    }
  }
}
