/** What each operation of the segment manager does to the blocks, said without
    its code: which blocks are live, which are marked for discard, where a log
    goes next; and what follows over runs for a block that is handed out. */
module SegmentLaws {
  import opened Common
  import opened SegmentModel
  import opened SegmentSafety

  /** The block is in its segment's current map. */
  ghost predicate Live(s: State, b: Blk)
    requires Shape(s)
  {
    InMain(s.g, b) && b.off in s.sit.entries[b.seg].cur
  }

  /** The block is in its segment's discard map: it needs no discard command. */
  ghost predicate Marked(s: State, b: Blk)
    requires Shape(s)
  {
    InMain(s.g, b) && b.off in s.sit.entries[b.seg].discard
  }

  /** The block is neither live nor in the last checkpoint. */
  ghost predicate Usable(s: State, x: nat, k: nat)
    requires Shape(s) && x < s.g.segs
  {
    k < BLOCKS && k !in s.sit.entries[x].cur && k !in s.sit.entries[x].ckpt
  }

  // ---------------------------------------------------------------- one operation

  lemma UpdateLive(g: Geometry, sit: Sit, b: Blk, alloc: bool, x: nat)
    requires SitShape(g, sit) && InMain(g, b) && x < g.segs
    ensures var e, r := sit.entries[x], UpdateSit(g, sit, b, alloc).entries[x];
      && (forall k :: k in r.cur <==> if Blk(x, k) == b then alloc else k in e.cur)
      && (forall k :: k in r.discard <==> if Blk(x, k) == b then alloc else k in e.discard)
  {
  }

  /** Forcing or switching a log touches no block. */
  ghost predicate SameBlocks(s: State, r: State) {
    && s.g == r.g && |r.sit.entries| == |s.sit.entries|
    && forall x :: 0 <= x < |s.sit.entries| ==>
         var e, f := s.sit.entries[x], r.sit.entries[x];
         f.cur == e.cur && f.discard == e.discard && f.ckpt == e.ckpt
  }

  lemma PreparedBlocks(s: State, op: Op)
    requires Shape(s) && op.Alloc? && OpOk(s, op)
    ensures SameBlocks(s, Prepared(s, op))
  {
  }

  lemma SwitchBlocks(s: State, l: nat, c: Choice)
    requires Shape(s) && l < |s.logs| && c.x < s.g.segs
    ensures SameBlocks(s, Switch(s, l, c))
  {
  }

  lemma RefreshLive(s: State, prev: Option<Blk>, b: Blk, x: nat, k: nat)
    requires Shape(s) && InMain(s.g, b) && (prev.Some? ==> InMain(s.g, prev.value)) && prev != Some(b) && x < s.g.segs
    ensures var e, r := s.sit.entries[x], RefreshSit(s, prev, b).sit.entries[x];
      && (k in r.cur <==> Blk(x, k) == b || (k in e.cur && prev != Some(Blk(x, k))))
      && (k in r.discard <==> Blk(x, k) == b || (k in e.discard && prev != Some(Blk(x, k))))
  {
    UpdateLive(s.g, s.sit, b, true, x);
    if prev.Some? {
      UpdateLive(s.g, UpdateSit(s.g, s.sit, b, true), prev.value, false, x);
    }
  }

  lemma AllocateLive(s: State, l: nat, prev: Option<Blk>, c: Choice, x: nat, k: nat)
    requires Shape(s) && l < |s.logs| && s.logs[l].next < BLOCKS && c.x < s.g.segs && x < s.g.segs
    requires (prev.Some? ==> InMain(s.g, prev.value)) && prev != Some(Head(s, l))
    ensures var e, r := s.sit.entries[x], Allocate(s, l, prev, c).sit.entries[x];
      && (k in r.cur <==> Blk(x, k) == Head(s, l) || (k in e.cur && prev != Some(Blk(x, k))))
      && (k in r.discard <==> Blk(x, k) == Head(s, l) || (k in e.discard && prev != Some(Blk(x, k))))
  {
    var s1 := Advance(s, l);
    var s2 := if s1.logs[l].next < BLOCKS then s1 else Switch(s1, l, c);
    if s1.logs[l].next >= BLOCKS { SwitchBlocks(s1, l, c); }
    RefreshLive(s2, prev, Head(s, l), x, k);
  }

  /** An allocation makes the block it hands out live and its predecessor dead; an
      invalidation makes its block dead; nothing else changes what is live. */
  lemma OpLive(s: State, op: Op, b: Blk)
    requires Inv(s) && OpOk(s, op) && InMain(s.g, b)
    ensures Shape(Do(s, op))
    ensures Live(Do(s, op), b) <==>
      match op
      case Alloc(_, _, _, prev, _) => b == Handed(s, op) || (Live(s, b) && prev != Some(b))
      case Inval(d) => Live(s, b) && b != d
      case Ckpt => Live(s, b)
      case Trim(_) => Live(s, b)
  {
    DoInv(s, op);
    match op {
      case Alloc(_, _, _, _, _) => AllocLive(s, op, b);
      case Inval(d) => InvalLive(s, d, b);
      case Ckpt => CkptLive(s, b);
      case Trim(d) => TrimLive(s, d, b);
    }
  }

  lemma InvalLive(s: State, d: Blk, b: Blk)
    requires Shape(s) && InMain(s.g, d) && InMain(s.g, b)
    ensures Live(Invalidate(s, d), b) <==> Live(s, b) && b != d
    ensures Marked(Invalidate(s, d), b) <==> Marked(s, b) && b != d
  {
    UpdateLive(s.g, s.sit, d, false, b.seg);
  }

  lemma CkptLive(s: State, b: Blk)
    requires Shape(s) && Shape(Checkpoint(s)) && InMain(s.g, b)
    ensures Live(Checkpoint(s), b) <==> Live(s, b)
    ensures Marked(Checkpoint(s), b) <==> Marked(s, b)
  {
  }

  lemma TrimLive(s: State, d: Blk, b: Blk)
    requires Shape(s) && InMain(s.g, d) && InMain(s.g, b)
    ensures var r := s.(sit := Discard(s.g, s.sit, d));
      (Live(r, b) <==> Live(s, b)) && (Marked(r, b) <==> Marked(s, b) || b == d)
  {
  }

  lemma AllocLive(s: State, op: Op, b: Blk)
    requires Inv(s) && OpOk(s, op) && op.Alloc? && InMain(s.g, b) && Shape(Do(s, op))
    ensures Live(Do(s, op), b) <==> b == Handed(s, op) || (Live(s, b) && op.prev != Some(b))
    ensures Marked(Do(s, op), b) <==> b == Handed(s, op) || (Marked(s, b) && op.prev != Some(b))
  {
    PreparedBlocks(s, op);
    NotPrevious(s, op);
    AllocateLive(Prepared(s, op), op.l, op.prev, op.c, b.seg, b.off);
  }

  /** The block handed out is not the one given up for it. */
  lemma NotPrevious(s: State, op: Op)
    requires Inv(s) && OpOk(s, op) && op.Alloc?
    ensures InMain(s.g, Handed(s, op)) && !Live(s, Handed(s, op)) && op.prev != Some(Handed(s, op))
    ensures Usable(s, Handed(s, op).seg, Handed(s, op).off)
  {
    AllocationSafe([s, Do(s, op)], [op], 0);
  }

  /** The discard map follows the current map, and a discard adds its block. */
  lemma OpMarked(s: State, op: Op, b: Blk)
    requires Inv(s) && OpOk(s, op) && InMain(s.g, b)
    ensures Shape(Do(s, op))
    ensures Marked(Do(s, op), b) <==>
      match op
      case Alloc(_, _, _, prev, _) => b == Handed(s, op) || (Marked(s, b) && prev != Some(b))
      case Inval(d) => Marked(s, b) && b != d
      case Ckpt => Marked(s, b)
      case Trim(d) => Marked(s, b) || b == d
  {
    DoInv(s, op);
    match op {
      case Alloc(_, _, _, _, _) => AllocLive(s, op, b);
      case Inval(d) => InvalLive(s, d, b);
      case Ckpt => CkptLive(s, b);
      case Trim(d) => TrimLive(s, d, b);
    }
  }

  // ------------------------------------------------------------- where a log goes

  /** `k` is the first usable block of segment `x` from `from` on. */
  ghost predicate FirstUsable(s: State, x: nat, from: nat, k: nat)
    requires Shape(s) && x < s.g.segs
  {
    from <= k && Usable(s, x, k) && forall i: nat :: from <= i < k ==> !Usable(s, x, i)
  }

  /**
   * Where an allocation takes its block and leaves its log.  The block is the
   * log's head, or the first of a fresh segment where direct I/O asks for one.
   * The log then stands on the next usable block of the same segment; only if
   * there is none does it move, to the first usable block of the segment
   * chosen.  No other log moves.
   */
  lemma NextHead(s: State, op: Op)
    requires Inv(s) && OpOk(s, op) && op.Alloc?
    ensures var forced := op.direct && s.logs[op.l].next != 0;
      Handed(s, op) == if forced then Blk(op.seg, 0) else Blk(s.logs[op.l].segno, s.logs[op.l].next)
    ensures Shape(Do(s, op)) && |Do(s, op).logs| == |s.logs| && Handed(s, op).seg < s.g.segs && op.c.x < s.g.segs
    ensures forall m :: 0 <= m < |s.logs| && m != op.l ==> Do(s, op).logs[m] == s.logs[m]
    ensures var b, c := Handed(s, op), Do(s, op).logs[op.l];
      if c.segno == b.seg then FirstUsable(s, b.seg, b.off + 1, c.next)
      else
        && (forall k: nat :: b.off < k ==> !Usable(s, b.seg, k))
        && c.segno == op.c.x && (c.ssr <==> op.c.UseDirty?) && FirstUsable(s, op.c.x, 0, c.next)
  {
    var p := Prepared(s, op);
    PreparedInv(s, op);
    PreparedBlocks(s, op);
    PreparedLogs(s, op);
    DoInv(s, op);
    LogsAfter(p, op.l, op.prev, op.c);
    if Advance(p, op.l).logs[op.l].next < BLOCKS {
      StaysInSegment(s, p, op);
    } else {
      LeavesSegment(s, p, op);
    }
  }

  lemma PreparedLogs(s: State, op: Op)
    requires Shape(s) && op.Alloc? && OpOk(s, op)
    ensures var p := Prepared(s, op);
      && |p.logs| == |s.logs|
      && (forall m :: 0 <= m < |s.logs| && m != op.l ==> p.logs[m] == s.logs[m])
      && p.logs[op.l] == if op.direct && s.logs[op.l].next != 0 then Log(op.seg, 0, false) else s.logs[op.l]
  {
  }

  /** The logs once the block at the head of log `l` is allocated. */
  lemma LogsAfter(p: State, l: nat, prev: Option<Blk>, c: Choice)
    requires Shape(p) && l < |p.logs| && p.logs[l].next < BLOCKS && c.x < p.g.segs
    requires prev.Some? ==> InMain(p.g, prev.value)
    ensures var r, a := Allocate(p, l, prev, c), Advance(p, l);
      && |r.logs| == |p.logs| && a.logs[l].segno == p.logs[l].segno
      && (forall m :: 0 <= m < |p.logs| && m != l ==> r.logs[m] == p.logs[m])
      && r.logs[l] == (if a.logs[l].next < BLOCKS then a else Switch(a, l, c)).logs[l]
      && Switch(a, l, c).logs[l].segno == c.x && (Switch(a, l, c).logs[l].ssr <==> c.UseDirty?)
  {
  }

  lemma SameUsable(s: State, p: State, x: nat, k: nat)
    requires Shape(s) && Shape(p) && SameBlocks(s, p) && x < s.g.segs
    ensures Usable(s, x, k) <==> Usable(p, x, k)
  {
  }

  /** The search for a clear bit in both maps finds the first usable block. */
  lemma SearchFinds(s: State, x: nat, from: nat)
    requires Shape(s) && x < s.g.segs && from <= BLOCKS
    ensures var k := NextZero(s.sit.entries[x].cur + s.sit.entries[x].ckpt, from);
      && from <= k
      && (forall i: nat :: from <= i < k ==> !Usable(s, x, i))
      && (k < BLOCKS ==> Usable(s, x, k))
  {
    var e := s.sit.entries[x];
    var k := NextZero(e.cur + e.ckpt, from);
    forall i: nat | from <= i < k ensures !Usable(s, x, i) {
      assert i in e.cur + e.ckpt;
    }
  }

  lemma StaysInSegment(s: State, p: State, op: Op)
    requires Inv(s) && Inv(p) && op.Alloc? && op.l < |p.logs| && p.logs[op.l].next < BLOCKS && SameBlocks(s, p)
    requires Advance(p, op.l).logs[op.l].next < BLOCKS
    ensures FirstUsable(s, p.logs[op.l].segno, p.logs[op.l].next + 1, Advance(p, op.l).logs[op.l].next)
  {
    var c := p.logs[op.l];
    assert LogOk(p, op.l);
    if c.ssr { SearchFinds(p, c.segno, c.next + 1); }
    forall k: nat ensures Usable(s, c.segno, k) <==> Usable(p, c.segno, k) {
      SameUsable(s, p, c.segno, k);
    }
  }

  lemma LeavesSegment(s: State, p: State, op: Op)
    requires Inv(s) && Inv(p) && op.Alloc? && op.l < |p.logs| && p.logs[op.l].next < BLOCKS && SameBlocks(s, p)
    requires Advance(p, op.l).logs[op.l].next >= BLOCKS && ChoiceOk(p, op.c)
    ensures op.c.x != p.logs[op.l].segno
    ensures forall k: nat :: p.logs[op.l].next < k ==> !Usable(s, p.logs[op.l].segno, k)
    ensures FirstUsable(s, op.c.x, 0, Switch(Advance(p, op.l), op.l, op.c).logs[op.l].next)
  {
    SegmentFull(p, op.l);
    ChosenSegment(p, op.l, op.c);
    forall k: nat
      ensures Usable(s, p.logs[op.l].segno, k) <==> Usable(p, p.logs[op.l].segno, k)
      ensures Usable(s, op.c.x, k) <==> Usable(p, op.c.x, k)
    {
      SameUsable(s, p, p.logs[op.l].segno, k);
      SameUsable(s, p, op.c.x, k);
    }
  }

  lemma SegmentFull(p: State, l: nat)
    requires Inv(p) && l < |p.logs| && Advance(p, l).logs[l].next >= BLOCKS
    ensures forall k: nat :: p.logs[l].next < k ==> !Usable(p, p.logs[l].segno, k)
  {
    var c := p.logs[l];
    if c.ssr { SearchFinds(p, c.segno, c.next + 1); }
  }

  lemma ChosenSegment(p: State, l: nat, c: Choice)
    requires Inv(p) && l < |p.logs| && ChoiceOk(p, c)
    ensures c.x != p.logs[l].segno
    ensures FirstUsable(p, c.x, 0, Switch(Advance(p, l), l, c).logs[l].next)
  {
    var e := p.sit.entries[c.x];
    assert Classified(p, c.x);
    assert IsCurseg(p.logs, p.logs[l].segno);
    if c.UseDirty? {
      assert EntryOk(e);
      RoomLeft(e);
      SearchFinds(p, c.x, 0);
      assert p.g.SecOf(p.logs[l].segno) != p.g.SecOf(c.x);
    } else {
      assert Usable(p, c.x, 0);
    }
  }

  // ------------------------------------------------------------------------ runs

  ghost predicate GivesUp(op: Op, b: Blk) {
    op == Inval(b) || (op.Alloc? && op.prev == Some(b))
  }

  lemma LiveAt(trace: seq<State>, ops: seq<Op>, k: nat, b: Blk)
    requires Run(trace, ops) && k < |ops| && InMain(trace[0].g, b)
    ensures Shape(trace[k]) && Shape(trace[k + 1]) && trace[k].g == trace[k + 1].g == trace[0].g
    ensures Live(trace[k], b) && !GivesUp(ops[k], b) ==> Live(trace[k + 1], b)
    ensures ops[k].Alloc? && Handed(trace[k], ops[k]) == b ==> Live(trace[k + 1], b) && !Live(trace[k], b)
  {
    RunInv(trace, ops, k);
    RunInv(trace, ops, k + 1);
    GeometryFixed(trace, ops, k);
    OpLive(trace[k], ops[k], b);
    if ops[k].Alloc? {
      NotPrevious(trace[k], ops[k]);
    }
  }

  /** What was so at `i` and is not at `k` has ended in between. */
  lemma {:induction false} Ended(live: seq<bool>, ends: seq<bool>, i: nat, k: nat) returns (j: nat)
    requires |live| == |ends| + 1 && i <= k < |live| && live[i] && !live[k]
    requires forall m :: i <= m < k && live[m] && !ends[m] ==> live[m + 1]
    ensures i <= j < k && ends[j]
  {
    if live[k - 1] {
      j := k - 1;
    } else {
      j := Ended(live, ends, i, k - 1);
    }
  }

  /** A live block stays live until it is given up. */
  lemma LiveUntil(trace: seq<State>, ops: seq<Op>, i: nat, k: nat, b: Blk) returns (j: nat)
    requires Run(trace, ops) && i <= k <= |ops| && InMain(trace[0].g, b) && Shape(trace[i]) && Shape(trace[k])
    requires Live(trace[i], b) && !Live(trace[k], b)
    ensures i <= j < k && GivesUp(ops[j], b)
  {
    forall m | 0 <= m < |trace| ensures Shape(trace[m]) {
      RunInv(trace, ops, m);
    }
    var live := seq(|trace|, m requires 0 <= m < |trace| && Shape(trace[m]) => Live(trace[m], b));
    var ends := seq(|ops|, m requires 0 <= m < |ops| => GivesUp(ops[m], b));
    forall m | i <= m < k && live[m] && !ends[m] ensures live[m + 1] {
      LiveAt(trace, ops, m, b);
    }
    j := Ended(live, ends, i, k);
  }

  /**
   * A block is not handed out twice unless it was given up in between, in any
   * interleaving of operations.
   */
  lemma HandedOnce(trace: seq<State>, ops: seq<Op>, i: nat, k: nat)
    requires Run(trace, ops) && i < k < |ops| && ops[i].Alloc? && ops[k].Alloc?
    requires Shape(trace[i]) && Shape(trace[k]) && OpOk(trace[i], ops[i]) && OpOk(trace[k], ops[k])
    requires Handed(trace[i], ops[i]) == Handed(trace[k], ops[k])
    ensures exists j :: i < j < k && GivesUp(ops[j], Handed(trace[i], ops[i]))
  {
    var b := Handed(trace[i], ops[i]);
    RunInv(trace, ops, i);
    NotPrevious(trace[i], ops[i]);
    GeometryFixed(trace, ops, i);
    LiveAt(trace, ops, i, b);
    LiveAt(trace, ops, k, b);
    var j := LiveUntil(trace, ops, i + 1, k, b);
  }

  /** The last checkpoint before `k`, at or behind `c`. */
  lemma {:induction false} LastCheckpoint(ops: seq<Op>, c: nat, k: nat) returns (d: nat)
    requires c < k <= |ops| && ops[c].Ckpt?
    ensures c <= d < k && ops[d].Ckpt? && forall m :: d < m < k ==> !ops[m].Ckpt?
  {
    if ops[k - 1].Ckpt? {
      d := k - 1;
    } else {
      d := LastCheckpoint(ops, c, k - 1);
    }
  }

  /**
   * A block that is live at a checkpoint is handed out later only if it was
   * given up and a further checkpoint has been taken since.
   */
  lemma HandedAfterCheckpoint(trace: seq<State>, ops: seq<Op>, c: nat, k: nat)
    requires Run(trace, ops) && c < k < |ops| && ops[c].Ckpt? && ops[k].Alloc?
    requires Shape(trace[c]) && Shape(trace[k]) && OpOk(trace[k], ops[k])
    requires Live(trace[c], Handed(trace[k], ops[k]))
    ensures exists j, d :: c < j < d < k && GivesUp(ops[j], Handed(trace[k], ops[k])) && ops[d].Ckpt?
  {
    var b := Handed(trace[k], ops[k]);
    var d := LastCheckpoint(ops, c, k);
    CheckpointedBlocksKept(trace, ops, d, k);
    GeometryFixed(trace, ops, c);
    var j := LiveUntil(trace, ops, c, d, b);
    assert j != c;
  }
}
