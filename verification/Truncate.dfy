/**
 * Truncation of a file: the index tree of inode, direct, indirect and double
 * indirect nodes, what it maps each block index to, and the code that cuts it.
 *
 * Direct nodes are numbered in block order (IndexPath.Number); node `q` maps
 * the N blocks from direct + q * N on.
 */
module Truncate {
  import opened IndexPath

  datatype DNode = NoD | D(nid: nat, addrs: seq<nat>)
  datatype INode = NoI | I(nid: nat, kids: seq<DNode>)
  datatype DINode = NoDD | DD(nid: nat, kids: seq<INode>)

  /** The inode's own addresses and its five node slots. */
  datatype File = File(addrs: seq<nat>, dir: seq<DNode>, ind: seq<INode>, dind: DINode)

  const FIRST_IND: nat := 2                    // number of the first node below IND1
  const FIRST_DIND: nat := 2 + 2 * N           // number of the first node below DIND
  const NODES: nat := 2 + 2 * N + N * N        // how many direct nodes a tree can have

  ghost predicate DOk(d: DNode) { d.D? ==> d.nid > 0 && |d.addrs| == N }

  ghost predicate IOk(n: INode) {
    n.I? ==> n.nid > 0 && |n.kids| == N && forall x :: 0 <= x < N ==> DOk(n.kids[x])
  }

  ghost predicate DIOk(n: DINode) {
    n.DD? ==> n.nid > 0 && |n.kids| == N && forall x :: 0 <= x < N ==> IOk(n.kids[x])
  }

  ghost predicate FileOk(f: File) {
    && |f.dir| == 2 && |f.ind| == 2
    && (forall i :: 0 <= i < 2 ==> DOk(f.dir[i]))
    && (forall i :: 0 <= i < 2 ==> IOk(f.ind[i]))
    && DIOk(f.dind)
  }

  // ---- what the tree maps ----

  function Kid(n: INode, x: nat): (r: DNode)
    requires n.I? ==> |n.kids| == N
    requires x < N
  {
    if n.NoI? then NoD else n.kids[x]
  }

  function Child(n: DINode, x: nat): (r: INode)
    requires n.DD? ==> |n.kids| == N
    requires x < N
  {
    if n.NoDD? then NoI else n.kids[x]
  }

  /** Direct node number `q`. */
  ghost function Dnode(f: File, q: nat): (r: DNode)
    requires FileOk(f) && q < NODES
  {
    if q < FIRST_IND then f.dir[q]
    else if q < FIRST_DIND then Kid(f.ind[(q - FIRST_IND) / N], (q - FIRST_IND) % N)
    else Kid(Child(f.dind, (q - FIRST_DIND) / N), (q - FIRST_DIND) % N)
  }

  function AddrIn(d: DNode, o: nat): (r: nat)
    requires d.D? ==> |d.addrs| == N
    requires o < N
  {
    if d.NoD? then 0 else d.addrs[o]
  }

  /** The data address of a block index, 0 where there is none. */
  ghost function Lookup(f: File, i: nat): (r: nat)
    requires FileOk(f) && i < Capacity(|f.addrs|)
  {
    if i < |f.addrs| then f.addrs[i]
    else
      var q := (i - |f.addrs|) / N;
      QInRange(|f.addrs|, i);
      AddrIn(Dnode(f, q), (i - |f.addrs|) % N)
  }

  lemma QInRange(direct: nat, i: nat)
    requires direct <= i
    ensures (i - direct) / N < NODES <==> i < Capacity(direct)
  {
  }

  // ---- cutting ----

  /** An indirect node without its direct nodes from number `k` on; `start` is the number of its first. */
  function CutInd(n: INode, start: nat, k: nat): (r: INode) {
    if n.NoI? || start >= k then NoI
    else I(n.nid, seq(|n.kids|, x requires 0 <= x < |n.kids| => if start + x >= k then NoD else n.kids[x]))
  }

  function CutDind(n: DINode, k: nat): (r: DINode) {
    if n.NoDD? || FIRST_DIND >= k then NoDD
    else DD(n.nid, seq(|n.kids|, x requires 0 <= x < |n.kids| => CutInd(n.kids[x], FIRST_DIND + x * N, k)))
  }

  /** The tree without every node whose first block is that of direct node `k` or later. */
  function CutFrom(f: File, k: nat): (r: File)
    requires |f.dir| == 2 && |f.ind| == 2
  {
    File(f.addrs,
      [if 0 >= k then NoD else f.dir[0], if 1 >= k then NoD else f.dir[1]],
      [CutInd(f.ind[0], FIRST_IND, k), CutInd(f.ind[1], FIRST_IND + N, k)],
      CutDind(f.dind, k))
  }

  lemma CutIndOk(n: INode, start: nat, k: nat)
    requires IOk(n)
    ensures IOk(CutInd(n, start, k))
    ensures forall x: nat :: x < N ==> Kid(CutInd(n, start, k), x) == if start + x >= k then NoD else Kid(n, x)
  {
  }

  lemma CutDindOk(n: DINode, k: nat)
    requires DIOk(n)
    ensures DIOk(CutDind(n, k))
    ensures forall x: nat :: x < N ==> Child(CutDind(n, k), x) == CutInd(Child(n, x), FIRST_DIND + x * N, k)
  {
    forall x: nat | x < N
      ensures IOk(Child(CutDind(n, k), x)) && Child(CutDind(n, k), x) == CutInd(Child(n, x), FIRST_DIND + x * N, k)
    {
      CutIndOk(Child(n, x), FIRST_DIND + x * N, k);
    }
  }

  lemma CutFromOk(f: File, k: nat)
    requires FileOk(f)
    ensures FileOk(CutFrom(f, k))
  {
    CutIndOk(f.ind[0], FIRST_IND, k);
    CutIndOk(f.ind[1], FIRST_IND + N, k);
    CutDindOk(f.dind, k);
  }

  /** Direct nodes below `k` stay, the others are gone. */
  lemma CutFromDnode(f: File, k: nat, q: nat)
    requires FileOk(f) && q < NODES
    ensures FileOk(CutFrom(f, k))
    ensures Dnode(CutFrom(f, k), q) == if q >= k then NoD else Dnode(f, q)
  {
    CutFromOk(f, k);
    if FIRST_IND <= q < FIRST_DIND {
      var i, x := (q - FIRST_IND) / N, (q - FIRST_IND) % N;
      assert q == FIRST_IND + i * N + x && i < 2;
      CutIndOk(f.ind[i], FIRST_IND + i * N, k);
    } else if FIRST_DIND <= q {
      var x, y := (q - FIRST_DIND) / N, (q - FIRST_DIND) % N;
      assert q == FIRST_DIND + x * N + y && x < N;
      CutDindOk(f.dind, k);
      CutIndOk(Child(f.dind, x), FIRST_DIND + x * N, k);
    }
  }

  // ---- nodes by position ----

  /** The number of the first direct node below a position. */
  function First(p: Pos): (r: nat)
    requires PosOk(p) && !p.Root?
  {
    match p
    case Dir(i) => i
    case Ind(i) => FIRST_IND + i * N
    case IndKid(i, x) => FIRST_IND + i * N + x
    case Dind => FIRST_DIND
    case DindKid(x) => FIRST_DIND + x * N
    case DindGrand(x, y) => FIRST_DIND + x * N + y
  }

  function DNid(d: DNode): (r: nat) { if d.NoD? then 0 else d.nid }
  function INid(n: INode): (r: nat) { if n.NoI? then 0 else n.nid }

  /** The nid of the node at a position, 0 where there is none. */
  ghost function NidAt(f: File, p: Pos): (r: nat)
    requires FileOk(f) && PosOk(p) && !p.Root?
  {
    match p
    case Dir(i) => DNid(f.dir[i])
    case Ind(i) => INid(f.ind[i])
    case IndKid(i, x) => DNid(Kid(f.ind[i], x))
    case Dind => if f.dind.NoDD? then 0 else f.dind.nid
    case DindKid(x) => INid(Child(f.dind, x))
    case DindGrand(x, y) => DNid(Kid(Child(f.dind, x), y))
  }

  lemma CutFromNid(f: File, k: nat, p: Pos)
    requires FileOk(f) && PosOk(p) && !p.Root?
    ensures FileOk(CutFrom(f, k))
    ensures NidAt(CutFrom(f, k), p) == if First(p) >= k then 0 else NidAt(f, p)
  {
    CutFromOk(f, k);
    match p {
      case Dir(i) =>
      case Ind(i) =>
      case IndKid(i, x) => CutIndOk(f.ind[i], FIRST_IND + i * N, k);
      case Dind =>
      case DindKid(x) => CutDindOk(f.dind, k);
      case DindGrand(x, y) =>
        CutDindOk(f.dind, k);
        CutIndOk(Child(f.dind, x), FIRST_DIND + x * N, k);
    }
  }

  // ---- the nids a cut frees ----

  ghost function KidNids(n: INode, start: nat, k: nat): (r: set<nat>)
    requires n.I?
  {
    set x | 0 <= x < |n.kids| && start + x >= k && n.kids[x].D? :: n.kids[x].nid
  }

  ghost function FreedInd(n: INode, start: nat, k: nat): (r: set<nat>) {
    if n.NoI? then {} else KidNids(n, start, k) + if start >= k then {n.nid} else {}
  }

  ghost function FreedBelow(n: DINode, k: nat): (r: set<nat>)
    requires n.DD?
  {
    set x, m | 0 <= x < |n.kids| && m in FreedChild(n, x, k) :: m
  }

  ghost function FreedChild(n: DINode, x: nat, k: nat): (r: set<nat>)
    requires n.DD? && x < |n.kids|
  {
    FreedInd(n.kids[x], FIRST_DIND + x * N, k)
  }

  ghost function FreedDind(n: DINode, k: nat): (r: set<nat>) {
    if n.NoDD? then {} else FreedBelow(n, k) + if FIRST_DIND >= k then {n.nid} else {}
  }

  ghost function FreedDir(d: DNode, i: nat, k: nat): (r: set<nat>) {
    if d.D? && i >= k then {d.nid} else {}
  }

  ghost function FreedFrom(f: File, k: nat): (r: set<nat>)
    requires |f.dir| == 2 && |f.ind| == 2
  {
    FreedDir(f.dir[0], 0, k) + FreedDir(f.dir[1], 1, k)
    + FreedInd(f.ind[0], FIRST_IND, k) + FreedInd(f.ind[1], FIRST_IND + N, k)
    + FreedDind(f.dind, k)
  }

  /** What a cut frees is exactly the nodes that start at `k` or later. */
  lemma FreedFromAt(f: File, k: nat, p: Pos)
    requires FileOk(f) && PosOk(p) && !p.Root? && First(p) >= k && NidAt(f, p) != 0
    ensures NidAt(f, p) in FreedFrom(f, k)
  {
    match p {
      case Dir(i) =>
      case Ind(i) =>
      case IndKid(i, x) => assert NidAt(f, p) in KidNids(f.ind[i], FIRST_IND + i * N, k);
      case Dind =>
      case DindKid(x) => assert NidAt(f, p) in FreedChild(f.dind, x, k);
      case DindGrand(x, y) =>
        assert NidAt(f, p) in KidNids(f.dind.kids[x], FIRST_DIND + x * N, k);
        assert NidAt(f, p) in FreedChild(f.dind, x, k);
    }
  }

  lemma FreedFromOnly(f: File, k: nat, m: nat) returns (p: Pos)
    requires FileOk(f) && m in FreedFrom(f, k)
    ensures PosOk(p) && !p.Root? && First(p) >= k && NidAt(f, p) == m != 0
  {
    if m in FreedDir(f.dir[0], 0, k) {
      p := Dir(0);
    } else if m in FreedDir(f.dir[1], 1, k) {
      p := Dir(1);
    } else if m in FreedInd(f.ind[0], FIRST_IND, k) {
      p := FreedIndOnly(f, 0, k, m);
    } else if m in FreedInd(f.ind[1], FIRST_IND + N, k) {
      p := FreedIndOnly(f, 1, k, m);
    } else if m in FreedBelow(f.dind, k) {
      var x :| 0 <= x < |f.dind.kids| && m in FreedChild(f.dind, x, k);
      if m in KidNids(f.dind.kids[x], FIRST_DIND + x * N, k) {
        var n := f.dind.kids[x];
        var y :| 0 <= y < |n.kids| && FIRST_DIND + x * N + y >= k && n.kids[y].D? && n.kids[y].nid == m;
        p := DindGrand(x, y);
      } else {
        p := DindKid(x);
      }
    } else {
      p := Dind;
    }
  }

  lemma FreedIndOnly(f: File, i: nat, k: nat, m: nat) returns (p: Pos)
    requires FileOk(f) && i < 2 && m in FreedInd(f.ind[i], FIRST_IND + i * N, k)
    ensures PosOk(p) && !p.Root? && First(p) >= k && NidAt(f, p) == m != 0
  {
    if m in KidNids(f.ind[i], FIRST_IND + i * N, k) {
      var n := f.ind[i];
      var x :| 0 <= x < |n.kids| && FIRST_IND + i * N + x >= k && n.kids[x].D? && n.kids[x].nid == m;
      p := IndKid(i, x);
    } else {
      p := Ind(i);
    }
  }

  // ---- the code ----

  function Cleared(addrs: seq<nat>, ofs: nat): (r: seq<nat>) {
    seq(|addrs|, i requires 0 <= i < |addrs| => if i >= ofs then 0 else addrs[i])
  }

  ghost function InUse(addrs: seq<nat>, ofs: nat): (r: set<nat>) {
    set i | ofs <= i < |addrs| && addrs[i] != 0
  }

  /** truncate_data_blocks_range to the end of a node: clear the addresses and count those in use */
  method TruncateDataBlocks(addrs: seq<nat>, ofs: nat) returns (r: seq<nat>, nrFree: nat)
    requires ofs <= |addrs|
    ensures r == Cleared(addrs, ofs)
    ensures nrFree == |InUse(addrs, ofs)|
  {
    r, nrFree := addrs, 0;
    ghost var done: set<nat> := {};
    for i := ofs to |addrs|
      invariant |r| == |addrs| && forall k :: 0 <= k < |addrs| ==> r[k] == if ofs <= k < i then 0 else addrs[k]
      invariant done == (set k | ofs <= k < i && addrs[k] != 0) && nrFree == |done|
    {
      if r[i] != 0 {
        r := r[i := 0];
        nrFree := nrFree + 1;
        done := done + {i};
      }
    }
  }

  /** truncate_nodes on an indirect node (depth 2): its direct nodes from `ofs` on, and itself if that is all */
  method TruncateNodes2(n: INode, ofs: nat) returns (r: INode, freed: set<nat>)
    requires IOk(n) && ofs <= N
    ensures r == CutInd(n, 0, ofs) && freed == FreedInd(n, 0, ofs)
  {
    if n.NoI? {
      return NoI, {};
    }
    var kids := n.kids;
    freed := {};
    for i := ofs to N
      invariant |kids| == N && forall x :: 0 <= x < N ==> kids[x] == if ofs <= x < i then NoD else n.kids[x]
      invariant freed == set x | 0 <= x < i && x >= ofs && n.kids[x].D? :: n.kids[x].nid
    {
      if kids[i].D? {
        freed := freed + {kids[i].nid};
        kids := kids[i := NoD];
      }
    }
    assert freed == KidNids(n, 0, ofs);
    r := I(n.nid, kids);
    if ofs == 0 {
      freed := freed + {n.nid};
      r := NoI;
    } else {
      assert r == CutInd(n, 0, ofs);
    }
  }

  /** Children `ofs` and later of a double indirect node, and itself if that is all. */
  function DropChildren(n: DINode, ofs: nat): (r: DINode) {
    if n.NoDD? || ofs == 0 then NoDD
    else DD(n.nid, seq(|n.kids|, x requires 0 <= x < |n.kids| => if x >= ofs then NoI else n.kids[x]))
  }

  ghost function DroppedBelow(n: DINode, ofs: nat, end: nat): (r: set<nat>)
    requires n.DD? && end <= |n.kids|
  {
    set x, m | ofs <= x < end && m in WholeChild(n, x) :: m
  }

  ghost function WholeChild(n: DINode, x: nat): (r: set<nat>)
    requires n.DD? && x < |n.kids|
  {
    FreedInd(n.kids[x], 0, 0)
  }

  ghost function Dropped(n: DINode, ofs: nat): (r: set<nat>) {
    if n.NoDD? then {} else DroppedBelow(n, ofs, |n.kids|) + if ofs == 0 then {n.nid} else {}
  }

  /** truncate_nodes on the double indirect node (depth 3) */
  method TruncateNodes3(n: DINode, ofs: nat) returns (r: DINode, freed: set<nat>)
    requires DIOk(n) && ofs <= N
    ensures r == DropChildren(n, ofs) && freed == Dropped(n, ofs)
  {
    if n.NoDD? {
      return NoDD, {};
    }
    var kids := n.kids;
    freed := {};
    for i := ofs to N
      invariant |kids| == N && forall x :: 0 <= x < N ==> kids[x] == if ofs <= x < i then NoI else n.kids[x]
      invariant freed == DroppedBelow(n, ofs, i)
    {
      assert DroppedBelow(n, ofs, i + 1) == DroppedBelow(n, ofs, i) + WholeChild(n, i);
      if kids[i].I? {
        var child, gone := TruncateNodes2(kids[i], 0);
        kids := kids[i := child];
        freed := freed + gone;
      }
    }
    r := DD(n.nid, kids);
    if ofs == 0 {
      freed := freed + {n.nid};
      r := NoDD;
    } else {
      assert r == DropChildren(n, ofs);
    }
  }

  // ---- from the slots of the inode to the whole tree ----

  /** What the main loop of truncate_inode_blocks leaves, started at `slot` with `ofs` in it. */
  function SlotsCut(g: File, slot: nat, ofs: nat): (r: File)
    requires |g.dir| == 2 && |g.ind| == 2
  {
    File(g.addrs,
      [if slot <= 0 then NoD else g.dir[0], if slot <= 1 then NoD else g.dir[1]],
      [if slot <= 2 then NoI else g.ind[0], if slot <= 3 then NoI else g.ind[1]],
      DropChildren(g.dind, if slot == 4 then ofs else 0))
  }

  ghost function SlotsFreed(g: File, slot: nat, ofs: nat): (r: set<nat>)
    requires |g.dir| == 2 && |g.ind| == 2
  {
    FreedDir(g.dir[0], 0, slot) + FreedDir(g.dir[1], 1, slot)
    + (if slot <= 2 then FreedInd(g.ind[0], 0, 0) else {}) + (if slot <= 3 then FreedInd(g.ind[1], 0, 0) else {})
    + Dropped(g.dind, if slot == 4 then ofs else 0)
  }

  /** An offset into the first slot other than DIND only comes with a missing node. */
  ghost predicate SlotOk(g: File, slot: nat, ofs: nat)
    requires FileOk(g)
  {
    && slot <= 4 && ofs <= N
    && (slot < 2 && ofs != 0 ==> g.dir[slot].NoD?)
    && (2 <= slot < 4 && ofs != 0 ==> g.ind[slot - 2].NoI?)
  }

  /** One round of the main loop of truncate_inode_blocks. */
  method TruncateSlot(g: File, slot: nat, ofs: nat) returns (r: File, freed: set<nat>)
    requires FileOk(g) && SlotOk(g, slot, ofs)
    ensures r == (
      if slot < 2 then g.(dir := g.dir[slot := NoD])
      else if slot < 4 then g.(ind := g.ind[slot - 2 := NoI])
      else g.(dind := DropChildren(g.dind, ofs)))
    ensures freed == (
      if slot < 2 then FreedDir(g.dir[slot], slot, slot)
      else if slot < 4 then FreedInd(g.ind[slot - 2], 0, 0)
      else Dropped(g.dind, ofs))
  {
    r, freed := g, {};
    if slot < 2 {
      if g.dir[slot].D? {
        freed := {g.dir[slot].nid};
        r := g.(dir := g.dir[slot := NoD]);
      }
    } else if slot < 4 {
      var n, gone := TruncateNodes2(g.ind[slot - 2], ofs);
      r, freed := g.(ind := g.ind[slot - 2 := n]), gone;
    } else {
      var n, gone := TruncateNodes3(g.dind, ofs);
      r, freed := g.(dind := n), gone;
    }
  }

  /** The main loop: the first slot from `ofs` on, the later ones whole. */
  method TruncateSlots(g: File, slot: nat, ofs: nat) returns (r: File, freed: set<nat>)
    requires FileOk(g) && SlotOk(g, slot, ofs)
    ensures r == SlotsCut(g, slot, ofs) && freed == SlotsFreed(g, slot, ofs)
  {
    r, freed := g, {};
    var o := ofs;
    for k := slot to 5
      invariant SlotsDone(g, slot, ofs, r, freed, k)
      invariant o == if k == slot then ofs else 0
    {
      r, freed := NextSlot(g, slot, ofs, r, freed, k, o);
      o := 0;
    }
  }

  /** The slots below `k` are dealt with, the others untouched. */
  ghost predicate SlotsDone(g: File, slot: nat, ofs: nat, r: File, freed: set<nat>, k: nat) {
    && FileOk(g) && slot <= k <= 5
    && r.addrs == g.addrs && |r.dir| == 2 && |r.ind| == 2
    && (forall i :: 0 <= i < 2 ==> r.dir[i] == if slot <= i < k then NoD else g.dir[i])
    && (forall i :: 0 <= i < 2 ==> r.ind[i] == if slot <= 2 + i < k then NoI else g.ind[i])
    && r.dind == (if k > 4 then DropChildren(g.dind, if slot == 4 then ofs else 0) else g.dind)
    && freed == (if k > 0 then FreedDir(g.dir[0], 0, slot) else {})
         + (if k > 1 then FreedDir(g.dir[1], 1, slot) else {})
         + (if k > 2 && slot <= 2 then FreedInd(g.ind[0], 0, 0) else {})
         + (if k > 3 && slot <= 3 then FreedInd(g.ind[1], 0, 0) else {})
         + (if k > 4 then Dropped(g.dind, if slot == 4 then ofs else 0) else {})
  }

  method NextSlot(g: File, slot: nat, ofs: nat, r: File, freed: set<nat>, k: nat, o: nat)
    returns (r': File, freed': set<nat>)
    requires FileOk(g) && SlotOk(g, slot, ofs) && k <= 4 && SlotsDone(g, slot, ofs, r, freed, k)
    requires o == if k == slot then ofs else 0
    ensures SlotsDone(g, slot, ofs, r', freed', k + 1)
  {
    assert FileOk(r);
    var gone: set<nat>;
    r', gone := TruncateSlot(r, k, o);
    freed' := freed + gone;
  }

  lemma CutNothing(n: INode, start: nat, k: nat)
    requires IOk(n) && k >= start + N
    ensures CutInd(n, start, k) == n && FreedInd(n, start, k) == {}
  {
  }

  lemma CutShift(n: INode, start: nat, x: nat)
    requires IOk(n)
    ensures CutInd(n, start, start + x) == CutInd(n, 0, x) && FreedInd(n, start, start + x) == FreedInd(n, 0, x)
  {
    if n.I? {
      assert KidNids(n, start, start + x) == KidNids(n, 0, x);
    }
  }

  lemma CutAll(n: INode, start: nat, k: nat)
    requires IOk(n) && k <= start
    ensures CutInd(n, start, k) == NoI && FreedInd(n, start, k) == FreedInd(n, 0, 0)
  {
    if n.I? {
      assert KidNids(n, start, k) == KidNids(n, 0, 0);
    }
  }

  lemma DindAll(n: DINode, k: nat)
    requires DIOk(n) && k <= FIRST_DIND
    ensures CutDind(n, k) == DropChildren(n, 0) && FreedDind(n, k) == Dropped(n, 0)
  {
    if n.DD? {
      forall x | 0 <= x < N ensures FreedChild(n, x, k) == WholeChild(n, x) {
        CutAll(n.kids[x], FIRST_DIND + x * N, k);
      }
      assert FreedBelow(n, k) == DroppedBelow(n, 0, N);
    }
  }

  /** A cut at the start of child `x`. */
  lemma DindWhole(n: DINode, x: nat)
    requires DIOk(n) && x <= N
    ensures CutDind(n, FIRST_DIND + x * N) == DropChildren(n, x) && FreedDind(n, FIRST_DIND + x * N) == Dropped(n, x)
  {
    if x == 0 {
      DindAll(n, FIRST_DIND);
    } else if n.DD? {
      var k := FIRST_DIND + x * N;
      forall z | 0 <= z < N
        ensures CutInd(n.kids[z], FIRST_DIND + z * N, k) == if z >= x then NoI else n.kids[z]
        ensures FreedChild(n, z, k) == if z >= x then WholeChild(n, z) else {}
      {
        if z >= x { CutAll(n.kids[z], FIRST_DIND + z * N, k); } else { CutNothing(n.kids[z], FIRST_DIND + z * N, k); }
      }
      assert FreedBelow(n, k) == DroppedBelow(n, x, N);
    }
  }

  /** A cut inside child `x`. */
  lemma DindInside(n: DINode, x: nat, y: nat)
    requires DIOk(n) && n.DD? && x < N && 0 < y < N
    ensures var g := n.(kids := n.kids[x := CutInd(n.kids[x], 0, y)]);
      && CutDind(n, FIRST_DIND + x * N + y) == DropChildren(g, x + 1)
      && FreedDind(n, FIRST_DIND + x * N + y) == FreedInd(n.kids[x], 0, y) + Dropped(g, x + 1)
  {
    var g := n.(kids := n.kids[x := CutInd(n.kids[x], 0, y)]);
    var k := FIRST_DIND + x * N + y;
    forall z | 0 <= z < N
      ensures CutInd(n.kids[z], FIRST_DIND + z * N, k) ==
        if z > x then NoI else if z == x then CutInd(n.kids[x], 0, y) else n.kids[z]
    {
      ChildInside(n, x, y, z);
    }
    FreedInside(n, g, x, y);
  }

  /** What the cut does to each child: later ones go, earlier ones stay, child `x` is cut itself. */
  lemma ChildInside(n: DINode, x: nat, y: nat, z: nat)
    requires DIOk(n) && n.DD? && x < N && 0 < y < N && z < N
    ensures var k := FIRST_DIND + x * N + y;
      && CutInd(n.kids[z], FIRST_DIND + z * N, k) ==
           (if z > x then NoI else if z == x then CutInd(n.kids[x], 0, y) else n.kids[z])
      && FreedChild(n, z, k) ==
           (if z > x then WholeChild(n, z) else if z == x then FreedInd(n.kids[x], 0, y) else {})
  {
    var k := FIRST_DIND + x * N + y;
    if z > x {
      CutAll(n.kids[z], FIRST_DIND + z * N, k);
    } else if z == x {
      CutShift(n.kids[x], FIRST_DIND + x * N, y);
    } else {
      CutNothing(n.kids[z], FIRST_DIND + z * N, k);
    }
  }

  lemma FreedInside(n: DINode, g: DINode, x: nat, y: nat)
    requires DIOk(n) && n.DD? && x < N && 0 < y < N && g == n.(kids := n.kids[x := CutInd(n.kids[x], 0, y)])
    ensures FreedBelow(n, FIRST_DIND + x * N + y) == FreedInd(n.kids[x], 0, y) + DroppedBelow(g, x + 1, N)
  {
    var k := FIRST_DIND + x * N + y;
    forall m | m in FreedBelow(n, k) ensures m in FreedInd(n.kids[x], 0, y) + DroppedBelow(g, x + 1, N) {
      var z :| 0 <= z < |n.kids| && m in FreedChild(n, z, k);
      ChildInside(n, x, y, z);
      if z > x { assert m in WholeChild(g, z); }
    }
    forall m | m in FreedInd(n.kids[x], 0, y) ensures m in FreedBelow(n, k) {
      ChildInside(n, x, y, x);
      assert m in FreedChild(n, x, k);
    }
    forall m | m in DroppedBelow(g, x + 1, N) ensures m in FreedBelow(n, k) {
      var z :| x + 1 <= z < N && m in WholeChild(g, z);
      ChildInside(n, x, y, z);
      assert m in FreedChild(n, z, k);
    }
  }

  // ---- truncate_inode_blocks ----

  /** The direct node number of a block, and what NodePath says about it. */
  lemma PathOf(direct: nat, from: nat)
    requires direct <= from < Capacity(direct)
    ensures var q, p := (from - direct) / N, NodePath(direct, from).value;
      && q < NODES
      && (q < 2 ==> p.offset == [DIR1 + q, (from - direct) % N])
      && (FIRST_IND <= q < FIRST_DIND ==>
           p.offset == [IND1 + (q - FIRST_IND) / N, (q - FIRST_IND) % N, (from - direct) % N])
      && (FIRST_DIND <= q ==>
           p.offset == [DIND, (q - FIRST_DIND) / N, (q - FIRST_DIND) % N, (from - direct) % N])
  {
    QInRange(direct, from);
    var b := from - direct;
    if b < 2 * N {
    } else if b < 2 * N + 2 * (N * N) {
      PathOfInd(direct, from);
    } else {
      PathOfDind(direct, from);
    }
  }

  lemma PathOfInd(direct: nat, from: nat)
    requires direct + 2 * N <= from < direct + 2 * N + 2 * (N * N)
    ensures var q := (from - direct) / N;
      && FIRST_IND <= q < FIRST_DIND && NodePath(direct, from).Some?
      && NodePath(direct, from).value.offset
           == [IND1 + (q - FIRST_IND) / N, (q - FIRST_IND) % N, (from - direct) % N]
  {
    var b := from - direct - 2 * N;
    assert (from - direct) / N == b / N + 2;
    if b >= N * N {
      assert b / N == (b - N * N) / N + N;
    }
  }

  lemma PathOfDind(direct: nat, from: nat)
    requires direct + 2 * N + 2 * (N * N) <= from < Capacity(direct)
    ensures var q := (from - direct) / N;
      && FIRST_DIND <= q && NodePath(direct, from).Some?
      && NodePath(direct, from).value.offset
           == [DIND, (q - FIRST_DIND) / N, (q - FIRST_DIND) % N, (from - direct) % N]
  {
    var b := from - direct - 2 * N - 2 * (N * N);
    assert (from - direct) / N == b / N + FIRST_DIND;
    assert b / (N * N) == (b / N) / N;
  }

  /**
   * Where the cut really begins.  Normally at the direct node asked for; but
   * when that node lies under a missing child of the double indirect node,
   * the code starts at that child.
   */
  ghost function Eff(f: File, q: nat): (r: nat)
    requires FileOk(f) && q < NODES
  {
    if q >= FIRST_DIND && f.dind.DD? && Child(f.dind, (q - FIRST_DIND) / N).NoI?
    then FIRST_DIND + (q - FIRST_DIND) / N * N
    else q
  }

  /** truncate_partial_nodes for an indirect slot, and the main loop after it */
  method TruncateFromInd(f: File, i: nat, x: nat) returns (r: File, freed: set<nat>)
    requires FileOk(f) && i < 2 && x < N
    ensures var k := FIRST_IND + i * N + x; r == CutFrom(f, k) && freed == FreedFrom(f, k)
  {
    var g, gone, slot, ofs := f, {}, 2 + i, x;
    if x != 0 && f.ind[i].I? {
      var n;
      n, gone := TruncateNodes2(f.ind[i], x);
      CutIndOk(f.ind[i], 0, x);
      g, slot, ofs := f.(ind := f.ind[i := n]), 3 + i, 0;
    }
    var more;
    r, more := TruncateSlots(g, slot, ofs);
    freed := gone + more;
    IndCut(f, i, x);
  }

  lemma IndCut(f: File, i: nat, x: nat)
    requires FileOk(f) && i < 2 && x < N
    ensures var k := FIRST_IND + i * N + x;
      var partial := x != 0 && f.ind[i].I?;
      var g := if partial then f.(ind := f.ind[i := CutInd(f.ind[i], 0, x)]) else f;
      && CutFrom(f, k) == SlotsCut(g, if partial then 3 + i else 2 + i, if partial then 0 else x)
      && FreedFrom(f, k) == (if partial then FreedInd(f.ind[i], 0, x) else {})
           + SlotsFreed(g, if partial then 3 + i else 2 + i, if partial then 0 else x)
  {
    var k := FIRST_IND + i * N + x;
    CutShift(f.ind[i], FIRST_IND + i * N, x);
    DindAll(f.dind, k);
    if i == 0 { CutAll(f.ind[1], FIRST_IND + N, k); } else { CutNothing(f.ind[0], FIRST_IND, k); }
  }

  /** truncate_partial_nodes below the double indirect node, and the main loop after it */
  method TruncateFromDind(f: File, x: nat, y: nat) returns (r: File, freed: set<nat>)
    requires FileOk(f) && x < N && y < N
    ensures var k := Eff(f, FIRST_DIND + x * N + y); r == CutFrom(f, k) && freed == FreedFrom(f, k)
  {
    var g, gone, ofs := f, {}, x;
    if y != 0 && f.dind.DD? && f.dind.kids[x].I? {
      var n;
      n, gone := TruncateNodes2(f.dind.kids[x], y);
      CutIndOk(f.dind.kids[x], 0, y);
      g, ofs := f.(dind := f.dind.(kids := f.dind.kids[x := n])), x + 1;
    }
    var more;
    r, more := TruncateSlots(g, 4, ofs);
    freed := gone + more;
    DindCut(f, x, y);
  }

  lemma DindCut(f: File, x: nat, y: nat)
    requires FileOk(f) && x < N && y < N
    ensures var k := Eff(f, FIRST_DIND + x * N + y);
      var partial := y != 0 && f.dind.DD? && f.dind.kids[x].I?;
      var g := if partial then f.(dind := f.dind.(kids := f.dind.kids[x := CutInd(f.dind.kids[x], 0, y)])) else f;
      && CutFrom(f, k) == SlotsCut(g, 4, if partial then x + 1 else x)
      && FreedFrom(f, k) == (if partial then FreedInd(f.dind.kids[x], 0, y) else {})
           + SlotsFreed(g, 4, if partial then x + 1 else x)
  {
    var q := FIRST_DIND + x * N + y;
    assert (q - FIRST_DIND) / N == x;
    var k := Eff(f, q);
    CutNothing(f.ind[0], FIRST_IND, k);
    CutNothing(f.ind[1], FIRST_IND + N, k);
    if y != 0 && f.dind.DD? && f.dind.kids[x].I? {
      DindInside(f.dind, x, y);
    } else if f.dind.DD? {
      assert k == FIRST_DIND + x * N;
      DindWhole(f.dind, x);
    }
  }

  /**
   * truncate_inode_blocks, for a start at or behind the first direct node that
   * is either at the beginning of its direct node or in a missing one.
   */
  method TruncateInodeBlocks(f: File, from: nat) returns (r: File, freed: set<nat>)
    requires FileOk(f) && |f.addrs| <= from < Capacity(|f.addrs|)
    requires (from - |f.addrs|) / N < NODES
    requires Dnode(f, (from - |f.addrs|) / N).NoD? || (from - |f.addrs|) % N == 0
    ensures r == CutFrom(f, Eff(f, (from - |f.addrs|) / N))
    ensures freed == FreedFrom(f, Eff(f, (from - |f.addrs|) / N))
  {
    ghost var q := (from - |f.addrs|) / N;
    PathOf(|f.addrs|, from);
    var p := NodePath(|f.addrs|, from).value;
    if Level(p) == 1 {
      r, freed := TruncateSlots(f, p.offset[0] - DIR1, p.offset[1]);
      DirCut(f, q, (from - |f.addrs|) % N);
    } else if Level(p) == 2 {
      r, freed := TruncateFromInd(f, p.offset[0] - IND1, p.offset[1]);
    } else {
      r, freed := TruncateFromDind(f, p.offset[1], p.offset[2]);
    }
  }

  lemma DirCut(f: File, q: nat, ofs: nat)
    requires FileOk(f) && q < 2
    ensures CutFrom(f, q) == SlotsCut(f, q, ofs) && FreedFrom(f, q) == SlotsFreed(f, q, ofs)
  {
    CutAll(f.ind[0], FIRST_IND, q);
    CutAll(f.ind[1], FIRST_IND + N, q);
    DindAll(f.dind, q);
  }

  // ---- truncate_blocks ----

  const BLOCK_SIZE: nat := 4096

  /** Replace direct node `q`, which is there. */
  ghost predicate CanReplace(f: File, q: nat) {
    FileOk(f) && q < NODES && Dnode(f, q).D?
  }

  function Replace(f: File, q: nat, d: DNode): (r: File)
    requires CanReplace(f, q)
  {
    if q < FIRST_IND then f.(dir := f.dir[q := d])
    else if q < FIRST_DIND then
      var i, x := (q - FIRST_IND) / N, (q - FIRST_IND) % N;
      f.(ind := f.ind[i := f.ind[i].(kids := f.ind[i].kids[x := d])])
    else
      var x, y := (q - FIRST_DIND) / N, (q - FIRST_DIND) % N;
      var child := f.dind.kids[x].(kids := f.dind.kids[x].kids[y := d]);
      f.(dind := f.dind.(kids := f.dind.kids[x := child]))
  }

  lemma ReplaceOk(f: File, q: nat, d: DNode)
    requires CanReplace(f, q) && d.D? && DOk(d) && d.nid == Dnode(f, q).nid
    ensures FileOk(Replace(f, q, d)) && Replace(f, q, d).addrs == f.addrs
  {
  }

  lemma ReplaceDnode(f: File, q: nat, d: DNode, p: nat)
    requires CanReplace(f, q) && d.D? && DOk(d) && d.nid == Dnode(f, q).nid && p < NODES
    ensures FileOk(Replace(f, q, d))
    ensures Dnode(Replace(f, q, d), p) == if p == q then d else Dnode(f, p)
  {
    ReplaceOk(f, q, d);
    if q >= FIRST_DIND && p >= FIRST_DIND {
      SameDigits(p - FIRST_DIND, q - FIRST_DIND);
    } else if FIRST_IND <= q < FIRST_DIND && FIRST_IND <= p < FIRST_DIND {
      SameDigits(p - FIRST_IND, q - FIRST_IND);
    }
  }

  lemma SameDigits(a: nat, b: nat)
    ensures a / N == b / N && a % N == b % N ==> a == b
  {
  }

  /** Replacing a node's addresses moves no node. */
  lemma ReplaceNids(f: File, q: nat, d: DNode, p: Pos)
    requires CanReplace(f, q) && d.D? && DOk(d) && d.nid == Dnode(f, q).nid && PosOk(p) && !p.Root?
    ensures FileOk(Replace(f, q, d)) && NidAt(Replace(f, q, d), p) == NidAt(f, p)
  {
    ReplaceOk(f, q, d);
  }

  /** get_dnode_of_data in lookup mode, for a block behind the inode's own: follow the path, or find a hole */
  method LookupDnode(f: File, b: nat) returns (d: DNode, ofs: nat)
    requires FileOk(f) && |f.addrs| <= b < Capacity(|f.addrs|) && (b - |f.addrs|) / N < NODES
    ensures d == Dnode(f, (b - |f.addrs|) / N) && ofs == (b - |f.addrs|) % N
  {
    PathOf(|f.addrs|, b);
    var p := NodePath(|f.addrs|, b).value;
    ofs := p.offset[Level(p)];
    if Level(p) == 1 {
      d := f.dir[p.offset[0] - DIR1];
    } else if Level(p) == 2 {
      var n := f.ind[p.offset[0] - IND1];
      d := if n.NoI? then NoD else n.kids[p.offset[1]];
    } else {
      var n := if f.dind.NoDD? then NoI else f.dind.kids[p.offset[1]];
      d := if n.NoI? then NoD else n.kids[p.offset[2]];
    }
  }

  /** The direct node number at which nodes start to be freed when block `b` is the first to go. */
  ghost function FirstGone(f: File, b: nat): (r: nat)
    requires FileOk(f) && b < Capacity(|f.addrs|)
  {
    if b < |f.addrs| then 0
    else
      QInRange(|f.addrs|, b);
      var q := (b - |f.addrs|) / N;
      if Dnode(f, q).D? && (b - |f.addrs|) % N != 0 then q + 1 else Eff(f, q)
  }

  /** The code reaches a BUG() when the cut lies inside the very last direct node. */
  ghost predicate InLastNode(f: File, b: nat)
    requires FileOk(f) && b < Capacity(|f.addrs|)
  {
    FirstGone(f, b) == NODES
  }

  ghost predicate MapCut(f: File, r: File, b: nat)
    requires FileOk(f) && FileOk(r) && |r.addrs| == |f.addrs|
  {
    forall i: nat :: i < Capacity(|f.addrs|) ==> Lookup(r, i) == if i >= b then 0 else Lookup(f, i)
  }

  ghost predicate NodesCut(f: File, r: File, k: nat)
    requires FileOk(f) && FileOk(r)
  {
    forall p :: PosOk(p) && !p.Root? ==> NidAt(r, p) == if First(p) >= k then 0 else NidAt(f, p)
  }

  /** `freed` holds exactly the nids of the nodes of `f` that start at number `k` or later. */
  ghost predicate FreedExactly(f: File, freed: set<nat>, k: nat)
    requires FileOk(f)
  {
    && (forall p :: PosOk(p) && !p.Root? && First(p) >= k && NidAt(f, p) != 0 ==> NidAt(f, p) in freed)
    && (forall m :: m in freed ==> exists p :: PosOk(p) && !p.Root? && First(p) >= k && NidAt(f, p) == m != 0)
  }

  lemma CutMeaning(f: File, k: nat)
    requires FileOk(f)
    ensures FileOk(CutFrom(f, k)) && NodesCut(f, CutFrom(f, k), k) && FreedExactly(f, FreedFrom(f, k), k)
  {
    CutFromOk(f, k);
    forall p | PosOk(p) && !p.Root?
      ensures NidAt(CutFrom(f, k), p) == if First(p) >= k then 0 else NidAt(f, p)
      ensures First(p) >= k && NidAt(f, p) != 0 ==> NidAt(f, p) in FreedFrom(f, k)
    {
      CutFromNid(f, k, p);
      if First(p) >= k && NidAt(f, p) != 0 { FreedFromAt(f, k, p); }
    }
    forall m | m in FreedFrom(f, k)
      ensures exists p :: PosOk(p) && !p.Root? && First(p) >= k && NidAt(f, p) == m != 0
    {
      var p := FreedFromOnly(f, k, m);
    }
  }

  /** Cut inside the inode: its addresses from `b` on, and every node. */
  lemma InodeCut(f: File, b: nat)
    requires FileOk(f) && b < |f.addrs|
    ensures var g := f.(addrs := Cleared(f.addrs, b));
      FileOk(CutFrom(g, 0)) && MapCut(f, CutFrom(g, 0), b)
  {
    var g := f.(addrs := Cleared(f.addrs, b));
    var r := CutFrom(g, 0);
    CutFromOk(g, 0);
    forall i: nat | i < Capacity(|f.addrs|) ensures Lookup(r, i) == if i >= b then 0 else Lookup(f, i) {
      if i >= |f.addrs| {
        QInRange(|f.addrs|, i);
        CutFromDnode(g, 0, (i - |f.addrs|) / N);
      }
    }
  }

  /** Cut at a node boundary or in a hole. */
  lemma BoundaryCut(f: File, b: nat, q: nat, k: nat)
    requires FileOk(f) && |f.addrs| <= b < Capacity(|f.addrs|) && q == (b - |f.addrs|) / N && q < NODES
    requires Dnode(f, q).NoD? || (b - |f.addrs|) % N == 0
    requires k == Eff(f, q)
    ensures FileOk(CutFrom(f, k)) && MapCut(f, CutFrom(f, k), b)
  {
    CutFromOk(f, k);
    var r := CutFrom(f, k);
    forall i: nat | i < Capacity(|f.addrs|) ensures Lookup(r, i) == if i >= b then 0 else Lookup(f, i) {
      if i >= |f.addrs| {
        QInRange(|f.addrs|, i);
        var p := (i - |f.addrs|) / N;
        CutFromDnode(f, k, p);
        if k <= p < q { HoleBelow(f, q, p); }
      }
    }
  }

  /** Between the real start of the cut and the one asked for there is nothing. */
  lemma HoleBelow(f: File, q: nat, p: nat)
    requires FileOk(f) && q < NODES && Eff(f, q) <= p < q
    ensures Dnode(f, p).NoD?
  {
    var x := (q - FIRST_DIND) / N;
    assert FIRST_DIND + x * N <= p < FIRST_DIND + x * N + N;
    assert (p - FIRST_DIND) / N == x;
  }

  /** Cut inside a direct node: its addresses from the offset on, and every node behind it. */
  lemma InsideCut(f: File, b: nat, q: nat, d: DNode)
    requires FileOk(f) && |f.addrs| <= b < Capacity(|f.addrs|) && q == (b - |f.addrs|) / N && q + 1 < NODES
    requires CanReplace(f, q) && (b - |f.addrs|) % N != 0
    requires d == D(Dnode(f, q).nid, Cleared(Dnode(f, q).addrs, (b - |f.addrs|) % N))
    ensures DOk(d) && FileOk(Replace(f, q, d)) && FileOk(CutFrom(Replace(f, q, d), q + 1))
    ensures MapCut(f, CutFrom(Replace(f, q, d), q + 1), b)
  {
    assert DOk(Dnode(f, q));
    ReplaceOk(f, q, d);
    CutFromOk(Replace(f, q, d), q + 1);
    forall p: nat | p < NODES
      ensures Dnode(CutFrom(Replace(f, q, d), q + 1), p) == if p > q then NoD else if p == q then d else Dnode(f, p)
    {
      ReplaceDnode(f, q, d, p);
      CutFromDnode(Replace(f, q, d), q + 1, p);
    }
    InsideMap(f, CutFrom(Replace(f, q, d), q + 1), b, q, d);
  }

  lemma InsideMap(f: File, r: File, b: nat, q: nat, d: DNode)
    requires FileOk(f) && FileOk(r) && r.addrs == f.addrs && |f.addrs| <= b && q == (b - |f.addrs|) / N && q < NODES
    requires Dnode(f, q).D? && d.D? && DOk(d) && d.addrs == Cleared(Dnode(f, q).addrs, (b - |f.addrs|) % N)
    requires forall p: nat :: p < NODES ==> Dnode(r, p) == if p > q then NoD else if p == q then d else Dnode(f, p)
    ensures MapCut(f, r, b)
  {
    forall i: nat | i < Capacity(|f.addrs|) ensures Lookup(r, i) == if i >= b then 0 else Lookup(f, i) {
      if i >= |f.addrs| {
        QInRange(|f.addrs|, i);
        Order(|f.addrs|, i, b);
        DnodeOk(f, (i - |f.addrs|) / N);
        DnodeOk(r, (i - |f.addrs|) / N);
        SameBelow(Dnode(r, (i - |f.addrs|) / N), Dnode(f, (i - |f.addrs|) / N), (i - |f.addrs|) / N, q,
          (b - |f.addrs|) % N, d, (i - |f.addrs|) % N);
      }
    }
  }

  lemma DnodeOk(f: File, q: nat)
    requires FileOk(f) && q < NODES
    ensures DOk(Dnode(f, q))
  {
  }

  /** One address of a node that is kept, cut at offset `c`, or gone. */
  lemma SameBelow(r: DNode, was: DNode, p: nat, q: nat, c: nat, d: DNode, o: nat)
    requires DOk(r) && DOk(was) && o < N && c < N
    requires r == if p >= q + 1 then NoD else if p == q then d else was
    requires p == q ==> was.D? && d.D? && d.addrs == Cleared(was.addrs, c)
    ensures AddrIn(r, o) == if p > q || (p == q && o >= c) then 0 else AddrIn(was, o)
  {
  }

  /** Blocks compare as their node numbers, then as their offsets. */
  lemma Order(direct: nat, i: nat, b: nat)
    requires direct <= i && direct <= b
    ensures var p, o, q, c := (i - direct) / N, (i - direct) % N, (b - direct) / N, (b - direct) % N;
      i >= b <==> p > q || (p == q && o >= c)
  {
  }

  lemma InsideEff(f: File, q: nat)
    requires CanReplace(f, q) && q + 1 < NODES
    ensures Eff(f, q + 1) == q + 1
  {
    if q + 1 >= FIRST_DIND && f.dind.DD? && Child(f.dind, (q + 1 - FIRST_DIND) / N).NoI? && q >= FIRST_DIND {
      assert (q + 1 - FIRST_DIND) / N != (q - FIRST_DIND) / N;
    }
  }

  /** Everything a truncation is to do: `b` is the first block index to go. */
  ghost predicate Truncated(f: File, r: File, b: nat, freed: set<nat>)
    requires FileOk(f) && b < Capacity(|f.addrs|)
  {
    && FileOk(r) && |r.addrs| == |f.addrs|
    && MapCut(f, r, b)
    && NodesCut(f, r, FirstGone(f, b))
    && FreedExactly(f, freed, FirstGone(f, b))
  }

  /**
   * truncate_blocks on a file without inline data: every index from the
   * rounded-up block on maps to nothing, every lower one is as before, and
   * exactly the nodes from FirstGone on are freed.  The two cases in which
   * the code runs into BUG() are reported as a failure.
   */
  method TruncateBlocks(f: File, bytes: nat) returns (ok: bool, r: File, freed: set<nat>)
    requires FileOk(f)
    ensures var b := (bytes + BLOCK_SIZE - 1) / BLOCK_SIZE;
      && (ok <==> b < Capacity(|f.addrs|) && !InLastNode(f, b))
      && (ok ==> Truncated(f, r, b, freed))
  {
    var b: nat := (bytes + BLOCK_SIZE - 1) / BLOCK_SIZE;
    r, freed := f, {};
    ok := b < Capacity(|f.addrs|);
    if !ok {
      return;
    }
    if b < |f.addrs| {
      r, freed := TruncateInInode(f, b);
      return;
    }
    QInRange(|f.addrs|, b);
    var d, ofs := LookupDnode(f, b);
    if d.D? && ofs != 0 {
      ok, r, freed := TruncateInNode(f, b, d);
    } else {
      ghost var k := FirstGone(f, b);
      r, freed := TruncateInodeBlocks(f, b);
      BoundaryCut(f, b, (b - |f.addrs|) / N, k);
      CutMeaning(f, k);
    }
  }

  method TruncateInInode(f: File, b: nat) returns (r: File, freed: set<nat>)
    requires FileOk(f) && b < |f.addrs|
    ensures Truncated(f, r, b, freed)
  {
    var addrs, nr := TruncateDataBlocks(f.addrs, b);
    var g := f.(addrs := addrs);
    assert (|g.addrs| - |g.addrs|) / N == 0;
    r, freed := TruncateInodeBlocks(g, |g.addrs|);
    InodeCut(f, b);
    CutMeaning(g, 0);
    forall p | PosOk(p) && !p.Root? ensures NidAt(g, p) == NidAt(f, p) { }
  }

  method TruncateInNode(f: File, b: nat, d: DNode) returns (ok: bool, r: File, freed: set<nat>)
    requires FileOk(f) && |f.addrs| <= b < Capacity(|f.addrs|) && (b - |f.addrs|) / N < NODES
    requires d == Dnode(f, (b - |f.addrs|) / N) && d.D? && (b - |f.addrs|) % N != 0
    ensures ok <==> !InLastNode(f, b)
    ensures ok ==> Truncated(f, r, b, freed)
  {
    var q, ofs := (b - |f.addrs|) / N, (b - |f.addrs|) % N;
    assert DOk(d);
    var addrs, nr := TruncateDataBlocks(d.addrs, ofs);
    var e := D(d.nid, addrs);
    ReplaceOk(f, q, e);
    var g := Replace(f, q, e);
    var from := b + (N - ofs);
    NextBoundary(|f.addrs|, b);
    ok := from < Capacity(|f.addrs|);
    r, freed := g, {};
    if ok {
      r, freed := TruncateBehind(f, g, from, b, q, e);
    }
  }

  /** Everything behind direct node `q`, which has been cut at block `b` and is now `e`. */
  method TruncateBehind(ghost f: File, g: File, from: nat, ghost b: nat, ghost q: nat, ghost e: DNode) returns (r: File, freed: set<nat>)
    requires FileOk(f) && |f.addrs| <= b < Capacity(|f.addrs|) && q == (b - |f.addrs|) / N && q + 1 < NODES
    requires CanReplace(f, q) && (b - |f.addrs|) % N != 0
    requires e == D(Dnode(f, q).nid, Cleared(Dnode(f, q).addrs, (b - |f.addrs|) % N)) && g == Replace(f, q, e)
    requires FileOk(g) && g.addrs == f.addrs && |f.addrs| <= from < Capacity(|f.addrs|)
    requires (from - |f.addrs|) / N == q + 1 && (from - |f.addrs|) % N == 0
    ensures Truncated(f, r, b, freed)
  {
    ReplacedThere(f, q, e);
    InsideEff(g, q);
    r, freed := TruncateInodeBlocks(g, from);
    NodeTruncated(f, b, q, e);
  }

  lemma ReplacedThere(f: File, q: nat, e: DNode)
    requires CanReplace(f, q) && e.D? && DOk(e) && e.nid == Dnode(f, q).nid
    ensures CanReplace(Replace(f, q, e), q)
  {
    ReplaceOk(f, q, e);
    ReplaceDnode(f, q, e, q);
  }

  lemma NodeTruncated(f: File, b: nat, q: nat, e: DNode)
    requires FileOk(f) && |f.addrs| <= b < Capacity(|f.addrs|) && q == (b - |f.addrs|) / N && q + 1 < NODES
    requires CanReplace(f, q) && (b - |f.addrs|) % N != 0
    requires e == D(Dnode(f, q).nid, Cleared(Dnode(f, q).addrs, (b - |f.addrs|) % N))
    ensures FileOk(Replace(f, q, e))
    ensures Truncated(f, CutFrom(Replace(f, q, e), q + 1), b, FreedFrom(Replace(f, q, e), q + 1))
  {
    InsideCut(f, b, q, e);
    SamePlaces(f, Replace(f, q, e), q, e);
    CutMeaning(Replace(f, q, e), q + 1);
    SameNodes(f, Replace(f, q, e), CutFrom(Replace(f, q, e), q + 1), FreedFrom(Replace(f, q, e), q + 1), q + 1);
  }

  /** Trees with the same nodes lose the same nodes. */
  lemma SameNodes(f: File, g: File, r: File, freed: set<nat>, k: nat)
    requires FileOk(f) && FileOk(g) && FileOk(r) && NodesCut(g, r, k) && FreedExactly(g, freed, k)
    requires forall p :: PosOk(p) && !p.Root? ==> NidAt(g, p) == NidAt(f, p)
    ensures NodesCut(f, r, k) && FreedExactly(f, freed, k)
  {
    forall m | m in freed ensures exists p :: PosOk(p) && !p.Root? && First(p) >= k && NidAt(f, p) == m != 0 {
      var p :| PosOk(p) && !p.Root? && First(p) >= k && NidAt(g, p) == m != 0;
      assert NidAt(f, p) == m;
    }
  }

  lemma NextBoundary(direct: nat, b: nat)
    requires direct <= b < Capacity(direct)
    ensures var from := b + (N - (b - direct) % N);
      && (from - direct) / N == (b - direct) / N + 1 && (from - direct) % N == 0
      && (from < Capacity(direct) <==> (b - direct) / N + 1 < NODES)
  {
  }

  lemma SamePlaces(f: File, g: File, q: nat, e: DNode)
    requires CanReplace(f, q) && e.D? && DOk(e) && e.nid == Dnode(f, q).nid && g == Replace(f, q, e)
    ensures FileOk(g) && forall p :: PosOk(p) && !p.Root? ==> NidAt(g, p) == NidAt(f, p)
  {
    ReplaceOk(f, q, e);
    forall p | PosOk(p) && !p.Root? ensures NidAt(g, p) == NidAt(f, p) {
      ReplaceNids(f, q, e, p);
    }
  }

  // ---- which nodes go ----

  /** The first block index below a position. */
  ghost function FirstBlock(f: File, p: Pos): (r: nat)
    requires PosOk(p) && !p.Root?
  {
    |f.addrs| + First(p) * N
  }

  /** Every node that maps only indexes from `b` on is freed. */
  lemma RemovedAreFreed(f: File, b: nat, p: Pos)
    requires FileOk(f) && b < Capacity(|f.addrs|) && PosOk(p) && !p.Root? && FirstBlock(f, p) >= b
    ensures First(p) >= FirstGone(f, b)
  {
    if b >= |f.addrs| {
      QInRange(|f.addrs|, b);
    }
  }

  /** A freed node maps nothing that is kept: below `b` it has only holes. */
  lemma FreedAreRemoved(f: File, b: nat, p: Pos, i: nat)
    requires FileOk(f) && b < Capacity(|f.addrs|) && PosOk(p) && !p.Root?
    requires First(p) >= FirstGone(f, b) && FirstBlock(f, p) <= i < b
    ensures Lookup(f, i) == 0
  {
    QInRange(|f.addrs|, b);
    QInRange(|f.addrs|, i);
    var q, k := (b - |f.addrs|) / N, (i - |f.addrs|) / N;
    if k < q {
      HoleBelow(f, q, k);
    }
  }

  /**
   * A node on the way to block `b`, starting before it, whose first child on
   * that way is missing.  `b` then lies behind the node's first block but
   * inside what that child would map.
   */
  ghost predicate Stranded(f: File, b: nat, p: Pos)
    requires FileOk(f) && PosOk(p) && !p.Root?
  {
    var lo := FirstBlock(f, p);
    match p
    case Ind(i) => lo < b < lo + N && Kid(f.ind[i], 0).NoD?
    case DindKid(x) => lo < b < lo + N && Kid(Child(f.dind, x), 0).NoD?
    case Dind =>
      if Child(f.dind, 0).NoI? then lo < b < lo + N * N else lo < b < lo + N && Kid(Child(f.dind, 0), 0).NoD?
    case _ => false
  }

  /**
   * A node of the tree is freed exactly when it maps only indexes from `b` on
   * or is stranded: the stranded nodes are the ones freed although they start
   * before `b`.
   */
  lemma FreedExactlyWhen(f: File, b: nat, p: Pos)
    requires FileOk(f) && b < Capacity(|f.addrs|) && PosOk(p) && !p.Root? && NidAt(f, p) != 0
    ensures First(p) >= FirstGone(f, b) <==> FirstBlock(f, p) >= b || Stranded(f, b, p)
    ensures Stranded(f, b, p) ==> FirstBlock(f, p) < b
  {
    if b >= |f.addrs| {
      QInRange(|f.addrs|, b);
      Before(First(p), b - |f.addrs|, N);
      if p.Dind? {
        DindStranded(f, b);
      } else {
        OthersStranded(f, b, p);
      }
    }
  }

  lemma Before(k: nat, c: nat, n: nat)
    requires n > 0
    ensures k * n < c <==> k < c / n || (k == c / n && c % n != 0)
    ensures k * n < c < k * n + n <==> k == c / n && c % n != 0
  {
    assert c == c / n * n + c % n;
    if k < c / n {
      assert (k + 1) * n <= c / n * n;
    } else if k > c / n {
      assert (c / n + 1) * n <= k * n;
    }
  }

  lemma DindStranded(f: File, b: nat)
    requires FileOk(f) && |f.addrs| <= b < Capacity(|f.addrs|) && f.dind.DD?
    requires (b - |f.addrs|) / N < NODES
    ensures First(Dind) >= FirstGone(f, b) <==> FirstBlock(f, Dind) >= b || Stranded(f, b, Dind)
  {
    var q := (b - |f.addrs|) / N;
    Before(FIRST_DIND, b - |f.addrs|, N);
    Before(FIRST_DIND + N, b - |f.addrs|, N);
    if FIRST_DIND <= q < FIRST_DIND + N {
      assert (q - FIRST_DIND) / N == 0;
    } else if q >= FIRST_DIND + N {
      assert (q - FIRST_DIND) / N >= 1;
    }
  }

  lemma OthersStranded(f: File, b: nat, p: Pos)
    requires FileOk(f) && |f.addrs| <= b < Capacity(|f.addrs|) && PosOk(p) && !p.Root? && !p.Dind? && NidAt(f, p) != 0
    requires (b - |f.addrs|) / N < NODES
    ensures First(p) >= FirstGone(f, b) <==> FirstBlock(f, p) >= b || Stranded(f, b, p)
  {
    var q := (b - |f.addrs|) / N;
    Before(First(p), b - |f.addrs|, N);
    PresentBehind(f, q, p);
    if First(p) == q {
      FirstKid(f, q, p);
    }
  }

  /** Nothing but the double indirect node itself lies between the real start of the cut and the one asked for. */
  lemma PresentBehind(f: File, q: nat, p: Pos)
    requires FileOk(f) && q < NODES && PosOk(p) && !p.Root? && !p.Dind? && NidAt(f, p) != 0
    ensures First(p) >= Eff(f, q) ==> First(p) >= q
  {
    if Eff(f, q) <= First(p) < q {
      var x := (q - FIRST_DIND) / N;
      assert FIRST_DIND + x * N <= First(p) < FIRST_DIND + x * N + N;
      match p {
        case DindKid(y) => SameBlock(x, y, 0);
        case DindGrand(y, z) => SameBlock(x, y, z);
        case _ =>
      }
    }
  }

  lemma SameBlock(x: nat, y: nat, z: nat)
    requires x * N <= y * N + z < x * N + N && z < N
    ensures x == y
  {
  }

  /** The direct node with the number of a node's first is its first descendant. */
  lemma FirstKid(f: File, q: nat, p: Pos)
    requires FileOk(f) && q < NODES && PosOk(p) && !p.Root? && !p.Dind? && First(p) == q
    ensures Dnode(f, q) == match p
      case Dir(i) => f.dir[i]
      case Ind(i) => Kid(f.ind[i], 0)
      case IndKid(i, x) => Kid(f.ind[i], x)
      case DindKid(x) => Kid(Child(f.dind, x), 0)
      case DindGrand(x, y) => Kid(Child(f.dind, x), y)
      case _ => NoD
  {
  }

  const ADDRS_PER_INODE: nat := 923            // DEF_ADDRS_PER_INODE

  /** Both kinds occur: a lone double indirect node, and an indirect node without its first child. */
  lemma StrandedOccurs()
    ensures exists f: File, b: nat ::
      && FileOk(f) && |f.addrs| == ADDRS_PER_INODE && b < Capacity(|f.addrs|)
      && f.dind.DD? && Child(f.dind, 0).NoI? && Stranded(f, b, Dind)
    ensures exists f: File, b: nat ::
      && FileOk(f) && |f.addrs| == ADDRS_PER_INODE && b < Capacity(|f.addrs|)
      && f.ind[0].I? && f.ind[0].kids[1].D? && Stranded(f, b, Ind(0))
  {
    var own := seq(ADDRS_PER_INODE, i => 0);
    var f := File(own, [NoD, NoD], [NoI, NoI], DD(1, seq(N, i => NoI)));
    assert Stranded(f, ADDRS_PER_INODE + FIRST_DIND * N + 1, Dind);
    var d := D(2, seq(N, i => 5));
    var g := File(own, [NoD, NoD], [I(1, seq(N, i => if i == 1 then d else NoD)), NoI], NoDD);
    assert Stranded(g, ADDRS_PER_INODE + FIRST_IND * N + 1, Ind(0));
  }
}
