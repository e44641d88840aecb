/**
 * The arithmetic of the file index tree: from a block index to a path of
 * nodes, from a node offset back to the first block it maps, and which node
 * offsets are direct nodes.
 */
module IndexPath {
  import opened Common

  const N: nat := 1018                  // ADDRS_PER_BLOCK and NIDS_PER_BLOCK
  const DIR1: nat := 924                // NODE_DIR1_BLOCK
  const DIR2: nat := 925
  const IND1: nat := 926
  const IND2: nat := 927
  const DIND: nat := 928

  /** offset[] and noffset[] up to the level */
  datatype Path = Path(offset: seq<nat>, noffset: seq<nat>)

  function Level(p: Path): (r: int) { |p.offset| - 1 }

  /** The first block index the tree cannot hold; `direct` is ADDRS_PER_INODE. */
  function Capacity(direct: nat): (r: nat) {
    direct + 2 * N + 2 * (N * N) + N * (N * N)
  }

  /** get_node_path; None where the code stops with BUG() */
  function NodePath(direct: nat, block: nat): (r: Option<Path>)
    ensures r.Some? <==> block < Capacity(direct)
    ensures r.Some? ==> 1 <= |r.value.offset| == |r.value.noffset| <= 4 && r.value.noffset[0] == 0
  {
    if block < direct then Some(Path([block], [0]))
    else
      var b := block - direct;
      if b < N then Some(Path([DIR1, b], [0, 1]))
      else if b < 2 * N then Some(Path([DIR2, b - N], [0, 2]))
      else
        var b := b - 2 * N;
        if b < N * N then Some(Path([IND1, b / N, b % N], [0, 3, 4 + b / N]))
        else
          var b := b - N * N;
          if b < N * N then Some(Path([IND2, b / N, b % N], [0, 4 + N, 5 + N + b / N]))
          else
            var b := b - N * N;
            if b < N * (N * N) then
              var x, y := b / (N * N), (b / N) % N;
              Some(Path([DIND, x, y, b % N],
                [0, 5 + 2 * N, 6 + 2 * N + x * (N + 1), 7 + 2 * N + x * (N + 1) + y]))
            else None
  }

  /** start_bidx_of_node, for the offset of an inode or direct node */
  function StartBidx(direct: nat, ofs: nat): (r: int) {
    if ofs == 0 then 0
    else
      var indirect := 2 * N + 4;
      var bidx :=
        if ofs <= 2 then ofs - 1
        else if ofs <= indirect then ofs - 2 - (ofs - 4) / (N + 1)
        else ofs - 5 - (ofs - indirect - 3) / (N + 1);
      bidx * N + direct
  }

  /** IS_DNODE, for a node that is not an xattr node */
  predicate IsDnode(ofs: nat) {
    && ofs != 3 && ofs != 4 + N && ofs != 5 + 2 * N
    && (ofs >= 6 + 2 * N ==> (ofs - (6 + 2 * N)) % (N + 1) != 0)
  }

  /** The last node on a path is a direct node, the ones between it and the inode are not. */
  lemma PathKinds(direct: nat, block: nat, k: nat)
    requires block < Capacity(direct) && k < |NodePath(direct, block).value.noffset|
    ensures var p := NodePath(direct, block).value;
      IsDnode(p.noffset[k]) <==> k == 0 || k == Level(p)
  {
  }

  // ---- positions ----

  /** Places for nodes in the tree. */
  datatype Pos = Root | Dir(i: nat) | Ind(i: nat) | IndKid(i: nat, x: nat) | Dind | DindKid(x: nat) | DindGrand(x: nat, y: nat)

  predicate PosOk(p: Pos) {
    match p
    case Root => true
    case Dir(i) => i < 2
    case Ind(i) => i < 2
    case IndKid(i, x) => i < 2 && x < N
    case Dind => true
    case DindKid(x) => x < N
    case DindGrand(x, y) => x < N && y < N
  }

  /** The numbering of node offsets (node.h). */
  function Offset(p: Pos): (r: nat) {
    match p
    case Root => 0
    case Dir(i) => 1 + i
    case Ind(i) => 3 + i * (N + 1)
    case IndKid(i, x) => 4 + i * (N + 1) + x
    case Dind => 5 + 2 * N
    case DindKid(x) => 6 + 2 * N + x * (N + 1)
    case DindGrand(x, y) => 7 + 2 * N + x * (N + 1) + y
  }

  /** The place reached by following the first `k` offsets. */
  function PosOf(offset: seq<nat>, k: nat): (r: Pos)
    requires k < |offset|
  {
    if k == 0 then Root
    else if offset[0] == DIR1 then Dir(0)
    else if offset[0] == DIR2 then Dir(1)
    else if offset[0] == IND1 || offset[0] == IND2 then
      if k == 1 then Ind(offset[0] - IND1) else IndKid(offset[0] - IND1, offset[1])
    else if k == 1 then Dind
    else if k == 2 then DindKid(offset[1])
    else DindGrand(offset[1], offset[2])
  }

  /** Two nodes of the tree never have the same offset. */
  lemma OffsetInjective(p: Pos, q: Pos)
    requires PosOk(p) && PosOk(q) && Offset(p) == Offset(q)
    ensures p == q
  {
  }

  /** Along a path, noffset[k] is the offset of the node the first k steps lead to. */
  lemma PathOffsets(direct: nat, block: nat, k: nat)
    requires block < Capacity(direct) && k < |NodePath(direct, block).value.noffset|
    ensures var p := NodePath(direct, block).value;
      PosOk(PosOf(p.offset, k)) && p.noffset[k] == Offset(PosOf(p.offset, k))
  {
  }

  /** Direct nodes are exactly the inode and the lowest nodes of each branch. */
  lemma DnodePositions(p: Pos)
    requires PosOk(p)
    ensures IsDnode(Offset(p)) <==> p.Root? || p.Dir? || p.IndKid? || p.DindGrand?
  {
  }

  /** Wherever two paths carry the same node offset, they have come the same way. */
  lemma SharedOffset(direct: nat, a: nat, b: nat, i: nat, k: nat)
    requires a < Capacity(direct) && b < Capacity(direct)
    requires i < |NodePath(direct, a).value.noffset| && k < |NodePath(direct, b).value.noffset|
    requires NodePath(direct, a).value.noffset[i] == NodePath(direct, b).value.noffset[k]
    ensures i == k
    ensures NodePath(direct, a).value.offset[..i] == NodePath(direct, b).value.offset[..k]
  {
    var p, q := NodePath(direct, a).value, NodePath(direct, b).value;
    PathOffsets(direct, a, i);
    PathOffsets(direct, b, k);
    OffsetInjective(PosOf(p.offset, i), PosOf(q.offset, k));
  }

  // ---- direct nodes in order ----

  /** Direct nodes below the inode are numbered in the order of the blocks they map. */
  function Number(p: Pos): (r: nat)
    requires p.Dir? || p.IndKid? || p.DindGrand?
  {
    match p
    case Dir(i) => i
    case IndKid(i, x) => 2 + i * N + x
    case DindGrand(x, y) => 2 + 2 * N + x * N + y
  }

  lemma StartOfNumber(direct: nat, p: Pos)
    requires PosOk(p) && (p.Dir? || p.IndKid? || p.DindGrand?)
    ensures StartBidx(direct, Offset(p)) == direct + Number(p) * N
  {
    match p {
      case Dir(i) =>
      case IndKid(i, x) => StartOfIndKid(direct, i, x);
      case DindGrand(x, y) => StartOfGrand(direct, x, y);
    }
  }

  lemma StartOfIndKid(direct: nat, i: nat, x: nat)
    requires i < 2 && x < N
    ensures StartBidx(direct, 4 + i * (N + 1) + x) == direct + (2 + i * N + x) * N
  {
    Quotient(i, x);
  }

  lemma StartOfGrand(direct: nat, x: nat, y: nat)
    requires x < N && y < N
    ensures StartBidx(direct, 7 + 2 * N + x * (N + 1) + y) == direct + (2 + 2 * N + x * N + y) * N
  {
    Quotient(x, y);
  }

  lemma Quotient(i: nat, x: nat)
    requires x <= N
    ensures (i * (N + 1) + x) / (N + 1) == i
  {
  }

  lemma Digits(b: nat)
    ensures b == b / N * N + b % N
    ensures b / N == b / (N * N) * N + (b / N) % N
  {
  }

  /** A block below the inode's own lies in the direct node with its number. */
  lemma PathNumber(direct: nat, block: nat)
    requires direct <= block < Capacity(direct)
    ensures var p := NodePath(direct, block).value;
      && Level(p) > 0
      && var pos := PosOf(p.offset, Level(p));
         && PosOk(pos) && (pos.Dir? || pos.IndKid? || pos.DindGrand?)
         && p.noffset[Level(p)] == Offset(pos)
         && Number(pos) == (block - direct) / N && p.offset[Level(p)] == (block - direct) % N
  {
    var b := block - direct;
    if b >= 2 * N + 2 * (N * N) {
      Digits(b - 2 * N - 2 * (N * N));
    }
  }

  /** For every block the path is the inverse of start_bidx_of_node. */
  lemma PathInverse(direct: nat, block: nat)
    requires block < Capacity(direct)
    ensures var p := NodePath(direct, block).value;
      StartBidx(direct, p.noffset[Level(p)]) + p.offset[Level(p)] == block
  {
    if direct <= block {
      var p := NodePath(direct, block).value;
      PathNumber(direct, block);
      StartOfNumber(direct, PosOf(p.offset, Level(p)));
    }
  }
}
