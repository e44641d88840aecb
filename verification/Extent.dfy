/**
 * The single extent an inode caches, against the block map it shortcuts.
 */
module Extent {

  const NULL_ADDR: nat := 0
  const NEW_ADDR: nat := 0xFFFF_FFFF
  const MIN_EXTENT_LEN: nat := 64

  /** struct extent_info */
  datatype Info = Info(fofs: nat, blk: nat, len: nat)

  /** The cached extent, with the FI_NO_EXTENT flag of its inode. */
  datatype Ext = Ext(ei: Info, off: bool)

  /** The block map: file offset to block address, 0 where there is none. */
  type BlockMap = map<nat, nat>

  function At(m: BlockMap, o: nat): (r: nat) { if o in m then m[o] else NULL_ADDR }

  /** Every offset inside the extent is mapped, to the block the extent predicts. */
  ghost predicate Predicts(e: Info, m: BlockMap) {
    forall o :: e.fofs <= o < e.fofs + e.len ==> At(m, o) == e.blk + (o - e.fofs) && At(m, o) != NULL_ADDR
  }

  /** update_extent_info */
  function Update(e: Info, fofs: nat, blk: nat): (r: Ext)
    ensures r.off ==> r.ei.len == 0
  {
    var e1 := if e.len == 1 && fofs == e.fofs then e.(len := 0) else e;
    if e1.len == 0 then
      Ext(if blk != NULL_ADDR then Info(fofs, blk, 1) else e1, false)
    else if fofs == e.fofs - 1 && blk == e.blk - 1 then
      Ext(Info(fofs, blk, e.len + 1), false)
    else if fofs == e.fofs + e.len && blk == e.blk + e.len then
      Ext(e.(len := e.len + 1), false)
    else
      var e2 := if e.len > 1 && e.fofs <= fofs < e.fofs + e.len then Split(e, fofs) else e;
      if e2.len < MIN_EXTENT_LEN then Ext(e2.(len := 0), true) else Ext(e2, false)
  }

  /** Keep the larger half of an extent that loses the offset `fofs`. */
  function Split(e: Info, fofs: nat): (r: Info)
    requires e.fofs <= fofs < e.fofs + e.len
  {
    if e.fofs + e.len - 1 - fofs < e.len / 2 then e.(len := fofs - e.fofs)
    else Info(fofs + 1, e.blk + (fofs - e.fofs) + 1, e.len - (fofs - e.fofs + 1))
  }

  /** The one update after which the extent covers an offset that is not mapped. */
  predicate MergesNothing(e: Info, fofs: nat, blk: nat) {
    blk == NULL_ADDR && e.blk == 1 && e.len > 0 && fofs == e.fofs - 1
  }

  /**
   * Merge, split, drop and re-creation keep the extent right, except when an
   * offset without a block is merged in front of block 1; real block
   * addresses lie far behind that.
   */
  lemma UpdateExact(e: Info, m: BlockMap, fofs: nat, blk: nat)
    requires Predicts(e, m)
    ensures Predicts(Update(e, fofs, blk).ei, m[fofs := blk]) <==> !MergesNothing(e, fofs, blk)
  {
    var r, n := Update(e, fofs, blk).ei, m[fofs := blk];
    if MergesNothing(e, fofs, blk) {
      assert At(n, r.fofs) == NULL_ADDR && r.fofs <= fofs < r.fofs + r.len;
    } else {
      forall o | r.fofs <= o < r.fofs + r.len ensures At(n, o) == r.blk + (o - r.fofs) && At(n, o) != NULL_ADDR {
        if o != fofs {
          assert At(n, o) == At(m, o);
        }
      }
    }
  }

  // ---- what the extent keeps ----

  predicate Covers(e: Info, o: nat) { e.fofs <= o < e.fofs + e.len }

  /** The update continues the extent at one of its ends, in the file and on disk. */
  predicate Continues(e: Info, fofs: nat, blk: nat) {
    && e.len > 0
    && ((fofs == e.fofs + e.len && blk == e.blk + e.len) || (fofs + 1 == e.fofs && blk + 1 == e.blk))
  }

  /** A block that continues the extent makes it longer by one, and nothing is forgotten. */
  lemma UpdateGrows(e: Info, fofs: nat, blk: nat)
    requires Continues(e, fofs, blk)
    ensures var r := Update(e, fofs, blk);
      !r.off && r.ei.len == e.len + 1 && forall o :: Covers(r.ei, o) <==> Covers(e, o) || o == fofs
  {
  }

  /** How many blocks are left of the extent: all of them, or the longer part beside `fofs`. */
  function Rest(e: Info, fofs: nat): (r: nat) {
    if !Covers(e, fofs) then e.len
    else
      var left, right := fofs - e.fofs, e.fofs + e.len - 1 - fofs;
      if right < left then left else right
  }

  /** `o` is in that part; of two equal parts it is the right one. */
  predicate InRest(e: Info, fofs: nat, o: nat) {
    if !Covers(e, fofs) then Covers(e, o)
    else
      var left, right := fofs - e.fofs, e.fofs + e.len - 1 - fofs;
      Covers(e, o) && if right < left then o < fofs else o > fofs
  }

  /** Nothing of a cached extent is left: it was empty or a single block that is now replaced. */
  predicate StartsAnew(e: Info, fofs: nat) { e.len == 0 || (e.len == 1 && fofs == e.fofs) }

  /**
   * A change that does not continue the extent leaves exactly its longer part
   * if that has 64 blocks or more, and otherwise gives the cache up for good;
   * the cache is given up in no other case.
   */
  lemma UpdateKeeps(e: Info, fofs: nat, blk: nat)
    ensures var r := Update(e, fofs, blk);
      && (r.off <==> !StartsAnew(e, fofs) && !Continues(e, fofs, blk) && Rest(e, fofs) < MIN_EXTENT_LEN)
      && (r.off ==> r.ei.len == 0)
      && (!StartsAnew(e, fofs) && !Continues(e, fofs, blk) && !r.off ==>
            r.ei.len == Rest(e, fofs) && forall o :: Covers(r.ei, o) <==> InRest(e, fofs, o))
      && (StartsAnew(e, fofs) ==> forall o :: Covers(r.ei, o) <==> o == fofs && blk != NULL_ADDR)
  {
  }

  /** The exception, concretely. */
  lemma MergesNothingOccurs()
    ensures Predicts(Info(5, 1, 1), map[5 := 1])
    ensures !Predicts(Update(Info(5, 1, 1), 4, NULL_ADDR).ei, map[5 := 1][4 := NULL_ADDR])
  {
    assert At(map[5 := 1], 5) == 1;
    UpdateExact(Info(5, 1, 1), map[5 := 1], 4, NULL_ADDR);
  }

  class Cache {
    var ext: Info
    var off: bool              // FI_NO_EXTENT
    ghost var blocks: BlockMap

    ghost predicate Valid()
      reads this
    {
      && Predicts(ext, blocks) && (off ==> ext.len == 0)
      && forall o :: o in blocks ==> blocks[o] == NULL_ADDR || blocks[o] > 1
    }

    constructor ()
      ensures Valid() && blocks == map[] && ext == Info(0, 0, 0) && !off
    {
      ext, off, blocks := Info(0, 0, 0), false, map[];
    }

    /** update_extent_info as written, field by field */
    method UpdateExtentInfo(fofs: nat, blk: nat)
      requires !off
      modifies `ext, `off
      ensures Ext(ext, off) == Update(old(ext), fofs, blk)
    {
      var start, startBlk := ext.fofs, ext.blk;
      var end, endBlk := ext.fofs + ext.len - 1, ext.blk + ext.len - 1;
      if ext.len == 1 && fofs == start {
        ext := ext.(len := 0);
      }
      if ext.len == 0 {
        if blk != NULL_ADDR {
          ext := ext.(fofs := fofs, blk := blk, len := 1);
        }
        return;
      }
      if fofs == start - 1 && blk == startBlk - 1 {
        ext := ext.(fofs := ext.fofs - 1, blk := ext.blk - 1, len := ext.len + 1);
        return;
      }
      if fofs == end + 1 && blk == endBlk + 1 {
        ext := ext.(len := ext.len + 1);
        return;
      }
      if ext.len > 1 && start <= fofs <= end {
        if end - fofs < ext.len / 2 {
          ext := ext.(len := fofs - start);
        } else {
          ext := ext.(fofs := fofs + 1, blk := startBlk + fofs - start + 1, len := ext.len - (fofs - start + 1));
        }
      }
      if ext.len < MIN_EXTENT_LEN {
        ext := ext.(len := 0);
        off := true;
      }
    }

    /** A data block gets a new address: set_data_blkaddr, then f2fs_update_extent_cache. */
    method SetBlock(fofs: nat, blk: nat)
      requires Valid() && blk != NEW_ADDR && blk != 1
      modifies this
      ensures Valid() && blocks == old(blocks)[fofs := blk]
    {
      blocks := blocks[fofs := blk];
      if off {
        return;
      }
      NotOne(ext, old(blocks));
      UpdateExact(ext, old(blocks), fofs, blk);
      UpdateExtentInfo(fofs, blk);
    }

    /** reserve_new_block: a hole becomes a placeholder, and the cache is not told */
    method Reserve(fofs: nat)
      requires Valid() && At(blocks, fofs) == NULL_ADDR
      modifies `blocks
      ensures Valid() && blocks == old(blocks)[fofs := NEW_ADDR]
    {
      blocks := blocks[fofs := NEW_ADDR];
      forall o | ext.fofs <= o < ext.fofs + ext.len
        ensures At(blocks, o) == ext.blk + (o - ext.fofs) && At(blocks, o) != NULL_ADDR
      {
        assert At(old(blocks), o) != NULL_ADDR;
        assert At(blocks, o) == At(old(blocks), o);
      }
    }

    /**
     * The cached path of f2fs_map_blocks: a hit gives the mapped address of
     * the offset and a run of consecutive blocks behind it.
     */
    method MapBlocks(pgofs: nat, maxBlocks: nat) returns (hit: bool, pblk: nat, len: nat)
      requires Valid()
      ensures hit <==> !off && ext.fofs <= pgofs < ext.fofs + ext.len
      ensures hit ==> len == if pgofs + maxBlocks <= ext.fofs + ext.len then maxBlocks else ext.fofs + ext.len - pgofs
      ensures hit ==> forall o :: pgofs <= o < pgofs + len ==> At(blocks, o) == pblk + (o - pgofs) && At(blocks, o) != NULL_ADDR
      ensures hit ==> pblk == At(blocks, pgofs)
    {
      hit, pblk, len := false, 0, 0;
      if !off && ext.len != 0 && ext.fofs <= pgofs <= ext.fofs + ext.len - 1 {
        hit := true;
        pblk := ext.blk + pgofs - ext.fofs;
        var rest := ext.fofs + ext.len - pgofs;
        len := if maxBlocks < rest then maxBlocks else rest;
      }
    }
  }

  /** No extent of real addresses starts at block 1. */
  lemma NotOne(e: Info, m: BlockMap)
    requires Predicts(e, m) && forall o :: o in m ==> m[o] == NULL_ADDR || m[o] > 1
    ensures e.len > 0 ==> e.blk > 1
  {
    if e.len > 0 {
      assert At(m, e.fofs) == e.blk;
    }
  }

  // ---- runs ----

  ghost function Play(m: BlockMap, ops: seq<(nat, nat)>): (r: BlockMap) {
    if ops == [] then m else Play(m, ops[..|ops| - 1])[ops[|ops| - 1].0 := ops[|ops| - 1].1]
  }

  ghost function PlayExt(e: Ext, ops: seq<(nat, nat)>): (r: Ext) {
    if ops == [] then e
    else
      var d := PlayExt(e, ops[..|ops| - 1]);
      if d.off then d else Update(d.ei, ops[|ops| - 1].0, ops[|ops| - 1].1)
  }

  /** What the cache is for: a file written in order, to one piece of the disk, is one extent. */
  lemma {:induction false} SequentialWrite(fofs: nat, blk: nat, n: nat)
    requires blk != NULL_ADDR && n > 0
    ensures PlayExt(Ext(Info(0, 0, 0), false), seq(n, i => (fofs + i, blk + i))) == Ext(Info(fofs, blk, n), false)
  {
    var ops := seq(n, i => (fofs + i, blk + i));
    var rest := seq(n - 1, i => (fofs + i, blk + i));
    assert ops[..n - 1] == rest;
    if n > 1 {
      SequentialWrite(fofs, blk, n - 1);
    }
  }

  /** After any sequence of address changes the extent predicts the block map. */
  lemma {:induction false} ExtentRun(e: Ext, m: BlockMap, ops: seq<(nat, nat)>)
    requires Predicts(e.ei, m) && (e.off ==> e.ei.len == 0)
    requires forall o :: o in m ==> m[o] == NULL_ADDR || m[o] > 1
    requires forall i :: 0 <= i < |ops| ==> ops[i].1 != 1
    ensures Predicts(PlayExt(e, ops).ei, Play(m, ops))
    ensures PlayExt(e, ops).off ==> PlayExt(e, ops).ei.len == 0
    ensures forall o :: o in Play(m, ops) ==> Play(m, ops)[o] == NULL_ADDR || Play(m, ops)[o] > 1
  {
    if ops != [] {
      var k := |ops| - 1;
      ExtentRun(e, m, ops[..k]);
      var d, n := PlayExt(e, ops[..k]), Play(m, ops[..k]);
      if !d.off {
        NotOne(d.ei, n);
        UpdateExact(d.ei, n, ops[k].0, ops[k].1);
      }
    }
  }
}
