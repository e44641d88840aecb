/**
 * A hashed directory as a map from names to inodes.
 *
 * The ghost field `entries` is that map, with the place of each entry; the
 * methods are the file system's find, add and delete, and each says what it
 * does to the map.
 */
module Directory {
  import opened DirLayout
  import opened DirBlock

  datatype Loc = Loc(level: nat, blk: nat, pos: nat, ino: nat)

  /** Stuck: the code asks for a block beyond the largest file and stops with BUG(). */
  datatype Search = Found(blk: nat, pos: nat, ino: nat) | Missing | Stuck

  datatype Result = Linked | NoSpace | Failed

  type Starts = map<nat, set<nat>>

  /** The directory as the proofs see it: its blocks, the entries in each, and the map they stand for. */
  datatype Picture = Picture(hash: Name -> nat, dirLevel: nat, depth: nat, size: nat,
                             blocks: map<nat, Block>, starts: Starts, entries: map<Name, Loc>)

  /** Block `b` is well laid out and within reach. */
  ghost predicate BlockOk(d: Picture, b: nat) {
    b in d.blocks && b in d.starts && b < MAX_BLOCKS && b < d.size && Layout(d.blocks[b], d.starts[b])
  }

  ghost predicate BlocksOk(d: Picture) {
    d.starts.Keys == d.blocks.Keys && forall b :: b in d.blocks ==> BlockOk(d, b)
  }

  /** The entry of `name` is where the map says, below the depth and in the name's bucket. */
  ghost predicate Listed(d: Picture, name: Name)
    requires name in d.entries
  {
    var loc := d.entries[name];
    && |name| > 0 && loc.level < d.depth && InBucket(loc.level, d.dirLevel, d.hash(name), loc.blk)
    && BlockOk(d, loc.blk) && loc.pos in d.starts[loc.blk]
    && IsEntry(d.blocks[loc.blk], loc.pos, name, d.hash(name), loc.ino)
  }

  ghost predicate AllListed(d: Picture) {
    forall name :: name in d.entries ==> Listed(d, name)
  }

  /** The entry in slot `p` of block `b` is the map's entry of its name. */
  ghost predicate Owned(d: Picture, b: nat, p: nat) {
    && BlockOk(d, b) && p in d.starts[b]
    && var name := NameAt(d.blocks[b], p);
       name in d.entries && d.entries[name].blk == b && d.entries[name].pos == p
  }

  ghost predicate AllOwned(d: Picture) {
    forall b, p :: b in d.blocks && b in d.starts && p in d.starts[b] ==> Owned(d, b, p)
  }

  ghost predicate PictureOk(d: Picture) {
    1 <= d.depth <= MAX_DIR_HASH_DEPTH && BlocksOk(d) && AllListed(d) && AllOwned(d)
  }

  type Blocks = map<nat, Block>

  /** The bucket of the hash at this level has all its blocks, and none has room. */
  ghost predicate Full(blocks: Blocks, dirLevel: nat, h: nat, level: nat, slots: nat) {
    forall b: nat :: InBucket(level, dirLevel, h, b) ==> b in blocks && !HasRun(blocks[b].bits, slots)
  }

  ghost predicate FullBetween(blocks: Blocks, dirLevel: nat, h: nat, from: nat, to: nat, slots: nat) {
    forall v :: from <= v < to ==> Full(blocks, dirLevel, h, v, slots)
  }

  /** No block is lost, and only block `at` may have changed. */
  ghost predicate KeptBut(a: Blocks, b: Blocks, at: int) {
    forall c :: c in a ==> c in b && (c != at ==> b[c] == a[c])
  }

  /** What a search has noted of the levels below `level`: the first with room for the name, or that there is none. */
  ghost predicate HintOk(blocks: Blocks, dirLevel: nat, h: nat, level: nat, slots: nat, chash: nat, clevel: nat) {
    if chash == h then
      && clevel < level && !Full(blocks, dirLevel, h, clevel, slots)
      && FullBetween(blocks, dirLevel, h, 0, clevel, slots)
    else FullBetween(blocks, dirLevel, h, 0, level, slots)
  }

  class Dir {
    const hash: Name -> nat
    const dirLevel: nat
    var blocks: map<nat, Block>
    var depth: nat
    var chash: nat
    var clevel: nat
    var size: nat
    ghost var starts: Starts
    ghost var entries: map<Name, Loc>

    ghost function Pic(): (r: Picture)
      reads this
    {
      Picture(hash, dirLevel, depth, size, blocks, starts, entries)
    }

    ghost predicate Valid()
      reads this
    {
      PictureOk(Pic()) && clevel < depth
    }

    /** A directory without blocks. */
    constructor (h: Name -> nat, level: nat)
      ensures Valid() && entries == map[] && hash == h && dirLevel == level
    {
      hash, dirLevel := h, level;
      blocks, depth, chash, clevel, size := map[], 1, 0, 0, 0;
      starts, entries := map[], map[];
    }

    /** find_in_block: the block either has the name's entry or the name is elsewhere */
    method FindInBlock(b: nat, name: Name) returns (found: bool, pos: nat, maxSlots: nat)
      requires Valid() && b in blocks
      ensures found ==> name in entries && entries[name].blk == b && entries[name].pos == pos
      ensures found ==> pos < |blocks[b].de| && blocks[b].de[pos].ino == entries[name].ino
      ensures !found && name in entries ==> entries[name].blk != b
      ensures !found ==> forall n: nat :: n > 0 ==> (n <= maxSlots <==> HasRun(blocks[b].bits, n))
    {
      assert BlockOk(Pic(), b);
      found, pos, maxSlots := FindTarget(blocks[b], starts[b], name, hash(name));
      if found {
        assert Owned(Pic(), b, pos);
        assert Listed(Pic(), name);
      } else {
        NotHere(Pic(), name, b);
      }
    }

    /** A level that does not have the name and has room for it is noted, unless one is noted for this hash. */
    ghost predicate Noted(r: Search, level: nat, h: nat, slots: nat, ch: nat, cl: nat)
      reads this
    {
      if r.Missing? && ch != h && !Full(blocks, dirLevel, h, level, slots) then chash == h && clevel == level
      else chash == ch && clevel == cl
    }

    /** find_in_level: look at the blocks of the name's bucket */
    method ScanBucket(name: Name, level: nat) returns (r: Search)
      requires Valid() && |name| > 0 && level < depth
      modifies `chash, `clevel
      ensures Valid()
      ensures r.Found? ==> name in entries && entries[name].blk == r.blk && entries[name].pos == r.pos && entries[name].ino == r.ino
      ensures r.Missing? ==> name in entries ==> !InBucket(level, dirLevel, hash(name), entries[name].blk)
      ensures r.Stuck? ==> BucketStart(level, dirLevel, hash(name)) + BucketBlocks(level) > MAX_BLOCKS
      ensures r.Stuck? && name in entries && InBucket(level, dirLevel, hash(name), entries[name].blk) ==>
        entries[name].blk >= MAX_BLOCKS
      ensures Noted(r, level, hash(name), SlotsFor(|name|), old(chash), old(clevel))
    {
      var h := hash(name);
      var bidx := DirBlockIndex(level, dirLevel, h % Buckets(level, dirLevel));
      var room := false;
      ghost var at: nat := 0;
      r := Missing;
      for b := bidx to bidx + BucketBlocks(level)
        invariant r.Missing? && chash == old(chash) && clevel == old(clevel)
        invariant name in entries ==> !(bidx <= entries[name].blk < b)
        invariant room ==> bidx <= at < b && HasRoom(at, SlotsFor(|name|))
        invariant !room ==> forall c: nat :: bidx <= c < b ==> !HasRoom(c, SlotsFor(|name|))
      {
        if b >= MAX_BLOCKS {
          return Stuck;
        }
        var s, more := ScanBlock(b, name);
        if s.Found? {
          return s;
        }
        if more {
          room, at := true, b;
        }
      }
      if room {
        assert InBucket(level, dirLevel, h, at) && HasRoom(at, SlotsFor(|name|));
      } else {
        forall c: nat | InBucket(level, dirLevel, h, c) ensures c in blocks && !HasRun(blocks[c].bits, SlotsFor(|name|)) {
          assert !HasRoom(c, SlotsFor(|name|));
        }
      }
      if room && chash != h {
        chash, clevel := h, level;
      }
    }

    /** The block is missing, and would be allocated, or has room. */
    ghost predicate HasRoom(b: nat, slots: nat)
      reads this
    {
      !(b in blocks && !HasRun(blocks[b].bits, slots))
    }

    /** One block of the bucket: whether it has the name, and if not, whether it has room. */
    method ScanBlock(b: nat, name: Name) returns (r: Search, room: bool)
      requires Valid() && |name| > 0
      ensures r.Found? || r.Missing?
      ensures r.Found? ==> name in entries && entries[name].blk == r.blk && entries[name].pos == r.pos && entries[name].ino == r.ino
      ensures r.Missing? ==> (room <==> HasRoom(b, SlotsFor(|name|))) && (name in entries ==> entries[name].blk != b)
    {
      if b !in blocks {
        if name in entries {
          assert Listed(Pic(), name);
        }
        return Missing, true;
      }
      var found, pos, maxSlots := FindInBlock(b, name);
      if found {
        return Found(b, pos, blocks[b].de[pos].ino), false;
      }
      return Missing, maxSlots >= SlotsFor(|name|);
    }

    /** A level either has the name, or it is not the name's level. */
    method FindInLevel(name: Name, level: nat) returns (r: Search)
      requires Valid() && |name| > 0 && level < depth
      requires name in entries ==> level <= entries[name].level
      modifies `chash, `clevel
      ensures Valid()
      ensures r.Found? ==> name in entries && entries[name].blk == r.blk && entries[name].pos == r.pos && entries[name].ino == r.ino
      ensures !r.Found? && name in entries ==> r.Missing? && level < entries[name].level
      ensures r.Stuck? ==> BucketStart(level, dirLevel, hash(name)) + BucketBlocks(level) > MAX_BLOCKS
      ensures Noted(r, level, hash(name), SlotsFor(|name|), old(chash), old(clevel))
    {
      if name in entries {
        Reaches(Pic(), name, level);
      }
      r := ScanBucket(name, level);
    }

    /**
     * f2fs_find_entry.  A name of the map is always found, with its inode and
     * place; a name that is not in the map is never found.  A search that ends
     * without it has noted the first level with room for the name, if none was
     * noted for this hash before.
     */
    method FindEntry(name: Name) returns (r: Search)
      requires Valid() && |name| > 0
      modifies `chash, `clevel
      ensures Valid()
      ensures r.Found? <==> name in entries
      ensures r.Found? ==> entries[name].blk == r.blk && entries[name].pos == r.pos && entries[name].ino == r.ino
      ensures r.Stuck? ==> exists level :: 0 <= level < depth && BucketStart(level, dirLevel, hash(name)) + BucketBlocks(level) > MAX_BLOCKS
      ensures r.Missing? && size > 0 && old(chash) != hash(name) ==>
        HintOk(blocks, dirLevel, hash(name), depth, SlotsFor(|name|), chash, clevel)
      ensures old(chash) == hash(name) ==> chash == old(chash) && clevel == old(clevel)
    {
      r := Missing;
      Bounds(Pic(), name);
      if size == 0 {
        return;
      }
      for level := 0 to depth
        invariant Valid() && r.Missing?
        invariant name in entries ==> level <= entries[name].level
        invariant old(chash) == hash(name) ==> chash == old(chash) && clevel == old(clevel)
        invariant old(chash) != hash(name) ==> HintOk(blocks, dirLevel, hash(name), level, SlotsFor(|name|), chash, clevel)
      {
        r := FindInLevel(name, level);
        if !r.Missing? {
          return;
        }
      }
    }

    /** get_new_data_page for a directory block: allocate it if it is not there */
    method GetBlock(b: nat)
      requires Valid() && b < MAX_BLOCKS
      modifies `blocks, `size, `starts
      ensures Valid() && b in blocks
      ensures forall c :: c in old(blocks) ==> c in blocks && blocks[c] == old(blocks)[c]
      ensures forall c :: c in blocks ==> c in old(blocks) || c == b
    {
      Extend(b + 1);
      if b !in blocks {
        ghost var d := Pic();
        FreshPicture(d, b);
        blocks := blocks[b := Fresh()];
        starts := starts[b := {}];
        assert Pic() == d.(blocks := d.blocks[b := Fresh()], starts := d.starts[b := {}]);
      }
    }

    /** The directory's size covers `n` blocks. */
    method Extend(n: nat)
      requires Valid()
      modifies `size
      ensures Valid() && n <= size
    {
      if size < n {
        GrowPicture(Pic(), n);
        size := n;
      }
    }

    /** One block, allocated if need be, and its first place with room. */
    method RoomInBlock(b: nat, slots: nat) returns (pos: nat)
      requires Valid() && b < MAX_BLOCKS && slots > 0
      modifies `blocks, `size, `starts
      ensures Valid() && b in blocks
      ensures KeptBut(old(blocks), blocks, -1)
      ensures if pos < SLOTS then FreeRun(blocks[b].bits, pos, slots) else !HasRun(blocks[b].bits, slots)
      ensures pos < SLOTS ==> forall k: nat :: k < pos ==> !FreeRun(blocks[b].bits, k, slots)
    {
      GetBlock(b);
      assert BlockOk(Pic(), b);
      pos := RoomForFilename(blocks[b].bits, slots);
    }

    /** The blocks of one bucket, looking for room. */
    method RoomInLevel(level: nat, h: nat, slots: nat) returns (r: Search)
      requires Valid() && slots > 0
      modifies `blocks, `size, `starts
      ensures Valid()
      ensures r.Found? ==> r.blk in blocks && InBucket(level, dirLevel, h, r.blk) && FreeRun(blocks[r.blk].bits, r.pos, slots)
      ensures r.Found? ==> forall c: nat :: InBucket(level, dirLevel, h, c) && c < r.blk ==> c in blocks && !HasRun(blocks[c].bits, slots)
      ensures r.Missing? ==> Full(blocks, dirLevel, h, level, slots)
      ensures r.Stuck? ==> BucketStart(level, dirLevel, h) + BucketBlocks(level) > MAX_BLOCKS
      ensures KeptBut(old(blocks), blocks, -1)
    {
      var bidx := DirBlockIndex(level, dirLevel, h % Buckets(level, dirLevel));
      for b := bidx to bidx + BucketBlocks(level)
        invariant Valid() && KeptBut(old(blocks), blocks, -1)
        invariant forall c: nat :: bidx <= c < b ==> c in blocks && !HasRun(blocks[c].bits, slots)
      {
        if b >= MAX_BLOCKS {
          return Stuck;
        }
        var pos := RoomInBlock(b, slots);
        if pos < SLOTS {
          return Found(b, pos, 0);
        }
      }
      r := Missing;
    }

    /** f2fs_update_dentry in a place with room, and the depth update that goes with it */
    method PutEntry(b: nat, pos: nat, name: Name, ino: nat, newDepth: nat, ghost loc: Loc)
      requires loc.blk == b && loc.pos == pos && loc.ino == ino && BlockOk(Pic(), b)
      requires |name| > 0 && pos + SlotsFor(|name|) <= SLOTS && PictureOk(AddTo(Pic(), loc, name, newDepth))
      modifies `blocks, `starts, `entries, `depth
      ensures Pic() == AddTo(old(Pic()), loc, name, newDepth)
    {
      depth := newDepth;
      blocks := blocks[b := Added(blocks[b], pos, name, hash(name), ino)];
      starts := starts[b := starts[b] + {pos}];
      entries := entries[name := loc];
    }

    /** One level of __f2fs_add_link; NoSpace means going on to the next level. */
    method AddAtLevel(name: Name, ino: nat, level: nat, cur: nat) returns (r: Result, ghost loc: Loc)
      requires Valid() && |name| > 0 && name !in entries
      requires level < cur <= MAX_DIR_HASH_DEPTH && depth <= cur
      modifies `blocks, `size, `starts, `entries, `depth
      ensures Valid()
      ensures r.Linked? ==> entries == old(entries)[name := loc] && loc.ino == ino && depth == cur
      ensures r.Linked? ==> loc.level == level && loc.blk < MAX_BLOCKS && InBucket(level, dirLevel, hash(name), loc.blk)
      ensures !r.Linked? ==> entries == old(entries) && depth == old(depth)
      ensures r.NoSpace? ==> PassedTo(dirLevel, hash(name), level + 1)
      ensures r.NoSpace? ==> Full(blocks, dirLevel, hash(name), level, SlotsFor(|name|))
      ensures r.Failed? ==> BucketStart(level, dirLevel, hash(name)) + BucketBlocks(level) > MAX_BLOCKS
      ensures loc.level == level && KeptBut(old(blocks), blocks, if r.Linked? then loc.blk else -1)
    {
      loc := Loc(level, 0, 0, 0);
      var s := RoomInLevel(level, hash(name), SlotsFor(|name|));
      if s.Stuck? {
        r := Failed;
      } else if s.Found? {
        loc := Loc(level, s.blk, s.pos, ino);
        AddPicture(Pic(), loc, name, cur);
        PutEntry(s.blk, s.pos, name, ino, cur, loc);
        r := Linked;
      } else {
        Passed(Pic(), hash(name), level);
        r := NoSpace;
      }
    }

    /** Where an addition begins to look: at the level noted for its hash, else at the first. */
    ghost function StartLevel(h: nat): (v: nat)
      reads this
    {
      if chash == h then clevel else 0
    }

    /**
     * __f2fs_add_link.  On success the map gains exactly this name, in a place
     * that is in the name's bucket; otherwise the map is unchanged.  The level
     * is the first from the starting one on whose bucket has room, and the
     * depth grows to it if need be.  NoSpace is returned exactly at the
     * greatest depth.  Failed means that the end of the largest file came
     * first: `loc` names a level whose bucket is beyond it, and every level
     * before that is full.
     */
    method AddLink(name: Name, ino: nat) returns (r: Result, ghost loc: Loc)
      requires Valid() && |name| > 0 && name !in entries
      modifies this
      ensures Valid()
      ensures r.Linked? ==> entries == old(entries)[name := loc] && loc.ino == ino
      ensures r.Linked? ==> loc.blk < MAX_BLOCKS && InBucket(loc.level, dirLevel, hash(name), loc.blk)
      ensures !r.Linked? ==> entries == old(entries)
      ensures r.NoSpace? <==> old(depth) == MAX_DIR_HASH_DEPTH
      ensures depth == old(depth) || depth <= HALF
      ensures !r.NoSpace? ==> old(StartLevel(hash(name))) <= loc.level < MAX_DIR_HASH_DEPTH
      ensures !r.NoSpace? ==>
        FullBetween(blocks, dirLevel, hash(name), old(StartLevel(hash(name))), loc.level, SlotsFor(|name|))
      ensures r.Failed? ==> BucketStart(loc.level, dirLevel, hash(name)) + BucketBlocks(loc.level) > MAX_BLOCKS
      ensures depth == if r.Linked? && loc.level + 1 > old(depth) then loc.level + 1 else old(depth)
      ensures KeptBut(old(blocks), blocks, if r.Linked? then loc.blk else -1)
    {
      var h := hash(name);
      var level: nat, cur: nat := 0, depth;
      ghost var start := StartLevel(h);
      if chash == h {
        level, chash := clevel, 0;
      }
      r, loc := NoSpace, Loc(0, 0, 0, 0);
      while cur != MAX_DIR_HASH_DEPTH
        invariant Valid() && r == NoSpace && entries == old(entries) && depth == old(depth)
        invariant start <= level <= cur <= MAX_DIR_HASH_DEPTH && depth <= cur
        invariant cur > depth ==> level == cur && PassedTo(dirLevel, h, level)
        invariant FullBetween(blocks, dirLevel, h, start, level, SlotsFor(|name|)) && KeptBut(old(blocks), blocks, -1)
        decreases MAX_DIR_HASH_DEPTH - level
      {
        if level == cur {
          cur := cur + 1;
        }
        r, loc := AddNext(name, ino, level, cur, start, old(blocks));
        if !r.NoSpace? {
          return;
        }
        level := level + 1;
      }
      TooDeep(dirLevel, h);
    }

    /** One level, with what is known of those before it. */
    method AddNext(name: Name, ino: nat, level: nat, cur: nat, ghost start: nat, ghost was: Blocks) returns (r: Result, ghost loc: Loc)
      requires Valid() && |name| > 0 && name !in entries
      requires start <= level < cur <= MAX_DIR_HASH_DEPTH && depth <= cur
      requires FullBetween(blocks, dirLevel, hash(name), start, level, SlotsFor(|name|)) && KeptBut(was, blocks, -1)
      modifies `blocks, `size, `starts, `entries, `depth
      ensures Valid() && loc.level == level
      ensures r.Linked? ==> entries == old(entries)[name := loc] && loc.ino == ino && depth == cur && level < HALF
      ensures r.Linked? ==> loc.blk < MAX_BLOCKS && InBucket(level, dirLevel, hash(name), loc.blk)
      ensures !r.Linked? ==> entries == old(entries) && depth == old(depth)
      ensures r.NoSpace? ==> PassedTo(dirLevel, hash(name), level + 1)
      ensures r.Failed? ==> BucketStart(level, dirLevel, hash(name)) + BucketBlocks(level) > MAX_BLOCKS
      ensures FullBetween(blocks, dirLevel, hash(name), start, if r.NoSpace? then level + 1 else level, SlotsFor(|name|))
      ensures KeptBut(was, blocks, if r.Linked? then loc.blk else -1)
    {
      ghost var b := blocks;
      r, loc := AddAtLevel(name, ino, level, cur);
      if r.Linked? {
        ReachableLevel(level, dirLevel, hash(name), loc.blk);
      }
      StaysFull(b, blocks, dirLevel, hash(name), start, level, SlotsFor(|name|), if r.Linked? then loc.blk else -1);
    }

    /**
     * Looking a name up and, if it is not there, adding it, as a creation
     * does: the name goes to the lowest level that has room for it.
     */
    method FindThenAdd(name: Name, ino: nat) returns (s: Search, r: Result, ghost loc: Loc)
      requires Valid() && |name| > 0 && size > 0 && chash != hash(name)
      modifies this
      ensures Valid()
      ensures s.Found? <==> name in old(entries)
      ensures s.Missing? && r.Linked? ==>
        && entries == old(entries)[name := loc] && loc.ino == ino
        && FullBetween(blocks, dirLevel, hash(name), 0, loc.level, SlotsFor(|name|))
    {
      s := FindEntry(name);
      r, loc := NoSpace, Loc(0, 0, 0, 0);
      if s.Missing? {
        ghost var b, start := blocks, StartLevel(hash(name));
        r, loc := AddLink(name, ino);
        if r.Linked? {
          ReachableLevel(loc.level, dirLevel, hash(name), loc.blk);
          StaysFull(b, blocks, dirLevel, hash(name), 0, start, SlotsFor(|name|), loc.blk);
        }
      }
    }

    /**
     * f2fs_delete_entry on an entry that find has returned: the map loses
     * exactly its name, and a block that becomes empty is given back.
     */
    method DeleteEntry(b: nat, pos: nat)
      requires Valid() && BlockOk(Pic(), b) && pos in starts[b]
      modifies `blocks, `starts, `entries
      ensures Valid() && old(NameAt(blocks[b], pos)) in old(entries)
      ensures entries == old(entries) - {old(NameAt(blocks[b], pos))}
      ensures b in blocks <==> exists i :: 0 <= i < SLOTS && Removed(old(blocks)[b], pos).bits[i]
    {
      ClearEntry(b, pos);
      DropIfEmpty(b);
    }

    /** A block without entries is given back. */
    method DropIfEmpty(b: nat)
      requires Valid() && b in blocks && |blocks[b].bits| == SLOTS
      modifies `blocks, `starts
      ensures Valid()
      ensures b in blocks <==> exists i :: 0 <= i < SLOTS && old(blocks)[b].bits[i]
    {
      var first := FindNextSlot(blocks[b].bits, SLOTS, 0, true);
      if first == SLOTS {
        ghost var d := Pic();
        DropPicture(d, b);
        blocks := blocks - {b};
        starts := starts - {b};
        assert Pic() == d.(blocks := d.blocks - {b}, starts := d.starts - {b});
      }
    }

    method ClearEntry(b: nat, pos: nat)
      requires Valid() && BlockOk(Pic(), b) && pos in starts[b]
      modifies `blocks, `starts, `entries
      ensures Valid() && old(NameAt(blocks[b], pos)) in old(entries)
      ensures entries == old(entries) - {old(NameAt(blocks[b], pos))}
      ensures b in blocks && blocks[b] == Removed(old(blocks)[b], pos) && |blocks[b].bits| == SLOTS
    {
      ghost var d := Pic();
      assert Owned(d, b, pos);
      RemovePicture(d, b, pos);
      var bits := WriteBits(blocks[b].bits, pos, SlotsFor(blocks[b].de[pos].len), false);
      entries := entries - {NameAt(blocks[b], pos)};
      blocks := blocks[b := blocks[b].(bits := bits)];
      starts := starts[b := starts[b] - {pos}];
      assert Pic() == RemoveFrom(d, b, pos);
    }
  }

  /** A change of one block, in a bucket of another level, leaves full levels full. */
  lemma StaysFull(a: Blocks, b: Blocks, dirLevel: nat, h: nat, from: nat, to: nat, slots: nat, at: int)
    requires FullBetween(a, dirLevel, h, from, to, slots) && KeptBut(a, b, at)
    requires at >= 0 ==> at < MAX_BLOCKS && exists v :: to <= v < HALF && InBucket(v, dirLevel, h, at)
    ensures FullBetween(b, dirLevel, h, from, to, slots)
  {
    forall v, c: nat | from <= v < to && InBucket(v, dirLevel, h, c) ensures c in b && !HasRun(b[c].bits, slots) {
      assert Full(a, dirLevel, h, v, slots);
      if c == at {
        var w :| to <= w < HALF && InBucket(w, dirLevel, h, at);
        BucketInLevel(w, dirLevel, h);
        OneLevel(v, w, dirLevel, h, c);
      }
    }
  }

  lemma NotHere(d: Picture, name: Name, b: nat)
    requires AllListed(d) && BlockOk(d, b) && forall p :: p in d.starts[b] ==> !Matches(d.blocks[b], p, name, d.hash(name))
    ensures name in d.entries ==> d.entries[name].blk != b
  {
    if name in d.entries && d.entries[name].blk == b {
      assert Listed(d, name);
      assert Matches(d.blocks[b], d.entries[name].pos, name, d.hash(name));
    }
  }

  lemma Bounds(d: Picture, name: Name)
    requires AllListed(d)
    ensures name in d.entries ==> d.entries[name].level < d.depth && d.size > 0
  {
    if name in d.entries {
      assert Listed(d, name);
    }
  }

  // ---- the checker ----

  /** What the checker asks of an entry: the hash of its name, in that hash's bucket of some level. */
  ghost predicate Sound(hash: Name -> nat, dirLevel: nat, blk: Block, pgofs: nat, p: nat)
    requires Shape(blk) && p < SLOTS && End(blk, p) <= SLOTS
  {
    && blk.de[p].hash == hash(NameAt(blk, p))
    && exists level :: 0 <= level < MAX_DIR_HASH_DEPTH && InBucket(level, dirLevel, hash(NameAt(blk, p)), pgofs)
  }

  /** f2fs_check_hash_code and f2fs_check_dirent_position on one entry */
  method CheckDentry(hash: Name -> nat, dirLevel: nat, blk: Block, pgofs: nat, p: nat) returns (good: bool)
    requires Shape(blk) && p < SLOTS && End(blk, p) <= SLOTS && pgofs < MAX_BLOCKS
    ensures good <==> Sound(hash, dirLevel, blk, pgofs, p)
  {
    var code := hash(NameAt(blk, p));
    good := CheckPosition(dirLevel, code, pgofs);
    good := good && blk.de[p].hash == code;
  }

  /** The walk of __chk_dentries over a block, up to its first complaint: clean exactly when all entries are sound. */
  method CheckDentries(hash: Name -> nat, dirLevel: nat, blk: Block, ghost starts: set<nat>, pgofs: nat) returns (clean: bool)
    requires Layout(blk, starts) && pgofs < MAX_BLOCKS
    ensures clean <==> forall p :: p in starts ==> Sound(hash, dirLevel, blk, pgofs, p)
  {
    var i := 0;
    while i < SLOTS
      invariant i <= SLOTS && forall p :: p in starts ==> i <= p || End(blk, p) <= i
      invariant forall p :: p in starts && p < i ==> Sound(hash, dirLevel, blk, pgofs, p)
    {
      if !blk.bits[i] {
        NotStart(blk, starts, i);
        i := i + 1;
        continue;
      }
      AtStart(blk, starts, i);
      var good := CheckDentry(hash, dirLevel, blk, pgofs, i);
      if !good {
        return false;
      }
      i := End(blk, i);
    }
    clean := true;
  }

  /** Whatever was added and deleted, the checker finds nothing wrong with a block of the directory. */
  method CheckerAccepts(d: Dir, b: nat) returns (clean: bool)
    requires d.Valid() && b in d.blocks
    ensures clean
  {
    assert BlockOk(d.Pic(), b);
    clean := CheckDentries(d.hash, d.dirLevel, d.blocks[b], d.starts[b], b);
    forall p | p in d.starts[b] ensures Sound(d.hash, d.dirLevel, d.blocks[b], b, p) {
      assert Owned(d.Pic(), b, p);
      var name := NameAt(d.blocks[b], p);
      assert Listed(d.Pic(), name);
      assert InBucket(d.entries[name].level, d.dirLevel, d.hash(name), b);
    }
  }

  /** On the way to an entry's level no bucket is beyond the largest file. */
  lemma Reaches(d: Picture, name: Name, level: nat)
    requires AllListed(d) && name in d.entries && level <= d.entries[name].level
    ensures level < d.entries[name].level ==>
      BucketStart(level, d.dirLevel, d.hash(name)) + BucketBlocks(level) <= MAX_BLOCKS
    ensures InBucket(d.entries[name].level, d.dirLevel, d.hash(name), d.entries[name].blk)
    ensures d.entries[name].level < d.depth && d.entries[name].blk < MAX_BLOCKS
  {
    assert Listed(d, name);
    var loc, h := d.entries[name], d.hash(name);
    ReachableLevel(loc.level, d.dirLevel, h, loc.blk);
    if level < loc.level {
      BucketInLevel(level, d.dirLevel, h);
      LevelStartMono(level + 1, loc.level, d.dirLevel);
      BucketInLevel(loc.level, d.dirLevel, h);
    }
  }

  /** Every bucket of this hash below `level` lies within the largest file. */
  ghost predicate PassedTo(dirLevel: nat, h: nat, level: nat) {
    level > 0 ==> BucketStart(level - 1, dirLevel, h) < MAX_BLOCKS
  }

  lemma Passed(d: Picture, h: nat, level: nat)
    requires BlocksOk(d) && forall b: nat :: InBucket(level, d.dirLevel, h, b) ==> b in d.blocks
    ensures PassedTo(d.dirLevel, h, level + 1)
  {
    assert InBucket(level, d.dirLevel, h, BucketStart(level, d.dirLevel, h));
    assert BlockOk(d, BucketStart(level, d.dirLevel, h));
  }

  /** The file is at its end long before the depth is. */
  lemma TooDeep(dirLevel: nat, h: nat)
    ensures !PassedTo(dirLevel, h, MAX_DIR_HASH_DEPTH)
  {
    ReachesEnd(dirLevel);
    LevelStartMono(HALF, MAX_DIR_HASH_DEPTH - 1, dirLevel);
  }

  // ---- what the changes do to the picture ----

  lemma GrowPicture(d: Picture, size: nat)
    requires PictureOk(d) && d.size <= size
    ensures PictureOk(d.(size := size))
  {
    var r := d.(size := size);
    forall b | BlockOk(d, b) ensures BlockOk(r, b) { }
    forall n | n in r.entries ensures Listed(r, n) { assert Listed(d, n); }
    forall b, p | b in r.blocks && b in r.starts && p in r.starts[b] ensures Owned(r, b, p) { assert Owned(d, b, p); }
  }

  lemma FreshPicture(d: Picture, b: nat)
    requires PictureOk(d) && b !in d.blocks && b < d.size && b < MAX_BLOCKS
    ensures PictureOk(d.(blocks := d.blocks[b := Fresh()], starts := d.starts[b := {}]))
  {
    var r := d.(blocks := d.blocks[b := Fresh()], starts := d.starts[b := {}]);
    FreshLayout();
    forall c | c in r.blocks ensures BlockOk(r, c) { assert c != b ==> BlockOk(d, c); }
    forall n | n in r.entries ensures Listed(r, n) { assert Listed(d, n); }
    forall c, p | c in r.blocks && c in r.starts && p in r.starts[c] ensures Owned(r, c, p) { assert Owned(d, c, p); }
  }

  function AddTo(d: Picture, loc: Loc, name: Name, depth: nat): (r: Picture)
    requires loc.blk in d.blocks && loc.blk in d.starts && Shape(d.blocks[loc.blk])
    requires |name| > 0 && loc.pos + SlotsFor(|name|) <= SLOTS
  {
    d.(depth := depth,
       blocks := d.blocks[loc.blk := Added(d.blocks[loc.blk], loc.pos, name, d.hash(name), loc.ino)],
       starts := d.starts[loc.blk := d.starts[loc.blk] + {loc.pos}],
       entries := d.entries[name := loc])
  }

  lemma AddPicture(d: Picture, loc: Loc, name: Name, depth: nat)
    requires PictureOk(d) && |name| > 0 && name !in d.entries
    requires loc.blk in d.blocks && InBucket(loc.level, d.dirLevel, d.hash(name), loc.blk)
    requires FreeRun(d.blocks[loc.blk].bits, loc.pos, SlotsFor(|name|))
    requires loc.level < depth && d.depth <= depth <= MAX_DIR_HASH_DEPTH
    ensures BlockOk(d, loc.blk) && loc.pos + SlotsFor(|name|) <= SLOTS && PictureOk(AddTo(d, loc, name, depth))
  {
    assert BlockOk(d, loc.blk);
    AddedEntries(d.blocks[loc.blk], d.starts[loc.blk], loc.pos, name, d.hash(name), loc.ino);
    var r := AddTo(d, loc, name, depth);
    forall c | c in r.blocks ensures BlockOk(r, c) { assert BlockOk(d, c); }
    AddListed(d, loc, name, depth);
    AddOwned(d, loc, name, depth);
  }

  lemma AddListed(d: Picture, loc: Loc, name: Name, depth: nat)
    requires AllListed(d) && |name| > 0 && name !in d.entries && BlockOk(d, loc.blk)
    requires InBucket(loc.level, d.dirLevel, d.hash(name), loc.blk)
    requires FreeRun(d.blocks[loc.blk].bits, loc.pos, SlotsFor(|name|))
    requires loc.level < depth && d.depth <= depth
    requires loc.pos + SlotsFor(|name|) <= SLOTS && BlocksOk(AddTo(d, loc, name, depth))
    ensures AllListed(AddTo(d, loc, name, depth))
  {
    var r := AddTo(d, loc, name, depth);
    AddedEntries(d.blocks[loc.blk], d.starts[loc.blk], loc.pos, name, d.hash(name), loc.ino);
    assert BlockOk(r, loc.blk);
    forall n | n in r.entries ensures Listed(r, n) {
      if n != name {
        assert Listed(d, n);
        assert BlockOk(r, d.entries[n].blk);
      }
    }
  }

  lemma AddOwned(d: Picture, loc: Loc, name: Name, depth: nat)
    requires AllOwned(d) && |name| > 0 && name !in d.entries && BlockOk(d, loc.blk)
    requires FreeRun(d.blocks[loc.blk].bits, loc.pos, SlotsFor(|name|))
    requires loc.pos + SlotsFor(|name|) <= SLOTS && BlocksOk(AddTo(d, loc, name, depth))
    ensures AllOwned(AddTo(d, loc, name, depth))
  {
    var r := AddTo(d, loc, name, depth);
    AddedEntries(d.blocks[loc.blk], d.starts[loc.blk], loc.pos, name, d.hash(name), loc.ino);
    forall c, p | c in r.blocks && c in r.starts && p in r.starts[c] ensures Owned(r, c, p) {
      assert BlockOk(r, c);
      if c != loc.blk || p != loc.pos {
        assert Owned(d, c, p);
      }
    }
  }

  function RemoveFrom(d: Picture, b: nat, pos: nat): (r: Picture)
    requires b in d.blocks && b in d.starts && Shape(d.blocks[b]) && pos < SLOTS && End(d.blocks[b], pos) <= SLOTS
  {
    d.(blocks := d.blocks[b := Removed(d.blocks[b], pos)],
       starts := d.starts[b := d.starts[b] - {pos}],
       entries := d.entries - {NameAt(d.blocks[b], pos)})
  }

  /** Taking one entry out of a block leaves every other entry's claim intact. */
  lemma RemovePicture(d: Picture, b: nat, pos: nat)
    requires PictureOk(d) && BlockOk(d, b) && pos in d.starts[b]
    ensures pos < SLOTS && End(d.blocks[b], pos) <= SLOTS && PictureOk(RemoveFrom(d, b, pos))
  {
    RemovedEntries(d.blocks[b], d.starts[b], pos);
    var r := RemoveFrom(d, b, pos);
    forall c | c in r.blocks ensures BlockOk(r, c) { assert BlockOk(d, c); }
    assert Owned(d, b, pos);
    RemoveListed(d, b, pos);
    RemoveOwned(d, b, pos);
  }

  lemma RemoveListed(d: Picture, b: nat, pos: nat)
    requires AllListed(d) && BlockOk(d, b) && Owned(d, b, pos)
    requires BlocksOk(RemoveFrom(d, b, pos))
    ensures AllListed(RemoveFrom(d, b, pos))
  {
    RemovedEntries(d.blocks[b], d.starts[b], pos);
    var r := RemoveFrom(d, b, pos);
    forall n | n in r.entries ensures Listed(r, n) {
      assert Listed(d, n);
      assert BlockOk(r, d.entries[n].blk);
    }
  }

  lemma RemoveOwned(d: Picture, b: nat, pos: nat)
    requires AllOwned(d) && BlockOk(d, b) && Owned(d, b, pos)
    requires BlocksOk(RemoveFrom(d, b, pos))
    ensures AllOwned(RemoveFrom(d, b, pos))
  {
    RemovedEntries(d.blocks[b], d.starts[b], pos);
    var r := RemoveFrom(d, b, pos);
    forall c, p | c in r.blocks && c in r.starts && p in r.starts[c] ensures Owned(r, c, p) {
      assert Owned(d, c, p);
      assert BlockOk(r, c);
    }
  }

  lemma DropPicture(d: Picture, b: nat)
    requires PictureOk(d) && b in d.blocks && forall i :: 0 <= i < SLOTS && i < |d.blocks[b].bits| ==> !d.blocks[b].bits[i]
    ensures PictureOk(d.(blocks := d.blocks - {b}, starts := d.starts - {b}))
  {
    assert BlockOk(d, b);
    EmptyBlock(d.blocks[b], d.starts[b]);
    var r := d.(blocks := d.blocks - {b}, starts := d.starts - {b});
    forall c | c in r.blocks ensures BlockOk(r, c) { assert BlockOk(d, c); }
    forall n | n in r.entries ensures Listed(r, n) { assert Listed(d, n); }
    forall c, p | c in r.blocks && c in r.starts && p in r.starts[c] ensures Owned(r, c, p) { assert Owned(d, c, p); }
  }
}
