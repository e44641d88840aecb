/**
 * Where a hashed directory puts an entry: levels of buckets of blocks, as the
 * file system computes it and as fsck checks it.
 */
module DirLayout {
  import opened Common

  const MAX_DIR_HASH_DEPTH: nat := 63
  const HALF: nat := 31                          // MAX_DIR_HASH_DEPTH / 2
  const MAX_DIR_BUCKETS: nat := 0x4000_0000      // 1 << (HALF - 1)
  const U32: nat := 0x1_0000_0000

  /** Blocks a file can have: more is stopped by BUG() in get_node_path (DEF_ADDRS_PER_INODE of 923). */
  const MAX_BLOCKS: nat := 923 + 2 * 1018 + 2 * 1018 * 1018 + 1018 * 1018 * 1018

  lemma Pow2Thirty()
    ensures Pow2(30) == MAX_DIR_BUCKETS
  {
    assert Pow2(10) == 1024;
    assert Pow2(20) == 1024 * 1024;
  }

  /** dir_buckets */
  function Buckets(level: nat, dirLevel: nat): (r: nat)
    ensures r > 0
  {
    if level + dirLevel < HALF then Pow2(level + dirLevel) else MAX_DIR_BUCKETS
  }

  /** bucket_blocks */
  function BucketBlocks(level: nat): (r: nat) {
    if level < HALF then 2 else 4
  }

  /** The product in dir_block_index is taken in 32 bits. */
  function LevelBlocks(level: nat, dirLevel: nat): (r: nat) {
    Buckets(level, dirLevel) * BucketBlocks(level) % U32
  }

  /** First block of a level. */
  function LevelStart(level: nat, dirLevel: nat): (r: nat) {
    if level == 0 then 0 else LevelStart(level - 1, dirLevel) + LevelBlocks(level - 1, dirLevel)
  }

  /** First block of the bucket a hash falls into. */
  function BucketStart(level: nat, dirLevel: nat, hash: nat): (r: nat) {
    LevelStart(level, dirLevel) + hash % Buckets(level, dirLevel) * BucketBlocks(level) % U32
  }

  predicate InBucket(level: nat, dirLevel: nat, hash: nat, block: nat) {
    BucketStart(level, dirLevel, hash) <= block < BucketStart(level, dirLevel, hash) + BucketBlocks(level)
  }

  /** dir_block_index, with its summing loop */
  method DirBlockIndex(level: nat, dirLevel: nat, idx: nat) returns (bidx: nat)
    ensures bidx == LevelStart(level, dirLevel) + idx * BucketBlocks(level) % U32
  {
    bidx := 0;
    for i := 0 to level
      invariant bidx == LevelStart(i, dirLevel)
    {
      bidx := bidx + Buckets(i, dirLevel) * BucketBlocks(i) % U32;
    }
    bidx := bidx + idx * BucketBlocks(level) % U32;
  }

  // ---- levels within reach ----

  lemma BucketsRange(level: nat, dirLevel: nat)
    requires level < HALF
    ensures Pow2(level) <= Buckets(level, dirLevel) <= MAX_DIR_BUCKETS
  {
    Pow2Thirty();
    if level + dirLevel < HALF {
      Pow2Mono(level, level + dirLevel);
      Pow2Mono(level + dirLevel, 30);
    } else {
      Pow2Mono(level, 30);
    }
  }

  lemma NoWrap(n: nat)
    requires n <= MAX_DIR_BUCKETS
    ensures n * 2 % U32 == 2 * n
  {
  }

  lemma BucketsBound(level: nat, dirLevel: nat)
    requires level < HALF
    ensures Pow2(level) <= Buckets(level, dirLevel) <= MAX_DIR_BUCKETS
    ensures LevelBlocks(level, dirLevel) == 2 * Buckets(level, dirLevel)
  {
    BucketsRange(level, dirLevel);
    NoWrap(Buckets(level, dirLevel));
  }

  /** Below level 31 nothing wraps: a bucket lies inside its level. */
  lemma BucketInLevel(level: nat, dirLevel: nat, hash: nat)
    requires level < HALF
    ensures LevelStart(level, dirLevel) <= BucketStart(level, dirLevel, hash)
    ensures BucketStart(level, dirLevel, hash) + BucketBlocks(level) <= LevelStart(level + 1, dirLevel)
  {
    BucketsBound(level, dirLevel);
    var n := Buckets(level, dirLevel);
    assert hash % n < n;
  }

  /** The buckets of a level share it out: each of its blocks is in the bucket of exactly one remainder of the hash. */
  lemma BucketsTile(level: nat, dirLevel: nat, block: nat)
    requires level < HALF && LevelStart(level, dirLevel) <= block < LevelStart(level + 1, dirLevel)
    ensures var idx := (block - LevelStart(level, dirLevel)) / BucketBlocks(level);
      && idx < Buckets(level, dirLevel)
      && forall h: nat :: InBucket(level, dirLevel, h, block) <==> h % Buckets(level, dirLevel) == idx
  {
    BucketsBound(level, dirLevel);
    var n := Buckets(level, dirLevel);
    forall h: nat ensures InBucket(level, dirLevel, h, block) <==> h % n == (block - LevelStart(level, dirLevel)) / 2 {
      NoWrap(h % n);
    }
  }

  lemma LevelStartMono(a: nat, b: nat, dirLevel: nat)
    requires a <= b
    ensures LevelStart(a, dirLevel) <= LevelStart(b, dirLevel)
  {
    if a < b {
      LevelStartMono(a, b - 1, dirLevel);
    }
  }

  lemma LevelStartLow(n: nat, dirLevel: nat)
    requires n <= HALF
    ensures LevelStart(n, dirLevel) >= 2 * (Pow2(n) - 1)
  {
    if n > 0 {
      LevelStartLow(n - 1, dirLevel);
      BucketsBound(n - 1, dirLevel);
    }
  }

  /** A block a file can have is below level 31, whatever the directory's level offset. */
  lemma ReachableLevel(level: nat, dirLevel: nat, hash: nat, block: nat)
    requires InBucket(level, dirLevel, hash, block) && block < MAX_BLOCKS
    ensures level < HALF
  {
    if level >= HALF {
      ReachesEnd(dirLevel);
      LevelStartMono(HALF, level, dirLevel);
    }
  }

  // ---- the checker's view ----

  /** __get_current_level; the sum is kept in 32 bits */
  method GetCurrentLevel(dirLevel: nat, pgofs: nat) returns (level: nat)
    requires pgofs < MAX_BLOCKS
    ensures level < HALF && LevelStart(level, dirLevel) <= pgofs < LevelStart(level + 1, dirLevel)
  {
    var bidx := 0;
    level := 0;
    ReachesEnd(dirLevel);
    while level < MAX_DIR_HASH_DEPTH
      invariant level < HALF && bidx == LevelStart(level, dirLevel) <= pgofs
      decreases HALF - level
    {
      BucketsBound(level, dirLevel);
      bidx := (bidx + Buckets(level, dirLevel) * BucketBlocks(level) % U32) % U32;
      assert bidx == LevelStart(level + 1, dirLevel);
      if bidx > pgofs {
        break;
      }
      level := level + 1;
    }
  }

  lemma ReachesEnd(dirLevel: nat)
    ensures LevelStart(HALF, dirLevel) > MAX_BLOCKS
  {
    LevelStartLow(HALF, dirLevel);
    Pow2Thirty();
    assert Pow2(31) == 2 * Pow2(30);
  }

  /** f2fs_check_dirent_position: whether the checker accepts a name with this hash in this block */
  method CheckPosition(dirLevel: nat, hash: nat, pgofs: nat) returns (good: bool)
    requires pgofs < MAX_BLOCKS
    ensures good <==> exists level :: 0 <= level < MAX_DIR_HASH_DEPTH && InBucket(level, dirLevel, hash, pgofs)
  {
    var level := GetCurrentLevel(dirLevel, pgofs);
    var bidx := DirBlockIndex(level, dirLevel, hash % Buckets(level, dirLevel));
    good := bidx <= pgofs < bidx + BucketBlocks(level);
    assert good <==> InBucket(level, dirLevel, hash, pgofs);
    forall l | 0 <= l < MAX_DIR_HASH_DEPTH && InBucket(l, dirLevel, hash, pgofs) ensures l == level {
      ReachableLevel(l, dirLevel, hash, pgofs);
      OneLevel(l, level, dirLevel, hash, pgofs);
    }
  }

  /** A block belongs to one level only. */
  lemma OneLevel(l: nat, level: nat, dirLevel: nat, hash: nat, block: nat)
    requires l < HALF && level < HALF && InBucket(l, dirLevel, hash, block)
    requires LevelStart(level, dirLevel) <= block < LevelStart(level + 1, dirLevel)
    ensures l == level
  {
    BucketInLevel(l, dirLevel, hash);
    if l < level {
      LevelStartMono(l + 1, level, dirLevel);
    } else if l > level {
      LevelStartMono(level + 1, l, dirLevel);
    }
  }
}
