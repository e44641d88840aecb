/**
 * Block tables kept in two on-disk copies with a journal in front of them.
 *
 * The NAT and the SIT share this layout: every table block has two places on
 * disk, one bit per block says which of the two is current, and a small
 * journal inside a summary block overrides single entries.  A flush writes a
 * changed block to the place that is not current and turns its bit over, so
 * the previous checkpoint, which remembers the previous bits, stays readable.
 */
module Shadow {

  /** Two copies of every block; `bitmap` holds the blocks whose copy 1 is current. */
  datatype Table<T> = Table(copy0: seq<seq<T>>, copy1: seq<seq<T>>, bitmap: set<nat>)

  datatype Record<T> = Record(key: nat, val: T)

  type Journal<T> = seq<Record<T>>

  ghost predicate TableOk<T>(t: Table<T>, per: nat) {
    && per > 0
    && |t.copy0| == |t.copy1|
    && (forall b :: 0 <= b < |t.copy0| ==> |t.copy0[b]| == per)
    && (forall b :: 0 <= b < |t.copy1| ==> |t.copy1[b]| == per)
  }

  function Current<T>(t: Table<T>, b: nat): (r: seq<T>)
    requires b < |t.copy0| == |t.copy1|
  {
    if b in t.bitmap then t.copy1[b] else t.copy0[b]
  }

  /** The journal slot holding `key`, or -1. */
  function Find<T>(j: Journal<T>, key: nat): (r: int)
    ensures -1 <= r < |j|
    ensures r >= 0 ==> j[r].key == key
    ensures r == -1 <==> forall i :: 0 <= i < |j| ==> j[i].key != key
  {
    if j == [] then -1
    else if j[|j| - 1].key == key && Find(j[..|j| - 1], key) < 0 then |j| - 1
    else Find(j[..|j| - 1], key)
  }

  ghost predicate Distinct<T>(j: Journal<T>) {
    forall i, k :: 0 <= i < k < |j| ==> j[i].key != j[k].key
  }

  ghost predicate Has<T>(j: Journal<T>, key: nat) {
    Find(j, key) >= 0
  }

  /** Either everything in `d` fits in the journal, or the journal says nothing about it. */
  ghost predicate JournalRoom<T>(d: set<nat>, j: Journal<T>, capacity: nat, fits: bool) {
    if fits then |j| + |d| <= capacity else forall x :: x in d ==> !Has(j, x)
  }

  /** What journal and current blocks alone say about `key`. */
  function Lookup<T>(t: Table<T>, j: Journal<T>, per: nat, key: nat): (r: T)
    requires TableOk(t, per) && key / per < |t.copy0|
  {
    if Find(j, key) >= 0 then j[Find(j, key)].val
    else Current(t, key / per)[key % per]
  }

  /** Overwrite the slot of `key`, or take a new one at the end. */
  function Put<T>(j: Journal<T>, key: nat, v: T): (r: Journal<T>) {
    var i := Find(j, key);
    if i >= 0 then j[i := Record(key, v)] else j + [Record(key, v)]
  }

  /** Turn block `b` over: the copy not in use receives `blk` and becomes current. */
  function Flip<T>(t: Table<T>, b: nat, blk: seq<T>): (r: Table<T>)
    requires b < |t.copy0| == |t.copy1|
  {
    if b in t.bitmap then Table(t.copy0[b := blk], t.copy1, t.bitmap - {b})
    else Table(t.copy0, t.copy1[b := blk], t.bitmap + {b})
  }

  /** Write one entry of the current copy of its block. */
  function Store<T>(t: Table<T>, per: nat, key: nat, v: T): (r: Table<T>)
    requires TableOk(t, per) && key / per < |t.copy0|
  {
    var b := key / per;
    var blk := Current(t, b)[key % per := v];
    if b in t.bitmap then t.(copy1 := t.copy1[b := blk])
    else t.(copy0 := t.copy0[b := blk])
  }

  /**
   * `u` comes from `t` by turning blocks over at most once each: a block whose
   * bit is the same is untouched, and a block whose bit differs still holds,
   * in its other copy, what was current in `t`.
   */
  ghost predicate Shadowed<T>(t: Table<T>, u: Table<T>) {
    && |t.copy0| == |t.copy1| == |u.copy0| == |u.copy1|
    && forall b :: 0 <= b < |t.copy0| ==> BlockShadowed(t, u, b)
  }

  ghost predicate BlockShadowed<T>(t: Table<T>, u: Table<T>, b: nat)
    requires b < |t.copy0| == |t.copy1| == |u.copy0| == |u.copy1|
  {
    && ((b in t.bitmap <==> b in u.bitmap) ==> u.copy0[b] == t.copy0[b] && u.copy1[b] == t.copy1[b])
    && (b in t.bitmap ==> u.copy1[b] == t.copy1[b])
    && (b !in t.bitmap ==> u.copy0[b] == t.copy0[b])
  }

  // ---- journal ----

  lemma FindUnique<T>(j: Journal<T>, i: nat)
    requires Distinct(j) && i < |j|
    ensures Find(j, j[i].key) == i
  {
    assert j[i].key == j[i].key;
  }

  /** The linear search of lookup_journal_in_cursum. */
  method Search<T>(j: Journal<T>, key: nat) returns (i: int)
    requires Distinct(j)
    ensures i == Find(j, key)
  {
    i := 0;
    while i < |j|
      invariant 0 <= i <= |j| && forall k :: 0 <= k < i ==> j[k].key != key
    {
      if j[i].key == key {
        FindUnique(j, i);
        return;
      }
      i := i + 1;
    }
    i := -1;
  }

  lemma PutFind<T>(j: Journal<T>, key: nat, v: T, k: nat)
    requires Distinct(j)
    ensures Distinct(Put(j, key, v))
    ensures |Put(j, key, v)| == |j| + if Has(j, key) then 0 else 1
    ensures Has(Put(j, key, v), k) <==> k == key || Has(j, k)
    ensures Has(Put(j, key, v), k) ==>
      Put(j, key, v)[Find(Put(j, key, v), k)].val == if k == key then v else j[Find(j, k)].val
  {
    var p := Put(j, key, v);
    var at := if Find(j, key) >= 0 then Find(j, key) else |j|;
    assert p[at] == Record(key, v);
    assert Distinct(p) by {
      forall a, b | 0 <= a < b < |p| ensures p[a].key != p[b].key {
        if Find(j, key) >= 0 {
          assert p[a].key == j[a].key && p[b].key == j[b].key;
        }
      }
    }
    FindUnique(p, at);
    if k != key && Find(j, k) >= 0 {
      var i := Find(j, k);
      assert p[i] == j[i];
      FindUnique(p, i);
    } else if k != key {
      forall i | 0 <= i < |p| ensures p[i].key != k {
        if i != at { assert p[i] == j[i]; }
      }
    }
  }

  /** A journal write changes what is read back for exactly its key. */
  lemma PutLookup<T>(t: Table<T>, j: Journal<T>, per: nat, key: nat, v: T, k: nat)
    requires TableOk(t, per) && k / per < |t.copy0| && Distinct(j)
    ensures Distinct(Put(j, key, v))
    ensures Lookup(t, Put(j, key, v), per, k) == if k == key then v else Lookup(t, j, per, k)
  {
    PutFind(j, key, v, k);
  }

  // ---- blocks ----

  /** Copying the current block over and turning it changes nothing that is read. */
  lemma FlipLookup<T>(t: Table<T>, j: Journal<T>, per: nat, b: nat, k: nat)
    requires TableOk(t, per) && b < |t.copy0| && k / per < |t.copy0|
    ensures TableOk(Flip(t, b, Current(t, b)), per)
    ensures Lookup(Flip(t, b, Current(t, b)), j, per, k) == Lookup(t, j, per, k)
  {
    var u := Flip(t, b, Current(t, b));
    assert Current(u, k / per) == Current(t, k / per);
  }

  lemma StoreKeeps<T>(t: Table<T>, per: nat, key: nat, v: T)
    requires TableOk(t, per) && key / per < |t.copy0|
    ensures TableOk(Store(t, per, key, v), per)
    ensures Current(Store(t, per, key, v), key / per) == Current(t, key / per)[key % per := v]
    ensures forall b: nat :: b < |t.copy0| && b != key / per ==> Current(Store(t, per, key, v), b) == Current(t, b)
  {
  }

  /** A block write is read back for exactly its key, unless the journal hides it. */
  lemma StoreLookup<T>(t: Table<T>, j: Journal<T>, per: nat, key: nat, v: T, k: nat)
    requires TableOk(t, per) && key / per < |t.copy0| && k / per < |t.copy0|
    ensures TableOk(Store(t, per, key, v), per)
    ensures Lookup(Store(t, per, key, v), j, per, k)
         == if k == key && !Has(j, key) then v else Lookup(t, j, per, k)
  {
    StoreKeeps(t, per, key, v);
    if k / per == key / per && k != key {
      SameSlot(k, key, per);
    }
  }

  lemma SameSlot(a: nat, b: nat, per: nat)
    requires per > 0 && a / per == b / per && a != b
    ensures a % per != b % per
  {
    assert a == a / per * per + a % per;
    assert b == b / per * per + b % per;
  }

  /** Keys are numbered densely: a key below `blocks * per` lies in a block of the table. */
  lemma KeyBlock(key: nat, per: nat, blocks: nat)
    requires per > 0
    ensures key < blocks * per <==> key / per < blocks
  {
    var q := key / per;
    assert key == q * per + key % per;
    if q < blocks {
      MulMono(q + 1, blocks, per);
      assert (q + 1) * per == q * per + per;
    } else {
      MulMono(blocks, q, per);
    }
  }

  lemma MulMono(a: nat, b: nat, d: nat)
    requires a <= b
    ensures a * d <= b * d
  {
  }

  // ---- what a flush may do to the table ----

  lemma ShadowedRefl<T>(t: Table<T>)
    requires |t.copy0| == |t.copy1|
    ensures Shadowed(t, t)
  {
  }

  /** Turning over a block that has not been turned yet keeps the relation. */
  lemma FlipShadowed<T>(t: Table<T>, u: Table<T>, b: nat, blk: seq<T>)
    requires Shadowed(t, u) && b < |t.copy0|
    requires b in t.bitmap <==> b in u.bitmap
    ensures Shadowed(t, Flip(u, b, blk))
    ensures b in t.bitmap <==> b !in Flip(u, b, blk).bitmap
  {
    assert BlockShadowed(t, u, b);
    var v := Flip(u, b, blk);
    forall c | 0 <= c < |t.copy0| ensures BlockShadowed(t, v, c) {
      assert BlockShadowed(t, u, c);
    }
  }

  /** Writing entries of a block that has been turned over keeps the relation. */
  lemma StoreShadowed<T>(t: Table<T>, u: Table<T>, per: nat, key: nat, v: T)
    requires Shadowed(t, u) && TableOk(u, per) && key / per < |t.copy0|
    requires key / per in t.bitmap <==> key / per !in u.bitmap
    ensures Shadowed(t, Store(u, per, key, v))
  {
    var w := Store(u, per, key, v);
    forall c | 0 <= c < |t.copy0| ensures BlockShadowed(t, w, c) {
      assert BlockShadowed(t, u, c);
    }
  }
}
