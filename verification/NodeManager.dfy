/**
 * The node manager: the NAT cache with its per-core dirty sets, and the flush
 * that packs the dirty sets of all cores by NAT block.
 */
module NodeManager {
  import opened Common
  import opened Shadow
  import opened Nids
  import opened Nat
  import NatRuns

  /** The dirty entries of one core that belong to one NAT block. */
  datatype NatSet = NatSet(ents: seq<nat>, cnt: int)

  /** The dirty sets of all cores for one NAT block, to be flushed together. */
  datatype Pack = Pack(id: nat, ents: seq<nat>, cnt: int)

  function TreeIdx(n: nat, trees: nat): (r: nat)
    requires trees > 0
  {
    n % trees
  }

  type Sets = seq<map<nat, NatSet>>

  // ---- the dirty index ----

  ghost function Dirty(c: map<nat, Cached>): (r: set<nat>) {
    set n | n in c && c[n].dirty
  }

  ghost function DirtyIn(c: map<nat, Cached>, trees: nat, t: nat): (r: set<nat>)
    requires trees > 0
  {
    set n | n in c && c[n].dirty && TreeIdx(n, trees) == t
  }

  ghost predicate SetOk(d: set<nat>, e: NatSet, trees: nat, t: nat, b: nat)
    requires trees > 0
  {
    && e.cnt == |e.ents| && DistinctNids(e.ents)
    && forall n :: n in e.ents ==> n in d && TreeIdx(n, trees) == t && BlockOf(n) == b
  }

  /** A nid is filed in the dirty set of its core and its NAT block. */
  ghost predicate Filed(sets: Sets, trees: nat, n: nat)
    requires trees > 0
  {
    && TreeIdx(n, trees) < |sets|
    && BlockOf(n) in sets[TreeIdx(n, trees)]
    && n in sets[TreeIdx(n, trees)][BlockOf(n)].ents
  }

  /** The dirty sets hold exactly the dirty nids `d`. */
  ghost predicate SetsOk(d: set<nat>, sets: Sets, trees: nat) {
    && trees > 0 && |sets| == trees
    && (forall t, b :: 0 <= t < trees && b in sets[t] ==> SetOk(d, sets[t][b], trees, t, b))
    && (forall n :: n in d ==> Filed(sets, trees, n))
  }

  /** No dirty set is empty, except while the blocks `draining` are being flushed. */
  ghost predicate NoEmptySet(sets: Sets, draining: set<nat>) {
    forall t :: 0 <= t < |sets| ==> NoEmpty(sets[t], draining)
  }

  ghost predicate NoEmpty(m: map<nat, NatSet>, draining: set<nat>) {
    forall b :: b in m && b !in draining ==> |m[b].ents| > 0
  }

  ghost predicate CountOk(c: map<nat, Cached>, cnt: seq<int>, trees: nat) {
    && trees > 0 && |cnt| == trees
    && forall t :: 0 <= t < trees ==> cnt[t] == |DirtyIn(c, trees, t)|
  }

  function AddTo(sets: Sets, trees: nat, n: nat): (r: Sets)
    requires trees > 0 && |sets| == trees
  {
    var t: nat := TreeIdx(n, trees);
    var b: nat := BlockOf(n);
    var head := if b in sets[t] then sets[t][b] else NatSet([], 0);
    var m: map<nat, NatSet> := sets[t][b := NatSet(head.ents + [n], head.cnt + 1)];
    sets[t := m]
  }

  function DropFrom(sets: Sets, trees: nat, n: nat): (r: Sets)
    requires trees > 0 && |sets| == trees && BlockOf(n) in sets[TreeIdx(n, trees)]
  {
    var t: nat := TreeIdx(n, trees);
    var b: nat := BlockOf(n);
    var head := sets[t][b];
    var m: map<nat, NatSet> := sets[t][b := NatSet(Without(head.ents, n), head.cnt - 1)];
    sets[t := m]
  }

  lemma WithoutLength(s: seq<nat>, n: nat)
    requires n in s
    ensures |Without(s, n)| == |s| - 1
  {
  }

  lemma AddToOk(d: set<nat>, sets: Sets, trees: nat, n: nat)
    requires SetsOk(d, sets, trees) && n !in d
    ensures SetsOk(d + {n}, AddTo(sets, trees, n), trees)
  {
    var r := AddTo(sets, trees, n);
    forall t, b | 0 <= t < trees && b in r[t] ensures SetOk(d + {n}, r[t][b], trees, t, b) {
      if b in sets[t] { assert SetOk(d, sets[t][b], trees, t, b); }
    }
    forall m | m in d + {n} ensures Filed(r, trees, m) {
      if m != n { assert Filed(sets, trees, m); }
    }
  }

  lemma DropFromOk(d: set<nat>, sets: Sets, trees: nat, n: nat)
    requires SetsOk(d, sets, trees) && n in d
    ensures Filed(sets, trees, n)
    ensures SetsOk(d - {n}, DropFrom(sets, trees, n), trees)
  {
    var r := DropFrom(sets, trees, n);
    var t0: nat := TreeIdx(n, trees);
    var b0: nat := BlockOf(n);
    WithoutLength(sets[t0][b0].ents, n);
    forall t, b | 0 <= t < trees && b in r[t] ensures SetOk(d - {n}, r[t][b], trees, t, b) {
      assert SetOk(d, sets[t][b], trees, t, b);
    }
    forall m | m in d - {n} ensures Filed(r, trees, m) {
      assert Filed(sets, trees, m);
    }
  }

  /** One entry changes its dirty flag: the count of its core follows. */
  lemma CountMove(c: map<nat, Cached>, r: map<nat, Cached>, cnt: seq<int>, trees: nat, n: nat, d: int)
    requires CountOk(c, cnt, trees)
    requires forall m :: m != n ==> (m in Dirty(c) <==> m in Dirty(r))
    requires d == (if n in Dirty(r) then 1 else 0) - (if n in Dirty(c) then 1 else 0)
    ensures CountOk(r, cnt[TreeIdx(n, trees) := cnt[TreeIdx(n, trees)] + d], trees)
  {
    var u := cnt[TreeIdx(n, trees) := cnt[TreeIdx(n, trees)] + d];
    forall t | 0 <= t < trees ensures u[t] == |DirtyIn(r, trees, t)| {
      forall m | m != n ensures m in DirtyIn(c, trees, t) <==> m in DirtyIn(r, trees, t) {
        assert m in Dirty(c) <==> m in Dirty(r);
      }
      OneApart(DirtyIn(c, trees, t), DirtyIn(r, trees, t), n);
      assert n in DirtyIn(r, trees, t) <==> n in Dirty(r) && t == TreeIdx(n, trees);
      assert n in DirtyIn(c, trees, t) <==> n in Dirty(c) && t == TreeIdx(n, trees);
    }
  }

  ghost function DirtyBelow(c: map<nat, Cached>, trees: nat, t: nat): (r: set<nat>)
    requires trees > 0
  {
    set n | n in c && c[n].dirty && TreeIdx(n, trees) < t
  }

  lemma DirtyBelowStep(c: map<nat, Cached>, trees: nat, i: nat)
    requires trees > 0
    ensures |DirtyBelow(c, trees, i + 1)| == |DirtyBelow(c, trees, i)| + |DirtyIn(c, trees, i)|
  {
    assert DirtyBelow(c, trees, i + 1) == DirtyBelow(c, trees, i) + DirtyIn(c, trees, i);
    assert DirtyBelow(c, trees, i) !! DirtyIn(c, trees, i);
  }

  /** The per-core dirty counts add up to the number of dirty entries. */
  method TotalDirty(ghost c: map<nat, Cached>, cnt: seq<int>, trees: nat) returns (total: int)
    requires CountOk(c, cnt, trees)
    ensures total == |Dirty(c)|
  {
    total := 0;
    for i := 0 to trees
      invariant total == |DirtyBelow(c, trees, i)|
    {
      DirtyBelowStep(c, trees, i);
      total := total + cnt[i];
    }
    assert DirtyBelow(c, trees, trees) == Dirty(c);
  }

  // ---- packs ----

  ghost predicate PacksOk(packs: seq<Pack>) {
    && (forall i, k :: 0 <= i < k < |packs| ==> packs[i].id != packs[k].id)
    && forall i :: 0 <= i < |packs| ==> packs[i].cnt == |packs[i].ents| > 0
  }

  /** The entries packed for NAT block `b`. */
  ghost function EntsOf(packs: seq<Pack>, b: nat): (r: seq<nat>)
    ensures (forall i :: 0 <= i < |packs| ==> packs[i].id != b) ==> r == []
    ensures PacksOk(packs) ==> forall i :: 0 <= i < |packs| && packs[i].id == b ==> r == packs[i].ents
  {
    if i :| 0 <= i < |packs| && packs[i].id == b then packs[i].ents else []
  }

  /** `r` is `packs` with `ents` added to block `id`, in some order of packs. */
  ghost predicate Packed(packs: seq<Pack>, r: seq<Pack>, id: nat, ents: seq<nat>) {
    && PacksOk(r)
    && forall b :: EntsOf(r, b) == EntsOf(packs, b) + if b == id then ents else []
  }

  lemma InsertPacked(packs: seq<Pack>, k: nat, p: Pack)
    requires PacksOk(packs) && k <= |packs| && p.cnt == |p.ents| > 0
    requires forall i :: 0 <= i < |packs| ==> packs[i].id != p.id
    ensures Packed(packs, packs[..k] + [p] + packs[k..], p.id, p.ents)
  {
    var r := packs[..k] + [p] + packs[k..];
    InsertOk(packs, k, p, r);
    forall b: nat ensures EntsOf(r, b) == EntsOf(packs, b) + if b == p.id then p.ents else [] {
      if b == p.id {
        assert r[k].id == b;
      } else if i :| 0 <= i < |packs| && packs[i].id == b {
        assert r[if i < k then i else i + 1] == packs[i];
      } else {
        forall i | 0 <= i < |r| ensures r[i].id != b {
          assert i == k || r[i] == packs[if i < k then i else i - 1];
        }
      }
    }
  }

  lemma InsertOk(packs: seq<Pack>, k: nat, p: Pack, r: seq<Pack>)
    requires PacksOk(packs) && k <= |packs| && p.cnt == |p.ents| > 0
    requires forall i :: 0 <= i < |packs| ==> packs[i].id != p.id
    requires r == packs[..k] + [p] + packs[k..]
    ensures PacksOk(r)
  {
    forall i | 0 <= i < |r| ensures r[i] == if i < k then packs[i] else if i == k then p else packs[i - 1] { }
  }

  lemma ExtendPacked(packs: seq<Pack>, k: nat, p: Pack, ents: seq<nat>)
    requires PacksOk(packs) && k < |packs|
    requires p.id == packs[k].id && p.ents == packs[k].ents + ents && p.cnt == packs[k].cnt + |ents|
    ensures Packed(packs, packs[k := p], p.id, ents)
  {
    var r := packs[k := p];
    assert PacksOk(r);
    forall b: nat ensures EntsOf(r, b) == EntsOf(packs, b) + if b == p.id then ents else [] {
      if i :| 0 <= i < |packs| && packs[i].id == b {
        assert r[i].id == b;
      } else {
        forall i | 0 <= i < |r| ensures r[i].id != b {
          assert r[i].id == packs[i].id;
        }
      }
    }
  }

  /** Pack `k` taken out and `p` put last. */
  function MovedLast(packs: seq<Pack>, k: nat, p: Pack): (r: seq<Pack>)
    requires k < |packs|
    ensures |r| == |packs|
    ensures forall i :: 0 <= i < |r| ==> r[i] == if i < k then packs[i] else if i == |packs| - 1 then p else packs[i + 1]
  {
    packs[..k] + packs[k + 1..] + [p]
  }

  lemma MovedLastOk(packs: seq<Pack>, k: nat, p: Pack)
    requires PacksOk(packs) && k < |packs| && p.id == packs[k].id && p.cnt == |p.ents| > 0
    ensures PacksOk(MovedLast(packs, k, p))
  {
    var r := MovedLast(packs, k, p);
    forall i, j | 0 <= i < j < |r| ensures r[i].id != r[j].id {
      var a := if i < k then i else i + 1;
      var b := if j < k then j else if j == |packs| - 1 then k else j + 1;
      assert r[i].id == packs[a].id && r[j].id == packs[b].id && a != b;
    }
  }

  lemma MovePacked(packs: seq<Pack>, k: nat, p: Pack, ents: seq<nat>)
    requires PacksOk(packs) && k < |packs|
    requires p.id == packs[k].id && p.ents == packs[k].ents + ents && p.cnt == packs[k].cnt + |ents|
    ensures Packed(packs, MovedLast(packs, k, p), p.id, ents)
  {
    MovedLastOk(packs, k, p);
    var r := MovedLast(packs, k, p);
    forall b: nat ensures EntsOf(r, b) == EntsOf(packs, b) + if b == p.id then ents else [] {
      if i :| 0 <= i < |packs| && packs[i].id == b {
        var at := if i < k then i else if i == k then |packs| - 1 else i - 1;
        assert r[at].id == b;
      } else {
        forall i | 0 <= i < |r| ensures r[i].id != b {
          assert r[i].id == packs[if i < k then i else if i == |packs| - 1 then k else i + 1].id;
        }
      }
    }
  }

  method FindPack(packs: seq<Pack>, id: nat) returns (k: nat)
    ensures k <= |packs|
    ensures k < |packs| ==> packs[k].id == id
    ensures forall i :: 0 <= i < k ==> packs[i].id != id
  {
    k := 0;
    while k < |packs| && packs[k].id != id
      invariant k <= |packs| && forall i :: 0 <= i < k ==> packs[i].id != id
    {
      k := k + 1;
    }
  }

  /** Where a new pack goes: before the first pack at least as large, or last if it is full. */
  method PackPosition(packs: seq<Pack>, cnt: int, max: nat) returns (at: nat)
    ensures at <= |packs|
    ensures cnt >= max ==> at == |packs|
    ensures cnt < max ==> (forall i :: 0 <= i < at ==> packs[i].cnt < cnt) && (at < |packs| ==> packs[at].cnt >= cnt)
  {
    if cnt >= max {
      return |packs|;
    }
    at := 0;
    while at < |packs| && packs[at].cnt < cnt
      invariant at <= |packs| && forall i :: 0 <= i < at ==> packs[i].cnt < cnt
    {
      at := at + 1;
    }
  }

  method AddPack(packs: seq<Pack>, p: Pack, max: nat) returns (r: seq<Pack>)
    requires PacksOk(packs) && p.cnt == |p.ents| > 0
    requires forall i :: 0 <= i < |packs| ==> packs[i].id != p.id
    ensures Packed(packs, r, p.id, p.ents)
  {
    var at := PackPosition(packs, p.cnt, max);
    r := packs[..at] + [p] + packs[at..];
    InsertPacked(packs, at, p);
  }

  method MergePack(packs: seq<Pack>, k: nat, e: NatSet, max: nat) returns (r: seq<Pack>)
    requires PacksOk(packs) && k < |packs| && e.cnt == |e.ents| > 0
    ensures Packed(packs, r, packs[k].id, e.ents)
  {
    var p := Pack(packs[k].id, packs[k].ents + e.ents, packs[k].cnt + e.cnt);
    if p.cnt >= max {
      r := MovedLast(packs, k, p);
      MovePacked(packs, k, p, e.ents);
    } else {
      r := packs[k := p];
      ExtendPacked(packs, k, p, e.ents);
    }
  }

  /**
   * Merge one dirty set into the pack list: into the pack of its NAT block if
   * there is one, else as a new pack kept before larger ones.
   */
  method AdjustPacks(packs: seq<Pack>, id: nat, e: NatSet, max: nat) returns (r: seq<Pack>)
    requires PacksOk(packs) && e.cnt == |e.ents| > 0
    ensures Packed(packs, r, id, e.ents)
  {
    var k := FindPack(packs, id);
    if k == |packs| {
      r := AddPack(packs, Pack(id, e.ents, e.cnt), max);
    } else {
      r := MergePack(packs, k, e, max);
    }
  }

  /** The walk over cores and blocks has passed the dirty set of `n`. */
  ghost predicate Before(n: nat, trees: nat, t: nat, b: nat)
    requires trees > 0
  {
    TreeIdx(n, trees) < t || (TreeIdx(n, trees) == t && BlockOf(n) < b)
  }

  ghost predicate EntsOk(d: set<nat>, ents: seq<nat>, c: nat, trees: nat, t: nat, b: nat)
    requires trees > 0
  {
    && DistinctNids(ents)
    && forall n :: n in ents ==> n in d && BlockOf(n) == c && Before(n, trees, t, b)
  }

  /** The packs hold exactly the dirty nids whose sets the walk has passed. */
  ghost predicate Collected(d: set<nat>, packs: seq<Pack>, trees: nat, t: nat, b: nat)
    requires trees > 0
  {
    && PacksOk(packs)
    && (forall c: nat :: EntsOk(d, EntsOf(packs, c), c, trees, t, b))
    && (forall n :: n in d && Before(n, trees, t, b) ==> n in EntsOf(packs, BlockOf(n)))
  }

  lemma CollectSet(d: set<nat>, sets: Sets, packs: seq<Pack>, r: seq<Pack>, trees: nat, t: nat, b: nat)
    requires SetsOk(d, sets, trees) && t < trees && b in sets[t]
    requires Collected(d, packs, trees, t, b) && Packed(packs, r, b, sets[t][b].ents)
    ensures Collected(d, r, trees, t, b + 1)
  {
    var e := sets[t][b].ents;
    assert SetOk(d, sets[t][b], trees, t, b);
    forall c: nat ensures EntsOk(d, EntsOf(r, c), c, trees, t, b + 1) {
      assert EntsOk(d, EntsOf(packs, c), c, trees, t, b);
      if c == b {
        assert EntsOf(r, c) == EntsOf(packs, c) + e;
        Disjoint(d, EntsOf(packs, c), e, trees, t, b);
      } else {
        assert EntsOf(r, c) == EntsOf(packs, c);
      }
    }
    forall n | n in d && Before(n, trees, t, b + 1) ensures n in EntsOf(r, BlockOf(n)) {
      assert Filed(sets, trees, n);
      assert EntsOf(packs, BlockOf(n)) <= EntsOf(r, BlockOf(n));
    }
  }

  lemma Disjoint(d: set<nat>, xs: seq<nat>, ys: seq<nat>, trees: nat, t: nat, b: nat)
    requires trees > 0 && EntsOk(d, xs, b, trees, t, b) && DistinctNids(ys)
    requires forall n :: n in ys ==> TreeIdx(n, trees) == t && BlockOf(n) == b
    ensures DistinctNids(xs + ys)
  {
    forall i, k | 0 <= i < |xs| && 0 <= k < |ys| ensures xs[i] != ys[k] {
      assert xs[i] in xs && ys[k] in ys;
    }
  }

  lemma CollectNone(d: set<nat>, sets: Sets, packs: seq<Pack>, trees: nat, t: nat, b: nat)
    requires SetsOk(d, sets, trees) && t < trees && b !in sets[t]
    requires Collected(d, packs, trees, t, b)
    ensures Collected(d, packs, trees, t, b + 1)
  {
    forall c: nat ensures EntsOk(d, EntsOf(packs, c), c, trees, t, b + 1) {
      assert EntsOk(d, EntsOf(packs, c), c, trees, t, b);
    }
    forall n | n in d && Before(n, trees, t, b + 1) ensures n in EntsOf(packs, BlockOf(n)) {
      assert Filed(sets, trees, n);
    }
  }

  lemma NextTree(d: set<nat>, packs: seq<Pack>, trees: nat, t: nat, blocks: nat)
    requires trees > 0 && Collected(d, packs, trees, t, blocks)
    requires forall n :: n in d ==> BlockOf(n) < blocks
    ensures Collected(d, packs, trees, t + 1, 0)
  {
    forall c: nat ensures EntsOk(d, EntsOf(packs, c), c, trees, t + 1, 0) {
      assert EntsOk(d, EntsOf(packs, c), c, trees, t, blocks);
    }
    forall n | n in d && Before(n, trees, t + 1, 0) ensures n in EntsOf(packs, BlockOf(n)) {
      assert Before(n, trees, t, blocks);
    }
  }

  /**
   * Walk the dirty sets of every core in block order and pack them by block:
   * each block gets one pack, and the packs hold exactly the dirty nids.
   */
  method BuildPacks(ghost d: set<nat>, sets: Sets, trees: nat, blocks: nat) returns (packs: seq<Pack>)
    requires SetsOk(d, sets, trees) && NoEmptySet(sets, {})
    requires forall n :: n in d ==> BlockOf(n) < blocks
    ensures PacksOk(packs)
    ensures forall i :: 0 <= i < |packs| ==> DistinctNids(packs[i].ents)
    ensures forall i, n :: 0 <= i < |packs| && n in packs[i].ents ==> n in d && BlockOf(n) == packs[i].id
    ensures forall n :: n in d ==> n in EntsOf(packs, BlockOf(n))
  {
    packs := [];
    for t := 0 to trees
      invariant Collected(d, packs, trees, t, 0)
    {
      for b := 0 to blocks
        invariant Collected(d, packs, trees, t, b)
      {
        if b in sets[t] {
          assert SetOk(d, sets[t][b], trees, t, b) && NoEmpty(sets[t], {});
          var r := AdjustPacks(packs, b, sets[t][b], NAT_JOURNAL_ENTRIES);
          CollectSet(d, sets, packs, r, trees, t, b);
          packs := r;
        } else {
          CollectNone(d, sets, packs, trees, t, b);
        }
      }
      NextTree(d, packs, trees, t, blocks);
    }
    forall i | 0 <= i < |packs| ensures EntsOk(d, packs[i].ents, packs[i].id, trees, trees, 0) {
      assert EntsOk(d, EntsOf(packs, packs[i].id), packs[i].id, trees, trees, 0);
    }
    forall n | n in d ensures n in EntsOf(packs, BlockOf(n)) {
      assert Before(n, trees, trees, 0);
    }
  }

  // ---- the manager ----

  /** One entry turned dirty or clean. */
  lemma DirtyMove(c: map<nat, Cached>, r: map<nat, Cached>, n: nat)
    requires n in c && n in r && r == c[n := r[n]]
    ensures Dirty(r) == if r[n].dirty then Dirty(c) + {n} else Dirty(c) - {n}
  {
  }

  class Manager {
    const trees: nat
    var cache: map<nat, Cached>
    var sets: Sets
    var dirtyCnt: seq<int>
    var journal: Journal<NatVal>
    var table: Table<NatVal>
    var free: FreeNids
    var nidLimit: nat              // offers for which available_free_memory has room
    ghost var draining: set<nat>

    ghost function Abs(): (r: State)
      reads this
    {
      State(cache, journal, table, free)
    }

    ghost predicate Indexed()
      reads this
    {
      && SetsOk(Dirty(cache), sets, trees) && NoEmptySet(sets, draining)
      && CountOk(cache, dirtyCnt, trees)
    }

    ghost predicate Valid()
      reads this
    {
      Inv(Abs()) && Indexed() && draining == {}
    }

    /** init_node_manager: empty cache, empty free lists, nid ranges sized to cover every nid. */
    constructor (cores: nat, lists: nat, t: Table<NatVal>, j: Journal<NatVal>, limit: nat)
      requires cores > 0 && lists > 0
      requires TableOk(t, NAT_ENTRY_PER_BLOCK) && JournalOk(t, j) && NoPlaceholder(t, j)
      ensures Valid() && Abs() == State(map[], j, t, free) && free.root == map[] && |free.lists| == lists
    {
      trees := cores;
      cache := map[];
      sets := seq(cores, i => map[]);
      dirtyCnt := seq(cores, i => 0);
      journal, table, nidLimit := j, t, limit;
      var maxNid := NAT_ENTRY_PER_BLOCK * |t.copy0|;
      free := FreeNids((maxNid + 1) / lists + 1, map[], seq(lists, i => []), seq(lists, i => 0));
      draining := {};
      new;
      assert Dirty(cache) == {};
      forall c | 0 <= c < trees ensures DirtyIn(cache, trees, c) == {} { }
      forall l | 0 <= l < lists ensures OnOffer(free, l) == {} { }
      forall n | InRange(table, n) ensures ListIdx(free, n) < |free.lists| {
        KeyBlock(n, NAT_ENTRY_PER_BLOCK, |t.copy0|);
        ListIdxBound(maxNid, lists, n);
      }
    }

    /** __set_nat_cache_dirty */
    method SetDirty(n: nat)
      requires Indexed() && n in cache
      modifies `cache, `sets, `dirtyCnt
      ensures Indexed() && cache == old(cache)[n := old(cache)[n].(dirty := true)]
    {
      if cache[n].dirty {
        return;
      }
      var t := TreeIdx(n, trees);
      AddToOk(Dirty(cache), sets, trees, n);
      sets := AddTo(sets, trees, n);
      dirtyCnt := dirtyCnt[t := dirtyCnt[t] + 1];
      cache := cache[n := cache[n].(dirty := true)];
      DirtyMove(old(cache), cache, n);
      CountMove(old(cache), cache, old(dirtyCnt), trees, n, 1);
    }

    /** nat_reset_flag and __clear_nat_cache_dirty on an entry that has been written */
    method ClearDirty(n: nat)
      requires Indexed() && n in cache && cache[n].dirty && BlockOf(n) in draining
      modifies `cache, `sets, `dirtyCnt
      ensures Indexed() && cache == old(cache)[n := Cached(old(cache)[n].val, false, true)]
    {
      var t := TreeIdx(n, trees);
      DropFromOk(Dirty(cache), sets, trees, n);
      sets := DropFrom(sets, trees, n);
      dirtyCnt := dirtyCnt[t := dirtyCnt[t] - 1];
      cache := cache[n := Cached(cache[n].val, false, true)];
      DirtyMove(old(cache), cache, n);
      CountMove(old(cache), cache, old(dirtyCnt), trees, n, -1);
    }

    /** get_node_info */
    method GetNodeInfo(n: nat) returns (v: NatVal)
      requires Valid() && InRange(table, n)
      modifies `cache
      ensures Valid() && v == old(View(Abs(), n)) && n in cache
      ensures Abs() == old(Fetch(Abs(), n))
      ensures forall m :: InRange(table, m) ==> View(Abs(), m) == old(View(Abs(), m))
    {
      if n in cache {
        return cache[n].val;
      }
      var i := Search(journal, n);
      if i >= 0 {
        v := journal[i].val;
      } else {
        v := Current(table, BlockOf(n))[n % NAT_ENTRY_PER_BLOCK];
      }
      FetchInv(Abs(), n);
      Replace(n, Cached(v, false, true));
    }

    /** set_node_addr; the requires are its own sanity checks and what its callers hold. */
    method SetNodeAddr(n: nat, ni: NatVal, next: nat)
      requires Valid() && InRange(table, n)
      requires ni.blk == View(Abs(), n).blk && ni.version == View(Abs(), n).version
      requires next != NEW_ADDR ==> ni.ino == View(Abs(), n).ino
      requires AddrChangeOk(ni.blk, next)
      requires ni.blk == NULL_ADDR ==> n in free.root && free.root[n] == Alloc
      modifies `cache, `sets, `dirtyCnt
      ensures Valid()
      ensures Abs() == old(SetAddr(Abs(), n, ni.ino, next))
      ensures View(Abs(), n).ino == ni.ino && View(Abs(), n).blk == next
      ensures View(Abs(), n).version ==
        if next == NULL_ADDR && ni.blk != NEW_ADDR then (ni.version + 1) % 256 else ni.version
      ensures n in cache && cache[n].dirty
      ensures cache[n].ckpt <==> next != NEW_ADDR && next != NULL_ADDR && (n in old(cache) ==> old(cache)[n].ckpt)
      ensures forall m :: InRange(table, m) && m != n ==> View(Abs(), m) == old(View(Abs(), m))
    {
      SetAddrInv(Abs(), n, ni.ino, next);
      ChangeEntry(n, ni, next);
    }

    method ChangeEntry(n: nat, ni: NatVal, next: nat)
      requires Indexed() && TableOk(table, NAT_ENTRY_PER_BLOCK) && InRange(table, n)
      requires ni.blk == View(Abs(), n).blk && ni.version == View(Abs(), n).version
      requires next != NEW_ADDR ==> ni.ino == View(Abs(), n).ino
      modifies `cache, `sets, `dirtyCnt
      ensures Indexed()
      ensures Abs() == old(SetAddr(Abs(), n, ni.ino, next))
    {
      var e := if n !in cache then Cached(ni, false, true)
               else if next == NEW_ADDR then cache[n].(val := ni)
               else cache[n];
      e := ChangeAddr(e, next);
      Replace(n, e);
      SetDirty(n);
    }

    /** Put an entry into the cache without touching its dirty flag. */
    method Replace(n: nat, e: Cached)
      requires Indexed() && e.dirty == (n in cache && cache[n].dirty)
      modifies `cache
      ensures Indexed() && cache == old(cache)[n := e]
    {
      cache := cache[n := e];
      assert Dirty(cache) == Dirty(old(cache));
      SameDirty(old(cache), cache, dirtyCnt, trees);
    }

    /** There is no memory for more offers. */
    ghost predicate Short()
      reads this
    {
      |Offers(free)| >= nidLimit
    }

    /** add_free_nid */
    method AddFreeNid(n: nat, build: bool) returns (r: int)
      requires NidsOk(free) && ListIdx(free, n) < |free.lists|
      modifies `free
      ensures NidsOk(free) && -1 <= r <= 1
      ensures r == -1 <==> old(Short())
      ensures r == 1 <==> !old(Short()) && n != 0 && n !in old(free).root && !(build && LooksAllocated(cache, n))
      ensures free == if r == 1 then Add(old(free), n) else old(free)
      ensures Wider(old(free), free)
      ensures r == 1 ==> n in free.root && free.root[n] == New
    {
      var offers := SumUpFcnt(free);
      if offers >= nidLimit {
        return -1;
      }
      if n == 0 {
        return 0;
      }
      if build && n in cache && (!cache[n].ckpt || cache[n].val.blk != NULL_ADDR) {
        return 0;
      }
      if n in free.root {
        return 0;
      }
      AddOk(free, n);
      free := Add(free, n);
      return 1;
    }

    /** remove_free_nid */
    method RemoveFreeNid(n: nat)
      requires NidsOk(free) && ListIdx(free, n) < |free.lists|
      modifies `free
      ensures NidsOk(free) && free == Withdraw(old(free), n)
    {
      WithdrawOk(free, n);
      if n in free.root && free.root[n] == New {
        free := Delete(free, n);
      }
    }

    /** The nid is known to the free lists, or is none that collecting offers. */
    ghost predicate Known(n: nat)
      reads this
    {
      n == 0 || n in free.root || LooksAllocated(cache, n)
    }

    /**
     * The pass over the NAT journal that ends every collection of free nids.
     * Afterwards nothing on offer has an address, in the journal or elsewhere;
     * and unless memory is short every nid the journal says is free is known,
     * as is every nid that was known before and has no journal entry.
     */
    method ScanJournal(ghost s: State, full: bool, ghost known: set<nat>) returns (short: bool)
      requires NatOk(s) && Covered(s.table, s.free)
      requires s.cache == cache && s.journal == journal && s.table == table
      requires Collecting(s, free) && Suspects(s, free, 0)
      requires (full ==> Short()) && forall n :: n in known ==> Known(n)
      modifies `free
      ensures BuildStep(s, free)
      ensures short ==> |Offers(free)| + |journal| >= nidLimit
      ensures full ==> short
      ensures forall n :: n in known && !Has(journal, n) ==> Known(n)
      ensures !short ==> forall i :: 0 <= i < |journal| && journal[i].val.blk == NULL_ADDR ==> Known(journal[i].key)
    {
      var i := 0;
      short := full;
      while i < |journal|
        invariant 0 <= i <= |journal| && Collecting(s, free) && Suspects(s, free, i)
        invariant (short ==> |Offers(free)| + i >= nidLimit) && (full ==> short)
        invariant forall n :: n in known && !Has(journal, n) ==> Known(n)
        invariant !short ==> forall k :: 0 <= k < i && journal[k].val.blk == NULL_ADDR ==> Known(journal[k].key)
      {
        short := ScanRecord(i, short, s);
        i := i + 1;
      }
      forall n | n in free.root && free.root[n] == New && InRange(table, n) ensures View(s, n).blk == NULL_ADDR {
        assert !Suspect(s, n, i);
      }
    }

    /** One journal entry: its nid is offered or withdrawn. */
    method ScanRecord(i: nat, short0: bool, ghost s: State) returns (short: bool)
      requires NatOk(s) && Covered(s.table, s.free) && i < |journal|
      requires s.cache == cache && s.journal == journal && s.table == table
      requires Collecting(s, free) && Suspects(s, free, i) && (short0 ==> |Offers(free)| + i >= nidLimit)
      modifies `free
      ensures Collecting(s, free) && Suspects(s, free, i + 1)
      ensures (short ==> |Offers(free)| + i + 1 >= nidLimit) && (short0 ==> short)
      ensures forall n :: n != journal[i].key ==> (n in free.root <==> n in old(free).root)
      ensures !short && journal[i].val.blk == NULL_ADDR ==> Known(journal[i].key)
    {
      var n := journal[i].key;
      assert InRange(table, n);
      ghost var g := free;
      short := short0;
      if journal[i].val.blk == NULL_ADDR {
        AddOk(free, n);
        var r := AddFreeNid(n, true);
        short := short || r < 0;
        CollectAdd(s, g, free, i);
        WiderOffers(g, free);
      } else {
        WithdrawOk(free, n);
        RemoveFreeNid(n);
        CollectRemove(s, g, i);
        BesideOffers(g, free, n);
      }
    }

    /** build_free_nids: unless memory is short, every nid that is free by its journal entry is known afterwards */
    method BuildFreeNids() returns (short: bool)
      requires Valid()
      modifies `free
      ensures Valid() && NatRuns.Does(old(Abs()), NatRuns.Collect, Abs())
      ensures short ==> |Offers(free)| + |journal| >= nidLimit
      ensures !short ==> forall i :: 0 <= i < |journal| && journal[i].val.blk == NULL_ADDR ==> Known(journal[i].key)
    {
      ghost var s := Abs();
      CollectStart(s);
      short := ScanJournal(s, false, {});
      BuildInv(s, free);
    }

    /** The NAT blocks give the nid no address. */
    ghost predicate FreeInBlock(n: nat)
      requires TableOk(table, NAT_ENTRY_PER_BLOCK) && InRange(table, n)
      reads this
    {
      Current(table, BlockOf(n))[n % NAT_ENTRY_PER_BLOCK].blk == NULL_ADDR
    }

    /** scan_nat_page over the block of `first`, from `first` on */
    method ScanNatPage(first: nat, ghost s: State) returns (full: bool)
      requires NatOk(s) && Covered(s.table, s.free) && InRange(table, first)
      requires s.cache == cache && s.journal == journal && s.table == table
      requires Collecting(s, free) && Suspects(s, free, 0)
      modifies `free
      ensures Collecting(s, free) && Suspects(s, free, 0) && Wider(old(free), free)
      ensures full ==> Short()
      ensures !full ==> forall n :: first <= n && BlockOf(n) == BlockOf(first) && FreeInBlock(n) ==> Known(n)
    {
      var b, i := BlockOf(first), first % NAT_ENTRY_PER_BLOCK;
      full := false;
      while i < NAT_ENTRY_PER_BLOCK && !full
        invariant first % NAT_ENTRY_PER_BLOCK <= i <= NAT_ENTRY_PER_BLOCK
        invariant Collecting(s, free) && Suspects(s, free, 0) && Wider(old(free), free) && (full ==> Short())
        invariant !full ==> forall n :: first <= n < b * NAT_ENTRY_PER_BLOCK + i && BlockOf(n) == b && FreeInBlock(n) ==> Known(n)
      {
        full := ScanNatEntry(b * NAT_ENTRY_PER_BLOCK + i, s);
        i := i + 1;
      }
    }

    method ScanNatEntry(n: nat, ghost s: State) returns (full: bool)
      requires NatOk(s) && Covered(s.table, s.free) && InRange(table, n)
      requires s.cache == cache && s.journal == journal && s.table == table
      requires Collecting(s, free) && Suspects(s, free, 0)
      modifies `free
      ensures Collecting(s, free) && Suspects(s, free, 0) && Wider(old(free), free)
      ensures full ==> Short()
      ensures !full && FreeInBlock(n) ==> Known(n)
    {
      full := false;
      if Current(table, BlockOf(n))[n % NAT_ENTRY_PER_BLOCK].blk == NULL_ADDR {
        ghost var g := free;
        var r := AddFreeNid(n, true);
        full := r < 0;
        ScanAdd(s, g, free, n);
      }
    }

    /**
     * build_all_free_nids: the NAT blocks from that of `next` on, then the
     * journal.  Unless memory is short, every nid from `next` on that journal
     * and blocks say is free is known afterwards.
     */
    method BuildAllFreeNids(next: nat) returns (short: bool)
      requires Valid() && InRange(table, next) && |table.copy0| >= 2
      modifies `free
      ensures Valid() && NatRuns.Does(old(Abs()), NatRuns.Collect, Abs())
      ensures short ==> |Offers(free)| + |journal| >= nidLimit
      ensures !short ==> forall n :: next <= n && InRange(table, n) && Persist(table, journal, n).blk == NULL_ADDR ==> Known(n)
    {
      ghost var s := Abs();
      CollectStart(s);
      var full := ScanBlocks(next, s);
      ghost var known := set n | 0 <= n < |table.copy0| * NAT_ENTRY_PER_BLOCK && Known(n);
      short := ScanJournal(s, full, known);
      BuildInv(s, free);
      if !short {
        forall n | next <= n && InRange(table, n) && Persist(table, journal, n).blk == NULL_ADDR ensures Known(n) {
          KeyBlock(n, NAT_ENTRY_PER_BLOCK, |table.copy0|);
          if Has(journal, n) {
            assert journal[Find(journal, n)].key == n;
          } else {
            assert FreeInBlock(n) && n in known;
          }
        }
      }
    }

    /** From the block of `next` to the last one, and once more after wrapping round to block 1. */
    method ScanBlocks(next: nat, ghost s: State) returns (full: bool)
      requires NatOk(s) && Covered(s.table, s.free) && InRange(table, next) && |table.copy0| >= 2
      requires s.cache == cache && s.journal == journal && s.table == table
      requires Collecting(s, free) && Suspects(s, free, 0)
      modifies `free
      ensures Collecting(s, free) && Suspects(s, free, 0)
      ensures full ==> Short()
      ensures !full ==> forall n :: next <= n && InRange(table, n) && FreeInBlock(n) ==> Known(n)
    {
      var nid: nat := next;
      full := false;
      for i := 0 to |table.copy0| - BlockOf(next) + 1
        invariant Collecting(s, free) && Suspects(s, free, 0) && InRange(table, nid) && (full ==> Short())
        invariant i < |table.copy0| - BlockOf(next) ==> BlockOf(nid) == BlockOf(next) + i && (i == 0 ==> nid == next)
        invariant 0 < i < |table.copy0| - BlockOf(next) ==> nid == BlockOf(nid) * NAT_ENTRY_PER_BLOCK
        invariant !full ==> forall n :: next <= n && InRange(table, n) && BlockOf(n) < BlockOf(next) + i && FreeInBlock(n) ==> Known(n)
      {
        full := ScanNext(nid, full, s);
        nid := nid + (NAT_ENTRY_PER_BLOCK - nid % NAT_ENTRY_PER_BLOCK);
        if BlockOf(nid) >= |table.copy0| {
          nid := NAT_ENTRY_PER_BLOCK;
        }
      }
    }

    method ScanNext(nid: nat, full0: bool, ghost s: State) returns (full: bool)
      requires NatOk(s) && Covered(s.table, s.free) && InRange(table, nid) && (full0 ==> Short())
      requires s.cache == cache && s.journal == journal && s.table == table
      requires Collecting(s, free) && Suspects(s, free, 0)
      modifies `free
      ensures Collecting(s, free) && Suspects(s, free, 0) && Wider(old(free), free)
      ensures (full ==> Short()) && (full0 ==> full)
      ensures !full ==> forall n :: nid <= n && BlockOf(n) == BlockOf(nid) && FreeInBlock(n) ==> Known(n)
    {
      var more := ScanNatPage(nid, s);
      full := full0 || more;
      WiderOffers(old(free), free);
    }

    /**
     * One attempt of alloc_nid on list `l`.  A list with offers gives its
     * first one; a list without any is refilled and the caller tries the next.
     */
    method TryAllocNid(l: nat) returns (found: bool, nid: nat)
      requires Valid() && l < |free.lists|
      modifies `free
      ensures Valid()
      ensures found <==> old(free).fcnt[l] > 0
      ensures found ==> NatRuns.Does(old(Abs()), NatRuns.AllocNid(nid), Abs()) && First(old(free), l, nid)
      ensures !found ==> NatRuns.Does(old(Abs()), NatRuns.Collect, Abs())
    {
      nid := 0;
      found := free.fcnt[l] > 0;
      if found {
        nid := TakeFirst(l);
      } else {
        var _ := BuildFreeNids();
      }
    }

    /** The nid is the first on offer in list `l`. */
    ghost predicate First(f: FreeNids, l: nat, nid: nat)
      requires l < |f.lists|
    {
      exists i :: 0 <= i < |f.lists[l]| && f.lists[l][i] == nid
        && nid in f.root && f.root[nid] == New
        && forall k :: 0 <= k < i ==> f.lists[l][k] in f.root && f.root[f.lists[l][k]] == Alloc
    }

    method TakeFirst(l: nat) returns (nid: nat)
      requires Valid() && l < |free.lists| && free.fcnt[l] > 0
      modifies `free
      ensures Valid() && NatRuns.Does(old(Abs()), NatRuns.AllocNid(nid), Abs()) && First(old(free), l, nid)
    {
      var i := FirstOnOffer(free, l);
      nid := free.lists[l][i];
      TakeStep(Abs(), l, nid);
      free := free.(root := free.root[nid := Alloc], fcnt := free.fcnt[l := free.fcnt[l] - 1]);
    }

    /** alloc_nid_done */
    method AllocNidDone(n: nat)
      requires Valid() && n in free.root && free.root[n] == Alloc && View(Abs(), n).blk != NULL_ADDR
      modifies `free
      ensures Valid() && NatRuns.Does(old(Abs()), NatRuns.Confirm(n), Abs())
    {
      ghost var s := Abs();
      DeleteOk(free, n);
      free := Delete(free, n);
      NatRuns.StepInv(s, NatRuns.Confirm(n), Abs());
    }

    /** alloc_nid_failed, which ignores nid 0 */
    method AllocNidFailed(n: nat)
      requires Valid()
      requires n != 0 ==> n in free.root && free.root[n] == Alloc && View(Abs(), n).blk == NULL_ADDR
      modifies `free
      ensures Valid()
      ensures n == 0 ==> Abs() == old(Abs())
      ensures n != 0 ==> NatRuns.Does(old(Abs()), NatRuns.Fail(n, !old(Short())), Abs())
    {
      if n == 0 {
        return;
      }
      var offers := SumUpFcnt(free);
      var available := offers < nidLimit;
      ghost var s := Abs();
      GiveBackOk(free, n, available);
      free := GiveBack(free, n, available);
      NatRuns.StepInv(s, NatRuns.Fail(n, available), Abs());
    }

    /** try_to_free_nats: give each core its share of the evictions, clean entries only */
    method TryToFreeNats(nr: nat) returns (left: nat)
      requires Valid()
      modifies `cache
      ensures Valid() && Evicted(old(Abs()), Abs())
      ensures forall m :: InRange(table, m) ==> View(Abs(), m) == old(View(Abs(), m))
      ensures left == nr - (|old(cache)| - |cache|)
      ensures trees > 0 && Fair(old(cache), cache, trees, Even(nr, trees), trees)
    {
      left := nr;
      ghost var even := Even(nr, trees);
      EnoughAtFirst(nr, trees);
      for i := 0 to trees
        invariant Valid() && Evicted(old(Abs()), Abs())
        invariant left == nr - (|old(cache)| - |cache|)
        invariant Enough(left, even, trees - i)
        invariant Fair(old(cache), cache, trees, even, i)
      {
        left := EvictFrom(i, left, even, old(Abs()));
      }
    }

    /** One core's share of what is left. */
    method EvictFrom(i: nat, left0: nat, ghost even: nat, ghost s: State) returns (left: nat)
      requires Valid() && i < trees && Evicted(s, Abs()) && Fair(s.cache, cache, trees, even, i)
      requires Enough(left0, even, trees - i)
      modifies `cache
      ensures Valid() && Evicted(s, Abs()) && Fair(s.cache, cache, trees, even, i + 1)
      ensures left == left0 - (|old(cache)| - |cache|) && Enough(left, even, trees - (i + 1))
    {
      ghost var r := Abs();
      var share := Share(left0, trees - i);
      ShareKept(left0, trees - i, even);
      var done := EvictShare(i, share);
      EvictedTrans(s, r, Abs());
      CoresApart(s.cache, r.cache, cache, trees, i);
      left := left0 - done;
      MoreIsEnough(left0 - share, left, even, trees - i - 1);
    }

    /** At most `share` evictions from the clean entries of core `i`. */
    method EvictShare(i: nat, share: nat) returns (done: nat)
      requires Valid()
      modifies `cache
      ensures Valid() && Evicted(old(Abs()), Abs())
      ensures done <= share && done == |old(cache)| - |cache|
      ensures forall t :: t != i ==> Gone(old(cache), cache, trees, t) == {}
      ensures |Gone(old(cache), cache, trees, i)| == done && (done < share ==> Clean(cache, trees, i) == {})
    {
      done := 0;
      assert Gone(old(cache), cache, trees, i) == {};
      while done < share && exists n :: n in cache && !cache[n].dirty && TreeIdx(n, trees) == i
        invariant Valid() && Evicted(old(Abs()), Abs())
        invariant done <= share && done == |old(cache)| - |cache|
        invariant forall t :: t != i ==> Gone(old(cache), cache, trees, t) == {}
        invariant |Gone(old(cache), cache, trees, i)| == done
      {
        var n :| n in cache && !cache[n].dirty && TreeIdx(n, trees) == i;
        ghost var c := cache;
        EvictOne(n);
        GoneMore(old(cache), c, cache, trees, n);
        done := done + 1;
      }
    }

    method EvictOne(n: nat)
      requires Valid() && n in cache && !cache[n].dirty
      modifies `cache
      ensures Valid() && Abs() == Evict(old(Abs()), n) && |cache| == |old(cache)| - 1
    {
      EvictInv(Abs(), n);
      ghost var c := cache;
      cache := cache - {n};
      assert Dirty(cache) == Dirty(c);
      SameDirty(c, cache, dirtyCnt, trees);
      assert cache.Keys == c.Keys - {n};
    }

    // ---- flush ----

    /** Write one entry to the journal, or to its NAT block once that has been turned over. */
    method WriteEntry(n: nat, v: NatVal, toJournal: bool, ghost t0: Table<NatVal>)
      requires TableOk(table, NAT_ENTRY_PER_BLOCK) && JournalOk(table, journal) && InRange(table, n)
      requires Shadowed(t0, table)
      requires toJournal ==> |journal| < NAT_JOURNAL_ENTRIES
      requires !toJournal ==> !Has(journal, n) && (BlockOf(n) in t0.bitmap <==> BlockOf(n) !in table.bitmap)
      modifies `journal, `table
      ensures TableOk(table, NAT_ENTRY_PER_BLOCK) && JournalOk(table, journal)
      ensures Shadowed(t0, table) && table.bitmap == old(table).bitmap
      ensures forall m :: InRange(table, m) ==>
        Persist(table, journal, m) == if m == n then v else Persist(old(table), old(journal), m)
      ensures forall m :: Has(journal, m) ==> Has(old(journal), m) || (toJournal && m == n)
      ensures |journal| <= |old(journal)| + if toJournal then 1 else 0
      ensures toJournal ==> table == old(table)
    {
      if toJournal {
        var i := Search(journal, n);
        journal := if i >= 0 then journal[i := Record(n, v)] else journal + [Record(n, v)];
        assert journal == Put(old(journal), n, v);
        forall m ensures Has(journal, m) <==> Has(old(journal), m) || m == n {
          PutFind(old(journal), n, v, m);
        }
        PutFind(old(journal), n, v, n);
        forall m | InRange(table, m)
          ensures Persist(table, journal, m) == if m == n then v else Persist(old(table), old(journal), m)
        {
          PutLookup(table, old(journal), NAT_ENTRY_PER_BLOCK, n, v, m);
        }
      } else {
        table := Store(table, NAT_ENTRY_PER_BLOCK, n, v);
        StoreLookup(old(table), journal, NAT_ENTRY_PER_BLOCK, n, v, n);
        StoreShadowed(t0, old(table), NAT_ENTRY_PER_BLOCK, n, v);
        forall m | InRange(table, m)
          ensures Persist(table, journal, m) == if m == n then v else Persist(old(table), old(journal), m)
        {
          StoreLookup(old(table), journal, NAT_ENTRY_PER_BLOCK, n, v, m);
        }
      }
    }

    /** One round of the innermost flush loop. */
    method FlushEntry(n: nat, toJournal: bool, ghost s: State)
      requires TableOk(s.table, NAT_ENTRY_PER_BLOCK)
      requires Indexed() && Flushing(s, Abs()) && n in cache && cache[n].dirty && InRange(table, n)
      requires ListIdx(free, n) < |free.lists| && BlockOf(n) in draining
      requires toJournal ==> |journal| < NAT_JOURNAL_ENTRIES
      requires !toJournal ==> !Has(journal, n) && (BlockOf(n) in s.table.bitmap <==> BlockOf(n) !in table.bitmap)
      modifies `cache, `sets, `dirtyCnt, `journal, `table, `free
      ensures Indexed() && Flushing(s, Abs())
      ensures cache == old(cache)[n := Cached(old(cache)[n].val, false, true)]
      ensures table.bitmap == old(table).bitmap
      ensures forall m :: Has(journal, m) ==> Has(old(journal), m) || (toJournal && m == n)
      ensures |journal| <= |old(journal)| + if toJournal then 1 else 0
      ensures toJournal ==> table == old(table)
      ensures Wider(old(free), free) && Offered(free, nidLimit, cache, {n})
    {
      WriteBack(n, toJournal, s);
      if cache[n].val.blk == NULL_ADDR {
        OfferNid(n, s);
      }
    }

    /** Write the entry out and mark it clean. */
    method WriteBack(n: nat, toJournal: bool, ghost s: State)
      requires TableOk(s.table, NAT_ENTRY_PER_BLOCK)
      requires Indexed() && Flushing(s, Abs()) && n in cache && cache[n].dirty && InRange(table, n)
      requires BlockOf(n) in draining
      requires toJournal ==> |journal| < NAT_JOURNAL_ENTRIES
      requires !toJournal ==> !Has(journal, n) && (BlockOf(n) in s.table.bitmap <==> BlockOf(n) !in table.bitmap)
      modifies `cache, `sets, `dirtyCnt, `journal, `table
      ensures Indexed() && Flushing(s, Abs())
      ensures cache == old(cache)[n := Cached(old(cache)[n].val, false, true)]
      ensures table.bitmap == old(table).bitmap
      ensures forall m :: Has(journal, m) ==> Has(old(journal), m) || (toJournal && m == n)
      ensures |journal| <= |old(journal)| + if toJournal then 1 else 0
      ensures toJournal ==> table == old(table)
    {
      ghost var r := Abs();
      WriteEntry(n, cache[n].val, toJournal, s.table);
      ClearDirty(n);
      FlushEntryView(s, r, Abs(), n);
    }

    /** A flushed entry without an address makes its nid available. */
    method OfferNid(n: nat, ghost s: State)
      requires TableOk(s.table, NAT_ENTRY_PER_BLOCK) && Flushing(s, Abs())
      requires n in cache && cache[n].val.blk == NULL_ADDR && InRange(s.table, n) && ListIdx(free, n) < |free.lists|
      modifies `free
      ensures Flushing(s, Abs())
      ensures Wider(old(free), free) && (n == 0 || n in free.root || Short())
    {
      ghost var r := Abs();
      assert View(r, n) == View(s, n);
      var added := AddFreeNid(n, false);
      if added == 1 {
        GrownAdd(s, s.free, r.free, n);
      }
      FreeFlushing(s, r, free);
    }

    /** All of a pack's entries go to the journal if they fit, else to the next copy of their block. */
    method FlushPack(p: Pack, ghost s: State, ghost fits: bool)
      requires TableOk(s.table, NAT_ENTRY_PER_BLOCK)
      requires Indexed() && Flushing(s, Abs()) && PackOk(cache, p)
      requires Covered(s.table, s.free)
      requires p.id < |s.table.copy0| && (p.id in s.table.bitmap <==> p.id in table.bitmap)
      requires JournalRoom(Dirty(cache), journal, NAT_JOURNAL_ENTRIES, fits) && draining == {}
      modifies this
      ensures Indexed() && Flushing(s, Abs())
      ensures JournalRoom(Dirty(cache), journal, NAT_JOURNAL_ENTRIES, fits) && draining == {}
      ensures Dirty(cache) == old(Dirty(cache)) - Elems(p.ents)
      ensures forall b :: b != p.id ==> (b in table.bitmap <==> b in old(table).bitmap)
      ensures (fits ==> table == old(table)) && SameVals(old(cache), cache) && nidLimit == old(nidLimit)
      ensures Wider(old(free), free) && Offered(free, nidLimit, cache, Elems(p.ents))
    {
      ghost var d := Dirty(cache);
      var toJournal := StartPack(p, s, fits);
      draining := {p.id};
      FlushEntries(p, toJournal, s, fits, d);
      assert p.ents[..|p.ents|] == p.ents;
      DeleteSets(p.id);
    }

    /** Choose journal or block for the whole pack, and turn the block over if it is chosen. */
    method StartPack(p: Pack, ghost s: State, ghost fits: bool) returns (toJournal: bool)
      requires TableOk(s.table, NAT_ENTRY_PER_BLOCK) && Flushing(s, Abs()) && PackOk(cache, p)
      requires p.id < |s.table.copy0| && (p.id in s.table.bitmap <==> p.id in table.bitmap)
      requires JournalRoom(Dirty(cache), journal, NAT_JOURNAL_ENTRIES, fits)
      modifies `table
      ensures Flushing(s, Abs()) && PackProgress(p, 0, toJournal, s.table, fits, Dirty(cache))
      ensures forall b :: b != p.id ==> (b in table.bitmap <==> b in old(table).bitmap)
      ensures toJournal ==> table == old(table)
    {
      PackSize(cache, p);
      toJournal := p.cnt <= NAT_JOURNAL_ENTRIES - |journal|;
      if !toJournal {
        TurnOver(p.id, s);
      }
      assert Elems(p.ents[..0]) == {};
    }

    method FlushEntries(p: Pack, toJournal: bool, ghost s: State, ghost fits: bool, ghost d: set<nat>)
      requires TableOk(s.table, NAT_ENTRY_PER_BLOCK) && Covered(s.table, s.free)
      requires DistinctNids(p.ents) && forall n :: n in p.ents ==> n in d && BlockOf(n) == p.id
      requires Indexed() && Flushing(s, Abs()) && PackProgress(p, 0, toJournal, s.table, fits, d)
      requires p.id in draining
      modifies `cache, `sets, `dirtyCnt, `journal, `table, `free
      ensures Indexed() && Flushing(s, Abs()) && PackProgress(p, |p.ents|, toJournal, s.table, fits, d)
      ensures table.bitmap == old(table).bitmap && (toJournal ==> table == old(table))
      ensures SameVals(old(cache), cache) && Wider(old(free), free) && Offered(free, nidLimit, cache, Elems(p.ents))
    {
      var i := 0;
      assert Elems(p.ents[..0]) == {};
      while i < |p.ents|
        invariant 0 <= i <= |p.ents| && Indexed() && Flushing(s, Abs())
        invariant PackProgress(p, i, toJournal, s.table, fits, d)
        invariant table.bitmap == old(table).bitmap && (toJournal ==> table == old(table))
        invariant SameVals(old(cache), cache) && Wider(old(free), free) && Offered(free, nidLimit, cache, Elems(p.ents[..i]))
      {
        FlushNext(p, i, toJournal, s, fits, d);
        i := i + 1;
      }
      assert p.ents[..|p.ents|] == p.ents;
    }

    /** Entries before `i` of the pack are flushed, the others still dirty, and there is room for them. */
    ghost predicate PackProgress(p: Pack, i: nat, toJournal: bool, t0: Table<NatVal>, fits: bool, d: set<nat>)
      requires i <= |p.ents|
      reads this
    {
      && JournalRoom(Dirty(cache), journal, NAT_JOURNAL_ENTRIES, fits) && (!toJournal ==> !fits)
      && (toJournal ==> |journal| + (|p.ents| - i) <= NAT_JOURNAL_ENTRIES)
      && (!toJournal ==> (p.id in t0.bitmap <==> p.id !in table.bitmap))
      && Dirty(cache) == d - Elems(p.ents[..i])
    }

    method FlushNext(p: Pack, i: nat, toJournal: bool, ghost s: State, ghost fits: bool, ghost d: set<nat>)
      requires TableOk(s.table, NAT_ENTRY_PER_BLOCK)
      requires Covered(s.table, s.free)
      requires i < |p.ents| && DistinctNids(p.ents) && forall n :: n in p.ents ==> n in d && BlockOf(n) == p.id
      requires Indexed() && Flushing(s, Abs()) && PackProgress(p, i, toJournal, s.table, fits, d)
      requires p.id in draining
      modifies `cache, `sets, `dirtyCnt, `journal, `table, `free
      ensures Indexed() && Flushing(s, Abs()) && PackProgress(p, i + 1, toJournal, s.table, fits, d)
      ensures table.bitmap == old(table).bitmap && (toJournal ==> table == old(table))
      ensures SameVals(old(cache), cache) && Wider(old(free), free)
      ensures Offered(old(free), nidLimit, old(cache), Elems(p.ents[..i])) ==>
        Offered(free, nidLimit, cache, Elems(p.ents[..i + 1]))
    {
      var n := p.ents[i];
      StillDirty(p.ents, i, d);
      assert n in Dirty(cache);
      DirtyInRange(s, Abs(), n);
      FlushEntry(n, toJournal, s);
      NextEntry(old(cache), cache, old(journal), journal, p, i, fits, d, toJournal);
      NextOffered(old(free), free, nidLimit, old(cache), cache, p.ents, i);
    }

    /** get_next_nat_page: copy the current block to the other place and make that current. */
    method TurnOver(b: nat, ghost s: State)
      requires TableOk(s.table, NAT_ENTRY_PER_BLOCK) && Flushing(s, Abs())
      requires b < |s.table.copy0| && (b in s.table.bitmap <==> b in table.bitmap)
      modifies `table
      ensures Flushing(s, Abs())
      ensures b in s.table.bitmap <==> b !in table.bitmap
      ensures forall c :: c != b ==> (c in table.bitmap <==> c in old(table).bitmap)
    {
      ghost var r := Abs();
      table := Flip(table, b, Current(table, b));
      FlipShadowed(s.table, old(table), b, Current(old(table), b));
      FlipFlushing(s, r, b);
    }

    /** radix_tree_delete of a flushed set id, for every core */
    method DeleteSets(b: nat)
      requires Indexed() && draining == {b} && forall n :: n in Dirty(cache) ==> BlockOf(n) != b
      modifies `sets, `draining
      ensures Indexed() && draining == {}
    {
      var t := 0;
      while t < trees
        invariant 0 <= t <= trees && SetsOk(Dirty(cache), sets, trees) && NoEmptySet(sets, {b})
        invariant draining == {b} && forall k :: 0 <= k < t ==> b !in sets[k]
      {
        var m: map<nat, NatSet> := sets[t] - {b};
        DropSetOk(Dirty(cache), sets, trees, t, b);
        sets := sets[t := m];
        t := t + 1;
      }
      draining := {};
      forall k | 0 <= k < |sets| ensures NoEmpty(sets[k], {}) {
        assert NoEmpty(sets[k], {b});
      }
    }

    method RemoveOne(i: nat, ghost s: State)
      requires NatOk(s) && s.table == table && s.journal == journal && Flushing(s, Abs())
      requires Indexed() && i < |journal|
      modifies `cache, `sets, `dirtyCnt
      ensures Indexed() && Flushing(s, Abs())
      ensures journal[i].key in cache && cache[journal[i].key].dirty
      ensures KeepsDirty(old(cache), cache)
    {
      var n := journal[i].key;
      ghost var r := Abs();
      if n !in cache {
        Replace(n, Cached(journal[i].val, false, true));
      }
      SetDirty(n);
      JournalEntryDirty(s, r, Abs(), i);
    }

    /** remove_nats_in_journal: every journal entry moves to the cache as dirty. */
    method RemoveNatsInJournal(ghost s: State)
      requires TableOk(s.table, NAT_ENTRY_PER_BLOCK) && NatOk(s) && s == Abs() && Flushing(s, s)
      requires Indexed()
      modifies `cache, `sets, `dirtyCnt, `journal
      ensures Indexed() && Flushing(s, Abs()) && journal == [] && table == old(table)
      ensures KeepsDirty(old(cache), cache)
    {
      var i := 0;
      while i < |journal|
        invariant 0 <= i <= |journal| && Indexed() && journal == old(journal)
        invariant Flushing(s, Abs()) && KeepsDirty(old(cache), cache)
        invariant forall k :: 0 <= k < i ==> journal[k].key in cache && cache[journal[k].key].dirty
      {
        RemoveOne(i, s);
        i := i + 1;
      }
      EmptyJournal(s, Abs());
      journal := [];
    }

    /** flush_nat_entries_per_core */
    method FlushNatEntries()
      requires Valid() && NoDirtyPlaceholder(Abs())
      modifies this
      ensures Valid() && FlushStep(old(Abs()), Abs())
      ensures (|old(journal)| + |old(Dirty(cache))| <= NAT_JOURNAL_ENTRIES ==> table == old(table)) && nidLimit == old(nidLimit)
      ensures Short() || forall n :: n in old(Dirty(cache)) && n != 0 && old(cache)[n].val.blk == NULL_ADDR ==> n in free.root
    {
      ghost var s := Abs();
      FlushBegin(s);
      var total := TotalDirty(cache, dirtyCnt, trees);
      if total != 0 {
        FlushDirty(total, s);
      }
      forall n | n in cache ensures !cache[n].dirty { assert n !in Dirty(cache); }
      FlushEnd(s, Abs());
      FlushInv(s, Abs());
    }

    method FlushDirty(total: int, ghost s: State)
      requires Inv(s) && s == Abs() && Flushing(s, s) && Indexed() && draining == {} && total == |Dirty(cache)|
      modifies this
      ensures Indexed() && Flushing(s, Abs()) && Dirty(cache) == {} && draining == {}
      ensures (|old(journal)| + total <= NAT_JOURNAL_ENTRIES ==> table == old(table)) && nidLimit == old(nidLimit)
      ensures Offered(free, nidLimit, s.cache, Dirty(s.cache))
    {
      ghost var fits := total <= NAT_JOURNAL_ENTRIES - |journal|;
      if !(total <= NAT_JOURNAL_ENTRIES - |journal|) {
        RemoveNatsInJournal(s);
      }
      assert JournalRoom(Dirty(cache), journal, NAT_JOURNAL_ENTRIES, fits);
      var packs := BuildPacks(Dirty(cache), sets, trees, |table.copy0|);
      PacksReady(cache, packs);
      ghost var c := cache;
      FlushPacks(packs, s, fits);
      OfferedBack(free, nidLimit, s.cache, c, cache);
    }

    /** Pack after pack. */
    method FlushPacks(packs: seq<Pack>, ghost s: State, ghost fits: bool)
      requires Inv(s) && Indexed() && Flushing(s, Abs()) && draining == {}
      requires JournalRoom(Dirty(cache), journal, NAT_JOURNAL_ENTRIES, fits) && Remaining(cache, packs, 0)
      requires forall i :: 0 <= i < |packs| ==> (packs[i].id in s.table.bitmap <==> packs[i].id in table.bitmap)
      modifies this
      ensures Indexed() && Flushing(s, Abs()) && Dirty(cache) == {} && draining == {} && nidLimit == old(nidLimit)
      ensures (fits ==> table == old(table)) && SameVals(old(cache), cache)
      ensures Offered(free, nidLimit, cache, old(Dirty(cache)))
    {
      var k := 0;
      while k < |packs|
        invariant 0 <= k <= |packs| && Indexed() && Flushing(s, Abs()) && JournalRoom(Dirty(cache), journal, NAT_JOURNAL_ENTRIES, fits)
        invariant Remaining(cache, packs, k) && draining == {}
        invariant forall i :: k <= i < |packs| ==> (packs[i].id in s.table.bitmap <==> packs[i].id in table.bitmap)
        invariant (fits ==> table == old(table)) && SameVals(old(cache), cache) && nidLimit == old(nidLimit)
        invariant Offered(free, nidLimit, cache, old(Dirty(cache)) - Dirty(cache))
      {
        ghost var c, f := cache, free;
        PackInRange(s, Abs(), packs[k]);
        FlushPack(packs[k], s, fits);
        NextPack(c, cache, packs, k);
        OfferedMore(f, free, nidLimit, c, cache, old(Dirty(cache)) - Dirty(c), Elems(packs[k].ents));
        OfferedPart(free, nidLimit, cache, old(Dirty(cache)) - Dirty(c) + Elems(packs[k].ents), old(Dirty(cache)) - Dirty(cache));
        k := k + 1;
      }
    }
  }

  /** Unless memory is short, the nids among `d` that have lost their address are known to the free lists. */
  ghost predicate Offered(f: FreeNids, limit: nat, c: map<nat, Cached>, d: set<nat>) {
    || |Offers(f)| >= limit
    || forall n :: n in d && n != 0 && n in c && c[n].val.blk == NULL_ADDR ==> n in f.root
  }

  ghost predicate SameVals(c: map<nat, Cached>, r: map<nat, Cached>) {
    r.Keys == c.Keys && forall n :: n in c ==> r[n].val == c[n].val
  }

  /** What was dirty still is, with its value. */
  ghost predicate KeepsDirty(c: map<nat, Cached>, r: map<nat, Cached>) {
    forall n :: n in c && c[n].dirty ==> n in r && r[n].dirty && r[n].val == c[n].val
  }

  lemma OfferedMore(f: FreeNids, g: FreeNids, limit: nat, c: map<nat, Cached>, r: map<nat, Cached>, d: set<nat>, e: set<nat>)
    requires Wider(f, g) && SameVals(c, r) && Offered(g, limit, r, e)
    ensures Offered(f, limit, c, d) ==> Offered(g, limit, r, d + e)
  {
    WiderOffers(f, g);
  }

  lemma NextOffered(f: FreeNids, g: FreeNids, limit: nat, c: map<nat, Cached>, r: map<nat, Cached>, ents: seq<nat>, i: nat)
    requires i < |ents| && ents[i] in c && r == c[ents[i] := Cached(c[ents[i]].val, false, true)]
    requires Wider(f, g) && Offered(g, limit, r, {ents[i]})
    ensures SameVals(c, r)
    ensures Offered(f, limit, c, Elems(ents[..i])) ==> Offered(g, limit, r, Elems(ents[..i + 1]))
  {
    assert Elems(ents[..i + 1]) == Elems(ents[..i]) + {ents[i]};
    OfferedMore(f, g, limit, c, r, Elems(ents[..i]), {ents[i]});
  }

  lemma OfferedBack(f: FreeNids, limit: nat, s: map<nat, Cached>, c: map<nat, Cached>, r: map<nat, Cached>)
    requires KeepsDirty(s, c) && SameVals(c, r) && Offered(f, limit, r, Dirty(c))
    ensures Offered(f, limit, s, Dirty(s))
  {
  }

  lemma OfferedPart(f: FreeNids, limit: nat, c: map<nat, Cached>, d: set<nat>, e: set<nat>)
    requires Offered(f, limit, c, d) && e <= d
    ensures Offered(f, limit, c, e)
  {
  }

  ghost function Elems(s: seq<nat>): (r: set<nat>) {
    set n | n in s
  }

  /** A pack holds exactly the dirty entries of its block, each once. */
  ghost predicate PackOk(c: map<nat, Cached>, p: Pack) {
    && p.cnt == |p.ents| && DistinctNids(p.ents)
    && (forall n :: n in p.ents ==> n in Dirty(c) && BlockOf(n) == p.id)
    && (forall n :: n in Dirty(c) && BlockOf(n) == p.id ==> n in p.ents)
  }

  /** The packs from `k` on hold exactly what is still dirty. */
  ghost predicate Remaining(c: map<nat, Cached>, packs: seq<Pack>, k: nat) {
    && PacksOk(packs) && k <= |packs|
    && (forall i :: k <= i < |packs| ==> PackOk(c, packs[i]))
    && (forall n :: n in Dirty(c) ==> exists i :: k <= i < |packs| && packs[i].id == BlockOf(n))
  }

  lemma FreeFlushing(s: State, r: State, f: FreeNids)
    requires TableOk(s.table, NAT_ENTRY_PER_BLOCK) && Flushing(s, r) && Grown(s, s.free, f)
    ensures Flushing(s, r.(free := f))
  {
    var q := r.(free := f);
    forall n | InRange(s.table, n) ensures View(q, n) == View(s, n) {
      assert View(r, n) == View(s, n);
    }
  }

  /** Writing a dirty entry and marking it clean leaves every nid's meaning alone. */
  lemma FlushEntryView(s: State, r: State, q: State, n: nat)
    requires TableOk(s.table, NAT_ENTRY_PER_BLOCK) && Flushing(s, r) && n in r.cache && InRange(r.table, n)
    requires TableOk(q.table, NAT_ENTRY_PER_BLOCK) && JournalOk(q.table, q.journal) && Shadowed(s.table, q.table)
    requires q.cache == r.cache[n := Cached(r.cache[n].val, false, true)] && q.free == r.free
    requires forall m :: InRange(q.table, m) ==>
      Persist(q.table, q.journal, m) == if m == n then r.cache[n].val else Persist(r.table, r.journal, m)
    ensures Flushing(s, q)
  {
    assert |q.table.copy0| == |r.table.copy0|;
    forall m | InRange(s.table, m) ensures View(q, m) == View(s, m) {
      assert View(r, m) == View(s, m);
    }
  }

  /** The entry update in the middle of set_node_addr. */
  method ChangeAddr(e: Cached, next: nat) returns (r: Cached)
    ensures r.val.ino == e.val.ino && r.val.blk == next && r.dirty == e.dirty
    ensures r.val.version == if next == NULL_ADDR && e.val.blk != NEW_ADDR then (e.val.version + 1) % 256 else e.val.version
    ensures r.ckpt == (e.ckpt && next != NEW_ADDR && next != NULL_ADDR)
  {
    r := e;
    if r.val.blk != NEW_ADDR && next == NULL_ADDR {
      r := r.(val := r.val.(version := (r.val.version + 1) % 256));
    }
    r := r.(val := r.val.(blk := next));
    if next == NEW_ADDR || next == NULL_ADDR {
      r := r.(ckpt := false);
    }
  }

  lemma SameDirty(c: map<nat, Cached>, r: map<nat, Cached>, cnt: seq<int>, trees: nat)
    requires CountOk(c, cnt, trees) && Dirty(c) == Dirty(r)
    ensures CountOk(r, cnt, trees)
  {
    forall t | 0 <= t < trees ensures DirtyIn(c, trees, t) == DirtyIn(r, trees, t) {
      forall n ensures n in DirtyIn(c, trees, t) <==> n in DirtyIn(r, trees, t) {
        assert n in Dirty(c) <==> n in Dirty(r);
      }
    }
  }

  lemma ElemsSize(s: seq<nat>)
    requires DistinctNids(s)
    ensures |Elems(s)| == |s|
  {
    if s != [] {
      var rest := s[..|s| - 1];
      ElemsSize(rest);
      assert s == rest + [s[|s| - 1]];
      assert Elems(s) == Elems(rest) + {s[|s| - 1]};
      assert s[|s| - 1] !in Elems(rest);
    }
  }

  lemma PackSize(c: map<nat, Cached>, p: Pack)
    requires PackOk(c, p)
    ensures p.cnt <= |Dirty(c)|
  {
    ElemsSize(p.ents);
    SubsetSize(Elems(p.ents), Dirty(c));
  }

  lemma StillDirty(ents: seq<nat>, i: nat, d: set<nat>)
    requires i < |ents| && DistinctNids(ents) && ents[i] in d
    ensures ents[i] in d - Elems(ents[..i])
  {
  }

  lemma FlipFlushing(s: State, r: State, b: nat)
    requires TableOk(s.table, NAT_ENTRY_PER_BLOCK) && Flushing(s, r) && b < |s.table.copy0|
    requires b in s.table.bitmap <==> b in r.table.bitmap
    ensures Flushing(s, r.(table := Flip(r.table, b, Current(r.table, b))))
  {
    var u := Flip(r.table, b, Current(r.table, b));
    FlipShadowed(s.table, r.table, b, Current(r.table, b));
    forall n | InRange(r.table, n)
      ensures TableOk(u, NAT_ENTRY_PER_BLOCK) && Persist(u, r.journal, n) == Persist(r.table, r.journal, n)
    {
      FlipLookup(r.table, r.journal, NAT_ENTRY_PER_BLOCK, b, n);
    }
    SameMeaning(s, r, r.(table := u));
  }

  /** A change that leaves journal and blocks reading the same leaves the flush on course. */
  lemma SameMeaning(s: State, r: State, q: State)
    requires TableOk(s.table, NAT_ENTRY_PER_BLOCK) && Flushing(s, r)
    requires q.cache == r.cache && q.free == r.free
    requires TableOk(q.table, NAT_ENTRY_PER_BLOCK) && JournalOk(q.table, q.journal) && Shadowed(s.table, q.table)
    requires forall n :: InRange(q.table, n) && (n in r.cache ==> !r.cache[n].dirty) ==>
      Persist(q.table, q.journal, n) == Persist(r.table, r.journal, n)
    ensures Flushing(s, q)
  {
    assert |q.table.copy0| == |r.table.copy0|;
    forall n | InRange(s.table, n) ensures View(q, n) == View(s, n) {
      assert View(r, n) == View(s, n);
    }
  }

  /** Once every journal entry is dirty in the cache the journal can be emptied. */
  lemma EmptyJournal(s: State, r: State)
    requires TableOk(s.table, NAT_ENTRY_PER_BLOCK) && Flushing(s, r)
    requires forall k :: 0 <= k < |r.journal| ==> r.journal[k].key in r.cache && r.cache[r.journal[k].key].dirty
    ensures Flushing(s, r.(journal := []))
  {
    SameMeaning(s, r, r.(journal := []));
  }

  /** A journal entry cached as dirty means what it meant. */
  lemma JournalEntryDirty(s: State, r: State, q: State, i: nat)
    requires NatOk(s) && s.table == r.table && s.journal == r.journal && Flushing(s, r) && i < |s.journal|
    requires var n := s.journal[i].key;
      q == r.(cache := r.cache[n := Cached(if n in r.cache then r.cache[n].val else s.journal[i].val, true,
                                           n in r.cache ==> r.cache[n].ckpt)])
    ensures Flushing(s, q)
  {
    var n := s.journal[i].key;
    FindUnique(s.journal, i);
    assert Persist(s.table, s.journal, n) == s.journal[i].val;
    forall m | InRange(s.table, m) ensures View(q, m) == View(s, m) {
      assert View(r, m) == View(s, m);
    }
  }

  lemma DirtyInRange(s: State, r: State, n: nat)
    requires TableOk(s.table, NAT_ENTRY_PER_BLOCK) && Flushing(s, r) && n in Dirty(r.cache)
    requires Covered(s.table, s.free)
    ensures InRange(r.table, n) && r.free.chunk > 0 && ListIdx(r.free, n) < |r.free.lists|
  {
    assert InRange(s.table, n);
  }

  lemma NextEntry(c: map<nat, Cached>, r: map<nat, Cached>, j: Journal<NatVal>, k: Journal<NatVal>, p: Pack, i: nat,
                  fits: bool, d: set<nat>, toJournal: bool)
    requires i < |p.ents| && p.ents[i] in c && c[p.ents[i]].dirty
    requires r == c[p.ents[i] := Cached(c[p.ents[i]].val, false, true)]
    requires Dirty(c) == d - Elems(p.ents[..i]) && JournalRoom(Dirty(c), j, NAT_JOURNAL_ENTRIES, fits)
    requires |k| <= |j| + 1 && forall m :: Has(k, m) ==> Has(j, m) || (toJournal && m == p.ents[i])
    ensures Dirty(r) == d - Elems(p.ents[..i + 1]) && JournalRoom(Dirty(r), k, NAT_JOURNAL_ENTRIES, fits)
  {
    DirtyMove(c, r, p.ents[i]);
    assert Elems(p.ents[..i + 1]) == Elems(p.ents[..i]) + {p.ents[i]};
    RoomKept(c, r, j, k, fits, p.ents[i], toJournal);
  }

  /** Flushing one more entry keeps the room the others need. */
  lemma RoomKept(c: map<nat, Cached>, r: map<nat, Cached>, j: Journal<NatVal>, k: Journal<NatVal>, fits: bool,
                 n: nat, toJournal: bool)
    requires JournalRoom(Dirty(c), j, NAT_JOURNAL_ENTRIES, fits) && n in Dirty(c) && Dirty(r) == Dirty(c) - {n}
    requires |k| <= |j| + 1
    requires forall m :: Has(k, m) ==> Has(j, m) || (toJournal && m == n)
    ensures JournalRoom(Dirty(r), k, NAT_JOURNAL_ENTRIES, fits)
  {
    assert |Dirty(r)| == |Dirty(c)| - 1;
  }

  lemma DropSetOk(d: set<nat>, sets: Sets, trees: nat, t: nat, b: nat)
    requires SetsOk(d, sets, trees) && t < trees
    requires forall n :: n in d ==> BlockOf(n) != b
    ensures SetsOk(d, sets[t := sets[t] - {b}], trees)
  {
    var m: map<nat, NatSet> := sets[t] - {b};
    var r: Sets := sets[t := m];
    forall n | n in d ensures Filed(r, trees, n) {
      assert Filed(sets, trees, n);
    }
    forall t, b | 0 <= t < trees && b in r[t] ensures SetOk(d, r[t][b], trees, t, b) {
      assert SetOk(d, sets[t][b], trees, t, b);
    }
  }

  lemma PacksReady(c: map<nat, Cached>, packs: seq<Pack>)
    requires PacksOk(packs)
    requires forall i :: 0 <= i < |packs| ==> DistinctNids(packs[i].ents)
    requires forall i, n :: 0 <= i < |packs| && n in packs[i].ents ==> n in Dirty(c) && BlockOf(n) == packs[i].id
    requires forall n :: n in Dirty(c) ==> n in EntsOf(packs, BlockOf(n))
    ensures Remaining(c, packs, 0)
  {
    forall i, n | 0 <= i < |packs| && n in Dirty(c) && BlockOf(n) == packs[i].id ensures n in packs[i].ents {
      assert EntsOf(packs, packs[i].id) == packs[i].ents;
    }
    forall n | n in Dirty(c) ensures exists i :: 0 <= i < |packs| && packs[i].id == BlockOf(n) {
      assert EntsOf(packs, BlockOf(n)) != [];
    }
  }

  lemma PackInRange(s: State, r: State, p: Pack)
    requires TableOk(s.table, NAT_ENTRY_PER_BLOCK) && Flushing(s, r) && PackOk(r.cache, p) && |p.ents| > 0
    ensures p.id < |s.table.copy0|
  {
    assert p.ents[0] in Dirty(r.cache);
  }

  lemma NextPack(c: map<nat, Cached>, r: map<nat, Cached>, packs: seq<Pack>, k: nat)
    requires Remaining(c, packs, k) && k < |packs|
    requires Dirty(r) == Dirty(c) - Elems(packs[k].ents)
    ensures Remaining(r, packs, k + 1)
  {
    assert PackOk(c, packs[k]);
    forall i | k + 1 <= i < |packs| ensures PackOk(r, packs[i]) {
      assert PackOk(c, packs[i]);
    }
    forall n | n in Dirty(r) ensures exists i :: k + 1 <= i < |packs| && packs[i].id == BlockOf(n) {
      var i :| k <= i < |packs| && packs[i].id == BlockOf(n);
      assert i != k;
    }
  }

  lemma TakeStep(s: State, l: nat, nid: nat)
    requires Inv(s) && l < |s.free.lists| && nid in s.free.lists[l] && nid in s.free.root && s.free.root[nid] == New
    ensures ListIdx(s.free, nid) == l && Inv(s.(free := Take(s.free, nid)))
    ensures NatRuns.Does(s, NatRuns.AllocNid(nid), s.(free := Take(s.free, nid)))
  {
    assert ListOk(s.free, l);
    NatRuns.StepInv(s, NatRuns.AllocNid(nid), s.(free := Take(s.free, nid)));
  }

  // ---- collecting free nids ----

  /** A nid without an address in its block that has one in the journal, at slot `from` or later. */
  ghost predicate Suspect(s: State, n: nat, from: nat) {
    exists i :: from <= i < |s.journal| && s.journal[i].key == n
  }

  /** What is on offer is free in the view, except for suspects the journal pass has yet to reach. */
  ghost predicate Suspects(s: State, g: FreeNids, from: nat)
    requires TableOk(s.table, NAT_ENTRY_PER_BLOCK)
  {
    forall n :: n in g.root && g.root[n] == New && InRange(s.table, n) ==>
      View(s, n).blk == NULL_ADDR || (n !in s.cache && Suspect(s, n, from))
  }

  lemma CollectStart(s: State)
    requires Inv(s)
    ensures Collecting(s, s.free) && Suspects(s, s.free, 0)
  {
  }

  lemma AddCollecting(s: State, g: FreeNids, n: nat)
    requires Collecting(s, g) && InRange(s.table, n) && ListIdx(g, n) < |g.lists| && !LooksAllocated(s.cache, n)
    ensures Collecting(s, Add(g, n))
  {
    AddOk(g, n);
  }

  lemma CollectAdd(s: State, g: FreeNids, h: FreeNids, i: nat)
    requires NatOk(s) && i < |s.journal| && s.journal[i].val.blk == NULL_ADDR
    requires Collecting(s, g) && Suspects(s, g, i)
    requires var n := s.journal[i].key;
      ListIdx(g, n) < |g.lists| && (h == g || (n !in g.root && h == Add(g, n) && !LooksAllocated(s.cache, n)))
    ensures Collecting(s, h) && Suspects(s, h, i + 1)
  {
    var n := s.journal[i].key;
    if h != g {
      AddCollecting(s, g, n);
    }
    FindUnique(s.journal, i);
    forall m | m in h.root && h.root[m] == New && InRange(s.table, m)
      ensures View(s, m).blk == NULL_ADDR || (m !in s.cache && Suspect(s, m, i + 1))
    {
      if m != n { SuspectLater(s, g, m, i); }
    }
  }

  lemma SuspectLater(s: State, g: FreeNids, m: nat, i: nat)
    requires NatOk(s) && Suspects(s, g, i) && i < |s.journal| && s.journal[i].key != m
    requires m in g.root && g.root[m] == New && InRange(s.table, m)
    ensures View(s, m).blk == NULL_ADDR || (m !in s.cache && Suspect(s, m, i + 1))
  {
    if View(s, m).blk != NULL_ADDR {
      var k :| i <= k < |s.journal| && s.journal[k].key == m;
      assert k != i;
    }
  }

  lemma CollectRemove(s: State, g: FreeNids, i: nat)
    requires NatOk(s) && i < |s.journal| && Collecting(s, g) && Suspects(s, g, i)
    requires ListIdx(g, s.journal[i].key) < |g.lists|
    ensures Collecting(s, Withdraw(g, s.journal[i].key)) && Suspects(s, Withdraw(g, s.journal[i].key), i + 1)
  {
    var n := s.journal[i].key;
    WithdrawOk(g, n);
    var h := Withdraw(g, n);
    forall m | m in h.root && h.root[m] == New && InRange(s.table, m)
      ensures View(s, m).blk == NULL_ADDR || (m !in s.cache && Suspect(s, m, i + 1))
    {
      SuspectLater(s, g, m, i);
    }
  }

  lemma ScanAdd(s: State, g: FreeNids, h: FreeNids, n: nat)
    requires NatOk(s) && InRange(s.table, n) && Current(s.table, BlockOf(n))[n % NAT_ENTRY_PER_BLOCK].blk == NULL_ADDR
    requires Collecting(s, g) && Suspects(s, g, 0) && ListIdx(g, n) < |g.lists|
    requires h == g || (n !in g.root && h == Add(g, n) && !LooksAllocated(s.cache, n))
    ensures Collecting(s, h) && Suspects(s, h, 0)
  {
    if h != g {
      AddCollecting(s, g, n);
    }
    if n !in s.cache && Find(s.journal, n) >= 0 {
      assert Suspect(s, n, 0);
    }
  }

  /** The clean entries of a core. */
  ghost function Clean(c: map<nat, Cached>, trees: nat, t: nat): (r: set<nat>)
    requires trees > 0
  {
    set n | n in c && !c[n].dirty && TreeIdx(n, trees) == t
  }

  /** The entries of a core that have left the cache. */
  ghost function Gone(c: map<nat, Cached>, r: map<nat, Cached>, trees: nat, t: nat): (g: set<nat>)
    requires trees > 0
  {
    set n | n in c && n !in r && TreeIdx(n, trees) == t
  }

  /** The cores below `i` have no clean entry left or gave up their even share; the others gave up nothing yet. */
  ghost predicate Fair(c: map<nat, Cached>, r: map<nat, Cached>, trees: nat, even: nat, i: nat)
    requires trees > 0
  {
    && (forall t :: i <= t < trees ==> Gone(c, r, trees, t) == {})
    && (forall t :: 0 <= t < i && t < trees ==> Clean(r, trees, t) == {} || |Gone(c, r, trees, t)| >= even)
  }

  lemma GoneMore(c: map<nat, Cached>, r: map<nat, Cached>, q: map<nat, Cached>, trees: nat, n: nat)
    requires trees > 0 && n in c && n in r && q == r - {n}
    ensures forall t :: t != TreeIdx(n, trees) ==> Gone(c, q, trees, t) == Gone(c, r, trees, t)
    ensures |Gone(c, q, trees, TreeIdx(n, trees))| == |Gone(c, r, trees, TreeIdx(n, trees))| + 1
  {
    assert Gone(c, q, trees, TreeIdx(n, trees)) == Gone(c, r, trees, TreeIdx(n, trees)) + {n};
    forall t | t != TreeIdx(n, trees) ensures Gone(c, q, trees, t) == Gone(c, r, trees, t) {
    }
  }

  /** Evictions from core `i` are no matter to the others. */
  lemma CoresApart(c: map<nat, Cached>, r: map<nat, Cached>, q: map<nat, Cached>, trees: nat, i: nat)
    requires trees > 0 && q.Keys <= r.Keys <= c.Keys && forall n :: n in q ==> q[n] == r[n]
    requires forall t :: t != i ==> Gone(r, q, trees, t) == {}
    requires Gone(c, r, trees, i) == {}
    ensures forall t :: t != i ==> Gone(c, q, trees, t) == Gone(c, r, trees, t) && Clean(q, trees, t) == Clean(r, trees, t)
    ensures Gone(c, q, trees, i) == Gone(r, q, trees, i)
  {
    forall t | t != i ensures Gone(c, q, trees, t) == Gone(c, r, trees, t) && Clean(q, trees, t) == Clean(r, trees, t) {
      forall n | n in r && TreeIdx(n, trees) == t ensures n in q {
        assert n !in Gone(r, q, trees, t);
      }
    }
    forall n | n in Gone(c, q, trees, i) ensures n in Gone(r, q, trees, i) {
      assert n !in Gone(c, r, trees, i);
    }
  }

  /** The even share of `nr` evictions. */
  ghost function Even(nr: nat, trees: nat): (r: nat)
    requires trees > 0
  {
    ShareBound(nr, trees, nr / trees);
    nr / trees
  }

  /** Enough is left to give each of `parts` cores its even share. */
  ghost predicate Enough(left: nat, even: nat, parts: nat) { left >= even * parts }

  lemma EnoughAtFirst(nr: nat, trees: nat)
    requires trees > 0
    ensures Enough(nr, Even(nr, trees), trees)
  {
    assert nr == nr / trees * trees + nr % trees;
  }

  lemma MoreIsEnough(a: nat, b: nat, even: nat, parts: nat)
    requires a <= b && Enough(a, even, parts)
    ensures Enough(b, even, parts)
  {
  }

  /** A share is at least the even share, and leaves at least the even share for each of the others. */
  lemma ShareKept(left: nat, parts: nat, even: nat)
    requires parts > 0 && Enough(left, even, parts)
    ensures even <= left / parts <= left && Enough(left - left / parts, even, parts - 1)
  {
    var q := left / parts;
    assert left == q * parts + left % parts;
    assert (q + 1) * parts == q * parts + parts;
    assert q * parts == q * (parts - 1) + q;
    if q < even {
      MulMono(q + 1, even, parts);
    }
    MulMono(even, q, parts - 1);
  }

  function Share(left: nat, parts: nat): (r: nat)
    requires parts > 0
    ensures r <= left
  {
    ShareBound(left, parts, left / parts);
    left / parts
  }

  lemma ShareBound(left: nat, parts: nat, q: int)
    requires parts > 0 && q == left / parts
    ensures 0 <= q <= left
  {
    assert left == q * parts + left % parts;
    if q > left {
      Scale(1, parts, q);
    }
  }

  /** Some clean entries are gone from the cache and nothing else has changed. */
  ghost predicate Evicted(s: State, r: State) {
    && r == s.(cache := r.cache)
    && r.cache.Keys <= s.cache.Keys
    && (forall n :: n in r.cache ==> r.cache[n] == s.cache[n])
    && (forall n :: n in s.cache && n !in r.cache ==> !s.cache[n].dirty)
  }

  lemma EvictedTrans(s: State, r: State, q: State)
    requires Evicted(s, r) && Evicted(r, q)
    ensures Evicted(s, q)
  {
  }
}
