/**
 * The node address table: what a nid means at any moment, and the steps that
 * change it.
 *
 * An address is looked up in the cache, then in the NAT journal of the hot
 * data summary, then in the current copy of its NAT block.
 */
module Nat {
  import opened Shadow
  import opened Nids

  const NULL_ADDR: nat := 0
  const NEW_ADDR: nat := 0xFFFF_FFFF
  const NAT_ENTRY_PER_BLOCK: nat := 455
  const NAT_JOURNAL_ENTRIES: nat := 38

  datatype NatVal = NatVal(ino: nat, blk: nat, version: nat)

  /** A cached entry with its IS_DIRTY and IS_CHECKPOINTED flags. */
  datatype Cached = Cached(val: NatVal, dirty: bool, ckpt: bool)

  datatype State = State(cache: map<nat, Cached>, journal: Journal<NatVal>, table: Table<NatVal>, free: FreeNids)

  function BlockOf(n: nat): (r: nat) { n / NAT_ENTRY_PER_BLOCK }

  ghost predicate InRange(t: Table<NatVal>, n: nat) { BlockOf(n) < |t.copy0| }

  /** What journal and NAT blocks say, without the cache. */
  function Persist(t: Table<NatVal>, j: Journal<NatVal>, n: nat): (r: NatVal)
    requires TableOk(t, NAT_ENTRY_PER_BLOCK) && InRange(t, n)
  {
    Lookup(t, j, NAT_ENTRY_PER_BLOCK, n)
  }

  /** The meaning of a nid: cache over journal over current block. */
  function View(s: State, n: nat): (r: NatVal)
    requires TableOk(s.table, NAT_ENTRY_PER_BLOCK) && InRange(s.table, n)
  {
    if n in s.cache then s.cache[n].val else Persist(s.table, s.journal, n)
  }

  // ---- the invariant ----

  ghost predicate JournalOk(t: Table<NatVal>, j: Journal<NatVal>) {
    && Distinct(j) && |j| <= NAT_JOURNAL_ENTRIES
    && forall i :: 0 <= i < |j| ==> InRange(t, j[i].key)
  }

  /** A clean cached entry repeats what is persistent and counts as checkpointed. */
  ghost predicate CleanOk(c: map<nat, Cached>, t: Table<NatVal>, j: Journal<NatVal>)
    requires TableOk(t, NAT_ENTRY_PER_BLOCK)
  {
    forall n :: n in c ==>
      && InRange(t, n)
      && (!c[n].dirty ==> c[n].ckpt && c[n].val == Persist(t, j, n))
  }

  /** The placeholder address never reaches journal or disk. */
  ghost predicate NoPlaceholder(t: Table<NatVal>, j: Journal<NatVal>)
    requires TableOk(t, NAT_ENTRY_PER_BLOCK)
  {
    forall n :: InRange(t, n) ==> Persist(t, j, n).blk != NEW_ADDR
  }

  ghost predicate NatOk(s: State) {
    && TableOk(s.table, NAT_ENTRY_PER_BLOCK)
    && JournalOk(s.table, s.journal)
    && CleanOk(s.cache, s.table, s.journal)
    && NoPlaceholder(s.table, s.journal)
  }

  /** Every nid of the table has a list. */
  ghost predicate Covered(t: Table<NatVal>, f: FreeNids) {
    f.chunk > 0 && forall n :: InRange(t, n) ==> ListIdx(f, n) < |f.lists|
  }

  ghost predicate FreeOk(s: State) {
    && NidsOk(s.free)
    && Covered(s.table, s.free)
    && (forall n :: n in s.free.root ==> InRange(s.table, n))
  }

  /** No nid is on offer while the view maps it to a block. */
  ghost predicate OfferOk(s: State)
    requires TableOk(s.table, NAT_ENTRY_PER_BLOCK)
  {
    forall n :: n in s.free.root && s.free.root[n] == New && InRange(s.table, n) ==> View(s, n).blk == NULL_ADDR
  }

  ghost predicate Inv(s: State) {
    NatOk(s) && FreeOk(s) && OfferOk(s)
  }

  // ---- steps ----

  /** get_node_info: an entry that was not cached is cached clean. */
  function Fetch(s: State, n: nat): (r: State)
    requires TableOk(s.table, NAT_ENTRY_PER_BLOCK) && InRange(s.table, n)
  {
    if n in s.cache then s
    else s.(cache := s.cache[n := Cached(Persist(s.table, s.journal, n), false, true)])
  }

  /** try_to_free_nats on one clean entry. */
  function Evict(s: State, n: nat): (r: State) {
    s.(cache := s.cache - {n})
  }

  /** The address changes set_node_addr does not refuse. */
  predicate AddrChangeOk(prev: nat, next: nat) {
    && !(prev == NULL_ADDR && next == NULL_ADDR)
    && !(next == NEW_ADDR && prev != NULL_ADDR)
  }

  /** The value set_node_addr leaves: a new owner on allocation, a new version when a written node goes. */
  function Revalue(prev: NatVal, ino: nat, next: nat): (r: NatVal) {
    NatVal(ino, next, if prev.blk != NEW_ADDR && next == NULL_ADDR then (prev.version + 1) % 256 else prev.version)
  }

  function SetAddr(s: State, n: nat, ino: nat, next: nat): (r: State)
    requires TableOk(s.table, NAT_ENTRY_PER_BLOCK) && InRange(s.table, n)
  {
    var v := Revalue(View(s, n), ino, next);
    var was := n !in s.cache || s.cache[n].ckpt;
    s.(cache := s.cache[n := Cached(v, true, was && next != NEW_ADDR && next != NULL_ADDR)])
  }

  /** `g` knows all `f` knows, plus some nids on offer that were free in `s`. */
  ghost predicate Grown(s: State, f: FreeNids, g: FreeNids)
    requires TableOk(s.table, NAT_ENTRY_PER_BLOCK)
  {
    && NidsOk(g) && g.chunk == f.chunk && |g.lists| == |f.lists|
    && (forall n :: n in f.root ==> n in g.root && g.root[n] == f.root[n])
    && (forall n :: n in g.root && n !in f.root ==>
          g.root[n] == New && InRange(s.table, n) && View(s, n).blk == NULL_ADDR)
  }

  /** No entry waits for a flush with only a placeholder address. */
  ghost predicate NoDirtyPlaceholder(s: State) {
    forall n :: n in s.cache && s.cache[n].dirty ==> s.cache[n].val.blk != NEW_ADDR
  }

  /**
   * flush_nat_entries_per_core as its callers see it.  The view is the same
   * for every nid; journal and blocks alone now give it; nothing is dirty;
   * blocks were turned over at most once; the only new offers are free nids.
   */
  ghost predicate FlushStep(s: State, r: State)
    requires TableOk(s.table, NAT_ENTRY_PER_BLOCK)
  {
    && TableOk(r.table, NAT_ENTRY_PER_BLOCK) && JournalOk(r.table, r.journal)
    && Shadowed(s.table, r.table)
    && (forall n :: InRange(s.table, n) ==> View(r, n) == View(s, n) && Persist(r.table, r.journal, n) == View(s, n))
    && s.cache.Keys <= r.cache.Keys
    && (forall n :: n in r.cache ==> InRange(r.table, n) && !r.cache[n].dirty && r.cache[n].ckpt)
    && Grown(s, s.free, r.free)
  }

  /** Whether add_free_nid refuses a nid while free nids are being collected. */
  predicate LooksAllocated(c: map<nat, Cached>, n: nat) {
    n in c && (!c[n].ckpt || c[n].val.blk != NULL_ADDR)
  }

  /**
   * Collecting free nids from NAT blocks and journal: handed-out nids stay as
   * they are, and whatever is newly on offer is free in the view and not
   * waiting for a checkpoint.
   */
  ghost predicate BuildStep(s: State, g: FreeNids)
    requires TableOk(s.table, NAT_ENTRY_PER_BLOCK)
  {
    && Collecting(s, g)
    && forall n :: n in g.root && g.root[n] == New && InRange(s.table, n) ==> View(s, n).blk == NULL_ADDR
  }

  /** The same before the journal has been consulted: a nid on offer may still have a journal address. */
  ghost predicate Collecting(s: State, g: FreeNids) {
    && NidsOk(g) && g.chunk == s.free.chunk && |g.lists| == |s.free.lists|
    && (forall n :: n in s.free.root && s.free.root[n] == Alloc ==> n in g.root && g.root[n] == Alloc)
    && (forall n :: n in g.root && g.root[n] == Alloc ==> n in s.free.root && s.free.root[n] == Alloc)
    && (forall n :: n in g.root ==> InRange(s.table, n))
    && (forall n :: n in g.root && g.root[n] == New ==> n in s.free.root || !LooksAllocated(s.cache, n))
  }

  /** A state in the middle of a flush that began in `s`. */
  ghost predicate Flushing(s: State, r: State)
    requires TableOk(s.table, NAT_ENTRY_PER_BLOCK)
  {
    && TableOk(r.table, NAT_ENTRY_PER_BLOCK) && JournalOk(r.table, r.journal)
    && Shadowed(s.table, r.table)
    && (forall n :: InRange(s.table, n) ==> View(r, n) == View(s, n))
    && CleanOk(r.cache, r.table, r.journal)
    && s.cache.Keys <= r.cache.Keys
    && NoDirtyPlaceholder(r)
    && Grown(s, s.free, r.free)
  }

  lemma FlushBegin(s: State)
    requires Inv(s) && NoDirtyPlaceholder(s)
    ensures Flushing(s, s)
  {
    ShadowedRefl(s.table);
  }

  /** When nothing is dirty any more the flush is complete. */
  lemma FlushEnd(s: State, r: State)
    requires NatOk(s) && Flushing(s, r)
    requires forall n :: n in r.cache ==> !r.cache[n].dirty
    ensures FlushStep(s, r)
  {
    forall n | InRange(s.table, n) ensures Persist(r.table, r.journal, n) == View(s, n) {
      assert View(r, n) == View(s, n);
    }
  }

  lemma GrownAdd(s: State, f: FreeNids, g: FreeNids, n: nat)
    requires TableOk(s.table, NAT_ENTRY_PER_BLOCK) && Grown(s, f, g)
    requires InRange(s.table, n) && View(s, n).blk == NULL_ADDR && ListIdx(g, n) < |g.lists|
    ensures Grown(s, f, Add(g, n))
  {
    AddOk(g, n);
  }

  // ---- what each step keeps ----

  lemma FetchInv(s: State, n: nat)
    requires Inv(s) && InRange(s.table, n)
    ensures Inv(Fetch(s, n))
  {
  }

  lemma EvictInv(s: State, n: nat)
    requires Inv(s) && n in s.cache && !s.cache[n].dirty
    ensures Inv(Evict(s, n))
  {
  }

  /** A nid that is free is only given an address by the caller it was handed to. */
  lemma SetAddrInv(s: State, n: nat, ino: nat, next: nat)
    requires Inv(s) && InRange(s.table, n) && AddrChangeOk(View(s, n).blk, next)
    requires View(s, n).blk == NULL_ADDR ==> n in s.free.root && s.free.root[n] == Alloc
    ensures Inv(SetAddr(s, n, ino, next))
  {
    var r := SetAddr(s, n, ino, next);
    assert r.table == s.table && r.journal == s.journal && r.free == s.free;
    forall m | m in r.free.root && r.free.root[m] == New && InRange(r.table, m)
      ensures View(r, m).blk == NULL_ADDR
    {
      assert View(s, m).blk == NULL_ADDR;
    }
  }

  lemma FlushInv(s: State, r: State)
    requires Inv(s) && NoDirtyPlaceholder(s) && FlushStep(s, r)
    ensures Inv(r)
  {
    forall n | InRange(r.table, n) ensures Persist(r.table, r.journal, n).blk != NEW_ADDR {
      assert Persist(r.table, r.journal, n) == View(s, n);
    }
    forall n | n in r.cache && !r.cache[n].dirty ensures r.cache[n].val == Persist(r.table, r.journal, n) {
      assert View(r, n) == View(s, n);
    }
    forall n | n in r.free.root && r.free.root[n] == New && InRange(r.table, n)
      ensures View(r, n).blk == NULL_ADDR
    {
      assert View(r, n) == View(s, n);
    }
  }

  lemma BuildInv(s: State, g: FreeNids)
    requires Inv(s) && BuildStep(s, g)
    ensures Inv(s.(free := g))
  {
    var r := s.(free := g);
    forall n | n in g.root && g.root[n] == New && InRange(s.table, n) ensures View(r, n).blk == NULL_ADDR {
      assert View(r, n) == View(s, n);
    }
  }
}
