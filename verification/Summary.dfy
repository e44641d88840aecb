/**
 * Where a checkpoint pack keeps its summaries: the sequence in which they are
 * written, the addresses at which a mount looks for them, and the compacted
 * form that squeezes the three data summaries of the first log into one or
 * two pages.
 */
module Summary {
  import SegmentModel

  const PAGE: nat := 4096
  const SUM_JOURNAL_SIZE: nat := 507
  const SUMMARY_SIZE: nat := 7
  const SUM_FOOTER_SIZE: nat := 5
  const DATA_TYPES: nat := 3           // NR_CURSEG_DATA_TYPE
  const NODE_TYPES: nat := 3           // NR_CURSEG_NODE_TYPE
  const TYPES: nat := SegmentModel.TYPES

  /** Entries behind the two journals of the first page, and on a later page. */
  const FIRST_PAGE: nat := (PAGE - 2 * SUM_JOURNAL_SIZE - SUM_FOOTER_SIZE) / SUMMARY_SIZE
  const NEXT_PAGE: nat := (PAGE - SUM_FOOTER_SIZE) / SUMMARY_SIZE

  /** npages_for_summary_flush */
  function PagesFor(entries: nat): (n: nat)
    ensures 1 <= n <= 3
  {
    if entries <= FIRST_PAGE then 1
    else if entries - FIRST_PAGE <= NEXT_PAGE then 2
    else 3
  }

  // ---- addresses ----

  /** What a checkpoint writes: number of logs per type, payload and orphan blocks, node summaries or not. */
  datatype Config = Config(mlogs: nat, payload: nat, orphans: nat, nodes: bool, dataPages: nat)

  predicate ConfigOk(c: Config) {
    c.mlogs > 0 && 1 <= c.dataPages <= 3
  }

  predicate Compact(c: Config) { c.dataPages < DATA_TYPES }

  function StartSum(c: Config): (r: nat) { 1 + c.payload + c.orphans }

  /** cp_pack_total_block_count */
  function Total(c: Config): (r: nat)
    requires c.mlogs > 0
  {
    2 + c.payload + c.dataPages + c.orphans
    + if c.nodes then NODE_TYPES + TYPES * (c.mlogs - 1) else DATA_TYPES * (c.mlogs - 1)
  }

  /** sum_blk_addr, relative to the start of the pack */
  function SumBlkAddr(c: Config, base: nat, typ: nat): (r: int)
    requires c.mlogs > 0
  {
    Total(c) - (base + 1) + typ
  }

  /** Where read_normal_summaries looks for the summary of type `typ` of log `m`. */
  function ReadAddr(c: Config, m: nat, typ: nat): (r: int)
    requires m < c.mlogs && typ < TYPES
  {
    if typ < DATA_TYPES then
      if c.nodes then SumBlkAddr(c, TYPES * (c.mlogs - m), typ)
      else SumBlkAddr(c, DATA_TYPES * (c.mlogs - m), typ)
    else SumBlkAddr(c, NODE_TYPES + TYPES * (c.mlogs - m - 1), typ - DATA_TYPES)
  }

  /** The pack holds a full summary block for this type of this log. */
  predicate InPack(c: Config, m: nat, typ: nat) {
    && m < c.mlogs && typ < TYPES
    && (typ < DATA_TYPES ==> m > 0 || !Compact(c))
    && (typ >= DATA_TYPES ==> c.nodes)
  }

  datatype Item<B> = Cp | PayloadBlk(k: nat) | OrphanBlk(k: nat) | CompactPage(k: nat) | Full(m: nat, typ: nat, blk: B)

  /** Blocks of the pack before log `m` (from 1 on) starts. */
  function LogStart(c: Config, m: nat): (r: nat)
    requires m > 0
  {
    StartSum(c) + c.dataPages + (if c.nodes then NODE_TYPES else 0)
    + (m - 1) * (if c.nodes then TYPES else DATA_TYPES)
  }

  lemma LogStartNext(c: Config, m: nat)
    requires m > 0
    ensures LogStart(c, m + 1) == LogStart(c, m) + if c.nodes then TYPES else DATA_TYPES
  {
  }

  /** The read address of every full summary block, counted from the front. */
  lemma ReadAddrForward(c: Config, m: nat, typ: nat)
    requires ConfigOk(c) && InPack(c, m, typ)
    ensures ReadAddr(c, m, typ) ==
      if m > 0 then LogStart(c, m) + typ
      else StartSum(c) + (if typ < DATA_TYPES then typ else c.dataPages + typ - DATA_TYPES)
  {
  }

  /** No two summaries share an address, and none lies on a checkpoint block. */
  lemma AddressesApart(c: Config, m: nat, typ: nat, n: nat, other: nat)
    requires ConfigOk(c) && InPack(c, m, typ) && InPack(c, n, other)
    ensures 0 < ReadAddr(c, m, typ) < Total(c) - 1
    ensures ReadAddr(c, m, typ) == ReadAddr(c, n, other) ==> m == n && typ == other
    ensures Compact(c) ==> ReadAddr(c, m, typ) >= StartSum(c) + c.dataPages
  {
    ReadAddrForward(c, m, typ);
    ReadAddrForward(c, n, other);
    var w := if c.nodes then TYPES else DATA_TYPES;
    Spread(m, c.mlogs, w);
    Spread(m, n, w);
    Spread(n, m, w);
  }

  lemma Spread(a: nat, b: nat, w: nat)
    ensures a < b ==> a * w + w <= b * w
  {
    if a < b {
      assert (a + 1) * w <= b * w;
    }
  }

  // ---- whether a pack fits into its segment ----

  const SEGMENT: nat := SegmentModel.BLOCKS       // a pack must not reach the next one
  const ORPHANS_PER_BLOCK: nat := 1020

  /** GET_ORPHAN_BLOCKS */
  function OrphanBlocks(n: nat): (r: nat) { (n + ORPHANS_PER_BLOCK - 1) / ORPHANS_PER_BLOCK }

  /** max_orphans, in 32 bits: it leaves room for the summaries of one log of each type */
  function MaxOrphans(payload: nat): (r: nat) {
    (SEGMENT - 2 - TYPES - payload) * ORPHANS_PER_BLOCK % 0x1_0000_0000
  }

  /** The pack of a checkpoint with `n` orphans. */
  function PackFor(mlogs: nat, payload: nat, n: nat, nodes: bool, dataPages: nat): (c: Config) {
    Config(mlogs, payload, OrphanBlocks(n), nodes, dataPages)
  }

  predicate PackFits(c: Config)
    requires c.mlogs > 0
  {
    Total(c) <= SEGMENT
  }

  /** How many orphans one pack has room for. */
  lemma OrphanRoom(mlogs: nat, payload: nat, n: nat, nodes: bool, dataPages: nat)
    requires mlogs > 0
    ensures var others := if nodes then NODE_TYPES + TYPES * (mlogs - 1) else DATA_TYPES * (mlogs - 1);
      PackFits(PackFor(mlogs, payload, n, nodes, dataPages)) <==>
        n <= (SEGMENT - 2 - payload - dataPages - others) * ORPHANS_PER_BLOCK && 2 + payload + dataPages + others <= SEGMENT
  {
    var others := if nodes then NODE_TYPES + TYPES * (mlogs - 1) else DATA_TYPES * (mlogs - 1);
    var room := SEGMENT - 2 - payload - dataPages - others;
    assert OrphanBlocks(n) <= room <==> n <= room * ORPHANS_PER_BLOCK && room >= 0;
  }

  /** Every pack with node summaries that the orphan limit lets through fits exactly when there is one log of each type. */
  lemma AllPacksFit(mlogs: nat, payload: nat)
    requires mlogs > 0
    ensures (forall n: nat, pages: nat :: n <= MaxOrphans(payload) && 1 <= pages <= 3 ==>
              PackFits(PackFor(mlogs, payload, n, true, pages)))
       <==> mlogs == 1 && payload <= SEGMENT - 2 - TYPES
  {
    forall n: nat, pages: nat ensures PackFits(PackFor(mlogs, payload, n, true, pages)) <==>
      n <= (SEGMENT - 2 - payload - pages - NODE_TYPES - TYPES * (mlogs - 1)) * ORPHANS_PER_BLOCK
      && 2 + payload + pages + NODE_TYPES + TYPES * (mlogs - 1) <= SEGMENT
    {
      OrphanRoom(mlogs, payload, n, true, pages);
    }
    var worst := PackFits(PackFor(mlogs, payload, MaxOrphans(payload), true, 3));
  }

  /** Without node summaries there may be two. */
  lemma NodelessPacksFit(mlogs: nat, payload: nat)
    requires mlogs > 0
    ensures (forall n: nat, pages: nat :: n <= MaxOrphans(payload) && 1 <= pages <= 3 ==>
              PackFits(PackFor(mlogs, payload, n, false, pages)))
       <==> mlogs <= 2 && payload <= SEGMENT - 2 - TYPES
  {
    forall n: nat, pages: nat ensures PackFits(PackFor(mlogs, payload, n, false, pages)) <==>
      n <= (SEGMENT - 2 - payload - pages - DATA_TYPES * (mlogs - 1)) * ORPHANS_PER_BLOCK
      && 2 + payload + pages + DATA_TYPES * (mlogs - 1) <= SEGMENT
    {
      OrphanRoom(mlogs, payload, n, false, pages);
    }
    var worst := PackFits(PackFor(mlogs, payload, MaxOrphans(payload), false, 3));
  }

  // ---- writing the pack ----

  /** Summary blocks of one log, types `from` to `from + count`. */
  method WriteNormal<B>(pack: seq<Item<B>>, sums: seq<B>, m: nat, from: nat, count: nat) returns (r: seq<Item<B>>)
    requires |sums| == TYPES && from + count <= TYPES
    ensures |r| == |pack| + count && pack <= r
    ensures forall t :: from <= t < from + count ==> r[|pack| + t - from] == Full(m, t, sums[t])
  {
    r := pack;
    for t := from to from + count
      invariant |r| == |pack| + t - from && pack <= r
      invariant forall u :: from <= u < t ==> r[|pack| + u - from] == Full(m, u, sums[u])
    {
      r := r + [Full(m, t, sums[t])];
    }
  }

  /** Every full summary block of the logs below `m` is where a mount looks for it. */
  ghost predicate Placed<B>(c: Config, pack: seq<Item<B>>, sums: seq<seq<B>>, m: nat)
    requires ConfigOk(c) && |sums| == c.mlogs && forall i :: 0 <= i < |sums| ==> |sums[i]| == TYPES
  {
    forall n: nat, t: nat :: InPack(c, n, t) && n < m ==> PlacedAt(c, pack, sums, n, t)
  }

  ghost predicate PlacedAt<B>(c: Config, pack: seq<Item<B>>, sums: seq<seq<B>>, n: nat, t: nat)
    requires ConfigOk(c) && n < |sums| == c.mlogs && t < |sums[n]| == TYPES
  {
    0 <= ReadAddr(c, n, t) < |pack| && pack[ReadAddr(c, n, t)] == Full(n, t, sums[n][t])
  }

  /** The part of the pack up to and including the summaries of log 0. */
  method WriteFront<B>(c: Config, sums: seq<seq<B>>) returns (pack: seq<Item<B>>)
    requires ConfigOk(c) && |sums| == c.mlogs && forall i :: 0 <= i < |sums| ==> |sums[i]| == TYPES
    ensures |pack| == LogStart(c, 1) && pack[0] == Cp
    ensures Placed(c, pack, sums, 1)
    ensures Compact(c) ==> forall k :: 0 <= k < c.dataPages ==> pack[StartSum(c) + k] == CompactPage(k)
  {
    pack := [Cp];
    pack := pack + seq(c.payload, (k: nat) => PayloadBlk(k));
    pack := pack + seq(c.orphans, (k: nat) => OrphanBlk(k));
    assert |pack| == StartSum(c);
    if Compact(c) {
      pack := pack + seq(c.dataPages, (k: nat) => CompactPage(k));
    } else {
      pack := WriteNormal(pack, sums[0], 0, 0, DATA_TYPES);
    }
    ghost var data := pack;
    assert |data| == StartSum(c) + c.dataPages;
    assert !Compact(c) ==> forall t: nat :: t < DATA_TYPES ==> data[StartSum(c) + t] == Full(0, t, sums[0][t]);
    assert Compact(c) ==> forall k :: 0 <= k < c.dataPages ==> data[StartSum(c) + k] == CompactPage(k);
    if c.nodes {
      pack := WriteNormal(pack, sums[0], 0, DATA_TYPES, NODE_TYPES);
    }
    assert forall i :: 0 <= i < |data| ==> pack[i] == data[i];
    forall n: nat, t: nat | InPack(c, n, t) && n < 1 ensures PlacedAt(c, pack, sums, n, t) {
      ReadAddrForward(c, n, t);
    }
  }

  /** The summaries of log `m`, behind those of the logs before it. */
  method WriteLog<B>(c: Config, pack: seq<Item<B>>, sums: seq<seq<B>>, m: nat) returns (r: seq<Item<B>>)
    requires ConfigOk(c) && |sums| == c.mlogs && forall i :: 0 <= i < |sums| ==> |sums[i]| == TYPES
    requires 0 < m < c.mlogs && |pack| == LogStart(c, m) && Placed(c, pack, sums, m)
    ensures |r| == LogStart(c, m + 1) && pack <= r && Placed(c, r, sums, m + 1)
  {
    r := WriteNormal(pack, sums[m], m, 0, DATA_TYPES);
    if c.nodes {
      r := WriteNormal(r, sums[m], m, DATA_TYPES, NODE_TYPES);
    }
    LogStartNext(c, m);
    forall n: nat, t: nat | InPack(c, n, t) && n < m + 1 ensures PlacedAt(c, r, sums, n, t) {
      if n < m {
        assert PlacedAt(c, pack, sums, n, t);
      } else {
        ReadAddrForward(c, n, t);
      }
    }
  }

  /**
   * The block writes of do_checkpoint.  The pack has exactly the announced
   * number of blocks, begins and ends with the checkpoint block, and every
   * summary block lies where a mount will look for it.
   */
  method WritePack<B>(c: Config, sums: seq<seq<B>>) returns (pack: seq<Item<B>>)
    requires ConfigOk(c) && |sums| == c.mlogs && forall i :: 0 <= i < |sums| ==> |sums[i]| == TYPES
    ensures |pack| == Total(c) && pack[0] == Cp && pack[Total(c) - 1] == Cp
    ensures Placed(c, pack, sums, c.mlogs)
    ensures Compact(c) ==> forall k :: 0 <= k < c.dataPages ==> pack[StartSum(c) + k] == CompactPage(k)
  {
    pack := WriteFront(c, sums);
    ghost var front := pack;
    for m := 1 to c.mlogs
      invariant |pack| == LogStart(c, m) && front <= pack && Placed(c, pack, sums, m)
    {
      pack := WriteLog(c, pack, sums, m);
    }
    ghost var body := pack;
    pack := pack + [Cp];
    TotalForward(c);
    forall n: nat, t: nat | InPack(c, n, t) && n < c.mlogs ensures PlacedAt(c, pack, sums, n, t) {
      assert PlacedAt(c, body, sums, n, t);
    }
  }

  lemma TotalForward(c: Config)
    requires ConfigOk(c)
    ensures Total(c) == LogStart(c, c.mlogs) + 1
  {
  }

  // ---- compacted summaries ----

  /** A compacted page: the journals on the first one, and entries by byte offset. */
  datatype Page<J, E> = Page(journals: seq<J>, cells: map<nat, E>)

  /** Page and byte offset of entry `k`. */
  function PageOf(k: nat): (r: nat) { if k < FIRST_PAGE then 0 else 1 }

  function OffsetOf(k: nat): (r: nat) {
    if k < FIRST_PAGE then 2 * SUM_JOURNAL_SIZE + k * SUMMARY_SIZE else (k - FIRST_PAGE) * SUMMARY_SIZE
  }

  ghost predicate Holds<J, E>(pages: seq<Page<J, E>>, flat: seq<E>) {
    forall k :: 0 <= k < |flat| ==> CellIs(pages, k, flat[k])
  }

  ghost predicate CellIs<J, E>(pages: seq<Page<J, E>>, k: nat, e: E) {
    PageOf(k) < |pages| && OffsetOf(k) in pages[PageOf(k)].cells && pages[PageOf(k)].cells[OffsetOf(k)] == e
  }

  /** After `k` entries: as many pages as needed, the last one open unless it is exactly full. */
  ghost predicate WriteState<J, E>(pages: seq<Page<J, E>>, open: bool, size: nat, k: nat) {
    && |pages| == (if k <= FIRST_PAGE then 1 else 2)
    && (open <==> k != FIRST_PAGE && k != FIRST_PAGE + NEXT_PAGE)
    && (open ==> size == OffsetOf(k))
  }

  /** One round of the innermost loop of write_compacted_summaries. */
  method WriteEntry<J, E>(pages: seq<Page<J, E>>, open: bool, size: nat, e: E, ghost flat: seq<E>)
    returns (pages': seq<Page<J, E>>, open': bool, size': nat)
    requires WriteState(pages, open, size, |flat|) && Holds(pages, flat) && |flat| < FIRST_PAGE + NEXT_PAGE
    ensures WriteState(pages', open', size', |flat| + 1) && Holds(pages', flat + [e])
    ensures pages'[0].journals == pages[0].journals
  {
    pages', size' := pages, size;
    if !open {
      pages', size' := pages + [Page([], map[])], 0;
    }
    ghost var before := pages';
    var last := |pages'| - 1;
    pages' := pages'[last := pages'[last].(cells := pages'[last].cells[size' := e])];
    forall k | 0 <= k < |flat| + 1 ensures CellIs(pages', k, (flat + [e])[k]) {
      if k < |flat| {
        assert CellIs(pages, k, flat[k]);
      }
    }
    size' := size' + SUMMARY_SIZE;
    open' := size' + SUMMARY_SIZE <= PAGE - SUM_FOOTER_SIZE;
  }

  /** The entries a log contributes: all of its segment in SSR mode, else those below its next offset. */
  ghost function Flatten<E>(sums: seq<seq<E>>, counts: seq<nat>): (r: seq<E>)
    requires |sums| == |counts| && forall i :: 0 <= i < |counts| ==> counts[i] <= |sums[i]|
  {
    if sums == [] then []
    else Flatten(sums[..|sums| - 1], counts[..|sums| - 1]) + sums[|sums| - 1][..counts[|sums| - 1]]
  }

  /** write_compacted_summaries: exactly the announced pages, each entry in its place. */
  method WriteCompacted<J, E>(natJ: J, sitJ: J, sums: seq<seq<E>>, counts: seq<nat>) returns (pages: seq<Page<J, E>>)
    requires |sums| == |counts| && forall i :: 0 <= i < |counts| ==> counts[i] <= |sums[i]|
    requires PagesFor(|Flatten(sums, counts)|) < DATA_TYPES
    ensures |pages| == PagesFor(|Flatten(sums, counts)|)
    ensures pages[0].journals == [natJ, sitJ] && Holds(pages, Flatten(sums, counts))
  {
    pages := [Page([natJ, sitJ], map[])];
    var open := true;
    var size: nat := 2 * SUM_JOURNAL_SIZE;
    ghost var flat: seq<E> := [];
    for i := 0 to |sums|
      invariant flat == Flatten(sums[..i], counts[..i])
      invariant WriteState(pages, open, size, |flat|) && Holds(pages, flat) && pages[0].journals == [natJ, sitJ]
    {
      ghost var before := flat;
      FlattenPrefix(sums, counts, i + 1);
      FlattenStep(sums, counts, i);
      assert sums[i][..0] == [];
      for j := 0 to counts[i]
        invariant flat == before + sums[i][..j]
        invariant WriteState(pages, open, size, |flat|) && Holds(pages, flat) && pages[0].journals == [natJ, sitJ]
      {
        assert sums[i][..j + 1] == sums[i][..j] + [sums[i][j]];
        pages, open, size := WriteEntry(pages, open, size, sums[i][j], flat);
        flat := flat + [sums[i][j]];
      }
    }
    assert sums[..|sums|] == sums && counts[..|sums|] == counts;
  }

  lemma FlattenStep<E>(sums: seq<seq<E>>, counts: seq<nat>, i: nat)
    requires |sums| == |counts| && i < |sums| && forall k :: 0 <= k < |counts| ==> counts[k] <= |sums[k]|
    ensures Flatten(sums[..i + 1], counts[..i + 1]) == Flatten(sums[..i], counts[..i]) + sums[i][..counts[i]]
  {
    assert sums[..i + 1][..i] == sums[..i] && counts[..i + 1][..i] == counts[..i];
  }

  lemma {:induction false} FlattenPrefix<E>(sums: seq<seq<E>>, counts: seq<nat>, i: nat)
    requires |sums| == |counts| && i <= |sums| && forall k :: 0 <= k < |counts| ==> counts[k] <= |sums[k]|
    ensures |Flatten(sums[..i], counts[..i])| <= |Flatten(sums, counts)|
    decreases |sums| - i
  {
    if i == |sums| {
      assert sums[..i] == sums && counts[..i] == counts;
    } else {
      FlattenStep(sums, counts, i);
      FlattenPrefix(sums, counts, i + 1);
    }
  }

  /**
   * read_compacted_summaries.  The reader moves to the next page as soon as no
   * further entry fits, so it may fetch one page it never uses.
   */
  method ReadCompacted<J, E>(pages: seq<Page<J, E>>, counts: seq<nat>, ghost sums: seq<seq<E>>)
    returns (journals: seq<J>, out: seq<seq<E>>)
    requires |sums| == |counts| && forall i :: 0 <= i < |counts| ==> counts[i] <= |sums[i]|
    requires PagesFor(|Flatten(sums, counts)|) < DATA_TYPES
    requires |pages| > 0 && Holds(pages, Flatten(sums, counts))
    ensures journals == pages[0].journals
    ensures |out| == |sums| && forall i :: 0 <= i < |sums| ==> out[i] == sums[i][..counts[i]]
  {
    journals := pages[0].journals;
    out := [];
    var page: nat := 0;
    var offset: nat := 2 * SUM_JOURNAL_SIZE;
    ghost var k: nat := 0;
    for i := 0 to |counts|
      invariant k == |Flatten(sums[..i], counts[..i])| && ReadState(page, offset, k)
      invariant |out| == i && forall n :: 0 <= n < i ==> out[n] == sums[n][..counts[n]]
    {
      var got: seq<E>;
      got, page, offset := ReadNext(pages, page, offset, counts, i, sums, k);
      FlattenStep(sums, counts, i);
      k := k + counts[i];
      out := out + [got];
    }
  }

  /** The entries of log `i`, at their place among those of all logs. */
  method ReadNext<J, E>(pages: seq<Page<J, E>>, page: nat, offset: nat, counts: seq<nat>, i: nat, ghost sums: seq<seq<E>>, ghost k: nat)
    returns (got: seq<E>, page': nat, offset': nat)
    requires |sums| == |counts| && i < |counts| && forall j :: 0 <= j < |counts| ==> counts[j] <= |sums[j]|
    requires PagesFor(|Flatten(sums, counts)|) < DATA_TYPES && Holds(pages, Flatten(sums, counts))
    requires k == |Flatten(sums[..i], counts[..i])| && ReadState(page, offset, k)
    ensures got == sums[i][..counts[i]] && ReadState(page', offset', k + counts[i])
  {
    FlattenStep(sums, counts, i);
    FlattenPrefix(sums, counts, i + 1);
    got, page', offset' := ReadLog(pages, page, offset, counts[i], Flatten(sums, counts), k);
    forall j | 0 <= j < counts[i] ensures got[j] == sums[i][j] {
      FlattenAt(sums, counts, i, j);
    }
  }

  /** The entries of one log, in the reader's order. */
  method ReadLog<J, E>(pages: seq<Page<J, E>>, page: nat, offset: nat, count: nat, ghost flat: seq<E>, ghost k: nat)
    returns (got: seq<E>, page': nat, offset': nat)
    requires Holds(pages, flat) && k + count <= |flat| <= FIRST_PAGE + NEXT_PAGE && ReadState(page, offset, k)
    ensures got == flat[k..k + count] && ReadState(page', offset', k + count)
  {
    got, page', offset' := [], page, offset;
    for j := 0 to count
      invariant ReadState(page', offset', k + j) && got == flat[k..k + j]
    {
      assert CellIs(pages, k + j, flat[k + j]);
      got := got + [pages[page'].cells[offset']];
      page', offset' := Advance(page', offset', k + j);
    }
  }

  /** Position of the reader before entry `k`. */
  ghost predicate ReadState(page: nat, offset: nat, k: nat) {
    k < FIRST_PAGE + NEXT_PAGE ==> page == PageOf(k) && offset == OffsetOf(k)
  }

  method Advance(page: nat, offset: nat, ghost k: nat) returns (page': nat, offset': nat)
    requires ReadState(page, offset, k) && k < FIRST_PAGE + NEXT_PAGE
    ensures ReadState(page', offset', k + 1)
  {
    page', offset' := page, offset + SUMMARY_SIZE;
    if !(offset' + SUMMARY_SIZE <= PAGE - SUM_FOOTER_SIZE) {
      page', offset' := page + 1, 0;
    }
  }

  lemma {:induction false} FlattenAt<E>(sums: seq<seq<E>>, counts: seq<nat>, i: nat, j: nat)
    requires |sums| == |counts| && i < |sums| && forall k :: 0 <= k < |counts| ==> counts[k] <= |sums[k]|
    requires j < counts[i]
    ensures |Flatten(sums[..i], counts[..i])| + j < |Flatten(sums, counts)|
    ensures Flatten(sums, counts)[|Flatten(sums[..i], counts[..i])| + j] == sums[i][j]
  {
    FlattenStep(sums, counts, i);
    FlattenKeeps(sums, counts, i + 1);
  }

  lemma {:induction false} FlattenKeeps<E>(sums: seq<seq<E>>, counts: seq<nat>, i: nat)
    requires |sums| == |counts| && i <= |sums| && forall k :: 0 <= k < |counts| ==> counts[k] <= |sums[k]|
    ensures Flatten(sums[..i], counts[..i]) <= Flatten(sums, counts)
    decreases |sums| - i
  {
    if i == |sums| {
      assert sums[..i] == sums && counts[..i] == counts;
    } else {
      FlattenStep(sums, counts, i);
      FlattenKeeps(sums, counts, i + 1);
    }
  }

  /** Compacted summaries read back entry for entry, journals included. */
  method CompactRoundTrip<J, E>(natJ: J, sitJ: J, sums: seq<seq<E>>, counts: seq<nat>)
    returns (journals: seq<J>, out: seq<seq<E>>)
    requires |sums| == |counts| && forall i :: 0 <= i < |counts| ==> counts[i] <= |sums[i]|
    requires PagesFor(|Flatten(sums, counts)|) < DATA_TYPES
    ensures journals == [natJ, sitJ]
    ensures |out| == |sums| && forall i :: 0 <= i < |sums| ==> out[i] == sums[i][..counts[i]]
  {
    var pages := WriteCompacted(natJ, sitJ, sums, counts);
    journals, out := ReadCompacted(pages, counts, sums);
  }
}
