/**
 * The free-nid lists of the node manager, one list per core.
 *
 * A nid belongs to the list of its number range.  `root` is the union of the
 * per-list radix trees: it holds every nid a list knows, either on offer
 * (`New`) or handed out and not yet confirmed (`Alloc`).
 */
module Nids {

  datatype NidState = New | Alloc

  datatype FreeNids = FreeNids(chunk: nat, root: map<nat, NidState>, lists: seq<seq<nat>>, fcnt: seq<int>)

  function ListIdx(f: FreeNids, nid: nat): (r: nat)
    requires f.chunk > 0
  {
    nid / f.chunk
  }

  /** The nids of list `l` that are on offer. */
  ghost function OnOffer(f: FreeNids, l: nat): (r: set<nat>)
    requires f.chunk > 0
  {
    set n | n in f.root && f.root[n] == New && ListIdx(f, n) == l
  }

  /** All nids on offer. */
  ghost function Offers(f: FreeNids): (r: set<nat>) {
    set n | n in f.root && f.root[n] == New
  }

  ghost predicate DistinctNids(s: seq<nat>) {
    forall i, k :: 0 <= i < k < |s| ==> s[i] != s[k]
  }

  ghost predicate Shape(f: FreeNids) {
    f.chunk > 0 && |f.lists| == |f.fcnt|
  }

  /** Every known nid is in the list of its range; nid 0 is never known. */
  ghost predicate Listed(f: FreeNids)
    requires Shape(f)
  {
    forall n :: n in f.root ==> n != 0 && ListIdx(f, n) < |f.lists| && n in f.lists[ListIdx(f, n)]
  }

  /** A list holds known nids of its range only, each once. */
  ghost predicate ListOk(f: FreeNids, l: nat)
    requires Shape(f) && l < |f.lists|
  {
    && (forall n :: n in f.lists[l] ==> n in f.root && ListIdx(f, n) == l)
    && DistinctNids(f.lists[l])
  }

  ghost predicate ListsOk(f: FreeNids)
    requires Shape(f)
  {
    Listed(f) && forall l :: 0 <= l < |f.lists| ==> ListOk(f, l)
  }

  ghost predicate CountsOk(f: FreeNids)
    requires Shape(f)
  {
    forall l :: 0 <= l < |f.lists| ==> f.fcnt[l] == |OnOffer(f, l)|
  }

  ghost predicate NidsOk(f: FreeNids) {
    Shape(f) && ListsOk(f) && CountsOk(f)
  }

  /** With the range size computed at mount, the list index of a nid is always a list. */
  lemma ListIdxBound(maxNid: nat, cnt: nat, nid: nat)
    requires cnt > 0 && nid <= maxNid
    ensures nid / ((maxNid + 1) / cnt + 1) < cnt
  {
    var q := (maxNid + 1) / cnt;
    var chunk := q + 1;
    assert maxNid + 1 == q * cnt + (maxNid + 1) % cnt;
    assert cnt * chunk == q * cnt + cnt;
    var d := nid / chunk;
    assert nid == d * chunk + nid % chunk;
    if d >= cnt {
      Scale(cnt, d, chunk);
      assert false;
    }
  }

  lemma Scale(a: nat, b: nat, k: nat)
    requires a <= b
    ensures a * k <= b * k
  {
  }

  /** Remove the one occurrence of `n`. */
  function Without(s: seq<nat>, n: nat): (r: seq<nat>)
    ensures n !in s ==> r == s
    ensures forall m :: m in r ==> m in s
    ensures forall m :: m in s && m != n ==> m in r
    ensures DistinctNids(s) ==> DistinctNids(r) && n !in r
  {
    if s == [] then []
    else if s[0] == n then
      assert s == [s[0]] + s[1..];
      s[1..]
    else
      assert s == [s[0]] + s[1..];
      var rest := Without(s[1..], n);
      assert DistinctNids(s) ==> s[0] !in rest;
      [s[0]] + rest
  }

  // ---- operations ----

  /** Put `n` on offer at the tail of its list, unless it is nid 0 or already known. */
  function Add(f: FreeNids, n: nat): (r: FreeNids)
    requires Shape(f) && ListIdx(f, n) < |f.lists|
  {
    var l := ListIdx(f, n);
    if n == 0 || n in f.root then f
    else f.(root := f.root[n := New], lists := f.lists[l := f.lists[l] + [n]], fcnt := f.fcnt[l := f.fcnt[l] + 1])
  }

  /** Forget `n`, whatever its state; the offer count drops only if it was on offer. */
  function Delete(f: FreeNids, n: nat): (r: FreeNids)
    requires Shape(f) && ListIdx(f, n) < |f.lists| && n in f.root
  {
    var l := ListIdx(f, n);
    var c := f.fcnt[l] - if f.root[n] == New then 1 else 0;
    f.(root := f.root - {n}, lists := f.lists[l := Without(f.lists[l], n)], fcnt := f.fcnt[l := c])
  }

  /** Withdraw `n` from offer if it is on offer. */
  function Withdraw(f: FreeNids, n: nat): (r: FreeNids)
    requires Shape(f) && ListIdx(f, n) < |f.lists|
  {
    if n in f.root && f.root[n] == New then Delete(f, n) else f
  }

  /** Hand out `n`, which is on offer. */
  function Take(f: FreeNids, n: nat): (r: FreeNids)
    requires Shape(f) && ListIdx(f, n) < |f.lists|
  {
    var l := ListIdx(f, n);
    f.(root := f.root[n := Alloc], fcnt := f.fcnt[l := f.fcnt[l] - 1])
  }

  /** Take back a handed-out nid: on offer again, or forgotten when memory is short. */
  function GiveBack(f: FreeNids, n: nat, memory: bool): (r: FreeNids)
    requires Shape(f) && ListIdx(f, n) < |f.lists| && n in f.root
  {
    var l := ListIdx(f, n);
    if memory then f.(root := f.root[n := New], fcnt := f.fcnt[l := f.fcnt[l] + 1])
    else Delete(f, n)
  }

  // ---- every operation keeps lists, ranges and offer counts ----

  /** A nid moves between on offer and handed out, or is forgotten: the counts follow. */
  lemma CountsMove(f: FreeNids, r: FreeNids, n: nat, l: nat, d: int)
    requires Shape(f) && Shape(r) && CountsOk(f) && r.chunk == f.chunk && |r.lists| == |f.lists|
    requires l < |f.lists| && l == ListIdx(f, n)
    requires forall m :: m != n ==> (m in r.root <==> m in f.root)
    requires forall m :: m != n && m in r.root ==> r.root[m] == f.root[m]
    requires d == (if n in r.root && r.root[n] == New then 1 else 0) - (if n in f.root && f.root[n] == New then 1 else 0)
    requires r.fcnt == f.fcnt[l := f.fcnt[l] + d]
    ensures CountsOk(r)
  {
    forall k | 0 <= k < |f.lists| ensures r.fcnt[k] == |OnOffer(r, k)| {
      OneApart(OnOffer(f, k), OnOffer(r, k), n);
    }
  }

  lemma OneApart(a: set<nat>, b: set<nat>, n: nat)
    requires forall m :: m != n ==> (m in a <==> m in b)
    ensures |b| == |a| + (if n in b then 1 else 0) - (if n in a then 1 else 0)
  {
    var rest := a - {n};
    assert b - {n} == rest;
    assert a == rest + if n in a then {n} else {};
    assert b == rest + if n in b then {n} else {};
  }

  /** Only `n` may be known differently. */
  ghost predicate Beside(f: FreeNids, r: FreeNids, n: nat) {
    && r.chunk == f.chunk && |r.lists| == |f.lists|
    && forall m :: m != n ==> (m in r.root <==> m in f.root) && (m in r.root ==> r.root[m] == f.root[m])
  }

  lemma AddOk(f: FreeNids, n: nat)
    requires NidsOk(f) && ListIdx(f, n) < |f.lists|
    ensures NidsOk(Add(f, n)) && Beside(f, Add(f, n), n)
    ensures n != 0 ==> n in Add(f, n).root && Add(f, n).root[n] == if n in f.root then f.root[n] else New
    ensures n == 0 ==> Add(f, n) == f
  {
    if n != 0 && n !in f.root {
      var l := ListIdx(f, n);
      var r := Add(f, n);
      CountsMove(f, r, n, l, 1);
      forall k | 0 <= k < |f.lists| ensures ListOk(r, k) {
        assert ListOk(f, k);
      }
    }
  }

  lemma DeleteOk(f: FreeNids, n: nat)
    requires NidsOk(f) && n in f.root
    ensures ListIdx(f, n) < |f.lists| && NidsOk(Delete(f, n))
    ensures n !in Delete(f, n).root && Beside(f, Delete(f, n), n)
  {
    var r := Delete(f, n);
    var l := ListIdx(f, n);
    CountsMove(f, r, n, l, if f.root[n] == New then -1 else 0);
    forall k | 0 <= k < |f.lists| ensures ListOk(r, k) {
      assert ListOk(f, k);
    }
  }

  lemma WithdrawOk(f: FreeNids, n: nat)
    requires NidsOk(f) && ListIdx(f, n) < |f.lists|
    ensures NidsOk(Withdraw(f, n)) && Beside(f, Withdraw(f, n), n)
    ensures n in Withdraw(f, n).root <==> n in f.root && f.root[n] == Alloc
    ensures n in Withdraw(f, n).root ==> Withdraw(f, n).root[n] == Alloc
  {
    if n in f.root && f.root[n] == New {
      DeleteOk(f, n);
    }
  }

  lemma TakeOk(f: FreeNids, n: nat)
    requires NidsOk(f) && n in f.root && f.root[n] == New
    ensures ListIdx(f, n) < |f.lists| && NidsOk(Take(f, n))
    ensures Beside(f, Take(f, n), n) && n in Take(f, n).root && Take(f, n).root[n] == Alloc
  {
    CountsMove(f, Take(f, n), n, ListIdx(f, n), -1);
    forall k | 0 <= k < |f.lists| ensures ListOk(Take(f, n), k) {
      assert ListOk(f, k);
    }
  }

  lemma GiveBackOk(f: FreeNids, n: nat, memory: bool)
    requires NidsOk(f) && n in f.root && f.root[n] == Alloc
    ensures ListIdx(f, n) < |f.lists| && NidsOk(GiveBack(f, n, memory))
    ensures Beside(f, GiveBack(f, n, memory), n)
    ensures var r := GiveBack(f, n, memory); if memory then n in r.root && r.root[n] == New else n !in r.root
  {
    if memory {
      CountsMove(f, GiveBack(f, n, memory), n, ListIdx(f, n), 1);
      forall k | 0 <= k < |f.lists| ensures ListOk(GiveBack(f, n, memory), k) {
        assert ListOk(f, k);
      }
    } else {
      DeleteOk(f, n);
    }
  }

  ghost function OffersBelow(f: FreeNids, l: nat): (r: set<nat>)
    requires f.chunk > 0
  {
    set n | n in f.root && f.root[n] == New && ListIdx(f, n) < l
  }

  /** sum_up_fcnt: the counts of all lists add up to the number of offers. */
  method SumUpFcnt(f: FreeNids) returns (total: int)
    requires NidsOk(f)
    ensures total == |Offers(f)|
  {
    total := 0;
    assert OffersBelow(f, 0) == {};
    for l := 0 to |f.lists|
      invariant total == |OffersBelow(f, l)|
    {
      assert OffersBelow(f, l + 1) == OffersBelow(f, l) + OnOffer(f, l);
      assert OffersBelow(f, l) !! OnOffer(f, l);
      total := total + f.fcnt[l];
    }
    assert OffersBelow(f, |f.lists|) == Offers(f);
  }

  /** What `f` knows, `g` knows as well. */
  ghost predicate Wider(f: FreeNids, g: FreeNids) {
    forall n :: n in f.root ==> n in g.root && g.root[n] == f.root[n]
  }

  lemma WiderOffers(f: FreeNids, g: FreeNids)
    requires Wider(f, g)
    ensures |Offers(f)| <= |Offers(g)|
  {
    assert Offers(g) == Offers(f) + (Offers(g) - Offers(f));
  }

  lemma BesideOffers(f: FreeNids, g: FreeNids, n: nat)
    requires Beside(f, g, n)
    ensures |Offers(f)| - 1 <= |Offers(g)| <= |Offers(f)| + 1
  {
    OneApart(Offers(f), Offers(g), n);
  }

  /**
   * The walk over a list for a nid on offer.  A positive offer count means
   * there is one, so the walk never runs off the end of the list.
   */
  method FirstOnOffer(f: FreeNids, l: nat) returns (i: nat)
    requires NidsOk(f) && l < |f.lists| && f.fcnt[l] > 0
    ensures i < |f.lists[l]|
    ensures f.lists[l][i] in f.root && f.root[f.lists[l][i]] == New
    ensures forall k :: 0 <= k < i ==> f.lists[l][k] in f.root && f.root[f.lists[l][k]] == Alloc
  {
    assert ListOk(f, l);
    ghost var n :| n in OnOffer(f, l);
    ghost var at :| 0 <= at < |f.lists[l]| && f.lists[l][at] == n;
    i := 0;
    while f.root[f.lists[l][i]] != New
      invariant i <= at
      invariant forall k :: 0 <= k < i ==> f.lists[l][k] in f.root && f.root[f.lists[l][k]] == Alloc
      decreases at - i
    {
      i := i + 1;
    }
  }
}
