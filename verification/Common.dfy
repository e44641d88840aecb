/** What several components share: optional values, powers of two, and the part
    of a set of numbers below a bound, for loops that walk a bitmap upwards. */
module Common {

  datatype Option<T> = None | Some(value: T)

  function One(b: bool): (r: int) { if b then 1 else 0 }

  function Pow2(n: nat): (r: nat)
    ensures r > 0
  {
    if n == 0 then 1 else 2 * Pow2(n - 1)
  }

  lemma Pow2Mono(a: nat, b: nat)
    requires a <= b
    ensures Pow2(a) <= Pow2(b)
  {
    if a < b {
      Pow2Mono(a, b - 1);
    }
  }

  ghost function Below(m: set<nat>, n: nat): (r: set<nat>) {
    set x | x in m && x < n
  }

  lemma BelowStep(m: set<nat>, x: nat)
    ensures Below(m, x + 1) == Below(m, x) + if x in m then {x} else {}
  {
  }

  /** From a member to the next one. */
  lemma BelowNext(m: set<nat>, x: nat, next: nat)
    requires x in m && x < next && forall k :: x < k < next ==> k !in m
    ensures Below(m, next) == Below(m, x) + {x}
    ensures |Below(m, next)| == |Below(m, x)| + 1
  {
  }

  lemma BelowGrows(m: set<nat>, n: nat, x: nat)
    requires x in m && n <= x
    ensures |Below(m, n)| < |Below(m, x + 1)| <= |m|
  {
    var a, b := Below(m, n), Below(m, x + 1);
    assert a + {x} <= b <= m;
    SubsetSize(a + {x}, b);
    SubsetSize(b, m);
  }

  lemma SubsetSize(a: set<nat>, b: set<nat>)
    requires a <= b
    ensures |a| <= |b|
  {
    assert b == a + (b - a);
  }
}
