/** Facts about Euclidean division that the solver does not find unaided. */
module Arith {

  lemma MulAtLeast(d: nat, k: int)
    requires k >= 1
    ensures d * k >= d
  {
  }

  /** Quotient and remainder are determined by `n == d * q + r`, `0 <= r < d`. */
  lemma DivModUnique(n: int, d: nat, q: int, r: int)
    requires d > 0 && n == d * q + r && 0 <= r < d
    ensures n % d == r && n / d == q
  {
    var q', r' := n / d, n % d;
    assert d * (q - q') == r' - r by {
      assert d * q - d * q' == d * (q - q');
    }
    if q - q' >= 1 {
      MulAtLeast(d, q - q');
      assert false;
    } else if q' - q >= 1 {
      MulAtLeast(d, q' - q);
      assert false;
    }
  }

  /** Adding a multiple of `d` does not change the remainder. */
  lemma ModAddMultiple(x: int, k: int, d: nat)
    requires d > 0
    ensures (x + d * k) % d == x % d
  {
    DivModUnique(x + d * k, d, x / d + k, x % d);
  }

  /** Reducing a summand first does not change the remainder of a sum. */
  lemma ModAddReduce(x: int, y: int, d: nat)
    requires d > 0
    ensures (x % d + y) % d == (x + y) % d
  {
    ModAddMultiple(x % d + y, x / d, d);
  }

  /** Numbers with the same remainder differ by a multiple of `d`. */
  lemma ModEqualDiff(x: int, y: int, d: nat)
    requires d > 0 && x % d == y % d
    ensures (y - x) % d == 0
  {
    assert y - x == d * (y / d - x / d) by {
      assert x == d * (x / d) + x % d;
      assert y == d * (y / d) + y % d;
    }
    DivModUnique(y - x, d, y / d - x / d, 0);
  }

  /** Two points of an arithmetic progression that share a remainder are a
      multiple of `d` apart. */
  lemma ProgressionModEqual(h: int, step: int, a: int, b: int, d: nat)
    requires d > 0 && (h + a * step) % d == (h + b * step) % d
    ensures (step * (b - a)) % d == 0
  {
    ModEqualDiff(h + a * step, h + b * step, d);
    assert (h + b * step) - (h + a * step) == step * (b - a);
  }

  /** A subset is no larger than its superset. */
  lemma {:induction false} SubsetCard<T>(a: set<T>, b: set<T>)
    requires a <= b
    ensures |a| <= |b|
  {
    if a != {} {
      var x :| x in a;
      SubsetCard(a - {x}, b - {x});
    }
  }

  /** Equal sizes make a subset the whole set. */
  lemma SubsetSameCard<T>(a: set<T>, b: set<T>)
    requires a <= b && |b| <= |a|
    ensures a == b
  {
    if a != b {
      var x :| x in b && x !in a;
      SubsetCard(a, b - {x});
      assert false;
    }
  }

  /** The numbers below `n`. */
  function Below(n: nat): (r: set<nat>)
    ensures |r| == n
    ensures forall i: nat :: i in r <==> i < n
  {
    if n == 0 then {} else Below(n - 1) + {n - 1}
  }

  /** A function that is injective on `[0, n)` takes `n` values there. */
  lemma {:induction false} InjectiveImageCard<T>(f: nat -> T, n: nat)
    requires forall a, b :: 0 <= a < b < n ==> f(a) != f(b)
    ensures |set a: nat | a < n :: f(a)| == n
  {
    if n > 0 {
      InjectiveImageCard(f, n - 1);
      var below := set a: nat | a < n - 1 :: f(a);
      assert (set a: nat | a < n :: f(a)) == below + {f(n - 1)};
      assert f(n - 1) !in below;
    }
  }

  /** Multiplying a sum out, in the arrangement a numeral step needs. */
  lemma MulAddDistrib(p: int, c: int, n: int, a: int)
    ensures (p * c + n) * a == (a * p) * c + n * a
  {
  }
}
