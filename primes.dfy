/**
 Prime sizing: the capacity of a table is always the smallest prime at or
 above its base size. The routine that computes it lives in a header that is
 not part of this model, so it is given here by its specification and a
 straightforward search whose termination rests on Euclid's argument that
 n! + 1 has a prime factor above n.
 */
module Primes {

  import Arith

  /** `d` is a positive divisor of `n`. */
  predicate Divides(d: nat, n: nat)
  {
    d > 0 && n % d == 0
  }

  predicate IsPrime(p: nat)
  {
    2 <= p && forall d :: 2 <= d < p ==> !Divides(d, p)
  }

  /** `e` divides `e * c`. */
  lemma DividesProduct(e: nat, c: nat)
    requires e > 0
    ensures Divides(e, e * c)
  {
    Arith.DivModUnique(e * c, e, c, 0);
  }

  /** Divisibility is transitive. */
  lemma DividesTransitive(e: nat, r: nat, n: nat)
    requires Divides(e, r) && Divides(r, n)
    ensures Divides(e, n)
  {
    var a, b := r / e, n / r;
    assert r == e * a;
    assert n == r * b;
    assert n == e * (a * b) by {
      assert r * b == (e * a) * b == e * (a * b);
    }
    DividesProduct(e, a * b);
  }

  /** No `d >= 2` divides both `x` and `x + 1`. */
  lemma NoCommonDivisorWithSuccessor(d: nat, x: nat)
    requires d >= 2 && Divides(d, x)
    ensures !Divides(d, x + 1)
  {
    Arith.DivModUnique(x + 1, d, x / d, 1);
  }

  /** Euclid's lemma: a prime that divides `x * y`, with `x` not a multiple
      of it, divides `y`. */
  lemma {:induction false} PrimeDividesFactor(p: nat, x: nat, y: nat)
    requires IsPrime(p) && 0 < x < p && Divides(p, x * y)
    ensures Divides(p, y)
    decreases x
  {
    if x > 1 {
      var q, r := p / x, p % x;
      if r == 0 {
        assert Divides(x, p);
        assert false;
      }
      var k := x * y / p;
      assert x * y == p * k;
      assert r * y == p * (y - q * k) by {
        assert p == x * q + r;
        assert r * y == p * y - q * (x * y);
      }
      Arith.DivModUnique(r * y, p, y - q * k, 0);
      PrimeDividesFactor(p, r, y);
    }
  }

  ghost function Factorial(n: nat): (f: nat)
    ensures f >= 1
  {
    if n == 0 then 1 else n * Factorial(n - 1)
  }

  /** Every `k` in `[1, n]` divides `n!`. */
  lemma {:induction false} FactorialDivisible(n: nat, k: nat)
    requires 1 <= k <= n
    ensures Divides(k, Factorial(n))
  {
    if k == n {
      DividesProduct(n, Factorial(n - 1));
    } else {
      FactorialDivisible(n - 1, k);
      DividesProduct(Factorial(n - 1), n);
      assert Factorial(n) == Factorial(n - 1) * n;
      DividesTransitive(k, Factorial(n - 1), Factorial(n));
    }
  }

  /** The least divisor of `n` that is at least `d`. */
  ghost function LeastDivisorFrom(n: nat, d: nat): (r: nat)
    requires 2 <= d <= n
    requires forall e :: 2 <= e < d ==> !Divides(e, n)
    decreases n - d
    ensures d <= r <= n && Divides(r, n)
    ensures forall e :: 2 <= e < r ==> !Divides(e, n)
  {
    if Divides(d, n) then d else LeastDivisorFrom(n, d + 1)
  }

  /** The least divisor above 1 of a number is prime. */
  lemma LeastDivisorIsPrime(n: nat)
    requires n >= 2
    ensures IsPrime(LeastDivisorFrom(n, 2))
  {
    var r := LeastDivisorFrom(n, 2);
    forall e | 2 <= e < r
      ensures !Divides(e, r)
    {
      if Divides(e, r) {
        DividesTransitive(e, r, n);
      }
    }
  }

  /** A prime above `n`: the least divisor of `n! + 1`. */
  ghost function PrimeAbove(n: nat): (p: nat)
    ensures IsPrime(p) && n < p
  {
    var m := Factorial(n) + 1;
    LeastDivisorIsPrime(m);
    var p := LeastDivisorFrom(m, 2);
    if p <= n then
      FactorialDivisible(n, p);
      NoCommonDivisorWithSuccessor(p, Factorial(n));
      assert false;
      p
    else
      p
  }

  /** The first prime at or above `k`, when none of `[n, k)` is prime. The
      search ends because a prime lies above `n` (`PrimeAbove`). */
  function NextPrimeFrom(n: nat, k: nat): (p: nat)
    requires n <= k
    requires forall q :: n <= q < k ==> !IsPrime(q)
    decreases PrimeAbove(n) - k
    ensures k <= p && IsPrime(p)
    ensures forall q :: n <= q < p ==> !IsPrime(q)
  {
    if IsPrime(k) then k
    else
      assert k < PrimeAbove(n);
      NextPrimeFrom(n, k + 1)
  }

  /** `next_prime`: the smallest prime that is at least `n`. */
  function NextPrime(n: nat): (p: nat)
    ensures n <= p && IsPrime(p)
    ensures forall q :: n <= q < p ==> !IsPrime(q)
  {
    NextPrimeFrom(n, n)
  }

  /** A larger request never yields a smaller prime. */
  lemma NextPrimeMonotone(a: nat, b: nat)
    requires a <= b
    ensures NextPrime(a) <= NextPrime(b)
  {
    var pb := NextPrime(b);
    assert IsPrime(pb) && a <= pb;
  }
}
