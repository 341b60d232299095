/**
 The two string hashes and the double-hashing probe sequence of the table
 (src/hash_table.c, `ht_hash` and `ht_get_hash`). Arithmetic is on unbounded
 integers: the floating-point power and the `long`/`int` conversions of the
 source are replaced by exact integer powers.
 */
module Hashing {

  import Arith
  import Primes

  /** Multiplier of the first hash (the probe's start). */
  const HtPrime1: nat := 151
  /** Multiplier of the second hash (the probe's step). */
  const HtPrime2: nat := 199

  function Pow(a: nat, e: nat): nat
  {
    if e == 0 then 1 else a * Pow(a, e - 1)
  }

  /** The character code a key contributes to its hash. */
  function Code(c: char): nat
  {
    c as nat
  }

  /** Reference reading of a key: the base-`a` numeral whose digits are its
      character codes, most significant first (Horner's rule). */
  ghost function Numeral(s: string, a: nat): nat
  {
    if s == [] then 0 else Numeral(s[..|s| - 1], a) * a + Code(s[|s| - 1])
  }

  /** The accumulating loop of `ht_hash`, from index `i` with running value
      `acc`: each step adds `a^(len - (i + 1)) * s[i]` and reduces mod `m`. */
  function HashFrom(s: string, a: nat, m: nat, i: nat, acc: nat): (h: nat)
    requires m > 0 && i <= |s| && acc < m
    decreases |s| - i
    ensures h < m
  {
    if i == |s| then acc
    else HashFrom(s, a, m, i + 1, (acc + Pow(a, |s| - (i + 1)) * Code(s[i])) % m)
  }

  /** `ht_hash(s, a, m)`. */
  function Hash(s: string, a: nat, m: nat): (h: nat)
    requires m > 0
    ensures h < m
  {
    HashFrom(s, a, m, 0, 0)
  }

  /** `ht_get_hash(s, num_buckets, attempt)`: the slot probed at `attempt`. */
  function GetHash(s: string, numBuckets: nat, attempt: nat): (index: nat)
    requires numBuckets > 0
    ensures index < numBuckets
  {
    (Hash(s, HtPrime1, numBuckets) + attempt * (Hash(s, HtPrime2, numBuckets) + 1)) % numBuckets
  }

  /** The probe starts at the slot the first hash names. */
  lemma FirstProbe(s: string, numBuckets: nat)
    requires numBuckets > 0
    ensures GetHash(s, numBuckets, 0) == Hash(s, HtPrime1, numBuckets)
  {
    var h := Hash(s, HtPrime1, numBuckets);
    assert 0 * (Hash(s, HtPrime2, numBuckets) + 1) == 0;
    Arith.DivModUnique(h, numBuckets, 0, h);
  }

  /** Prepending a digit adds it at the highest place value. */
  lemma {:induction false} NumeralLeading(c: char, t: string, a: nat)
    ensures Numeral([c] + t, a) == Pow(a, |t|) * Code(c) + Numeral(t, a)
  {
    var u := [c] + t;
    if t == [] {
      assert u[..|u| - 1] == [];
    } else {
      var t' := t[..|t| - 1];
      assert u[..|u| - 1] == [c] + t';
      assert u[|u| - 1] == t[|t| - 1];
      NumeralLeading(c, t', a);
      var p, n, d := Pow(a, |t'|), Numeral(t', a), Code(t[|t| - 1]);
      assert Numeral(u, a) == Numeral([c] + t', a) * a + d;
      assert Numeral([c] + t', a) == p * Code(c) + n;
      Arith.MulAddDistrib(p, Code(c), n, a);
      assert Pow(a, |t|) == a * p;
      assert Numeral(t, a) == n * a + d;
    }
  }

  /** The loop from index `i` adds the numeral of the rest of the key. */
  lemma {:induction false} HashFromValue(s: string, a: nat, m: nat, i: nat, acc: nat)
    requires m > 0 && i <= |s| && acc < m
    decreases |s| - i
    ensures HashFrom(s, a, m, i, acc) == (acc + Numeral(s[i..], a)) % m
  {
    if i == |s| {
      assert s[i..] == [];
      Arith.DivModUnique(acc, m, 0, acc);
    } else {
      var t := s[i + 1..];
      var step := Pow(a, |t|) * Code(s[i]);
      assert s[i..] == [s[i]] + t;
      NumeralLeading(s[i], t, a);
      HashFromValue(s, a, m, i + 1, (acc + step) % m);
      Arith.ModAddReduce(acc + step, Numeral(t, a), m);
    }
  }

  /** `ht_hash` is the base-`a` numeral of the character codes, reduced mod `m`. */
  lemma HashIsNumeral(s: string, a: nat, m: nat)
    requires m > 0
    ensures Hash(s, a, m) == Numeral(s, a) % m
  {
    HashFromValue(s, a, m, 0, 0);
    assert s[0..] == s;
  }

  /** The probe sequence repeats with period `numBuckets`: every slot the
      source's unbounded loop can reach is reached within the first
      `numBuckets` attempts. */
  lemma ProbeRepeats(s: string, numBuckets: nat, attempt: nat)
    requires numBuckets > 0
    ensures GetHash(s, numBuckets, attempt) == GetHash(s, numBuckets, attempt % numBuckets)
  {
    var h, step := Hash(s, HtPrime1, numBuckets), Hash(s, HtPrime2, numBuckets) + 1;
    var q, r := attempt / numBuckets, attempt % numBuckets;
    assert attempt * step == r * step + numBuckets * (q * step) by {
      assert attempt == numBuckets * q + r;
      assert (numBuckets * q + r) * step == r * step + numBuckets * (q * step);
    }
    Arith.ModAddMultiple(h + r * step, q * step, numBuckets);
  }

  /** When the second hash is `numBuckets - 1` the step is a multiple of
      `numBuckets`, so every attempt probes the starting slot again. */
  lemma DegenerateStep(s: string, numBuckets: nat, attempt: nat)
    requires numBuckets > 0
    requires Hash(s, HtPrime2, numBuckets) + 1 == numBuckets
    ensures GetHash(s, numBuckets, attempt) == Hash(s, HtPrime1, numBuckets)
  {
    var h := Hash(s, HtPrime1, numBuckets);
    assert GetHash(s, numBuckets, attempt) == (h + numBuckets * attempt) % numBuckets by {
      assert attempt * numBuckets == numBuckets * attempt;
    }
    Arith.ModAddMultiple(h, attempt, numBuckets);
    Arith.DivModUnique(h, numBuckets, 0, h);
  }

  /** With a prime number of slots and a step that is not a multiple of it,
      the first `numBuckets` attempts probe pairwise different slots. */
  lemma ProbeInjective(s: string, numBuckets: nat, a: nat, b: nat)
    requires Primes.IsPrime(numBuckets) && Hash(s, HtPrime2, numBuckets) + 1 < numBuckets
    requires a < b < numBuckets
    ensures GetHash(s, numBuckets, a) != GetHash(s, numBuckets, b)
  {
    var h, step := Hash(s, HtPrime1, numBuckets), Hash(s, HtPrime2, numBuckets) + 1;
    var d: nat := b - a;
    if GetHash(s, numBuckets, a) == GetHash(s, numBuckets, b) {
      Arith.ProgressionModEqual(h, step, a, b, numBuckets);
      Primes.PrimeDividesFactor(numBuckets, step, d);
      Arith.DivModUnique(d, numBuckets, 0, d);
      assert false;
    }
  }

  /** Under the same conditions every slot is probed within the first
      `numBuckets` attempts. */
  lemma ProbeReaches(s: string, numBuckets: nat, i: nat)
    requires Primes.IsPrime(numBuckets) && Hash(s, HtPrime2, numBuckets) + 1 < numBuckets
    requires i < numBuckets
    ensures exists a: nat :: a < numBuckets && GetHash(s, numBuckets, a) == i
  {
    var f := (a: nat) => GetHash(s, numBuckets, a);
    forall a, b | 0 <= a < b < numBuckets
      ensures f(a) != f(b)
    {
      ProbeInjective(s, numBuckets, a, b);
    }
    Arith.InjectiveImageCard(f, numBuckets);
    var image := set a: nat | a < numBuckets :: f(a);
    Arith.SubsetSameCard(image, Arith.Below(numBuckets));
    assert i in image;
  }
}
