/**
 * The benchmark workload `is_prime`: trial division by 2 and then by the odd
 * numbers 3, 5, ... up to the square root of n, with early returns.
 *
 * The source computes the bound as `sqrt(static_cast<double>(n))` truncated to
 * an integer. Here the bound is the exact integer square root `Isqrt(n)`, which
 * agrees with the rounded double computation for every n below 2^52.
 */
module Primes {

  /** d is a (non-zero) divisor of n. */
  predicate Divides(d: nat, n: nat)
  {
    d != 0 && n % d == 0
  }

  /** The mathematical notion of a prime number, as an independent reference. */
  predicate IsPrimeNumber(n: nat)
  {
    n >= 2 && forall d :: 2 <= d < n ==> !Divides(d, n)
  }

  /** What `is_prime` answers: primality, except that 1 is also reported prime. */
  predicate PrimeOrOne(n: nat)
  {
    n == 1 || IsPrimeNumber(n)
  }

  /** The largest u with u * u <= n, by recursion on n / 4. */
  function Isqrt(n: nat): (u: nat)
    ensures u * u <= n < (u + 1) * (u + 1)
    decreases n
  {
    if n < 4 then
      (if n == 0 then 0 else 1)
    else
      var s := Isqrt(n / 4);
      IsqrtStep(n, s);
      var r := 2 * s;
      if (r + 1) * (r + 1) <= n then r + 1 else r
  }

  /** Doubling the root of n / 4 gives r with r * r <= n < (r + 2) * (r + 2). */
  lemma IsqrtStep(n: nat, s: nat)
    requires s * s <= n / 4 < (s + 1) * (s + 1)
    ensures (2 * s) * (2 * s) <= n < (2 * s + 2) * (2 * s + 2)
  {
    var q := n / 4;
    assert n == 4 * q + n % 4;
    var a := s * s;
    var b := (s + 1) * (s + 1);
    assert (2 * s) * (2 * s) == 4 * a;
    assert (2 * s + 2) * (2 * s + 2) == 4 * b;
    assert q + 1 <= b;
  }

  /** The decision the loop of `is_prime` makes, written as one predicate:
      n is odd (or 2) and no odd i with 3 <= i <= Isqrt(n) divides it. */
  predicate TrialDivision(n: nat)
  {
    (n % 2 != 0 || n == 2) && NoOddDivisorBelow(n, Isqrt(n) + 1)
  }

  /** No odd k with 3 <= k < bound divides n. */
  predicate NoOddDivisorBelow(n: nat, bound: nat)
  {
    forall k :: 3 <= k < bound && k % 2 == 1 ==> !Divides(k, n)
  }

  lemma MulLe(a: nat, b: nat, c: nat)
    requires a <= b
    ensures a * c <= b * c
  {
  }

  lemma SquareMono(a: nat, b: nat)
    requires a <= b
    ensures a * a <= b * b
  {
    MulLe(a, b, a);
    MulLe(a, b, b);
  }

  /** A product with an even factor is even. */
  lemma EvenFactor(a: nat, b: nat)
    requires a % 2 == 0
    ensures (a * b) % 2 == 0
  {
    assert a * b == 2 * ((a / 2) * b);
  }

  /** Of two factors of n, the smaller one is at most Isqrt(n). */
  lemma SmallerFactorBelowRoot(d: nat, e: nat, n: nat)
    requires n == d * e
    ensures (if d <= e then d else e) <= Isqrt(n)
  {
    var m := if d <= e then d else e;
    var u := Isqrt(n);
    MulLe(m, e, m);
    MulLe(m, d, e);
    assert m * m <= n;
    if m > u {
      SquareMono(u + 1, m);
    }
  }

  /** An exact division recovers its dividend. */
  lemma ExactQuotient(n: nat, d: nat)
    requires Divides(d, n)
    ensures n == d * (n / d)
  {
  }

  /** Each factor of a product is one of its divisors. */
  lemma FactorDivides(a: nat, b: nat)
    requires a != 0
    ensures Divides(a, a * b)
  {
  }

  /** The cofactor of a proper divisor d of n is at least 2. */
  lemma CofactorAtLeastTwo(d: nat, e: nat, n: nat)
    requires n == d * e && d < n
    ensures e >= 2
  {
    if e <= 1 {
      MulLe(e, 1, d);
    }
  }

  /** A divisor d of an odd n with 2 <= d < n yields an odd divisor in [3, Isqrt(n)]. */
  lemma SmallOddDivisor(d: nat, n: nat) returns (m: nat)
    requires n % 2 == 1
    requires 2 <= d < n && Divides(d, n)
    ensures 3 <= m <= Isqrt(n) && m % 2 == 1 && Divides(m, n)
  {
    var e := n / d;
    ExactQuotient(n, d);
    assert n == e * d;
    if d % 2 == 0 {
      EvenFactor(d, e);
    }
    if e % 2 == 0 {
      EvenFactor(e, d);
    }
    CofactorAtLeastTwo(d, e, n);
    SmallerFactorBelowRoot(d, e, n);
    FactorDivides(e, d);
    m := if d <= e then d else e;
  }

  /** An odd n >= 3 with no odd divisor in [3, Isqrt(n)] is prime. */
  lemma NoSmallOddDivisorIsPrime(n: nat)
    requires n >= 3 && n % 2 == 1
    requires NoOddDivisorBelow(n, Isqrt(n) + 1)
    ensures IsPrimeNumber(n)
  {
    forall d | 2 <= d < n
      ensures !Divides(d, n)
    {
      if Divides(d, n) {
        var m := SmallOddDivisor(d, n);
        assert false;
      }
    }
  }

  /** An odd divisor in [3, Isqrt(n)] is a proper divisor, so n is not prime. */
  lemma SmallDivisorNotPrime(n: nat, i: nat)
    requires 3 <= i <= Isqrt(n) && Divides(i, n)
    ensures !IsPrimeNumber(n)
  {
    SquareMono(i, Isqrt(n));
    MulLe(3, i, i);
    assert i < n;
  }

  /** The trial-division answer is primality for n >= 2, true for 1, false for 0. */
  lemma TrialDivisionIsPrimeOrOne(n: nat)
    ensures TrialDivision(n) <==> PrimeOrOne(n)
  {
    if n == 0 {
      assert !TrialDivision(n);
    } else if n < 3 {
      assert Isqrt(n) == 1;
      assert n == 2 ==> IsPrimeNumber(n);
    } else if n % 2 == 0 {
      assert Divides(2, n);
    } else if TrialDivision(n) {
      NoSmallOddDivisorIsPrime(n);
    } else {
      var i :| 3 <= i < Isqrt(n) + 1 && i % 2 == 1 && Divides(i, n);
      SmallDivisorNotPrime(n, i);
    }
  }

  /** Passing the odd candidate i extends the checked range to i + 2. */
  lemma NoOddDivisorStep(n: nat, i: nat)
    requires NoOddDivisorBelow(n, i) && i % 2 == 1 && !Divides(i, n)
    ensures NoOddDivisorBelow(n, i + 2)
  {
    forall k | 3 <= k < i + 2 && k % 2 == 1
      ensures !Divides(k, n)
    {
      if k >= i {
        assert k == i;
      }
    }
  }

  lemma NoOddDivisorMono(n: nat, i: nat, j: nat)
    requires NoOddDivisorBelow(n, i) && j <= i
    ensures NoOddDivisorBelow(n, j)
  {
  }

  /** `is_prime`: rejects even numbers other than 2, then divides by the odd
      numbers from 3 up to the square root bound, stepping by 2. */
  method IsPrime(n: nat) returns (b: bool)
    ensures b == TrialDivision(n)
    ensures b <==> PrimeOrOne(n)
  {
    TrialDivisionIsPrimeOrOne(n);
    if n % 2 == 0 && n != 2 {
      return false;
    }
    var upper := Isqrt(n);
    var i := 3;
    while i <= upper
      invariant 3 <= i && i % 2 == 1
      invariant NoOddDivisorBelow(n, i)
    {
      if n % i == 0 {
        assert Divides(i, n) && i < upper + 1;
        return false;
      }
      NoOddDivisorStep(n, i);
      i := i + 2;
    }
    NoOddDivisorMono(n, i, upper + 1);
    return true;
  }

  /** Facts about `is_prime` at the edge of its domain. */
  lemma IsPrimeEdgeCases()
    ensures PrimeOrOne(1) && PrimeOrOne(2) && !PrimeOrOne(0)
    ensures forall n: nat {:trigger PrimeOrOne(n)} :: n % 2 == 0 && n != 2 ==> !PrimeOrOne(n)
  {
    assert IsPrimeNumber(2);
    forall n: nat | n % 2 == 0 && n != 2
      ensures !PrimeOrOne(n)
    {
      if n > 2 { assert Divides(2, n); }
    }
  }
}
