/** Shared vocabulary of the prime generators: divisibility, primality, the
    integer square root the generators bound their trial divisors by, and the
    reference enumeration `PrimesBetween` every generator is proved against. */
module Primality {

  predicate Divides(d: nat, n: nat) {
    d > 0 && n % d == 0
  }

  ghost predicate IsPrime(n: nat) {
    n >= 2 && forall d :: 2 <= d < n ==> !Divides(d, n)
  }

  /** Floor of the square root. The generators call the `integer_sqrt` crate
      for this; here it is a reference definition characterised by its
      contract, not the crate's algorithm. */
  function Isqrt(n: nat): (r: nat)
    ensures r * r <= n < (r + 1) * (r + 1)
  {
    if n == 0 then 0
    else
      var s := Isqrt(n - 1);
      if (s + 1) * (s + 1) <= n then
        assert (s + 2) * (s + 2) == (s + 1) * (s + 1) + 2 * s + 3;
        s + 1
      else s
  }

  ghost predicate StrictlyIncreasing(s: seq<nat>) {
    forall i, j :: 0 <= i < j < |s| ==> s[i] < s[j]
  }

  /** `s` lists, in ascending order and without repetition, exactly the primes
      `p` with `lo <= p < hi`. */
  ghost predicate EnumeratesPrimes(s: seq<nat>, lo: nat, hi: nat) {
    && StrictlyIncreasing(s)
    && (forall x :: x in s ==> lo <= x < hi && IsPrime(x))
    && (forall p :: lo <= p < hi && IsPrime(p) ==> p in s)
  }

  /** The ascending primes in the half-open interval [lo, hi). */
  ghost function PrimesBetween(lo: nat, hi: nat): seq<nat>
    decreases hi
  {
    if hi <= lo then []
    else PrimesBetween(lo, hi - 1) + (if IsPrime(hi - 1) then [hi - 1] else [])
  }

  // ---------------------------------------------------------------------
  // Arithmetic facts about divisibility

  /** A multiple of `d` by a factor strictly between 0 and 1 cannot exist. */
  lemma NoFractionalMultiple(d: nat, t: int)
    requires d > 0 && 0 <= d * t < d
    ensures t == 0
  {
  }

  lemma MultipleIsDivisible(d: nat, m: nat)
    requires d > 0
    ensures Divides(d, d * m)
  {
    var n := d * m;
    var q, r := n / d, n % d;
    assert n == d * q + r && 0 <= r < d;
    assert d * (m - q) == r;
    NoFractionalMultiple(d, m - q);
  }

  lemma DividesTransitive(a: nat, b: nat, c: nat)
    requires Divides(a, b) && Divides(b, c)
    ensures Divides(a, c)
  {
    var x := b / a;
    var y := c / b;
    assert b == a * x;
    assert c == b * y;
    assert c == a * (x * y);
    MultipleIsDivisible(a, x * y);
  }

  /** The cofactor of a divisor divides too. */
  lemma CofactorDivides(d: nat, c: nat)
    requires Divides(d, c) && c > 0
    ensures c / d > 0 && Divides(c / d, c) && c == d * (c / d)
  {
    var e := c / d;
    assert c == d * e;
    MultipleIsDivisible(e, d);
    assert e * d == c;
  }

  lemma IsqrtBounds(c: nat)
    requires c >= 2
    ensures 1 <= Isqrt(c) < c
  {
  }

  lemma MulMonotone(a: nat, b: nat, x: nat, y: nat)
    requires a <= x && b <= y
    ensures a * b <= x * y
  {
    assert a * b <= x * b;
    assert x * b <= x * y;
  }

  /** A composite number has a divisor no larger than its square root. */
  lemma SmallDivisor(c: nat, d: nat) returns (e: nat)
    requires c >= 2 && 2 <= d < c && Divides(d, c)
    ensures 2 <= e <= Isqrt(c) && Divides(e, c)
  {
    var r := Isqrt(c);
    if d <= r {
      e := d;
    } else {
      e := c / d;
      CofactorDivides(d, c);
      assert c == d * e;
      assert e != 1 && e != 0;
      assert e <= r by {
        if e >= r + 1 {
          MulMonotone(r + 1, r + 1, d, e);
        }
      }
    }
  }

  /** Every number of at least 2 has a prime divisor no larger than itself;
      so a divisor `e` of `c` yields a prime divisor of `c` no larger than `e`. */
  lemma {:induction false} PrimeDivisor(e: nat, c: nat) returns (p: nat)
    requires e >= 2 && Divides(e, c)
    ensures 2 <= p <= e && IsPrime(p) && Divides(p, c)
    decreases e
  {
    if IsPrime(e) {
      p := e;
    } else {
      var d :| 2 <= d < e && Divides(d, e);
      DividesTransitive(d, e, c);
      p := PrimeDivisor(d, c);
    }
  }

  // ---------------------------------------------------------------------
  // Trial division

  /** Trial division by every integer in 2..=isqrt(c) decides primality:
      this is the test `Naive` runs. */
  lemma TrialDivisionBySmallIntegers(c: nat)
    requires c >= 2
    ensures IsPrime(c) <==> forall d :: 2 <= d <= Isqrt(c) ==> !Divides(d, c)
  {
    IsqrtBounds(c);
    if !IsPrime(c) {
      var d :| 2 <= d < c && Divides(d, c);
      var e := SmallDivisor(c, d);
    }
  }

  /** Trial division by the primes below `c` that do not exceed isqrt(c)
      decides primality: this is the test `EratoOne` runs against its record
      of the primes found so far. */
  lemma TrialDivisionByStoredPrimes(c: nat, ps: seq<nat>)
    requires c >= 2 && ps == PrimesBetween(0, c)
    ensures IsPrime(c) <==> forall k :: 0 <= k < |ps| && ps[k] <= Isqrt(c) ==> !Divides(ps[k], c)
  {
    IsqrtBounds(c);
    PrimesBetweenEnumerates(0, c);
    if IsPrime(c) {
      forall k | 0 <= k < |ps| && ps[k] <= Isqrt(c)
        ensures !Divides(ps[k], c)
      {
        assert ps[k] in ps;
      }
    } else {
      var d :| 2 <= d < c && Divides(d, c);
      var e := SmallDivisor(c, d);
      var p := PrimeDivisor(e, c);
      assert p in ps;
      var k :| 0 <= k < |ps| && ps[k] == p;
      assert ps[k] <= Isqrt(c) && Divides(ps[k], c);
    }
  }

  /** Trial division of `n` by lo..=hi, as a computation that Dafny can
      evaluate on literals; used to check concrete primes. */
  function NoDivisorBetween(n: nat, lo: nat, hi: nat): bool
    decreases hi + 1 - lo
  {
    lo > hi || (!Divides(lo, n) && NoDivisorBetween(n, lo + 1, hi))
  }

  lemma {:induction false} NoDivisorBetweenSound(n: nat, lo: nat, hi: nat)
    requires NoDivisorBetween(n, lo, hi)
    ensures forall d :: lo <= d <= hi ==> !Divides(d, n)
    decreases hi + 1 - lo
  {
    if lo <= hi {
      NoDivisorBetweenSound(n, lo + 1, hi);
    }
  }

  /** The contract of `Isqrt` determines its result. */
  lemma IsqrtUnique(n: nat, r: nat)
    requires r * r <= n < (r + 1) * (r + 1)
    ensures Isqrt(n) == r
  {
    var s := Isqrt(n);
    if s < r {
      MulMonotone(s + 1, s + 1, r, r);
    } else if s > r {
      MulMonotone(r + 1, r + 1, s, s);
    }
  }

  lemma PrimeByTrialDivision(n: nat, r: nat)
    requires n >= 2 && r * r <= n < (r + 1) * (r + 1) && NoDivisorBetween(n, 2, r)
    ensures IsPrime(n)
  {
    IsqrtUnique(n, r);
    NoDivisorBetweenSound(n, 2, r);
    TrialDivisionBySmallIntegers(n);
  }

  // ---------------------------------------------------------------------
  // The reference enumeration

  lemma {:induction false} PrimesBetweenEnumerates(lo: nat, hi: nat)
    ensures EnumeratesPrimes(PrimesBetween(lo, hi), lo, hi)
    decreases hi
  {
    if hi > lo {
      PrimesBetweenEnumerates(lo, hi - 1);
      var s := PrimesBetween(lo, hi - 1);
      var r := PrimesBetween(lo, hi);
      assert forall x :: x in s ==> x < hi - 1;
      if IsPrime(hi - 1) {
        assert r == s + [hi - 1];
        forall i, j | 0 <= i < j < |r|
          ensures r[i] < r[j]
        {
          if j == |s| {
            assert r[i] == s[i] && s[i] in s;
          }
        }
      } else {
        assert r == s;
      }
    }
  }

  /** Every value PrimesBetween(lo, hi) lists lies in [lo, hi). */
  lemma PrimesBetweenBounds(lo: nat, hi: nat)
    ensures forall i :: 0 <= i < |PrimesBetween(lo, hi)| ==> lo <= PrimesBetween(lo, hi)[i] < hi
  {
    var s := PrimesBetween(lo, hi);
    PrimesBetweenEnumerates(lo, hi);
    forall i | 0 <= i < |s|
      ensures lo <= s[i] < hi
    {
      assert s[i] in s;
    }
  }

  /** Names the membership fact as a lemma call, so that a branch whose
      facts clash can close with `assert false` alone. */
  lemma FirstIsMember(s: seq<nat>)
    requires s != []
    ensures s[0] in s
  {
  }

  /** Two ascending, duplicate-free sequences with the same elements are equal. */
  lemma {:induction false} StrictlyIncreasingUnique(a: seq<nat>, b: seq<nat>)
    requires StrictlyIncreasing(a) && StrictlyIncreasing(b)
    requires forall x :: x in a <==> x in b
    ensures a == b
    decreases |a|
  {
    if a == [] {
      if b != [] {
        FirstIsMember(b);
        assert false;
      }
    } else {
      assert a[0] in b && b != [];
      assert b[0] in a;
      var i :| 0 <= i < |a| && a[i] == b[0];
      var j :| 0 <= j < |b| && b[j] == a[0];
      forall x
        ensures x in a[1..] <==> x in b[1..]
      {
        if x in a[1..] {
          var k :| 1 <= k < |a| && a[k] == x;
          assert x > a[0];
          assert x in b;
          var m :| 0 <= m < |b| && b[m] == x;
          assert m != 0;
          assert b[m] == b[1..][m - 1];
        }
        if x in b[1..] {
          var k :| 1 <= k < |b| && b[k] == x;
          assert x > b[0];
          assert x in a;
          var m :| 0 <= m < |a| && a[m] == x;
          assert m != 0;
          assert a[m] == a[1..][m - 1];
        }
      }
      StrictlyIncreasingUnique(a[1..], b[1..]);
      assert a == [a[0]] + a[1..] && b == [b[0]] + b[1..];
    }
  }

  /** `PrimesBetween` is the only enumeration of the primes in [lo, hi): any
      sequence that lists them ascending and complete is equal to it. */
  lemma EnumerationIsPrimesBetween(s: seq<nat>, lo: nat, hi: nat)
    requires EnumeratesPrimes(s, lo, hi)
    ensures s == PrimesBetween(lo, hi)
  {
    PrimesBetweenEnumerates(lo, hi);
    StrictlyIncreasingUnique(s, PrimesBetween(lo, hi));
  }

  /** Adjacent intervals enumerate one after the other. */
  lemma {:induction false} PrimesBetweenSplit(lo: nat, mid: nat, hi: nat)
    requires lo <= mid <= hi
    ensures PrimesBetween(lo, hi) == PrimesBetween(lo, mid) + PrimesBetween(mid, hi)
    decreases hi
  {
    if hi > mid {
      PrimesBetweenSplit(lo, mid, hi - 1);
    }
  }

  /** No prime lies below 2, so raising a lower bound to 2 changes nothing. */
  lemma PrimesBetweenFromTwo(lo: nat, hi: nat)
    ensures PrimesBetween(lo, hi) == PrimesBetween(if lo < 2 then 2 else lo, hi)
  {
    var lo' := if lo < 2 then 2 else lo;
    PrimesBetweenEnumerates(lo', hi);
    EnumerationIsPrimesBetween(PrimesBetween(lo', hi), lo, hi);
  }

  /** An even upper bound above 2 is never prime, so excluding it loses nothing. */
  lemma EvenBoundExcludesNoPrime(lo: nat, m: nat)
    requires m > 2 && m % 2 == 0
    ensures PrimesBetween(lo, m) == PrimesBetween(lo, m + 1)
  {
    assert Divides(2, m);
    assert !IsPrime(m);
  }

  /** The prefix of an enumeration up to and including its k-th element is the
      enumeration of everything up to that element. */
  lemma PrimesBetweenPrefix(lo: nat, hi: nat, k: nat)
    requires k < |PrimesBetween(lo, hi)|
    ensures PrimesBetween(lo, hi)[k] < hi
    ensures PrimesBetween(lo, hi)[..k + 1] == PrimesBetween(lo, PrimesBetween(lo, hi)[k] + 1)
  {
    var s := PrimesBetween(lo, hi);
    PrimesBetweenEnumerates(lo, hi);
    var x := s[k];
    assert x in s;
    var t := s[..k + 1];
    forall p | lo <= p < x + 1 && IsPrime(p)
      ensures p in t
    {
      var i :| 0 <= i < |s| && s[i] == p;
      assert i <= k;
      assert t[i] == p;
    }
    forall y | y in t
      ensures lo <= y < x + 1 && IsPrime(y)
    {
      var i :| 0 <= i < |t| && t[i] == y;
      assert s[i] == y && y in s;
      if i < k {
        assert s[i] < s[k];
      }
    }
    EnumerationIsPrimesBetween(t, lo, x + 1);
  }

  /** Removes every occurrence of `x`. */
  function Without(s: seq<nat>, x: nat): (r: seq<nat>)
  {
    if s == [] then []
    else (if s[0] == x then [] else [s[0]]) + Without(s[1..], x)
  }

  lemma {:induction false} WithoutAppend(s: seq<nat>, t: seq<nat>, x: nat)
    ensures Without(s + t, x) == Without(s, x) + Without(t, x)
    decreases |s|
  {
    if s != [] {
      assert (s + t)[1..] == s[1..] + t;
      WithoutAppend(s[1..], t, x);
    } else {
      assert s + t == t;
    }
  }

  lemma {:induction false} WithoutAbsent(s: seq<nat>, x: nat)
    requires x !in s
    ensures Without(s, x) == s
    decreases |s|
  {
    if s != [] {
      WithoutAbsent(s[1..], x);
      assert s == [s[0]] + s[1..];
    }
  }

  /** Excluding the upper bound of an inclusive enumeration is the same as
      removing that bound from it: the relation between `EratoOne`'s and
      `Naive`'s answers to the same query. */
  lemma ExclusiveIsInclusiveWithoutBound(lo: nat, hi: nat)
    ensures PrimesBetween(lo, hi) == Without(PrimesBetween(lo, hi + 1), hi)
  {
    var s := PrimesBetween(lo, hi);
    PrimesBetweenEnumerates(lo, hi);
    assert hi !in s;
    WithoutAbsent(s, hi);
    if hi + 1 > lo {
      var tail := if IsPrime(hi) then [hi] else [];
      assert PrimesBetween(lo, hi + 1) == s + tail;
      WithoutAppend(s, tail, hi);
      if IsPrime(hi) {
        assert Without(tail, hi) == [] + Without([], hi);
      }
    }
  }
}
