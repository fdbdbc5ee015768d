/** The stateless trial-division generator of src/naive.rs. `Naive` is a
    unit struct, so `generate` depends on its arguments alone and is modelled
    as a module-level method. */
module Naive {
  import opened Primality

  /** Every integer candidate in [max(min, 2), max] is tested by trial
      division and pushed, in ascending order, when no divisor is found. */
  method Generate(min: nat, max: nat) returns (v: seq<nat>)
    ensures EnumeratesPrimes(v, min, max + 1)
    ensures v == PrimesBetween(min, max + 1)
    ensures max < (if min < 2 then 2 else min) ==> v == []
  {
    v := [];
    var low := if min < 2 then 2 else min;
    var candidate := low;
    while candidate <= max
      invariant low <= candidate
      invariant candidate <= max + 1 || candidate == low
      invariant v == PrimesBetween(low, candidate)
    {
      var prime := NoDivisorUpToIsqrt(candidate);
      if prime {
        v := v + [candidate];
      }
      candidate := candidate + 1;
    }
    PrimesBetweenFromTwo(min, max + 1);
    if candidate > max + 1 {
      assert PrimesBetween(low, max + 1) == [];
    } else {
      assert candidate == max + 1;
    }
    PrimesBetweenEnumerates(min, max + 1);
  }

  /** The inner loop of `generate`: trial division of `candidate` by every
      integer in 2..=isqrt(candidate), abandoning the candidate at the first
      divisor. */
  method NoDivisorUpToIsqrt(candidate: nat) returns (prime: bool)
    requires candidate >= 2
    ensures prime <==> IsPrime(candidate)
  {
    var maxFactor := Isqrt(candidate);
    var factor := 2;
    while factor <= maxFactor && candidate % factor != 0
      invariant 2 <= factor
      invariant forall d :: 2 <= d < factor ==> !Divides(d, candidate)
    {
      factor := factor + 1;
    }
    TrialDivisionBySmallIntegers(candidate);
    prime := factor > maxFactor;
    if !prime {
      assert Divides(factor, candidate);
    }
  }

  /** `take_while(|&n| n <= bound)`. `NoDivisorUpToIsqrt` steps `factor`
      through 2..=maxFactor directly; this function, `InclusiveRange` and
      `TakeWhileKeepsAllDivisors` only justify that bound: the source's
      `take_while` over `2..=max_factor` removes nothing. */
  function TakeWhileAtMost(s: seq<nat>, bound: nat): (r: seq<nat>)
    ensures |r| <= |s| && r == s[..|r|]
    ensures forall x :: x in r ==> x <= bound
    ensures |r| < |s| ==> s[|r|] > bound
  {
    if s == [] || s[0] > bound then [] else [s[0]] + TakeWhileAtMost(s[1..], bound)
  }

  /** The integers lo..=hi, ascending (Rust's `lo..=hi`). */
  function InclusiveRange(lo: nat, hi: nat): (r: seq<nat>)
    ensures |r| == if hi < lo then 0 else hi - lo + 1
    ensures forall i :: 0 <= i < |r| ==> r[i] == lo + i
    decreases hi + 1 - lo
  {
    if hi < lo then [] else [lo] + InclusiveRange(lo + 1, hi)
  }

  /** The inner `take_while(|&n| n <= max_factor)` keeps the whole range
      `lo..=max_factor`: every value in it already satisfies the predicate, so
      trial division tries every integer from 2 to isqrt(candidate). */
  lemma {:induction false} TakeWhileKeepsAllDivisors(lo: nat, maxFactor: nat)
    ensures TakeWhileAtMost(InclusiveRange(lo, maxFactor), maxFactor) == InclusiveRange(lo, maxFactor)
    decreases maxFactor + 1 - lo
  {
    if lo <= maxFactor {
      TakeWhileKeepsAllDivisors(lo + 1, maxFactor);
    }
  }

  /** `generate(0, 10)` returns `[2, 3, 5, 7]`: 0 and 1 are never candidates,
      and the bound 10 is inclusive. */
  method UpToTenExample() returns (v: seq<nat>)
    ensures v == [2, 3, 5, 7]
  {
    v := Generate(0, 10);
    PrimesUpToTen();
  }

  lemma PrimesUpToTen()
    ensures PrimesBetween(0, 11) == [2, 3, 5, 7]
  {
    assert !IsPrime(10) by { assert Divides(2, 10); }
    assert !IsPrime(9) by { assert Divides(3, 9); }
    assert !IsPrime(8) by { assert Divides(2, 8); }
    assert !IsPrime(6) by { assert Divides(2, 6); }
    assert !IsPrime(4) by { assert Divides(2, 4); }
    PrimeByTrialDivision(7, 2);
    PrimeByTrialDivision(5, 2);
    PrimeByTrialDivision(3, 1);
    PrimeByTrialDivision(2, 1);
  }
}
