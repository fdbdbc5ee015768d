/** The incremental generator of src/erato_one.rs. It keeps every prime it
    has found and the largest integer it has classified, extends that record
    only over (max_tested, max], and answers from the record. */
module EratoOne {
  import opened Primality

  class EratoOne {
    var maxTested: nat
    var primes: seq<nat>

    /** `primes` is the ascending list of every prime up to and including
        `maxTested`. */
    ghost predicate Valid()
      reads this
    {
      maxTested >= 1 && primes == PrimesBetween(0, maxTested + 1)
    }

    /** `Default::default()`: nothing below 2 is prime, so the empty record is
        complete up to 1. */
    constructor ()
      ensures Valid()
      ensures maxTested == 1 && primes == []
    {
      maxTested := 1;
      primes := [];
    }

    /** Classifies every candidate in (max_tested, max] by trial division
        against the record, appending the primes, then returns the recorded
        primes `p` with `min <= p < max`: the upper bound is exclusive although
        `max` itself was classified. */
    method Generate(min: nat, max: nat) returns (v: seq<nat>)
      requires Valid()
      modifies this
      ensures Valid()
      ensures maxTested == if max > old(maxTested) then max else old(maxTested)
      ensures max <= old(maxTested) ==> primes == old(primes)
      ensures v == PrimesBetween(min, max)
    {
      if max > maxTested {
        var candidate := maxTested + 1;
        while candidate <= max
          invariant maxTested == old(maxTested)
          invariant maxTested + 1 <= candidate <= max + 1
          invariant primes == PrimesBetween(0, candidate)
        {
          var prime := NoStoredPrimeDivides(candidate, primes);
          assert PrimesBetween(0, candidate + 1) == primes + if prime then [candidate] else [];
          if prime {
            primes := primes + [candidate];
          }
          candidate := candidate + 1;
        }
        maxTested := max;
      }
      v := RecordedSlice(primes, maxTested + 1, min, max);
    }
  }

  /** The inner loop of `generate`: trial division of `candidate` by the
      recorded primes not exceeding isqrt(candidate) (a `take_while` over the
      ascending record), abandoning the candidate at the first divisor. */
  method NoStoredPrimeDivides(candidate: nat, primes: seq<nat>) returns (prime: bool)
    requires candidate >= 2 && primes == PrimesBetween(0, candidate)
    ensures prime <==> IsPrime(candidate)
  {
    assert StrictlyIncreasing(primes) && forall k :: 0 <= k < |primes| ==> primes[k] >= 2 by {
      PrimesBetweenEnumerates(0, candidate);
      forall k | 0 <= k < |primes|
        ensures primes[k] >= 2
      {
        assert primes[k] in primes;
      }
    }
    var maxFactor := Isqrt(candidate);
    var j := 0;
    while j < |primes| && primes[j] <= maxFactor && candidate % primes[j] != 0
      invariant j <= |primes|
      invariant forall k :: 0 <= k < j ==> !Divides(primes[k], candidate)
    {
      j := j + 1;
    }
    prime := j == |primes| || primes[j] > maxFactor;
    assert prime <==> forall k :: 0 <= k < |primes| && primes[k] <= maxFactor ==> !Divides(primes[k], candidate) by {
      if prime {
        forall k | j <= k < |primes|
          ensures primes[k] > maxFactor
        {
          if j < k {
            assert primes[j] < primes[k];
          }
        }
      } else {
        assert Divides(primes[j], candidate);
      }
    }
    TrialDivisionByStoredPrimes(candidate, primes);
  }

  /** The closing `iter().skip_while(|&&p| p < min).take_while(|&&p| p < max)`
      of `generate`, over a record complete below `hi`. */
  method RecordedSlice(record: seq<nat>, ghost hi: nat, min: nat, max: nat) returns (v: seq<nat>)
    requires record == PrimesBetween(0, hi) && max <= hi
    ensures v == PrimesBetween(min, max)
  {
    v := TakeWhileBelow(SkipWhileBelow(record, min), max);
    SliceOfRecord(hi, min, max);
  }

  /** `skip_while(|&&p| p < min)`. */
  function SkipWhileBelow(s: seq<nat>, min: nat): (r: seq<nat>)
    ensures |r| <= |s| && r == s[|s| - |r|..]
    ensures forall i :: 0 <= i < |s| - |r| ==> s[i] < min
    ensures r != [] ==> r[0] >= min
  {
    if s == [] || s[0] >= min then s else SkipWhileBelow(s[1..], min)
  }

  /** `take_while(|&&p| p < max)`. */
  function TakeWhileBelow(s: seq<nat>, max: nat): (r: seq<nat>)
    ensures |r| <= |s| && r == s[..|r|]
    ensures forall x :: x in r ==> x < max
    ensures |r| < |s| ==> s[|r|] >= max
  {
    if s == [] || s[0] >= max then [] else [s[0]] + TakeWhileBelow(s[1..], max)
  }

  /** Skipping the values below `min` from `a + b` leaves `b` when every
      value of `a` is below `min` and `b` starts at or above it. */
  lemma {:induction false} SkipPast(a: seq<nat>, b: seq<nat>, min: nat)
    requires forall i :: 0 <= i < |a| ==> a[i] < min
    requires b == [] || b[0] >= min
    ensures SkipWhileBelow(a + b, min) == b
    decreases |a|
  {
    if a == [] {
      assert a + b == b;
    } else {
      assert (a + b)[1..] == a[1..] + b;
      SkipPast(a[1..], b, min);
    }
  }

  /** Taking the values below `max` from `a + b` leaves `a` when every value
      of `a` is below `max` and `b` starts at or above it. */
  lemma {:induction false} TakeBefore(a: seq<nat>, b: seq<nat>, max: nat)
    requires forall i :: 0 <= i < |a| ==> a[i] < max
    requires b == [] || b[0] >= max
    ensures TakeWhileBelow(a + b, max) == a
    decreases |a|
  {
    if a == [] {
      assert a + b == b;
    } else {
      assert (a + b)[1..] == a[1..] + b;
      TakeBefore(a[1..], b, max);
      assert [a[0]] + a[1..] == a;
    }
  }

  /** The slice `generate` returns from a record complete below `hi` is the
      enumeration of [min, max) whenever `max <= hi`. It is also why a later
      call with a larger bound agrees with an earlier one below the earlier
      bound. */
  lemma SliceOfRecord(hi: nat, min: nat, max: nat)
    requires max <= hi
    ensures TakeWhileBelow(SkipWhileBelow(PrimesBetween(0, hi), min), max) == PrimesBetween(min, max)
  {
    var m := if min <= hi then min else hi;
    var tail := PrimesBetween(m, hi);
    PrimesBetweenSplit(0, m, hi);
    PrimesBetweenBounds(0, m);
    PrimesBetweenBounds(m, hi);
    SkipPast(PrimesBetween(0, m), tail, min);
    if min <= max {
      var rest := PrimesBetween(max, hi);
      PrimesBetweenSplit(min, max, hi);
      PrimesBetweenBounds(min, max);
      PrimesBetweenBounds(max, hi);
      TakeBefore(PrimesBetween(min, max), rest, max);
    } else {
      assert TakeWhileBelow(tail, max) == [];
    }
  }

  /** What the invariant means for any valid instance, in terms of its
      fields: the record holds exactly the primes in [2, maxTested],
      ascending. */
  lemma RecordIsComplete(e: EratoOne)
    requires e.Valid()
    ensures EnumeratesPrimes(e.primes, 2, e.maxTested + 1)
  {
    PrimesBetweenFromTwo(0, e.maxTested + 1);
    PrimesBetweenEnumerates(2, e.maxTested + 1);
  }

  /** A fresh instance asked for (1, 2) returns nothing but records 2, which a
      following (1, 3) returns. */
  method FreshInstanceScenario() returns (first: seq<nat>, recorded: seq<nat>, second: seq<nat>)
    ensures first == [] && recorded == [2] && second == [2]
  {
    var e := new EratoOne();
    first := e.Generate(1, 2);
    recorded := e.primes;
    second := e.Generate(1, 3);
    assert IsPrime(2);
    assert PrimesBetween(0, 3) == [2];
  }

  /** Two calls with the same bounds return the same primes, whatever the
      first call added to the record. */
  method RepeatedCallsAgree(e: EratoOne, min: nat, max: nat) returns (first: seq<nat>, second: seq<nat>)
    requires e.Valid()
    modifies e
    ensures e.Valid()
    ensures first == second
  {
    first := e.Generate(min, max);
    second := e.Generate(min, max);
  }

  /** `generate(10, 23)` leaves 23 out although it is prime. */
  lemma StrictUpperBoundExample()
    ensures PrimesBetween(10, 23) == [11, 13, 17, 19]
  {
    PrimesBetweenSplit(10, 17, 23);
    PrimesFrom10To16();
    PrimesFrom17To22();
  }

  lemma PrimesFrom10To16()
    ensures PrimesBetween(10, 17) == [11, 13]
  {
    assert !IsPrime(16) by { assert Divides(2, 16); }
    assert !IsPrime(15) by { assert Divides(3, 15); }
    assert !IsPrime(14) by { assert Divides(2, 14); }
    assert !IsPrime(12) by { assert Divides(2, 12); }
    assert !IsPrime(10) by { assert Divides(2, 10); }
    PrimeByTrialDivision(11, 3);
    PrimeByTrialDivision(13, 3);
  }

  lemma PrimesFrom17To22()
    ensures PrimesBetween(17, 23) == [17, 19]
  {
    assert !IsPrime(22) by { assert Divides(2, 22); }
    assert !IsPrime(21) by { assert Divides(3, 21); }
    assert !IsPrime(20) by { assert Divides(2, 20); }
    assert !IsPrime(18) by { assert Divides(2, 18); }
    PrimeByTrialDivision(17, 4);
    PrimeByTrialDivision(19, 4);
  }
}
