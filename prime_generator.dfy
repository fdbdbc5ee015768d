/** The generator contract of src/prime_generator.rs and the iterator that
    turns any generator into an unbounded stream of primes.

    Rust's `PrimeGenerator` trait has two implementations, `Naive` and
    `EratoOne`; here the choice of implementation is the datatype `Generator`,
    and the trait's methods dispatch on it. */
module PrimeGenerator {
  import opened Primality
  import Naive
  import EratoOne

  datatype Result<T, E> = Success(value: T) | Failure(error: E)

  /** `std::ops::Bound<&u64>`, the two ends of a `RangeBounds`. */
  datatype Bound = Included(n: nat) | Excluded(n: nat) | Unbounded

  datatype RangeError =
    | UnboundedEnd   // the explicit panic of `range`: an infinite range cannot be materialised
    | EndUnderflow   // `n - 1` on an `Excluded(0)` end underflows a u64

  /** The values a Rust range with these ends contains (`RangeBounds::contains`). */
  predicate InRange(start: Bound, end: Bound, x: nat) {
    && (match start
        case Included(n) => n <= x
        case Excluded(n) => n < x
        case Unbounded => true)
    && (match end
        case Included(n) => x <= n
        case Excluded(n) => x < n
        case Unbounded => true)
  }

  /** The translation `range` performs before it calls `generate`: an
      inclusive pair (min, max) holding exactly the values the range
      contains, or the failure the source panics with. */
  function Bounds(start: Bound, end: Bound): (r: Result<(nat, nat), RangeError>)
    ensures r.Failure? <==> end.Unbounded? || end == Excluded(0)
    ensures r.Failure? ==> (r.error == UnboundedEnd <==> end.Unbounded?)
    ensures r.Success? ==> forall x: nat :: InRange(start, end, x) <==> r.value.0 <= x <= r.value.1
    ensures r.Success? ==> r.value.0 == match start
      case Included(n) => n
      case Excluded(n) => n + 1
      case Unbounded => 0
    ensures r.Success? ==> r.value.1 == if end.Included? then end.n else end.n - 1
  {
    var min := match start
      case Included(n) => n
      case Excluded(n) => n + 1
      case Unbounded => 0;
    match end
    case Included(n) => Success((min, n))
    case Excluded(n) => if n == 0 then Failure(EndUnderflow) else Success((min, n - 1))
    case Unbounded => Failure(UnboundedEnd)
  }

  // ---------------------------------------------------------------------
  // The generator contract

  datatype Generator = NaiveGenerator | EratoOneGenerator(sieve: EratoOne.EratoOne)

  /** The state a generator may change: `Naive` has none. */
  function Footprint(g: Generator): set<object> {
    if g.EratoOneGenerator? then {g.sieve} else {}
  }

  ghost predicate Ready(g: Generator)
    reads Footprint(g)
  {
    g.EratoOneGenerator? ==> g.sieve.Valid()
  }

  /** What `generate(min, max)` returns: `Naive` includes `max`, `EratoOne`
      excludes it. */
  ghost function Answer(g: Generator, min: nat, max: nat): seq<nat> {
    if g.NaiveGenerator? then PrimesBetween(min, max + 1) else PrimesBetween(min, max)
  }

  /** `PrimeGenerator::generate`, dispatched to the implementation. */
  method Generate(g: Generator, min: nat, max: nat) returns (v: seq<nat>)
    requires Ready(g)
    modifies Footprint(g)
    ensures Ready(g)
    ensures v == Answer(g, min, max)
    ensures g.EratoOneGenerator? ==>
      g.sieve.maxTested == if max > old(g.sieve.maxTested) then max else old(g.sieve.maxTested)
    ensures g.EratoOneGenerator? && max <= old(g.sieve.maxTested) ==> g.sieve.primes == old(g.sieve.primes)
  {
    match g
    case NaiveGenerator =>
      v := Naive.Generate(min, max);
    case EratoOneGenerator(sieve) =>
      v := sieve.Generate(min, max);
  }

  /** The two implementations disagree on the upper end: asked for
      `generate(10, 23)`, `Naive` returns 23 and `EratoOne` does not. */
  lemma GeneratorsDifferAtUpperEnd(sieve: EratoOne.EratoOne)
    ensures Answer(NaiveGenerator, 10, 23) == [11, 13, 17, 19, 23]
    ensures Answer(EratoOneGenerator(sieve), 10, 23) == [11, 13, 17, 19]
  {
    EratoOne.StrictUpperBoundExample();
    PrimeByTrialDivision(23, 4);
  }

  /** `EratoOne`'s answer is `Naive`'s answer with `max` itself removed. */
  lemma EratoOneIsNaiveWithoutUpperEnd(sieve: EratoOne.EratoOne, min: nat, max: nat)
    ensures Answer(EratoOneGenerator(sieve), min, max) == Without(Answer(NaiveGenerator, min, max), max)
  {
    ExclusiveIsInclusiveWithoutBound(min, max);
  }

  /** `PrimeGenerator::range`: translate the bounds, then `generate`. A range
      with no upper end fails before the generator is touched. */
  method Range(g: Generator, start: Bound, end: Bound) returns (r: Result<seq<nat>, RangeError>)
    requires Ready(g)
    modifies Footprint(g)
    ensures Ready(g)
    ensures Bounds(start, end).Failure? ==>
      r == Failure(Bounds(start, end).error) && unchanged(Footprint(g))
    ensures Bounds(start, end).Success? ==>
      r == Success(Answer(g, Bounds(start, end).value.0, Bounds(start, end).value.1))
    ensures Bounds(start, end).Success? && g.EratoOneGenerator? ==>
      var max := Bounds(start, end).value.1;
      && g.sieve.maxTested == (if max > old(g.sieve.maxTested) then max else old(g.sieve.maxTested))
      && (max <= old(g.sieve.maxTested) ==> g.sieve.primes == old(g.sieve.primes))
  {
    var bounds := Bounds(start, end);
    if bounds.Failure? {
      r := Failure(bounds.error);
    } else {
      var v := Generate(g, bounds.value.0, bounds.value.1);
      r := Success(v);
    }
  }

  // ---------------------------------------------------------------------
  // Window arithmetic of the iterator

  const MaxWindow: nat := 1048576

  /** The size of the next window, from the span `buffer_max - buffer_min`
      of the previous one. */
  function WindowSize(oldSpan: nat): (size: nat)
    ensures size % 2 == 0 && 0 < size < 2 * MaxWindow
    ensures oldSpan == 0 ==> size == 1024
    ensures oldSpan >= 512 ==> size >= 1024
  {
    if oldSpan == 0 then 1024
    else if oldSpan >= MaxWindow then MaxWindow
    else oldSpan * 2
  }

  /** The span `buffer_max - buffer_min` after `k` refills of a new iterator. */
  function SpanAfterRefills(k: nat): nat {
    if k == 0 then 0 else WindowSize(SpanAfterRefills(k - 1)) - 1
  }

  /** Only the first refill sees an empty span, so the 1024 branch fires once. */
  lemma {:induction false} LaterSpansAreWide(k: nat)
    requires k >= 1
    ensures SpanAfterRefills(k) >= 1023
  {
    if k > 1 {
      LaterSpansAreWide(k - 1);
    }
  }

  /** The shape `PrimeIterator` keeps across refills: the span matches the
      refill count, only a fresh iterator has a zero upper end, and every
      later upper end is even and at least 1024. */
  ghost predicate WindowShape(min: nat, max: nat, k: nat) {
    && min <= max
    && max - min == SpanAfterRefills(k)
    && (k == 0 <==> max == 0)
    && max % 2 == 0
    && (max != 0 ==> max >= 1024)
  }

  /** A refill keeps that shape. */
  lemma NextWindowKeepsShape(min: nat, max: nat, k: nat)
    requires WindowShape(min, max, k)
    ensures WindowShape(max + 1, max + WindowSize(max - min), k + 1)
  {
    if k > 0 {
      LaterSpansAreWide(k);
    }
  }

  /** The cap tests the span, not the doubled size, so the twelfth window is
      larger than 1048576; the windows after it alternate between 1048576
      and 2097150. */
  lemma WindowExceedsCap()
    ensures SpanAfterRefills(11) == 1046529
    ensures WindowSize(SpanAfterRefills(11)) == 2093058 > MaxWindow
    ensures WindowSize(SpanAfterRefills(12)) == MaxWindow
    ensures WindowSize(SpanAfterRefills(13)) == 2097150
    ensures WindowSize(SpanAfterRefills(14)) == MaxWindow
  {
    // The spans after refills 1 to 10 are 1023, 2045, 4089, 8177, 16353,
    // 32705, 65409, 130817, 261633 and 523265.
  }

  // ---------------------------------------------------------------------
  // The stream the iterator produces

  /** Once a window's primes are all consumed, the stream so far is every
      prime below the window's end. */
  lemma WindowConsumed(lo: nat, hi: nat, emitted: seq<nat>)
    requires lo <= hi && emitted == PrimesBetween(0, lo) + PrimesBetween(lo, hi)
    ensures emitted == PrimesBetween(0, hi)
  {
    PrimesBetweenSplit(0, lo, hi);
  }

  /** Consuming a window's primes up to its k-th leaves the stream equal to
      every prime up to that one: the values come out strictly increasing,
      and no prime is skipped. */
  lemma StreamUpTo(lo: nat, hi: nat, k: nat)
    requires k < |PrimesBetween(lo, hi)|
    ensures PrimesBetween(0, lo) + PrimesBetween(lo, hi)[..k + 1]
      == PrimesBetween(0, PrimesBetween(lo, hi)[k] + 1)
  {
    var s := PrimesBetween(lo, hi);
    PrimesBetweenPrefix(lo, hi, k);
    PrimesBetweenEnumerates(lo, hi);
    assert s[k] in s;
    PrimesBetweenSplit(0, lo, s[k] + 1);
  }

  /** What the stream property of `next` means: the value returned is
      prime, larger than everything returned before, and every smaller prime
      was already returned. So the iterator yields 2, 3, 5, 7, ... in order,
      skipping none. */
  lemma ReturnedValueIsNextPrime(emitted: seq<nat>, value: nat)
    requires emitted + [value] == PrimesBetween(0, value + 1)
    ensures IsPrime(value)
    ensures forall i :: 0 <= i < |emitted| ==> emitted[i] < value
    ensures forall p: nat :: p < value && IsPrime(p) ==> p in emitted
  {
    var s := emitted + [value];
    PrimesBetweenEnumerates(0, value + 1);
    assert s[|emitted|] == value && value in s;
    forall i | 0 <= i < |emitted|
      ensures emitted[i] < value
    {
      assert s[i] == emitted[i];
    }
    forall p: nat | p < value && IsPrime(p)
      ensures p in emitted
    {
      assert p in s;
    }
  }

  /** Both generators give the same answer on a window whose upper end is
      an even number above 2: that end is not prime, so `EratoOne`'s
      exclusive bound loses nothing. */
  lemma EvenBoundAnswer(g: Generator, min: nat, max: nat)
    requires max > 2 && max % 2 == 0
    ensures Answer(g, min, max) == PrimesBetween(min, max + 1)
  {
    EvenBoundExcludesNoPrime(min, max);
  }

  /** The state of a `PrimeIterator` apart from its generator: the window
      [min, max] has the shape of the k-th refill, the buffer holds exactly
      its primes, and the values returned are the primes before the window
      followed by the first `index` primes of the buffer. */
  ghost predicate StreamState(min: nat, max: nat, k: nat, buffer: seq<nat>, index: nat, emitted: seq<nat>) {
    && index <= |buffer|
    && WindowShape(min, max, k)
    && buffer == PrimesBetween(min, max + 1)
    && emitted == PrimesBetween(0, min) + buffer[..index]
  }

  /** A refill after the buffer is used up keeps the stream state: the
      values returned so far are every prime up to the old upper end, which
      is everything before the new window. */
  lemma RefillKeepsStream(min: nat, max: nat, k: nat, buffer: seq<nat>, index: nat, emitted: seq<nat>,
                           newMin: nat, newMax: nat, primes: seq<nat>)
    requires StreamState(min, max, k, buffer, index, emitted) && index == |buffer|
    requires newMin == max + 1 && newMax == newMin + WindowSize(max - min) - 1
    requires primes == PrimesBetween(newMin, newMax + 1)
    ensures StreamState(newMin, newMax, k + 1, primes, 0, emitted)
  {
    assert buffer[..index] == buffer;
    WindowConsumed(min, max + 1, emitted);
    NextWindowKeepsShape(min, max, k);
  }

  /** Emitting the prime under the cursor keeps the stream state, and the
      values returned are then every prime up to the one just returned. */
  lemma EmitKeepsStream(min: nat, max: nat, k: nat, buffer: seq<nat>, index: nat, emitted: seq<nat>)
    requires StreamState(min, max, k, buffer, index, emitted) && index < |buffer|
    ensures StreamState(min, max, k, buffer, index + 1, emitted + [buffer[index]])
    ensures emitted + [buffer[index]] == PrimesBetween(0, buffer[index] + 1)
  {
    assert buffer[..index] + [buffer[index]] == buffer[..index + 1];
    StreamUpTo(min, max + 1, index);
  }

  /** The `range(buffer_min..=buffer_max)` call of a refill: on a window
      ending at an even number above 2, every generator answers with all the
      primes of the window. */
  method FillWindow(g: Generator, min: nat, max: nat) returns (primes: seq<nat>)
    requires Ready(g) && max > 2 && max % 2 == 0
    modifies Footprint(g)
    ensures Ready(g)
    ensures primes == PrimesBetween(min, max + 1)
  {
    var answer := Range(g, Included(min), Included(max));
    primes := answer.value;
    EvenBoundAnswer(g, min, max);
  }

  // ---------------------------------------------------------------------
  // The iterator

  datatype IterError = IndexOutOfBounds   // `self.buffer[self.buffer_index]` on an empty window

  class PrimeIterator {
    const generator: Generator
    var buffer: seq<nat>
    var bufferMin: nat
    var bufferMax: nat
    var bufferIndex: nat
    /** Everything returned so far, and the number of refills. */
    ghost var emitted: seq<nat>
    ghost var refills: nat

    /** The buffer holds exactly the primes of the window [bufferMin,
        bufferMax]; the windows so far tile [1, bufferMax]; the values
        returned are the primes before the window followed by the consumed
        part of the buffer. */
    ghost predicate Valid()
      reads this, Footprint(generator)
    {
      && Ready(generator)
      && StreamState(bufferMin, bufferMax, refills, buffer, bufferIndex, emitted)
    }

    /** `PrimeIterator::new`: an empty buffer and a zero window. */
    constructor (generator: Generator)
      requires Ready(generator)
      ensures Valid()
      ensures this.generator == generator
      ensures buffer == [] && bufferMin == 0 && bufferMax == 0 && bufferIndex == 0
      ensures emitted == []
    {
      this.generator := generator;
      buffer := [];
      bufferMin := 0;
      bufferMax := 0;
      bufferIndex := 0;
      emitted := [];
      refills := 0;
    }

    /** The refill step of `next`: the next window starts right after the
        previous one, its size follows `WindowSize`, and the buffer is
        replaced by the generator's answer for it, with the cursor at 0. */
    method Refill()
      requires Valid() && bufferIndex == |buffer|
      modifies this, Footprint(generator)
      ensures Valid()
      ensures emitted == old(emitted) && bufferIndex == 0
      ensures bufferMin == old(bufferMax) + 1
      ensures bufferMax == old(bufferMax) + WindowSize(old(bufferMax - bufferMin))
    {
      var newRangeSize := WindowSize(bufferMax - bufferMin);
      var newMin := bufferMax + 1;
      var newMax := newMin + newRangeSize - 1;
      NextWindowKeepsShape(bufferMin, bufferMax, refills);
      var primes := FillWindow(generator, newMin, newMax);
      RefillKeepsStream(bufferMin, bufferMax, refills, buffer, bufferIndex, emitted, newMin, newMax, primes);
      bufferMin := newMin;
      bufferMax := newMax;
      refills := refills + 1;
      buffer := primes;
      bufferIndex := 0;
    }

    /** `Iterator::next`. When the buffer is used up, refills it once; then
        returns the value under the cursor and advances it. An empty window
        leaves the cursor past the end: the source panics there. */
    method Next() returns (r: Result<nat, IterError>)
      requires Valid()
      modifies this, Footprint(generator)
      ensures Valid()
      ensures r.Success? ==> emitted == old(emitted) + [r.value] && emitted == PrimesBetween(0, r.value + 1)
      ensures r.Failure? ==> emitted == old(emitted) && buffer == [] && bufferIndex == 0
      ensures old(bufferIndex) < old(|buffer|) ==>
        && r == Success(old(buffer[bufferIndex]))
        && buffer == old(buffer) && bufferIndex == old(bufferIndex) + 1
        && bufferMin == old(bufferMin) && bufferMax == old(bufferMax)
      ensures old(bufferIndex) >= old(|buffer|) ==>
        && bufferMin == old(bufferMax) + 1
        && bufferMax == old(bufferMax) + WindowSize(old(bufferMax - bufferMin))
        && (r.Success? <==> buffer != [])
        && (r.Success? ==> bufferIndex == 1)
    {
      if bufferIndex >= |buffer| {
        Refill();
      }
      if bufferIndex < |buffer| {
        var value := Emit();
        r := Success(value);
      } else {
        r := Failure(IndexOutOfBounds);
      }
    }

    /** The emitting step of `next`: the value under the cursor, which is
        the next prime after everything returned so far. */
    method Emit() returns (value: nat)
      requires Valid() && bufferIndex < |buffer|
      modifies this
      ensures Valid()
      ensures value == old(buffer[bufferIndex])
      ensures emitted == old(emitted) + [value] && emitted == PrimesBetween(0, value + 1)
      ensures buffer == old(buffer) && bufferIndex == old(bufferIndex) + 1
      ensures bufferMin == old(bufferMin) && bufferMax == old(bufferMax) && refills == old(refills)
    {
      value := buffer[bufferIndex];
      EmitKeepsStream(bufferMin, bufferMax, refills, buffer, bufferIndex, emitted);
      bufferIndex := bufferIndex + 1;
      emitted := emitted + [value];
    }

    /** `InfiniteIterator::pop`: `next()` never answers `None`, so the
        `expect` never fires and `pop` returns what `next` returns. */
    method Pop() returns (r: Result<nat, IterError>)
      requires Valid()
      modifies this, Footprint(generator)
      ensures Valid()
      ensures r.Success? ==> emitted == old(emitted) + [r.value] && emitted == PrimesBetween(0, r.value + 1)
      ensures r.Failure? ==> emitted == old(emitted) && buffer == [] && bufferIndex == 0
      ensures old(bufferIndex) < old(|buffer|) ==>
        && r == Success(old(buffer[bufferIndex]))
        && buffer == old(buffer) && bufferIndex == old(bufferIndex) + 1
        && bufferMin == old(bufferMin) && bufferMax == old(bufferMax)
      ensures old(bufferIndex) >= old(|buffer|) ==>
        && bufferMin == old(bufferMax) + 1
        && bufferMax == old(bufferMax) + WindowSize(old(bufferMax - bufferMin))
        && (r.Success? <==> buffer != [])
        && (r.Success? ==> bufferIndex == 1)
    {
      r := Next();
    }
  }
}
