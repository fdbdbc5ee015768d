# Prime enumeration: generators and the prime iterator

A Dafny model of the prime-enumeration engine of the `pr` crate:

- the `PrimeGenerator` contract: `generate(min, max)` and the `range` method, which translates a Rust range into `(min, max)`;
- `PrimeIterator`, which turns any generator into an unbounded stream of primes. It asks the generator for consecutive windows of doubling size and hands out the buffered primes one by one;
- `EratoOne`, an incremental generator. It remembers every prime found so far and the largest integer it has classified, and trial-divides new candidates only by the stored primes up to isqrt(candidate);
- `Naive`, stateless trial division by every integer in 2..=isqrt(candidate).

Everything is specified against one reference enumeration:
`Primality.PrimesBetween(lo, hi)` is the ascending list of the primes `p` with `lo <= p < hi`.
`Primality.EnumeratesPrimes(s, lo, hi)` says the same thing as a characterisation: `s` is strictly increasing, holds only primes in [lo, hi), and holds all of them.
`Primality.EnumerationIsPrimesBetween` shows the characterisation determines the list.

Modules:

- `Primality` (primality.dfy): divisibility, primality, integer square root, the reference enumeration, and the two trial-division theorems the generators rely on.
- `Naive` (naive.dfy): `Naive::generate` as a method with the source's two nested loops.
- `EratoOne` (erato_one.dfy): a class with the fields `maxTested` and `primes`, updated in place by `Generate`.
- `PrimeGenerator` (prime_generator.dfy): the trait as a datatype `Generator` with one constructor per implementation; `range`; the window arithmetic; and the `PrimeIterator` class.

Design decisions:

- Integers are unbounded `nat`. The one u64 edge the model keeps is `range`'s `Excluded(0)` end, where `n - 1` underflows; it is an error result (`EndUnderflow`).
- The panics of the source become `Failure` results:
  - `range` with an unbounded end gives `UnboundedEnd`;
  - `next` on a refilled window that holds no prime gives `IndexOutOfBounds`, where the source indexes past the end of the buffer.
- `isqrt` (the `integer_sqrt` crate) is `Primality.Isqrt`, defined by `r*r <= n < (r+1)*(r+1)`.
- The iterator carries two ghost fields. `emitted` holds every value returned so far, and `refills` counts the refills; they exist only to state the stream property.

Two points of the code worth stating plainly:

- **Window cap.** The window size is not min(2 * old, 1048576). The code (src/prime_generator.rs:74-77) compares the old *span* `buffer_max - buffer_min` with 1048576 before doubling it. So the twelfth window has 2093058 integers, and later windows alternate between 1048576 and 2097150. `PrimeGenerator.WindowExceedsCap` exhibits the first oversize window. Correctness of the stream is unaffected: sizes stay even, which is the property the stream relies on.
- **Naive's square root.** `Naive` does not track `max_factor` incrementally. The code (src/naive.rs:14) calls `integer_sqrt` for every candidate, and so does the model.

## Model

| member | source | states |
|---|---|---|
| Primality.Isqrt | src/naive.rs:14 | the integer square root: r*r <= n < (r+1)*(r+1) |
| Primality.IsqrtUnique | src/erato_one.rs:26 | any r with r*r <= n < (r+1)*(r+1) is Isqrt(n), so the bound is determined |
| Primality.TrialDivisionBySmallIntegers | src/naive.rs:14-21 | c >= 2 is prime iff no integer in 2..=isqrt(c) divides it |
| Primality.TrialDivisionByStoredPrimes | src/erato_one.rs:26-33 | given the list of all primes below c, c is prime iff no listed prime <= isqrt(c) divides it |
| Primality.PrimeDivisor | src/erato_one.rs:27-31 | every divisor e >= 2 of c has a prime divisor p <= e that divides c, which is why testing primes alone suffices |
| Primality.SmallDivisor | src/naive.rs:14-15 | a composite c has a divisor between 2 and isqrt(c) |
| Primality.PrimeByTrialDivision | src/naive.rs:16-21 | n is prime when no integer in 2..=r divides it and r is its square root |
| Primality.NoDivisorBetweenSound | src/naive.rs:16-20 | the recursive divisor search finds no divisor only if none exists in [lo, hi] |
| Primality.PrimesBetweenEnumerates | src/naive.rs:11-21 | the reference list is strictly increasing, holds only primes in [lo, hi), and holds all of them |
| Primality.StrictlyIncreasingUnique | src/erato_one.rs:39-44 | two strictly increasing lists with the same elements are equal |
| Primality.EnumerationIsPrimesBetween | src/erato_one.rs:39-44 | any list enumerating the primes of [lo, hi) equals the reference list |
| Primality.PrimesBetweenSplit | src/prime_generator.rs:80-81 | the primes of [lo, hi) are those of [lo, mid) followed by those of [mid, hi), which is why contiguous windows concatenate |
| Primality.PrimesBetweenBounds | src/erato_one.rs:41-42 | every listed value lies in [lo, hi) |
| Primality.PrimesBetweenFromTwo | src/naive.rs:11 | starting the scan at max(min, 2) loses nothing: there is no prime below 2 |
| Primality.EvenBoundExcludesNoPrime | src/prime_generator.rs:72-81 | for an even m > 2, excluding m loses no prime |
| Primality.PrimesBetweenPrefix | src/prime_generator.rs:86-88 | the first k+1 primes of [lo, hi) are exactly the primes of [lo, s[k]] |
| Primality.WithoutAppend | src/erato_one.rs:42 | removing a value from a concatenation removes it from each part |
| Primality.WithoutAbsent | src/erato_one.rs:42 | removing an absent value changes nothing |
| Primality.ExclusiveIsInclusiveWithoutBound | src/erato_one.rs:42 | the primes of [lo, hi) are the primes of [lo, hi] with hi removed |
| Naive.Generate | src/naive.rs:9-25 | the result is strictly increasing, holds only primes in [min, max], holds all of them, and is empty when max < max(min, 2) |
| Naive.NoDivisorUpToIsqrt | src/naive.rs:14-20 | the inner loop finds no divisor in 2..=isqrt(candidate) iff the candidate is prime |
| Naive.TakeWhileAtMost | src/naive.rs:15 | take_while keeps a prefix whose values are all <= bound, and stops at the first value above it |
| Naive.InclusiveRange | src/naive.rs:11 | lo..=hi has hi - lo + 1 elements, the i-th being lo + i |
| Naive.TakeWhileKeepsAllDivisors | src/naive.rs:15 | take_while(n <= max_factor) over lo..=max_factor removes nothing |
| Naive.UpToTenExample | src/naive.rs:11 | generate(0, 10) returns [2, 3, 5, 7] |
| EratoOne.EratoOne.constructor | src/erato_one.rs:11-17 | a fresh instance has max_tested = 1 and no primes, and satisfies the invariant |
| EratoOne.EratoOne.Generate | src/erato_one.rs:21-45 | keeps the invariant; max_tested becomes max(old, max); the record is untouched when max <= max_tested; returns exactly the primes of [min, max) |
| EratoOne.NoStoredPrimeDivides | src/erato_one.rs:26-32 | the inner loop over stored primes <= isqrt(candidate) finds no divisor iff the candidate is prime |
| EratoOne.RecordedSlice | src/erato_one.rs:39-44 | skip_while(p < min).take_while(p < max) over a complete record returns the primes of [min, max) |
| EratoOne.SkipWhileBelow | src/erato_one.rs:41 | skip_while leaves a suffix; everything skipped is below min, and the suffix starts at or above min |
| EratoOne.TakeWhileBelow | src/erato_one.rs:42 | take_while keeps a prefix whose values are all below max, and stops at the first value at or above it |
| EratoOne.SkipPast | src/erato_one.rs:41 | skipping below min in a + b leaves b when a is all below min and b starts at or above it |
| EratoOne.TakeBefore | src/erato_one.rs:42 | taking below max in a + b leaves a when a is all below max and b starts at or above it |
| EratoOne.SliceOfRecord | src/erato_one.rs:39-44 | the slice of the record complete below hi, for any max <= hi, is the primes of [min, max) |
| EratoOne.RecordIsComplete | src/erato_one.rs:22-36 | under the invariant, the record is strictly increasing and holds exactly the primes of [2, max_tested] |
| EratoOne.FreshInstanceScenario | src/erato_one.rs:21-45 | on a fresh instance generate(1, 2) returns [] but records 2, and generate(1, 3) then returns [2] |
| EratoOne.RepeatedCallsAgree | src/erato_one.rs:21-45 | two calls with the same bounds return the same list |
| EratoOne.StrictUpperBoundExample | src/erato_one.rs:42 | generate(10, 23) returns [11, 13, 17, 19]: 23 is left out |
| PrimeGenerator.Bounds | src/prime_generator.rs:15-25 | fails iff the end is unbounded (UnboundedEnd) or Excluded(0) (EndUnderflow); otherwise min is n, n + 1 or 0 for an Included, Excluded or Unbounded start, max is n or n - 1 for an Included or Excluded end, and x lies in the Rust range iff min <= x <= max |
| PrimeGenerator.Generate | src/prime_generator.rs:12 | dispatches to the implementation; Naive answers the primes of [min, max], EratoOne those of [min, max), with max_tested becoming max(old, max) and the record untouched when max <= max_tested |
| PrimeGenerator.Range | src/prime_generator.rs:14-28 | a failed translation leaves the generator untouched; otherwise returns exactly generate(min, max) on the translated bounds, with EratoOne's max_tested becoming max(old, max) and its record untouched when max <= max_tested |
| PrimeGenerator.GeneratorsDifferAtUpperEnd | src/erato_one.rs:42 | generate(10, 23) is [11, 13, 17, 19, 23] for Naive and [11, 13, 17, 19] for EratoOne |
| PrimeGenerator.EratoOneIsNaiveWithoutUpperEnd | src/erato_one.rs:42 | EratoOne's answer is Naive's answer with max removed |
| PrimeGenerator.WindowSize | src/prime_generator.rs:71-78 | every window size is even, positive and below 2 * 1048576; an empty old span gives 1024 |
| PrimeGenerator.LaterSpansAreWide | src/prime_generator.rs:72-73 | after the first refill the span is at least 1023, so the 1024 branch fires only once |
| PrimeGenerator.NextWindowKeepsShape | src/prime_generator.rs:80-81 | a refill keeps the window shape: span matches the refill count, buffer_max even and at least 1024 |
| PrimeGenerator.WindowExceedsCap | src/prime_generator.rs:74-77 | the twelfth window has 2093058 integers, more than 1048576, and the next three have 1048576, 2097150 and 1048576 |
| PrimeGenerator.WindowConsumed | src/prime_generator.rs:70 | once the buffer is used up, the values returned are every prime up to buffer_max |
| PrimeGenerator.StreamUpTo | src/prime_generator.rs:86-88 | after the k-th buffered prime, the values returned are every prime up to it |
| PrimeGenerator.ReturnedValueIsNextPrime | src/prime_generator.rs:86-88 | a returned value is prime, above every earlier value, and every smaller prime was already returned |
| PrimeGenerator.EvenBoundAnswer | src/prime_generator.rs:82 | on a window with an even end above 2 both generators answer all its primes |
| PrimeGenerator.RefillKeepsStream | src/prime_generator.rs:80-83 | a refill after the buffer is used up keeps the stream state, with the cursor at 0 |
| PrimeGenerator.EmitKeepsStream | src/prime_generator.rs:86-87 | emitting the buffered prime under the cursor keeps the stream state |
| PrimeGenerator.FillWindow | src/prime_generator.rs:82 | range(min..=max) on an even max > 2 returns every prime of the window |
| PrimeGenerator.PrimeIterator.constructor | src/prime_generator.rs:46-54 | empty buffer, buffer_min = buffer_max = buffer_index = 0, nothing returned yet |
| PrimeGenerator.PrimeIterator.Refill | src/prime_generator.rs:70-84 | the new window starts at old buffer_max + 1 and spans WindowSize(old span); the buffer holds its primes and the cursor is 0 |
| PrimeGenerator.PrimeIterator.Emit | src/prime_generator.rs:86-88 | returns buffer[buffer_index], advances the cursor by one, and the values returned are every prime up to it |
| PrimeGenerator.PrimeIterator.Next | src/prime_generator.rs:69-89 | refills at most once; a success returns the next prime, so all values returned are every prime up to it; an empty window fails |
| PrimeGenerator.PrimeIterator.Pop | src/prime_generator.rs:59-61 | returns what next returns: the buffered prime under the cursor when one is left, otherwise the first prime of the next window, failing only when that window is empty; the same new window and cursor, and the same stream property |

## Left out

- u64 width: candidates, bounds and window ends are unbounded `nat`. `Excluded(n)` on a start at u64::MAX (src/prime_generator.rs:17) and `buffer_min + new_range_size` (line 81) do not wrap in the model. `Excluded(0)` on the end is kept as the error `EndUnderflow`.
- The `integer_sqrt` crate is not part of this model. `Isqrt` is its specification, not its algorithm.
- `PrimeIterator.Next`: does not prove that a refilled window always holds a prime. That needs Bertrand's postulate, so the empty-window case stays a `Failure(IndexOutOfBounds)` result.
- `PrimeIterator.Pop`: the source's `expect` on `None` never fires because `next` always returns `Some`. The model's only failure is the empty window above, which `Pop` passes through.
- `FusedIterator` and `into_iter` (src/prime_generator.rs:31-33, 64) are type-system plumbing with no behaviour of their own.
- The `PrimeGenerator` trait is a datatype over its two implementations rather than an open trait. A third implementation would be a new constructor.
- src/old.rs, an abandoned prototype, and src/main.rs, which holds only declarations, are not part of this model.
