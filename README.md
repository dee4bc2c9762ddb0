# LSD radix sort, modelled and proved in Dafny

This project models the sorting core of `serial.cpp`: `countingSort`, which
runs one stable counting-sort pass on the decimal digit at place value `exp`,
and `radixSort`, which runs that pass at place values 1, 10, 100, ... for as
long as the maximum element still has a digit there.

It has four modules:

- `Digits` (digits.dfy): the base, the digit `(x / exp) % 10` at a place
  value, powers of ten, the number of decimal digits of a value, and the
  arithmetic facts about them that the rest needs. This includes the fact
  behind the loop guard `maxVal / exp > 0`.
- `DigitBuckets` (buckets.dfy): what one pass computes, as functions on
  sequences. `Bucket(s, exp, d)` is the subsequence of elements with digit
  `d`. `CountBelow(s, exp, d)` is the number of elements with a digit below
  `d`, which is what the prefix sums hold. `ByDigit(s, exp)` is the ten
  buckets laid out in digit order. The lemmas prove that a pass:
  - keeps the elements (a permutation);
  - orders them by the digit;
  - is stable;
  - is the only arrangement that is both digit-ordered and stable;
  - turns an order on the last `k` digits into an order on the last `k + 1`
    digits.
- `Lsd` (lsd.dfy): the sequence of passes `radixSort` runs (`LsdPasses`,
  `LsdSort`), and the proof that the result is the ascending permutation of
  the input. It also includes worked examples.
- `Serial` (serial.dfy): the two functions as imperative methods on
  `array<nat>`.
  - `CountingSort` keeps the source's four loops: tally, prefix sums,
    backward placement into an output buffer, and copy back. It is proved to
    leave `ByDigit(old(a[..]), exp)` in the array. The ghost predicates
    `Tallied`, `PrefixState` and `ScanState` are the loop invariants, and
    each has a step lemma.
  - `RadixSort` keeps the source's `exp` loop and its guard. It is proved to
    leave `LsdSort(old(a[..]))` in the array, so the array ends up sorted and
    a permutation of its old contents.

## Model

| member | source | states |
|---|---|---|
| Digits.DigitIsDiv | serial.cpp:15 | the digit used for bucketing is exactly `(x / exp) % 10` of the source |
| Digits.QuotIsDiv | serial.cpp:15 | the repeated-subtraction quotient behind `Digit` equals integer division `x / exp` |
| Digits.PlaceValueGuard | serial.cpp:43 | at `exp = 10^k` the loop guard `maxVal / exp > 0` holds exactly when `k` is below the number of decimal digits of `maxVal` (both directions) |
| Digits.BelowNextPlace | serial.cpp:43-45 | every value is below 10 raised to its number of digits, so once the loop stops, every element is below the last place value |
| Digits.ModSplit | serial.cpp:43-45 | the remainder modulo `10 * exp` is the digit at `exp` times `exp` plus the remainder modulo `exp`: one more pass adds one more digit |
| Digits.DivModUnique | serial.cpp:15 | integer division with remainder has exactly one quotient and one remainder |
| Digits.DivDiv | serial.cpp:43-45 | dividing by 10 and then by `p` equals dividing by `10 * p`, the step from one place value to the next |
| Digits.PlaceLess | serial.cpp:43-45 | a smaller leading digit gives a smaller number, whatever the lower digits |
| DigitBuckets.BucketAppend | serial.cpp:14-17 | the bucket of a concatenation is the concatenation of the buckets |
| DigitBuckets.BucketDigits | serial.cpp:25-29 | every element of bucket `d` has digit `d` |
| DigitBuckets.BucketElements | serial.cpp:25-29 | every element of a bucket comes from the input |
| DigitBuckets.CountBelowAll | serial.cpp:20-22 | the last prefix sum equals the number of elements, because every digit is below 10 |
| DigitBuckets.CountBelowBound | serial.cpp:20-22 | no prefix sum exceeds the number of elements |
| DigitBuckets.CountBelowMono | serial.cpp:20-22 | the prefix sums do not decrease with the digit |
| DigitBuckets.AssembleBuckets | serial.cpp:20-29 | a buffer holding each bucket `d` between the prefix sums for `d` and `d + 1` is the result of the pass |
| DigitBuckets.ByDigitPermutation | serial.cpp:8-35 | a pass keeps the input's multiset of elements and its length |
| DigitBuckets.ByDigitOrdered | serial.cpp:25-29 | after a pass the elements are in non-decreasing order of the digit at `exp` |
| DigitBuckets.ByDigitStable | serial.cpp:25-29 | after a pass the elements with each digit appear in their input order (the backward scan makes the pass stable) |
| DigitBuckets.OrderedBucketsUnique | serial.cpp:25-29 | two digit-ordered sequences with the same buckets are equal |
| DigitBuckets.ByDigitUnique | serial.cpp:8-35 | any digit-ordered, stable arrangement of the input is the result of the pass, so the pass is characterised by those two properties |
| DigitBuckets.ByDigitExtendsOrder | serial.cpp:43-45 | input ordered modulo `exp` gives output ordered modulo `10 * exp` |
| DigitBuckets.BucketKeepsOrder | serial.cpp:25-29 | a bucket keeps any order by remainder modulo `m` that its input has, since it is a subsequence |
| Lsd.Max | serial.cpp:40 | the maximum of a non-empty sequence is one of its elements and bounds all of them |
| Lsd.LsdPassesPermutation | serial.cpp:43-45 | any number of passes keeps the multiset of elements |
| Lsd.LsdPassesOrder | serial.cpp:43-45 | after `k` passes the elements are ordered by their remainder modulo `10^k`, that is, by their last `k` digits |
| Lsd.SortedModBelow | serial.cpp:43-45 | order modulo a bound above every element is ascending order |
| Lsd.LsdSortCorrect | serial.cpp:38-46 | radixSort's result is ascending and a permutation of the input |
| Lsd.SortedUnique | serial.cpp:38-46 | two ascending sequences with the same elements are equal |
| Lsd.LsdSortIsSortedPermutation | serial.cpp:38-46 | radixSort's result is the one ascending sequence with the input's elements |
| Lsd.LsdSortOfSorted | serial.cpp:38-46 | an input already in ascending order comes back unchanged |
| Lsd.AllZeroNoPass | serial.cpp:43 | when every element is zero, the loop makes no pass and the array is unchanged |
| Lsd.ExampleDuplicates | serial.cpp:38-46 | duplicates are kept: [3, 1, 3, 2, 1] becomes [1, 1, 2, 3, 3] |
| Lsd.ExampleSpread | serial.cpp:38-46 | values with one to four digits: [1000, 1, 999, 10] becomes [1, 10, 999, 1000] |
| Lsd.ExampleSingleAndZeros | serial.cpp:38-46 | [5] and [0, 0, 0] come back unchanged |
| Serial.TallyStep | serial.cpp:14-17 | counting one more element adds one to the count of its digit and leaves the other counts |
| Serial.PrefixStep | serial.cpp:20-22 | `count[i] += count[i - 1]` turns slot `i`'s tally into the number of elements with a digit up to `i` |
| Serial.ScanSlot | serial.cpp:25-29 | the slot `count[index] - 1` that the placement loop writes lies inside the buffer, in the element's own bucket region, and outside every region filled so far |
| Serial.ScanStep | serial.cpp:25-29 | one placement step keeps the loop invariant: each bucket's region holds, in order, the already placed elements with that digit |
| Serial.ScanDone | serial.cpp:25-29 | when the backward scan ends, the output buffer is the buckets in digit order |
| Serial.CountingSort | serial.cpp:8-35 | the array ends up as `ByDigit` of its old contents, which is stable, digit-ordered and a permutation |
| Serial.RadixSort | serial.cpp:38-46 | the array ends up as `LsdSort` of its old contents: ascending and a permutation of them |

## Left out

- `main` (serial.cpp:48-73) is not modelled. It fills arrays with
  pseudo-random values, reads the clock and prints timings, and none of that
  affects the sort.
- Elements are `nat` and arithmetic is unbounded. The source's `int` is
  32-bit, and `exp *= 10` overflows once `maxVal` reaches 10^9, which is
  undefined behaviour there.
- Negative elements are outside this model. A negative element with a
  non-zero digit at a visited place value gives a negative `count` index
  (serial.cpp:15-16, 26), which is undefined behaviour. An array with no
  positive element gets no pass at all, because `maxVal / 1 > 0` is false,
  so any negatives in it come back unsorted. The model's `nat` elements
  exclude both cases.
- RadixSort: requires a non-empty array, because the source dereferences
  `std::max_element` of the whole vector, which is undefined for an empty
  one. The source has no guard for the empty case, and the model follows the
  code. CountingSort on its own accepts an empty array.
- When every element is zero, the guard `0 / 1 > 0` is false and no pass
  runs (`AllZeroNoPass`). Running one pass at `exp = 1` would leave the
  array the same.
- Lsd.Max models the value that `std::max_element` points to, not the
  iterator or which of several equal maxima it picks. Only the value is used.
- `std::vector<int>` is modelled as `array<nat>`. The output buffer is a
  fresh array of the same length. The ten counters are an `array<int>` of
  length 10.
- `Digits.Quot` is repeated subtraction. It is a proof device that equals
  `x / exp` (`QuotIsDiv`). The methods compute the digit with `/` and `%`
  as the source does.
