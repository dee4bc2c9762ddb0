/** The two functions of serial.cpp: `countingSort`, one stable pass on the
    digit at place value `exp` through a ten-slot count array and an output
    buffer, and `radixSort`, which runs that pass once per decimal digit of
    the largest element. Elements are natural numbers. */
module Serial {
  import opened Digits
  import opened DigitBuckets
  import opened Lsd

  /** One counting-sort pass in place: tally the digits, turn the tallies
      into prefix sums, place the elements from last to first into `output`
      at `count[d] - 1`, and copy `output` back. */
  method CountingSort(a: array<nat>, exp: nat)
    requires exp > 0
    modifies a
    ensures a[..] == ByDigit(old(a[..]), exp)
  {
    var n := a.Length;
    ghost var s := a[..];
    var output := new nat[n];
    var count := new int[Base](_ => 0);

    // Tally how many elements have each digit.
    TallyStart(exp, count[..]);
    for i := 0 to n
      modifies count
      invariant Tallied(s[..i], exp, count[..])
    {
      var index := (a[i] / exp) % Base;
      DigitIsDiv(a[i], exp);
      ghost var c := count[..];
      TallyStep(s[..i], a[i], exp, c, index);
      assert s[..i + 1] == s[..i] + [a[i]];
      count[index] := count[index] + 1;
      assert count[..] == c[index := c[index] + 1];
    }
    assert s[..n] == s;

    // Turn the tallies into prefix sums: count[d] elements have a digit <= d.
    PrefixStart(s, exp, count[..]);
    for i := 1 to Base
      modifies count
      invariant PrefixState(s, exp, count[..], i)
    {
      ghost var c := count[..];
      PrefixStep(s, exp, c, i);
      count[i] := count[i] + count[i - 1];
      assert count[..] == c[i := c[i] + c[i - 1]];
    }
    ScanStart(s, exp, count[..], output[..]);
    assert ScanState(s, exp, count[..], output[..], n);

    // Place the elements from last to first; bucket d fills from its end.
    for i := n downto 0
      modifies output, count
      invariant a[..] == s
      invariant ScanState(s, exp, count[..], output[..], i)
    {
      var index := (a[i] / exp) % Base;
      DigitIsDiv(a[i], exp);
      var pos := count[index] - 1;
      ghost var c, o := count[..], output[..];
      ScanStep(s, exp, c, o, i, a[i], index, pos);
      output[pos] := a[i];
      count[index] := pos;
      assert count[..] == c[index := pos];
      assert output[..] == o[pos := a[i]];
    }
    ScanDone(s, exp, count[..], output[..]);

    // Copy the output buffer back over the array.
    for i := 0 to n
      modifies a
      invariant forall j | 0 <= j < i :: a[j] == output[j]
    {
      a[i] := output[i];
    }
    assert a[..] == output[..];
  }

  /** The state of `countingSort`'s tally loop after the elements `t`:
      `c[d]` is the number of them whose digit is `d`. */
  ghost predicate Tallied(t: seq<nat>, exp: nat, c: seq<int>)
    requires exp > 0
  {
    |c| == Base && forall d | 0 <= d < Base :: c[d] == |Bucket(t, exp, d)|
  }

  /** A count array of zeros has tallied no element. */
  lemma TallyStart(exp: nat, c: seq<int>)
    requires exp > 0 && |c| == Base && forall d | 0 <= d < Base :: c[d] == 0
    ensures Tallied([], exp, c)
  {
  }

  /** Tallying one more element adds one to the count of its digit. */
  lemma TallyStep(t: seq<nat>, x: nat, exp: nat, c: seq<int>, index: nat)
    requires exp > 0 && Tallied(t, exp, c) && index == Digit(x, exp)
    ensures Tallied(t + [x], exp, c[index := c[index] + 1])
  {
    forall d | 0 <= d < Base
      ensures |Bucket(t + [x], exp, d)| == |Bucket(t, exp, d)| + if d == Digit(x, exp) then 1 else 0
    {
      BucketAppend(t, [x], exp, d);
      BucketCons(x, [], exp, d);
      assert [x] + [] == [x];
    }
  }

  /** The state of `countingSort`'s prefix-sum loop before slot `i`: the
      slots below `i` hold how many elements have a digit up to theirs, the
      others still hold their own tallies. */
  ghost predicate PrefixState(s: seq<nat>, exp: nat, c: seq<int>, i: nat)
    requires exp > 0
  {
    |c| == Base && 1 <= i <= Base
    && (forall d | 0 <= d < i :: c[d] == CountBelow(s, exp, d + 1))
    && (forall d | i <= d < Base :: c[d] == |Bucket(s, exp, d)|)
  }

  /** The prefix sums start from the complete tallies: slot 0 already holds
      how many elements have digit 0. */
  lemma PrefixStart(s: seq<nat>, exp: nat, c: seq<int>)
    requires exp > 0 && Tallied(s, exp, c)
    ensures PrefixState(s, exp, c, 1)
  {
    assert CountBelow(s, exp, 1) == |Bucket(s, exp, 0)|;
  }

  /** Adding the previous slot to slot `i` turns its tally into a prefix sum. */
  lemma PrefixStep(s: seq<nat>, exp: nat, c: seq<int>, i: nat)
    requires exp > 0 && PrefixState(s, exp, c, i) && i < Base
    ensures PrefixState(s, exp, c[i := c[i] + c[i - 1]], i + 1)
  {
    assert c[i] + c[i - 1] == CountBelow(s, exp, i + 1);
  }

  /** The state of `countingSort`'s placement loop with the last `|s| - i`
      elements placed: `c[d]` is where bucket `d` has been filled down to,
      and the filled part of bucket `d`'s region holds, in order, the
      elements with digit `d` among those placed. */
  ghost predicate ScanState(s: seq<nat>, exp: nat, c: seq<int>, o: seq<nat>, i: nat)
    requires exp > 0
  {
    |c| == Base && |o| == |s| && i <= |s|
    && forall d | 0 <= d < Base :: ScanBucket(s, exp, c, o, i, d)
  }

  /** Bucket `d` in that state. */
  ghost predicate ScanBucket(s: seq<nat>, exp: nat, c: seq<int>, o: seq<nat>, i: nat, d: nat)
    requires exp > 0 && |c| == Base && i <= |s| && d < Base
  {
    c[d] == CountBelow(s, exp, d) + |Bucket(s[..i], exp, d)|
    && c[d] <= CountBelow(s, exp, d + 1) <= |o|
    && o[c[d]..CountBelow(s, exp, d + 1)] == Bucket(s[i..], exp, d)
  }

  /** After the prefix sums nothing is placed yet: every bucket's region is
      empty and its fill position is at its end. */
  lemma ScanStart(s: seq<nat>, exp: nat, c: seq<int>, o: seq<nat>)
    requires exp > 0 && |o| == |s| && PrefixState(s, exp, c, Base)
    ensures ScanState(s, exp, c, o, |s|)
  {
    assert s[..|s|] == s;
    assert s[|s|..] == [];
    forall d | 0 <= d < Base ensures ScanBucket(s, exp, c, o, |s|, d) {
      CountBelowBound(s, exp, d + 1);
    }
  }

  /** The slot of one placement step: element `s[i]` goes just below its
      bucket's fill position; that slot lies inside the array, in its own
      bucket's region and in no region filled so far, so no slot is written
      twice. */
  lemma ScanSlot(s: seq<nat>, exp: nat, c: seq<int>, o: seq<nat>, i: nat)
    requires exp > 0 && i < |s| && ScanState(s, exp, c, o, i + 1)
    ensures CountBelow(s, exp, Digit(s[i], exp)) <= c[Digit(s[i], exp)] - 1 < |o|
    ensures forall d | 0 <= d < Base ::
      !(c[d] <= c[Digit(s[i], exp)] - 1 < CountBelow(s, exp, d + 1))
  {
    var x := s[i];
    var index := Digit(x, exp);
    var pos := c[index] - 1;
    assert CountBelow(s, exp, index) <= pos < CountBelow(s, exp, index + 1) <= |o| by {
      BucketAt(s, i, exp, index);
      assert ScanBucket(s, exp, c, o, i + 1, index);
    }
    forall d | 0 <= d < Base
      ensures !(c[d] <= pos < CountBelow(s, exp, d + 1))
    {
      assert ScanBucket(s, exp, c, o, i + 1, d);
      SlotFree(s, exp, c[d], pos, d, index);
    }
  }

  /** A slot inside the region of bucket `index` lies in the filled part of
      no other bucket's region, nor in the filled part of its own. */
  lemma SlotFree(s: seq<nat>, exp: nat, lo: int, pos: int, d: nat, index: nat)
    requires exp > 0 && d < Base && index < Base
    requires CountBelow(s, exp, d) <= lo
    requires CountBelow(s, exp, index) <= pos < CountBelow(s, exp, index + 1)
    requires d == index ==> pos < lo
    ensures !(lo <= pos < CountBelow(s, exp, d + 1))
  {
    if d < index {
      CountBelowMono(s, exp, d + 1, index);
    } else if d > index {
      CountBelowMono(s, exp, index + 1, d);
    }
  }

  /** Bucket `d` after one placement step whose slot lies outside every
      region filled so far. */
  lemma ScanBucketStep(s: seq<nat>, exp: nat, c: seq<int>, o: seq<nat>, i: nat, d: nat)
    requires exp > 0 && i < |s| && ScanState(s, exp, c, o, i + 1) && d < Base
    requires CountBelow(s, exp, Digit(s[i], exp)) <= c[Digit(s[i], exp)] - 1 < |o|
    requires !(c[d] <= c[Digit(s[i], exp)] - 1 < CountBelow(s, exp, d + 1))
    ensures ScanBucket(s, exp, c[Digit(s[i], exp) := c[Digit(s[i], exp)] - 1],
                       o[c[Digit(s[i], exp)] - 1 := s[i]], i, d)
  {
    var index := Digit(s[i], exp);
    assert ScanBucket(s, exp, c, o, i + 1, d);
    if d != index {
      ScanOther(s, exp, c, o, i, d, index, c[index] - 1);
    } else {
      ScanOwn(s, exp, c, o, i, d);
    }
  }

  /** A bucket other than the one of `s[i]` keeps its fill position and its
      filled part. */
  lemma ScanOther(s: seq<nat>, exp: nat, c: seq<int>, o: seq<nat>, i: nat, d: nat,
                  index: nat, pos: int)
    requires exp > 0 && i < |s| && |c| == Base && d < Base && index < Base && d != index
    requires index == Digit(s[i], exp) && 0 <= pos < |o|
    requires ScanBucket(s, exp, c, o, i + 1, d)
    requires !(c[d] <= pos < CountBelow(s, exp, d + 1))
    ensures ScanBucket(s, exp, c[index := pos], o[pos := s[i]], i, d)
  {
    BucketAt(s, i, exp, d);
    SliceOutside(o, c[d], CountBelow(s, exp, d + 1), pos, s[i]);
  }

  /** The bucket of `s[i]` moves its fill position down by one slot and
      gains `s[i]` in front of its filled part. */
  lemma ScanOwn(s: seq<nat>, exp: nat, c: seq<int>, o: seq<nat>, i: nat, d: nat)
    requires exp > 0 && i < |s| && |c| == Base && d < Base && d == Digit(s[i], exp)
    requires ScanBucket(s, exp, c, o, i + 1, d)
    requires CountBelow(s, exp, d) <= c[d] - 1 < |o|
    ensures ScanBucket(s, exp, c[d := c[d] - 1], o[c[d] - 1 := s[i]], i, d)
  {
    BucketAt(s, i, exp, d);
    SliceFront(o, c[d] - 1, CountBelow(s, exp, d + 1), s[i]);
  }

  /** Writing outside a slice leaves the slice as it is. */
  lemma SliceOutside(o: seq<nat>, lo: int, hi: int, p: int, x: nat)
    requires 0 <= lo <= hi <= |o| && 0 <= p < |o| && !(lo <= p < hi)
    ensures o[p := x][lo..hi] == o[lo..hi]
  {
  }

  /** Writing just below a slice extends it by one element in front. */
  lemma SliceFront(o: seq<nat>, p: int, hi: int, x: nat)
    requires 0 <= p < hi <= |o|
    ensures o[p := x][p..hi] == [x] + o[p + 1..hi]
  {
  }

  /** One step of the placement loop, placing `s[i]`, keeps its state. */
  lemma ScanStep(s: seq<nat>, exp: nat, c: seq<int>, o: seq<nat>, i: nat, x: nat, index: nat, pos: int)
    requires exp > 0 && i < |s| && ScanState(s, exp, c, o, i + 1)
    requires x == s[i] && index == Digit(x, exp) && pos == c[index] - 1
    ensures CountBelow(s, exp, index) <= pos < |o|
    ensures ScanState(s, exp, c[index := pos], o[pos := x], i)
  {
    ScanSlot(s, exp, c, o, i);
    var c', o' := c[index := pos], o[pos := x];
    forall d | 0 <= d < Base ensures ScanBucket(s, exp, c', o', i, d) {
      ScanBucketStep(s, exp, c, o, i, d);
    }
  }

  /** When every element is placed, each bucket fills its whole region, so
      the output buffer is the buckets in digit order. */
  lemma ScanDone(s: seq<nat>, exp: nat, c: seq<int>, o: seq<nat>)
    requires exp > 0 && ScanState(s, exp, c, o, 0)
    ensures o == ByDigit(s, exp)
  {
    assert s[0..] == s;
    forall d | 0 <= d < Base ensures HoldsBucket(o, s, exp, d) {
      assert ScanBucket(s, exp, c, o, 0, d);
      assert Bucket(s[..0], exp, d) == [];
    }
    AssembleBuckets(o, s, exp);
  }

  /** LSD radix sort in place: passes at place values 1, 10, 100, ... while
      the maximum still has a digit there. The array must not be empty, since
      the maximum of an empty range is not defined. */
  method RadixSort(a: array<nat>)
    requires a.Length > 0
    modifies a
    ensures a[..] == LsdSort(old(a[..]))
    ensures Sorted(a[..]) && multiset(a[..]) == multiset(old(a[..]))
  {
    ghost var s := a[..];
    var maxVal := Max(a[..]);
    ghost var n := NumDigits(maxVal);
    var exp := 1;
    ghost var k := 0;
    while maxVal / exp > 0
      invariant exp == Pow10(k) && k <= n
      invariant a[..] == LsdPasses(s, k)
      decreases n - k
    {
      PlaceValueGuard(maxVal, k);
      CountingSort(a, exp);
      exp := exp * Base;
      k := k + 1;
    }
    PlaceValueGuard(maxVal, k);
    assert k == n;
    LsdSortCorrect(s);
  }
}
