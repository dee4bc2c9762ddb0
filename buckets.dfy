/** What one pass of `countingSort` (serial.cpp) computes, as functions on
    sequences: the elements are distributed into ten digit buckets that keep
    their input order, and the buckets are laid out for digits 0 through 9.
    The lemmas state that this arrangement is a permutation, is ordered by the
    digit, is stable, and is the only arrangement with the last two
    properties; and that a pass extends an order on the lower digits by one
    digit. */
module DigitBuckets {
  import opened Digits

  /** The elements of `s` whose digit at `exp` is `d`, in their order in `s`. */
  function Bucket(s: seq<nat>, exp: nat, d: nat): (b: seq<nat>)
    requires exp > 0
    ensures |b| <= |s|
  {
    if s == [] then []
    else
      var rest := Bucket(s[1..], exp, d);
      assert s == [s[0]] + s[1..];
      if Digit(s[0], exp) == d then [s[0]] + rest else rest
  }

  /** The number of elements whose digit is below `d`: after the prefix-sum
      loop of countingSort, `count[d]` holds `CountBelow(s, exp, d + 1)`. */
  function CountBelow(s: seq<nat>, exp: nat, d: nat): nat
    requires exp > 0
  {
    if d == 0 then 0 else CountBelow(s, exp, d - 1) + |Bucket(s, exp, d - 1)|
  }

  /** The ten buckets of `s` for the digit at `exp`, indexed by digit. */
  function Buckets(s: seq<nat>, exp: nat): (bs: seq<seq<nat>>)
    requires exp > 0
    ensures |bs| == Base
  {
    seq(Base, d requires 0 <= d < Base => Bucket(s, exp, d))
  }

  /** The sequences of `ss` one after the other. */
  function Flatten(ss: seq<seq<nat>>): seq<nat>
  {
    if ss == [] then [] else ss[0] + Flatten(ss[1..])
  }

  /** The result of one counting-sort pass on the digit at `exp`: the buckets
      for digits 0 through 9, one after the other. */
  function ByDigit(s: seq<nat>, exp: nat): seq<nat>
    requires exp > 0
  {
    Flatten(Buckets(s, exp))
  }

  /** The buckets for digits `d` through 9, one after the other: the tail of
      `ByDigit` from bucket `d` on, by which the lemmas below proceed. */
  function BucketsFrom(s: seq<nat>, exp: nat, d: nat): seq<nat>
    requires exp > 0
    decreases Base - d
  {
    if d >= Base then [] else Bucket(s, exp, d) + BucketsFrom(s, exp, d + 1)
  }

  /** Elements appear in non-decreasing order of their digit at `exp`. */
  predicate SortedByDigit(s: seq<nat>, exp: nat)
    requires exp > 0
  {
    forall i, j | 0 <= i < j < |s| :: Digit(s[i], exp) <= Digit(s[j], exp)
  }

  /** Elements appear in non-decreasing order of their remainder modulo `m`,
      that is, of their lowest digits when `m` is a power of ten. */
  predicate SortedMod(s: seq<nat>, m: nat)
    requires m > 0
  {
    forall i, j | 0 <= i < j < |s| :: s[i] % m <= s[j] % m
  }

  /** Ascending order. */
  predicate Sorted(s: seq<nat>)
  {
    forall i, j | 0 <= i < j < |s| :: s[i] <= s[j]
  }

  /** `r` keeps, for every digit, the relative order that the elements with
      that digit have in `s`: stability of a pass on the digit at `exp`. */
  predicate Stable(r: seq<nat>, s: seq<nat>, exp: nat)
    requires exp > 0
  {
    forall d | 0 <= d < Base :: Bucket(r, exp, d) == Bucket(s, exp, d)
  }

  // ---------------------------------------------------------------------
  // Buckets and counts

  lemma {:induction false} FlattenFrom(s: seq<nat>, exp: nat, d: nat)
    requires exp > 0 && d <= Base
    ensures Flatten(Buckets(s, exp)[d..]) == BucketsFrom(s, exp, d)
    decreases Base - d
  {
    var bs := Buckets(s, exp);
    if d < Base {
      FlattenFrom(s, exp, d + 1);
      assert bs[d..][0] == Bucket(s, exp, d);
      assert bs[d..][1..] == bs[d + 1..];
    } else {
      assert bs[d..] == [];
    }
  }

  /** `ByDigit` lays out the buckets from digit 0 on. The first digit is
      passed as a variable `z` equal to 0, because a literal 0 lets the
      verifier unfold `BucketsFrom` through all ten digits at every use. */
  lemma ByDigitBuckets(s: seq<nat>, exp: nat, z: nat)
    requires exp > 0 && z == 0
    ensures ByDigit(s, exp) == BucketsFrom(s, exp, z)
  {
    FlattenFrom(s, exp, z);
    assert Buckets(s, exp)[z..] == Buckets(s, exp);
  }

  /** Bucketing a concatenation buckets each part. */
  lemma {:induction false} BucketAppend(a: seq<nat>, b: seq<nat>, exp: nat, d: nat)
    requires exp > 0
    ensures Bucket(a + b, exp, d) == Bucket(a, exp, d) + Bucket(b, exp, d)
  {
    if a == [] {
      assert a + b == b;
    } else {
      assert (a + b)[1..] == a[1..] + b;
      BucketAppend(a[1..], b, exp, d);
    }
  }

  /** Every element of bucket `d` has digit `d`. */
  lemma {:induction false} BucketDigits(s: seq<nat>, exp: nat, d: nat)
    requires exp > 0
    ensures forall i | 0 <= i < |Bucket(s, exp, d)| :: Digit(Bucket(s, exp, d)[i], exp) == d
  {
    if s != [] {
      BucketDigits(s[1..], exp, d);
      var b, rest := Bucket(s, exp, d), Bucket(s[1..], exp, d);
      forall i | 0 <= i < |b| ensures Digit(b[i], exp) == d {
        if Digit(s[0], exp) == d && i == 0 {
        } else {
          var k := if Digit(s[0], exp) == d then i - 1 else i;
          assert b[i] == rest[k];
        }
      }
    }
  }

  /** Every element of a bucket is an element of the input. */
  lemma {:induction false} BucketElements(s: seq<nat>, exp: nat, d: nat)
    requires exp > 0
    ensures forall i | 0 <= i < |Bucket(s, exp, d)| :: Bucket(s, exp, d)[i] in s
  {
    if s != [] {
      BucketElements(s[1..], exp, d);
      var b, rest := Bucket(s, exp, d), Bucket(s[1..], exp, d);
      forall i | 0 <= i < |b| ensures b[i] in s {
        if Digit(s[0], exp) == d && i == 0 {
        } else {
          var k := if Digit(s[0], exp) == d then i - 1 else i;
          assert b[i] == rest[k] && rest[k] in s[1..];
        }
      }
    }
  }

  /** A sequence with no element of digit `d` has an empty bucket `d`. */
  lemma {:induction false} NoneInBucket(s: seq<nat>, exp: nat, d: nat)
    requires exp > 0
    requires forall i | 0 <= i < |s| :: Digit(s[i], exp) != d
    ensures Bucket(s, exp, d) == []
  {
    if s != [] {
      NoneInBucket(s[1..], exp, d);
      assert s == [s[0]] + s[1..];
      BucketCons(s[0], s[1..], exp, d);
    }
  }

  /** Bucketing `[x] + t` buckets `t` and adds `x` in front when it has the digit. */
  lemma BucketCons(x: nat, t: seq<nat>, exp: nat, d: nat)
    requires exp > 0
    ensures Bucket([x] + t, exp, d) == (if Digit(x, exp) == d then [x] else []) + Bucket(t, exp, d)
  {
    assert ([x] + t)[1..] == t;
  }

  /** Bucketing around position `i`: `s[i]` is the last element of the
      bucket of `s[..i + 1]` and the first of the bucket of `s[i..]` when it
      has the digit. */
  lemma BucketAt(s: seq<nat>, i: nat, exp: nat, d: nat)
    requires exp > 0 && i < |s|
    ensures Bucket(s[..i + 1], exp, d)
         == Bucket(s[..i], exp, d) + (if Digit(s[i], exp) == d then [s[i]] else [])
    ensures Bucket(s[i..], exp, d)
         == (if Digit(s[i], exp) == d then [s[i]] else []) + Bucket(s[i + 1..], exp, d)
  {
    var x := s[i];
    assert s[..i + 1] == s[..i] + [x];
    assert s[i..] == [x] + s[i + 1..];
    BucketAppend(s[..i], [x], exp, d);
    BucketCons(x, [], exp, d);
    assert [x] + [] == [x];
    BucketCons(x, s[i + 1..], exp, d);
  }

  /** `CountBelow` does not decrease as the digit bound grows. */
  lemma {:induction false} CountBelowMono(s: seq<nat>, exp: nat, d1: nat, d2: nat)
    requires exp > 0 && d1 <= d2
    ensures CountBelow(s, exp, d1) <= CountBelow(s, exp, d2)
    decreases d2
  {
    if d1 < d2 {
      CountBelowMono(s, exp, d1, d2 - 1);
    }
  }

  /** Putting `x` in front adds one to the count below `k` exactly when the
      digit of `x` is below `k`. */
  lemma {:induction false} CountBelowCons(x: nat, t: seq<nat>, exp: nat, k: nat)
    requires exp > 0
    ensures CountBelow([x] + t, exp, k)
         == CountBelow(t, exp, k) + (if Digit(x, exp) < k then 1 else 0)
  {
    if k > 0 {
      CountBelowCons(x, t, exp, k - 1);
      BucketCons(x, t, exp, k - 1);
    }
  }

  /** No element of the empty sequence is counted. */
  lemma {:induction false} CountBelowEmpty(exp: nat, k: nat)
    requires exp > 0
    ensures CountBelow([], exp, k) == 0
  {
    if k > 0 {
      CountBelowEmpty(exp, k - 1);
    }
  }

  /** Every element has a digit below 10, so the prefix sums end at `|s|`:
      `count[9] == n` after the prefix-sum loop. */
  lemma {:induction false} CountBelowAll(s: seq<nat>, exp: nat, k: nat)
    requires exp > 0 && k >= Base
    ensures CountBelow(s, exp, k) == |s|
  {
    if s == [] {
      CountBelowEmpty(exp, k);
    } else {
      var x, t := s[0], s[1..];
      assert s == [x] + t;
      CountBelowCons(x, t, exp, k);
      CountBelowAll(t, exp, k);
    }
  }

  /** No prefix sum exceeds the number of elements. */
  lemma {:induction false} CountBelowBound(s: seq<nat>, exp: nat, k: nat)
    requires exp > 0
    ensures CountBelow(s, exp, k) <= |s|
  {
    if s == [] {
      CountBelowEmpty(exp, k);
    } else {
      var x, t := s[0], s[1..];
      assert s == [x] + t;
      CountBelowCons(x, t, exp, k);
      CountBelowBound(t, exp, k);
    }
  }

  /** `o` holds bucket `e` of `s` at the positions the prefix sums give it:
      from the count of digits below `e` to the count of digits up to `e`. */
  predicate HoldsBucket(o: seq<nat>, s: seq<nat>, exp: nat, e: nat)
    requires exp > 0
  {
    && CountBelow(s, exp, e) <= CountBelow(s, exp, e + 1) <= |o|
    && o[CountBelow(s, exp, e)..CountBelow(s, exp, e + 1)] == Bucket(s, exp, e)
  }

  lemma {:induction false} AssembleFrom(o: seq<nat>, s: seq<nat>, exp: nat, d: nat)
    requires exp > 0 && |o| == |s| && d <= Base
    requires forall e | 0 <= e < Base :: HoldsBucket(o, s, exp, e)
    ensures CountBelow(s, exp, d) <= |o|
    ensures o[CountBelow(s, exp, d)..] == BucketsFrom(s, exp, d)
    decreases Base - d
  {
    if d == Base {
      CountBelowAll(s, exp, d);
    } else {
      AssembleFrom(o, s, exp, d + 1);
      assert HoldsBucket(o, s, exp, d);
      var lo, hi := CountBelow(s, exp, d), CountBelow(s, exp, d + 1);
      assert o[lo..] == o[lo..hi] + o[hi..];
    }
  }

  /** An arrangement that holds bucket `d` between the counts below `d` and
      below `d + 1`, for every digit, is the result of the pass. */
  lemma AssembleBuckets(o: seq<nat>, s: seq<nat>, exp: nat)
    requires exp > 0 && |o| == |s|
    requires forall e | 0 <= e < Base :: HoldsBucket(o, s, exp, e)
    ensures o == ByDigit(s, exp)
  {
    var z := 0;
    AssembleFrom(o, s, exp, z);
    ByDigitBuckets(s, exp, z);
    assert o[z..] == o;
  }

  // ---------------------------------------------------------------------
  // One pass is a permutation

  /** Putting `x` in front of `t` adds `x` to the buckets from `d` on when
      its digit is at least `d`, and leaves them as they are otherwise. */
  predicate ConsAddsFrom(x: nat, t: seq<nat>, exp: nat, d: nat)
    requires exp > 0
  {
    && (d <= Digit(x, exp) ==>
          multiset(BucketsFrom([x] + t, exp, d)) == multiset(BucketsFrom(t, exp, d)) + multiset{x})
    && (Digit(x, exp) < d ==> BucketsFrom([x] + t, exp, d) == BucketsFrom(t, exp, d))
  }

  /** Bucket `d` in front, when the digit of `x` is below `d`. */
  lemma ConsBelow(x: nat, t: seq<nat>, exp: nat, d: nat)
    requires exp > 0 && d < Base && Digit(x, exp) < d
    requires BucketsFrom([x] + t, exp, d + 1) == BucketsFrom(t, exp, d + 1)
    ensures BucketsFrom([x] + t, exp, d) == BucketsFrom(t, exp, d)
  {
    BucketCons(x, t, exp, d);
  }

  /** Bucket `d` in front, when `d` is the digit of `x`. */
  lemma ConsAt(x: nat, t: seq<nat>, exp: nat, d: nat)
    requires exp > 0 && d < Base && Digit(x, exp) == d
    requires BucketsFrom([x] + t, exp, d + 1) == BucketsFrom(t, exp, d + 1)
    ensures BucketsFrom([x] + t, exp, d) == [x] + BucketsFrom(t, exp, d)
  {
    BucketCons(x, t, exp, d);
    var bt, ft := Bucket(t, exp, d), BucketsFrom(t, exp, d + 1);
    assert ([x] + bt) + ft == [x] + (bt + ft);
  }

  /** Bucket `d` in front, when the digit of `x` is above `d`. */
  lemma ConsAbove(x: nat, t: seq<nat>, exp: nat, d: nat)
    requires exp > 0 && d < Base && d < Digit(x, exp)
    requires multiset(BucketsFrom([x] + t, exp, d + 1)) == multiset(BucketsFrom(t, exp, d + 1)) + multiset{x}
    ensures multiset(BucketsFrom([x] + t, exp, d)) == multiset(BucketsFrom(t, exp, d)) + multiset{x}
  {
    BucketCons(x, t, exp, d);
    assert Bucket([x] + t, exp, d) == Bucket(t, exp, d);
  }

  /** One bucket more in front keeps `ConsAddsFrom`. */
  lemma ConsAddsStep(x: nat, t: seq<nat>, exp: nat, d: nat)
    requires exp > 0 && d < Base && ConsAddsFrom(x, t, exp, d + 1)
    ensures ConsAddsFrom(x, t, exp, d)
  {
    var k := Digit(x, exp);
    if k < d {
      ConsBelow(x, t, exp, d);
    } else if k == d {
      ConsAt(x, t, exp, d);
    } else {
      ConsAbove(x, t, exp, d);
    }
  }

  lemma {:induction false} BucketsFromCons(x: nat, t: seq<nat>, exp: nat, d: nat)
    requires exp > 0
    ensures ConsAddsFrom(x, t, exp, d)
    decreases Base - d
  {
    if d < Base {
      BucketsFromCons(x, t, exp, d + 1);
      ConsAddsStep(x, t, exp, d);
    } else {
      ConsAddsEnd(x, t, exp, d);
    }
  }

  /** Past the last digit there are no buckets, and no digit reaches `d`. */
  lemma ConsAddsEnd(x: nat, t: seq<nat>, exp: nat, d: nat)
    requires exp > 0 && d >= Base
    ensures ConsAddsFrom(x, t, exp, d)
  {
    assert BucketsFrom([x] + t, exp, d) == [] && BucketsFrom(t, exp, d) == [];
  }

  lemma {:induction false} BucketsFromEmpty(exp: nat, d: nat)
    requires exp > 0
    ensures BucketsFrom([], exp, d) == []
    decreases Base - d
  {
    if d < Base {
      BucketsFromEmpty(exp, d + 1);
    }
  }

  /** A pass on the empty sequence yields the empty sequence. */
  lemma ByDigitEmpty(exp: nat)
    requires exp > 0
    ensures ByDigit([], exp) == []
  {
    var z := 0;
    ByDigitBuckets([], exp, z);
    BucketsFromEmpty(exp, z);
  }

  /** Putting `x` in front of the input adds `x` to the elements of the pass. */
  lemma ElementsStep(x: nat, t: seq<nat>, exp: nat)
    requires exp > 0 && multiset(ByDigit(t, exp)) == multiset(t)
    ensures multiset(ByDigit([x] + t, exp)) == multiset([x] + t)
  {
    var z := 0;
    ByDigitBuckets([x] + t, exp, z);
    ByDigitBuckets(t, exp, z);
    BucketsFromCons(x, t, exp, z);
  }

  lemma {:induction false} ByDigitElements(s: seq<nat>, exp: nat)
    requires exp > 0
    ensures multiset(ByDigit(s, exp)) == multiset(s)
  {
    if s == [] {
      ByDigitEmpty(exp);
    } else {
      ByDigitElements(s[1..], exp);
      assert s == [s[0]] + s[1..];
      ElementsStep(s[0], s[1..], exp);
    }
  }

  /** A pass neither loses, duplicates nor changes any element. */
  lemma ByDigitPermutation(s: seq<nat>, exp: nat)
    requires exp > 0
    ensures multiset(ByDigit(s, exp)) == multiset(s)
    ensures |ByDigit(s, exp)| == |s|
  {
    ByDigitElements(s, exp);
    assert |multiset(ByDigit(s, exp))| == |multiset(s)|;
  }

  // ---------------------------------------------------------------------
  // One pass orders by the digit

  /** A bucket of digit `d` in front of a digit-ordered tail whose digits
      are at least `d` is digit-ordered, with digits at least `d`. */
  lemma ConcatOrdered(b: seq<nat>, rest: seq<nat>, exp: nat, d: nat)
    requires exp > 0
    requires forall i | 0 <= i < |b| :: Digit(b[i], exp) == d
    requires forall i | 0 <= i < |rest| :: d <= Digit(rest[i], exp)
    requires SortedByDigit(rest, exp)
    ensures SortedByDigit(b + rest, exp)
    ensures forall i | 0 <= i < |b + rest| :: d <= Digit((b + rest)[i], exp)
  {
    var r := b + rest;
    forall i | 0 <= i < |r| ensures d <= Digit(r[i], exp) {
      if i >= |b| { assert r[i] == rest[i - |b|]; }
    }
    forall i, j | 0 <= i < j < |r| ensures Digit(r[i], exp) <= Digit(r[j], exp) {
      if j < |b| {
      } else if i < |b| {
        assert r[j] == rest[j - |b|];
      } else {
        assert r[i] == rest[i - |b|] && r[j] == rest[j - |b|];
      }
    }
  }

  lemma {:induction false} BucketsFromOrdered(s: seq<nat>, exp: nat, d: nat)
    requires exp > 0
    ensures SortedByDigit(BucketsFrom(s, exp, d), exp)
    ensures forall i | 0 <= i < |BucketsFrom(s, exp, d)| :: d <= Digit(BucketsFrom(s, exp, d)[i], exp)
    decreases Base - d
  {
    if d < Base {
      BucketsFromOrdered(s, exp, d + 1);
      BucketDigits(s, exp, d);
      ConcatOrdered(Bucket(s, exp, d), BucketsFrom(s, exp, d + 1), exp, d);
    }
  }

  /** After a pass the elements are in non-decreasing order of the digit. */
  lemma ByDigitOrdered(s: seq<nat>, exp: nat)
    requires exp > 0
    ensures SortedByDigit(ByDigit(s, exp), exp)
  {
    var z := 0;
    ByDigitBuckets(s, exp, z);
    BucketsFromOrdered(s, exp, z);
  }

  // ---------------------------------------------------------------------
  // One pass is stable

  lemma {:induction false} BucketOfBucket(s: seq<nat>, exp: nat, d: nat, e: nat)
    requires exp > 0
    ensures Bucket(Bucket(s, exp, d), exp, e) == if d == e then Bucket(s, exp, d) else []
  {
    if s != [] {
      BucketOfBucket(s[1..], exp, d, e);
      if Digit(s[0], exp) == d {
        assert ([s[0]] + Bucket(s[1..], exp, d))[1..] == Bucket(s[1..], exp, d);
      }
    }
  }

  lemma {:induction false} BucketOfBucketsFrom(s: seq<nat>, exp: nat, d: nat, e: nat)
    requires exp > 0 && e < Base
    ensures Bucket(BucketsFrom(s, exp, d), exp, e) == if d <= e then Bucket(s, exp, e) else []
    decreases Base - d
  {
    if d < Base {
      BucketAppend(Bucket(s, exp, d), BucketsFrom(s, exp, d + 1), exp, e);
      BucketOfBucket(s, exp, d, e);
      BucketOfBucketsFrom(s, exp, d + 1, e);
    }
  }

  /** Elements with equal digit keep their relative input order. */
  lemma ByDigitStable(s: seq<nat>, exp: nat)
    requires exp > 0
    ensures Stable(ByDigit(s, exp), s, exp)
  {
    var z := 0;
    ByDigitBuckets(s, exp, z);
    forall d | 0 <= d < Base ensures Bucket(ByDigit(s, exp), exp, d) == Bucket(s, exp, d) {
      BucketOfBucketsFrom(s, exp, z, d);
    }
  }

  /** Equal buckets stay equal when the same element is removed in front. */
  lemma BucketConsCancel(x: nat, a: seq<nat>, b: seq<nat>, exp: nat, d: nat)
    requires exp > 0
    requires Bucket([x] + a, exp, d) == Bucket([x] + b, exp, d)
    ensures Bucket(a, exp, d) == Bucket(b, exp, d)
  {
    BucketCons(x, a, exp, d);
    BucketCons(x, b, exp, d);
    var c: seq<nat> := if Digit(x, exp) == d then [x] else [];
    assert Bucket(a, exp, d) == (c + Bucket(a, exp, d))[|c|..];
    assert Bucket(b, exp, d) == (c + Bucket(b, exp, d))[|c|..];
  }

  /** In a digit-ordered sequence no bucket below the first element's digit
      has anything in it. */
  lemma FirstDigitLeast(u: seq<nat>, exp: nat, d: nat)
    requires exp > 0 && u != [] && SortedByDigit(u, exp)
    requires d < Digit(u[0], exp)
    ensures Bucket(u, exp, d) == []
  {
    forall i | 0 <= i < |u| ensures Digit(u[i], exp) != d {
      if i > 0 {
        assert Digit(u[0], exp) <= Digit(u[i], exp);
      }
    }
    NoneInBucket(u, exp, d);
  }

  /** A non-empty sequence has a non-empty bucket for its first element's digit. */
  lemma FirstInOwnBucket(u: seq<nat>, exp: nat)
    requires exp > 0 && u != []
    ensures Bucket(u, exp, Digit(u[0], exp)) == [u[0]] + Bucket(u[1..], exp, Digit(u[0], exp))
  {
    assert u == [u[0]] + u[1..];
    BucketCons(u[0], u[1..], exp, Digit(u[0], exp));
  }

  /** Ordered by the digit and stable determine the arrangement: two
      digit-ordered sequences with the same buckets are equal. */
  lemma {:induction false} OrderedBucketsUnique(u: seq<nat>, v: seq<nat>, exp: nat)
    requires exp > 0
    requires SortedByDigit(u, exp) && SortedByDigit(v, exp)
    requires forall d | 0 <= d < Base :: Bucket(u, exp, d) == Bucket(v, exp, d)
    ensures u == v
    decreases |u|
  {
    if u == [] && v != [] {
      FirstInOwnBucket(v, exp);
      assert false;
    } else if u != [] && v == [] {
      FirstInOwnBucket(u, exp);
      assert false;
    } else if u != [] {
      var dx, dy := Digit(u[0], exp), Digit(v[0], exp);
      FirstInOwnBucket(u, exp);
      FirstInOwnBucket(v, exp);
      if dy < dx {
        FirstDigitLeast(u, exp, dy);
        assert false;
      } else if dx < dy {
        FirstDigitLeast(v, exp, dx);
        assert false;
      }
      assert Bucket(u, exp, dx)[0] == u[0] && Bucket(v, exp, dx)[0] == v[0];
      var x, u', v' := u[0], u[1..], v[1..];
      assert u == [x] + u' && v == [x] + v';
      forall d | 0 <= d < Base ensures Bucket(u', exp, d) == Bucket(v', exp, d) {
        BucketConsCancel(x, u', v', exp, d);
      }
      OrderedBucketsUnique(u', v', exp);
    }
  }

  /** `ByDigit` is the one arrangement of `s` that is ordered by the digit
      and stable: any stable digit-ordered `r` equals it. */
  lemma ByDigitUnique(s: seq<nat>, r: seq<nat>, exp: nat)
    requires exp > 0
    requires SortedByDigit(r, exp) && Stable(r, s, exp)
    ensures r == ByDigit(s, exp)
  {
    ByDigitOrdered(s, exp);
    ByDigitStable(s, exp);
    OrderedBucketsUnique(r, ByDigit(s, exp), exp);
  }

  // ---------------------------------------------------------------------
  // A pass extends the order on the lower digits by one digit

  /** A bucket is a subsequence, so it keeps any order by remainder modulo
      `m` that its input has. */
  lemma {:induction false} BucketKeepsOrder(t: seq<nat>, exp: nat, d: nat, m: nat)
    requires exp > 0 && m > 0
    requires SortedMod(t, m)
    ensures SortedMod(Bucket(t, exp, d), m)
  {
    if t != [] {
      BucketKeepsOrder(t[1..], exp, d, m);
      var rest := Bucket(t[1..], exp, d);
      if Digit(t[0], exp) == d {
        var b := [t[0]] + rest;
        forall i, j | 0 <= i < j < |b| ensures b[i] % m <= b[j] % m {
          if i == 0 {
            assert b[j] == rest[j - 1];
            BucketElements(t[1..], exp, d);
            assert b[j] in t[1..];
            var k :| 0 <= k < |t[1..]| && t[1..][k] == b[j];
            assert t[k + 1] == b[j];
          } else {
            assert b[i] == rest[i - 1] && b[j] == rest[j - 1];
          }
        }
      }
    }
  }

  /** A lower digit at `exp` means a smaller remainder modulo `10 * exp`. */
  lemma LowerDigitFirst(x: nat, y: nat, exp: nat)
    requires exp > 0 && Digit(x, exp) < Digit(y, exp)
    ensures x % (Base * exp) < y % (Base * exp)
  {
    ModSplit(x, exp);
    ModSplit(y, exp);
    PlaceLess(Digit(x, exp), Digit(y, exp), exp, x % exp, y % exp);
  }

  /** Within one bucket the order modulo `exp` is the order modulo `10 * exp`. */
  lemma SameDigitOrder(x: nat, y: nat, exp: nat)
    requires exp > 0 && Digit(x, exp) == Digit(y, exp) && x % exp <= y % exp
    ensures x % (Base * exp) <= y % (Base * exp)
  {
    ModSplit(x, exp);
    ModSplit(y, exp);
  }

  /** A bucket of digit `d` ordered modulo `exp`, in front of a tail ordered
      modulo `10 * exp` whose digits exceed `d`, is ordered modulo `10 * exp`. */
  lemma ConcatExtends(b: seq<nat>, rest: seq<nat>, exp: nat, d: nat)
    requires exp > 0
    requires forall i | 0 <= i < |b| :: Digit(b[i], exp) == d
    requires forall i | 0 <= i < |rest| :: d < Digit(rest[i], exp)
    requires SortedMod(b, exp) && SortedMod(rest, Base * exp)
    ensures SortedMod(b + rest, Base * exp)
    ensures forall i | 0 <= i < |b + rest| :: d <= Digit((b + rest)[i], exp)
  {
    var r := b + rest;
    forall i | 0 <= i < |r| ensures d <= Digit(r[i], exp) {
      if i >= |b| { assert r[i] == rest[i - |b|]; }
    }
    forall i, j | 0 <= i < j < |r| ensures r[i] % (Base * exp) <= r[j] % (Base * exp) {
      if j < |b| {
        SameDigitOrder(b[i], b[j], exp);
      } else if i < |b| {
        assert r[j] == rest[j - |b|];
        LowerDigitFirst(b[i], r[j], exp);
      } else {
        assert r[i] == rest[i - |b|] && r[j] == rest[j - |b|];
      }
    }
  }

  lemma {:induction false} BucketsFromExtendOrder(t: seq<nat>, exp: nat, d: nat)
    requires exp > 0 && SortedMod(t, exp)
    ensures SortedMod(BucketsFrom(t, exp, d), Base * exp)
    ensures forall i | 0 <= i < |BucketsFrom(t, exp, d)| :: d <= Digit(BucketsFrom(t, exp, d)[i], exp)
    decreases Base - d
  {
    if d < Base {
      BucketsFromExtendOrder(t, exp, d + 1);
      BucketKeepsOrder(t, exp, d, exp);
      BucketDigits(t, exp, d);
      ConcatExtends(Bucket(t, exp, d), BucketsFrom(t, exp, d + 1), exp, d);
    }
  }

  /** If the input is ordered by its remainder modulo `exp`, then after the
      pass on the digit at `exp` it is ordered by its remainder modulo
      `10 * exp`: the step that makes LSD radix sort correct. */
  lemma ByDigitExtendsOrder(t: seq<nat>, exp: nat)
    requires exp > 0 && SortedMod(t, exp)
    ensures SortedMod(ByDigit(t, exp), Base * exp)
  {
    var z := 0;
    ByDigitBuckets(t, exp, z);
    BucketsFromExtendOrder(t, exp, z);
  }
}
