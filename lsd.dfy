/** The sequence of counting-sort passes that `radixSort` (serial.cpp) runs,
    as functions on sequences, and what the passes achieve: after `k` passes
    the elements are ordered by their last `k` digits, and after as many
    passes as the maximum has digits they are in ascending order. */
module Lsd {
  import opened Digits
  import opened DigitBuckets

  /** The value `std::max_element` points to in a non-empty sequence. */
  function Max(s: seq<nat>): (m: nat)
    requires |s| > 0
    ensures m in s
    ensures forall i | 0 <= i < |s| :: s[i] <= m
  {
    if |s| == 1 then s[0]
    else
      var rest := Max(s[1..]);
      if s[0] >= rest then s[0] else rest
  }

  /** The first `k` passes, on the digits at 1, 10, ..., 10^(k-1). */
  function LsdPasses(s: seq<nat>, k: nat): seq<nat>
  {
    if k == 0 then s else ByDigit(LsdPasses(s, k - 1), Pow10(k - 1))
  }

  /** What radixSort leaves in a non-empty array: one pass per decimal digit
      of the maximum, and no pass at all when the maximum is zero. */
  function LsdSort(s: seq<nat>): seq<nat>
    requires |s| > 0
  {
    LsdPasses(s, NumDigits(Max(s)))
  }

  /** Every sequence is ordered by the remainder modulo 1, which is zero. */
  lemma ModOneSorted(s: seq<nat>)
    ensures SortedMod(LsdPasses(s, 0), Pow10(0))
  {
    forall i, j | 0 <= i < j < |s| ensures s[i] % 1 <= s[j] % 1 {
      assert s[i] % 1 == 0 && s[j] % 1 == 0;
    }
  }

  /** One more pass keeps the elements. */
  lemma PassKeepsElements(s: seq<nat>, k: nat)
    requires k > 0 && multiset(LsdPasses(s, k - 1)) == multiset(s)
    ensures multiset(LsdPasses(s, k)) == multiset(s)
  {
    ByDigitPermutation(LsdPasses(s, k - 1), Pow10(k - 1));
  }

  /** One more pass extends the order by one digit. */
  lemma PassExtendsOrder(s: seq<nat>, k: nat)
    requires k > 0 && SortedMod(LsdPasses(s, k - 1), Pow10(k - 1))
    ensures SortedMod(LsdPasses(s, k), Pow10(k))
  {
    ByDigitExtendsOrder(LsdPasses(s, k - 1), Pow10(k - 1));
  }

  /** The passes of radixSort keep the elements of the input. */
  lemma {:induction false} LsdPassesPermutation(s: seq<nat>, k: nat)
    ensures multiset(LsdPasses(s, k)) == multiset(s)
  {
    if k > 0 {
      LsdPassesPermutation(s, k - 1);
      PassKeepsElements(s, k);
    }
  }

  /** Loop invariant of radixSort: after `k` passes the sequence is ordered
      by the remainder modulo `10^k`, that is, by its last `k` digits. */
  lemma {:induction false} LsdPassesOrder(s: seq<nat>, k: nat)
    ensures SortedMod(LsdPasses(s, k), Pow10(k))
  {
    if k == 0 {
      ModOneSorted(s);
    } else {
      LsdPassesOrder(s, k - 1);
      PassExtendsOrder(s, k);
    }
  }

  /** An ordering by remainders modulo a bound above every element is the
      ascending order. */
  lemma SortedModBelow(r: seq<nat>, m: nat)
    requires m > 0 && SortedMod(r, m)
    requires forall i | 0 <= i < |r| :: r[i] < m
    ensures Sorted(r)
  {
    forall i, j | 0 <= i < j < |r| ensures r[i] <= r[j] {
      ModBelow(r[i], m);
      ModBelow(r[j], m);
    }
  }

  /** radixSort sorts: its result is an ascending permutation of the input. */
  lemma LsdSortCorrect(s: seq<nat>)
    requires |s| > 0
    ensures multiset(LsdSort(s)) == multiset(s)
    ensures Sorted(LsdSort(s))
  {
    var k := NumDigits(Max(s));
    var r := LsdSort(s);
    LsdPassesPermutation(s, k);
    LsdPassesOrder(s, k);
    BelowNextPlace(Max(s));
    forall i | 0 <= i < |r| ensures r[i] < Pow10(k) {
      assert r[i] in multiset(s);
    }
    SortedModBelow(r, Pow10(k));
  }

  /** The first element of an ascending sequence is its least. */
  lemma SortedHeadLeast(a: seq<nat>, x: nat)
    requires Sorted(a) && x in multiset(a)
    ensures a[0] <= x
  {
    var i :| 0 <= i < |a| && a[i] == x;
  }

  /** Removing the first element removes it from the elements. */
  lemma TailElements(a: seq<nat>)
    requires |a| > 0
    ensures multiset(a[1..]) == multiset(a) - multiset{a[0]}
  {
    assert a == [a[0]] + a[1..];
  }

  /** The rest of an ascending sequence is ascending. */
  lemma SortedTail(a: seq<nat>)
    requires |a| > 0 && Sorted(a)
    ensures Sorted(a[1..])
  {
    forall i, j | 0 <= i < j < |a| - 1 ensures a[1..][i] <= a[1..][j] {
      assert a[1..][i] == a[i + 1] && a[1..][j] == a[j + 1];
    }
  }

  /** Two non-empty ascending sequences with the same elements start with
      the same element, and their rests are ascending with the same elements. */
  lemma SortedHeads(a: seq<nat>, b: seq<nat>)
    requires Sorted(a) && Sorted(b) && multiset(a) == multiset(b) && |a| > 0
    ensures |b| > 0 && a[0] == b[0]
    ensures Sorted(a[1..]) && Sorted(b[1..]) && multiset(a[1..]) == multiset(b[1..])
  {
    assert |a| == |multiset(a)| == |b|;
    assert a[0] == b[0] by {
      assert a[0] in multiset(a) && b[0] in multiset(b);
      SortedHeadLeast(a, b[0]);
      SortedHeadLeast(b, a[0]);
    }
    TailElements(a);
    TailElements(b);
    SortedTail(a);
    SortedTail(b);
  }

  /** Two ascending sequences with the same elements are equal. */
  lemma {:induction false} SortedUnique(a: seq<nat>, b: seq<nat>)
    requires Sorted(a) && Sorted(b) && multiset(a) == multiset(b)
    ensures a == b
    decreases |a|
  {
    if a == [] {
      assert |b| == |multiset(b)| == 0;
    } else {
      SortedHeads(a, b);
      SortedUnique(a[1..], b[1..]);
      assert a == [a[0]] + a[1..] && b == [b[0]] + b[1..];
    }
  }

  /** The result of radixSort is the ascending arrangement of the input, so
      an input already in ascending order is left as it is. */
  lemma LsdSortOfSorted(s: seq<nat>)
    requires |s| > 0 && Sorted(s)
    ensures LsdSort(s) == s
  {
    LsdSortIsSortedPermutation(s, s);
  }

  /** When every element is zero the maximum has no digits, radixSort makes
      no pass, and the input comes back unchanged. */
  lemma AllZeroNoPass(s: seq<nat>)
    requires |s| > 0 && forall i | 0 <= i < |s| :: s[i] == 0
    ensures NumDigits(Max(s)) == 0 && LsdSort(s) == s
  {
  }

  /** The result of radixSort is determined by the input's elements: it is
      the one ascending sequence with the same elements. */
  lemma LsdSortIsSortedPermutation(s: seq<nat>, r: seq<nat>)
    requires |s| > 0 && Sorted(r) && multiset(r) == multiset(s)
    ensures LsdSort(s) == r
  {
    LsdSortCorrect(s);
    SortedUnique(LsdSort(s), r);
  }

  /** Each element at most its successor makes a sequence ascending. */
  lemma {:induction false} SortedAdjacent(r: seq<nat>)
    requires forall i | 0 < i < |r| :: r[i - 1] <= r[i]
    ensures Sorted(r)
  {
    if |r| > 1 {
      SortedAdjacent(r[1..]);
      forall j | 0 < j < |r| ensures r[0] <= r[j] {
        if j > 1 {
          assert r[1..][0] <= r[1..][j - 1];
        }
      }
    }
  }

  /** Duplicates are kept: [3, 1, 3, 2, 1] sorts to [1, 1, 2, 3, 3]. */
  lemma ExampleDuplicates(s: seq<nat>)
    requires s == [3, 1, 3, 2, 1]
    ensures LsdSort(s) == [1, 1, 2, 3, 3]
  {
    var r: seq<nat> := [1, 1, 2, 3, 3];
    assert Sorted(r) by {
      SortedAdjacent(r);
    }
    assert multiset(s) == multiset(r);
    LsdSortIsSortedPermutation(s, r);
  }

  /** Values with one to four digits: [1000, 1, 999, 10] sorts to
      [1, 10, 999, 1000]. */
  lemma ExampleSpread(s: seq<nat>)
    requires s == [1000, 1, 999, 10]
    ensures LsdSort(s) == [1, 10, 999, 1000]
  {
    var r: seq<nat> := [1, 10, 999, 1000];
    assert Sorted(r) by {
      SortedAdjacent(r);
    }
    assert multiset(s) == multiset(r);
    LsdSortIsSortedPermutation(s, r);
  }

  /** A single element and an all-zero input come back unchanged. */
  lemma ExampleSingleAndZeros(one: seq<nat>, zeros: seq<nat>)
    requires one == [5] && zeros == [0, 0, 0]
    ensures LsdSort(one) == [5] && LsdSort(zeros) == [0, 0, 0]
  {
    LsdSortOfSorted(one);
    AllZeroNoPass(zeros);
  }
}
