/** `five_number_summary` and its inner `_list_split`: the exclusive-median
    (Tukey hinge) five-number summary of a list of numbers. */
module Summary {
  import opened Common

  predicate IsSorted(s: seq<real>)
  {
    forall i, j :: 0 <= i <= j < |s| ==> s[i] <= s[j]
  }

  /** Inserts `x` in front of the first element not below it. */
  function Insert(x: real, s: seq<real>): (r: seq<real>)
    ensures |r| == |s| + 1
  {
    if s == [] || x <= s[0] then [x] + s else [s[0]] + Insert(x, s[1..])
  }

  /** Python's `sorted`, as an insertion sort. */
  function Sort(s: seq<real>): (r: seq<real>)
    ensures |r| == |s|
  {
    if s == [] then [] else Insert(s[0], Sort(s[1..]))
  }

  /** A value no greater than the head of a sorted list may go in front of it. */
  lemma ConsSorted(x: real, s: seq<real>)
    requires IsSorted(s) && (s != [] ==> x <= s[0])
    ensures IsSorted([x] + s)
  {
    forall i, j | 0 <= i <= j < |[x] + s| ensures ([x] + s)[i] <= ([x] + s)[j] {
      if i > 0 {
        assert ([x] + s)[i] == s[i - 1] && ([x] + s)[j] == s[j - 1];
      } else if j > 0 {
        assert ([x] + s)[j] == s[j - 1];
      }
    }
  }

  /** Inserting adds exactly one copy of `x`. */
  lemma {:induction false} InsertMultiset(x: real, s: seq<real>)
    ensures multiset(Insert(x, s)) == multiset(s) + multiset{x}
  {
    if s != [] && x > s[0] {
      InsertMultiset(x, s[1..]);
      TailMultiset(s);
    }
  }

  /** The inserted list starts with `x` or with the old head. */
  lemma InsertHead(x: real, s: seq<real>)
    ensures var r := Insert(x, s); r[0] == x || (s != [] && r[0] == s[0])
  {
  }

  /** Inserting into a sorted list keeps it sorted. */
  lemma {:induction false} InsertSorted(x: real, s: seq<real>)
    requires IsSorted(s)
    ensures IsSorted(Insert(x, s))
  {
    if s == [] || x <= s[0] {
      ConsSorted(x, s);
    } else {
      var t := Insert(x, s[1..]);
      assert IsSorted(t) by {
        SortedTail(s);
        InsertSorted(x, s[1..]);
      }
      assert s[0] <= t[0] by {
        InsertHead(x, s[1..]);
        if t[0] != x {
          assert s[0] <= s[1];
        }
      }
      ConsSorted(s[0], t);
    }
  }

  /** `sorted` returns an ascending permutation of its argument. */
  lemma {:induction false} SortSortsAndPermutes(s: seq<real>)
    ensures IsSorted(Sort(s)) && multiset(Sort(s)) == multiset(s)
  {
    if s != [] {
      SortSortsAndPermutes(s[1..]);
      InsertSorted(s[0], Sort(s[1..]));
      InsertMultiset(s[0], Sort(s[1..]));
      TailMultiset(s);
    }
  }

  lemma SortedSlice(s: seq<real>, i: nat, j: nat)
    requires IsSorted(s) && i <= j <= |s|
    ensures IsSorted(s[i..j])
  {
    forall a, b | 0 <= a <= b < j - i ensures s[i..j][a] <= s[i..j][b] {
      assert s[i..j][a] == s[i + a] && s[i..j][b] == s[i + b];
    }
  }

  /** The first element of a sorted list is its least. */
  lemma HeadIsLeast(s: seq<real>, x: real)
    requires IsSorted(s) && x in multiset(s)
    ensures s[0] <= x
  {
    var k :| 0 <= k < |s| && s[k] == x;
  }

  /** Dropping the head of a list drops one copy of it from the multiset. */
  lemma TailMultiset(s: seq<real>)
    requires s != []
    ensures multiset(s[1..]) == multiset(s) - multiset{s[0]}
  {
    assert s == [s[0]] + s[1..];
  }

  lemma SortedTail(s: seq<real>)
    requires IsSorted(s) && s != []
    ensures IsSorted(s[1..])
  {
    SortedSlice(s, 1, |s|);
    assert s[1..|s|] == s[1..];
  }

  lemma SameHeadSameTail(a: seq<real>, b: seq<real>)
    requires a != [] && b != [] && a[0] == b[0] && a[1..] == b[1..]
    ensures a == b
  {
    assert a == [a[0]] + a[1..] && b == [b[0]] + b[1..];
  }

  /** There is only one ascending arrangement of a multiset, so the result of
      sorting is fixed by the multiset of the input. */
  lemma {:induction false} SortedUnique(a: seq<real>, b: seq<real>)
    requires IsSorted(a) && IsSorted(b)
    requires multiset(a) == multiset(b)
    ensures a == b
  {
    assert |a| == |multiset(a)| == |multiset(b)| == |b|;
    if a != [] {
      assert a[0] == b[0] by {
        HeadIsLeast(a, b[0]);
        HeadIsLeast(b, a[0]);
      }
      assert multiset(a[1..]) == multiset(b[1..]) by {
        TailMultiset(a);
        TailMultiset(b);
      }
      assert IsSorted(a[1..]) && IsSorted(b[1..]) by {
        SortedTail(a);
        SortedTail(b);
      }
      SortedUnique(a[1..], b[1..]);
      SameHeadSameTail(a, b);
    }
  }

  /** The result of `_list_split`: the median and the two halves around it. */
  datatype Split = Split(median: real, low: seq<real>, high: seq<real>)

  /** `_list_split`: cuts `s` at `mid = len(s) // 2`. For an even length the
      median is the mean of the two middle elements and the halves cover `s`;
      for an odd length the median is the middle element, which neither half
      keeps. */
  function ListSplit(s: seq<real>): (r: Split)
    requires |s| >= 1
    ensures |r.low| == |r.high| == |s| / 2
    ensures |s| % 2 == 0 ==> r.low + r.high == s
    ensures |s| % 2 == 0 ==> r.median == (r.low[|r.low| - 1] + r.high[0]) / 2.0
    ensures |s| % 2 == 1 ==> r.low + [r.median] + r.high == s
  {
    var mid := |s| / 2;
    if |s| % 2 == 0 then
      Split((s[mid - 1] + s[mid]) / 2.0, s[..mid], s[mid..])
    else
      assert s == s[..mid] + [s[mid]] + s[mid + 1..];
      Split(s[mid], s[..mid], s[mid + 1..])
  }

  /** On a sorted list the split is a median split: nothing in the low half
      exceeds the median, nothing in the high half is below it, and the median
      lies between the least and the greatest element. */
  lemma MedianSeparatesHalves(s: seq<real>)
    requires |s| >= 1 && IsSorted(s)
    ensures var r := ListSplit(s);
      (forall i :: 0 <= i < |r.low| ==> r.low[i] <= r.median) &&
      (forall i :: 0 <= i < |r.high| ==> r.median <= r.high[i]) &&
      s[0] <= r.median <= s[|s| - 1]
  {
    var r := ListSplit(s);
    var mid := |s| / 2;
    if |s| % 2 == 0 {
      assert r.low == s[..mid] && r.high == s[mid..];
      assert s[mid - 1] <= s[mid];
      assert s[0] <= s[mid - 1] && s[mid] <= s[|s| - 1];
      forall i | 0 <= i < |r.low| ensures r.low[i] <= r.median {
        assert r.low[i] == s[i] && s[i] <= s[mid - 1];
      }
      forall i | 0 <= i < |r.high| ensures r.median <= r.high[i] {
        assert r.high[i] == s[mid + i] && s[mid] <= s[mid + i];
      }
    } else {
      assert s == r.low + [r.median] + r.high;
      assert r.median == s[mid];
      forall i | 0 <= i < |r.low| ensures r.low[i] <= r.median {
        assert r.low[i] == s[i];
      }
      forall i | 0 <= i < |r.high| ensures r.median <= r.high[i] {
        assert r.high[i] == s[mid + 1 + i];
      }
    }
  }

  /** The median of a sorted list lies between its least and its greatest
      element. */
  lemma MedianInRange(s: seq<real>)
    requires |s| >= 1 && IsSorted(s)
    ensures s[0] <= ListSplit(s).median <= s[|s| - 1]
  {
    var mid := |s| / 2;
    if |s| % 2 == 0 {
      assert s[0] <= s[mid - 1] <= s[mid] <= s[|s| - 1];
    } else {
      assert s[0] <= s[mid] <= s[|s| - 1];
    }
  }

  /** The median of a sorted list lies between the last element of the low
      half and the first element of the high half. */
  lemma MedianBetweenHalves(s: seq<real>)
    requires |s| >= 2 && IsSorted(s)
    ensures s[|s| / 2 - 1] <= ListSplit(s).median <= s[|s| - |s| / 2]
  {
    var mid := |s| / 2;
    if |s| % 2 == 1 {
      assert s[mid - 1] <= s[mid] <= s[mid + 1];
    }
  }

  /** Both halves of a sorted list are sorted; the low half runs from the
      first element to element `n/2 - 1` and the high half from element
      `n - n/2` to the last. */
  lemma HalvesOfSorted(s: seq<real>)
    requires |s| >= 2 && IsSorted(s)
    ensures var r := ListSplit(s);
      IsSorted(r.low) && IsSorted(r.high) &&
      r.low[0] == s[0] && r.low[|r.low| - 1] == s[|s| / 2 - 1] &&
      r.high[0] == s[|s| - |s| / 2] && r.high[|r.high| - 1] == s[|s| - 1]
  {
    var n, h := |s|, |s| / 2;
    var r := ListSplit(s);
    if n % 2 == 0 {
      assert r.low == s[0..h] && r.high == s[n - h..n];
    } else {
      assert r.low == s[0..h] && r.high == s[n - h..n];
    }
    SortedSlice(s, 0, h);
    SortedSlice(s, n - h, n);
  }

  /** The numbers among `lst`, in order. */
  function Numbers(lst: seq<Value>): (r: seq<real>)
    ensures |r| <= |lst|
    ensures (forall i :: 0 <= i < |lst| ==> lst[i].Number?) ==>
              |r| == |lst| && forall i :: 0 <= i < |lst| ==> r[i] == lst[i].x
  {
    if lst == [] then []
    else (if lst[0].Number? then [lst[0].x] else []) + Numbers(lst[1..])
  }

  /** (min, Q1, Q2, Q3, max). */
  datatype FiveNumbers = FiveNumbers(min: real, q1: real, q2: real, q3: real, max: real)

  /** The summary of an already sorted list of at least two numbers: split at
      the median Q2, then Q1 and Q3 are the medians of the low and the high
      half. Both halves are non-empty, so no split indexes out of range. On a
      sorted list the five values are non-decreasing. */
  function SummaryOfSorted(sorted: seq<real>): (f: FiveNumbers)
    requires |sorted| >= 2
    ensures IsSorted(sorted) ==> f.min <= f.q1 <= f.q2 <= f.q3 <= f.max
  {
    var top := ListSplit(sorted);
    var lower := ListSplit(top.low);
    var upper := ListSplit(top.high);
    var f := FiveNumbers(sorted[0], lower.median, top.median, upper.median, sorted[|sorted| - 1]);
    if IsSorted(sorted) then
      HalvesOfSorted(sorted);
      MedianInRange(top.low);
      MedianInRange(top.high);
      MedianBetweenHalves(sorted);
      f
    else
      f
  }

  /** `five_number_summary`: rejects lists shorter than two, then lists holding
      a non-number; otherwise summarises a sorted copy of the numbers. */
  function FiveNumberSummary(lst: seq<Value>): (r: Result<FiveNumbers>)
    ensures r == Failure(ListTooShort) <==> |lst| <= 1
    ensures r == Failure(NotNumeric) <==>
              |lst| >= 2 && exists i :: 0 <= i < |lst| && lst[i].NotNumber?
    ensures r.Failure? ==> r.error in {ListTooShort, NotNumeric}
  {
    if |lst| <= 1 then Failure(ListTooShort)
    else if !(forall i :: 0 <= i < |lst| ==> lst[i].Number?) then Failure(NotNumeric)
    else Success(SummaryOfSorted(Sort(Numbers(lst))))
  }

  /** The five values are non-decreasing: min <= Q1 <= Q2 <= Q3 <= max. */
  lemma SummaryOrdered(lst: seq<Value>)
    requires FiveNumberSummary(lst).Success?
    ensures var f := FiveNumberSummary(lst).value;
      f.min <= f.q1 <= f.q2 <= f.q3 <= f.max
  {
    SortSortsAndPermutes(Numbers(lst));
  }

  /** The first and the last value are the least and the greatest input. */
  lemma SummaryExtremes(lst: seq<Value>)
    requires FiveNumberSummary(lst).Success?
    ensures var f := FiveNumberSummary(lst).value;
      (forall i :: 0 <= i < |lst| ==> f.min <= lst[i].x <= f.max) &&
      (exists i :: 0 <= i < |lst| && lst[i].x == f.min) &&
      (exists i :: 0 <= i < |lst| && lst[i].x == f.max)
  {
    var nums := Numbers(lst);
    var sorted := Sort(nums);
    var f := FiveNumberSummary(lst).value;
    SortSortsAndPermutes(nums);
    forall i | 0 <= i < |lst| ensures f.min <= lst[i].x <= f.max {
      assert nums[i] in multiset(sorted);
      var k :| 0 <= k < |sorted| && sorted[k] == nums[i];
    }
    assert sorted[0] in multiset(nums);
    var lo :| 0 <= lo < |nums| && nums[lo] == sorted[0];
    assert lst[lo].x == f.min;
    assert sorted[|sorted| - 1] in multiset(nums);
    var hi :| 0 <= hi < |nums| && nums[hi] == sorted[|sorted| - 1];
    assert lst[hi].x == f.max;
  }

  lemma {:induction false} NumbersCount(lst: seq<Value>, x: real)
    ensures multiset(Numbers(lst))[x] == multiset(lst)[Number(x)]
  {
    if lst != [] {
      assert lst == [lst[0]] + lst[1..];
      NumbersCount(lst[1..], x);
    }
  }

  /** Lists with the same multiset hold the same numbers, as many times each. */
  lemma NumbersPermuted(a: seq<Value>, b: seq<Value>)
    requires multiset(a) == multiset(b)
    ensures multiset(Numbers(a)) == multiset(Numbers(b))
  {
    forall x ensures multiset(Numbers(a))[x] == multiset(Numbers(b))[x] {
      NumbersCount(a, x);
      NumbersCount(b, x);
    }
  }

  /** A list holds a non-number exactly when its multiset does. */
  lemma HasNotNumber(a: seq<Value>)
    ensures (exists i :: 0 <= i < |a| && a[i].NotNumber?) <==> NotNumber in multiset(a)
  {
    if NotNumber in multiset(a) {
      var i :| 0 <= i < |a| && a[i] == NotNumber;
    }
  }

  /** The summary depends only on the multiset of the input: reordering the
      list changes neither the result nor the error raised. */
  lemma SummaryDependsOnlyOnMultiset(a: seq<Value>, b: seq<Value>)
    requires multiset(a) == multiset(b)
    ensures FiveNumberSummary(a) == FiveNumberSummary(b)
  {
    assert |a| == |b| by {
      assert |a| == |multiset(a)| && |b| == |multiset(b)|;
    }
    HasNotNumber(a);
    HasNotNumber(b);
    if FiveNumberSummary(a).Success? {
      assert Sort(Numbers(a)) == Sort(Numbers(b)) by {
        NumbersPermuted(a, b);
        SortSortsAndPermutes(Numbers(a));
        SortSortsAndPermutes(Numbers(b));
        SortedUnique(Sort(Numbers(a)), Sort(Numbers(b)));
      }
    }
  }

  /** Sorting a list that is already in order gives it back. */
  lemma SortOfSorted(s: seq<real>)
    requires IsSorted(s)
    ensures Sort(s) == s
  {
    SortSortsAndPermutes(s);
    SortedUnique(Sort(s), s);
  }

  /** A list of numbers in non-decreasing order. */
  predicate Ordered(lst: seq<Value>)
  {
    (forall i :: 0 <= i < |lst| ==> lst[i].Number?) &&
    forall i :: 0 < i < |lst| ==> lst[i - 1].x <= lst[i].x
  }

  lemma ChainLe(s: seq<real>, i: nat, j: nat)
    requires forall k :: 0 < k < |s| ==> s[k - 1] <= s[k]
    requires i <= j < |s|
    ensures s[i] <= s[j]
    decreases j - i
  {
    if i < j {
      ChainLe(s, i + 1, j);
    }
  }

  /** A list in which each element is no less than the one before is sorted. */
  lemma SortedByNeighbours(s: seq<real>)
    requires forall k :: 0 < k < |s| ==> s[k - 1] <= s[k]
    ensures IsSorted(s)
  {
    forall i, j | 0 <= i <= j < |s| ensures s[i] <= s[j] {
      ChainLe(s, i, j);
    }
  }

  /** A list whose numbers are already in order is summarised as it stands. */
  lemma SummaryOfOrderedInput(lst: seq<Value>)
    requires |lst| >= 2 && Ordered(lst)
    ensures FiveNumberSummary(lst) == Success(SummaryOfSorted(Numbers(lst)))
  {
    var nums := Numbers(lst);
    SortedByNeighbours(nums);
    SortOfSorted(nums);
  }

  /** The summary of nine sorted values: Q2 is the fifth, and each quartile
      is the mean of the two middle values of its four-value half. */
  lemma SortedNine(s: seq<real>)
    requires |s| == 9
    ensures SummaryOfSorted(s) ==
      FiveNumbers(s[0], (s[1] + s[2]) / 2.0, s[4], (s[6] + s[7]) / 2.0, s[8])
  {
    var top := ListSplit(s);
    assert top.low == s[..4] && top.high == s[5..];
    assert ListSplit(top.low).median == (s[1] + s[2]) / 2.0;
    assert ListSplit(top.high).median == (s[6] + s[7]) / 2.0;
  }

  /** The summary of four sorted values: each half holds two of them. */
  lemma SortedFour(s: seq<real>)
    requires |s| == 4
    ensures SummaryOfSorted(s) ==
      FiveNumbers(s[0], (s[0] + s[1]) / 2.0, (s[1] + s[2]) / 2.0, (s[2] + s[3]) / 2.0, s[3])
  {
    var top := ListSplit(s);
    assert top.low == s[..2] && top.high == s[2..];
    assert ListSplit(top.low).median == (s[0] + s[1]) / 2.0;
    assert ListSplit(top.high).median == (s[2] + s[3]) / 2.0;
  }

  /** The summary of two sorted values: each half is one value, its own median. */
  lemma SortedTwo(s: seq<real>)
    requires |s| == 2
    ensures SummaryOfSorted(s) == FiveNumbers(s[0], s[0], (s[0] + s[1]) / 2.0, s[1], s[1])
  {
    var top := ListSplit(s);
    assert top.low == [s[0]] && top.high == [s[1]];
  }

  /** Nine numbers in order: Q2 is the fifth, and each quartile is the mean
      of the two middle values of its four-value half. */
  lemma SummaryOfNine(lst: seq<Value>)
    requires |lst| == 9 && Ordered(lst)
    ensures FiveNumberSummary(lst) == Success(FiveNumbers(lst[0].x,
      (lst[1].x + lst[2].x) / 2.0, lst[4].x, (lst[6].x + lst[7].x) / 2.0, lst[8].x))
  {
    SummaryOfOrderedInput(lst);
    SortedNine(Numbers(lst));
  }

  /** Four numbers in order: each half holds two of them. */
  lemma SummaryOfFour(lst: seq<Value>)
    requires |lst| == 4 && Ordered(lst)
    ensures FiveNumberSummary(lst) == Success(FiveNumbers(lst[0].x, (lst[0].x + lst[1].x) / 2.0,
      (lst[1].x + lst[2].x) / 2.0, (lst[2].x + lst[3].x) / 2.0, lst[3].x))
  {
    SummaryOfOrderedInput(lst);
    SortedFour(Numbers(lst));
  }

  /** Two numbers in order: each half is one value, its own median. */
  lemma SummaryOfTwo(lst: seq<Value>)
    requires |lst| == 2 && Ordered(lst)
    ensures FiveNumberSummary(lst) == Success(FiveNumbers(lst[0].x, lst[0].x,
      (lst[0].x + lst[1].x) / 2.0, lst[1].x, lst[1].x))
  {
    SummaryOfOrderedInput(lst);
    SortedTwo(Numbers(lst));
  }

  /** The first summary the source asserts after its definition. */
  lemma PinnedExampleNine(lst: seq<Value>)
    requires lst == [Number(1.0), Number(2.0), Number(3.0), Number(7.0), Number(8.0),
                     Number(8.0), Number(11.0), Number(15.0), Number(17.0)]
    ensures FiveNumberSummary(lst) == Success(FiveNumbers(1.0, 2.5, 8.0, 13.0, 17.0))
  {
    SummaryOfNine(lst);
  }

  /** The second summary the source asserts: a constant list. */
  lemma PinnedExampleConstant(lst: seq<Value>)
    requires lst == [Number(1.0), Number(1.0), Number(1.0), Number(1.0)]
    ensures FiveNumberSummary(lst) == Success(FiveNumbers(1.0, 1.0, 1.0, 1.0, 1.0))
  {
    SummaryOfFour(lst);
  }

  /** A two-element list: each half holds one value, which is its own median. */
  lemma TwoElementExample(lst: seq<Value>)
    requires lst == [Number(5.0), Number(9.0)]
    ensures FiveNumberSummary(lst) == Success(FiveNumbers(5.0, 5.0, 7.0, 9.0, 9.0))
  {
    SummaryOfTwo(lst);
  }

  /** The error cases: a single value, and a list with a non-number in it. */
  lemma ErrorExamples()
    ensures FiveNumberSummary([Number(5.0)]) == Failure(ListTooShort)
    ensures FiveNumberSummary([Number(1.0), NotNumber, Number(3.0)]) == Failure(NotNumeric)
    ensures FiveNumberSummary([NotNumber]) == Failure(ListTooShort)
  {
  }
}
