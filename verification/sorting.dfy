/** Putting the drawn numbers into ascending order: the applet's fixed-pass
    bubble sort, and an insertion sort as the independent reference it is
    proved to agree with. */
module Sorting {

  import opened Lottery

  predicate Ascending(s: seq<int>)
  {
    forall i, j :: 0 <= i < j < |s| ==> s[i] <= s[j]
  }

  predicate StrictlyAscending(s: seq<int>)
  {
    forall i, j :: 0 <= i < j < |s| ==> s[i] < s[j]
  }

  /** x placed into an ascending sequence before the first element not below it. */
  function Insert(x: int, s: seq<int>): (r: seq<int>)
    requires Ascending(s)
    ensures Ascending(r)
    ensures multiset(r) == multiset(s) + multiset{x}
  {
    if s == [] then
      [x]
    else if x <= s[0] then
      [x] + s
    else
      var rest := Insert(x, s[1..]);
      assert s == [s[0]] + s[1..];
      LowerBoundOfInsert(x, s, rest);
      [s[0]] + rest
  }

  /** Every element of the insertion into the tail is at least s[0]. */
  lemma LowerBoundOfInsert(x: int, s: seq<int>, rest: seq<int>)
    requires Ascending(s) && |s| > 0 && s[0] < x
    requires multiset(rest) == multiset(s[1..]) + multiset{x}
    ensures forall k :: 0 <= k < |rest| ==> s[0] <= rest[k]
  {
    forall k | 0 <= k < |rest|
      ensures s[0] <= rest[k]
    {
      assert rest[k] in multiset(rest);
      if rest[k] != x {
        assert rest[k] in s[1..];
      }
    }
  }

  /** The reference ordering: insertion sort. */
  function InsertionSort(s: seq<int>): (r: seq<int>)
    ensures Ascending(r)
    ensures multiset(r) == multiset(s)
  {
    if s == [] then
      []
    else
      assert s == [s[0]] + s[1..];
      Insert(s[0], InsertionSort(s[1..]))
  }

  /** There is only one ascending arrangement of a multiset of numbers, so
      every correct sort of the same values gives the same sequence. */
  lemma {:induction false} AscendingPermutationUnique(a: seq<int>, b: seq<int>)
    requires Ascending(a) && Ascending(b)
    requires multiset(a) == multiset(b)
    ensures a == b
    decreases |a|
  {
    assert |a| == |multiset(a)| == |multiset(b)| == |b|;
    if a != [] {
      SameMinimum(a, b);
      AscendingTail(a);
      AscendingTail(b);
      AscendingPermutationUnique(a[1..], b[1..]);
      assert a == [a[0]] + a[1..] && b == [b[0]] + b[1..];
    }
  }

  /** Dropping the first element keeps a sequence ascending and removes one
      occurrence of that element from its multiset. */
  lemma AscendingTail(a: seq<int>)
    requires Ascending(a) && |a| > 0
    ensures Ascending(a[1..])
    ensures multiset(a[1..]) == multiset(a) - multiset{a[0]}
  {
    assert a == [a[0]] + a[1..];
  }

  /** Two ascending arrangements of the same values start with the same,
      smallest, value. */
  lemma SameMinimum(a: seq<int>, b: seq<int>)
    requires Ascending(a) && Ascending(b)
    requires multiset(a) == multiset(b)
    requires |a| > 0 && |b| > 0
    ensures a[0] == b[0]
  {
    assert a[0] in multiset(b) && b[0] in multiset(a);
    var k :| 0 <= k < |b| && b[k] == a[0];
    var m :| 0 <= m < |a| && a[m] == b[0];
    assert b[0] <= b[k] && a[0] <= a[m];
  }

  /** Distinctness is a property of the multiset: no value is counted twice. */
  lemma {:induction false} DistinctIffSingleCounts(s: seq<int>)
    ensures Distinct(s) <==> forall x :: multiset(s)[x] <= 1
  {
    if s != [] {
      var init := s[..|s| - 1];
      var last := s[|s| - 1];
      DistinctIffSingleCounts(init);
      assert s == init + [last];
      assert multiset(s) == multiset(init) + multiset{last};
      if Distinct(s) {
        assert Distinct(init);
        assert last !in init;
      } else {
        var i, j :| 0 <= i < j < |s| && s[i] == s[j];
        if j < |s| - 1 {
          assert init[i] == init[j];
          assert !Distinct(init);
          var x :| multiset(init)[x] > 1;
          assert multiset(s)[x] > 1;
        } else {
          assert last in init;
          assert multiset(s)[last] >= 2;
        }
      }
    }
  }

  /** Rearranging values keeps them distinct. */
  lemma PermutationKeepsDistinct(a: seq<int>, b: seq<int>)
    requires multiset(a) == multiset(b)
    requires Distinct(a)
    ensures Distinct(b)
  {
    DistinctIffSingleCounts(a);
    DistinctIffSingleCounts(b);
  }

  /** With no value repeated, ascending order is strict. */
  lemma DistinctAscendingIsStrict(s: seq<int>)
    requires Ascending(s) && Distinct(s)
    ensures StrictlyAscending(s)
  {
  }

  /** Exchanging two neighbours at or after index i leaves s[..i] as it was
      and s[i..] holding the same values. */
  lemma SwapNeighbours(s: seq<int>, i: int, j: int)
    requires 0 <= i < j < |s|
    ensures s[j := s[j - 1]][j - 1 := s[j]][..i] == s[..i]
    ensures multiset(s[j := s[j - 1]][j - 1 := s[j]][i..]) == multiset(s[i..])
  {
    var u := s[j := s[j - 1]][j - 1 := s[j]];
    assert u[i..] == s[i..][j - i := s[j - 1]][j - 1 - i := s[j]];
  }

  /** One pass of the inner loop, j running down from the last index to i + 1:
      each out-of-order neighbour pair is swapped, which carries the smallest
      value of s[i..] down to index i and leaves s[..i] alone. */
  method BubblePass(s: seq<int>, i: int) returns (t: seq<int>)
    requires 0 <= i < |s|
    ensures |t| == |s|
    ensures t[..i] == s[..i]
    ensures multiset(t[i..]) == multiset(s[i..])
    ensures forall k :: i <= k < |t| ==> t[i] <= t[k]
  {
    t := s;
    var j := |s| - 1;
    while j > i
      invariant i <= j < |t| == |s|
      invariant t[..i] == s[..i]
      invariant multiset(t[i..]) == multiset(s[i..])
      invariant forall k :: j <= k < |t| ==> t[j] <= t[k]
    {
      if t[j] < t[j - 1] {
        SwapNeighbours(t, i, j);
        t := t[j := t[j - 1]][j - 1 := t[j]];
      }
      assert forall k :: j - 1 <= k < |t| ==> t[j - 1] <= t[k];
      j := j - 1;
    }
  }

  /** The first i elements are in order. */
  predicate SortedPrefix(s: seq<int>, i: int)
  {
    forall a, b :: 0 <= a < b < i && b < |s| ==> s[a] <= s[b]
  }

  /** No element before index i exceeds an element from index i on. */
  predicate Partitioned(s: seq<int>, i: int)
  {
    forall a, b :: 0 <= a < i <= b < |s| ==> s[a] <= s[b]
  }

  /** A pass that brings the minimum of s[i..] to index i and only rearranges
      s[i..] extends the ordered, partitioned prefix by one element. */
  lemma PassExtendsPrefix(before: seq<int>, after: seq<int>, i: int)
    requires 0 <= i < |before| == |after|
    requires SortedPrefix(before, i) && Partitioned(before, i)
    requires after[..i] == before[..i]
    requires multiset(after[i..]) == multiset(before[i..])
    requires forall k :: i <= k < |after| ==> after[i] <= after[k]
    ensures SortedPrefix(after, i + 1) && Partitioned(after, i + 1)
    ensures multiset(after) == multiset(before)
  {
    assert before == before[..i] + before[i..] && after == after[..i] + after[i..];
    forall a, b | 0 <= a < i <= b < |after|
      ensures after[a] <= after[b]
    {
      assert after[a] == after[..i][a] == before[..i][a] == before[a];
      assert after[b] in multiset(before[i..]) by {
        assert after[b] == after[i..][b - i];
      }
      var k :| 0 <= k < |before[i..]| && before[i..][k] == after[b];
      assert before[a] <= before[i + k];
    }
  }

  /** `sortNumbers`' bubble sort: length - 1 passes, pass i settling the
      i-th smallest value at index i. */
  method BubbleSort(values: seq<int>) returns (sorted: seq<int>)
    ensures Ascending(sorted)
    ensures multiset(sorted) == multiset(values)
    ensures sorted == InsertionSort(values)
  {
    sorted := values;
    var maxPasses := |sorted| - 1;
    var i := 0;
    while i < maxPasses
      invariant |sorted| == |values| && multiset(sorted) == multiset(values)
      invariant 0 <= i <= |sorted| && (maxPasses >= 0 ==> i <= maxPasses)
      invariant SortedPrefix(sorted, i) && Partitioned(sorted, i)
    {
      var before := sorted;
      sorted := BubblePass(sorted, i);
      PassExtendsPrefix(before, sorted, i);
      i := i + 1;
    }
    assert Ascending(sorted) by {
      if |sorted| > 0 {
        assert i == |sorted| - 1;
      }
    }
    AscendingPermutationUnique(sorted, InsertionSort(values));
  }

  /** The worked example of a draw 5, 23, 1, 49, 30, 12: its ascending
      arrangement is 1, 5, 12, 23, 30, 49. */
  lemma ScenarioOrder()
    ensures Ascending([1, 5, 12, 23, 30, 49])
    ensures multiset([5, 23, 1, 49, 30, 12]) == multiset([1, 5, 12, 23, 30, 49])
  {
    ScenarioAscending();
    var drawn := [5, 23, 1, 49, 30, 12];
    var ordered := [1, 5, 12, 23, 30, 49];
    assert Distinct(drawn);
    assert Distinct(ordered);
    SameDistinctValues(drawn, ordered);
  }

  /** Two sequences without repeats that hold the same values are
      rearrangements of each other. */
  lemma SameDistinctValues(a: seq<int>, b: seq<int>)
    requires Distinct(a) && Distinct(b)
    requires forall x :: x in a <==> x in b
    ensures multiset(a) == multiset(b)
  {
    DistinctIffSingleCounts(a);
    DistinctIffSingleCounts(b);
    forall x
      ensures multiset(a)[x] == multiset(b)[x]
    {
      if x in a {
        assert x in multiset(a) && x in multiset(b);
      } else {
        assert x !in multiset(a) && x !in multiset(b);
      }
    }
  }

  lemma ScenarioAscending()
    ensures Ascending([1, 5, 12, 23, 30, 49])
  {
  }
}
