/** The `Statistics` class: it sorts the caller's list in place, keeps a reference to
    that same list, and answers count, min, max, sum, range and the median of an
    odd-length list from it. Python integers are unbounded, like Dafny's. */
module Statistics {
  import opened PyJson

  /** Ascending order. */
  ghost predicate Sorted(s: seq<int>) {
    forall i, j :: 0 <= i < j < |s| ==> s[i] <= s[j]
  }

  /** Python's `sum` over a list of integers. */
  function SeqSum(s: seq<int>): int
    decreases |s|
  {
    if s == [] then 0 else s[0] + SeqSum(s[1..])
  }

  /** The sum of a list with one element taken out is the sum without it. */
  lemma {:induction false} SeqSumRemove(s: seq<int>, k: nat)
    requires k < |s|
    ensures SeqSum(s) == s[k] + SeqSum(s[..k] + s[k + 1..])
    decreases |s|
  {
    if k > 0 {
      SeqSumRemove(s[1..], k - 1);
      assert s[1..][..k - 1] + s[1..][k..] == s[1..k] + s[k + 1..];
      assert s[..k] + s[k + 1..] == [s[0]] + (s[1..k] + s[k + 1..]);
    } else {
      assert s[..k] + s[k + 1..] == s[1..];
    }
  }

  /** The sum does not depend on the order: a permutation has the same sum, so
      sorting leaves `sum()` as the caller's list had it. */
  lemma {:induction false} SumPermutation(a: seq<int>, b: seq<int>)
    requires multiset(a) == multiset(b)
    ensures SeqSum(a) == SeqSum(b)
    decreases |a|
  {
    if a != [] {
      assert a[0] in multiset(b);
      var k :| 0 <= k < |b| && b[k] == a[0];
      var rest := b[..k] + b[k + 1..];
      assert b == b[..k] + [b[k]] + b[k + 1..];
      assert multiset(b) == multiset{a[0]} + multiset(rest);
      assert a == [a[0]] + a[1..];
      assert multiset(a) == multiset{a[0]} + multiset(a[1..]);
      MultisetCancel(multiset(a[1..]), multiset(rest), a[0]);
      SumPermutation(a[1..], rest);
      SeqSumRemove(b, k);
    }
  }

  /** `list.sort()` on integers, in place: insertion by adjacent swaps. */
  method Sort(a: array<int>)
    modifies a
    ensures Sorted(a[..])
    ensures multiset(a[..]) == multiset(old(a[..]))
  {
    var i := 0;
    while i < a.Length
      invariant 0 <= i <= a.Length
      invariant forall k, l :: 0 <= k < l < i ==> a[k] <= a[l]
      invariant multiset(a[..]) == multiset(old(a[..]))
    {
      var j := i;
      while j > 0 && a[j - 1] > a[j]
        invariant 0 <= j <= i
        invariant forall k, l :: 0 <= k < l <= i && l != j ==> a[k] <= a[l]
        invariant multiset(a[..]) == multiset(old(a[..]))
      {
        a[j - 1], a[j] := a[j], a[j - 1];
        j := j - 1;
      }
      i := i + 1;
    }
  }

  class Statistics {
    /** The caller's list itself, not a copy. */
    var data: array<int>

    /** `Statistics(data)`: keeps the caller's list and sorts it in place, so the
        caller sees it sorted too. */
    constructor (data: array<int>)
      modifies data
      ensures this.data == data
      ensures Sorted(data[..]) && multiset(data[..]) == multiset(old(data[..]))
    {
      this.data := data;
      new;
      Sort(data);
    }

    /** `count()`: the number of data points. */
    function Count(): (r: nat)
      reads this
      ensures r == |data[..]|
    {
      data.Length
    }

    /** `min()`: the first element, or None where Python raises IndexError on an
        empty list. While the list is sorted it is the smallest element. */
    function Min(): (r: Option<int>)
      reads this, data
      ensures r.None? <==> data.Length == 0
      ensures r.Some? ==> r.value in data[..]
      ensures r.Some? && Sorted(data[..]) ==> forall i :: 0 <= i < data.Length ==> r.value <= data[i]
    {
      if data.Length == 0 then None else Some(data[0])
    }

    /** `max()`: the last element, or None where Python raises IndexError on an
        empty list. While the list is sorted it is the largest element. */
    function Max(): (r: Option<int>)
      reads this, data
      ensures r.None? <==> data.Length == 0
      ensures r.Some? ==> r.value in data[..]
      ensures r.Some? && Sorted(data[..]) ==> forall i :: 0 <= i < data.Length ==> data[i] <= r.value
    {
      if data.Length == 0 then None else Some(data[data.Length - 1])
    }

    /** `sum()`: the sum of all data points, whatever their order; in particular the
        sum of the list as the caller gave it. */
    function Sum(): (r: int)
      reads this, data
      ensures data.Length == 0 ==> r == 0
      ensures forall s :: multiset(s) == multiset(data[..]) ==> r == SeqSum(s)
    {
      SumOrderFree(data[..]);
      SeqSum(data[..])
    }

    /** `range()`: max minus min, never negative while the list is sorted; None where
        Python raises on an empty list. */
    function Range(): (r: Option<int>)
      reads this, data
      ensures r.None? <==> data.Length == 0
      ensures r.Some? ==> r.value == Max().value - Min().value
      ensures r.Some? && Sorted(data[..]) ==> r.value >= 0
    {
      if data.Length == 0 then None else Some(Max().value - Min().value)
    }

    /** The value `median()` prints for an odd count: the middle element, which has
        as many elements at or below it as at or above it while the list is sorted. */
    function MedianOdd(): (r: int)
      reads this, data
      requires data.Length % 2 == 1
      ensures r == data[data.Length / 2]
      ensures Sorted(data[..]) ==>
        (forall i :: 0 <= i < data.Length / 2 ==> data[i] <= r) &&
        (forall i :: data.Length / 2 < i < data.Length ==> r <= data[i])
    {
      data[data.Length / 2]
    }
  }

  /** Every permutation of a list has its sum. */
  lemma SumOrderFree(s: seq<int>)
    ensures forall t :: multiset(t) == multiset(s) ==> SeqSum(s) == SeqSum(t)
  {
    forall t | multiset(t) == multiset(s) ensures SeqSum(s) == SeqSum(t) {
      SumPermutation(s, t);
    }
  }
}
