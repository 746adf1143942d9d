/** Python's `sorted` on a row of faces, and the facts the analyzer needs about it. */
module Sorting {

  predicate Sorted(s: seq<int>) {
    forall i, j :: 0 <= i < j < |s| ==> s[i] <= s[j]
  }

  predicate StrictlySorted(s: seq<int>) {
    forall i, j :: 0 <= i < j < |s| ==> s[i] < s[j]
  }

  /** Prepending a lower bound keeps a sequence sorted. */
  lemma SortedCons(h: int, t: seq<int>)
    requires Sorted(t)
    requires forall y :: y in t ==> h <= y
    ensures Sorted([h] + t)
  {
    forall i, j | 0 <= i < j < |[h] + t|
      ensures ([h] + t)[i] <= ([h] + t)[j]
    {
      assert ([h] + t)[j] == t[j - 1] && t[j - 1] in t;
      if i > 0 {
        assert ([h] + t)[i] == t[i - 1];
      }
    }
  }

  /** Prepending a strict lower bound keeps a sequence strictly sorted. */
  lemma StrictlySortedCons(h: int, t: seq<int>)
    requires StrictlySorted(t)
    requires forall y :: y in t ==> h < y
    ensures StrictlySorted([h] + t)
  {
    forall i, j | 0 <= i < j < |[h] + t|
      ensures ([h] + t)[i] < ([h] + t)[j]
    {
      assert ([h] + t)[j] == t[j - 1] && t[j - 1] in t;
      if i > 0 {
        assert ([h] + t)[i] == t[i - 1];
      }
    }
  }

  /** Inserts `x` into the sorted sequence `s`. */
  function Insert(x: int, s: seq<int>): (r: seq<int>)
    requires Sorted(s)
    ensures Sorted(r)
    ensures multiset(r) == multiset(s) + multiset{x}
  {
    if s == [] || x <= s[0] then
      SortedCons(x, s);
      [x] + s
    else
      assert s == [s[0]] + s[1..];
      var rest := Insert(x, s[1..]);
      InsertBound(x, s, rest);
      SortedCons(s[0], rest);
      [s[0]] + rest
  }

  lemma InsertBound(x: int, s: seq<int>, rest: seq<int>)
    requires Sorted(s) && s != [] && s[0] < x
    requires multiset(rest) == multiset(s[1..]) + multiset{x}
    ensures forall y :: y in rest ==> s[0] <= y
  {
    forall y | y in rest
      ensures s[0] <= y
    {
      assert y in multiset(rest);
      if y != x {
        assert y in s[1..];
      }
    }
  }

  /** The ascending rearrangement of `s`. */
  function Sort(s: seq<int>): (r: seq<int>)
    ensures Sorted(r)
    ensures multiset(r) == multiset(s)
  {
    if s == [] then []
    else
      assert s == [s[0]] + s[1..];
      Insert(s[0], Sort(s[1..]))
  }

  /** Two sorted sequences holding the same multiset of values are equal. */
  lemma {:induction false} SortedUnique(a: seq<int>, b: seq<int>)
    requires Sorted(a) && Sorted(b)
    requires multiset(a) == multiset(b)
    ensures a == b
  {
    assert |a| == |multiset(a)| == |multiset(b)| == |b|;
    if a != [] {
      assert a[0] in multiset(b) && b[0] in multiset(a);
      assert a[0] in b && b[0] in a;
      assert a[0] == b[0];
      assert a == [a[0]] + a[1..] && b == [b[0]] + b[1..];
      assert multiset(a) == multiset{a[0]} + multiset(a[1..]);
      assert multiset(b) == multiset{b[0]} + multiset(b[1..]);
      assert multiset(a[1..]) == multiset(a) - multiset{a[0]};
      assert multiset(a[1..]) == multiset(b[1..]);
      SortedUnique(a[1..], b[1..]);
    }
  }

  /** Two rows get the same sorted tuple exactly when one is a rearrangement of the other. */
  lemma SortIffPermutation(a: seq<int>, b: seq<int>)
    ensures Sort(a) == Sort(b) <==> multiset(a) == multiset(b)
  {
    if multiset(a) == multiset(b) {
      SortedUnique(Sort(a), Sort(b));
    }
  }

  /** Drops repeated values from a sorted sequence. */
  function Dedup(s: seq<int>): (r: seq<int>)
    requires Sorted(s)
    ensures StrictlySorted(r)
    ensures forall x :: x in r <==> x in s
  {
    if |s| <= 1 then s
    else if s[0] == s[1] then
      assert s == [s[0]] + s[1..];
      Dedup(s[1..])
    else
      assert s == [s[0]] + s[1..];
      var rest := Dedup(s[1..]);
      assert forall y :: y in rest ==> s[0] < y by {
        forall y | y in rest
          ensures s[0] < y
        {
          assert y in s[1..];
          var k :| 0 <= k < |s| - 1 && s[1..][k] == y;
          assert s[k + 1] == y;
        }
      }
      StrictlySortedCons(s[0], rest);
      [s[0]] + rest
  }
}
