/** Error kinds, result wrappers, the roll table and sequence helpers shared by the model. */
module Common {

  /** The exception classes the source raises; each failing operation names which one. */
  datatype Error = TypeError | ValueError | IndexError

  /** A value, or the exception raised instead of producing it. */
  datatype Result<T> = Success(value: T) | Failure(error: Error)

  /** The outcome of an operation that returns nothing but may raise. */
  datatype Outcome = Pass | Fail(error: Error)

  /** A roll table: one row per roll, one column per die. */
  type Table = seq<seq<int>>

  /** Every row of `t` has exactly `k` columns. */
  predicate Rectangular(t: Table, k: nat) {
    forall i :: 0 <= i < |t| ==> |t[i]| == k
  }

  /** No value occurs twice in `s`. */
  predicate Distinct<T(==)>(s: seq<T>) {
    forall i, j :: 0 <= i < j < |s| ==> s[i] != s[j]
  }

  /** The set of values occurring in `s` (Python's `set(s)`). */
  function Elements<T(==)>(s: seq<T>): set<T> {
    set x | x in s
  }

  /** `len(set(s)) == len(s)` is exactly pairwise distinctness. */
  lemma {:induction false} ElementsCard<T>(s: seq<T>)
    ensures |Elements(s)| <= |s|
    ensures |Elements(s)| == |s| <==> Distinct(s)
  {
    if s != [] {
      var t := s[1..];
      ElementsCard(t);
      assert Elements(s) == {s[0]} + Elements(t);
      if s[0] in t {
        assert Elements(s) == Elements(t);
        var j :| 0 <= j < |t| && t[j] == s[0];
        assert s[0] == s[j + 1];
      } else {
        assert |Elements(s)| == |Elements(t)| + 1;
        if Distinct(t) {
          forall i, j | 0 <= i < j < |s|
            ensures s[i] != s[j]
          {
            assert s[j] == t[j - 1];
            if i > 0 {
              assert s[i] == t[i - 1];
            }
          }
        }
        if Distinct(s) {
          forall i, j | 0 <= i < j < |t|
            ensures t[i] != t[j]
          {
            assert t[i] == s[i + 1] && t[j] == s[j + 1];
          }
        }
      }
    }
  }

  /** Number of occurrences of `x` in `s`. */
  function Count<T(==)>(s: seq<T>, x: T): (r: nat)
    ensures r == multiset(s)[x]
  {
    if s == [] then 0
    else
      assert s == s[..|s| - 1] + [s[|s| - 1]];
      Count(s[..|s| - 1], x) + (if s[|s| - 1] == x then 1 else 0)
  }

  /** Sum of a sequence of counts. */
  function Sum(s: seq<nat>): nat {
    if s == [] then 0 else s[0] + Sum(s[1..])
  }
}
