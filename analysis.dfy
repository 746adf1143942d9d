/** Statistics over the table of a game's most recent play. Everything here only reads. */
module Analysis {
  import opened Common
  import opened Sorting
  import opened Games

  /** pandas' `DataFrame.empty`: the table has no cells (no rows, or no columns). */
  predicate IsEmpty(t: Table) {
    forall i :: 0 <= i < |t| ==> |t[i]| == 0
  }

  /** Some cell of the table holds `x`. */
  predicate Observed(t: Table, x: int) {
    exists i :: 0 <= i < |t| && x in t[i]
  }

  // ---------------------------------------------------------------------------------------
  // Jackpots

  /** Number of distinct values in a row (`nunique` along a row). */
  function NUnique(row: seq<int>): nat {
    |Elements(row)|
  }

  /** A jackpot row holds exactly one distinct value. */
  predicate IsJackpotRow(row: seq<int>) {
    NUnique(row) == 1
  }

  /** "Exactly one distinct value" means a non-empty row whose faces are all the same. */
  lemma JackpotRowIff(row: seq<int>)
    ensures IsJackpotRow(row) <==> |row| > 0 && forall i :: 0 <= i < |row| ==> row[i] == row[0]
  {
    if |row| > 0 && forall i :: 0 <= i < |row| ==> row[i] == row[0] {
      assert Elements(row) == {row[0]};
    }
    if IsJackpotRow(row) {
      var x :| x in Elements(row);
      assert |Elements(row) - {x}| == 0;
      assert Elements(row) == {x};
      forall i | 0 <= i < |row|
        ensures row[i] == row[0]
      {
        assert row[i] in Elements(row) && row[0] in Elements(row);
      }
    }
  }

  /** Number of jackpot rows, counted row by row. */
  function CountJackpotRows(t: Table): (r: nat)
    ensures r <= |t|
  {
    if t == [] then 0
    else CountJackpotRows(t[..|t| - 1]) + (if IsJackpotRow(t[|t| - 1]) then 1 else 0)
  }

  /** The jackpot count: 0 on an empty table, otherwise the number of single-valued rows. */
  function JackpotCount(t: Table): nat {
    if IsEmpty(t) then 0 else CountJackpotRows(t)
  }

  /** The rows that are jackpots. */
  function JackpotRows(t: Table): set<nat> {
    set i: nat | i < |t| && IsJackpotRow(t[i])
  }

  lemma {:induction false} CountJackpotRowsIsCard(t: Table)
    ensures CountJackpotRows(t) == |JackpotRows(t)|
  {
    if t != [] {
      var n := |t|;
      var p := t[..n - 1];
      CountJackpotRowsIsCard(p);
      assert n - 1 !in JackpotRows(p);
      if IsJackpotRow(t[n - 1]) {
        assert JackpotRows(t) == JackpotRows(p) + {n - 1};
      } else {
        assert JackpotRows(t) == JackpotRows(p);
      }
    }
  }

  /** The jackpot count is the number of jackpot rows, on every table (an empty table has none). */
  lemma JackpotCountIsRowCount(t: Table)
    ensures JackpotCount(t) == |JackpotRows(t)|
    ensures JackpotCount(t) <= |t|
  {
    CountJackpotRowsIsCard(t);
    if IsEmpty(t) {
      forall i | 0 <= i < |t|
        ensures !IsJackpotRow(t[i])
      {
        assert Elements(t[i]) == {};
      }
      assert JackpotRows(t) == {};
    }
  }

  lemma {:induction false} AllJackpotRows(t: Table)
    requires forall i :: 0 <= i < |t| ==> IsJackpotRow(t[i])
    ensures CountJackpotRows(t) == |t|
  {
    if t != [] {
      AllJackpotRows(t[..|t| - 1]);
    }
  }

  /** With a single die every roll is a jackpot. */
  lemma SingleColumnJackpots(t: Table)
    requires Rectangular(t, 1)
    ensures JackpotCount(t) == |t|
  {
    forall i | 0 <= i < |t|
      ensures IsJackpotRow(t[i])
    {
      JackpotRowIff(t[i]);
    }
    AllJackpotRows(t);
  }

  /** Overwriting one row with a jackpot row adds one jackpot, unless that row already was one. */
  lemma ForcedJackpot(t: Table, i: nat, row: seq<int>)
    requires i < |t| && IsJackpotRow(row)
    ensures JackpotCount(t[i := row]) == JackpotCount(t) + if IsJackpotRow(t[i]) then 0 else 1
  {
    var u := t[i := row];
    JackpotCountIsRowCount(t);
    JackpotCountIsRowCount(u);
    if IsJackpotRow(t[i]) {
      assert JackpotRows(u) == JackpotRows(t);
    } else {
      assert JackpotRows(u) == JackpotRows(t) + {i};
    }
  }

  // ---------------------------------------------------------------------------------------
  // Face counts

  /** The table's cells, row after row. */
  function Flatten(t: Table): (r: seq<int>)
    ensures forall x :: x in r <==> Observed(t, x)
  {
    if t == [] then []
    else
      var rest := Flatten(t[1..]);
      assert forall x :: Observed(t, x) <==> x in t[0] || Observed(t[1..], x) by {
        forall x | Observed(t, x)
          ensures x in t[0] || Observed(t[1..], x)
        {
          var i :| 0 <= i < |t| && x in t[i];
          if i > 0 {
            assert t[1..][i - 1] == t[i];
          }
        }
        forall x | Observed(t[1..], x)
          ensures Observed(t, x)
        {
          var i :| 0 <= i < |t| - 1 && x in t[1..][i];
          assert t[i + 1] == t[1..][i];
        }
      }
      t[0] + rest
  }

  /** The face-count columns: every value observed anywhere in the table, ascending. */
  function ObservedFaces(t: Table): (r: seq<int>)
    ensures StrictlySorted(r)
    ensures forall x :: x in r <==> Observed(t, x)
  {
    var s := Sort(Flatten(t));
    assert forall x :: x in s <==> x in Flatten(t) by {
      forall x
        ensures x in s <==> x in Flatten(t)
      {
        assert x in s <==> x in multiset(s);
      }
    }
    Dedup(s)
  }

  /** How often each of `faces` occurs in `row`. */
  function RowCounts(row: seq<int>, faces: seq<int>): seq<nat> {
    seq(|faces|, j requires 0 <= j < |faces| => Count(row, faces[j]))
  }

  /** The face-count table: its columns are the observed faces, one row of counts per roll. */
  datatype FaceCountTable = FaceCountTable(faces: seq<int>, counts: seq<seq<nat>>)

  function FaceCountsOf(t: Table): (r: FaceCountTable)
    ensures IsEmpty(t) ==> r.faces == [] && r.counts == []
    ensures !IsEmpty(t) ==> forall x :: x in r.faces <==> Observed(t, x)
    ensures StrictlySorted(r.faces)
    ensures !IsEmpty(t) ==> |r.counts| == |t|
    ensures forall i :: 0 <= i < |r.counts| ==> |r.counts[i]| == |r.faces|
    ensures forall i, j :: 0 <= i < |r.counts| && 0 <= j < |r.faces| ==> r.counts[i][j] == multiset(t[i])[r.faces[j]]
  {
    if IsEmpty(t) then FaceCountTable([], [])
    else
      var faces := ObservedFaces(t);
      FaceCountTable(faces, seq(|t|, i requires 0 <= i < |t| => RowCounts(t[i], faces)))
  }

  /** `s` with every occurrence of `f` removed. */
  function RemoveAll(s: seq<int>, f: int): (r: seq<int>)
    ensures |r| == |s| - multiset(s)[f]
    ensures forall g :: multiset(r)[g] == if g == f then 0 else multiset(s)[g]
  {
    if s == [] then []
    else
      assert s == s[..|s| - 1] + [s[|s| - 1]];
      RemoveAll(s[..|s| - 1], f) + if s[|s| - 1] == f then [] else [s[|s| - 1]]
  }

  /** The tail of a list of distinct faces is distinct and misses the head. */
  lemma DistinctTail(faces: seq<int>)
    requires Distinct(faces) && faces != []
    ensures Distinct(faces[1..]) && faces[0] !in faces[1..]
  {
    var rest := faces[1..];
    forall i, j | 0 <= i < j < |rest|
      ensures rest[i] != rest[j]
    {
      assert rest[i] == faces[i + 1] && rest[j] == faces[j + 1];
    }
    forall i | 0 <= i < |rest|
      ensures rest[i] != faces[0]
    {
      assert rest[i] == faces[i + 1];
    }
  }

  /** Once the head face is removed from a row, the remaining faces cover what is left. */
  lemma RemovedCovered(row: seq<int>, faces: seq<int>)
    requires faces != []
    requires forall x :: x in row ==> x in faces
    ensures forall x :: x in RemoveAll(row, faces[0]) ==> x in faces[1..]
  {
    forall x | x in RemoveAll(row, faces[0])
      ensures x in faces[1..]
    {
      assert x in multiset(RemoveAll(row, faces[0]));
      assert x != faces[0] && x in multiset(row);
      assert x in row && x in faces;
      var i :| 0 <= i < |faces| && faces[i] == x;
      assert faces[1..][i - 1] == x;
    }
  }

  /** Counting against `f :: rest` is counting `f`, then counting the rest of the row. */
  lemma RowCountsCons(row: seq<int>, faces: seq<int>)
    requires faces != [] && faces[0] !in faces[1..]
    ensures RowCounts(row, faces) == [Count(row, faces[0])] + RowCounts(RemoveAll(row, faces[0]), faces[1..])
  {
    var rest := faces[1..];
    forall j | 0 <= j < |rest|
      ensures Count(row, rest[j]) == Count(RemoveAll(row, faces[0]), rest[j])
    {
      assert rest[j] in rest;
    }
  }

  /** Counting every face of a row against a list of distinct faces that covers it adds up to
      the row's length. */
  lemma {:induction false} RowCountsSum(row: seq<int>, faces: seq<int>)
    requires Distinct(faces)
    requires forall x :: x in row ==> x in faces
    ensures Sum(RowCounts(row, faces)) == |row|
    decreases |faces|
  {
    if row != [] {
      assert row[0] in row;
    }
    if faces != [] {
      var others := RemoveAll(row, faces[0]);
      DistinctTail(faces);
      RemovedCovered(row, faces);
      RowCountsSum(others, faces[1..]);
      RowCountsCons(row, faces);
      var counts := RowCounts(row, faces);
      assert counts[0] == multiset(row)[faces[0]];
      assert counts[1..] == RowCounts(others, faces[1..]);
      assert Sum(counts) == counts[0] + Sum(counts[1..]);
      assert |others| == |row| - multiset(row)[faces[0]];
    } else {
      assert forall x :: x !in row;
      assert |row| == 0;
      assert RowCounts(row, faces) == [];
    }
  }

  /** Each row of the face-count table adds up to the number of dice in that roll. */
  lemma FaceCountRowSums(t: Table)
    ensures forall i :: 0 <= i < |FaceCountsOf(t).counts| ==> Sum(FaceCountsOf(t).counts[i]) == |t[i]|
  {
    var r := FaceCountsOf(t);
    if !IsEmpty(t) {
      assert Distinct(r.faces);
      forall i | 0 <= i < |r.counts|
        ensures Sum(r.counts[i]) == |t[i]|
      {
        forall x | x in t[i]
          ensures x in r.faces
        {
          assert Observed(t, x);
        }
        RowCountsSum(t[i], r.faces);
        assert r.counts[i] == RowCounts(t[i], r.faces);
      }
    }
  }

  /** When every cell is one of `faces`, there are no more face-count columns than faces. */
  lemma FaceColumnsBound(t: Table, faces: seq<int>)
    requires forall i, j :: 0 <= i < |t| && 0 <= j < |t[i]| ==> t[i][j] in faces
    ensures |FaceCountsOf(t).faces| <= |faces|
  {
    var cols := FaceCountsOf(t).faces;
    assert Distinct(cols);
    ElementsCard(cols);
    ElementsCard(faces);
    forall x | x in Elements(cols)
      ensures x in Elements(faces)
    {
      var i :| 0 <= i < |t| && x in t[i];
      var j :| 0 <= j < |t[i]| && t[i][j] == x;
    }
    SubsetCard(Elements(cols), Elements(faces));
  }

  lemma SubsetCard<T>(a: set<T>, b: set<T>)
    requires a <= b
    ensures |a| <= |b|
  {
    assert b == a + (b - a);
  }

  // ---------------------------------------------------------------------------------------
  // Combination and permutation counts

  /** How many times each key occurs (`value_counts`); the order of the result is not modelled. */
  function CountBy<K(==)>(keys: seq<K>): (m: map<K, nat>)
    ensures m.Keys == Elements(keys)
    ensures forall k :: k in m ==> m[k] == multiset(keys)[k] > 0
  {
    if keys == [] then map[]
    else
      var m := CountBy(keys[..|keys| - 1]);
      var k := keys[|keys| - 1];
      assert keys == keys[..|keys| - 1] + [k];
      m[k := (if k in m then m[k] else 0) + 1]
  }

  /** Sum of all counts of a map. */
  ghost function SumCounts<K>(m: map<K, nat>): nat
    decreases |m|
  {
    if m == map[] then 0
    else
      var k :| k in m;
      m[k] + SumCounts(m - {k})
  }

  lemma {:induction false} SumCountsRemove<K>(m: map<K, nat>, k: K)
    requires k in m
    ensures SumCounts(m) == m[k] + SumCounts(m - {k})
    decreases |m|
  {
    var j :| j in m && SumCounts(m) == m[j] + SumCounts(m - {j});
    if j != k {
      assert (m - {j}) - {k} == (m - {k}) - {j};
      SumCountsRemove(m - {j}, k);
      SumCountsRemove(m - {k}, j);
    }
  }

  /** The counts of `value_counts` add up to the number of keys counted. */
  lemma {:induction false} CountBySum<K>(keys: seq<K>)
    ensures SumCounts(CountBy(keys)) == |keys|
  {
    if keys != [] {
      var p := keys[..|keys| - 1];
      var k := keys[|keys| - 1];
      var m := CountBy(p);
      CountBySum(p);
      var m' := CountBy(keys);
      SumCountsRemove(m', k);
      assert m' - {k} == m - {k};
      if k in m {
        SumCountsRemove(m, k);
      } else {
        assert m - {k} == m;
      }
    }
  }

  /** Every row rearranged into ascending order (the combination of each roll). */
  function SortRows(t: Table): (s: Table)
    ensures |s| == |t|
  {
    seq(|t|, i requires 0 <= i < |t| => Sort(t[i]))
  }

  /** Permutation counts: rows grouped by their exact tuple of faces. */
  function PermutationCountsOf(t: Table): (r: map<seq<int>, nat>)
    ensures IsEmpty(t) ==> r == map[]
    ensures !IsEmpty(t) ==> forall row :: row in r <==> row in t
    ensures forall row :: row in r ==> r[row] == multiset(t)[row] > 0
  {
    if IsEmpty(t) then map[] else CountBy(t)
  }

  /** Combination counts: rows grouped by their faces in ascending order. */
  function ComboCountsOf(t: Table): (r: map<seq<int>, nat>)
    ensures IsEmpty(t) ==> r == map[]
    ensures forall c :: c in r ==> Sorted(c) && r[c] > 0 && exists i :: 0 <= i < |t| && multiset(c) == multiset(t[i])
    ensures !IsEmpty(t) ==> forall i :: 0 <= i < |t| ==> Sort(t[i]) in r
  {
    if IsEmpty(t) then map[]
    else
      CombinationKeys(t);
      CountBy(SortRows(t))
  }

  /** The keys of the grouped sorted rows are sorted rearrangements of rows, each counted at
      least once, and every row's sorted form is among them. */
  lemma CombinationKeys(t: Table)
    ensures forall c :: c in CountBy(SortRows(t)) ==>
              Sorted(c) && CountBy(SortRows(t))[c] > 0 && exists i :: 0 <= i < |t| && multiset(c) == multiset(t[i])
    ensures forall i :: 0 <= i < |t| ==> Sort(t[i]) in CountBy(SortRows(t))
  {
    SortRowsKeys(t);
  }

  /** The sorted rows are sorted rearrangements of rows, and every row's sorted form is one. */
  lemma SortRowsKeys(t: Table)
    ensures forall c :: c in Elements(SortRows(t)) ==>
              Sorted(c) && exists i :: 0 <= i < |t| && multiset(c) == multiset(t[i])
    ensures forall i :: 0 <= i < |t| ==> Sort(t[i]) in Elements(SortRows(t))
  {
    var s := SortRows(t);
    forall c | c in Elements(s)
      ensures Sorted(c) && exists i :: 0 <= i < |t| && multiset(c) == multiset(t[i])
    {
      var i :| 0 <= i < |s| && s[i] == c;
      assert c == Sort(t[i]);
    }
    forall i | 0 <= i < |t|
      ensures Sort(t[i]) in Elements(s)
    {
      assert s[i] == Sort(t[i]);
    }
  }

  /** Number of rows that are rearrangements of `c`. */
  function CountRearrangements(t: Table, c: seq<int>): nat {
    if t == [] then 0
    else CountRearrangements(t[..|t| - 1], c) + if multiset(t[|t| - 1]) == multiset(c) then 1 else 0
  }

  lemma SortRowsSnoc(t: Table)
    requires t != []
    ensures SortRows(t) == SortRows(t[..|t| - 1]) + [Sort(t[|t| - 1])]
  {
  }

  lemma Multiplicity<T>(a: seq<T>, x: T, c: T)
    ensures multiset(a + [x])[c] == multiset(a)[c] + if x == c then 1 else 0
  {
  }

  lemma {:induction false} SortedRowCount(t: Table, c: seq<int>)
    requires Sorted(c)
    ensures multiset(SortRows(t))[c] == CountRearrangements(t, c)
  {
    if t != [] {
      var n := |t|;
      var p := t[..n - 1];
      SortedRowCount(p, c);
      SortRowsSnoc(t);
      Multiplicity(SortRows(p), Sort(t[n - 1]), c);
      SortedUnique(Sort(c), c);
      SortIffPermutation(t[n - 1], c);
    }
  }

  /** A combination's count is the number of rolls whose faces are a rearrangement of it. */
  lemma ComboCountIsRearrangements(t: Table, c: seq<int>)
    requires c in ComboCountsOf(t)
    ensures ComboCountsOf(t)[c] == CountRearrangements(t, c)
  {
    SortedRowCount(t, c);
  }

  /** Both groupings account for every roll exactly once. */
  lemma CountsSumToRolls(t: Table)
    requires !IsEmpty(t)
    ensures SumCounts(PermutationCountsOf(t)) == |t|
    ensures SumCounts(ComboCountsOf(t)) == |t|
  {
    CountBySum(t);
    CountBySum(SortRows(t));
  }

  lemma ElementsSnoc<T>(a: seq<T>, x: T)
    ensures Elements(a + [x]) == Elements(a) + {x}
  {
  }

  lemma {:induction false} SortedKeysNoMore(t: Table)
    ensures |Elements(SortRows(t))| <= |Elements(t)|
  {
    if t != [] {
      var n := |t|;
      var p, last := t[..n - 1], t[n - 1];
      SortedKeysNoMore(p);
      assert t == p + [last];
      SortRowsSnoc(t);
      ElementsSnoc(p, last);
      ElementsSnoc(SortRows(p), Sort(last));
      if last in p {
        var i :| 0 <= i < |p| && p[i] == last;
        assert SortRows(p)[i] == Sort(last);
        assert Elements(SortRows(t)) == Elements(SortRows(p));
      } else {
        assert |Elements(t)| == |Elements(p)| + 1;
      }
    }
  }

  /** There are never more distinct combinations than distinct permutations. */
  lemma CombosNoMoreThanPermutations(t: Table)
    ensures |ComboCountsOf(t)| <= |PermutationCountsOf(t)|
  {
    if !IsEmpty(t) {
      SortedKeysNoMore(t);
      assert ComboCountsOf(t).Keys == Elements(SortRows(t));
      assert PermutationCountsOf(t).Keys == Elements(t);
    }
  }

  lemma {:induction false} SortedCountAtLeast(t: Table, row: seq<int>)
    ensures multiset(SortRows(t))[Sort(row)] >= multiset(t)[row]
  {
    if t != [] {
      var n := |t|;
      var p := t[..n - 1];
      SortedCountAtLeast(p, row);
      assert t == p + [t[n - 1]];
      SortRowsSnoc(t);
      Multiplicity(SortRows(p), Sort(t[n - 1]), Sort(row));
      Multiplicity(p, t[n - 1], row);
    }
  }

  /** A roll's combination occurs at least as often as its exact permutation. */
  lemma ComboCountCoversPermutation(t: Table, i: nat)
    requires i < |t| && !IsEmpty(t)
    ensures Sort(t[i]) in ComboCountsOf(t) && t[i] in PermutationCountsOf(t)
    ensures ComboCountsOf(t)[Sort(t[i])] >= PermutationCountsOf(t)[t[i]]
  {
    SortedCountAtLeast(t, t[i]);
  }

  /** What the statistics of an n-by-k table with n, k >= 1 (what `Play(n)` leaves with k dice)
      are bound to: the face counts. */
  lemma {:induction false} PlayedFaceCounts(t: Table, k: nat)
    requires Rectangular(t, k) && k > 0 && |t| > 0
    ensures !IsEmpty(t)
    ensures |FaceCountsOf(t).counts| == |t|
    ensures forall i :: 0 <= i < |t| ==> Sum(FaceCountsOf(t).counts[i]) == k
  {
    assert |t[0]| == k;
    FaceCountRowSums(t);
  }

  /** ... and the jackpot, combination and permutation counts. */
  lemma {:induction false} PlayedGroupCounts(t: Table, k: nat)
    requires Rectangular(t, k) && k > 0 && |t| > 0
    ensures JackpotCount(t) <= |t|
    ensures SumCounts(ComboCountsOf(t)) == |t| && SumCounts(PermutationCountsOf(t)) == |t|
    ensures 0 < |ComboCountsOf(t)| <= |PermutationCountsOf(t)|
  {
    assert |t[0]| == k;
    assert !IsEmpty(t);
    JackpotCountIsRowCount(t);
    CountsSumToRolls(t);
    CombosNoMoreThanPermutations(t);
    assert Sort(t[0]) in ComboCountsOf(t);
  }

  // ---------------------------------------------------------------------------------------
  // The analyzer object

  class Analyzer {
    /** The game whose current table every query reads; fixed at construction. */
    const game: Game

    constructor (game: Game)
      ensures this.game == game
    {
      this.game := game;
    }

    /** Number of rolls in which every die shows the same face. */
    function Jackpot(): (r: nat)
      reads game
      ensures r == |JackpotRows(game.table)| && r <= |game.table|
    {
      JackpotCountIsRowCount(game.table);
      JackpotCount(game.table)
    }

    /** Per roll, how often each observed face was rolled. */
    function FaceCounts(): (r: FaceCountTable)
      reads game
      ensures IsEmpty(game.table) ==> r.faces == [] && r.counts == []
      ensures |r.counts| == if IsEmpty(game.table) then 0 else |game.table|
      ensures forall x :: x in r.faces ==> Observed(game.table, x)
      ensures !IsEmpty(game.table) ==> forall x :: Observed(game.table, x) ==> x in r.faces
      ensures StrictlySorted(r.faces)
      ensures forall i :: 0 <= i < |r.counts| ==> |r.counts[i]| == |r.faces|
      ensures forall i, j :: 0 <= i < |r.counts| && i < |game.table| && 0 <= j < |r.faces| ==>
                r.counts[i][j] == multiset(game.table[i])[r.faces[j]]
      ensures forall i :: 0 <= i < |r.counts| && i < |game.table| ==> Sum(r.counts[i]) == |game.table[i]|
    {
      FaceCountRowSums(game.table);
      FaceCountsOf(game.table)
    }

    /** Distinct order-independent combinations and how often each was rolled. */
    function ComboCounts(): (r: map<seq<int>, nat>)
      reads game
      ensures IsEmpty(game.table) ==> r == map[]
      ensures forall c :: c in r ==> Sorted(c) && r[c] == CountRearrangements(game.table, c) && r[c] > 0
      ensures forall c :: c in r ==> exists i :: 0 <= i < |game.table| && multiset(c) == multiset(game.table[i])
      ensures !IsEmpty(game.table) ==> forall i :: 0 <= i < |game.table| ==> Sort(game.table[i]) in r
      ensures !IsEmpty(game.table) ==> SumCounts(r) == |game.table|
    {
      var t := game.table;
      if IsEmpty(t) then map[]
      else
        CountsSumToRolls(t);
        var m := ComboCountsOf(t);
        assert forall c :: c in m ==> m[c] == CountRearrangements(t, c) by {
          forall c | c in m
            ensures m[c] == CountRearrangements(t, c)
          {
            ComboCountIsRearrangements(t, c);
          }
        }
        m
    }

    /** Distinct order-dependent permutations and how often each was rolled. */
    function PermutationCounts(): (r: map<seq<int>, nat>)
      reads game
      ensures IsEmpty(game.table) ==> r == map[]
      ensures forall p :: p in r ==> p in game.table && r[p] == multiset(game.table)[p]
      ensures !IsEmpty(game.table) ==> forall p :: p in game.table ==> p in r
      ensures !IsEmpty(game.table) ==> SumCounts(r) == |game.table|
    {
      var t := game.table;
      if !IsEmpty(t) then
        CountsSumToRolls(t);
        PermutationCountsOf(t)
      else
        PermutationCountsOf(t)
    }
  }
}
