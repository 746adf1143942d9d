/** A game: an ordered list of dice and the table of the most recent play. */
module Games {
  import opened Common
  import opened Dice

  /** One line of the narrow view: roll number, die number and the face shown. */
  datatype Cell = Cell(roll: nat, die: nat, outcome: int)

  /** What `Show` returns: the wide table itself, or its narrow (stacked) listing. */
  datatype View = Wide(table: Table) | Narrow(cells: seq<Cell>)

  /** The cells of one row, in die order. */
  function RowCells(roll: nat, row: seq<int>): seq<Cell> {
    seq(|row|, j requires 0 <= j < |row| => Cell(roll, j, row[j]))
  }

  /** The narrow view: every cell of the table, row by row and, within a row, die by die. */
  function Stack(t: Table): seq<Cell> {
    if t == [] then [] else Stack(t[..|t| - 1]) + RowCells(|t| - 1, t[|t| - 1])
  }

  /** Line number of cell (i, j) in the narrow view of a table with k columns. */
  function Line(i: nat, j: nat, k: nat): nat {
    i * k + j
  }

  /** On an n-by-k table the narrow view has n * k lines. */
  lemma {:induction false} StackLength(t: Table, k: nat)
    requires Rectangular(t, k)
    ensures |Stack(t)| == |t| * k
  {
    if t != [] {
      StackLength(t[..|t| - 1], k);
      assert |Stack(t)| == (|t| - 1) * k + k;
    }
  }

  /** Line i * k + j of the narrow view is cell (i, j). */
  lemma {:induction false} StackAt(t: Table, k: nat, i: nat, j: nat)
    requires Rectangular(t, k)
    requires i < |t| && j < k
    ensures Line(i, j, k) < |Stack(t)|
    ensures Stack(t)[Line(i, j, k)] == Cell(i, j, t[i][j])
  {
    var n := |t|;
    var p := t[..n - 1];
    StackLength(p, k);
    assert |Stack(p)| == (n - 1) * k;
    if i < n - 1 {
      StackAt(p, k, i, j);
      assert p[i] == t[i];
    } else {
      assert Line(i, j, k) == |Stack(p)| + j;
    }
  }

  /** The narrow view lists an n-by-k table in n * k lines, row by row and die by die. */
  ghost predicate IsNarrowOf(cells: seq<Cell>, t: Table, k: nat) {
    && Rectangular(t, k)
    && |cells| == |t| * k
    && forall i, j :: 0 <= i < |t| && 0 <= j < k ==> Line(i, j, k) < |cells| && cells[Line(i, j, k)] == Cell(i, j, t[i][j])
  }

  lemma {:induction false} StackCells(t: Table, k: nat)
    requires Rectangular(t, k)
    ensures forall i, j :: 0 <= i < |t| && 0 <= j < k ==> Line(i, j, k) < |Stack(t)| && Stack(t)[Line(i, j, k)] == Cell(i, j, t[i][j])
  {
    forall i, j | 0 <= i < |t| && 0 <= j < k
      ensures Line(i, j, k) < |Stack(t)| && Stack(t)[Line(i, j, k)] == Cell(i, j, t[i][j])
    {
      StackAt(t, k, i, j);
    }
  }

  lemma {:induction false} StackIndex(t: Table, k: nat)
    requires Rectangular(t, k)
    ensures IsNarrowOf(Stack(t), t, k)
  {
    StackLength(t, k);
    StackCells(t, k);
  }

  /** Every line of the narrow view names an existing cell and the face in it. */
  lemma {:induction false} StackCellsAgree(t: Table)
    ensures forall c :: c in Stack(t) ==> c.roll < |t| && c.die < |t[c.roll]| && c.outcome == t[c.roll][c.die]
  {
    if t != [] {
      var p := t[..|t| - 1];
      StackCellsAgree(p);
      forall c | c in Stack(t)
        ensures c.roll < |t| && c.die < |t[c.roll]| && c.outcome == t[c.roll][c.die]
      {
        if c in Stack(p) {
          assert p[c.roll] == t[c.roll];
        }
      }
    }
  }

  /** Turns one column per die into one row per roll. */
  function Transpose(columns: seq<seq<int>>, n: nat): (t: Table)
    requires forall j :: 0 <= j < |columns| ==> |columns[j]| == n
    ensures |t| == n && Rectangular(t, |columns|)
    ensures forall i, j :: 0 <= i < n && 0 <= j < |columns| ==> t[i][j] == columns[j][i]
  {
    seq(n, i requires 0 <= i < n => seq(|columns|, j requires 0 <= j < |columns| => columns[j][i]))
  }

  /** `t` could be the table of a play of `dice`: one column per die, each cell a face of its
      die, and no rows at all when there are no dice. */
  predicate Shaped(t: Table, dice: seq<Die>) {
    && (|dice| == 0 ==> t == [])
    && Rectangular(t, |dice|)
    && forall i, j :: 0 <= i < |t| && 0 <= j < |dice| ==> t[i][j] in dice[j].faces
  }

  class Game {
    /** The dice, in column order; one die may sit in several slots. */
    const dice: seq<Die>
    /** The table of the most recent play; empty before the first. */
    var table: Table

    ghost predicate Valid()
      reads this
    {
      Shaped(table, dice)
    }

    /** Some die has no faces, so rolling it raises. */
    predicate HasBlankDie() {
      exists j :: 0 <= j < |dice| && dice[j].faces == []
    }

    /** Stores the dice; the table starts empty. An empty list of dice is accepted. */
    constructor (dice: seq<Die>)
      ensures this.dice == dice && table == []
      ensures Valid()
    {
      this.dice := dice;
      table := [];
    }

    /** Rolls every die `n` times and replaces the table by the result. */
    method Play(n: int) returns (o: Outcome)
      requires Valid()
      requires forall d :: d in dice ==> d.Valid()
      modifies this`table
      ensures Valid()
      ensures n <= 0 ==> o == Fail(TypeError) && table == old(table)
      ensures n > 0 && HasBlankDie() ==> o == Fail(ValueError) && table == old(table)
      ensures n > 0 && !HasBlankDie() ==> o == Pass && |table| == if |dice| == 0 then 0 else n
    {
      if n <= 0 {
        return Fail(TypeError);
      }
      var columns: seq<seq<int>> := [];
      var j := 0;
      while j < |dice|
        invariant 0 <= j <= |dice| && |columns| == j
        invariant table == old(table)
        invariant forall c :: 0 <= c < j ==> dice[c].faces != []
        invariant forall c :: 0 <= c < j ==> |columns[c]| == n
        invariant forall c :: 0 <= c < j ==> forall x :: x in columns[c] ==> x in dice[c].faces
      {
        var r := dice[j].Roll(n);
        if r.Failure? {
          return Fail(r.error);
        }
        columns := columns + [r.value];
        j := j + 1;
      }
      if |dice| == 0 {
        // A frame built from no columns has no rows either.
        table := [];
      } else {
        table := Transpose(columns, n);
        forall i, c | 0 <= i < n && 0 <= c < |dice|
          ensures table[i][c] in dice[c].faces
        {
          assert table[i][c] == columns[c][i];
        }
      }
      o := Pass;
    }

    /** The last play's table, wide (as stored) or narrow (one line per cell). */
    function Show(form: string): (r: Result<View>)
      reads this
      requires Valid()
      ensures form != "wide" && form != "narrow" ==> r == Failure(ValueError)
      ensures form == "wide" ==> r == Success(Wide(table))
      ensures form == "narrow" ==> r.Success? && r.value.Narrow? && IsNarrowOf(r.value.cells, table, |dice|)
    {
      if form != "wide" && form != "narrow" then Failure(ValueError)
      else if form == "wide" then Success(Wide(table))
      else
        StackIndex(table, |dice|);
        Success(Narrow(Stack(table)))
    }
  }
}
