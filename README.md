# Monte Carlo dice simulator — a Dafny model

This project models `montecarlo/montecarlo.py`, a small Monte Carlo engine built on weighted dice.
It has three classes:

- a **Die** has a fixed sequence of distinct faces and one positive weight per face. It can
  change the weight of one face, roll `n` times, and show its face/weight frame;
- a **Game** holds an ordered list of dice and the table of its most recent play. The table has
  one row per roll and one column per die. `play(n)` replaces the table. `show` returns the table
  in wide form, or in narrow form as (roll, die, outcome) lines;
- an **Analyzer** reads a game's current table and never changes it. It computes the number of
  jackpots, the face counts of each roll, and the counts of distinct combinations (sorted tuples)
  and of distinct permutations (raw tuples).

Files and modules:

- `common.dfy` (`Common`): the exception kinds (`TypeError`, `ValueError`, `IndexError`),
  `Result`/`Outcome`, the `Table` type and counting helpers on sequences.
- `sorting.dfy` (`Sorting`): Python's `sorted` as an insertion sort. Also proved here: a sorted
  rearrangement is unique.
- `dice.dfy` (`Dice`): class `Die`. Its faces and its never-updated `weights` attribute are
  `const` fields. The face/weight frame is a `var` field that `ChangeWeight` updates.
- `games.dfy` (`Games`): class `Game`. `dice` is a `const` field and `table` a `var` field. The
  file also holds the narrow (stacked) view.
- `analysis.dfy` (`Analysis`): the statistics as pure functions over a table, with the lemmas
  about them, and class `Analyzer`, which reads its game's live table.

Modelling choices:

- Faces are integers. Grouping by combination needs a total order on faces.
- Rolls are nondeterministic. `Roll` picks each face with a `:|` choice. Its contract fixes the
  number of results and that each result is a face of the die. It says nothing about
  probabilities.
- `value_counts` results are modelled as `map<seq<int>, nat>`, from group key to count. In the
  source they are ordered by count; that order is not modelled.
- Integer-valued `isinstance` checks are subsumed by Dafny's static types.
- A die with no faces is accepted at construction, because the duplicate check passes. Rolling it
  then raises `ValueError`, since numpy's `random.choice` rejects an empty population. So
  `Play` fails with `ValueError` and leaves the table unchanged when any die has no faces.
- A game with no dice is accepted. Its `play(n)` builds a frame from no columns, and pandas gives
  that frame no rows. So the table becomes empty rather than `n` empty rows.
- pandas' `DataFrame.empty` is modelled as "the table has no cells" (`Analysis.IsEmpty`).
- The `weights` attribute stays all ones after `change_weight`, as in the source. Only the frame
  (`die_df`) is updated, and rolls read the frame.

## Model

| member | source | states |
|---|---|---|
| `Common.ElementsCard` | montecarlo/montecarlo.py:17-18 | `len(set(faces)) == len(faces)` holds exactly when the faces are pairwise distinct, so the duplicate check rejects precisely the repeated faces |
| `Dice.Die.Create` | montecarlo/montecarlo.py:8-25 | fails with ValueError exactly when some face repeats; otherwise a fresh valid die with the given faces and every frame weight 1 |
| `Dice.Die.constructor` | montecarlo/montecarlo.py:20-25 | faces as given; the `weights` attribute and every frame weight are 1; one frame row per face, in face order |
| `Dice.Die.ChangeWeight` | montecarlo/montecarlo.py:27-41 | a face not on the die fails with IndexError (checked first); a weight <= 0 fails with TypeError; both leave the frame unchanged; otherwise only that face's row gets the new weight; the die stays valid |
| `Dice.WeightOfUpdate` | montecarlo/montecarlo.py:41 | after updating one face's row, reading the frame back gives the new weight for that face and the old weight for every other face |
| `Dice.Die.Roll` | montecarlo/montecarlo.py:44-60 | n <= 0 fails with TypeError; a die without faces fails with ValueError; otherwise exactly n results, each a face of the die |
| `Dice.Die.Show` | montecarlo/montecarlo.py:63-70 | one (face, weight) row per face, in face order, each weight positive; the weight shown for every face is its current weight in the frame, so after `ChangeWeight` it is the new weight for that face and the old one for the others (with `Dice.WeightOfUpdate`) |
| `Games.Game.constructor` | montecarlo/montecarlo.py:74-89 | stores the dice as given (an empty list included); the table starts empty |
| `Games.Game.Play` | montecarlo/montecarlo.py:91-105 | n <= 0 fails with TypeError and a die without faces fails with ValueError, both leaving the table unchanged; otherwise the table is replaced by one with n rows (none if there are no dice), one column per die, and each cell a face of its column's die |
| `Games.Transpose` | montecarlo/montecarlo.py:102-105 | turning one column per die into rows gives n rows of one cell per die, with cell (i, j) = roll i of die j |
| `Games.Game.Show` | montecarlo/montecarlo.py:107-127 | a form other than "wide"/"narrow" fails with ValueError; "wide" returns the table itself; "narrow" returns n*k lines, line i*k+j being (i, j, table[i][j]) |
| `Games.StackLength` | montecarlo/montecarlo.py:127 | the narrow view of an n-by-k table has n*k lines |
| `Games.StackAt` | montecarlo/montecarlo.py:127 | line i*k+j of the narrow view is (roll i, die j, table[i][j]): ordered by roll, then die |
| `Games.StackIndex` | montecarlo/montecarlo.py:127 | the narrow view has n*k lines, ordered by roll and then die, and each line holds its cell's outcome |
| `Games.StackCellsAgree` | montecarlo/montecarlo.py:127 | every line of the narrow view names an existing cell and carries exactly that cell's face |
| `Analysis.Analyzer.constructor` | montecarlo/montecarlo.py:136-148 | the analyzer is bound to the given game for good |
| `Analysis.JackpotRowIff` | montecarlo/montecarlo.py:164 | a row has exactly one distinct value (`nunique == 1`) iff it is non-empty and all its faces are equal |
| `Analysis.CountJackpotRows` | montecarlo/montecarlo.py:164 | the number of jackpot rows never exceeds the number of rows |
| `Analysis.CountJackpotRowsIsCard` | montecarlo/montecarlo.py:164 | counting row by row gives the size of the set of jackpot rows |
| `Analysis.JackpotCountIsRowCount` | montecarlo/montecarlo.py:160-165 | the jackpot count (0 on an empty table) is the number of rows with a single distinct value, on every table, and lies between 0 and the number of rows |
| `Analysis.AllJackpotRows` | montecarlo/montecarlo.py:164 | if every row is a jackpot, the count is the number of rows |
| `Analysis.SingleColumnJackpots` | montecarlo/montecarlo.py:160-165 | with a single die every roll is a jackpot |
| `Analysis.ForcedJackpot` | tests/montecarlo_test.py:64-66 | overwriting one row with a uniform row raises the jackpot count by one, unless that row already was a jackpot |
| `Analysis.Analyzer.Jackpot` | montecarlo/montecarlo.py:150-165 | the live table's jackpot count equals the number of its single-valued rows and is at most its number of rows |
| `Analysis.Flatten` | montecarlo/montecarlo.py:179 | the cells of the table, row after row: a value is among them iff some row holds it |
| `Analysis.ObservedFaces` | montecarlo/montecarlo.py:179 | the face-count columns are strictly ascending and are exactly the values observed anywhere in the table |
| `Analysis.FaceCountsOf` | montecarlo/montecarlo.py:167-181 | empty on an empty table; otherwise one row per roll and one column per observed face, each cell the number of times that face occurs in that roll (0 when absent) |
| `Analysis.RemoveAll` | montecarlo/montecarlo.py:179 | removing every occurrence of one face shortens a row by that face's count and leaves the other counts unchanged |
| `Analysis.RowCountsSum` | montecarlo/montecarlo.py:179 | counting a row against distinct faces that cover it adds up to the row's length |
| `Analysis.FaceCountRowSums` | tests/montecarlo_test.py:73 | each row of the face counts sums to the number of dice in that roll |
| `Analysis.FaceColumnsBound` | tests/montecarlo_test.py:72 | when every cell is one of the die's faces, there are at most as many face-count columns as faces |
| `Analysis.Analyzer.FaceCounts` | montecarlo/montecarlo.py:167-181 | empty on an empty table; otherwise one row per roll and exactly one column per observed face (strictly ascending, so no face repeats), each cell the number of times that face occurs in that roll, each row summing to that roll's number of dice |
| `Analysis.CountBy` | montecarlo/montecarlo.py:197 | `value_counts`: the keys are exactly the distinct values counted, each mapped to its number of occurrences, which is positive |
| `Analysis.SumCountsRemove` | montecarlo/montecarlo.py:197 | the total of all counts is one key's count plus the total of the rest |
| `Analysis.CountBySum` | montecarlo/montecarlo.py:197 | the counts produced by `value_counts` add up to the number of values counted |
| `Analysis.PermutationCountsOf` | montecarlo/montecarlo.py:202-219 | empty on an empty table; otherwise the keys are exactly the distinct rows, each counted by how many rows equal it (always > 0) |
| `Analysis.ComboCountsOf` | montecarlo/montecarlo.py:183-200 | empty on an empty table; every key is sorted, a rearrangement of some row and counted at least once; every row's sorted tuple is a key |
| `Sorting.Insert` | montecarlo/montecarlo.py:197 | inserting into a sorted row keeps it sorted and adds exactly that value |
| `Sorting.Sort` | montecarlo/montecarlo.py:197 | `sorted(row)` is ascending and a rearrangement of the row |
| `Sorting.Dedup` | montecarlo/montecarlo.py:179 | dropping repeats of a sorted sequence gives a strictly ascending sequence with the same values |
| `Sorting.SortedUnique` | montecarlo/montecarlo.py:197 | two sorted rearrangements of the same values are equal |
| `Sorting.SortIffPermutation` | montecarlo/montecarlo.py:197 | two rows (two rolls) get the same sorted tuple, i.e. fall into the same combination, iff one is a rearrangement of the other |
| `Analysis.SortedRowCount` | montecarlo/montecarlo.py:197 | the number of rows whose sorted tuple is a sorted key equals the number of rows that are rearrangements of it |
| `Analysis.ComboCountIsRearrangements` | montecarlo/montecarlo.py:183-200 | a combination's count is the number of rolls whose faces are a rearrangement of it |
| `Analysis.CountsSumToRolls` | montecarlo/montecarlo.py:193-219 | on a non-empty table both the combination counts and the permutation counts add up to the number of rolls |
| `Analysis.SortedKeysNoMore` | montecarlo/montecarlo.py:197 | sorting each row never creates more distinct rows than there were |
| `Analysis.CombosNoMoreThanPermutations` | montecarlo/montecarlo.py:183-219 | there are never more distinct combinations than distinct permutations |
| `Analysis.SortedCountAtLeast` | montecarlo/montecarlo.py:197 | a sorted tuple occurs among the sorted rows at least as often as any row it sorts occurs among the rows |
| `Analysis.ComboCountCoversPermutation` | montecarlo/montecarlo.py:183-219 | a roll's combination is counted at least as often as its exact permutation |
| `Analysis.PlayedFaceCounts` | tests/montecarlo_test.py:68-73 | on an n-by-k table with n, k >= 1 (what `play(n)` leaves with k dice), the face counts have n rows, each summing to k |
| `Analysis.PlayedGroupCounts` | tests/montecarlo_test.py:75-81 | on such a table, the jackpots number at most n; the combination and permutation counts each add up to n; there is at least one combination and no more combinations than permutations |
| `Analysis.Analyzer.ComboCounts` | montecarlo/montecarlo.py:183-200 | empty on an empty table; every key is sorted, is a rearrangement of some roll, and is counted (always > 0) by the number of rolls that are its rearrangements; every roll's sorted tuple is a key; the counts add up to the number of rolls |
| `Analysis.Analyzer.PermutationCounts` | montecarlo/montecarlo.py:202-219 | empty on an empty table; the keys are exactly the rolls, each counted by how many rolls equal it; the counts add up to the number of rolls |

## Left out

- Probabilities: `roll` draws with `numpy.random.choice` using probabilities `weights / sum(weights)`. The model keeps only the shape and face-membership contract of a roll. Nothing statistical is stated, such as independence or convergence to the weights.
- Floating point: weights are modelled as `real`. NaN and infinity pass the source's `weight <= 0` check; the model has neither.
- Non-numeric weights and non-integer roll counts, which the source rejects with `TypeError` through `isinstance`: the static types of `ChangeWeight`, `Roll` and `Play` rule them out. The same holds for the `isinstance` checks on the faces (a NumPy array), the dice and the game.
- Faces of types other than integers (strings, floats): not modelled, because combination keys need a total order.
- Default arguments (`num_rolls=1`, `form='wide'`): in the model every call passes its argument explicitly; a call such as `show()` corresponds to `Show("wide")`.
- Aliasing: `Game.show('wide')` returns the live table object in the source and a value here (`Die.show` returns a copy in both). `Game.__init__` stores the caller's list of dice by reference, so the caller can later add or remove dice; here `dice` is a `const` sequence fixed at construction (the `Die` objects themselves are still shared).
- pandas presentation: the column names `Die_i`, the index names, the MultiIndex and the ordering of `value_counts` results. The narrow view's die column is modelled as the die's position, not as its column label.
- Column order of `face_counts`: the model uses ascending order of the observed faces.
- `montecarlo/__init__.py`: only import wiring and printed banners; not part of this model.
