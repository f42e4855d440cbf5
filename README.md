# sudoku-solver in Dafny

This is a verified model of the core of the Go package `sudoku-solver`, the part that the cases in `solver_test.go` are written against. The core is a 9×9 Sudoku board of 81 cells in row-major order. It has four parts:

- a validator for one group (a line, a column or a square);
- the cell record `entry`;
- the `grid` type, with its group getters, the 27-group check, `updateValue` and two constructors;
- the single-blank line filler `resolveLine` from the draft file `solver.go`.

Modules, following the source files:

| module | file | models |
|---|---|---|
| `Wrappers` | `wrappers.dfy` | `Option` for Go's `nil`-or-`error`, and `Result` for `(value, error)` pairs |
| `Helpers` | `helpers.dfy` | `helpers.go`: `removeValue`, `checkExist`, and `checkCorrectness` for one group |
| `Entries` | `entries.dfy` | `entry.go`: the `entry` record, `newEntry`, `setValue`, `removePossibility` |
| `Board` | `board.dfy` | the position arithmetic of `grid.go`: which positions make up line, column and square `i`, and the order in which `(*grid).checkCorrectness` visits the 27 groups |
| `Strings` | `strings.dfy` | the Go library calls that `generateGridFromString` uses: `strings.Contains`, `strings.Split`, `strings.TrimSpace`, `strconv.Atoi` (and `Itoa`/`Join` for the round trip) |
| `Grids` | `grids.dfy` | `grid.go`: `class Grid` over an `array<Entry>` of 81 entries, with the getters, `checkCorrectness`, `updateValue`, `removePossibility` and both constructors |
| `LineFiller` | `linefiller.dfy` | `solver.go`: `possibleValues`, `resolveLine`, its own swap-with-last `removeValue`, and `checkExist` (via `Helpers.CheckExist`) |

Modelling choices:

- **`entry` is a datatype.** Go keeps `entry` by value inside `grid.Entries`, and `getEntry`, `range` and the getters all hand out copies. Its pointer-receiver methods `setValue` and `removePossibility` are therefore functions that return the updated record.
- **`helpers.go`'s `removeValue` writes into the caller's array.** It overwrites the match with `slice[0]` and returns `slice[1:]`. `Helpers.RemoveValue` works on an `array<int>` window `[lo, hi)` and states both effects:
  - the write into the array (`Overwritten`);
  - the returned slice (`Removed`).
- **`checkCorrectness` keeps its working list in an array.** The list `elements` lives in an `array<int>` that the loop shrinks from the front. The loop invariant says it holds exactly the digits 1..9 not yet seen, without repeats.
- **The peer loop of `updateValue` has no effect on values.** `removePossibility(entries, p)` at grid.go:222-226 ranges over copies of the entries, so no entry's value or candidate-list length changes. What remains is the write that `removeValue` makes through the copies into the candidate arrays they share with the grid.
  - `Grids.Strike` models exactly that: entry `q` gets the overwrite once for each time `q` occurs among the visited positions (`Peers`), and three times for the position itself.
  - `Grids.Grid.UpdateValue` states the whole new array: this write-through, plus `Entries[position]` replaced by `setValue(value)`.
  - It also states that the grid's values change only at `position`, even when `value` is 0.
- **Panics become preconditions.** `getEntry`, `eGetLine`, `getLine`, `eGetSquare` and `getSquare` index out of bounds unless `0 <= index < 9` (or `0 <= position < 81`), so they require it. `eGetColumn` and `getColumn` do not panic: any other index gives an empty slice, and they model that.
- **`resolveLine` requires `Fillable`.** It reads `possible[0]`, which panics on an empty list. That happens exactly when the line has one blank and its clues are not distinct digits, or the line is longer than nine cells. The model makes this the precondition `Fillable`, and `LineFiller.FillableIff` characterises it.
- **The line filler's `removeValue` returns `nil` when the value is absent.** The model represents `nil` as a slice of length 0.
- **`possibleValues` is never modified.** `resolveLine` copies it into a fresh `possible` array; in Dafny it is an immutable constant `PossibleValues`.
- **Integers are unbounded.** The only place Go's `int` width shows is `strconv.Atoi`, which rejects values outside the 64-bit range, and `Strings.Atoi` models that bound.
- **The code contains no propagation or backtracking solver.** The model has none either.

## Model

| member | source | states |
|---|---|---|
| `Helpers.RemoveValue` | sudoku-solver/helpers.go:8-17 | The first occurrence of `value` in the slice is overwritten in the caller's array by the slice's first element, and the returned slice starts one later. When `value` is absent, nothing is written and the slice comes back unchanged. Array cells outside the slice never change. |
| `Helpers.RemovedMultiset` | sudoku-solver/helpers.go:10-14 | When `value` occurs, the returned slice is one shorter and, as a multiset, is the input minus one `value`. |
| `Helpers.RemovedAbsent` | sudoku-solver/helpers.go:16 | When `value` does not occur, both the returned slice and the array are the input unchanged. |
| `Helpers.RemovedDistinct` | sudoku-solver/helpers.go:10-14 | Removing from a list without repeats leaves a list without repeats, holding exactly the old members other than `value`. |
| `Helpers.CheckExist` | sudoku-solver/helpers.go:19-26 | The scan returns true exactly when `value` occurs in the slice (solver.go:182-189 is the same function). |
| `Helpers.GroupCheck` | sudoku-solver/helpers.go:30-32 | The result is a length error exactly when the group does not have nine values, and that error carries the actual length. |
| `Helpers.CheckCorrectness` | sudoku-solver/helpers.go:28-51 | The loop over the working list returns `GroupCheck(line)`: length first, then the first value out of 0..9 or the first repeated non-zero value. Its loop invariant says the working list is the digits 1..9 not yet seen, without repeats. |
| `Helpers.GroupCheckOkIff` | sudoku-solver/helpers.go:36-50 | The check returns nil if and only if the group has nine values, all of them in 0..9, and no non-zero value occurs twice (zeros never conflict). |
| `Helpers.GroupCheckFirstFailure` | sudoku-solver/helpers.go:38-45 | When position `j` is the first bad one, its error is the one reported: out of range for a value outside 0..9, otherwise a duplicate of that value with the whole group. |
| `Helpers.GroupCheckReports` | sudoku-solver/helpers.go:36-49 | Every error from a nine-value group names a bad position with no bad position before it. |
| `Helpers.NoBadIsGroupOk` | sudoku-solver/helpers.go:36-49 | A nine-value group is acceptable exactly when no position is bad. |
| `Helpers.DistinctCount` | sudoku-solver/helpers.go:34 | In a list without repeats, every value occurs at most once. |
| `Helpers.AcceptedLines` | sudoku-solver/solver_test.go:119-130 | The four correct groups of TestOneLine (ordered, unordered, only blanks, blanks and digits) pass. |
| `Helpers.RejectedLength` | sudoku-solver/solver_test.go:132-136 | The seven-value group fails with the length error carrying 7. |
| `Helpers.RejectedDuplicates` | sudoku-solver/solver_test.go:137-146 | The two groups with repeats fail with a duplicate of their last value (9, and 4). |
| `Helpers.RejectedOutOfRange` | sudoku-solver/solver_test.go:147-156 | The groups holding 19 and -5 report that value as out of range, although a repeated 4 follows it. |
| `Entries.PositionIndices` | sudoku-solver/entry.go:16-18 | For every position 0..80, the line index is `p/9` and the column index is `p%9`, all three indices lie in 0..8, and the square index equals `(line/3)*3 + column/3`. |
| `Entries.NewEntry` | sudoku-solver/entry.go:11-27 | The entry carries the three indices of its position and the given value. Its candidates are exactly 1..9 when the value is 0 and empty otherwise. |
| `Entries.NewEntryIsSetValue` | sudoku-solver/entry.go:21-24 | `newEntry(p, v)` with `v != 0` is `newEntry(p, 0)` followed by `setValue(v)`. |
| `Entries.SetValue` | sudoku-solver/entry.go:29-32 | Sets the value, empties the candidates, and leaves all three indices unchanged. |
| `Entries.RemovePossibility` | sudoku-solver/entry.go:34-43 | Never changes the indices and never leaves exactly one candidate. The new value is the old one or one of the old candidates. On an entry with no candidates it is a no-op. |
| `Entries.RemovePossibilityEffect` | sudoku-solver/entry.go:36-42 | With distinct candidates: when exactly one survives the removal of `p`, the entry takes that survivor and its candidates empty. Otherwise the value stays, and the candidates are the old ones minus `p`, still distinct. |
| `Entries.RemovedSubset` | sudoku-solver/helpers.go:10-14 | A removal only keeps old candidates. |
| `Entries.NewEntryWellFormed` | sudoku-solver/entry.go:11-27 | A new entry has distinct candidates within 1..9, never exactly one, and only an unresolved (0) entry has candidates. |
| `Entries.SetValueWellFormed` | sudoku-solver/entry.go:29-32 | `setValue` keeps that invariant. |
| `Entries.RemovePossibilityWellFormed` | sudoku-solver/entry.go:34-43 | `removePossibility` keeps that invariant, and a changed value is a digit 1..9. |
| `Entries.NewEntryLive` | sudoku-solver/entry.go:11-27 | A new entry is live: well formed, and if unresolved it has at least two candidates. |
| `Entries.RemovePossibilityLive` | sudoku-solver/entry.go:39-42 | `removePossibility` keeps an entry live, so an unresolved entry always keeps at least two candidates. |
| `Entries.SetValueLive` | sudoku-solver/entry.go:29-32 | `setValue` with a digit keeps an entry live; `setValue(0)` leaves an unresolved entry without candidates, which is not live. |
| `Board.LinePositions` | sudoku-solver/grid.go:156-164 | Line `i` is nine positions on the board. |
| `Board.ColumnPositions` | sudoku-solver/grid.go:166-176 | Column `i` is nine positions on the board. |
| `Board.SquarePositions` | sudoku-solver/grid.go:131-154 | Square `i` is nine positions on the board. |
| `Board.SquareOffsetFormula` | sudoku-solver/grid.go:136-144 | The three-way switch on the square index gives the offset `(s/3)*27 + (s%3)*3`. |
| `Board.SquarePositionsAt` | sudoku-solver/grid.go:146-148 | Square `i` lists `o..o+2`, `o+9..o+11`, `o+18..o+20`, in that order. |
| `Board.LineMembership` | sudoku-solver/grid.go:156-164 | Position `p` lies on line `i` exactly when its line index is `i`. |
| `Board.ColumnMembership` | sudoku-solver/grid.go:166-176 | Position `p` lies in column `i` exactly when its column index is `i`. |
| `Board.SquareMembership` | sudoku-solver/grid.go:131-154 | Position `p` lies in square `i` exactly when `newEntry`'s square index of `p` is `i` (entry.go:18). |
| `Board.PositionsDistinct` | sudoku-solver/grid.go:131-176 | No line, column or square lists a position twice. |
| `Board.Pick` | sudoku-solver/grid.go:156-187 | Picking positions from the grid's values gives the value at each position, in order. |
| `Board.SquareSlices` | sudoku-solver/grid.go:146-148 | A square is the concatenation of three three-cell slices of the grid. |
| `Board.Groups` | sudoku-solver/grid.go:192-205 | The 27 groups in check order: column `i`, line `i`, square `i`, for `i` from 0 to 8. |
| `Board.GroupsRound` | sudoku-solver/grid.go:192-205 | Round `i` of the check visits column `i`, then line `i`, then square `i`. |
| `Board.AllGroupsOk` | sudoku-solver/grid.go:189-208 | All 27 groups are acceptable if and only if every line, column and square is. |
| `Board.CheckBoardOkIff` | sudoku-solver/grid.go:189-208 | The grid check returns nil if and only if every line, column and square passes the group check. |
| `Board.CheckBoardFirstFailure` | sudoku-solver/grid.go:189-208 | When group `j` is the first failing one in check order, its error is the one returned. |
| `Board.CheckBoardReports` | sudoku-solver/grid.go:189-208 | Every error names a failing group with none failing before it, and it is never a length error. |
| `Board.FirstErrorFromNone` | sudoku-solver/grid.go:192-207 | The scan from group `j` returns nil exactly when no later group fails. |
| `Board.FirstErrorFromFirst` | sudoku-solver/grid.go:192-205 | The scan returns the error of the first failing group. |
| `Board.FirstErrorFromReports` | sudoku-solver/grid.go:192-205 | A scan error comes from a failing group with none failing before it. |
| `Grids.ValuesOf` | sudoku-solver/grid.go:159-161 | The values of a list of entries, position by position. |
| `Grids.Grid.Values` | sudoku-solver/grid.go:10-12 | The grid's values, one per entry. |
| `Grids.Grid.Base` | sudoku-solver/grid.go:16-25 | A new grid of 81 entries, entry `i` being `newEntry(i, 0)`. |
| `Grids.Grid.GetEntry` | sudoku-solver/grid.go:111-113 | Returns the entry at `position`, carrying that position's indices, all in 0..8. |
| `Grids.Grid.EGetLine` | sudoku-solver/grid.go:115-117 | The entries of line `index`, positions `9*index` to `9*index+8`. |
| `Grids.Grid.EGetColumn` | sudoku-solver/grid.go:119-129 | The entries of column `index`, top to bottom; for any index outside 0..8, an empty slice. |
| `Grids.Grid.EGetSquare` | sudoku-solver/grid.go:131-154 | The entries of square `index`, in its three three-cell slices. |
| `Grids.Grid.GetLine` | sudoku-solver/grid.go:156-164 | The values of line `index`. |
| `Grids.Grid.GetColumn` | sudoku-solver/grid.go:166-176 | The values of column `index` (positions `i, i+9, …, i+72`); empty for any index outside 0..8. |
| `Grids.Grid.GetSquare` | sudoku-solver/grid.go:178-187 | The values of square `index`. |
| `Grids.Grid.CheckCorrectness` | sudoku-solver/grid.go:189-208 | Returns the first failing group's error in check order, or nil; the scan is `Board.CheckBoard` of the grid's values. |
| `Grids.LineOfElement` | sudoku-solver/grid.go:228-230 | The positions of the entry's line: exactly the positions sharing its line index. |
| `Grids.ColumnOfElement` | sudoku-solver/grid.go:232-234 | The positions of the entry's column: exactly the positions sharing its column index. |
| `Grids.SquareOfElement` | sudoku-solver/grid.go:236-238 | The positions of the entry's square: exactly the positions sharing its square index. |
| `Grids.Peers` | sudoku-solver/grid.go:215-217 | The 27 positions the three peer loops of `updateValue` visit, in order. |
| `Grids.PeersShareAGroup` | sudoku-solver/grid.go:215-217 | A position is visited exactly when it shares a line, a column or a square with `position`. |
| `Grids.PeersVisits` | sudoku-solver/grid.go:215-217 | A position is visited once per group it shares with `position`, so the position itself is visited three times. |
| `Grids.OverwrittenN` | sudoku-solver/helpers.go:12 | Repeated write-through of `removeValue` never changes a candidate list's length. |
| `Grids.OverwrittenNAdd` | sudoku-solver/helpers.go:12 | `a` write-throughs followed by `b` more are `a + b` write-throughs. |
| `Grids.Strike` | sudoku-solver/grid.go:222-226 | After `removePossibility(group, v)`, each entry's candidates carry `removeValue`'s write once per occurrence in `group`, and nothing else changes. |
| `Grids.StrikeConcat` | sudoku-solver/grid.go:215-217 | Striking two groups one after the other is striking their concatenation. |
| `Grids.StrikeSnoc` | sudoku-solver/grid.go:223-225 | One more loop step strikes one more position. |
| `Grids.StrikeIndexed` | sudoku-solver/grid.go:222-226 | The peer loop keeps every entry's indices. |
| `Grids.StrikeKeepsValues` | sudoku-solver/grid.go:222-226 | The peer loop changes no entry's value and no candidate-list length. |
| `Grids.UpdateIndexed` | sudoku-solver/grid.go:219 | Storing an entry with the right indices keeps the grid indexed. |
| `Grids.Grid.RemovePossibility` | sudoku-solver/grid.go:222-226 | The loop over the group leaves the grid as `Strike` describes. |
| `Grids.Grid.RemoveFromPeers` | sudoku-solver/grid.go:215-217 | The three loops over line, column and square leave the grid as one strike over `Peers(position)`. |
| `Grids.Grid.UpdateValue` | sudoku-solver/grid.go:210-220 | The new entries are the peer strike followed by `Entries[position] := setValue(old entry, value)`. The values change only at `position`, which now holds `value`, even when it is 0. |
| `Grids.UpdateValueValues` | sudoku-solver/grid.go:210-226 | After the strike and the store, the values are the old ones with `position` set to `v`, and that entry has no candidates. |
| `Grids.Filled` | sudoku-solver/grid.go:73-79 | The entries a grid has after every position received `updateValue`: indexed, with exactly the given values. |
| `Grids.FillStep` | sudoku-solver/grid.go:75-79 | One `updateValue` at the next position extends the filled prefix by that value. |
| `Grids.StrikeKeepsFilled` | sudoku-solver/grid.go:215-217 | Strikes keep a filled prefix filled. |
| `Grids.SetKeepsFilled` | sudoku-solver/grid.go:219 | Storing `setValue(v)` at the next position extends the filled prefix. |
| `Grids.FilledAll` | sudoku-solver/grid.go:75-79 | A grid filled at all 81 positions is `Filled` of those values. |
| `Grids.Grid.FillLine` | sudoku-solver/grid.go:76-78 | Updating one input line at its nine positions extends the filled prefix by that line; the line's positions take its values and every other position keeps its value. |
| `Grids.LineWrittenStep` | sudoku-solver/grid.go:76-78 | One more `updateValue` in the line writes one more of its values and leaves the other positions as they were. |
| `Grids.FillLines` | sudoku-solver/grid.go:73-79 | The double loop over the input leaves a fresh grid holding the flattened input. |
| `Grids.ConcatAt` | sudoku-solver/grid.go:77 | The value at `9*i + j` of the flattened rows is `input[i][j]`. |
| `Grids.Flatten` | sudoku-solver/grid.go:75-79 | Nine lines of nine flatten to 81 values. |
| `Grids.FlattenAt` | sudoku-solver/grid.go:77 | Entry `r*9+c` receives `input[r][c]`. |
| `Grids.FlattenLines` | sudoku-solver/grid.go:75-79 | Line `i` of the flattened grid is `input[i]`, and column `j` lists `input[k][j]`. |
| `Grids.RowsFrom` | sudoku-solver/grid.go:68-72 | The first line from `i` on without nine columns is reported with its index and length, or nil if there is none. |
| `Grids.GridOutcomeShape` | sudoku-solver/grid.go:65-72 | A line count other than 9 is reported first, then the first line without nine columns, all before any cell is written. |
| `Grids.GridOutcomeSuccess` | sudoku-solver/grid.go:63-86 | `generateGrid` succeeds if and only if the input is nine lines of nine values that obey the Sudoku rules, and the grid then holds the flattened input. |
| `Grids.GenerateGrid` | sudoku-solver/grid.go:63-86 | Returns exactly what `GridOutcome` describes. On success it is a fresh grid of 81 entries holding `Filled` of the input values; the group error is returned unwrapped. |
| `Grids.Readings` | sudoku-solver/grid.go:47 | Each token read as `Atoi(TrimSpace(token))`. |
| `Grids.Collect` | sudoku-solver/grid.go:45-53 | All 81 readings, or the index of the first token that is not an integer. |
| `Grids.CollectFirstMissing` | sudoku-solver/grid.go:47-50 | The first unreadable token is the one reported. |
| `Grids.CollectAll` | sudoku-solver/grid.go:45-53 | When every token reads, the values are collected in order. |
| `Grids.ReadingsStep` | sudoku-solver/grid.go:45-52 | Reading one more token extends the prefix read so far. |
| `Grids.GenerateGridFromString` | sudoku-solver/grid.go:27-61 | Fails on a missing comma, on a token count other than 81, or on the first token that is not an integer after trimming (reported with its index). Otherwise token `i` becomes the value of entry `i`, and a group error is returned wrapped. |
| `Grids.Tokens` | sudoku-solver/grid.go:34 | 81 tokens, token `p` being the decimal text of value `p`. |
| `Grids.TokensRead` | sudoku-solver/grid.go:47 | Every token of a 64-bit grid is comma-free and reads back as its value. |
| `Grids.RenderSplits` | sudoku-solver/grid.go:30-38 | The comma-joined text holds a comma and splits back into its 81 tokens. |
| `Grids.StringRoundTrip` | sudoku-solver/grid.go:27-61 | Writing 81 64-bit values as comma-separated decimals and reading them back gives those values, or the wrapped group error of the grid check. |
| `Strings.Split` | sudoku-solver/grid.go:34 | `strings.Split` with a one-character separator: at least one piece, and no piece holds the separator. |
| `Strings.JoinSplit` | sudoku-solver/grid.go:34 | Joining the pieces of a split gives back the string. |
| `Strings.SplitJoin` | sudoku-solver/grid.go:34 | Splitting the join of separator-free pieces gives back the pieces. |
| `Strings.SplitNoSeparator` | sudoku-solver/grid.go:34 | A string without the separator splits to itself. |
| `Strings.SplitAtSeparator` | sudoku-solver/grid.go:34 | Text before the first separator is the first piece. |
| `Strings.JoinHasSeparator` | sudoku-solver/grid.go:30 | Two or more joined pieces contain the separator. |
| `Strings.TrimLeft` | sudoku-solver/grid.go:47 | Drops exactly the leading white space. |
| `Strings.TrimRight` | sudoku-solver/grid.go:47 | Drops exactly the trailing white space. |
| `Strings.TrimSpace` | sudoku-solver/grid.go:47 | The result is no longer and neither starts nor ends with white space. |
| `Strings.TrimSpaceNoSpace` | sudoku-solver/grid.go:47 | Text without white space is unchanged by trimming. |
| `Strings.Atoi` | sudoku-solver/grid.go:47-50 | An accepted token is non-empty, holds no white space, and denotes a 64-bit integer. |
| `Strings.NatDigits` | sudoku-solver/grid.go:47 | Decimal digits, at least one. |
| `Strings.NatDigitsValue` | sudoku-solver/grid.go:47 | The digits denote the number written. |
| `Strings.ItoaShape` | sudoku-solver/grid.go:47 | The rendering holds no white space and carries a minus sign exactly for negative numbers. |
| `Strings.ItoaChars` | sudoku-solver/grid.go:34 | The rendering holds only digits and a minus sign, so never a comma. |
| `Strings.AtoiItoa` | sudoku-solver/grid.go:47 | `Atoi(TrimSpace(Itoa(n)))` gives back `n` for every 64-bit `n`. |
| `LineFiller.SwapRemoved` | sudoku-solver/solver.go:157-169 | When `value` occurs, the result is one shorter; when it does not, the result is empty (`nil`). |
| `LineFiller.SwapRemovedMultiset` | sudoku-solver/solver.go:159-165 | When `value` occurs, the result is the input minus one `value`, as multisets. |
| `LineFiller.RemoveValue` | sudoku-solver/solver.go:157-169 | The first occurrence is overwritten in place by the last element and the length drops by one; no other cell of the array changes, the last one included. When `value` is absent, nothing is written and the length is 0. |
| `LineFiller.Remaining` | sudoku-solver/solver.go:132-142 | The working list `possible` after the loop over a prefix: at most nine values. |
| `LineFiller.LastZero` | sudoku-solver/solver.go:136-139 | `index` after the loop: the last blank of the line, or 0 when there is none. |
| `LineFiller.NonZeros` | sudoku-solver/solver.go:135-142 | The clues of the line: its non-zero values, in order. |
| `LineFiller.LoopStep` | sudoku-solver/solver.go:135-142 | One loop iteration: a blank bumps `count` and moves `index`, and a clue is swap-removed from `possible`. |
| `LineFiller.ResolveLine` | sudoku-solver/solver.go:128-155 | The caller's line is updated in place into `Resolved(old line)` and returned itself. |
| `LineFiller.NonZerosCount` | sudoku-solver/solver.go:135-142 | The clues are the line without its zeros, counted per value. |
| `LineFiller.NonZerosMultiset` | sudoku-solver/solver.go:135-142 | As a multiset, the clues are the line with its zeros removed. |
| `LineFiller.PossibleValuesCount` | sudoku-solver/solver.go:15 | `possibleValues` holds each digit 1..9 once. |
| `LineFiller.ValidCluesSnoc` | sudoku-solver/solver.go:135-142 | One more cell keeps the clues valid exactly when it is a blank, or a new digit. |
| `LineFiller.BlankSnoc` | sudoku-solver/solver.go:136-139 | A blank changes neither the clues nor `possible`. |
| `LineFiller.RemainingEmpty` | sudoku-solver/solver.go:132-133 | Before the loop, `possible` is the digits 1..9, once each. |
| `LineFiller.StrikeNewDigit` | sudoku-solver/solver.go:141 | Swap-removing a new digit leaves the remaining digits, once each. |
| `LineFiller.RemainingClueStep` | sudoku-solver/solver.go:141 | A valid clue keeps `possible` equal to the digits not yet seen. |
| `LineFiller.RemainingContents` | sudoku-solver/solver.go:132-142 | With valid clues, `possible` ends as the digits not among the clues, once each; otherwise it ends empty. |
| `LineFiller.CluesPlusRemaining` | sudoku-solver/solver.go:132-142 | With valid clues, the clues and the final `possible` together are `possibleValues`, as multisets. |
| `LineFiller.FillableIff` | sudoku-solver/solver.go:152 | With exactly one blank, `possible[0]` can be read if and only if the clues are distinct digits and the line has at most nine cells. |
| `LineFiller.NoBlankUnchanged` | sudoku-solver/solver.go:144-146 | A line without a blank comes back unchanged. |
| `LineFiller.BlanksUnchanged` | sudoku-solver/solver.go:148-150 | A line with more than one blank comes back unchanged, whatever its clues. |
| `LineFiller.MissingDigit` | sudoku-solver/solver.go:141-152 | A nine-cell line with one blank and valid clues lacks exactly one digit, and that digit is all that `possible` holds. |
| `LineFiller.FillOnlyBlank` | sudoku-solver/solver.go:152 | Filling the only blank with `d` makes the line its clues plus `d`. |
| `LineFiller.CluesAndMissing` | sudoku-solver/solver.go:152 | The clues plus the missing digit are the nine digits, once each. |
| `LineFiller.ResolvedFillsBlank` | sudoku-solver/solver.go:135-153 | On a nine-cell line with one blank and distinct digit clues: the blank gets the unique missing digit, every other cell keeps its value, and the line becomes a permutation of 1..9. |
| `LineFiller.CellsOkSnoc` | sudoku-solver/helpers.go:36-49 | One more cell keeps a group acceptable exactly when it is in 0..9 and, if non-zero, new. |
| `LineFiller.NonZerosMember` | sudoku-solver/solver.go:135-142 | A non-zero value is a clue exactly when it occurs in the line. |
| `LineFiller.ValidCluesCells` | sudoku-solver/solver.go:135-152 | The filler's condition on clues is the validator's condition on values (helpers.go:36-49): distinct digits and blanks. |
| `LineFiller.OnlyBlankAt` | sudoku-solver/solver.go:136-139 | A line whose only zero is at `k` has one blank, and `index` ends at `k`. |
| `LineFiller.ExampleClues` | sudoku-solver/solver.go:135-142 | The clues of `[2,3,5,8,4,0,9,7,1]` are distinct digits. |
| `LineFiller.ExampleBlank` | sudoku-solver/solver.go:136-139 | That line has its one blank at index 5 and lacks the digit 6. |
| `LineFiller.ExampleMissing` | sudoku-solver/solver.go:132-142 | After the loop on that line, `possible` is `[6]`. |
| `LineFiller.ResolveExample` | sudoku-solver/solver.go:128-155 | `resolveLine([2,3,5,8,4,0,9,7,1])` writes 6 at index 5. |

## Left out

- The rest of `solver.go` is a draft that does not compile, and the model does not include it. It has:
  - a second `grid` type;
  - `generateLines`, `generateColumns`, `generateGroups` and its own `generateGrid`;
  - `checkLineCorrectness`;
  - the unused `replaceValue`;
  - `solve`, `verifyInputData` and `checkDuplicatesInGrid`, which end the process with `log.Fatal`.
- `(*grid).String` (grid.go:89-108) is left out: it is presentation only, built with `fmt.Sprintf`.
- Error messages are constructors, not formatted text.
  - `GroupError` has `WrongLength(got)`, `OutOfRange(value)` and `Duplicate(value, group)`.
  - `GridError` has `LineCount`, `ColumnCount`, `MissingSeparator`, `TokenCount`, `BadToken` and `Rule`.
  - `InputGridWrong` stands for the prefix that `generateGridFromString` adds.
  - `fmt`'s rendering of numbers and slices is not modelled.
- Go's slice headers and capacities are not modelled.
  - A `nil` slice and an empty slice are both a sequence of length 0.
  - The getters' freshly appended slices are modelled as sequences.
  - `eGetLine` returns a sub-slice of `grid.Entries` itself, but every caller only reads it or ranges over copies, so sharing it is not observable.
- `Grids.Grid.EGetColumn`, `GetColumn`, `EGetSquare` and `GetSquare` build their result with a loop over the grid's array. Only the resulting sequence is stated, not the capacity of the slice built.
- Strings are sequences of Unicode characters.
  - Go's `strings` functions work on UTF-8 bytes; invalid UTF-8 is not modelled.
  - `Strings.Atoi` models base-10 `strconv.Atoi` on a 64-bit platform: an optional sign, at least one digit, and a value within 64 bits. The error values `strconv` returns are not modelled.
- The solver tests are not reproduced where their assertions disagree with the code; the model follows the code.
  - solver_test.go:215 expects a different message from the one grid.go:66 produces.
  - The condition at solver_test.go:226 is inverted.
  - solver_test.go:113 calls an undefined `generateEntries`.
  - The whole-grid test fixtures (solver_test.go:159-233) are not replayed value by value. The general lemmas cover what those fixtures check: `FlattenLines`, `GenerateGrid`, and `CheckBoardFirstFailure` for the duplicate in line 2.
- The model has no input or output, clock or randomness, because the core has none.
