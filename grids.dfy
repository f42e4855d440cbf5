/**
 * The grid of sudoku-solver/grid.go: 81 entries in row-major order, its group getters,
 * the whole-grid check, `updateValue` and the two constructors.
 */
module Grids {
  import opened Wrappers
  import opened Helpers
  import opened Entries
  import opened Board
  import Strings

  /** Everything a constructor can fail with. */
  datatype GridError =
    | LineCount(got: int)                 // the input does not have nine lines; `got` is how many it has
    | ColumnCount(line: int, got: int)    // line `line` does not have nine values
    | MissingSeparator                    // the text holds no comma
    | TokenCount(tokens: seq<string>)     // the text does not split into 81 tokens
    | BadToken(index: int, token: string) // token `index` is not an integer
    | Rule(err: GroupError)               // a group error, returned unchanged by generateGrid
    | InputGridWrong(err: GroupError)     // a group error, wrapped by generateGridFromString

  /** An entry carries the indices `newEntry` gives position `p`. */
  predicate Placed(e: Entry, p: int) {
    e.indexLine == LineIndex(p) && e.indexColumn == ColumnIndex(p) && e.indexSquare == SquareIndex(p)
  }

  function ValuesOf(es: seq<Entry>): (vals: seq<int>)
    ensures |vals| == |es| && forall p :: 0 <= p < |es| ==> vals[p] == es[p].value
  {
    seq(|es|, p requires 0 <= p < |es| => es[p].value)
  }

  // ---------------------------------------------------------------------------
  // The groups of an element, as the positions whose entries they copy

  function LineOfElement(e: Entry): (ps: seq<int>)
    requires 0 <= e.indexLine < 9
    ensures |ps| == 9 && InBoard(ps)
    ensures forall q :: 0 <= q < 81 ==> (q in ps <==> LineIndex(q) == e.indexLine)
  {
    assert forall q :: 0 <= q < 81 ==> (q in LinePositions(e.indexLine) <==> LineIndex(q) == e.indexLine) by {
      forall q | 0 <= q < 81 { LineMembership(q, e.indexLine); }
    }
    LinePositions(e.indexLine)
  }

  function ColumnOfElement(e: Entry): (ps: seq<int>)
    requires 0 <= e.indexColumn < 9
    ensures |ps| == 9 && InBoard(ps)
    ensures forall q :: 0 <= q < 81 ==> (q in ps <==> ColumnIndex(q) == e.indexColumn)
  {
    assert forall q :: 0 <= q < 81 ==> (q in ColumnPositions(e.indexColumn) <==> ColumnIndex(q) == e.indexColumn) by {
      forall q | 0 <= q < 81 { ColumnMembership(q, e.indexColumn); }
    }
    ColumnPositions(e.indexColumn)
  }

  function SquareOfElement(e: Entry): (ps: seq<int>)
    requires 0 <= e.indexSquare < 9
    ensures |ps| == 9 && InBoard(ps)
    ensures forall q :: 0 <= q < 81 ==> (q in ps <==> SquareIndex(q) == e.indexSquare)
  {
    assert forall q :: 0 <= q < 81 ==> (q in SquarePositions(e.indexSquare) <==> SquareIndex(q) == e.indexSquare) by {
      forall q | 0 <= q < 81 { SquareMembership(q, e.indexSquare); }
    }
    SquarePositions(e.indexSquare)
  }

  // ---------------------------------------------------------------------------
  // What the peer loop of updateValue does to the grid

  /** `Overwritten` applied `n` times: `removeValue`'s write into a candidate array, once per visit. */
  function OverwrittenN(s: seq<int>, v: int, n: nat): (r: seq<int>)
    ensures |r| == |s|
  {
    if n == 0 then s else Overwritten(OverwrittenN(s, v, n - 1), v)
  }

  lemma {:induction false} OverwrittenNAdd(s: seq<int>, v: int, a: nat, b: nat)
    ensures OverwrittenN(OverwrittenN(s, v, a), v, b) == OverwrittenN(s, v, a + b)
  {
    if b > 0 {
      OverwrittenNAdd(s, v, a, b - 1);
    }
  }

  /**
   * The positions the peer loop of `updateValue(position, _)` visits, in order: the line,
   * the column and the square of `position` (the position itself three times).
   */
  function Peers(position: int): (ps: seq<int>)
    requires 0 <= position < 81
    ensures |ps| == 27 && InBoard(ps)
  {
    PositionIndices(position);
    LinePositions(LineIndex(position)) + ColumnPositions(ColumnIndex(position)) + SquarePositions(SquareIndex(position))
  }

  /** `q` is visited by the peer loop exactly when it shares a line, a column or a square with `position`. */
  lemma PeersShareAGroup(position: int, q: int)
    requires 0 <= position < 81 && 0 <= q < 81
    ensures q in Peers(position) <==>
      LineIndex(q) == LineIndex(position) || ColumnIndex(q) == ColumnIndex(position) || SquareIndex(q) == SquareIndex(position)
  {
    PositionIndices(position);
    LineMembership(q, LineIndex(position));
    ColumnMembership(q, ColumnIndex(position));
    SquareMembership(q, SquareIndex(position));
  }

  /** Every peer is visited once per group it shares with `position`: three times for the position itself. */
  lemma PeersVisits(position: int, q: int)
    requires 0 <= position < 81 && 0 <= q < 81
    ensures multiset(Peers(position))[q] ==
      (if LineIndex(q) == LineIndex(position) then 1 else 0)
      + (if ColumnIndex(q) == ColumnIndex(position) then 1 else 0)
      + (if SquareIndex(q) == SquareIndex(position) then 1 else 0)
  {
    PositionIndices(position);
    var line, column, square := LinePositions(LineIndex(position)), ColumnPositions(ColumnIndex(position)), SquarePositions(SquareIndex(position));
    PositionsDistinct(LineIndex(position));
    PositionsDistinct(ColumnIndex(position));
    PositionsDistinct(SquareIndex(position));
    LineMembership(q, LineIndex(position));
    ColumnMembership(q, ColumnIndex(position));
    SquareMembership(q, SquareIndex(position));
    DistinctCount(line, q);
    DistinctCount(column, q);
    DistinctCount(square, q);
    assert multiset(Peers(position)) == multiset(line) + multiset(column) + multiset(square);
  }

  /**
   * The entries after `removePossibility(group, v)`: entry `q` has `removeValue`'s write
   * applied to its candidates once for each time `q` occurs in `group`; nothing else changes.
   */
  function Strike(es: seq<Entry>, group: seq<int>, v: int): (r: seq<Entry>)
    ensures |r| == |es|
    ensures forall q {:trigger r[q]} :: 0 <= q < |es| ==>
      r[q] == es[q].(possibilities := OverwrittenN(es[q].possibilities, v, multiset(group)[q]))
  {
    seq(|es|, q requires 0 <= q < |es| =>
      es[q].(possibilities := OverwrittenN(es[q].possibilities, v, multiset(group)[q])))
  }

  lemma StrikeSnoc(es: seq<Entry>, group: seq<int>, x: int, v: int)
    requires 0 <= x < |es|
    ensures Strike(es, group + [x], v)
      == Strike(es, group, v)[x := Strike(es, group, v)[x].(possibilities := Overwritten(Strike(es, group, v)[x].possibilities, v))]
  {
    assert multiset(group + [x]) == multiset(group) + multiset{x};
  }

  /** Removing from one group and then another is removing from the two in sequence. */
  lemma StrikeConcat(es: seq<Entry>, a: seq<int>, b: seq<int>, v: int)
    ensures Strike(Strike(es, a, v), b, v) == Strike(es, a + b, v)
  {
    assert multiset(a + b) == multiset(a) + multiset(b);
    forall q | 0 <= q < |es| ensures Strike(Strike(es, a, v), b, v)[q] == Strike(es, a + b, v)[q] {
      OverwrittenNAdd(es[q].possibilities, v, multiset(a)[q], multiset(b)[q]);
    }
  }

  /** 81 entries, each carrying the indices of its own position. */
  ghost predicate Indexed(es: seq<Entry>) {
    |es| == 81 && forall p {:trigger Placed(es[p], p)} :: 0 <= p < 81 ==> Placed(es[p], p)
  }

  lemma StrikeIndexed(es: seq<Entry>, group: seq<int>, v: int)
    requires Indexed(es)
    ensures Indexed(Strike(es, group, v))
  {
    forall p | 0 <= p < 81 ensures Placed(Strike(es, group, v)[p], p) {
      assert Placed(es[p], p);
    }
  }

  lemma UpdateIndexed(es: seq<Entry>, position: int, e: Entry)
    requires Indexed(es) && 0 <= position < 81 && Placed(e, position)
    ensures Indexed(es[position := e])
  {
    var updated := es[position := e];
    forall p | 0 <= p < 81 ensures Placed(updated[p], p) {
      if p != position {
        assert Placed(es[p], p);
      }
    }
  }

  /** The peer loop changes no value and no candidate count, only what the candidate arrays hold. */
  lemma StrikeKeepsValues(es: seq<Entry>, group: seq<int>, v: int)
    ensures ValuesOf(Strike(es, group, v)) == ValuesOf(es)
    ensures forall q :: 0 <= q < |es| ==> |Strike(es, group, v)[q].possibilities| == |es[q].possibilities|
  {
    var r := Strike(es, group, v);
    assert forall q :: 0 <= q < |es| ==> r[q].value == es[q].value;
  }

  /**
   * `updateValue(position, v)`, whatever positions its peer loop visits: of all the values on
   * the board only the one at `position` changes, to `v`, and its candidates are emptied.
   */
  lemma UpdateValueValues(es: seq<Entry>, group: seq<int>, position: int, v: int)
    requires 0 <= position < |es|
    ensures var after := Strike(es, group, v)[position := SetValue(es[position], v)];
      && ValuesOf(after) == ValuesOf(es)[position := v]
      && after[position].possibilities == []
  {
    StrikeKeepsValues(es, group, v);
    var struck := Strike(es, group, v);
    var after := struck[position := SetValue(es[position], v)];
    assert ValuesOf(after) == ValuesOf(struck)[position := v];
  }

  /** `vals` is `original` with the first `j` values of `line` written from position `start` on. */
  ghost predicate LineWritten(vals: seq<int>, original: seq<int>, start: int, line: seq<int>, j: int)
    requires |vals| == |original| == 81 && 0 <= start && 0 <= j <= |line|
  {
    forall p :: 0 <= p < 81 ==> vals[p] == if start <= p < start + j then line[p - start] else original[p]
  }

  lemma LineWrittenStep(before: seq<int>, original: seq<int>, start: int, line: seq<int>, j: int)
    requires |before| == |original| == 81 && 0 <= start && 0 <= j < |line| && start + |line| <= 81
    requires LineWritten(before, original, start, line, j)
    ensures LineWritten(before[start + j := line[j]], original, start, line, j + 1)
  {
  }

  class Grid {
    const entries: array<Entry>

    /** The class invariant of a grid built by `Base`. */
    ghost predicate Valid()
      reads entries
    {
      entries.Length == 81 && Indexed(entries[..])
    }

    /** The cell values, in row-major order. */
    function Values(): (vals: seq<int>)
      reads entries
      ensures |vals| == entries.Length
    {
      ValuesOf(entries[..])
    }

    /** `generateBaseGrid()`: 81 blank entries, entry `i` being `newEntry(i, 0)`. */
    constructor Base()
      ensures Valid() && fresh(entries)
      ensures forall p :: 0 <= p < 81 ==> entries[p] == NewEntry(p, 0)
    {
      var a := new Entry[81];
      for i := 0 to 81
        invariant forall p :: 0 <= p < i ==> a[p] == NewEntry(p, 0)
      {
        a[i] := NewEntry(i, 0);
      }
      entries := a;
      forall p | 0 <= p < 81 ensures Placed(a[..][p], p) {
        PositionIndices(p);
      }
    }

    /** `getEntry(position)`: a copy of the entry, which knows its own line, column and square. */
    function GetEntry(position: int): (e: Entry)
      reads entries
      requires Valid() && 0 <= position < 81
      ensures Placed(e, position) && 0 <= e.indexLine < 9 && 0 <= e.indexColumn < 9 && 0 <= e.indexSquare < 9
    {
      PositionIndices(position);
      assert Placed(entries[..][position], position);
      entries[position]
    }

    /** `eGetLine(index)`: the slice of line `index`. */
    function EGetLine(index: int): (es: seq<Entry>)
      reads entries
      requires Valid() && 0 <= index < 9
      ensures es == LineOf(entries[..], index)
    {
      entries[9 * index..9 * index + 9]
    }

    /** `eGetColumn(index)`: the entries whose position is `index` modulo 9; none for an index outside 0..8. */
    method EGetColumn(index: int) returns (es: seq<Entry>)
      requires Valid()
      ensures 0 <= index < 9 ==> es == ColumnOf(entries[..], index)
      ensures !(0 <= index < 9) ==> es == []
    {
      es := [];
      for i := 0 to entries.Length
        invariant 0 <= index < 9 ==> |es| == (i + 8 - index) / 9
        invariant forall k :: 0 <= k < |es| ==> 0 <= index + 9 * k < 81 && es[k] == entries[index + 9 * k]
        invariant !(0 <= index < 9) ==> es == []
      {
        if i % 9 - index == 0 {
          DivMod9(i, |es|, index);
          es := es + [entries[i]];
        }
      }
    }

    /** `eGetSquare(index)`: the three runs of three entries of square `index`. */
    method EGetSquare(index: int) returns (es: seq<Entry>)
      requires Valid() && 0 <= index < 9
      ensures es == SquareOf(entries[..], index)
    {
      var offset := 0;
      if index > 2 && index <= 5 {
        offset := 27 + (index - 3) * 3;
      } else if index > 5 {
        offset := 54 + (index - 6) * 3;
      } else {
        offset := index * 3;
      }
      var selected := entries[offset..offset + 3] + entries[offset + 9..offset + 12] + entries[offset + 18..offset + 21];
      SquareSlices(entries[..], index);
      es := [];
      for k := 0 to |selected|
        invariant es == selected[..k]
      {
        es := es + [selected[k]];
      }
    }

    /** `getLine(index)`: the values of line `index`. */
    method GetLine(index: int) returns (values: seq<int>)
      requires Valid() && 0 <= index < 9
      ensures values == LineOf(Values(), index)
    {
      values := [];
      var line := entries[9 * index..9 * index + 9];
      for k := 0 to 9
        invariant |values| == k && forall j :: 0 <= j < k ==> values[j] == entries[9 * index + j].value
      {
        values := values + [line[k].value];
      }
    }

    /** `getColumn(index)`: the values at `index, index+9, ..., index+72`; none for an index outside 0..8. */
    method GetColumn(index: int) returns (values: seq<int>)
      requires Valid()
      ensures 0 <= index < 9 ==> values == ColumnOf(Values(), index)
      ensures !(0 <= index < 9) ==> values == []
    {
      values := [];
      for i := 0 to entries.Length
        invariant 0 <= index < 9 ==> |values| == (i + 8 - index) / 9
        invariant forall k :: 0 <= k < |values| ==> 0 <= index + 9 * k < 81 && values[k] == entries[index + 9 * k].value
        invariant !(0 <= index < 9) ==> values == []
      {
        if i % 9 - index == 0 {
          DivMod9(i, |values|, index);
          values := values + [entries[i].value];
        }
      }
    }

    /** `getSquare(index)`: the values of the entries `eGetSquare(index)` selects. */
    method GetSquare(index: int) returns (values: seq<int>)
      requires Valid() && 0 <= index < 9
      ensures values == SquareOf(Values(), index)
    {
      var selected := EGetSquare(index);
      values := [];
      for k := 0 to |selected|
        invariant |values| == k && forall j :: 0 <= j < k ==> values[j] == selected[j].value
      {
        values := values + [selected[k].value];
      }
    }

    /**
     * `(*grid).checkCorrectness()`: for i = 0..8, column i, line i, then square i, each
     * through the single-group validator; the first error is returned.
     */
    method CheckCorrectness() returns (err: Option<GroupError>)
      requires Valid()
      ensures err == CheckBoard(Values())
    {
      ghost var vals := Values();
      ghost var gs := Groups(vals);
      for i := 0 to 9
        invariant FirstErrorFrom(gs, 3 * i) == CheckBoard(vals)
      {
        GroupsRound(vals, i);
        var column := GetColumn(i);
        err := Helpers.CheckCorrectness(column);
        assert FirstErrorFrom(gs, 3 * i) == if err.Some? then err else FirstErrorFrom(gs, 3 * i + 1);
        if err.Some? {
          return;
        }
        var line := GetLine(i);
        err := Helpers.CheckCorrectness(line);
        assert FirstErrorFrom(gs, 3 * i + 1) == if err.Some? then err else FirstErrorFrom(gs, 3 * i + 2);
        if err.Some? {
          return;
        }
        var square := GetSquare(i);
        err := Helpers.CheckCorrectness(square);
        assert FirstErrorFrom(gs, 3 * i + 2) == if err.Some? then err else FirstErrorFrom(gs, 3 * i + 3);
        if err.Some? {
          return;
        }
      }
      return None;
    }

    /**
     * `removePossibility(entries, possibility)` over the entries at `group`. The loop variable
     * is a copy of each entry, so the copy's own update is lost at the end of the iteration;
     * what remains is `removeValue`'s write into the candidate array the copy shares with the
     * grid's entry.
     */
    method RemovePossibility(group: seq<int>, possibility: int)
      requires Valid() && InBoard(group)
      modifies entries
      ensures Valid()
      ensures entries[..] == Strike(old(entries[..]), group, possibility)
    {
      for k := 0 to |group|
        invariant entries[..] == Strike(old(entries[..]), group[..k], possibility)
      {
        var q := group[k];
        assert group[..k + 1] == group[..k] + [q];
        StrikeSnoc(old(entries[..]), group[..k], q, possibility);
        ghost var prior := entries[..];
        entries[q] := entries[q].(possibilities := Overwritten(entries[q].possibilities, possibility));
        assert entries[..] == prior[q := entries[q]];
      }
      assert group[..|group|] == group;
      StrikeIndexed(old(entries[..]), group, possibility);
    }

    /** The three `removePossibility` calls of `updateValue(position, value)`. */
    method RemoveFromPeers(position: int, value: int)
      requires Valid() && 0 <= position < 81
      modifies entries
      ensures Valid()
      ensures entries[..] == Strike(old(entries[..]), Peers(position), value)
    {
      var e := GetEntry(position);
      ghost var before := entries[..];
      var line, column, square := LineOfElement(e), ColumnOfElement(e), SquareOfElement(e);
      assert line + column + square == Peers(position);
      RemovePossibility(line, value);
      RemovePossibility(column, value);
      StrikeConcat(before, line, column, value);
      RemovePossibility(square, value);
      StrikeConcat(before, line + column, square, value);
    }

    /**
     * `updateValue(position, value)`: the entry at `position` is set to `value` (with no
     * candidates left, even for 0). Every other entry keeps its value and indices: its
     * candidate array is only overwritten, once for each group of `position` containing it.
     */
    method UpdateValue(position: int, value: int)
      requires Valid() && 0 <= position < 81
      modifies entries
      ensures Valid()
      ensures entries[..] == Strike(old(entries[..]), Peers(position), value)[position := SetValue(old(entries[position]), value)]
      ensures Values() == old(Values())[position := value]
    {
      var e := GetEntry(position);
      e := SetValue(e, value);
      RemoveFromPeers(position, value);
      ghost var struck := entries[..];
      entries[position] := e;
      assert entries[..] == struck[position := e];
      UpdateIndexed(struck, position, e);
      UpdateValueValues(old(entries[..]), Peers(position), position, value);
    }

    /**
     * The inner loop of `generateGrid` for one line starting at position `start`:
     * `updateValue(start + j, line[j])` for each column `j`. The line's positions take its
     * values and every other position keeps its value.
     */
    method FillLine(start: int, line: seq<int>, ghost w: seq<int>)
      requires Valid() && 0 <= start && start + |line| <= 81 && |w| == start && FilledUpTo(entries[..], w)
      modifies entries
      ensures Valid() && FilledUpTo(entries[..], w + line)
      ensures forall p :: 0 <= p < 81 ==>
        Values()[p] == if start <= p < start + |line| then line[p - start] else old(Values())[p]
    {
      ghost var original := Values();
      assert line[..0] == [] && w + [] == w;
      for j := 0 to |line|
        invariant Valid() && FilledUpTo(entries[..], w + line[..j])
        invariant LineWritten(Values(), original, start, line, j)
      {
        PrefixStep(line, j);
        ghost var done := w + line[..j];
        assert done + [line[j]] == w + line[..j + 1];
        FillStep(entries[..], done, line[j]);
        ghost var before := Values();
        UpdateValue(start + j, line[j]);
        LineWrittenStep(before, original, start, line, j);
      }
      assert line[..|line|] == line;
    }
  }

  // ---------------------------------------------------------------------------
  // Building a grid from input

  /** The entries of a grid whose cells hold `vals`, each entry set with `setValue`. */
  function Filled(vals: seq<int>): (es: seq<Entry>)
    requires |vals| == 81
    ensures Indexed(es) && ValuesOf(es) == vals
  {
    var es := seq(81, p requires 0 <= p < 81 => SetValue(NewEntry(p, 0), vals[p]));
    assert forall p :: 0 <= p < 81 ==> Placed(es[p], p);
    es
  }

  /** The first `|w|` entries have been set, in order, to the values `w` (and so have no candidates left). */
  ghost predicate FilledUpTo(es: seq<Entry>, w: seq<int>) {
    |w| <= |es| && forall p :: 0 <= p < |w| ==> es[p].value == w[p] && es[p].possibilities == []
  }

  /**
   * `updateValue(|w|, v)` after positions `0..|w|-1` were set: the earlier entries are
   * untouched (their candidate arrays are empty), and entry `|w|` becomes `setValue(v)`.
   */
  lemma FillStep(es: seq<Entry>, w: seq<int>, v: int)
    requires |w| < 81 && |es| == 81 && FilledUpTo(es, w)
    ensures FilledUpTo(Strike(es, Peers(|w|), v)[|w| := SetValue(es[|w|], v)], w + [v])
  {
    StrikeKeepsFilled(es, w, Peers(|w|), v);
    SetKeepsFilled(Strike(es, Peers(|w|), v), w, v);
  }

  /** Striking a value off candidate arrays leaves the entries already set as they are. */
  lemma StrikeKeepsFilled(es: seq<Entry>, w: seq<int>, group: seq<int>, v: int)
    requires FilledUpTo(es, w)
    ensures FilledUpTo(Strike(es, group, v), w)
  {
    var struck := Strike(es, group, v);
    forall p | 0 <= p < |w| ensures struck[p].value == w[p] && struck[p].possibilities == [] {
      assert |struck[p].possibilities| == |es[p].possibilities| == 0;
    }
  }

  /** Setting the next entry extends the prefix of entries already set. */
  lemma SetKeepsFilled(es: seq<Entry>, w: seq<int>, v: int)
    requires |w| < |es| && FilledUpTo(es, w)
    ensures FilledUpTo(es[|w| := SetValue(es[|w|], v)], w + [v])
  {
  }

  lemma FilledAll(es: seq<Entry>, w: seq<int>)
    requires Indexed(es) && |w| == 81 && FilledUpTo(es, w)
    ensures es == Filled(w)
  {
    forall p | 0 <= p < 81 ensures es[p] == Filled(w)[p] {
      assert Placed(es[p], p);
    }
  }

  /** Nine lines of nine values each. */
  predicate Shaped(input: seq<seq<int>>) {
    |input| == 9 && forall i :: 0 <= i < 9 ==> |input[i]| == 9
  }

  /** The lines one after the other. */
  function Concat(rows: seq<seq<int>>): seq<int>
    decreases |rows|
  {
    if rows == [] then [] else Concat(rows[..|rows| - 1]) + rows[|rows| - 1]
  }

  lemma {:induction false} ConcatAt(rows: seq<seq<int>>, i: int, j: int)
    requires forall k :: 0 <= k < |rows| ==> |rows[k]| == 9
    ensures |Concat(rows)| == 9 * |rows|
    ensures 0 <= i < |rows| && 0 <= j < 9 ==> Concat(rows)[9 * i + j] == rows[i][j]
    decreases |rows|
  {
    if rows != [] {
      var front := rows[..|rows| - 1];
      ConcatAt(front, i, j);
      assert forall k :: 0 <= k < |front| ==> front[k] == rows[k];
    }
  }

  /** The values of a shaped input in row-major order: line `i`, column `j` lands at `9*i + j`. */
  function Flatten(input: seq<seq<int>>): (vals: seq<int>)
    requires Shaped(input)
    ensures |vals| == 81
  {
    ConcatAt(input, 0, 0);
    Concat(input)
  }

  lemma FlattenAt(input: seq<seq<int>>, i: int, j: int)
    requires Shaped(input) && 0 <= i < 9 && 0 <= j < 9
    ensures Flatten(input)[9 * i + j] == input[i][j]
  {
    ConcatAt(input, i, j);
  }

  /** `getLine(i)` of the grid built from `input` is `input[i]`, and `getColumn(j)` reads down column `j`. */
  lemma FlattenLines(input: seq<seq<int>>)
    requires Shaped(input)
    ensures forall i :: 0 <= i < 9 ==> LineOf(Flatten(input), i) == input[i]
    ensures forall j, k :: 0 <= j < 9 && 0 <= k < 9 ==> ColumnOf(Flatten(input), j)[k] == input[k][j]
  {
    forall i | 0 <= i < 9 ensures LineOf(Flatten(input), i) == input[i] {
      forall k | 0 <= k < 9 ensures LineOf(Flatten(input), i)[k] == input[i][k] {
        FlattenAt(input, i, k);
      }
    }
    forall j, k | 0 <= j < 9 && 0 <= k < 9 ensures ColumnOf(Flatten(input), j)[k] == input[k][j] {
      FlattenAt(input, k, j);
    }
  }

  /** The first line from `i` on that does not have nine columns, as `generateGrid` reports it. */
  function RowsFrom(input: seq<seq<int>>, i: nat): (r: Option<GridError>)
    requires i <= |input|
    ensures r == None <==> forall k :: i <= k < |input| ==> |input[k]| == 9
    ensures r.Some? ==>
      && r.value.ColumnCount? && i <= r.value.line < |input|
      && |input[r.value.line]| == r.value.got != 9
      && forall k :: i <= k < r.value.line ==> |input[k]| == 9
    decreases |input| - i
  {
    if i == |input| then None
    else if |input[i]| != 9 then Some(ColumnCount(i, |input[i]|))
    else RowsFrom(input, i + 1)
  }

  /** What `generateGrid(input)` returns: the values of the new grid, or its error. */
  function GridOutcome(input: seq<seq<int>>): Result<seq<int>, GridError> {
    if |input| != 9 then Failure(LineCount(|input|))
    else if RowsFrom(input, 0).Some? then Failure(RowsFrom(input, 0).value)
    else if CheckBoard(Flatten(input)).Some? then Failure(Rule(CheckBoard(Flatten(input)).value))
    else Success(Flatten(input))
  }

  /** `generateGrid` succeeds exactly on nine lines of nine values that obey the Sudoku law. */
  lemma GridOutcomeSuccess(input: seq<seq<int>>)
    ensures GridOutcome(input).Success? <==> Shaped(input) && Consistent(Flatten(input))
    ensures GridOutcome(input).Success? ==> GridOutcome(input).value == Flatten(input)
  {
    if Shaped(input) {
      CheckBoardOkIff(Flatten(input));
    }
  }

  /** Shape errors come first: the line count, then the first line of the wrong length. */
  lemma GridOutcomeShape(input: seq<seq<int>>)
    ensures |input| != 9 ==> GridOutcome(input) == Failure(LineCount(|input|))
    ensures |input| == 9 && !Shaped(input) ==> exists i ::
      && 0 <= i < 9 && |input[i]| != 9
      && (forall k :: 0 <= k < i ==> |input[k]| == 9)
      && GridOutcome(input) == Failure(ColumnCount(i, |input[i]|))
  {
    if |input| == 9 && !Shaped(input) {
      var e := RowsFrom(input, 0).value;
      assert GridOutcome(input) == Failure(ColumnCount(e.line, |input[e.line]|));
    }
  }

  lemma PrefixStep(vals: seq<int>, n: nat)
    requires n < |vals|
    ensures |vals[..n]| == n && vals[..n + 1] == vals[..n] + [vals[n]]
  {
  }

  /**
   * The update loops of `generateGrid`: a blank grid, then `updateValue(9*i + j, input[i][j])`
   * line by line.
   */
  method FillLines(input: seq<seq<int>>) returns (g: Grid)
    requires Shaped(input)
    ensures fresh(g) && fresh(g.entries) && g.Valid() && g.entries[..] == Filled(Flatten(input))
  {
    g := new Grid.Base();
    ghost var w: seq<int> := [];
    for i := 0 to |input|
      invariant g.Valid() && fresh(g) && fresh(g.entries)
      invariant w == Concat(input[..i]) && FilledUpTo(g.entries[..], w)
    {
      ConcatAt(input[..i], 0, 0);
      g.FillLine(i * 9, input[i], w);
      w := w + input[i];
      assert input[..i + 1][..i] == input[..i];
    }
    assert input[..9] == input;
    assert w == Flatten(input);
    FilledAll(g.entries[..], w);
  }

  /** `generateGrid(input)`. */
  method GenerateGrid(input: seq<seq<int>>) returns (r: Result<Grid, GridError>)
    ensures r.Failure? ==> GridOutcome(input) == Failure(r.error)
    ensures r.Success? ==>
      && GridOutcome(input).Success? && fresh(r.value) && fresh(r.value.entries)
      && r.value.Valid() && r.value.entries[..] == Filled(GridOutcome(input).value)
  {
    if |input| != 9 {
      return Failure(LineCount(|input|));
    }
    for i := 0 to |input|
      invariant RowsFrom(input, 0) == RowsFrom(input, i)
    {
      if |input[i]| != 9 {
        return Failure(ColumnCount(i, |input[i]|));
      }
    }
    assert Shaped(input);
    var g := FillLines(input);
    var err := g.CheckCorrectness();
    if err.Some? {
      return Failure(Rule(err.value));
    }
    return Success(g);
  }

  /** One token as `generateGridFromString` reads it: `strconv.Atoi(strings.TrimSpace(t))`. */
  function ReadToken(t: string): Option<int> {
    Strings.Atoi(Strings.TrimSpace(t))
  }

  /** Each token as `ReadToken` reads it. */
  function Readings(tokens: seq<string>): (rs: seq<Option<int>>)
    ensures |rs| == |tokens| && forall k :: 0 <= k < |tokens| ==> rs[k] == ReadToken(tokens[k])
  {
    seq(|tokens|, k requires 0 <= k < |tokens| => ReadToken(tokens[k]))
  }

  /** The values of `rs[i..]` when every one was read, or else the index of the first that was not. */
  function Collect(rs: seq<Option<int>>, i: nat): (r: Result<seq<int>, nat>)
    requires i <= |rs|
    ensures r.Success? ==>
      && |r.value| == |rs| - i
      && forall k :: 0 <= k < |r.value| ==> rs[i + k] == Some(r.value[k])
    ensures r.Failure? ==>
      && i <= r.error < |rs| && rs[r.error] == None
      && forall k :: i <= k < r.error ==> rs[k].Some?
    decreases |rs| - i
  {
    if i == |rs| then Success([])
    else match rs[i]
      case None => Failure(i)
      case Some(v) =>
        match Collect(rs, i + 1)
        case Failure(j) => Failure(j)
        case Success(vs) => Success([v] + vs)
  }

  lemma CollectFirstMissing(rs: seq<Option<int>>, i: nat)
    requires i < |rs| && rs[i] == None && forall k :: 0 <= k < i ==> rs[k].Some?
    ensures Collect(rs, 0) == Failure(i)
  {
  }

  lemma ReadingsStep(rs: seq<Option<int>>, w: seq<int>, v: int)
    requires |w| < |rs| && rs[|w|] == Some(v) && forall k :: 0 <= k < |w| ==> rs[k] == Some(w[k])
    ensures forall k :: 0 <= k < |w| + 1 ==> rs[k] == Some((w + [v])[k])
  {
  }

  lemma CollectAll(rs: seq<Option<int>>, w: seq<int>)
    requires |rs| == |w| && forall k :: 0 <= k < |w| ==> rs[k] == Some(w[k])
    ensures Collect(rs, 0) == Success(w)
  {
    var r := Collect(rs, 0);
    assert r.value == w;
  }

  /** What `generateGridFromString(input)` returns: the values of the new grid, or its error. */
  function StringOutcome(input: string): Result<seq<int>, GridError> {
    if ',' !in input then Failure(MissingSeparator)
    else
      var tokens := Strings.Split(input, ',');
      if |tokens| != 81 then Failure(TokenCount(tokens))
      else match Collect(Readings(tokens), 0)
        case Failure(i) => Failure(BadToken(i, tokens[i]))
        case Success(vals) =>
          if CheckBoard(vals).Some? then Failure(InputGridWrong(CheckBoard(vals).value)) else Success(vals)
  }

  /** `generateGridFromString(input)`. */
  method GenerateGridFromString(input: string) returns (r: Result<Grid, GridError>)
    ensures r.Failure? ==> StringOutcome(input) == Failure(r.error)
    ensures r.Success? ==>
      && StringOutcome(input).Success? && fresh(r.value) && fresh(r.value.entries)
      && r.value.Valid() && r.value.entries[..] == Filled(StringOutcome(input).value)
  {
    if ',' !in input {
      return Failure(MissingSeparator);
    }
    var tokens := Strings.Split(input, ',');
    if |tokens| != 81 {
      return Failure(TokenCount(tokens));
    }
    var g := new Grid.Base();
    ghost var rs := Readings(tokens);
    ghost var w: seq<int> := [];
    for i := 0 to |tokens|
      invariant g.Valid() && fresh(g) && fresh(g.entries)
      invariant |w| == i && FilledUpTo(g.entries[..], w)
      invariant forall k :: 0 <= k < i ==> rs[k] == Some(w[k])
    {
      var value := ReadToken(tokens[i]);
      if value.None? {
        CollectFirstMissing(rs, i);
        return Failure(BadToken(i, tokens[i]));
      }
      assert rs[i] == value;
      ReadingsStep(rs, w, value.value);
      FillStep(g.entries[..], w, value.value);
      g.UpdateValue(i, value.value);
      w := w + [value.value];
    }
    CollectAll(rs, w);
    FilledAll(g.entries[..], w);
    var err := g.CheckCorrectness();
    if err.Some? {
      return Failure(InputGridWrong(err.value));
    }
    return Success(g);
  }

  /** The tokens of a grid of 81 values, each as `strconv.Itoa` writes it. */
  function Tokens(vals: seq<int>): (tokens: seq<string>)
    requires |vals| == 81
    ensures |tokens| == 81 && forall p :: 0 <= p < 81 ==> tokens[p] == Strings.Itoa(vals[p])
  {
    seq(81, p requires 0 <= p < 81 => Strings.Itoa(vals[p]))
  }

  /** The comma-separated text of 81 values. */
  function Render(vals: seq<int>): (s: string)
    requires |vals| == 81
  {
    Strings.Join(Tokens(vals), ',')
  }

  /** Every token of a 64-bit grid is free of commas and reads back as its value. */
  lemma TokensRead(vals: seq<int>)
    requires |vals| == 81 && forall p :: 0 <= p < 81 ==> Strings.MinInt64 <= vals[p] <= Strings.MaxInt64
    ensures forall k :: 0 <= k < 81 ==> ',' !in Tokens(vals)[k] && ReadToken(Tokens(vals)[k]) == Some(vals[k])
  {
    forall k | 0 <= k < 81 ensures ',' !in Tokens(vals)[k] && ReadToken(Tokens(vals)[k]) == Some(vals[k]) {
      Strings.ItoaChars(vals[k]);
      Strings.AtoiItoa(vals[k]);
    }
  }

  /** The rendered text holds a comma and splits back into its tokens. */
  lemma RenderSplits(vals: seq<int>)
    requires |vals| == 81 && forall p :: 0 <= p < 81 ==> Strings.MinInt64 <= vals[p] <= Strings.MaxInt64
    ensures ',' in Render(vals) && Strings.Split(Render(vals), ',') == Tokens(vals)
  {
    TokensRead(vals);
    Strings.SplitJoin(Tokens(vals), ',');
    Strings.JoinHasSeparator(Tokens(vals), ',');
  }

  /** `generateGridFromString` reads back every 64-bit grid written as comma-separated numbers. */
  lemma StringRoundTrip(vals: seq<int>)
    requires |vals| == 81 && forall p :: 0 <= p < 81 ==> Strings.MinInt64 <= vals[p] <= Strings.MaxInt64
    ensures StringOutcome(Render(vals)) ==
      if CheckBoard(vals).Some? then Failure(InputGridWrong(CheckBoard(vals).value)) else Success(vals)
  {
    RenderSplits(vals);
    TokensRead(vals);
    CollectAll(Readings(Tokens(vals)), vals);
  }
}
