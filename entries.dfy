/**
 * One cell of the grid, sudoku-solver/entry.go. Go keeps entries by value in the
 * grid's slice, so the pointer-receiver methods `setValue` and `removePossibility`
 * are modelled as functions from the old struct to the new one.
 */
module Entries {
  import opened Helpers

  datatype Entry = Entry(
    value: int,
    possibilities: seq<int>,
    indexLine: int,
    indexColumn: int,
    indexSquare: int)

  /** The candidate list every blank entry starts with. */
  const AllDigits: seq<int> := [1, 2, 3, 4, 5, 6, 7, 8, 9]

  /** Go's `/`: integer division truncating toward zero (here only by a positive divisor). */
  function Quot(a: int, b: int): int
    requires b > 0
  {
    if a >= 0 then a / b else -((-a) / b)
  }

  /** Go's `%`: the remainder takes the sign of the dividend. */
  function Rem(a: int, b: int): int
    requires b > 0
  {
    if a >= 0 then a % b else -((-a) % b)
  }

  /** Row, column and square of a linear position, as `newEntry` computes them. */
  function LineIndex(position: int): int { Quot(position, 9) }
  function ColumnIndex(position: int): int { Rem(position, 9) }
  function SquareIndex(position: int): int { Quot(position, 27) * 3 + Rem(Quot(position, 3), 3) }

  /**
   * On the board, the three indices are those of the row, the column and the 3x3 square
   * (numbered row-major) that contain the position.
   */
  lemma PositionIndices(p: int)
    requires 0 <= p < 81
    ensures LineIndex(p) == p / 9 && ColumnIndex(p) == p % 9
    ensures 0 <= LineIndex(p) < 9 && 0 <= ColumnIndex(p) < 9 && 0 <= SquareIndex(p) < 9
    ensures SquareIndex(p) == (LineIndex(p) / 3) * 3 + ColumnIndex(p) / 3
  {
    var r, c := p / 9, p % 9;
    assert p == 9 * r + c;
    assert p / 27 == r / 3;
    assert p / 3 == 3 * r + c / 3;
    assert (p / 3) % 3 == c / 3;
  }

  /** `newEntry(position, value)`. */
  function NewEntry(position: int, value: int): (e: Entry)
    ensures e.indexLine == LineIndex(position) && e.indexColumn == ColumnIndex(position)
    ensures e.indexSquare == SquareIndex(position)
    ensures e.value == value
    ensures e.possibilities == if value == 0 then AllDigits else []
  {
    var blank := Entry(0, AllDigits, LineIndex(position), ColumnIndex(position), SquareIndex(position));
    if value != 0 then blank.(value := value, possibilities := []) else blank
  }

  /** `setValue(value)`: the value is forced and the candidates emptied. */
  function SetValue(e: Entry, value: int): (r: Entry)
    ensures r.value == value && r.possibilities == []
    ensures r.indexLine == e.indexLine && r.indexColumn == e.indexColumn && r.indexSquare == e.indexSquare
  {
    e.(value := value, possibilities := [])
  }

  /** A clue entry is a blank entry whose value was then set. */
  lemma NewEntryIsSetValue(position: int, value: int)
    requires value != 0
    ensures NewEntry(position, value) == SetValue(NewEntry(position, 0), value)
  {
  }

  /**
   * `removePossibility(p)`: the candidate list is passed through `removeValue`, and a
   * list left with exactly one candidate resolves the entry to it.
   */
  function RemovePossibility(e: Entry, p: int): (r: Entry)
    ensures r.indexLine == e.indexLine && r.indexColumn == e.indexColumn && r.indexSquare == e.indexSquare
    ensures |r.possibilities| != 1
    ensures r.value == e.value || r.value in e.possibilities
    ensures e.possibilities == [] ==> r == e
  {
    var rest := Removed(e.possibilities, p);
    if |rest| == 1 then
      assert rest[0] in e.possibilities by { RemovedSubset(e.possibilities, p, rest[0]); }
      e.(value := rest[0], possibilities := [])
    else
      e.(possibilities := rest)
  }

  lemma RemovedSubset(s: seq<int>, v: int, x: int)
    requires x in Removed(s, v)
    ensures x in s
  {
    if v in s {
      RemovedMultiset(s, v);
      assert x in multiset(Removed(s, v));
    }
  }

  /**
   * With distinct candidates: when exactly one candidate survives the removal of `p`, the
   * entry resolves to that survivor and its list empties; otherwise the value is unchanged
   * and the candidates are the old ones minus `p`, still distinct.
   */
  lemma RemovePossibilityEffect(e: Entry, p: int)
    requires Distinct(e.possibilities)
    ensures var survivors := |e.possibilities| - (if p in e.possibilities then 1 else 0);
            var r := RemovePossibility(e, p);
            if survivors == 1 then
              && r.possibilities == []
              && r.value in e.possibilities && r.value != p
              && (forall x :: x in e.possibilities && x != p ==> x == r.value)
            else
              && r.value == e.value
              && Distinct(r.possibilities)
              && (forall x :: x in r.possibilities <==> x in e.possibilities && x != p)
  {
    var rest := Removed(e.possibilities, p);
    RemovedDistinct(e.possibilities, p);
    if |rest| == 1 {
      assert rest[0] != p && rest[0] in e.possibilities;
    }
  }

  /**
   * The invariant every entry operation keeps: distinct candidates within 1..9, never exactly
   * one of them, and an entry that still has candidates is unresolved. It still allows an
   * unresolved entry without candidates, which `setValue(0)` produces.
   */
  predicate WellFormed(e: Entry) {
    && Distinct(e.possibilities)
    && (forall i :: 0 <= i < |e.possibilities| ==> 1 <= e.possibilities[i] <= 9)
    && |e.possibilities| != 1
    && (e.possibilities != [] ==> e.value == 0)
  }

  lemma NewEntryWellFormed(position: int, value: int)
    ensures WellFormed(NewEntry(position, value))
  {
  }

  lemma SetValueWellFormed(e: Entry, value: int)
    ensures WellFormed(SetValue(e, value))
  {
  }

  /**
   * `removePossibility` keeps an entry well formed, so an unresolved entry with candidates
   * always keeps at least two, and any entry it resolves gets a digit in 1..9.
   */
  lemma RemovePossibilityWellFormed(e: Entry, p: int)
    requires WellFormed(e)
    ensures WellFormed(RemovePossibility(e, p))
    ensures RemovePossibility(e, p).value != e.value ==> 1 <= RemovePossibility(e, p).value <= 9
  {
    RemovePossibilityEffect(e, p);
    var r := RemovePossibility(e, p);
    forall i | 0 <= i < |r.possibilities| ensures 1 <= r.possibilities[i] <= 9 {
      assert r.possibilities[i] in e.possibilities;
    }
  }

  /**
   * The states reachable from `newEntry` by `removePossibility` alone: well formed, and an
   * unresolved entry keeps at least two candidates.
   */
  predicate Live(e: Entry) {
    WellFormed(e) && (e.value == 0 ==> |e.possibilities| >= 2)
  }

  lemma NewEntryLive(position: int, value: int)
    ensures Live(NewEntry(position, value))
  {
  }

  /** `removePossibility` keeps an entry live: an unresolved entry never runs out of candidates. */
  lemma RemovePossibilityLive(e: Entry, p: int)
    requires Live(e)
    ensures Live(RemovePossibility(e, p))
  {
    RemovePossibilityWellFormed(e, p);
    RemovePossibilityEffect(e, p);
  }

  /** `setValue` with a digit keeps an entry live; `setValue(0)` is the one operation that does not. */
  lemma SetValueLive(e: Entry, value: int)
    ensures value != 0 ==> Live(SetValue(e, value))
    ensures value == 0 ==> !Live(SetValue(e, value))
  {
  }
}
