/**
 * The single-blank line filler of sudoku-solver/solver.go: `resolveLine` strikes the clues of a
 * line off a fresh copy of `possibleValues` and, when exactly one cell is blank, writes the first
 * digit left into it. Its own `removeValue` moves the last element into the slot it frees and
 * returns `nil` when the value is absent.
 */
module LineFiller {
  import opened Helpers

  /** `possibleValues`: the digits a cell may take. Being a `const`, it cannot be changed. */
  const PossibleValues: seq<int> := [1, 2, 3, 4, 5, 6, 7, 8, 9]

  /** The slice `removeValue(s, v)` returns: the first `v` replaced by the last element, and the last slot dropped; `nil` when `v` is absent. */
  function SwapRemoved(s: seq<int>, v: int): (r: seq<int>)
    ensures v in s ==> |r| == |s| - 1
    ensures v !in s ==> r == []
  {
    if v in s then s[IndexOf(s, v) := s[|s| - 1]][..|s| - 1] else []
  }

  /** Removing a value that occurs takes exactly one occurrence of it away. */
  lemma SwapRemovedMultiset(s: seq<int>, v: int)
    requires v in s
    ensures multiset(SwapRemoved(s, v)) == multiset(s) - multiset{v}
  {
    var i, last := IndexOf(s, v), |s| - 1;
    var t := s[i := s[last]];
    MultisetUpdate(s, i, s[last]);
    assert SwapRemoved(s, v) == t[..last];
    assert t == t[..last] + [t[last]];
    assert t[last] == s[last];
    assert multiset(t) == multiset(t[..last]) + multiset{s[last]};
    assert multiset(t) == multiset(s) - multiset{v} + multiset{s[last]};
    forall y ensures multiset(t[..last])[y] == (multiset(s) - multiset{v})[y] {
      assert multiset(t)[y] == multiset(t[..last])[y] + multiset{s[last]}[y];
      assert multiset(t)[y] == (multiset(s) - multiset{v})[y] + multiset{s[last]}[y];
    }
  }

  /**
   * `removeValue(slice, value)` on the slice `a[..n]`: the first occurrence of `value` is
   * overwritten in place by the last element and the slice shrinks by one; when `value` is
   * absent nothing is written and the result is `nil`, a slice of length 0.
   */
  method RemoveValue(a: array<int>, n: nat, value: int) returns (m: nat)
    requires n <= a.Length
    modifies a
    ensures m == (if value in old(a[..n]) then n - 1 else 0)
    ensures a[..m] == SwapRemoved(old(a[..n]), value)
    ensures value !in old(a[..n]) ==> a[..] == old(a[..])
    ensures value in old(a[..n]) ==> a[..] == old(a[..])[IndexOf(old(a[..n]), value) := old(a[n - 1])]
    ensures value in old(a[..n]) ==> a[n - 1] == old(a[n - 1])
    ensures a[n..] == old(a[n..])
  {
    for i := 0 to n
      invariant value !in a[..i] && a[..] == old(a[..])
    {
      if a[i] == value {
        assert a[..n][i] == value && a[..n][..i] == a[..i];
        IndexOfUnique(a[..n], value, i);
        a[i] := a[n - 1];
        assert a[..n - 1] == old(a[..n])[i := old(a[n - 1])][..n - 1];
        return n - 1;
      }
    }
    assert a[..n] == a[..][..n];
    return 0;
  }

  // ---------------------------------------------------------------------------
  // What the loop of resolveLine computes over the prefix line[..i]

  /** `possible` after the loop has seen `s`: every non-zero value is struck off `possibleValues` in turn. */
  function Remaining(s: seq<int>): (r: seq<int>)
    ensures |r| <= 9
  {
    if s == [] then PossibleValues
    else
      var p := Remaining(s[..|s| - 1]);
      if s[|s| - 1] == 0 then p else SwapRemoved(p, s[|s| - 1])
  }

  /** `index` after the loop has seen `s`: the position of the last zero, or 0 when there is none. */
  function LastZero(s: seq<int>): (k: nat)
    ensures 0 in s ==> k < |s| && s[k] == 0 && forall j :: k < j < |s| ==> s[j] != 0
    ensures 0 !in s ==> k == 0
  {
    if s == [] then 0
    else if s[|s| - 1] == 0 then |s| - 1
    else
      assert forall x :: x in s <==> x in s[..|s| - 1] || x == s[|s| - 1] by {
        assert s == s[..|s| - 1] + [s[|s| - 1]];
      }
      LastZero(s[..|s| - 1])
  }

  /** The clues of a line: its non-zero values, in order. */
  function NonZeros(s: seq<int>): (r: seq<int>)
    ensures 0 !in r
  {
    if s == [] then []
    else if s[|s| - 1] == 0 then NonZeros(s[..|s| - 1])
    else NonZeros(s[..|s| - 1]) + [s[|s| - 1]]
  }

  /** The clues are digits and none repeats. */
  predicate ValidClues(s: seq<int>) {
    var c := NonZeros(s);
    Distinct(c) && forall k :: 0 <= k < |c| ==> 1 <= c[k] <= 9
  }

  /** `possible[0]` can be read: the line does not have exactly one blank, or some digit is left. */
  predicate Fillable(s: seq<int>) {
    multiset(s)[0] == 1 ==> Remaining(s) != []
  }

  /** The line `resolveLine` leaves: with exactly one blank, the blank gets the first digit left. */
  function Resolved(s: seq<int>): seq<int>
    requires Fillable(s)
  {
    if multiset(s)[0] != 1 then s else s[LastZero(s) := Remaining(s)[0]]
  }

  /** One step of the loop of `resolveLine`: what it keeps after seeing one more cell. */
  lemma LoopStep(t: seq<int>, v: int)
    ensures Remaining(t + [v]) == if v == 0 then Remaining(t) else SwapRemoved(Remaining(t), v)
    ensures multiset(t + [v])[0] == multiset(t)[0] + (if v == 0 then 1 else 0)
    ensures LastZero(t + [v]) == if v == 0 then |t| else LastZero(t)
  {
    assert (t + [v])[..|t|] == t;
  }

  /**
   * `resolveLine(line)`: the line is updated in place and returned. Reading `possible[0]`
   * panics unless the line is `Fillable`.
   */
  method ResolveLine(line: array<int>) returns (r: array<int>)
    requires Fillable(line[..])
    modifies line
    ensures r == line
    ensures line[..] == Resolved(old(line[..]))
  {
    ghost var s := line[..];
    var count, index := 0, 0;
    var possible := new int[9](k => k + 1);
    var n: nat := 9;
    assert possible[..] == PossibleValues;
    for i := 0 to line.Length
      invariant possible.Length == 9 && n <= 9
      invariant possible[..n] == Remaining(s[..i])
      invariant count == multiset(s[..i])[0]
      invariant index == LastZero(s[..i])
      invariant line[..] == s
      modifies possible
    {
      var v := line[i];
      assert s[..i + 1] == s[..i] + [v];
      LoopStep(s[..i], v);
      if v == 0 {
        count := count + 1;
        index := i;
        continue;
      }
      n := RemoveValue(possible, n, v);
    }
    assert s[..line.Length] == s;
    if count == 0 {
      return line;
    }
    if count > 1 {
      return line;
    }
    assert n > 0 && possible[..n][0] == possible[0];
    line[index] := possible[0];
    return line;
  }

  // ---------------------------------------------------------------------------
  // Properties

  /** Clues and blanks: the clues are the line without its zeros. */
  lemma {:induction false} NonZerosCount(s: seq<int>)
    ensures |NonZeros(s)| == |s| - multiset(s)[0]
    ensures forall x :: x != 0 ==> multiset(NonZeros(s))[x] == multiset(s)[x]
  {
    if s != [] {
      var t, x := s[..|s| - 1], s[|s| - 1];
      NonZerosCount(t);
      assert s == t + [x];
      assert multiset(s) == multiset(t) + multiset{x};
      if x != 0 {
        assert multiset(NonZeros(s)) == multiset(NonZeros(t)) + multiset{x};
      }
    }
  }

  lemma PossibleValuesCount(x: int)
    ensures multiset(PossibleValues)[x] == if 1 <= x <= 9 then 1 else 0
  {
    assert x in PossibleValues <==> 1 <= x <= 9;
  }

  /** A clue appended to valid clues keeps them valid exactly when it is a new digit. */
  lemma ValidCluesSnoc(t: seq<int>, x: int)
    requires x != 0
    ensures NonZeros(t + [x]) == NonZeros(t) + [x]
    ensures ValidClues(t + [x]) <==> ValidClues(t) && 1 <= x <= 9 && x !in NonZeros(t)
  {
    assert (t + [x])[..|t|] == t;
    var c := NonZeros(t);
    var d := c + [x];
    assert NonZeros(t + [x]) == d;
    assert forall k :: 0 <= k < |c| ==> d[k] == c[k];
    assert d[|c|] == x;
    assert Distinct(d) <==> Distinct(c) && x !in c by {
      if Distinct(d) {
        forall i, j | 0 <= i < j < |c| ensures c[i] != c[j] {
          assert d[i] != d[j];
        }
        forall k | 0 <= k < |c| ensures c[k] != x {
          assert d[k] != d[|c|];
        }
      }
      if Distinct(c) && x !in c {
        forall i, j | 0 <= i < j < |d| ensures d[i] != d[j] {
          if j == |c| {
            assert d[i] == c[i];
          }
        }
      }
    }
    assert (forall k :: 0 <= k < |d| ==> 1 <= d[k] <= 9)
       <==> (forall k :: 0 <= k < |c| ==> 1 <= c[k] <= 9) && 1 <= x <= 9;
  }

  /** A blank appended changes neither the clues nor the working list. */
  lemma BlankSnoc(t: seq<int>)
    ensures NonZeros(t + [0]) == NonZeros(t) && Remaining(t + [0]) == Remaining(t)
  {
    assert (t + [0])[..|t|] == t;
  }

  /** The working list at the start: every digit once. */
  lemma RemainingEmpty()
    ensures forall x :: multiset(Remaining([]))[x] == if 1 <= x <= 9 then 1 else 0
  {
    assert Remaining([]) == PossibleValues;
    forall x ensures multiset(PossibleValues)[x] == if 1 <= x <= 9 then 1 else 0 {
      PossibleValuesCount(x);
    }
  }

  /** What the working list holds after the clues `t`: the digits they leave, once each, or nothing. */
  ghost predicate RemainingFits(t: seq<int>) {
    && (ValidClues(t) ==> |Remaining(t)| == 9 - |NonZeros(t)|)
    && (ValidClues(t) ==>
      forall y :: multiset(Remaining(t))[y] == (if 1 <= y <= 9 && y !in NonZeros(t) then 1 else 0))
    && (!ValidClues(t) ==> Remaining(t) == [])
  }

  /** Striking a new digit `x` off a list holding the digits not in `c` leaves the digits not in `c + [x]`. */
  lemma StrikeNewDigit(p: seq<int>, c: seq<int>, x: int)
    requires forall y :: multiset(p)[y] == (if 1 <= y <= 9 && y !in c then 1 else 0)
    requires 1 <= x <= 9 && x !in c
    ensures |SwapRemoved(p, x)| == |p| - 1
    ensures forall y :: multiset(SwapRemoved(p, x))[y] == (if 1 <= y <= 9 && y !in c + [x] then 1 else 0)
  {
    assert multiset(p)[x] == 1;
    SwapRemovedMultiset(p, x);
  }

  /** Striking one more clue keeps the working list what it should be. */
  lemma RemainingClueStep(t: seq<int>, x: int)
    requires x != 0 && RemainingFits(t)
    ensures RemainingFits(t + [x])
  {
    var s := t + [x];
    LoopStep(t, x);
    ValidCluesSnoc(t, x);
    var p, c := Remaining(t), NonZeros(t);
    if ValidClues(s) {
      StrikeNewDigit(p, c, x);
    } else if ValidClues(t) {
      assert multiset(p)[x] == 0;
    }
  }

  /**
   * The working list: with valid clues it holds exactly the digits the clues leave, one each;
   * any repeated or out-of-range clue makes `removeValue` return `nil`, and it stays `nil`.
   */
  lemma {:induction false} RemainingContents(s: seq<int>)
    ensures ValidClues(s) ==> |Remaining(s)| == 9 - |NonZeros(s)|
    ensures ValidClues(s) ==>
      forall x :: multiset(Remaining(s))[x] == (if 1 <= x <= 9 && x !in NonZeros(s) then 1 else 0)
    ensures !ValidClues(s) ==> Remaining(s) == []
  {
    if s == [] {
      RemainingEmpty();
    } else {
      var t, x := s[..|s| - 1], s[|s| - 1];
      assert s == t + [x];
      RemainingContents(t);
      if x == 0 {
        BlankSnoc(t);
      } else {
        RemainingClueStep(t, x);
      }
    }
  }

  /**
   * With exactly one blank, `possible[0]` can be read exactly when the clues are distinct digits
   * and the line has at most nine cells.
   */
  lemma FillableIff(s: seq<int>)
    requires multiset(s)[0] == 1
    ensures Fillable(s) <==> ValidClues(s) && |s| <= 9
  {
    RemainingContents(s);
    NonZerosCount(s);
  }

  /** A line without a blank comes back unchanged. */
  lemma NoBlankUnchanged(s: seq<int>)
    requires 0 !in s
    ensures Fillable(s) && Resolved(s) == s
  {
  }

  /** A line with two or more blanks comes back unchanged, whatever its clues. */
  lemma BlanksUnchanged(s: seq<int>)
    requires multiset(s)[0] > 1
    ensures Fillable(s) && Resolved(s) == s
  {
  }

  /** A nine-cell line with one blank and valid clues lacks exactly one digit, the one left in the working list. */
  lemma MissingDigit(s: seq<int>) returns (d: int)
    requires |s| == 9 && multiset(s)[0] == 1 && ValidClues(s)
    ensures Remaining(s) == [d] && 1 <= d <= 9 && d !in s
    ensures forall e :: 1 <= e <= 9 && e !in s ==> e == d
  {
    RemainingContents(s);
    NonZerosCount(s);
    var p := Remaining(s);
    d := p[0];
    assert p == [d];
    assert multiset(p)[d] == 1;
    assert multiset(NonZeros(s))[d] == 0;
    forall e | 1 <= e <= 9 && e !in s ensures e == d {
      assert multiset(NonZeros(s))[e] == 0;
      assert multiset(p)[e] == 1;
    }
  }

  /** With valid clues, the clues and the working list together are `possibleValues`, as multisets. */
  lemma CluesPlusRemaining(s: seq<int>)
    requires ValidClues(s)
    ensures multiset(NonZeros(s)) + multiset(Remaining(s)) == multiset(PossibleValues)
  {
    RemainingContents(s);
    var c := NonZeros(s);
    forall x ensures multiset(c)[x] + multiset(Remaining(s))[x] == multiset(PossibleValues)[x] {
      PossibleValuesCount(x);
      DistinctCount(c, x);
      if x in c {
        var k :| 0 <= k < |c| && c[k] == x;
      }
    }
  }

  /** The clues are the line with its blanks taken out. */
  lemma NonZerosMultiset(s: seq<int>)
    ensures multiset(NonZeros(s)) == multiset(s)[0 := 0]
  {
    NonZerosCount(s);
    forall x ensures multiset(NonZeros(s))[x] == multiset(s)[0 := 0][x] {
      if x == 0 {
        assert x !in NonZeros(s);
      }
    }
  }

  /** Filling the only blank of `s` with `d`: the line becomes its clues plus `d`. */
  lemma FillOnlyBlank(s: seq<int>, k: nat, d: int)
    requires multiset(s)[0] == 1 && k < |s| && s[k] == 0
    ensures multiset(s[k := d]) == multiset(NonZeros(s)) + multiset{d}
  {
    MultisetUpdate(s, k, d);
    NonZerosMultiset(s);
    assert multiset(s) - multiset{0} == multiset(s)[0 := 0];
  }

  /** The clues together with the missing digit are the nine digits, once each. */
  lemma CluesAndMissing(s: seq<int>, k: nat, d: int)
    requires multiset(s)[0] == 1 && ValidClues(s) && k < |s| && s[k] == 0 && Remaining(s) == [d]
    ensures multiset(s[k := d]) == multiset(PossibleValues)
  {
    FillOnlyBlank(s, k, d);
    CluesPlusRemaining(s);
    assert multiset(Remaining(s)) == multiset{d};
  }

  /**
   * A nine-cell line with one blank and eight distinct digit clues: the blank receives the one
   * missing digit, every other cell keeps its value, and the line becomes a permutation of 1..9.
   */
  lemma ResolvedFillsBlank(s: seq<int>)
    requires |s| == 9 && multiset(s)[0] == 1 && ValidClues(s)
    ensures Fillable(s)
    ensures var k, r := LastZero(s), Resolved(s);
      && |r| == 9 && s[k] == 0 && 1 <= r[k] <= 9 && r[k] !in s
      && (forall d :: 1 <= d <= 9 && d !in s ==> d == r[k])
      && (forall j :: 0 <= j < 9 && j != k ==> r[j] == s[j])
      && multiset(r) == multiset(PossibleValues)
  {
    var d := MissingDigit(s);
    var k := LastZero(s);
    assert Resolved(s) == s[k := d];
    CluesAndMissing(s, k, d);
  }

  /** A cell appended keeps the cells fine exactly when it is a blank or a digit not seen before. */
  lemma CellsOkSnoc(t: seq<int>, x: int)
    ensures CellsOk(t + [x]) <==> CellsOk(t) && 0 <= x <= 9 && (x != 0 ==> x !in t)
  {
    var s := t + [x];
    assert forall i :: 0 <= i < |t| ==> s[i] == t[i];
    assert s[|t|] == x;
    if CellsOk(s) {
      forall i, j | 0 <= i < j < |t| && t[i] != 0 ensures t[i] != t[j] {
        assert s[i] != s[j];
      }
      if x != 0 {
        forall i | 0 <= i < |t| ensures t[i] != x {
          assert s[i] != s[|t|];
        }
      }
    }
    if CellsOk(t) && 0 <= x <= 9 && (x != 0 ==> x !in t) {
      forall i, j | 0 <= i < j < |s| && s[i] != 0 ensures s[i] != s[j] {
        if j == |t| {
          assert s[i] == t[i];
        }
      }
    }
  }

  /** A non-zero value is a clue exactly when it is a cell. */
  lemma NonZerosMember(t: seq<int>, x: int)
    requires x != 0
    ensures x in NonZeros(t) <==> x in t
  {
    NonZerosCount(t);
    assert x in NonZeros(t) <==> multiset(NonZeros(t))[x] > 0;
    assert x in t <==> multiset(t)[x] > 0;
  }

  /** The clues are valid exactly when the cells are blanks or digits and no digit repeats. */
  lemma {:induction false} ValidCluesCells(s: seq<int>)
    ensures ValidClues(s) <==> CellsOk(s)
  {
    if s != [] {
      var t, x := s[..|s| - 1], s[|s| - 1];
      assert s == t + [x];
      ValidCluesCells(t);
      CellsOkSnoc(t, x);
      if x == 0 {
        BlankSnoc(t);
      } else {
        ValidCluesSnoc(t, x);
        NonZerosMember(t, x);
      }
    }
  }

  /** The clues of the example line are eight distinct digits. */
  lemma ExampleClues(s: seq<int>)
    requires s == [2, 3, 5, 8, 4, 0, 9, 7, 1]
    ensures ValidClues(s)
  {
    ValidCluesCells(s);
  }

  /** A line whose only blank is cell `k`. */
  lemma OnlyBlankAt(s: seq<int>, k: nat)
    requires k < |s| && s[k] == 0 && forall j :: 0 <= j < |s| && j != k ==> s[j] != 0
    ensures multiset(s)[0] == 1 && LastZero(s) == k
  {
    var a, b := s[..k], s[k + 1..];
    assert s == a + [0] + b;
    assert 0 !in a && 0 !in b;
  }

  /** The example line has one blank, at cell 5, and lacks the digit 6. */
  lemma ExampleBlank(s: seq<int>)
    requires s == [2, 3, 5, 8, 4, 0, 9, 7, 1]
    ensures multiset(s)[0] == 1 && LastZero(s) == 5 && 6 !in s
  {
    assert forall j :: 0 <= j < |s| ==> s[j] != 6 && (s[j] == 0 <==> j == 5);
    OnlyBlankAt(s, 5);
  }

  /** The working list of the example line ends up holding only 6. */
  lemma ExampleMissing(s: seq<int>)
    requires s == [2, 3, 5, 8, 4, 0, 9, 7, 1]
    ensures Remaining(s) == [6]
  {
    ExampleBlank(s);
    ExampleClues(s);
    var d := MissingDigit(s);
  }

  /** The example of a single blank: `[2,3,5,8,4,0,9,7,1]` becomes `[2,3,5,8,4,6,9,7,1]`. */
  lemma ResolveExample(s: seq<int>)
    requires s == [2, 3, 5, 8, 4, 0, 9, 7, 1]
    ensures Fillable(s) && Resolved(s) == s[5 := 6]
  {
    ExampleBlank(s);
    ExampleMissing(s);
  }
}
