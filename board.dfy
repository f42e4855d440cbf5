/**
 * The grid of sudoku-solver/grid.go seen as 81 values in row-major order: the positions
 * of each row, column and square, the values a getter extracts, and the order in which
 * `(*grid).checkCorrectness` visits the 27 groups.
 */
module Board {
  import opened Wrappers
  import opened Helpers
  import opened Entries

  predicate InBoard(ps: seq<int>) {
    forall k :: 0 <= k < |ps| ==> 0 <= ps[k] < 81
  }

  /** The positions `eGetLine(i)` slices out: `9*i .. 9*i+8`. */
  function LinePositions(i: int): (ps: seq<int>)
    requires 0 <= i < 9
    ensures |ps| == 9 && InBoard(ps)
  {
    seq(9, k => 9 * i + k)
  }

  /** The positions `eGetColumn(i)` keeps: `i, i+9, ..., i+72`, in that order. */
  function ColumnPositions(i: int): (ps: seq<int>)
    requires 0 <= i < 9
    ensures |ps| == 9 && InBoard(ps)
  {
    seq(9, k => i + 9 * k)
  }

  /** The first position of square `index`, as the `switch` of `eGetSquare` computes it. */
  function SquareOffset(index: int): int {
    if index > 2 && index <= 5 then 27 + (index - 3) * 3
    else if index > 5 then 54 + (index - 6) * 3
    else index * 3
  }

  lemma SquareOffsetFormula(s: int)
    requires 0 <= s < 9
    ensures SquareOffset(s) == (s / 3) * 27 + (s % 3) * 3
  {
  }

  /** The positions `eGetSquare(i)` appends: three runs of three, one row apart. */
  function SquarePositions(i: int): (ps: seq<int>)
    requires 0 <= i < 9
    ensures |ps| == 9 && InBoard(ps)
  {
    var o := SquareOffset(i);
    [o, o + 1, o + 2, o + 9, o + 10, o + 11, o + 18, o + 19, o + 20]
  }

  lemma LineMembership(p: int, i: int)
    requires 0 <= p < 81 && 0 <= i < 9
    ensures p in LinePositions(i) <==> LineIndex(p) == i
  {
    if LineIndex(p) == i {
      assert LinePositions(i)[p - 9 * i] == p;
    }
  }

  lemma ColumnMembership(p: int, i: int)
    requires 0 <= p < 81 && 0 <= i < 9
    ensures p in ColumnPositions(i) <==> ColumnIndex(p) == i
  {
    if ColumnIndex(p) == i {
      assert ColumnPositions(i)[p / 9] == p;
    }
  }

  lemma DivMod9(p: int, x: int, y: int)
    requires p == 9 * x + y && 0 <= y < 9
    ensures p / 9 == x && p % 9 == y
  {
  }

  lemma DivMod3(p: int, x: int, y: int)
    requires p == 3 * x + y && 0 <= y < 3
    ensures p / 3 == x && p % 3 == y
  {
  }

  lemma SquarePositionsAt(i: int, k: int)
    requires 0 <= i < 9 && 0 <= k < 9
    ensures SquarePositions(i)[k] == SquareOffset(i) + 9 * (k / 3) + k % 3
  {
  }

  lemma InSquareFromIndex(p: int, i: int)
    requires 0 <= p < 81 && 0 <= i < 9 && SquareIndex(p) == i
    ensures p in SquarePositions(i)
  {
    PositionIndices(p);
    SquareOffsetFormula(i);
    var r, c := p / 9, p % 9;
    var k := 3 * (r % 3) + c % 3;
    DivMod3(k, r % 3, c % 3);
    DivMod3(i, r / 3, c / 3);
    SquarePositionsAt(i, k);
    assert r == 3 * (r / 3) + r % 3 && c == 3 * (c / 3) + c % 3 && p == 9 * r + c;
    assert SquarePositions(i)[k] == p;
  }

  lemma IndexFromInSquare(p: int, i: int, k: int)
    requires 0 <= p < 81 && 0 <= i < 9 && 0 <= k < 9 && SquarePositions(i)[k] == p
    ensures SquareIndex(p) == i
  {
    PositionIndices(p);
    SquareOffsetFormula(i);
    SquarePositionsAt(i, k);
    DivMod9(p, 3 * (i / 3) + k / 3, 3 * (i % 3) + k % 3);
    DivMod3(p / 9, i / 3, k / 3);
    DivMod3(p % 9, i % 3, k % 3);
  }

  /** A position lies in square `i` exactly when `newEntry` gives it square index `i`. */
  lemma SquareMembership(p: int, i: int)
    requires 0 <= p < 81 && 0 <= i < 9
    ensures p in SquarePositions(i) <==> SquareIndex(p) == i
  {
    if SquareIndex(p) == i {
      InSquareFromIndex(p, i);
    }
    if p in SquarePositions(i) {
      var k :| 0 <= k < 9 && SquarePositions(i)[k] == p;
      IndexFromInSquare(p, i, k);
    }
  }

  lemma PositionsDistinct(i: int)
    requires 0 <= i < 9
    ensures Distinct(LinePositions(i)) && Distinct(ColumnPositions(i)) && Distinct(SquarePositions(i))
  {
  }

  // ---------------------------------------------------------------------------
  // Views

  /** The elements of `s` at positions `ps`, in the order of `ps`. */
  function Pick<T>(s: seq<T>, ps: seq<int>): (r: seq<T>)
    requires forall k :: 0 <= k < |ps| ==> 0 <= ps[k] < |s|
    ensures |r| == |ps| && forall k :: 0 <= k < |ps| ==> r[k] == s[ps[k]]
  {
    seq(|ps|, k requires 0 <= k < |ps| => s[ps[k]])
  }

  function LineOf<T>(s: seq<T>, i: int): seq<T>
    requires |s| == 81 && 0 <= i < 9
  {
    Pick(s, LinePositions(i))
  }

  function ColumnOf<T>(s: seq<T>, i: int): seq<T>
    requires |s| == 81 && 0 <= i < 9
  {
    Pick(s, ColumnPositions(i))
  }

  function SquareOf<T>(s: seq<T>, i: int): seq<T>
    requires |s| == 81 && 0 <= i < 9
  {
    Pick(s, SquarePositions(i))
  }

  /** Square `i` is the three runs of three that `eGetSquare` slices out from its offset. */
  lemma SquareSlices<T>(s: seq<T>, i: int)
    requires |s| == 81 && 0 <= i < 9
    ensures var o := SquareOffset(i);
      SquareOf(s, i) == s[o..o + 3] + s[o + 9..o + 12] + s[o + 18..o + 21]
  {
    var o := SquareOffset(i);
    var t := s[o..o + 3] + s[o + 9..o + 12] + s[o + 18..o + 21];
    assert |t| == 9;
    forall k | 0 <= k < 9 ensures SquareOf(s, i)[k] == t[k] {
      SquarePositionsAt(i, k);
    }
  }

  // ---------------------------------------------------------------------------
  // The whole-grid check

  /** Group `j` of the scan: for each `i`, column `i`, then line `i`, then square `i`. */
  function GroupAt(vals: seq<int>, j: int): seq<int>
    requires |vals| == 81 && 0 <= j < 27
  {
    var i := j / 3;
    if j % 3 == 0 then ColumnOf(vals, i) else if j % 3 == 1 then LineOf(vals, i) else SquareOf(vals, i)
  }

  function Groups(vals: seq<int>): (gs: seq<seq<int>>)
    requires |vals| == 81
    ensures |gs| == 27 && forall j :: 0 <= j < 27 ==> gs[j] == GroupAt(vals, j)
  {
    seq(27, j requires 0 <= j < 27 => GroupAt(vals, j))
  }

  /** The first group from `j` on that `checkCorrectness` rejects decides the result. */
  function FirstErrorFrom(gs: seq<seq<int>>, j: nat): Option<GroupError>
    requires j <= |gs|
    decreases |gs| - j
  {
    if j == |gs| then None
    else if GroupCheck(gs[j]).Some? then GroupCheck(gs[j])
    else FirstErrorFrom(gs, j + 1)
  }

  /** What `(*grid).checkCorrectness()` returns for a grid holding `vals`. */
  function CheckBoard(vals: seq<int>): Option<GroupError>
    requires |vals| == 81
  {
    FirstErrorFrom(Groups(vals), 0)
  }

  /** The three groups the `i`-th round of `checkCorrectness` visits. */
  lemma GroupsRound(vals: seq<int>, i: int)
    requires |vals| == 81 && 0 <= i < 9
    ensures Groups(vals)[3 * i] == ColumnOf(vals, i)
    ensures Groups(vals)[3 * i + 1] == LineOf(vals, i)
    ensures Groups(vals)[3 * i + 2] == SquareOf(vals, i)
  {
    DivMod3(3 * i, i, 0);
    DivMod3(3 * i + 1, i, 1);
    DivMod3(3 * i + 2, i, 2);
  }

  /** The Sudoku law: every row, column and square is an acceptable group. */
  predicate Consistent(vals: seq<int>)
    requires |vals| == 81
  {
    forall i :: 0 <= i < 9 ==> GroupOk(ColumnOf(vals, i)) && GroupOk(LineOf(vals, i)) && GroupOk(SquareOf(vals, i))
  }

  lemma {:induction false} FirstErrorFromNone(gs: seq<seq<int>>, j: nat)
    requires j <= |gs|
    ensures FirstErrorFrom(gs, j) == None <==> forall k :: j <= k < |gs| ==> GroupCheck(gs[k]) == None
    decreases |gs| - j
  {
    if j < |gs| {
      FirstErrorFromNone(gs, j + 1);
    }
  }

  lemma {:induction false} FirstErrorFromFirst(gs: seq<seq<int>>, j: nat, k: nat)
    requires j <= k < |gs| && GroupCheck(gs[k]).Some?
    requires forall m :: j <= m < k ==> GroupCheck(gs[m]) == None
    ensures FirstErrorFrom(gs, j) == GroupCheck(gs[k])
    decreases k - j
  {
    if j < k {
      FirstErrorFromFirst(gs, j + 1, k);
    }
  }

  lemma {:induction false} FirstErrorFromReports(gs: seq<seq<int>>, j: nat)
    requires j <= |gs| && FirstErrorFrom(gs, j).Some?
    ensures exists k :: && j <= k < |gs|
                        && FirstErrorFrom(gs, j) == GroupCheck(gs[k])
                        && forall m :: j <= m < k ==> GroupCheck(gs[m]) == None
    decreases |gs| - j
  {
    if GroupCheck(gs[j]) == None {
      FirstErrorFromReports(gs, j + 1);
    }
  }

  lemma AllGroupsOk(vals: seq<int>)
    requires |vals| == 81
    ensures (forall j :: 0 <= j < 27 ==> GroupOk(GroupAt(vals, j))) <==> Consistent(vals)
  {
    if forall j :: 0 <= j < 27 ==> GroupOk(GroupAt(vals, j)) {
      forall i | 0 <= i < 9
        ensures GroupOk(ColumnOf(vals, i)) && GroupOk(LineOf(vals, i)) && GroupOk(SquareOf(vals, i))
      {
        DivMod3(3 * i, i, 0);
        DivMod3(3 * i + 1, i, 1);
        DivMod3(3 * i + 2, i, 2);
        assert GroupAt(vals, 3 * i) == ColumnOf(vals, i);
        assert GroupAt(vals, 3 * i + 1) == LineOf(vals, i);
        assert GroupAt(vals, 3 * i + 2) == SquareOf(vals, i);
        assert GroupOk(GroupAt(vals, 3 * i));
        assert GroupOk(GroupAt(vals, 3 * i + 1));
        assert GroupOk(GroupAt(vals, 3 * i + 2));
      }
    }
    if Consistent(vals) {
      forall j | 0 <= j < 27 ensures GroupOk(GroupAt(vals, j)) {
        var i := j / 3;
        assert 0 <= i < 9;
        assert GroupOk(ColumnOf(vals, i)) && GroupOk(LineOf(vals, i)) && GroupOk(SquareOf(vals, i));
        if j % 3 == 0 {
          assert GroupAt(vals, j) == ColumnOf(vals, i);
        } else if j % 3 == 1 {
          assert GroupAt(vals, j) == LineOf(vals, i);
        } else {
          assert GroupAt(vals, j) == SquareOf(vals, i);
        }
      }
    }
  }

  /** The grid passes the check exactly when it obeys the Sudoku law. */
  lemma CheckBoardOkIff(vals: seq<int>)
    requires |vals| == 81
    ensures CheckBoard(vals) == None <==> Consistent(vals)
  {
    var gs := Groups(vals);
    FirstErrorFromNone(gs, 0);
    forall j | 0 <= j < 27 ensures GroupCheck(GroupAt(vals, j)) == None <==> GroupOk(GroupAt(vals, j)) {
      GroupCheckOkIff(GroupAt(vals, j));
    }
    AllGroupsOk(vals);
  }

  /** The first rejected group in the fixed order is the one whose error is returned. */
  lemma CheckBoardFirstFailure(vals: seq<int>, j: int)
    requires |vals| == 81 && 0 <= j < 27
    requires GroupCheck(GroupAt(vals, j)).Some?
    requires forall m :: 0 <= m < j ==> GroupCheck(GroupAt(vals, m)) == None
    ensures CheckBoard(vals) == GroupCheck(GroupAt(vals, j))
  {
    FirstErrorFromFirst(Groups(vals), 0, j);
  }

  /**
   * Conversely, an error is always that of the first rejected group, and it is never a
   * length error: every group the grid yields has nine values.
   */
  lemma CheckBoardReports(vals: seq<int>)
    requires |vals| == 81 && CheckBoard(vals).Some?
    ensures exists j :: && 0 <= j < 27
                        && CheckBoard(vals) == GroupCheck(GroupAt(vals, j))
                        && forall m :: 0 <= m < j ==> GroupCheck(GroupAt(vals, m)) == None
    ensures !CheckBoard(vals).value.WrongLength?
  {
    FirstErrorFromReports(Groups(vals), 0);
  }
}
