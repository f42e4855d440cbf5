/**
 * The single-group validator of sudoku-solver/helpers.go: `removeValue`,
 * `checkExist` and `checkCorrectness` over one row, column or square.
 */
module Helpers {
  import opened Wrappers

  /** The three ways `checkCorrectness` rejects a group. */
  datatype GroupError =
    | WrongLength(got: int)                  // the group does not have nine values; `got` is its length
    | OutOfRange(value: int)                 // a value outside 0..9
    | Duplicate(value: int, group: seq<int>) // a non-zero value that repeats, and the whole group

  predicate Distinct<T(==)>(s: seq<T>) {
    forall i, j :: 0 <= i < j < |s| ==> s[i] != s[j]
  }

  /** In a sequence without repetitions a value occurs once if present, never if absent. */
  lemma {:induction false} DistinctCount(s: seq<int>, x: int)
    requires Distinct(s)
    ensures multiset(s)[x] == if x in s then 1 else 0
  {
    if s != [] {
      assert s == [s[0]] + s[1..];
      assert Distinct(s[1..]) by {
        forall i, j | 0 <= i < j < |s[1..]| ensures s[1..][i] != s[1..][j] {
          assert s[1..][i] == s[i + 1] && s[1..][j] == s[j + 1];
        }
      }
      DistinctCount(s[1..], x);
      assert multiset(s) == multiset{s[0]} + multiset(s[1..]);
      if x == s[0] {
        assert x !in s[1..] by {
          forall k | 0 <= k < |s[1..]| ensures s[1..][k] != x {
            assert s[1..][k] == s[k + 1];
          }
        }
      }
    }
  }

  /** Index of the first occurrence of `v` in `s`: where a `for i, v := range` scan stops. */
  function IndexOf<T(==)>(s: seq<T>, v: T): (i: nat)
    requires v in s
    ensures i < |s| && s[i] == v && v !in s[..i]
  {
    if s[0] == v then 0
    else
      var j := IndexOf(s[1..], v);
      assert s[..j + 1] == [s[0]] + s[1..][..j];
      1 + j
  }

  lemma IndexOfUnique<T>(s: seq<T>, v: T, i: nat)
    requires v in s && i < |s| && s[i] == v && v !in s[..i]
    ensures IndexOf(s, v) == i
  {
    var k := IndexOf(s, v);
    assert forall t :: 0 <= t < i ==> s[t] != v by {
      forall t | 0 <= t < i ensures s[t] != v { assert s[..i][t] == s[t]; }
    }
    assert forall t :: 0 <= t < k ==> s[t] != v by {
      forall t | 0 <= t < k ensures s[t] != v { assert s[..k][t] == s[t]; }
    }
  }

  // ---------------------------------------------------------------------------
  // removeValue

  /**
   * What `removeValue` leaves in the backing array of the slice it is given:
   * the first occurrence of `v` is overwritten with the slice's first element.
   */
  function Overwritten(s: seq<int>, v: int): (r: seq<int>)
    ensures |r| == |s|
  {
    if v in s then s[IndexOf(s, v) := s[0]] else s
  }

  /** The slice `removeValue` returns: the overwritten slice without its first element, or `s` itself if `v` is absent. */
  function Removed(s: seq<int>, v: int): (r: seq<int>)
    ensures v in s ==> |r| == |s| - 1
  {
    if v in s then Overwritten(s, v)[1..] else s
  }

  lemma RemovedAbsent(s: seq<int>, v: int)
    requires v !in s
    ensures Removed(s, v) == s && Overwritten(s, v) == s
  {
  }

  lemma MultisetUpdate(s: seq<int>, i: nat, x: int)
    requires i < |s|
    ensures multiset(s[i := x]) == multiset(s) - multiset{s[i]} + multiset{x}
  {
    var front, back := s[..i], s[i + 1..];
    assert s == front + [s[i]] + back;
    assert s[i := x] == front + [x] + back;
  }

  lemma MultisetTail(t: seq<int>)
    requires |t| > 0
    ensures multiset(t[1..]) == multiset(t) - multiset{t[0]}
  {
    assert t == [t[0]] + t[1..];
  }

  /** Removing a present value takes away exactly one occurrence of it. */
  lemma RemovedMultiset(s: seq<int>, v: int)
    requires v in s
    ensures |Removed(s, v)| == |s| - 1
    ensures multiset(Removed(s, v)) == multiset(s) - multiset{v}
  {
    var i := IndexOf(s, v);
    var t := s[i := s[0]];
    MultisetUpdate(s, i, s[0]);
    MultisetTail(t);
    assert t[0] == s[0];
    assert Removed(s, v) == t[1..];
  }

  /** On a list without repeats, removal keeps it repeat-free and takes out exactly `v`. */
  lemma RemovedDistinct(s: seq<int>, v: int)
    requires Distinct(s)
    ensures Distinct(Removed(s, v))
    ensures forall x :: x in Removed(s, v) <==> x in s && x != v
  {
    if v in s {
      var r := Removed(s, v);
      var i := IndexOf(s, v);
      assert forall k :: 0 <= k < |r| ==> r[k] == if k + 1 == i then s[0] else s[k + 1];
      forall x
        ensures x in r <==> x in s && x != v
      {
        if x in r {
          var k :| 0 <= k < |r| && r[k] == x;
        }
        if x in s && x != v {
          var k :| 0 <= k < |s| && s[k] == x;
          if k == 0 {
            assert i != 0;
            assert r[i - 1] == x;
          } else {
            assert r[k - 1] == x;
          }
        }
      }
    }
  }

  /**
   * `removeValue(slice, value)` on the slice `a[lo..hi]`: the write goes into the
   * caller's array, and the returned slice starts one element later.
   */
  method RemoveValue(a: array<int>, lo: nat, hi: nat, value: int) returns (newLo: nat, newHi: nat)
    requires lo <= hi <= a.Length
    modifies a
    ensures a[..lo] == old(a[..lo]) && a[hi..] == old(a[hi..])
    ensures a[lo..hi] == Overwritten(old(a[lo..hi]), value)
    ensures newHi == hi && newLo == if value in old(a[lo..hi]) then lo + 1 else lo
    ensures a[newLo..newHi] == Removed(old(a[lo..hi]), value)
  {
    ghost var s := a[lo..hi];
    var i := lo;
    while i < hi
      invariant lo <= i <= hi
      invariant value !in a[lo..i]
      invariant a[..] == old(a[..])
    {
      if a[i] == value {
        assert a[lo..i] == s[..i - lo];
        IndexOfUnique(s, value, i - lo);
        a[i] := a[lo];
        assert a[lo..hi] == s[i - lo := s[0]];
        return lo + 1, hi;
      }
      i := i + 1;
    }
    assert a[lo..i] == s;
    return lo, hi;
  }

  // ---------------------------------------------------------------------------
  // checkExist

  /** `checkExist(slice, value)`: a linear scan for `value`. */
  method CheckExist(s: seq<int>, value: int) returns (found: bool)
    ensures found <==> value in s
  {
    for i := 0 to |s|
      invariant value !in s[..i]
    {
      if s[i] == value {
        return true;
      }
    }
    assert s[..|s|] == s;
    return false;
  }

  // ---------------------------------------------------------------------------
  // checkCorrectness: its specification

  /** Every value is a blank (0) or a digit, and no non-zero value repeats. */
  predicate CellsOk(line: seq<int>) {
    && (forall i :: 0 <= i < |line| ==> 0 <= line[i] <= 9)
    && (forall i, j :: 0 <= i < j < |line| && line[i] != 0 ==> line[i] != line[j])
  }

  /** A group the Sudoku rules accept: nine values in 0..9 whose non-zero values do not repeat. */
  predicate GroupOk(line: seq<int>) {
    |line| == 9 && CellsOk(line)
  }

  /** Position `j` stops the scan: its value is out of range, or is non-zero and seen before. */
  predicate BadAt(line: seq<int>, j: nat)
    requires j < |line|
  {
    line[j] < 0 || line[j] > 9 || (line[j] != 0 && line[j] in line[..j])
  }

  /** The error the scan reports at a bad position. */
  function ErrorAt(line: seq<int>, j: nat): GroupError
    requires j < |line|
  {
    if line[j] < 0 || line[j] > 9 then OutOfRange(line[j]) else Duplicate(line[j], line)
  }

  /** The value scan from position `k` on: the first bad position decides. */
  function ScanFrom(line: seq<int>, k: nat): (r: Option<GroupError>)
    requires k <= |line|
    ensures r.Some? ==> !r.value.WrongLength?
    decreases |line| - k
  {
    if k == |line| then None
    else if BadAt(line, k) then Some(ErrorAt(line, k))
    else ScanFrom(line, k + 1)
  }

  /** What `checkCorrectness(line)` returns: the length first, then the values in order. */
  function GroupCheck(line: seq<int>): (r: Option<GroupError>)
    ensures (r.Some? && r.value.WrongLength?) <==> |line| != 9
    ensures r.Some? && r.value.WrongLength? ==> r.value.got == |line|
  {
    if |line| != 9 then Some(WrongLength(|line|)) else ScanFrom(line, 0)
  }

  lemma {:induction false} ScanFromNone(line: seq<int>, k: nat)
    requires k <= |line|
    ensures ScanFrom(line, k) == None <==> forall j :: k <= j < |line| ==> !BadAt(line, j)
    decreases |line| - k
  {
    if k < |line| {
      ScanFromNone(line, k + 1);
    }
  }

  lemma {:induction false} ScanFromFirst(line: seq<int>, k: nat, j: nat)
    requires k <= j < |line| && BadAt(line, j)
    requires forall i :: k <= i < j ==> !BadAt(line, i)
    ensures ScanFrom(line, k) == Some(ErrorAt(line, j))
    decreases j - k
  {
    if k < j {
      ScanFromFirst(line, k + 1, j);
    }
  }

  lemma {:induction false} ScanFromReports(line: seq<int>, k: nat)
    requires k <= |line| && ScanFrom(line, k).Some?
    ensures exists j :: && k <= j < |line| && BadAt(line, j)
                        && ScanFrom(line, k) == Some(ErrorAt(line, j))
                        && forall i :: k <= i < j ==> !BadAt(line, i)
    decreases |line| - k
  {
    if !BadAt(line, k) {
      ScanFromReports(line, k + 1);
    }
  }

  lemma NoBadIsGroupOk(line: seq<int>)
    requires |line| == 9
    ensures GroupOk(line) <==> forall j :: 0 <= j < |line| ==> !BadAt(line, j)
  {
    if forall j :: 0 <= j < |line| ==> !BadAt(line, j) {
      forall i | 0 <= i < |line| ensures 0 <= line[i] <= 9 {
        assert !BadAt(line, i);
      }
      forall i, j | 0 <= i < j < |line| && line[i] != 0
        ensures line[i] != line[j]
      {
        assert !BadAt(line, j);
        assert line[..j][i] == line[i];
      }
    }
    if GroupOk(line) {
      forall j | 0 <= j < |line|
        ensures !BadAt(line, j)
      {
        if line[j] != 0 {
          forall i | 0 <= i < j ensures line[..j][i] != line[j] {
            assert line[..j][i] == line[i];
            assert line[i] != 0 ==> line[i] != line[j];
          }
        }
      }
    }
  }

  /** `checkCorrectness` accepts exactly the groups the Sudoku rules accept; zeros never conflict. */
  lemma GroupCheckOkIff(line: seq<int>)
    ensures GroupCheck(line) == None <==> GroupOk(line)
  {
    if |line| == 9 {
      ScanFromNone(line, 0);
      NoBadIsGroupOk(line);
    }
  }

  /**
   * On a nine-long group, the first bad position is the one reported, whatever comes after it:
   * an out-of-range value before a duplicate is reported as out of range, and a duplicate is
   * reported with the first value that repeats an earlier one.
   */
  lemma GroupCheckFirstFailure(line: seq<int>, j: nat)
    requires |line| == 9 && j < |line| && BadAt(line, j)
    requires forall i :: 0 <= i < j ==> !BadAt(line, i)
    ensures GroupCheck(line) == Some(ErrorAt(line, j))
  {
    ScanFromFirst(line, 0, j);
  }

  /** Conversely, every error reported on a nine-long group is the error of its first bad position. */
  lemma GroupCheckReports(line: seq<int>)
    requires |line| == 9 && GroupCheck(line).Some?
    ensures exists j :: && 0 <= j < |line| && BadAt(line, j)
                        && GroupCheck(line) == Some(ErrorAt(line, j))
                        && forall i :: 0 <= i < j ==> !BadAt(line, i)
  {
    ScanFromReports(line, 0);
  }

  // ---------------------------------------------------------------------------
  // checkCorrectness: the loop over a working list of unseen digits

  /**
   * `checkCorrectness(line)`. The working list `elements[lo..hi]` always holds, without
   * repeats, exactly the digits 1..9 not yet seen among the non-zero values scanned.
   */
  method CheckCorrectness(line: seq<int>) returns (err: Option<GroupError>)
    ensures err == GroupCheck(line)
  {
    if |line| != 9 {
      return Some(WrongLength(|line|));
    }
    var elements := new int[9](i => i + 1);
    var lo, hi := 0, 9;
    assert forall x :: x in elements[lo..hi] <==> 1 <= x <= 9 by {
      forall x | 1 <= x <= 9 ensures x in elements[lo..hi] { assert elements[x - 1] == x; }
    }
    for k := 0 to 9
      invariant lo <= hi == 9 == elements.Length
      invariant Distinct(elements[lo..hi])
      invariant forall x :: x in elements[lo..hi] <==> 1 <= x <= 9 && x !in line[..k]
      invariant GroupCheck(line) == ScanFrom(line, k)
    {
      var v := line[k];
      if v < 0 || v > 9 {
        return Some(OutOfRange(v));
      }
      if v != 0 {
        var present := CheckExist(elements[lo..hi], v);
        if !present {
          return Some(Duplicate(v, line));
        }
        ghost var before := elements[lo..hi];
        RemovedDistinct(before, v);
        lo, hi := RemoveValue(elements, lo, hi, v);
      }
      assert line[..k + 1] == line[..k] + [v];
    }
    return None;
  }

  // ---------------------------------------------------------------------------
  // The cases of solver_test.go's TestOneLine

  /** The groups TestOneLine expects to pass. */
  lemma AcceptedLines(line: seq<int>)
    requires || line == [1, 2, 3, 4, 5, 6, 7, 8, 9]
             || line == [9, 6, 3, 2, 1, 7, 5, 8, 4]
             || line == [0, 0, 0, 0, 0, 0, 0, 0, 0]
             || line == [9, 6, 0, 2, 1, 7, 0, 8, 4]
    ensures GroupCheck(line) == None
  {
    GroupCheckOkIff(line);
  }

  /** The seven-long group TestOneLine expects to fail on its length. */
  lemma RejectedLength(line: seq<int>)
    requires line == [1, 2, 3, 4, 5, 6, 7]
    ensures GroupCheck(line) == Some(WrongLength(7))
  {
  }

  /** The groups TestOneLine expects to fail on a repeated value: the first repeat is reported. */
  lemma RejectedDuplicates(line: seq<int>)
    requires || line == [2, 9, 1, 3, 4, 5, 7, 8, 9]
             || line == [9, 6, 0, 2, 1, 7, 0, 4, 4]
    ensures GroupCheck(line) == Some(Duplicate(line[8], line))
  {
    if line[1] == line[8] {
      assert line[..8][1] == line[8];
    } else {
      assert line[..8][7] == line[8];
    }
    GroupCheckFirstFailure(line, 8);
  }

  /** The groups TestOneLine expects to fail on an out-of-range value, though a repeat follows it. */
  lemma RejectedOutOfRange(line: seq<int>)
    requires line == [9, 6, 0, 2, 1, 7, 19, 4, 4] || line == [9, 6, 0, 2, 1, 7, -5, 4, 4]
    ensures GroupCheck(line) == Some(OutOfRange(line[6]))
  {
    GroupCheckFirstFailure(line, 6);
  }
}
