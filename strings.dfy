/**
 * The parts of Go's `strings` and `strconv` packages that `generateGridFromString` relies on:
 * `strings.Contains`, `strings.Split`, `strings.TrimSpace` and `strconv.Atoi`, on strings of
 * characters.
 */
module Strings {
  import opened Wrappers

  // ---------------------------------------------------------------------------
  // strings.Split

  /** `strings.Split(s, sep)` for a one-character separator: every piece between separators, empty ones included. */
  function Split(s: string, sep: char): (pieces: seq<string>)
    ensures |pieces| >= 1
    ensures forall k :: 0 <= k < |pieces| ==> sep !in pieces[k]
    decreases |s|
  {
    if s == [] then [[]]
    else
      var rest := Split(s[1..], sep);
      if s[0] == sep then [[]] + rest
      else [[s[0]] + rest[0]] + rest[1..]
  }

  /** `strings.Join(pieces, sep)`: the inverse of `Split`. */
  function Join(pieces: seq<string>, sep: char): string
    requires |pieces| >= 1
    decreases |pieces|
  {
    if |pieces| == 1 then pieces[0] else pieces[0] + [sep] + Join(pieces[1..], sep)
  }

  lemma {:induction false} JoinSplit(s: string, sep: char)
    ensures Join(Split(s, sep), sep) == s
    decreases |s|
  {
    if s != [] {
      var rest := Split(s[1..], sep);
      JoinSplit(s[1..], sep);
      if s[0] == sep {
        assert Split(s, sep)[1..] == rest;
      } else {
        var pieces := Split(s, sep);
        assert pieces[1..] == rest[1..];
        if |rest| > 1 {
          assert Join(rest, sep) == rest[0] + [sep] + Join(rest[1..], sep);
        }
      }
    }
  }

  /** A piece without separators splits to itself. */
  lemma {:induction false} SplitNoSeparator(t: string, sep: char)
    requires sep !in t
    ensures Split(t, sep) == [t]
    decreases |t|
  {
    if t != [] {
      SplitNoSeparator(t[1..], sep);
      assert [t[0]] + t[1..] == t;
    }
  }

  /** Splitting `t + sep + u` yields `t` followed by the pieces of `u`. */
  lemma {:induction false} SplitAtSeparator(t: string, sep: char, u: string)
    requires sep !in t
    ensures Split(t + [sep] + u, sep) == [t] + Split(u, sep)
    decreases |t|
  {
    if t == [] {
      assert t + [sep] + u == [sep] + u;
      assert ([sep] + u)[1..] == u;
    } else {
      var s := t + [sep] + u;
      assert s[1..] == t[1..] + [sep] + u;
      SplitAtSeparator(t[1..], sep, u);
      assert [t[0]] + t[1..] == t;
    }
  }

  lemma {:induction false} SplitJoin(pieces: seq<string>, sep: char)
    requires |pieces| >= 1
    requires forall k :: 0 <= k < |pieces| ==> sep !in pieces[k]
    ensures Split(Join(pieces, sep), sep) == pieces
    decreases |pieces|
  {
    if |pieces| == 1 {
      SplitNoSeparator(pieces[0], sep);
    } else {
      SplitJoin(pieces[1..], sep);
      SplitAtSeparator(pieces[0], sep, Join(pieces[1..], sep));
    }
  }

  /** Joining two or more pieces puts at least one separator in the string. */
  lemma JoinHasSeparator(pieces: seq<string>, sep: char)
    requires |pieces| >= 2
    ensures sep in Join(pieces, sep)
  {
    var s := Join(pieces, sep);
    assert s[|pieces[0]|] == sep;
  }

  // ---------------------------------------------------------------------------
  // strings.TrimSpace

  /** Go's `unicode.IsSpace`. */
  predicate IsSpace(c: char) {
    var n := c as int;
    || n == 0x20 || 0x09 <= n <= 0x0D      // ' ', '\t', '\n', '\v', '\f', '\r'
    || n == 0x85 || n == 0xA0 || n == 0x1680
    || 0x2000 <= n <= 0x200A || n == 0x2028 || n == 0x2029
    || n == 0x202F || n == 0x205F || n == 0x3000
  }

  function TrimLeft(s: string): (r: string)
    ensures |r| <= |s| && r == s[|s| - |r|..]
    ensures r != [] ==> !IsSpace(r[0])
    ensures forall k :: 0 <= k < |s| - |r| ==> IsSpace(s[k])
  {
    if s != [] && IsSpace(s[0]) then TrimLeft(s[1..]) else s
  }

  function TrimRight(s: string): (r: string)
    ensures |r| <= |s| && r == s[..|r|]
    ensures r != [] ==> !IsSpace(r[|r| - 1])
    ensures forall k :: |r| <= k < |s| ==> IsSpace(s[k])
  {
    if s != [] && IsSpace(s[|s| - 1]) then TrimRight(s[..|s| - 1]) else s
  }

  /** `strings.TrimSpace(s)`: `s` without its leading and trailing white space. */
  function TrimSpace(s: string): (r: string)
    ensures r != [] ==> !IsSpace(r[0]) && !IsSpace(r[|r| - 1])
    ensures |r| <= |s|
  {
    TrimRight(TrimLeft(s))
  }

  lemma TrimSpaceNoSpace(s: string)
    requires forall k :: 0 <= k < |s| ==> !IsSpace(s[k])
    ensures TrimSpace(s) == s
  {
  }

  // ---------------------------------------------------------------------------
  // strconv.Atoi

  const MinInt64: int := -0x8000_0000_0000_0000
  const MaxInt64: int := 0x7FFF_FFFF_FFFF_FFFF

  predicate IsDigit(c: char) { '0' <= c <= '9' }

  predicate AllDigits(s: string) { forall k :: 0 <= k < |s| ==> IsDigit(s[k]) }

  /** The number a string of decimal digits denotes. */
  function DigitsValue(s: string): nat
    requires AllDigits(s)
  {
    if s == [] then 0 else DigitsValue(s[..|s| - 1]) * 10 + (s[|s| - 1] as int - '0' as int)
  }

  /**
   * `strconv.Atoi(s)` on a 64-bit platform: an optional sign and at least one decimal digit,
   * denoting a value that fits in 64 bits; anything else is an error (`None`).
   */
  function Atoi(s: string): (r: Option<int>)
    ensures r.Some? ==> MinInt64 <= r.value <= MaxInt64
    ensures r.Some? ==> s != [] && forall k :: 0 <= k < |s| ==> !IsSpace(s[k])
  {
    var signed := s != [] && (s[0] == '-' || s[0] == '+');
    var digits := if signed then s[1..] else s;
    if digits == [] || !AllDigits(digits) then None
    else
      var magnitude: int := DigitsValue(digits);
      var n := if signed && s[0] == '-' then -magnitude else magnitude;
      if MinInt64 <= n <= MaxInt64 then Some(n) else None
  }

  /** The decimal rendering of a natural number, most significant digit first. */
  function NatDigits(n: nat): (s: string)
    ensures s != [] && AllDigits(s)
  {
    if n < 10 then [('0' as int + n) as char] else NatDigits(n / 10) + [('0' as int + n % 10) as char]
  }

  lemma {:induction false} NatDigitsValue(n: nat)
    ensures DigitsValue(NatDigits(n)) == n
  {
    if n >= 10 {
      NatDigitsValue(n / 10);
      var s := NatDigits(n);
      assert s[..|s| - 1] == NatDigits(n / 10);
    }
  }

  /** `strconv.Itoa(n)`. */
  function Itoa(n: int): string {
    if n < 0 then "-" + NatDigits(-n) else NatDigits(n)
  }

  lemma ItoaShape(n: int)
    ensures var s := Itoa(n);
            && s != [] && (forall k :: 0 <= k < |s| ==> !IsSpace(s[k]))
            && (n < 0 <==> s[0] == '-') && s[0] != '+'
            && (n < 0 ==> s[1..] == NatDigits(-n))
            && (n >= 0 ==> s == NatDigits(n))
  {
    if n < 0 {
      var s := Itoa(n);
      assert s[1..] == NatDigits(-n);
    }
  }

  /** Itoa writes digits and at most a leading minus sign, so never a separator such as ','. */
  lemma ItoaChars(n: int)
    ensures forall k :: 0 <= k < |Itoa(n)| ==> Itoa(n)[k] == '-' || IsDigit(Itoa(n)[k])
  {
    ItoaShape(n);
    if n < 0 {
      var s := Itoa(n);
      forall k | 0 <= k < |s| ensures s[k] == '-' || IsDigit(s[k]) {
        if k > 0 {
          assert s[k] == s[1..][k - 1];
        }
      }
    }
  }

  /** Atoi reads back what Itoa writes, for every 64-bit integer, also after TrimSpace. */
  lemma AtoiItoa(n: int)
    requires MinInt64 <= n <= MaxInt64
    ensures Atoi(TrimSpace(Itoa(n))) == Some(n)
  {
    var s := Itoa(n);
    ItoaShape(n);
    TrimSpaceNoSpace(s);
    if n < 0 {
      NatDigitsValue(-n);
    } else {
      NatDigitsValue(n);
    }
  }
}
