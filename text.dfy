/** The Python 2 string operations the log parser relies on: split, strip,
    substring tests, isdigit, lower, and the int() and float() conversions. */
module Text {
  import opened Wrappers

  /** `sep.join(pieces)` for a one-character separator. */
  function Join(pieces: seq<string>, sep: char): string
    requires |pieces| >= 1
  {
    if |pieces| == 1 then pieces[0] else pieces[0] + [sep] + Join(pieces[1..], sep)
  }

  /** `s.split(sep)` for an explicit one-character separator: every occurrence of
      `sep` cuts `s`, so adjacent separators give empty pieces and there is
      always one piece more than there are separators. */
  function Split(s: string, sep: char): (r: seq<string>)
    ensures |r| >= 1
  {
    if s == [] then [""]
    else
      assert s == [s[0]] + s[1..];
      var rest := Split(s[1..], sep);
      if s[0] == sep then [""] + rest
      else [[s[0]] + rest[0]] + rest[1..]
  }

  /** One piece more than there are separators, and no piece holds one. */
  lemma {:induction false} SplitFacts(s: string, sep: char)
    ensures |Split(s, sep)| == multiset(s)[sep] + 1
    ensures forall i | 0 <= i < |Split(s, sep)| :: sep !in Split(s, sep)[i]
  {
    if s != [] {
      SplitFacts(s[1..], sep);
      assert s == [s[0]] + s[1..];
    }
  }

  lemma {:induction false} JoinCons(c: char, p: string, tail: seq<string>, sep: char)
    ensures Join([[c] + p] + tail, sep) == [c] + Join([p] + tail, sep)
  {
    if tail != [] {
      assert ([[c] + p] + tail)[1..] == tail;
      assert ([p] + tail)[1..] == tail;
    }
  }

  lemma JoinEmptyHead(tail: seq<string>, sep: char)
    requires |tail| >= 1
    ensures Join([""] + tail, sep) == [sep] + Join(tail, sep)
  {
    assert ([""] + tail)[1..] == tail;
  }

  /** Joining the pieces of a split gives back the string. */
  lemma {:induction false} SplitJoin(s: string, sep: char)
    ensures Join(Split(s, sep), sep) == s
  {
    if s != [] {
      SplitJoin(s[1..], sep);
      var rest := Split(s[1..], sep);
      if s[0] == sep {
        JoinEmptyHead(rest, sep);
      } else {
        JoinCons(s[0], rest[0], rest[1..], sep);
        assert [rest[0]] + rest[1..] == rest;
      }
      assert [s[0]] + s[1..] == s;
    }
  }

  lemma {:induction false} SplitNoSep(a: string, sep: char)
    requires sep !in a
    ensures Split(a, sep) == [a]
  {
    if a != [] {
      assert a == [a[0]] + a[1..];
      SplitNoSep(a[1..], sep);
    }
  }

  lemma {:induction false} SplitAtSep(a: string, b: string, sep: char)
    requires sep !in a
    ensures Split(a + [sep] + b, sep) == [a] + Split(b, sep)
  {
    var s := a + [sep] + b;
    if a == [] {
      assert s[1..] == b;
    } else {
      assert s[1..] == a[1..] + [sep] + b;
      SplitAtSep(a[1..], b, sep);
      assert [a[0]] + a[1..] == a;
    }
  }

  /** Splitting a join of separator-free pieces gives back the pieces, so Split
      is the one decomposition of a string into such pieces. */
  lemma {:induction false} JoinSplit(pieces: seq<string>, sep: char)
    requires |pieces| >= 1
    requires forall i | 0 <= i < |pieces| :: sep !in pieces[i]
    ensures Split(Join(pieces, sep), sep) == pieces
  {
    if |pieces| == 1 {
      SplitNoSep(pieces[0], sep);
    } else {
      JoinSplit(pieces[1..], sep);
      SplitAtSep(pieces[0], Join(pieces[1..], sep), sep);
      assert [pieces[0]] + pieces[1..] == pieces;
    }
  }

  /** The last piece of a split is the tail of `s` after its last separator. */
  lemma {:induction false} SplitLast(s: string, sep: char)
    ensures var r := Split(s, sep)[|Split(s, sep)| - 1];
      |r| <= |s| && s[|s| - |r|..] == r && (|r| == |s| || s[|s| - |r| - 1] == sep)
  {
    if s != [] {
      var t := s[1..];
      SplitLast(t, sep);
      SeveralPieces(t, sep);
      SplitCons(s, sep);
      LastPieceStep(s, Split(t, sep), Split(s, sep), sep);
    } else {
      assert Split(s, sep) == [""];
    }
  }

  /** The step of SplitLast, on the pieces `rest` of `s[1..]` and `all` of `s`. */
  lemma LastPieceStep(s: string, rest: seq<string>, all: seq<string>, sep: char)
    requires s != [] && |rest| >= 1 && |all| >= 1
    requires var r, t := rest[|rest| - 1], s[1..];
      |r| <= |t| && t[|t| - |r|..] == r && (|r| == |t| || t[|t| - |r| - 1] == sep)
    requires s[0] == sep || |rest| > 1 ==> all[|all| - 1] == rest[|rest| - 1]
    requires s[0] != sep && |rest| == 1 ==> all == [[s[0]] + rest[0]] && rest == [s[1..]]
    requires |rest| > 1 ==> sep in multiset(s[1..]) && sep !in rest[|rest| - 1]
    ensures var r := all[|all| - 1];
      |r| <= |s| && s[|s| - |r|..] == r && (|r| == |s| || s[|s| - |r| - 1] == sep)
  {
    var t, r := s[1..], rest[|rest| - 1];
    if s[0] == sep {
      SuffixStep(s, r, sep);
    } else if |rest| == 1 {
      assert [s[0]] + t == s;
    } else {
      ProperSuffix(t, r, sep);
      SuffixStep(s, r, sep);
    }
  }

  /** A string cut into several pieces holds a separator, and its last piece
      holds none; one cut into a single piece is that piece. */
  lemma SeveralPieces(t: string, sep: char)
    ensures var rest := Split(t, sep);
      && (|rest| > 1 ==> sep in multiset(t) && sep !in rest[|rest| - 1])
      && (|rest| == 1 ==> rest == [t])
  {
    SplitFacts(t, sep);
    if |Split(t, sep)| == 1 {
      SplitNoSep(t, sep);
    }
  }

  /** How the pieces of `s` end, from the pieces of `s[1..]`. */
  lemma SplitCons(s: string, sep: char)
    requires s != []
    ensures var rest, all := Split(s[1..], sep), Split(s, sep);
      && (s[0] == sep || |rest| > 1 ==> all[|all| - 1] == rest[|rest| - 1])
      && (s[0] != sep && |rest| == 1 ==> all == [[s[0]] + rest[0]])
  {
  }

  /** A tail free of `sep` is shorter than a string that holds one. */
  lemma ProperSuffix(t: string, r: string, sep: char)
    requires sep in multiset(t) && sep !in r
    requires |r| <= |t| && t[|t| - |r|..] == r
    ensures |r| < |t|
  {
    assert sep in t;
    var k :| 0 <= k < |t| && t[k] == sep;
    assert forall j | |t| - |r| <= j < |t| :: t[j] == r[j - (|t| - |r|)];
  }

  /** A tail of `s[1..]` that is cut off by a separator, or is all of `s[1..]`
      after a separator, is a tail of `s` cut off by a separator. */
  lemma SuffixStep(s: string, r: string, sep: char)
    requires |s| >= 1
    requires |r| <= |s| - 1 && s[1..][|s| - 1 - |r|..] == r
    requires |r| < |s| - 1 ==> s[1..][|s| - 1 - |r| - 1] == sep
    requires |r| == |s| - 1 ==> s[0] == sep
    ensures |r| <= |s| && s[|s| - |r|..] == r && (|r| == |s| || s[|s| - |r| - 1] == sep)
  {
    assert s[1..][|s| - 1 - |r|..] == s[|s| - |r|..];
  }

  /** `s.split(sep)[-1]`: the text after the last separator. */
  function LastPiece(s: string, sep: char): (r: string)
    ensures sep !in r
    ensures |r| <= |s| && s[|s| - |r|..] == r
    ensures |r| == |s| || s[|s| - |r| - 1] == sep
  {
    SplitLast(s, sep);
    SplitFacts(s, sep);
    Split(s, sep)[|Split(s, sep)| - 1]
  }

  /** The characters Python 2's `str.isspace` accepts. */
  predicate IsSpace(c: char) {
    c == ' ' || c == '\t' || c == '\n' || c == '\r' || c == '\U{B}' || c == '\U{C}'
  }

  function StripLeft(s: string): string {
    if s == [] || !IsSpace(s[0]) then s else StripLeft(s[1..])
  }

  function StripRight(s: string): string {
    if s == [] || !IsSpace(s[|s| - 1]) then s else StripRight(s[..|s| - 1])
  }

  /** `s.strip()`: `s` without its leading and trailing whitespace. */
  function Strip(s: string): string {
    StripRight(StripLeft(s))
  }

  lemma {:induction false} StripLeftFacts(s: string)
    ensures var r := StripLeft(s);
      && |r| <= |s| && r == s[|s| - |r|..]
      && (forall i | 0 <= i < |s| - |r| :: IsSpace(s[i]))
      && (r == [] || !IsSpace(r[0]))
  {
    if s != [] && IsSpace(s[0]) {
      var t := s[1..];
      StripLeftFacts(t);
      var r := StripLeft(t);
      assert StripLeft(s) == r;
      assert t[|t| - |r|..] == s[|s| - |r|..];
      forall i | 0 <= i < |s| - |r|
        ensures IsSpace(s[i])
      {
        if i > 0 {
          assert s[i] == t[i - 1];
        }
      }
    }
  }

  lemma {:induction false} StripRightFacts(s: string)
    ensures var r := StripRight(s);
      && |r| <= |s| && r == s[..|r|]
      && (forall i | |r| <= i < |s| :: IsSpace(s[i]))
      && (r == [] || !IsSpace(r[|r| - 1]))
  {
    if s != [] && IsSpace(s[|s| - 1]) {
      var t := s[..|s| - 1];
      StripRightFacts(t);
      var r := StripRight(t);
      assert StripRight(s) == r;
      assert t[..|r|] == s[..|r|];
      forall i | |r| <= i < |s|
        ensures IsSpace(s[i])
      {
        if i < |t| {
          assert s[i] == t[i];
        }
      }
    }
  }

  /** What strip removes is whitespace at either end, and what it keeps is the
      contiguous middle of `s`, which neither begins nor ends with whitespace. */
  lemma StripFacts(s: string)
    ensures var r, off := Strip(s), |s| - |StripLeft(s)|;
      && 0 <= off && off + |r| <= |s| && r == s[off..off + |r|]
      && (forall i | 0 <= i < off :: IsSpace(s[i]))
      && (forall i | off + |r| <= i < |s| :: IsSpace(s[i]))
      && (r == [] || (!IsSpace(r[0]) && !IsSpace(r[|r| - 1])))
  {
    StripLeftFacts(s);
    StripRightFacts(StripLeft(s));
    TrimmedMiddle(s, StripLeft(s), Strip(s));
  }

  /** A tail `l` of `s` after whitespace, and a head `r` of `l` before
      whitespace, make `r` the middle of `s` between the two runs. */
  lemma TrimmedMiddle(s: string, l: string, r: string)
    requires |l| <= |s| && l == s[|s| - |l|..]
    requires forall i | 0 <= i < |s| - |l| :: IsSpace(s[i])
    requires l == [] || !IsSpace(l[0])
    requires |r| <= |l| && r == l[..|r|]
    requires forall i | |r| <= i < |l| :: IsSpace(l[i])
    requires r == [] || !IsSpace(r[|r| - 1])
    ensures var off := |s| - |l|;
      && 0 <= off && off + |r| <= |s| && r == s[off..off + |r|]
      && (forall i | 0 <= i < off :: IsSpace(s[i]))
      && (forall i | off + |r| <= i < |s| :: IsSpace(s[i]))
      && (r == [] || (!IsSpace(r[0]) && !IsSpace(r[|r| - 1])))
  {
    var off := |s| - |l|;
    forall i | off + |r| <= i < |s|
      ensures IsSpace(s[i])
    {
      assert s[i] == l[i - off];
    }
  }

  /** A string with no whitespace at either end is its own strip. */
  lemma StripNoSpace(s: string)
    requires s == [] || (!IsSpace(s[0]) && !IsSpace(s[|s| - 1]))
    ensures Strip(s) == s
  {
  }

  /** `sub in s`: `sub` occurs in `s` as a contiguous substring. */
  predicate Contains(s: string, sub: string) {
    exists i | 0 <= i <= |s| - |sub| :: OccursAt(s, sub, i)
  }

  predicate OccursAt(s: string, sub: string, i: int) {
    0 <= i <= |s| - |sub| && s[i..i + |sub|] == sub
  }

  predicate IsDigit(c: char) {
    '0' <= c <= '9'
  }

  /** `s.isdigit()` on a byte string: non-empty and decimal digits only. */
  predicate IsDigits(s: string) {
    |s| > 0 && forall i | 0 <= i < |s| :: IsDigit(s[i])
  }

  function DigitValue(c: char): nat
    requires IsDigit(c)
  {
    c as int - '0' as int
  }

  /** The number a string of decimal digits denotes. */
  function DigitsValue(ds: string): nat
    requires forall i | 0 <= i < |ds| :: IsDigit(ds[i])
  {
    if ds == [] then 0 else DigitsValue(ds[..|ds| - 1]) * 10 + DigitValue(ds[|ds| - 1])
  }

  /** `s.lower()` on a byte string: only ASCII capitals change. */
  function Lower(s: string): (r: string)
    ensures |r| == |s|
    ensures forall i | 0 <= i < |s| :: r[i] == if 'A' <= s[i] <= 'Z' then (s[i] as int + 32) as char else s[i]
  {
    seq(|s|, i requires 0 <= i < |s| => if 'A' <= s[i] <= 'Z' then (s[i] as int + 32) as char else s[i])
  }

  /** `int(s)`: optional surrounding whitespace, an optional sign, then decimal
      digits; anything else is a ValueError (None here). */
  function ParseInt(s: string): Option<int> {
    var t := Strip(s);
    if |t| > 0 && (t[0] == '-' || t[0] == '+') then
      if IsDigits(t[1..]) then
        Some(if t[0] == '-' then -(DigitsValue(t[1..]) as int) else DigitsValue(t[1..]))
      else None
    else if IsDigits(t) then Some(DigitsValue(t))
    else None
  }

  /** A string that passes `isdigit()` is read by `int()` as its digits' value. */
  lemma ParseIntDigits(s: string)
    requires IsDigits(s)
    ensures ParseInt(s) == Some(DigitsValue(s))
  {
    StripNoSpace(s);
  }

  /** `float(s)` on the plain decimal forms: optional surrounding whitespace,
      an optional sign, digits with at most one decimal point, and at least one
      digit. The value is exact. */
  function ParseDecimal(s: string): Option<real> {
    var t := Strip(s);
    if |t| > 0 && (t[0] == '-' || t[0] == '+') then
      match ScanDecimal(t, 1, 0.0, false, 1.0, false)
      case None => None
      case Some(v) => Some(if t[0] == '-' then -v else v)
    else ScanDecimal(t, 0, 0.0, false, 1.0, false)
  }

  /** Reads the digits and the decimal point of `u` from index `i` on. `acc` is
      the value read so far, `dot` whether the point was seen, `scale` the
      weight of the last fraction digit read, and `digit` whether any digit was
      seen. */
  function ScanDecimal(u: string, i: nat, acc: real, dot: bool, scale: real, digit: bool): Option<real>
    requires i <= |u|
    decreases |u| - i
  {
    if i == |u| then (if digit then Some(acc) else None)
    else if u[i] == '.' then
      if dot then None else ScanDecimal(u, i + 1, acc, true, scale, digit)
    else if IsDigit(u[i]) then
      if dot then ScanDecimal(u, i + 1, acc + DigitValue(u[i]) as real * scale / 10.0, true, scale / 10.0, true)
      else ScanDecimal(u, i + 1, acc * 10.0 + DigitValue(u[i]) as real, false, scale, true)
    else None
  }

  predicate AllDigits(s: string) {
    forall i | 0 <= i < |s| :: IsDigit(s[i])
  }

  function Pow10(n: nat): (r: nat)
    ensures r >= 1
  {
    if n == 0 then 1 else 10 * Pow10(n - 1)
  }
}
