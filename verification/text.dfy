/** Text helpers that stand for the Python 2 string methods the importer relies on:
    `strip`, `lower`, `upper`, `capitalize`, `split(',')`, `','.join` and `int(text)`. */
module Text {
  import opened Wrappers

  /** The characters the row normaliser strips from cell text (`strip(' \t\n\r')`). */
  const CellBlanks: set<char> := {' ', '\t', '\n', '\r'}

  /** The characters a Python 2 byte string treats as whitespace (`strip()`, `int()`). */
  const Whitespace: set<char> := {' ', '\t', '\n', '\r', '\U{0B}', '\U{0C}'}

  // ---------------------------------------------------------------- stripping

  function TrimLeft(s: string, cs: set<char>): (r: string)
    ensures |r| <= |s| && r == s[|s| - |r|..]
    ensures forall i :: 0 <= i < |s| - |r| ==> s[i] in cs
    ensures r != [] ==> r[0] !in cs
    decreases |s|
  {
    if s != [] && s[0] in cs then
      var r := TrimLeft(s[1..], cs);
      assert forall i :: 1 <= i < |s| - |r| ==> s[i] == s[1..][i - 1];
      r
    else s
  }

  function TrimRight(s: string, cs: set<char>): (r: string)
    ensures |r| <= |s| && r == s[..|r|]
    ensures forall i :: |r| <= i < |s| ==> s[i] in cs
    ensures r != [] ==> r[|r| - 1] !in cs
    decreases |s|
  {
    if s != [] && s[|s| - 1] in cs then
      var r := TrimRight(s[..|s| - 1], cs);
      assert forall i :: |r| <= i < |s| - 1 ==> s[i] == s[..|s| - 1][i];
      r
    else s
  }

  /** `r` is `s` with a run of `cs` characters cut off at each end. */
  ghost predicate StripsTo(s: string, cs: set<char>, r: string)
  {
    exists i, j :: IsCut(s, cs, i, j) && r == s[i..j]
  }

  /** `r` neither starts nor ends with a character of `cs`. */
  predicate CleanEnds(r: string, cs: set<char>)
  {
    r != [] ==> r[0] !in cs && r[|r| - 1] !in cs
  }

  /** Python's `s.strip(chars)`: removes every leading and trailing character of `cs`. */
  function Strip(s: string, cs: set<char>): (r: string)
    ensures |r| <= |s|
    ensures r != [] ==> r[0] !in cs && r[|r| - 1] !in cs
    ensures (s == [] || (s[0] !in cs && s[|s| - 1] !in cs)) ==> r == s
  {
    var l := TrimLeft(s, cs);
    var r := TrimRight(l, cs);
    if r != [] then
      assert r[0] == l[0];
      r
    else r
  }

  /** What `strip` computes: the slice of `s` between its first and last character
      outside `cs`, so that only `cs` characters are cut, only at the ends, and the
      result neither starts nor ends with one. */
  lemma StripSpec(s: string, cs: set<char>)
    ensures StripsTo(s, cs, Strip(s, cs)) && CleanEnds(Strip(s, cs), cs)
  {
    var l := TrimLeft(s, cs);
    TrimmedCut(s, cs, l, TrimRight(l, cs));
  }

  /** Trimming the left end and then the right end of `s` cuts it as `StripsTo` says. */
  lemma TrimmedCut(s: string, cs: set<char>, l: string, r: string)
    requires |l| <= |s| && l == s[|s| - |l|..]
    requires forall k :: 0 <= k < |s| - |l| ==> s[k] in cs
    requires |r| <= |l| && r == l[..|r|]
    requires forall k :: |r| <= k < |l| ==> l[k] in cs
    ensures StripsTo(s, cs, r)
  {
    var i, j := |s| - |l|, |s| - |l| + |r|;
    assert r == s[i..j];
    forall k | j <= k < |s| ensures s[k] in cs {
      assert s[k] == l[k - i];
    }
    assert IsCut(s, cs, i, j);
  }

  /** A non-empty cut with clean ends lies within every cut that leaves only `cs`
      characters outside it. */
  lemma CutBounds(s: string, cs: set<char>, i1: nat, j1: nat, i2: nat, j2: nat)
    requires i1 < j1 <= |s| && i2 <= j2 <= |s|
    requires CleanEnds(s[i1..j1], cs)
    requires forall k :: 0 <= k < i2 ==> s[k] in cs
    requires forall k :: j2 <= k < |s| ==> s[k] in cs
    ensures i2 <= i1 < j1 <= j2
  {
    assert s[i1] == s[i1..j1][0] && s[j1 - 1] == s[i1..j1][j1 - i1 - 1];
  }

  /** At most one cut of `s` has clean ends: `StripsTo` with `CleanEnds` fixes the
      result of `Strip`. */
  lemma StripUnique(s: string, cs: set<char>, r1: string, r2: string)
    requires StripsTo(s, cs, r1) && CleanEnds(r1, cs)
    requires StripsTo(s, cs, r2) && CleanEnds(r2, cs)
    ensures r1 == r2
  {
    var i1, j1 :| IsCut(s, cs, i1, j1) && r1 == s[i1..j1];
    var i2, j2 :| IsCut(s, cs, i2, j2) && r2 == s[i2..j2];
    CutsAgree(s, cs, i1, j1, i2, j2);
  }

  /** Cutting `s` at `i` and `j` leaves only `cs` characters outside the cut. */
  ghost predicate IsCut(s: string, cs: set<char>, i: int, j: int)
  {
    && 0 <= i <= j <= |s|
    && (forall k :: 0 <= k < i ==> s[k] in cs)
    && (forall k :: j <= k < |s| ==> s[k] in cs)
  }

  lemma CutsAgree(s: string, cs: set<char>, i1: int, j1: int, i2: int, j2: int)
    requires IsCut(s, cs, i1, j1) && CleanEnds(s[i1..j1], cs)
    requires IsCut(s, cs, i2, j2) && CleanEnds(s[i2..j2], cs)
    ensures s[i1..j1] == s[i2..j2]
  {
    if i1 < j1 {
      CutBounds(s, cs, i1, j1, i2, j2);
    }
    if i2 < j2 {
      CutBounds(s, cs, i2, j2, i1, j1);
    }
  }

  // ---------------------------------------------------------------- letter case

  /** ASCII lower-casing, as `str.lower()` does on a Python 2 byte string. */
  function LowerChar(c: char): char
  {
    if 'A' <= c <= 'Z' then (c as int + 32) as char else c
  }

  function UpperChar(c: char): char
  {
    if 'a' <= c <= 'z' then (c as int - 32) as char else c
  }

  function Lower(s: string): string
  {
    seq(|s|, i requires 0 <= i < |s| => LowerChar(s[i]))
  }

  function Upper(s: string): string
  {
    seq(|s|, i requires 0 <= i < |s| => UpperChar(s[i]))
  }

  /** Python's `str.capitalize()`: the first character upper-cased, the rest lower-cased. */
  function Capitalize(s: string): string
  {
    if s == [] then [] else [UpperChar(s[0])] + Lower(s[1..])
  }

  // ---------------------------------------------------------------- split and join

  /** Python's `s.split(d)` for a one-character separator: never empty, and no part holds `d`. */
  function Split(s: string, d: char): (parts: seq<string>)
    ensures |parts| >= 1
    ensures forall i :: 0 <= i < |parts| ==> d !in parts[i]
    decreases |s|
  {
    if s == [] then [[]]
    else
      var rest := Split(s[1..], d);
      if s[0] == d then [[]] + rest else [[s[0]] + rest[0]] + rest[1..]
  }

  /** A split has one part more than the text has separators. */
  lemma {:induction false} SplitCount(s: string, d: char)
    ensures |Split(s, d)| == multiset(s)[d] + 1
    decreases |s|
  {
    if s != [] {
      SplitCount(s[1..], d);
      assert s == [s[0]] + s[1..];
    }
  }

  /** Python's `d.join(parts)`. */
  function Join(parts: seq<string>, d: char): string
    decreases |parts|
  {
    if parts == [] then []
    else if |parts| == 1 then parts[0]
    else parts[0] + [d] + Join(parts[1..], d)
  }

  /** Joining the parts of a split restores the text. */
  lemma {:induction false} JoinSplit(s: string, d: char)
    ensures Join(Split(s, d), d) == s
    decreases |s|
  {
    if s != [] {
      var rest := Split(s[1..], d);
      JoinSplit(s[1..], d);
      if s[0] == d {
        assert Split(s, d) == [[]] + rest;
        assert [d] + s[1..] == s;
      } else {
        JoinConsFirst(s[0], rest, d);
        assert [s[0]] + s[1..] == s;
      }
    }
  }

  /** Putting a character in front of the first part puts it in front of the join. */
  lemma JoinConsFirst(c: char, parts: seq<string>, d: char)
    requires |parts| >= 1
    ensures Join([[c] + parts[0]] + parts[1..], d) == [c] + Join(parts, d)
  {
    var ps := [[c] + parts[0]] + parts[1..];
    assert ps[0] == [c] + parts[0] && ps[1..] == parts[1..];
    if |parts| > 1 {
      assert Join(ps, d) == ([c] + parts[0]) + [d] + Join(parts[1..], d);
      assert Join(parts, d) == parts[0] + [d] + Join(parts[1..], d);
    }
  }

  lemma {:induction false} SplitWithoutSeparator(p: string, d: char)
    requires d !in p
    ensures Split(p, d) == [p]
    decreases |p|
  {
    if p != [] {
      SplitWithoutSeparator(p[1..], d);
      assert [p[0]] + p[1..] == p;
    }
  }

  lemma {:induction false} SplitAtSeparator(p: string, d: char, t: string)
    requires d !in p
    ensures Split(p + [d] + t, d) == [p] + Split(t, d)
    decreases |p|
  {
    if p == [] {
      assert p + [d] + t == [d] + t;
      assert ([d] + t)[1..] == t;
    } else {
      SplitAtSeparator(p[1..], d, t);
      assert (p + [d] + t)[1..] == p[1..] + [d] + t;
      assert [p[0]] + p[1..] == p;
    }
  }

  /** Splitting a join of separator-free parts gives the parts back. */
  lemma {:induction false} SplitJoin(parts: seq<string>, d: char)
    requires |parts| >= 1
    requires forall i :: 0 <= i < |parts| ==> d !in parts[i]
    ensures Split(Join(parts, d), d) == parts
    decreases |parts|
  {
    if |parts| == 1 {
      SplitWithoutSeparator(parts[0], d);
    } else {
      SplitJoin(parts[1..], d);
      SplitAtSeparator(parts[0], d, Join(parts[1..], d));
      assert [parts[0]] + parts[1..] == parts;
    }
  }

  // ---------------------------------------------------------------- integers

  predicate IsDigit(c: char)
  {
    '0' <= c <= '9'
  }

  predicate AllDigits(s: string)
  {
    forall i :: 0 <= i < |s| ==> IsDigit(s[i])
  }

  predicate IsDigits(s: string)
  {
    |s| > 0 && AllDigits(s)
  }

  function DigitsValue(s: string): nat
    requires AllDigits(s)
    decreases |s|
  {
    if s == [] then 0
    else DigitsValue(s[..|s| - 1]) * 10 + (s[|s| - 1] as int - '0' as int)
  }

  function DigitChar(n: nat): char
    requires n < 10
  {
    ('0' as int + n) as char
  }

  function NatToString(n: nat): (s: string)
    ensures IsDigits(s)
    decreases n
  {
    if n < 10 then [DigitChar(n)] else NatToString(n / 10) + [DigitChar(n % 10)]
  }

  /** Python's `str(n)` for an integer. */
  function IntToString(n: int): string
  {
    if n < 0 then "-" + NatToString(-n) else NatToString(n)
  }

  /** Python's `int(text)`: optional surrounding whitespace, an optional sign and
      at least one decimal digit; anything else is a `ValueError` (`None` here). */
  function ParseInt(s: string): Option<int>
  {
    ParseSigned(Strip(s, Whitespace))
  }

  /** `int()` once the surrounding whitespace is gone. */
  function ParseSigned(t: string): Option<int>
  {
    if |t| > 0 && (t[0] == '+' || t[0] == '-') && IsDigits(t[1..]) then
      Some(if t[0] == '-' then -(DigitsValue(t[1..]) as int) else DigitsValue(t[1..]))
    else if IsDigits(t) then Some(DigitsValue(t))
    else None
  }

  lemma {:induction false} DigitsOfNat(n: nat)
    ensures DigitsValue(NatToString(n)) == n
    decreases n
  {
    var s := NatToString(n);
    if n >= 10 {
      DigitsOfNat(n / 10);
      assert s[..|s| - 1] == NatToString(n / 10);
    }
  }

  lemma ParseSignedOfDigits(d: string)
    requires IsDigits(d)
    ensures ParseSigned(d) == Some(DigitsValue(d))
  {
    assert IsDigit(d[0]);
  }

  lemma ParseSignedOfNegative(d: string)
    requires IsDigits(d)
    ensures ParseSigned("-" + d) == Some(-(DigitsValue(d) as int))
  {
    assert ("-" + d)[1..] == d;
  }

  lemma StripOfClean(s: string, cs: set<char>)
    requires s != [] && s[0] !in cs && s[|s| - 1] !in cs
    ensures Strip(s, cs) == s
  {
  }

  lemma ParseIntOfDigits(d: string)
    requires IsDigits(d)
    ensures ParseInt(d) == Some(DigitsValue(d))
  {
    assert IsDigit(d[0]) && IsDigit(d[|d| - 1]);
    assert Strip(d, Whitespace) == d;
    ParseSignedOfDigits(d);
  }

  lemma ParseIntOfNegativeDigits(d: string)
    requires IsDigits(d)
    ensures ParseInt("-" + d) == Some(-(DigitsValue(d) as int))
  {
    var s := "-" + d;
    assert s[|s| - 1] == d[|d| - 1];
    assert IsDigit(d[|d| - 1]);
    assert Strip(s, Whitespace) == s;
    ParseSignedOfNegative(d);
  }

  /** `int(str(n)) == n`: the integer parser inverts the integer printer. */
  lemma ParseIntRoundTrip(n: int)
    ensures ParseInt(IntToString(n)) == Some(n)
  {
    var m: nat := if n < 0 then -n else n;
    DigitsOfNat(m);
    if n < 0 {
      ParseIntOfNegativeDigits(NatToString(m));
    } else {
      ParseIntOfDigits(NatToString(m));
    }
  }

  // ---------------------------------------------------------------- case and parsing

  lemma LowerKeepsWhitespace(c: char)
    ensures LowerChar(c) in Whitespace <==> c in Whitespace
  {
  }

  lemma {:induction false} LowerTrimLeft(s: string)
    ensures TrimLeft(Lower(s), Whitespace) == Lower(TrimLeft(s, Whitespace))
    decreases |s|
  {
    if s != [] {
      var ls := Lower(s);
      assert ls[0] == LowerChar(s[0]);
      LowerKeepsWhitespace(s[0]);
      if s[0] in Whitespace {
        assert ls[1..] == Lower(s[1..]);
        LowerTrimLeft(s[1..]);
      }
    }
  }

  lemma {:induction false} LowerTrimRight(s: string)
    ensures TrimRight(Lower(s), Whitespace) == Lower(TrimRight(s, Whitespace))
    decreases |s|
  {
    if s != [] {
      var ls := Lower(s);
      assert ls[|s| - 1] == LowerChar(s[|s| - 1]);
      LowerKeepsWhitespace(s[|s| - 1]);
      if s[|s| - 1] in Whitespace {
        assert ls[..|s| - 1] == Lower(s[..|s| - 1]);
        LowerTrimRight(s[..|s| - 1]);
      }
    }
  }

  lemma LowerOfDigits(s: string)
    requires AllDigits(s)
    ensures Lower(s) == s
  {
  }

  lemma AllDigitsOfLower(s: string)
    ensures AllDigits(Lower(s)) <==> AllDigits(s)
  {
    if AllDigits(Lower(s)) {
      forall i | 0 <= i < |s| ensures IsDigit(s[i]) {
        assert Lower(s)[i] == LowerChar(s[i]);
      }
    }
  }

  lemma ParseSignedIgnoresCase(t: string)
    ensures ParseSigned(Lower(t)) == ParseSigned(t)
  {
    var lt := Lower(t);
    AllDigitsOfLower(t);
    if AllDigits(t) { LowerOfDigits(t); }
    if |t| > 0 {
      assert lt[0] == LowerChar(t[0]);
      assert lt[1..] == Lower(t[1..]);
      AllDigitsOfLower(t[1..]);
      if AllDigits(t[1..]) { LowerOfDigits(t[1..]); }
    }
  }

  /** Lower-casing a text does not change what `int()` makes of it. */
  lemma ParseIntIgnoresCase(s: string)
    ensures ParseInt(Lower(s)) == ParseInt(s)
  {
    LowerTrimLeft(s);
    LowerTrimRight(TrimLeft(s, Whitespace));
    ParseSignedIgnoresCase(Strip(s, Whitespace));
  }
}
