/** The string operations the game applies to answers, level names and file
    paths: Python's str.lower, str.strip, str.split, str.join, int() and str()
    on integers, and the sentence-capitalising regular expression, written out
    character by character for ASCII and the Cyrillic block U+0400-U+04FF. */
module Strings {
  import opened Results

  // ---------------------------------------------------------------------------
  // Characters

  /** Python's str.isspace: exactly the characters of Unicode category Zs and
      of bidirectional class WS, B or S. */
  predicate IsSpace(c: char) {
    || c == ' ' || c == '\t' || c == '\n' || c == '\r'
    || c == '\U{000B}' || c == '\U{000C}'
    || ('\U{001C}' <= c <= '\U{001F}')
    || c == '\U{0085}' || c == '\U{00A0}' || c == '\U{1680}'
    || ('\U{2000}' <= c <= '\U{200A}')
    || c == '\U{2028}' || c == '\U{2029}' || c == '\U{202F}'
    || c == '\U{205F}' || c == '\U{3000}'
  }

  /** The capital letters of the Cyrillic extensions U+0460-U+04FF: in most
      runs the capital is the even code point and its small form the next one;
      in the run Ӂ-ӎ the capital is odd; and palochka Ӏ pairs with ӏ at U+04CF. */
  predicate IsExtendedUpper(c: char) {
    var n := c as int;
    || (((0x0460 <= n <= 0x0481) || (0x048A <= n <= 0x04BF) || (0x04D0 <= n <= 0x04FF)) && n % 2 == 0)
    || (0x04C1 <= n <= 0x04CE && n % 2 == 1)
    || n == 0x04C0
  }

  /** The small letters paired with IsExtendedUpper. */
  predicate IsExtendedLower(c: char) {
    var n := c as int;
    || (((0x0460 <= n <= 0x0481) || (0x048A <= n <= 0x04BF) || (0x04D0 <= n <= 0x04FF)) && n % 2 == 1)
    || (0x04C1 <= n <= 0x04CE && n % 2 == 0)
    || n == 0x04CF
  }

  predicate IsUpperLetter(c: char) {
    ('A' <= c <= 'Z') || ('\U{0400}' <= c <= '\U{042F}') || IsExtendedUpper(c)
  }

  predicate IsLowerLetter(c: char) {
    ('a' <= c <= 'z') || ('\U{0430}' <= c <= '\U{045F}') || IsExtendedLower(c)
  }

  /** Python's str.lower on one character: Latin A-Z, Cyrillic А-Я, the
      Cyrillic letters Ѐ-Џ (among them Ё) and the paired letters of U+0460-U+04FF
      (Ґ, Қ, Ә, Ө, Ү and the rest) map to their small forms. */
  function LowerChar(c: char): (r: char)
    ensures IsUpperLetter(c) ==> IsLowerLetter(r)
    ensures !IsUpperLetter(c) ==> r == c
  {
    if 'A' <= c <= 'Z' then (c as int + 32) as char
    else if '\U{0410}' <= c <= '\U{042F}' then (c as int + 32) as char
    else if '\U{0400}' <= c <= '\U{040F}' then (c as int + 80) as char
    else if c == '\U{04C0}' then '\U{04CF}'
    else if IsExtendedUpper(c) then (c as int + 1) as char
    else c
  }

  /** Python's str.upper on one character, the inverse of LowerChar. */
  function UpperChar(c: char): (r: char)
    ensures IsLowerLetter(c) ==> IsUpperLetter(r) && LowerChar(r) == c
    ensures !IsLowerLetter(c) ==> r == c
  {
    if 'a' <= c <= 'z' then (c as int - 32) as char
    else if '\U{0430}' <= c <= '\U{044F}' then (c as int - 32) as char
    else if '\U{0450}' <= c <= '\U{045F}' then (c as int - 80) as char
    else if c == '\U{04CF}' then '\U{04C0}'
    else if IsExtendedLower(c) then (c as int - 1) as char
    else c
  }

  /** Upper and lower case are inverse on the letters that have both forms. */
  lemma CaseRoundTrip(c: char)
    ensures IsUpperLetter(c) ==> UpperChar(LowerChar(c)) == c
    ensures IsLowerLetter(c) ==> LowerChar(UpperChar(c)) == c
    ensures IsUpperLetter(c) || IsLowerLetter(c) || (LowerChar(c) == c && UpperChar(c) == c)
  {
  }

  function Lower(s: string): (r: string)
    ensures |r| == |s|
    ensures forall i :: 0 <= i < |s| ==> r[i] == LowerChar(s[i])
  {
    seq(|s|, i requires 0 <= i < |s| => LowerChar(s[i]))
  }

  function Upper(s: string): (r: string)
    ensures |r| == |s|
    ensures forall i :: 0 <= i < |s| ==> r[i] == UpperChar(s[i])
  {
    seq(|s|, i requires 0 <= i < |s| => UpperChar(s[i]))
  }

  /** Python's s.replace(a, b) for single characters a and b. */
  function ReplaceChar(s: string, a: char, b: char): (r: string)
    ensures |r| == |s|
    ensures forall i :: 0 <= i < |s| ==> r[i] == (if s[i] == a then b else s[i])
  {
    seq(|s|, i requires 0 <= i < |s| => if s[i] == a then b else s[i])
  }

  const SmallYo: char := 'ё'
  const SmallYe: char := 'е'

  /** The normal form answers are compared in: lower case, then ё written as е. */
  function Norm(s: string): string {
    ReplaceChar(Lower(s), SmallYo, SmallYe)
  }

  function NormChar(c: char): char {
    var l := LowerChar(c);
    if l == SmallYo then SmallYe else l
  }

  lemma NormPointwise(s: string)
    ensures |Norm(s)| == |s|
    ensures forall i :: 0 <= i < |s| ==> Norm(s)[i] == NormChar(s[i])
  {
  }

  /** Normalising twice is normalising once. */
  lemma NormIdempotent(s: string)
    ensures Norm(Norm(s)) == Norm(s)
  {
    NormPointwise(s);
    NormPointwise(Norm(s));
  }

  /** Upper- or lower-casing, and writing е as ё, do not change the normal form. */
  lemma NormIgnoresCaseAndYo(s: string)
    ensures Norm(Upper(s)) == Norm(s)
    ensures Norm(Lower(s)) == Norm(s)
    ensures Norm(ReplaceChar(s, SmallYe, SmallYo)) == Norm(s)
  {
    NormPointwise(s);
    NormPointwise(Upper(s));
    NormPointwise(Lower(s));
    NormPointwise(ReplaceChar(s, SmallYe, SmallYo));
  }

  // ---------------------------------------------------------------------------
  // Stripping

  function StripLeft(s: string): (r: string)
    ensures |r| <= |s| && r == s[|s| - |r|..]
    ensures r == [] || !IsSpace(r[0])
    ensures forall k :: 0 <= k < |s| - |r| ==> IsSpace(s[k])
    decreases |s|
  {
    if |s| > 0 && IsSpace(s[0]) then StripLeft(s[1..]) else s
  }

  function StripRight(s: string): (r: string)
    ensures |r| <= |s| && r == s[..|r|]
    ensures r == [] || !IsSpace(r[|r| - 1])
    ensures forall k :: |r| <= k < |s| ==> IsSpace(s[k])
    decreases |s|
  {
    if |s| > 0 && IsSpace(s[|s| - 1]) then StripRight(s[..|s| - 1]) else s
  }

  /** r sits in s at position i, and everything around it is whitespace. */
  predicate TrimmedAt(s: string, r: string, i: int) {
    && 0 <= i <= |s| - |r|
    && r == s[i..i + |r|]
    && (forall k :: 0 <= k < i ==> IsSpace(s[k]))
    && (forall k :: i + |r| <= k < |s| ==> IsSpace(s[k]))
  }

  /** Python's str.strip(); StripTrims states what it returns. */
  function Strip(s: string): string {
    StripRight(StripLeft(s))
  }

  /** Where the stripped text starts in s. */
  function StripOffset(s: string): nat {
    |s| - |StripLeft(s)|
  }

  /** The strip is the infix left after cutting whitespace off both ends: it
      neither starts nor ends with whitespace, and everything cut off is
      whitespace. */
  lemma StripTrims(s: string)
    ensures TrimmedAt(s, Strip(s), StripOffset(s))
    ensures Strip(s) == [] || (!IsSpace(Strip(s)[0]) && !IsSpace(Strip(s)[|Strip(s)| - 1]))
  {
    var l := StripLeft(s);
    TrimmedWithin(s, l, StripRight(l));
  }

  /** Trimming the end of a suffix trimmed off the start trims both ends. */
  lemma TrimmedWithin(s: string, l: string, r: string)
    requires |l| <= |s| && l == s[|s| - |l|..]
    requires forall k :: 0 <= k < |s| - |l| ==> IsSpace(s[k])
    requires |r| <= |l| && r == l[..|r|]
    requires forall k :: |r| <= k < |l| ==> IsSpace(l[k])
    ensures TrimmedAt(s, r, |s| - |l|)
  {
    var i := |s| - |l|;
    assert r == s[i..i + |r|];
    forall k | i + |r| <= k < |s|
      ensures IsSpace(s[k])
    {
      assert s[k] == l[k - i];
    }
  }

  // ---------------------------------------------------------------------------
  // Searching, splitting and joining

  predicate StartsWith(s: string, p: string) {
    p <= s
  }

  predicate EndsWith(s: string, p: string) {
    |p| <= |s| && s[|s| - |p|..] == p
  }

  /** Python's `sub in s`. */
  predicate Contains(s: string, sub: string)
    decreases |s|
  {
    sub <= s || (|s| > 0 && Contains(s[1..], sub))
  }

  /** Python's s.split(sep) for a non-empty separator: cut at every occurrence
      of sep, scanning from the left. */
  function SplitSep(s: string, sep: string): (parts: seq<string>)
    requires |sep| > 0
    ensures |parts| >= 1
    decreases |s|
  {
    if |s| == 0 then [""]
    else if sep <= s then [""] + SplitSep(s[|sep|..], sep)
    else
      var rest := SplitSep(s[1..], sep);
      [[s[0]] + rest[0]] + rest[1..]
  }

  /** Python's sep.join(parts). */
  function JoinWith(parts: seq<string>, sep: string): string
    decreases |parts|
  {
    if |parts| == 0 then ""
    else if |parts| == 1 then parts[0]
    else parts[0] + sep + JoinWith(parts[1..], sep)
  }

  function Last<T>(xs: seq<T>): T
    requires |xs| > 0
  {
    xs[|xs| - 1]
  }

  lemma JoinConsFirst(c: char, parts: seq<string>, sep: string)
    requires |parts| >= 1
    ensures JoinWith([[c] + parts[0]] + parts[1..], sep) == [c] + JoinWith(parts, sep)
  {
    var ps := [[c] + parts[0]] + parts[1..];
    if |parts| > 1 {
      assert ps[1..] == parts[1..];
    }
  }

  lemma JoinEmptyFirst(rest: seq<string>, sep: string)
    requires |rest| >= 1
    ensures JoinWith([""] + rest, sep) == sep + JoinWith(rest, sep)
  {
    var ps := [""] + rest;
    assert ps[1..] == rest;
  }

  /** Joining the pieces of a split with the same separator gives back the
      original string. */
  lemma {:induction false} JoinSplit(s: string, sep: string)
    requires |sep| > 0
    ensures JoinWith(SplitSep(s, sep), sep) == s
    decreases |s|
  {
    if |s| == 0 {
    } else if sep <= s {
      var tail := s[|sep|..];
      JoinSplit(tail, sep);
      JoinEmptyFirst(SplitSep(tail, sep), sep);
      assert s == sep + tail;
    } else {
      JoinSplit(s[1..], sep);
      JoinConsFirst(s[0], SplitSep(s[1..], sep), sep);
      assert s == [s[0]] + s[1..];
    }
  }

  /** A string without the separator splits into itself alone. */
  lemma {:induction false} SplitWithoutSep(s: string, sep: string)
    requires |sep| > 0 && !Contains(s, sep)
    ensures SplitSep(s, sep) == [s]
    decreases |s|
  {
    if |s| > 0 {
      SplitWithoutSep(s[1..], sep);
      assert [s[0]] + s[1..] == s;
    }
  }

  /** A split has two or more pieces exactly when the separator occurs. */
  lemma {:induction false} SplitHasPiecesIffContains(s: string, sep: string)
    requires |sep| > 0
    ensures |SplitSep(s, sep)| >= 2 <==> Contains(s, sep)
    decreases |s|
  {
    if |s| == 0 {
    } else if sep <= s {
    } else {
      SplitHasPiecesIffContains(s[1..], sep);
    }
  }

  /** Splitting `d + sep + rest`, where d holds no first character of sep,
      cuts exactly at the sep after d. */
  lemma {:induction false} SplitAfterHead(d: string, sep: string, rest: string)
    requires |sep| > 0
    requires forall k :: 0 <= k < |d| ==> d[k] != sep[0]
    ensures SplitSep(d + sep + rest, sep) == [d] + SplitSep(rest, sep)
    decreases |d|
  {
    var s := d + sep + rest;
    if |d| == 0 {
      assert s == sep + rest;
      assert s[|sep|..] == rest;
    } else {
      assert s[0] == d[0] && s[0] != sep[0];
      assert !(sep <= s);
      assert s[1..] == d[1..] + sep + rest;
      SplitAfterHead(d[1..], sep, rest);
      assert [s[0]] + d[1..] == d;
    }
  }

  /** `d + sep + n` with no sep inside n and no first sep character in d
      splits into exactly [d, n]. */
  lemma SplitTwo(d: string, sep: string, n: string)
    requires |sep| > 0
    requires forall k :: 0 <= k < |d| ==> d[k] != sep[0]
    requires !Contains(n, sep)
    ensures SplitSep(d + sep + n, sep) == [d, n]
  {
    SplitAfterHead(d, sep, n);
    SplitWithoutSep(n, sep);
  }

  lemma {:induction false} ContainsAfterPrefix(p: string, s: string, sub: string)
    requires Contains(s, sub)
    ensures Contains(p + s, sub)
    decreases |p|
  {
    if |p| == 0 {
      assert p + s == s;
    } else {
      ContainsAfterPrefix(p[1..], s, sub);
      assert (p + s)[1..] == p[1..] + s;
    }
  }

  /** For a one-character separator, `[c] in s` is plain membership. */
  lemma {:induction false} ContainsCharIff(s: string, c: char)
    ensures Contains(s, [c]) <==> c in s
    decreases |s|
  {
    if |s| > 0 {
      ContainsCharIff(s[1..], c);
      assert s == [s[0]] + s[1..];
    }
  }

  /** The last piece of a split is what follows the last separator. */
  lemma {:induction false} LastPieceAfterSep(x: string, c: char, b: string)
    requires c !in b
    ensures |SplitSep(x + [c] + b, [c])| >= 2
    ensures Last(SplitSep(x + [c] + b, [c])) == b
    decreases |x|
  {
    var s := x + [c] + b;
    if |x| == 0 {
      assert s == [c] + b;
      assert s[|[c]|..] == b;
      ContainsCharIff(b, c);
      SplitWithoutSep(b, [c]);
    } else {
      assert s[1..] == x[1..] + [c] + b;
      LastPieceAfterSep(x[1..], c, b);
      if [c] <= s {
        assert s[|[c]|..] == s[1..];
      }
    }
  }

  /** Python's sep.join(s.split(sep)[1:]): everything after the first separator. */
  function DropFirstField(s: string, sep: string): string
    requires |sep| > 0
  {
    JoinWith(SplitSep(s, sep)[1..], sep)
  }

  /** Dropping the first field of `d + sep + rest` gives back rest whenever d
      holds no first separator character. */
  lemma DropFirstFieldAfterHead(d: string, sep: string, rest: string)
    requires |sep| > 0
    requires forall k :: 0 <= k < |d| ==> d[k] != sep[0]
    ensures DropFirstField(d + sep + rest, sep) == rest
  {
    SplitAfterHead(d, sep, rest);
    assert ([d] + SplitSep(rest, sep))[1..] == SplitSep(rest, sep);
    JoinSplit(rest, sep);
  }

  function CountChar(s: string, c: char): nat
    decreases |s|
  {
    if |s| == 0 then 0 else (if s[0] == c then 1 else 0) + CountChar(s[1..], c)
  }

  /** Splitting on one character gives one piece more than it has occurrences. */
  lemma {:induction false} SplitCharCount(s: string, c: char)
    ensures |SplitSep(s, [c])| == CountChar(s, c) + 1
    decreases |s|
  {
    if |s| > 0 {
      SplitCharCount(s[1..], c);
      if [c] <= s {
        assert s[|[c]|..] == s[1..];
      }
    }
  }

  /** No piece of a split on one character contains that character. */
  lemma {:induction false} SplitCharPiecesFree(s: string, c: char)
    ensures forall i :: 0 <= i < |SplitSep(s, [c])| ==> c !in SplitSep(s, [c])[i]
    decreases |s|
  {
    if |s| > 0 {
      SplitCharPiecesFree(s[1..], c);
      if [c] <= s {
        assert s[|[c]|..] == s[1..];
      } else {
        assert s[0] != c;
        assert c !in [s[0]] + SplitSep(s[1..], [c])[0];
      }
    }
  }

  /** Python's " ".join(name.split("_")), the way level and puzzle names are
      shown to players. */
  function UnderscoresToSpaces(name: string): string {
    JoinWith(SplitSep(name, "_"), " ")
  }

  /** Showing a name replaces each underscore by a space and keeps every other
      character. */
  lemma {:induction false} UnderscoresToSpacesReplaces(name: string)
    ensures UnderscoresToSpaces(name) == ReplaceChar(name, '_', ' ')
    decreases |name|
  {
    if |name| > 0 {
      UnderscoresToSpacesReplaces(name[1..]);
      var rest := SplitSep(name[1..], "_");
      if "_" <= name {
        assert name[|"_"|..] == name[1..];
        assert ([""] + rest)[1..] == rest;
      } else {
        JoinConsFirst(name[0], rest, " ");
      }
      assert ReplaceChar(name, '_', ' ') == [if name[0] == '_' then ' ' else name[0]] + ReplaceChar(name[1..], '_', ' ');
    }
  }

  // ---------------------------------------------------------------------------
  // Integers as decimal text

  predicate IsDigit(c: char) {
    '0' <= c <= '9'
  }

  function DigitChar(d: nat): (c: char)
    requires d < 10
    ensures IsDigit(c)
  {
    ('0' as int + d) as char
  }

  function DigitValue(c: char): nat
    requires IsDigit(c)
  {
    c as int - '0' as int
  }

  /** Python's str(n) for n >= 0. */
  function NatToString(n: nat): (s: string)
    ensures |s| > 0
    ensures forall k :: 0 <= k < |s| ==> IsDigit(s[k])
    decreases n
  {
    if n < 10 then [DigitChar(n)] else NatToString(n / 10) + [DigitChar(n % 10)]
  }

  /** Python's str(n). */
  function IntToString(n: int): string {
    if n < 0 then "-" + NatToString(-n) else NatToString(n)
  }

  function DigitsValue(s: string): nat
    requires forall k :: 0 <= k < |s| ==> IsDigit(s[k])
    decreases |s|
  {
    if |s| == 0 then 0 else DigitsValue(s[..|s| - 1]) * 10 + DigitValue(s[|s| - 1])
  }

  predicate AllDigits(s: string) {
    |s| > 0 && forall k :: 0 <= k < |s| ==> IsDigit(s[k])
  }

  /** Python's int(s) on a string: surrounding whitespace, an optional sign and
      a non-empty run of ASCII digits; anything else is a ValueError (None). */
  function ParseInt(s: string): (r: Option<int>)
    ensures r.Some? ==> exists k :: 0 <= k < |s| && IsDigit(s[k])
  {
    StripTrims(s);
    var t := Strip(s);
    if |t| > 0 && (t[0] == '-' || t[0] == '+') then
      var ds := t[1..];
      if AllDigits(ds) then
        assert IsDigit(t[1]);
        var v: int := DigitsValue(ds);
        Some(if t[0] == '-' then -v else v)
      else None
    else if AllDigits(t) then
      assert IsDigit(t[0]);
      Some(DigitsValue(t))
    else None
  }

  lemma {:induction false} DigitsOfNat(n: nat)
    ensures DigitsValue(NatToString(n)) == n
    decreases n
  {
    var s := NatToString(n);
    if n >= 10 {
      DigitsOfNat(n / 10);
      assert s[..|s| - 1] == NatToString(n / 10);
    }
  }

  /** A string with no whitespace at either end is its own strip. */
  lemma StripKeeps(s: string)
    requires |s| > 0 && !IsSpace(s[0]) && !IsSpace(s[|s| - 1])
    ensures Strip(s) == s
  {
    assert StripLeft(s) == s;
    assert StripRight(s) == s;
  }

  lemma ParseDigits(s: string)
    requires AllDigits(s)
    ensures ParseInt(s) == Some(DigitsValue(s))
  {
    assert IsDigit(s[0]) && IsDigit(s[|s| - 1]);
    StripKeeps(s);
  }

  lemma NegativeStripKeeps(s: string)
    requires AllDigits(s)
    ensures Strip("-" + s) == "-" + s
  {
    var t := "-" + s;
    assert t[|t| - 1] == s[|s| - 1] && IsDigit(s[|s| - 1]);
    StripKeeps(t);
  }

  lemma DropSign(s: string)
    ensures ("-" + s)[0] == '-' && ("-" + s)[1..] == s
  {
  }

  lemma ParseSigned(t: string, m: int)
    requires Strip(t) == t && |t| > 1 && t[0] == '-' && AllDigits(t[1..]) && DigitsValue(t[1..]) == m
    ensures ParseInt(t) == Some(-m)
  {
  }

  /** Reading back a printed integer gives the integer. */
  lemma ParsePrintedInt(n: int)
    ensures ParseInt(IntToString(n)) == Some(n)
  {
    if n < 0 {
      ParsePrintedNegative(-n);
    } else {
      ParsePrintedNatural(n);
    }
  }

  lemma ParsePrintedNegative(m: int)
    requires m > 0
    ensures ParseInt(IntToString(-m)) == Some(-m)
  {
    var d := NatToString(m);
    PrintedNegative(m);
    DigitsOfNat(m);
    ParseNegOf(m, d);
  }

  lemma ParseNegOf(m: int, d: string)
    requires AllDigits(d) && DigitsValue(d) == m
    ensures ParseInt("-" + d) == Some(-m)
  {
    NegativeStripKeeps(d);
    DropSign(d);
    ParseSigned("-" + d, m);
  }

  lemma PrintedNegative(m: int)
    requires m > 0
    ensures IntToString(-m) == "-" + NatToString(m)
  {
  }

  lemma ParsePrintedNatural(m: nat)
    ensures ParseInt(IntToString(m)) == Some(m)
  {
    var d := NatToString(m);
    assert IntToString(m) == d;
    DigitsOfNat(m);
    ParseDigits(d);
  }

  // ---------------------------------------------------------------------------
  // Sentence capitalisation

  /** The letters of the character class [a-zA-Zа-яА-я]: Latin letters and
      the Cyrillic range А..я, which leaves out Ё and ё. */
  predicate IsCapLetter(c: char) {
    ('a' <= c <= 'z') || ('A' <= c <= 'Z') || ('\U{0410}' <= c <= '\U{044F}')
  }

  predicate IsSentenceEnd(c: char) {
    c == '.' || c == '?' || c == '!'
  }

  /** Position i follows, after optional whitespace, either the start of the
      string or one of . ? ! */
  predicate StartsSentence(s: string, i: nat)
    requires i <= |s|
    decreases i
  {
    i == 0 || (if IsSpace(s[i - 1]) then StartsSentence(s, i - 1) else IsSentenceEnd(s[i - 1]))
  }

  /** One left-to-right pass of the substitution: `atStart` says whether the
      text read so far ends a sentence (up to trailing whitespace). */
  function CapitaliseScan(s: string, atStart: bool): (r: string)
    ensures |r| == |s|
    decreases |s|
  {
    if |s| == 0 then ""
    else
      var c := s[0];
      var out := if atStart && IsCapLetter(c) then UpperChar(c) else c;
      [out] + CapitaliseScan(s[1..], if IsSpace(c) then atStart else IsSentenceEnd(c))
  }

  /** One step of the scan from position i. */
  lemma CapitaliseScanStep(s: string, i: nat)
    requires i < |s|
    ensures CapitaliseScan(s[i..], StartsSentence(s, i)) ==
              [if IsCapLetter(s[i]) && StartsSentence(s, i) then UpperChar(s[i]) else s[i]]
              + CapitaliseScan(s[i + 1..], StartsSentence(s, i + 1))
  {
    assert s[i..][1..] == s[i + 1..];
  }

  /** The character the scan from position i emits for position k. */
  lemma {:induction false} CapitaliseScanAt(s: string, i: nat, k: nat)
    requires i <= k < |s|
    ensures CapitaliseScan(s[i..], StartsSentence(s, i))[k - i] ==
              (if IsCapLetter(s[k]) && StartsSentence(s, k) then UpperChar(s[k]) else s[k])
    decreases k - i
  {
    CapitaliseScanStep(s, i);
    if i < k {
      CapitaliseScanAt(s, i + 1, k);
    }
  }

  /** re.sub("(^|[.?!])\s*([a-zA-Zа-яА-я])", upper, s): the text is changed
      only by upper-casing each letter that starts a sentence. */
  function Capitalise(s: string): (r: string)
    ensures |r| == |s|
    ensures forall k :: 0 <= k < |s| ==>
              r[k] == (if IsCapLetter(s[k]) && StartsSentence(s, k) then UpperChar(s[k]) else s[k])
  {
    assert s[0..] == s;
    forall k | 0 <= k < |s|
      ensures CapitaliseScan(s, true)[k] ==
                (if IsCapLetter(s[k]) && StartsSentence(s, k) then UpperChar(s[k]) else s[k])
    {
      CapitaliseScanAt(s, 0, k);
    }
    CapitaliseScan(s, true)
  }

  /** Capitalising changes letter case only. */
  lemma CapitaliseKeepsLowerForm(s: string)
    ensures Lower(Capitalise(s)) == Lower(s)
  {
    var r := Capitalise(s);
    forall k | 0 <= k < |s|
      ensures LowerChar(r[k]) == LowerChar(s[k])
    {
    }
  }
}
