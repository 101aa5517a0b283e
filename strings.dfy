/**
 * The pieces of .NET's string and Int32 behaviour that the launcher relies on:
 * char.IsWhiteSpace, string.IsNullOrWhiteSpace, String.Trim, the
 * culture-aware case-insensitive comparison (approximated by folding ASCII
 * letters), Int32.ToString,
 * Int32.TryParse with NumberStyles.Integer, and String.Replace.
 */
module Strings {

  datatype Option<T> = None | Some(value: T)

  const MinInt32: int := -0x8000_0000
  const MaxInt32: int := 0x7fff_ffff

  predicate IsInt32(n: int) {
    MinInt32 <= n <= MaxInt32
  }

  // ---------------------------------------------------------------------------
  // Whitespace and trimming
  // ---------------------------------------------------------------------------

  /** char.IsWhiteSpace: the Unicode space separators, line and paragraph
      separators, U+0009..U+000D, U+0085 and U+00A0. */
  predicate IsWhiteSpace(c: char) {
    || c == ' '
    || ('\t' <= c <= '\r')
    || c == '\U{85}' || c == '\U{A0}' || c == '\U{1680}'
    || ('\U{2000}' <= c <= '\U{200A}')
    || c == '\U{2028}' || c == '\U{2029}' || c == '\U{202F}' || c == '\U{205F}'
    || c == '\U{3000}'
  }

  /** string.IsNullOrWhiteSpace (a line is never null here). */
  predicate IsBlank(s: string) {
    forall i :: 0 <= i < |s| ==> IsWhiteSpace(s[i])
  }

  function TrimStart(s: string): (r: string)
    ensures |r| <= |s| && r == s[|s| - |r|..]
    ensures IsBlank(s[..|s| - |r|])
    ensures r != [] ==> !IsWhiteSpace(r[0])
    decreases |s|
  {
    if |s| > 0 && IsWhiteSpace(s[0]) then
      var r := TrimStart(s[1..]);
      DropOne(s, r);
      BlankConcat([s[0]], s[1..][..|s| - 1 - |r|]);
      r
    else
      assert s[..0] == [];
      s
  }

  /** A suffix of s[1..] is the same suffix of s, and what precedes it in s
      is s[0] followed by what precedes it in s[1..]. */
  lemma DropOne<T>(s: seq<T>, r: seq<T>)
    requires s != [] && |r| <= |s| - 1 && r == s[1..][|s| - 1 - |r|..]
    ensures r == s[|s| - |r|..]
    ensures s[..|s| - |r|] == [s[0]] + s[1..][..|s| - 1 - |r|]
  {
  }

  /** The mirror image of DropOne, at the end of s. */
  lemma DropLast<T>(s: seq<T>, r: seq<T>)
    requires s != [] && |r| <= |s| - 1 && r == s[..|s| - 1][..|r|]
    ensures r == s[..|r|]
    ensures s[|r|..] == s[..|s| - 1][|r|..] + [s[|s| - 1]]
  {
  }

  function TrimEnd(s: string): (r: string)
    ensures |r| <= |s| && r == s[..|r|]
    ensures IsBlank(s[|r|..])
    ensures r != [] ==> !IsWhiteSpace(r[|r| - 1])
    decreases |s|
  {
    if |s| > 0 && IsWhiteSpace(s[|s| - 1]) then
      var p := s[..|s| - 1];
      var r := TrimEnd(p);
      DropLast(s, r);
      BlankConcat(p[|r|..], [s[|s| - 1]]);
      r
    else
      assert s[|s|..] == [];
      s
  }

  /** String.Trim: drops leading and trailing whitespace. */
  function Trim(s: string): (r: string)
    ensures r == [] <==> IsBlank(s)
    ensures r != [] ==> !IsWhiteSpace(r[0]) && !IsWhiteSpace(r[|r| - 1])
  {
    var t := TrimStart(s);
    var r := TrimEnd(t);
    BlankConcat(s[..|s| - |t|], t);
    BlankConcat(r, t[|r|..]);
    r
  }

  /** r is the slice of s that starts at index a, and the text of s before
      and after it is blank. */
  predicate BlankAround(s: string, a: int, r: string) {
    0 <= a && a + |r| <= |s| && r == s[a..a + |r|] && IsBlank(s[..a]) && IsBlank(s[a + |r|..])
  }

  /** Trim removes nothing but the white space at either end: the result is
      the slice of s that starts where TrimStart stops, and what lies before
      and after it is blank. */
  lemma TrimKeepsMiddle(s: string)
    ensures BlankAround(s, |s| - |TrimStart(s)|, Trim(s))
  {
    var t := TrimStart(s);
    var r := TrimEnd(t);
    TrimSlice(s, t, r);
    assert Trim(s) == r;
  }

  /** What is left after dropping a blank prefix from s (giving t) and a
      blank suffix from t (giving r) is a slice of s between blank text. */
  lemma TrimSlice(s: string, t: string, r: string)
    requires |t| <= |s| && t == s[|s| - |t|..] && IsBlank(s[..|s| - |t|])
    requires |r| <= |t| && r == t[..|r|] && IsBlank(t[|r|..])
    ensures BlankAround(s, |s| - |t|, r)
  {
    PrefixOfSuffix(s, t, r);
  }

  /** A prefix r of a suffix t of s is the slice of s where t starts. */
  lemma PrefixOfSuffix<T>(s: seq<T>, t: seq<T>, r: seq<T>)
    requires |t| <= |s| && t == s[|s| - |t|..] && |r| <= |t| && r == t[..|r|]
    ensures var a := |s| - |t|; r == s[a..a + |r|] && s[a + |r|..] == t[|r|..]
  {
  }

  /** A suffix of a suffix is a suffix. */
  lemma SuffixOfSuffix<T>(s: seq<T>, t: seq<T>, r: seq<T>)
    requires |t| <= |s| && t == s[|s| - |t|..] && |r| <= |t| && r == t[|t| - |r|..]
    ensures r == s[|s| - |r|..]
  {
  }

  /** A concatenation is blank exactly when both parts are. */
  lemma BlankConcat(a: string, b: string)
    ensures IsBlank(a + b) <==> IsBlank(a) && IsBlank(b)
  {
    if IsBlank(a) && IsBlank(b) {
      forall i | 0 <= i < |a + b| ensures IsWhiteSpace((a + b)[i]) {
        if i < |a| { assert (a + b)[i] == a[i]; } else { assert (a + b)[i] == b[i - |a|]; }
      }
    }
    if IsBlank(a + b) {
      forall i | 0 <= i < |a| ensures IsWhiteSpace(a[i]) { assert (a + b)[i] == a[i]; }
      forall i | 0 <= i < |b| ensures IsWhiteSpace(b[i]) { assert (a + b)[|a| + i] == b[i]; }
    }
  }

  /** Trimming twice is trimming once. */
  lemma TrimIdempotent(s: string)
    ensures Trim(Trim(s)) == Trim(s)
  {
    var r := Trim(s);
    if r != [] {
      assert TrimStart(r) == r;
      assert TrimEnd(r) == r;
    }
  }

  // ---------------------------------------------------------------------------
  // Case-insensitive comparison
  // ---------------------------------------------------------------------------

  function LowerChar(c: char): char {
    if 'A' <= c <= 'Z' then (c as int + 32) as char else c
  }

  /** Equality ignoring the case of ASCII letters. */
  predicate EqualsIgnoreCase(a: string, b: string) {
    |a| == |b| && forall i :: 0 <= i < |a| ==> LowerChar(a[i]) == LowerChar(b[i])
  }

  /** A string equal, up to case, to a word that starts with a visible
      character is not blank. */
  lemma EqualsIgnoreCaseNotBlank(a: string, b: string)
    ensures EqualsIgnoreCase(a, b) && |b| > 0 && !IsWhiteSpace(b[0]) ==> !IsBlank(a)
  {
    if EqualsIgnoreCase(a, b) && |b| > 0 && !IsWhiteSpace(b[0]) {
      assert LowerChar(a[0]) == LowerChar(b[0]);
    }
  }

  // ---------------------------------------------------------------------------
  // Int32.ToString and Int32.TryParse
  // ---------------------------------------------------------------------------

  predicate IsDigit(c: char) {
    '0' <= c <= '9'
  }

  function DigitChar(d: nat): char
    requires d < 10
  {
    ('0' as int + d) as char
  }

  function DigitValue(c: char): nat
    requires IsDigit(c)
  {
    c as int - '0' as int
  }

  function FormatNat(n: nat): (r: string)
    ensures |r| > 0
    ensures forall i :: 0 <= i < |r| ==> IsDigit(r[i])
  {
    if n < 10 then [DigitChar(n)] else FormatNat(n / 10) + [DigitChar(n % 10)]
  }

  /** Int32.ToString in the invariant culture: decimal digits, a leading
      minus sign for negative values. */
  function FormatInt(n: int): (r: string)
    ensures |r| > 0 && !IsWhiteSpace(r[0]) && IsDigit(r[|r| - 1])
  {
    if n < 0 then "-" + FormatNat(-n) else FormatNat(n)
  }

  /** The value of a string of decimal digits. */
  function DigitsValue(s: string): nat
    requires forall i :: 0 <= i < |s| ==> IsDigit(s[i])
  {
    if s == [] then 0 else DigitsValue(s[..|s| - 1]) * 10 + DigitValue(s[|s| - 1])
  }

  predicate AllDigits(s: string) {
    |s| > 0 && forall i :: 0 <= i < |s| ==> IsDigit(s[i])
  }

  /** The white space NumberStyles.AllowLeadingWhite/AllowTrailingWhite
      accept: U+0009..U+000D and U+0020 only. */
  predicate IsNumberWhite(c: char) {
    c == ' ' || ('\t' <= c <= '\r')
  }

  function TrimNumberWhite(s: string): (r: string)
    ensures |r| <= |s|
    decreases |s|
  {
    if |s| > 0 && IsNumberWhite(s[0]) then TrimNumberWhite(s[1..])
    else if |s| > 0 && IsNumberWhite(s[|s| - 1]) then TrimNumberWhite(s[..|s| - 1])
    else s
  }

  /** Int32.TryParse(s, out n) with NumberStyles.Integer: optional white
      space around an optional sign and at least one decimal digit; the
      value must fit in 32 bits. */
  function ParseInt(s: string): (r: Option<int>)
    ensures r.Some? ==> IsInt32(r.value)
    ensures r.Some? ==> !IsBlank(s)
  {
    var t := TrimNumberWhite(s);
    var negative := |t| > 0 && t[0] == '-';
    var unsigned := if |t| > 0 && (t[0] == '-' || t[0] == '+') then t[1..] else t;
    if !AllDigits(unsigned) then None
    else
      var v := if negative then -(DigitsValue(unsigned) as int) else DigitsValue(unsigned);
      if IsInt32(v) then
        assert !IsBlank(s) by { NotBlankWhenTrimmedNotBlank(s); }
        Some(v)
      else None
  }

  lemma {:induction false} NotBlankWhenTrimmedNotBlank(s: string)
    requires exists i :: 0 <= i < |TrimNumberWhite(s)| && !IsWhiteSpace(TrimNumberWhite(s)[i])
    ensures !IsBlank(s)
    decreases |s|
  {
    var t := TrimNumberWhite(s);
    var i :| 0 <= i < |t| && !IsWhiteSpace(t[i]);
    if |s| > 0 && IsNumberWhite(s[0]) {
      NotBlankWhenTrimmedNotBlank(s[1..]);
    } else if |s| > 0 && IsNumberWhite(s[|s| - 1]) {
      NotBlankWhenTrimmedNotBlank(s[..|s| - 1]);
    } else {
      assert t == s;
    }
  }

  lemma {:induction false} DigitsValueOfFormat(n: nat)
    ensures DigitsValue(FormatNat(n)) == n
  {
    var r := FormatNat(n);
    if n >= 10 {
      DigitsValueOfFormat(n / 10);
      assert r[..|r| - 1] == FormatNat(n / 10);
    }
  }

  /** Parsing what Int32.ToString printed gives the number back. */
  lemma ParseFormatRoundTrip(n: int)
    requires IsInt32(n)
    ensures ParseInt(FormatInt(n)) == Some(n)
  {
    var s := FormatInt(n);
    assert TrimNumberWhite(s) == s;
    if n < 0 {
      DigitsValueOfFormat(-n);
      assert s[1..] == FormatNat(-n);
    } else {
      DigitsValueOfFormat(n);
    }
  }

  // ---------------------------------------------------------------------------
  // String.Replace
  // ---------------------------------------------------------------------------

  /** String.Replace(pat, rep) with ordinal comparison: every occurrence of
      pat, scanned left to right and without overlap, becomes rep. */
  function ReplaceAll(s: string, pat: string, rep: string): string
    requires |pat| > 0
    decreases |s|
  {
    if |s| < |pat| then s
    else if s[..|pat|] == pat then rep + ReplaceAll(s[|pat|..], pat, rep)
    else [s[0]] + ReplaceAll(s[1..], pat, rep)
  }

  /** A replacement brings in no character that is neither in the text nor
      in the replacement. */
  lemma {:induction false} ReplaceChars(s: string, pat: string, rep: string)
    requires |pat| > 0
    ensures forall c :: c in ReplaceAll(s, pat, rep) ==> c in s || c in rep
    decreases |s|
  {
    if |s| < |pat| {
    } else if s[..|pat|] == pat {
      ReplaceChars(s[|pat|..], pat, rep);
      assert forall c :: c in s[|pat|..] ==> c in s;
    } else {
      ReplaceChars(s[1..], pat, rep);
      assert forall c :: c in s[1..] ==> c in s;
    }
  }

  /** Replacing a pattern by itself changes nothing. */
  lemma {:induction false} ReplaceByItself(s: string, pat: string)
    requires |pat| > 0
    ensures ReplaceAll(s, pat, pat) == s
    decreases |s|
  {
    if |s| < |pat| {
    } else if s[..|pat|] == pat {
      ReplaceByItself(s[|pat|..], pat);
      assert s == pat + s[|pat|..];
    } else {
      ReplaceByItself(s[1..], pat);
      assert s == [s[0]] + s[1..];
    }
  }

  /** A prefix that does not contain the pattern's first character is copied
      unchanged. */
  lemma {:induction false} ReplaceSkipsPlain(x: string, y: string, pat: string, rep: string)
    requires |pat| > 0 && pat[0] !in x
    ensures ReplaceAll(x + y, pat, rep) == x + ReplaceAll(y, pat, rep)
    decreases |x|
  {
    if x != [] {
      var s := x + y;
      var z := ReplaceAll(y, pat, rep);
      ConsConcat(x, y, z);
      ReplaceSkipsPlain(x[1..], y, pat, rep);
      if |s| >= |pat| {
        assert s[..|pat|][0] == x[0] && x[0] != pat[0];
        assert ReplaceAll(s, pat, rep) == [x[0]] + (x[1..] + z);
      } else {
        assert z == y;
      }
    } else {
      assert x + y == y;
    }
  }

  /** Splitting the first element off a concatenation. */
  lemma ConsConcat<T>(x: seq<T>, y: seq<T>, z: seq<T>)
    requires x != []
    ensures (x + y)[0] == x[0] && (x + y)[1..] == x[1..] + y
    ensures [x[0]] + (x[1..] + z) == x + z
  {
  }

  /** A string without the pattern's first character is left as it is. */
  lemma ReplaceAbsent(s: string, pat: string, rep: string)
    requires |pat| > 0 && pat[0] !in s
    ensures ReplaceAll(s, pat, rep) == s
  {
    ReplaceSkipsPlain(s, [], pat, rep);
    assert s + [] == s;
  }

  lemma ReplaceHit(y: string, pat: string, rep: string)
    requires |pat| > 0
    ensures ReplaceAll(pat + y, pat, rep) == rep + ReplaceAll(y, pat, rep)
  {
    assert (pat + y)[..|pat|] == pat;
    assert (pat + y)[|pat|..] == y;
  }

  lemma ReplaceMiss(c: char, y: string, pat: string, rep: string)
    requires |pat| > 0 && |[c] + y| >= |pat| && ([c] + y)[..|pat|] != pat
    ensures ReplaceAll([c] + y, pat, rep) == [c] + ReplaceAll(y, pat, rep)
  {
    assert ([c] + y)[1..] == y;
  }
}
