/** String primitives of the JavaScript runtime that the screens use:
    `Number.prototype.toString` on integers, `padStart`, `trim`, `includes`
    and `split`, with the parsing functions that invert them. */
module Text {
  import opened Common

  // ---------------------------------------------------------------------
  // Decimal rendering of integers
  // ---------------------------------------------------------------------

  predicate IsDigit(c: char) {
    '0' <= c <= '9'
  }

  predicate AllDigits(s: string) {
    forall i :: 0 <= i < |s| ==> IsDigit(s[i])
  }

  function DigitChar(d: nat): (c: char)
    requires d < 10
    ensures IsDigit(c) && c as int - '0' as int == d
  {
    "0123456789"[d]
  }

  /** `n.toString()` for a non-negative integer: no sign, no leading zeros. */
  function NatToString(n: nat): (s: string)
    ensures |s| > 0 && AllDigits(s)
    ensures |s| > 1 ==> s[0] != '0'
    decreases n
  {
    if n < 10 then [DigitChar(n)] else NatToString(n / 10) + [DigitChar(n % 10)]
  }

  /** `n.toString()` for any integer. */
  function IntToString(n: int): (s: string)
    ensures |s| > 0
    ensures n >= 0 ==> s == NatToString(n)
    ensures n < 0 ==> s == "-" + NatToString(-n)
  {
    if n < 0 then "-" + NatToString(-n) else NatToString(n)
  }

  /** The value of a string of decimal digits (leading zeros allowed). */
  function DigitsValue(s: string): nat
    requires AllDigits(s)
  {
    if |s| == 0 then 0
    else DigitsValue(s[..|s| - 1]) * 10 + (s[|s| - 1] as int - '0' as int)
  }

  /** Reads a non-empty run of decimal digits. */
  function ParseNat(s: string): Option<nat> {
    if |s| > 0 && AllDigits(s) then Some(DigitsValue(s)) else None
  }

  /** Reads an optionally signed integer. */
  function ParseInt(s: string): Option<int> {
    if |s| > 0 && s[0] == '-' then
      var p := ParseNat(s[1..]);
      if p.Some? then Some(-(p.value as int)) else None
    else
      var p := ParseNat(s);
      if p.Some? then Some(p.value as int) else None
  }

  lemma {:induction false} NatToStringRoundTrip(n: nat)
    ensures ParseNat(NatToString(n)) == Some(n)
    decreases n
  {
    if n >= 10 {
      NatToStringRoundTrip(n / 10);
      var s := NatToString(n);
      var d := DigitChar(n % 10);
      assert s == NatToString(n / 10) + [d];
      assert s[..|s| - 1] == NatToString(n / 10);
      assert s[|s| - 1] == d;
      assert DigitsValue(s) == (n / 10) * 10 + n % 10;
    }
  }

  lemma IntToStringRoundTrip(n: int)
    ensures ParseInt(IntToString(n)) == Some(n)
  {
    if n < 0 {
      NegativeRoundTrip(n);
    } else {
      UnsignedRoundTrip(n);
    }
  }

  /** A rendered number has no sign, so it reads back as itself. */
  lemma UnsignedRoundTrip(n: int)
    requires n >= 0
    ensures ParseInt(IntToString(n)) == Some(n)
  {
    var d := NatToString(n);
    assert IntToString(n) == d && IsDigit(d[0]);
    NatToStringRoundTrip(n);
  }

  /** A minus sign in front of a rendered number reads back as its negation. */
  lemma NegativeRoundTrip(n: int)
    requires n < 0
    ensures ParseInt(IntToString(n)) == Some(n)
  {
    NatToStringRoundTrip(-n);
    ParseSigned(NatToString(-n), -n);
  }

  /** A minus sign in front of digits negates their value. */
  lemma ParseSigned(d: string, v: nat)
    requires ParseNat(d) == Some(v)
    ensures ParseInt("-" + d) == Some(-(v as int))
  {
    var s := "-" + d;
    assert s[1..] == d && s[0] == '-';
  }

  /** A rendered number consists of an optional minus sign and digits. */
  lemma NotInNumber(n: int, c: char)
    requires !IsDigit(c) && c != '-'
    ensures c !in IntToString(n)
  {
    if n < 0 {
      var d := NatToString(-n);
      assert forall i :: 1 <= i < |"-" + d| ==> ("-" + d)[i] == d[i - 1];
    }
  }

  /** Distinct numbers render to distinct strings. */
  lemma IntToStringInjective(a: int, b: int)
    requires IntToString(a) == IntToString(b)
    ensures a == b
  {
    IntToStringRoundTrip(a);
    IntToStringRoundTrip(b);
  }

  // ---------------------------------------------------------------------
  // padStart
  // ---------------------------------------------------------------------

  function Repeat(c: char, n: nat): (r: string)
    ensures |r| == n && forall i :: 0 <= i < n ==> r[i] == c
  {
    if n == 0 then [] else [c] + Repeat(c, n - 1)
  }

  /** `s.padStart(width, c)`. */
  function PadStart(s: string, width: nat, c: char): (r: string)
    ensures |s| >= width ==> r == s
    ensures |s| < width ==> |r| == width
    ensures r[|r| - |s|..] == s
    ensures forall i :: 0 <= i < |r| - |s| ==> r[i] == c
  {
    if |s| >= width then s else Repeat(c, width - |s|) + s
  }

  /** The two-digit zero padding used for minutes and seconds. */
  function Pad2(s: string): (r: string)
    ensures |s| >= 2 ==> r == s
    ensures |s| < 2 ==> |r| == 2
    ensures r[|r| - |s|..] == s
  {
    PadStart(s, 2, '0')
  }

  /** A number below 100 padded to two digits reads back as itself. */
  lemma Pad2RoundTrip(n: nat)
    requires n < 100
    ensures |Pad2(NatToString(n))| == 2
    ensures ParseNat(Pad2(NatToString(n))) == Some(n)
  {
    if n < 10 {
      PadOneDigit(n);
      TwoDigitsValue(0, n);
    } else {
      RenderTwoDigits(n);
      TwoDigitsValue(n / 10, n % 10);
    }
  }

  /** A one-digit number gets a single leading zero. */
  lemma PadOneDigit(n: nat)
    requires n < 10
    ensures Pad2(NatToString(n)) == [DigitChar(0), DigitChar(n)]
  {
    assert NatToString(n) == [DigitChar(n)];
    assert Repeat('0', 1) == [DigitChar(0)];
  }

  /** A two-digit number renders as its tens and units digits. */
  lemma RenderTwoDigits(n: nat)
    requires 10 <= n < 100
    ensures Pad2(NatToString(n)) == NatToString(n) == [DigitChar(n / 10), DigitChar(n % 10)]
  {
    var tens := n / 10;
    var units := n % 10;
    assert tens < 10;
    assert NatToString(tens) == [DigitChar(tens)];
    assert NatToString(n) == NatToString(tens) + [DigitChar(units)];
  }

  /** Two decimal digits read as their two-digit number. */
  lemma TwoDigitsValue(a: nat, b: nat)
    requires a < 10 && b < 10
    ensures ParseNat([DigitChar(a), DigitChar(b)]) == Some(a * 10 + b)
  {
    var s := [DigitChar(a), DigitChar(b)];
    assert AllDigits(s);
    assert s[..1] == [DigitChar(a)] && s[1] == DigitChar(b);
    assert DigitsValue([DigitChar(a)]) == a by {
      assert [DigitChar(a)][..0] == [];
    }
    assert DigitsValue(s) == DigitsValue(s[..1]) * 10 + (DigitChar(b) as int - '0' as int);
  }

  // ---------------------------------------------------------------------
  // includes
  // ---------------------------------------------------------------------

  /** `part` occurs in `s` starting at position `i`. */
  predicate OccursAt(s: string, part: string, i: int) {
    0 <= i <= |s| - |part| && s[i..i + |part|] == part
  }

  /** `s.includes(part)`. */
  predicate Contains(s: string, part: string) {
    exists i | 0 <= i <= |s| - |part| :: OccursAt(s, part, i)
  }

  lemma ContainsInfix(a: string, b: string, c: string)
    ensures Contains(a + b + c, b)
  {
    var s := a + b + c;
    assert s[|a|..|a| + |b|] == b;
    assert OccursAt(s, b, |a|);
  }

  /** Text put in front keeps every occurrence. */
  lemma ContainsAfterPrefix(a: string, t: string, part: string)
    requires Contains(t, part)
    ensures Contains(a + t, part)
  {
    var i :| 0 <= i <= |t| - |part| && OccursAt(t, part, i);
    assert (a + t)[|a| + i..|a| + i + |part|] == t[i..i + |part|];
    assert OccursAt(a + t, part, |a| + i);
  }

  // ---------------------------------------------------------------------
  // split
  // ---------------------------------------------------------------------

  /** `s.split(sep)` for a one-character separator. */
  function Split(s: string, sep: char): (r: seq<string>)
    ensures |r| >= 1
  {
    if |s| == 0 then [""]
    else
      var rest := Split(s[1..], sep);
      if s[0] == sep then [""] + rest else [[s[0]] + rest[0]] + rest[1..]
  }

  lemma {:induction false} SplitNoSeparator(a: string, sep: char)
    requires sep !in a
    ensures Split(a, sep) == [a]
  {
    if |a| > 0 {
      SplitNoSeparator(a[1..], sep);
      assert [a[0]] + a[1..] == a;
    }
  }

  lemma {:induction false} SplitAt(a: string, sep: char, b: string)
    requires sep !in a
    ensures Split(a + [sep] + b, sep) == [a] + Split(b, sep)
  {
    if |a| == 0 {
      assert a + [sep] + b == [sep] + b;
      assert ([sep] + b)[1..] == b;
    } else {
      assert (a + [sep] + b)[1..] == a[1..] + [sep] + b;
      SplitAt(a[1..], sep, b);
      assert [a[0]] + a[1..] == a;
    }
  }

  /** Two separator-free fields joined by the separator split apart again. */
  lemma SplitTwo(a: string, b: string, sep: char)
    requires sep !in a && sep !in b
    ensures Split(a + [sep] + b, sep) == [a, b]
  {
    SplitNoSeparator(b, sep);
    SplitAt(a, sep, b);
  }

  /** Likewise for three fields. */
  lemma SplitThree(a: string, b: string, c: string, sep: char)
    requires sep !in a && sep !in b && sep !in c
    ensures Split(a + [sep] + b + [sep] + c, sep) == [a, b, c]
  {
    SplitTwo(b, c, sep);
    assert a + [sep] + b + [sep] + c == a + [sep] + (b + [sep] + c);
    SplitAt(a, sep, b + [sep] + c);
  }

  lemma DigitsHaveNoSeparator(s: string, sep: char)
    requires AllDigits(s) && !IsDigit(sep)
    ensures sep !in s
  {
  }

  // ---------------------------------------------------------------------
  // length
  // ---------------------------------------------------------------------

  /** The UTF-16 code units a character takes: two for a character outside
      the Basic Multilingual Plane (a surrogate pair), one otherwise. */
  function Utf16Units(c: char): nat {
    if c as int > 0xFFFF then 2 else 1
  }

  /** `s.length`: JavaScript strings count UTF-16 code units, not characters. */
  function Utf16Length(s: string): (n: nat)
    ensures |s| <= n <= 2 * |s|
  {
    if |s| == 0 then 0 else Utf16Length(s[..|s| - 1]) + Utf16Units(s[|s| - 1])
  }

  /** The length of a concatenation is the sum of the lengths. */
  lemma {:induction false} Utf16LengthAppend(a: string, b: string)
    ensures Utf16Length(a + b) == Utf16Length(a) + Utf16Length(b)
    decreases |b|
  {
    if |b| == 0 {
      assert a + b == a;
    } else {
      var b' := b[..|b| - 1];
      assert (a + b)[..|a + b| - 1] == a + b';
      assert (a + b)[|a + b| - 1] == b[|b| - 1];
      Utf16LengthAppend(a, b');
    }
  }

  /** Within the Basic Multilingual Plane the two lengths agree. */
  lemma {:induction false} Utf16LengthBmp(s: string)
    requires forall i :: 0 <= i < |s| ==> s[i] as int <= 0xFFFF
    ensures Utf16Length(s) == |s|
    decreases |s|
  {
    if |s| > 0 {
      Utf16LengthBmp(s[..|s| - 1]);
    }
  }

  /** A character outside the Basic Multilingual Plane makes the length
      exceed the number of characters. */
  lemma {:induction false} Utf16LengthAstral(s: string, i: int)
    requires 0 <= i < |s| && s[i] as int > 0xFFFF
    ensures Utf16Length(s) > |s|
    decreases |s|
  {
    var init := s[..|s| - 1];
    if i < |s| - 1 {
      assert init[i] == s[i];
      Utf16LengthAstral(init, i);
    }
  }

  // ---------------------------------------------------------------------
  // trim
  // ---------------------------------------------------------------------

  /** The characters `String.prototype.trim` removes: the ECMAScript
      WhiteSpace set (tab, vertical tab, form feed, the Unicode space
      separators, the byte-order mark) and the line terminators. */
  predicate IsWhitespace(c: char) {
    || c == '\t' || c == '\n' || c == '\U{000B}' || c == '\U{000C}' || c == '\r'
    || c == ' ' || c == '\U{00A0}' || c == '\U{1680}'
    || ('\U{2000}' <= c <= '\U{200A}')
    || c == '\U{2028}' || c == '\U{2029}' || c == '\U{202F}' || c == '\U{205F}'
    || c == '\U{3000}' || c == '\U{FEFF}'
  }

  /** Every whitespace character lies in the Basic Multilingual Plane. */
  lemma AstralNotWhitespace(c: char)
    requires c as int > 0xFFFF
    ensures !IsWhitespace(c)
  {
  }

  predicate AllWhitespace(s: string) {
    forall i :: 0 <= i < |s| ==> IsWhitespace(s[i])
  }

  function TrimStart(s: string): (r: string)
    ensures |r| <= |s| && r == s[|s| - |r|..]
    ensures AllWhitespace(s[..|s| - |r|])
    ensures |r| > 0 ==> !IsWhitespace(r[0])
  {
    if |s| > 0 && IsWhitespace(s[0]) then
      var r := TrimStart(s[1..]);
      DropFirstParts(s, |r|);
      r
    else s
  }

  /** Cutting one leading whitespace character keeps the tail of length `k`
      and leaves whitespace before it. */
  lemma DropFirstParts(s: string, k: nat)
    requires 0 < |s| && k <= |s| - 1 && IsWhitespace(s[0])
    requires AllWhitespace(s[1..][..|s| - 1 - k])
    ensures s[1..][|s| - 1 - k..] == s[|s| - k..]
    ensures AllWhitespace(s[..|s| - k])
  {
    forall i | 0 <= i < |s| - k ensures IsWhitespace(s[i]) {
      if i > 0 { assert s[i] == s[1..][..|s| - 1 - k][i - 1]; }
    }
  }

  function TrimEnd(s: string): (r: string)
    ensures |r| <= |s| && r == s[..|r|]
    ensures AllWhitespace(s[|r|..])
    ensures |r| > 0 ==> !IsWhitespace(r[|r| - 1])
  {
    if |s| > 0 && IsWhitespace(s[|s| - 1]) then
      var r := TrimEnd(s[..|s| - 1]);
      DropLastParts(s, |r|);
      r
    else s
  }

  /** Cutting one trailing whitespace character keeps the head of length `k`
      and leaves whitespace after it. */
  lemma DropLastParts(s: string, k: nat)
    requires 0 < |s| && k <= |s| - 1 && IsWhitespace(s[|s| - 1])
    requires AllWhitespace(s[..|s| - 1][k..])
    ensures s[..|s| - 1][..k] == s[..k]
    ensures AllWhitespace(s[k..])
  {
    forall i | k <= i < |s| ensures IsWhitespace(s[i]) {
      if i < |s| - 1 { assert s[i] == s[..|s| - 1][k..][i - k]; }
    }
  }

  /** A string wholly outside the Basic Multilingual Plane has twice as
      many code units as characters. */
  lemma {:induction false} Utf16LengthAllAstral(s: string)
    requires forall i :: 0 <= i < |s| ==> s[i] as int > 0xFFFF
    ensures Utf16Length(s) == 2 * |s|
    decreases |s|
  {
    if |s| > 0 {
      Utf16LengthAllAstral(s[..|s| - 1]);
    }
  }

  /** `r` is `s` with the whitespace run `s[..i]` cut from the front and a
      whitespace run cut from the back. */
  predicate TrimsTo(s: string, r: string, i: int) {
    && 0 <= i <= |s| - |r|
    && s[i..i + |r|] == r
    && AllWhitespace(s[..i])
    && AllWhitespace(s[i + |r|..])
  }

  /** `s.trim()`: the infix of `s` that neither starts nor ends with
      whitespace, everything cut away being whitespace. */
  function Trim(s: string): (r: string)
    ensures |r| <= |s|
    ensures |r| > 0 ==> !IsWhitespace(r[0]) && !IsWhitespace(r[|r| - 1])
    ensures exists i :: TrimsTo(s, r, i)
  {
    TrimParts(s);
    TrimEnd(TrimStart(s))
  }

  /** Cutting the front run and then the back run is a trim at the front
      run's length. */
  lemma TrimParts(s: string)
    ensures TrimsTo(s, TrimEnd(TrimStart(s)), |s| - |TrimStart(s)|)
  {
    var t := TrimStart(s);
    TrimsToFromParts(s, t, TrimEnd(t), |s| - |t|);
  }

  /** A whitespace run cut from the front, then one cut from the back of
      what is left, is a trim. */
  lemma TrimsToFromParts(s: string, t: string, r: string, i: nat)
    requires i <= |s| && t == s[i..] && AllWhitespace(s[..i])
    requires |r| <= |t| && r == t[..|r|] && AllWhitespace(t[|r|..])
    ensures TrimsTo(s, r, i)
  {
    SuffixSlices(s, i, |r|);
  }

  /** Slicing a suffix again is slicing the whole. */
  lemma SuffixSlices(s: string, i: nat, n: nat)
    requires i + n <= |s|
    ensures s[i..][..n] == s[i..i + n] && s[i..][n..] == s[i + n..]
  {
  }

  /** The alert the education and certification forms show when a required
      field is blank. */
  const RequiredFieldsMissing := "Please fill in all required fields"

  /** `!s.trim()`: nothing is left once the ends are trimmed. */
  predicate Blank(s: string) {
    Trim(s) == ""
  }

  /** A string is blank exactly when every character is whitespace. */
  lemma BlankIffAllWhitespace(s: string)
    ensures Blank(s) <==> AllWhitespace(s)
  {
    var r := Trim(s);
    TrimParts(s);
    TrimsToBlank(s, r, |s| - |TrimStart(s)|);
  }

  /** A trim is empty exactly when the trimmed string is all whitespace,
      provided the result does not itself start with whitespace. */
  lemma TrimsToBlank(s: string, r: string, i: int)
    requires TrimsTo(s, r, i) && (|r| > 0 ==> !IsWhitespace(r[0]))
    ensures r == "" <==> AllWhitespace(s)
  {
    if r == "" {
      forall k | 0 <= k < |s| ensures IsWhitespace(s[k]) {
        if k < i { assert s[k] == s[..i][k]; } else { assert s[k] == s[i..][k - i]; }
      }
    } else {
      assert r[0] == s[i];
    }
  }

  /** Trimming twice is trimming once. */
  lemma TrimIdempotent(s: string)
    ensures Trim(Trim(s)) == Trim(s)
  {
    var r := Trim(s);
    if |r| > 0 {
      assert TrimStart(r) == r;
      assert TrimEnd(r) == r;
    }
  }

  /** A string that neither starts nor ends with whitespace is its own trim. */
  lemma TrimUnchanged(s: string)
    requires |s| > 0 && !IsWhitespace(s[0]) && !IsWhitespace(s[|s| - 1])
    ensures Trim(s) == s
  {
    assert TrimStart(s) == s;
    assert TrimEnd(s) == s;
  }
}
