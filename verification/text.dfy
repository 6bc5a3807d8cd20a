/** String operations the services rely on: invariant-culture lower-casing,
    ordinal and case-insensitive search, trimming, joining, and the decimal
    rendering and parsing of integers (`int.ToString`, `int.TryParse`).
    Case folding and white space are modelled for ASCII (plus U+0085 and
    U+00A0 as white space for `Trim`); other Unicode case mappings are not
    modelled. */
module Text {
  import opened Wrappers

  // ---------------------------------------------------------------------
  // Case folding and searching

  /** `char.ToLowerInvariant` restricted to ASCII letters. */
  function LowerChar(c: char): char {
    if 'A' <= c <= 'Z' then (c as int + 32) as char else c
  }

  /** `string.ToLowerInvariant`. */
  function Lower(s: string): string {
    seq(|s|, i requires 0 <= i < |s| => LowerChar(s[i]))
  }

  /** Ordinal equality ignoring case (`StringComparer.OrdinalIgnoreCase`). */
  predicate EqualsIgnoreCase(a: string, b: string) {
    Lower(a) == Lower(b)
  }

  /** `s.Contains(k)` with ordinal comparison: `k` occurs as a contiguous run. */
  predicate Contains(s: string, k: string) {
    exists i :: 0 <= i <= |s| - |k| && OccursAt(s, k, i)
  }

  /** `k` occurs in `s` starting at position `i`. */
  predicate OccursAt(s: string, k: string, i: int)
    requires 0 <= i <= |s| - |k|
  {
    s[i..i + |k|] == k
  }

  /** `s.Contains(k, OrdinalIgnoreCase)`. */
  predicate ContainsIgnoreCase(s: string, k: string) {
    Contains(Lower(s), Lower(k))
  }

  lemma LowerIdempotent(s: string)
    ensures Lower(Lower(s)) == Lower(s)
  {
  }

  /** Ignoring case is an equivalence, so a case-insensitive set of paths is
      well defined. */
  lemma EqualsIgnoreCaseIsEquivalence(a: string, b: string, c: string)
    ensures EqualsIgnoreCase(a, a)
    ensures EqualsIgnoreCase(a, b) ==> EqualsIgnoreCase(b, a)
    ensures EqualsIgnoreCase(a, b) && EqualsIgnoreCase(b, c) ==> EqualsIgnoreCase(a, c)
  {
  }

  // ---------------------------------------------------------------------
  // White space

  /** `char.IsWhiteSpace` for the ASCII controls TAB..CR, space, NEL and NBSP. */
  predicate IsWhiteSpace(c: char) {
    c == ' ' || ('\t' <= c <= '\r') || c == '\U{85}' || c == '\U{A0}'
  }

  /** The white space `int.TryParse` allows around a number
      (`NumberStyles.Integer`): TAB..CR and space only. */
  predicate IsNumberWhite(c: char) {
    c == ' ' || ('\t' <= c <= '\r')
  }

  predicate AllWhiteSpace(s: string) {
    forall i :: 0 <= i < |s| ==> IsWhiteSpace(s[i])
  }

  /** The number of characters in `white` that `s` begins with. */
  function LeadingWhite(s: string, white: char -> bool): (n: nat)
    ensures n <= |s|
    ensures forall i :: 0 <= i < n ==> white(s[i])
    ensures n < |s| ==> !white(s[n])
  {
    if |s| > 0 && white(s[0]) then 1 + LeadingWhite(s[1..], white) else 0
  }

  /** The number of characters in `white` that `s` ends with. */
  function TrailingWhite(s: string, white: char -> bool): (n: nat)
    ensures n <= |s|
    ensures forall i :: |s| - n <= i < |s| ==> white(s[i])
    ensures n < |s| ==> !white(s[|s| - n - 1])
  {
    if |s| > 0 && white(s[|s| - 1]) then 1 + TrailingWhite(s[..|s| - 1], white) else 0
  }

  /** Drops the leading and the trailing characters in `white`: the result
      is the slice of `s` between two all-white ends, and it neither starts
      nor ends with a white character. */
  function TrimBy(s: string, white: char -> bool): (r: string)
    ensures |r| <= |s|
    ensures |r| > 0 ==> !white(r[0]) && !white(r[|r| - 1])
    ensures var a := LeadingWhite(s, white);
      a + |r| <= |s| && r == s[a..a + |r|]
      && (forall i :: a + |r| <= i < |s| ==> white(s[i]))
  {
    var a := LeadingWhite(s, white);
    var t := s[a..];
    var n := TrailingWhite(t, white);
    assert forall i :: a + |t| - n <= i < |s| ==> s[i] == t[i - a];
    t[..|t| - n]
  }

  /** Trimming is determined by its two properties: padding a text that
      neither starts nor ends with a white character by white characters on
      both sides and trimming gives the text back. */
  lemma TrimPadded(p: string, m: string, q: string, white: char -> bool)
    requires forall i :: 0 <= i < |p| ==> white(p[i])
    requires forall i :: 0 <= i < |q| ==> white(q[i])
    requires |m| > 0 && !white(m[0]) && !white(m[|m| - 1])
    ensures TrimBy(p + m + q, white) == m
  {
    var s := p + m + q;
    var a := LeadingWhite(s, white);
    assert s[|p|] == m[0];
    assert forall i :: 0 <= i < |p| ==> s[i] == p[i];
    var t := s[a..];
    assert t == m + q;
    var n := TrailingWhite(t, white);
    assert t[|m| - 1] == m[|m| - 1];
    assert forall i :: |m| <= i < |t| ==> t[i] == q[i - |m|];
    assert t[..|t| - n] == m;
  }

  /** `string.Trim()`: drops the leading and the trailing white space. */
  function Trim(s: string): (r: string)
    ensures |r| <= |s|
    ensures |r| > 0 ==> !IsWhiteSpace(r[0]) && !IsWhiteSpace(r[|r| - 1])
    ensures var a := LeadingWhite(s, IsWhiteSpace);
      (forall i :: 0 <= i < a ==> IsWhiteSpace(s[i]))
      && a + |r| <= |s| && r == s[a..a + |r|]
      && (forall i :: a + |r| <= i < |s| ==> IsWhiteSpace(s[i]))
  {
    TrimBy(s, IsWhiteSpace)
  }

  /** Trimming yields the empty string exactly when the input is all white
      space. */
  lemma TrimEmptyIff(s: string)
    ensures Trim(s) == "" <==> AllWhiteSpace(s)
  {
    var a := LeadingWhite(s, IsWhiteSpace);
    if a < |s| {
      var t := s[a..];
      assert t[0] == s[a];
      assert Trim(s) == t[..|t| - TrailingWhite(t, IsWhiteSpace)];
    }
  }

  /** A string that begins and ends with a non-white character is unchanged
      by trimming. */
  lemma TrimNoOp(s: string, white: char -> bool)
    requires |s| > 0 && !white(s[0]) && !white(s[|s| - 1])
    ensures TrimBy(s, white) == s
  {
    TrimPadded([], s, [], white);
    assert [] + s + [] == s;
  }

  /** `string.IsNullOrWhiteSpace`. */
  predicate IsNullOrWhiteSpace(s: Option<string>) {
    s.None? || AllWhiteSpace(s.value)
  }

  // ---------------------------------------------------------------------
  // Joining

  /** `string.Join(sep, parts)`. */
  function Join(parts: seq<string>, sep: string): (r: string)
    ensures |parts| == 1 ==> r == parts[0]
  {
    if |parts| == 0 then ""
    else if |parts| == 1 then parts[0]
    else parts[0] + sep + Join(parts[1..], sep)
  }

  /** The joined text is as long as its parts plus one separator between each
      neighbouring pair. */
  lemma {:induction false} JoinLength(parts: seq<string>, sep: string)
    requires |parts| > 0
    ensures |Join(parts, sep)| == SumLengths(parts) + (|parts| - 1) * |sep|
  {
    if |parts| > 1 {
      JoinLength(parts[1..], sep);
    }
  }

  function SumLengths(parts: seq<string>): nat {
    if |parts| == 0 then 0 else |parts[0]| + SumLengths(parts[1..])
  }

  // ---------------------------------------------------------------------
  // Decimal integers

  predicate IsDigit(c: char) {
    '0' <= c <= '9'
  }

  predicate AllDigits(s: string) {
    forall i :: 0 <= i < |s| ==> IsDigit(s[i])
  }

  function Digit(d: nat): (c: char)
    requires d < 10
    ensures IsDigit(c)
  {
    ('0' as int + d) as char
  }

  function DigitValue(c: char): nat
    requires IsDigit(c)
  {
    c as int - '0' as int
  }

  /** The value of a run of decimal digits, most significant first. */
  function DigitsValue(s: string): nat
    requires AllDigits(s)
  {
    if |s| == 0 then 0 else 10 * DigitsValue(s[..|s| - 1]) + DigitValue(s[|s| - 1])
  }

  /** `n.ToString()` for a non-negative `n`: at least one digit, no sign. */
  function NatToString(n: nat): (r: string)
    ensures |r| >= 1 && AllDigits(r)
    decreases n
  {
    if n < 10 then [Digit(n)] else NatToString(n / 10) + [Digit(n % 10)]
  }

  /** `i.ToString()` with the invariant culture. */
  function IntToString(i: int): string {
    if i < 0 then "-" + NatToString(-i) else NatToString(i)
  }

  /** Reading back the digits that `NatToString` writes gives the number. */
  lemma {:induction false} NatToStringRoundTrip(n: nat)
    ensures DigitsValue(NatToString(n)) == n
  {
    var r := NatToString(n);
    if n >= 10 {
      NatToStringRoundTrip(n / 10);
      assert r[..|r| - 1] == NatToString(n / 10);
      assert DigitValue(r[|r| - 1]) == n % 10;
    }
  }

  const Int32Min: int := -0x8000_0000
  const Int32Max: int := 0x7FFF_FFFF

  /** The 32-bit two's-complement value congruent to `x`: what unchecked
      `int` arithmetic leaves. */
  function Int32Wrap(x: int): (r: int)
    ensures Int32Min <= r <= Int32Max
    ensures Int32Min <= x <= Int32Max ==> r == x
  {
    (x - Int32Min) % 0x1_0000_0000 + Int32Min
  }

  predicate IsSign(c: char) {
    c == '-' || c == '+'
  }

  /** An optionally signed, non-empty run of decimal digits. */
  predicate IsSignedDigits(t: string) {
    if |t| > 0 && IsSign(t[0]) then |t| >= 2 && AllDigits(t[1..]) else |t| >= 1 && AllDigits(t)
  }

  /** The value of a signed run of digits. */
  function SignedValue(t: string): int
    requires IsSignedDigits(t)
  {
    if IsSign(t[0]) then
      var v: int := DigitsValue(t[1..]);
      if t[0] == '-' then -v else v
    else DigitsValue(t)
  }

  /** Reads one optional sign, then requires one or more digits and nothing
      else. */
  function ParseSigned(t: string): Option<int> {
    if |t| > 0 && IsSign(t[0]) then
      var d := t[1..];
      if |d| > 0 && AllDigits(d) then
        var v: int := DigitsValue(d);
        Some(if t[0] == '-' then -v else v)
      else None
    else if |t| > 0 && AllDigits(t) then Some(DigitsValue(t))
    else None
  }

  /** `int.TryParse(s, out v)`: succeeds exactly when the text, without the
      white space around it, is an optionally signed run of digits whose
      value is a 32-bit integer, and then gives that value. Null fails. */
  function TryParseInt32(s: Option<string>): (r: Option<int>)
    ensures s.None? ==> r.None?
    ensures s.Some? ==> var t := TrimBy(s.value, IsNumberWhite);
      && (r.Some? <==> IsSignedDigits(t) && Int32Min <= SignedValue(t) <= Int32Max)
      && (r.Some? ==> r.value == SignedValue(t))
  {
    match s
    case None => None
    case Some(text) =>
      match ParseSigned(TrimBy(text, IsNumberWhite))
      case Some(v) => if Int32Min <= v <= Int32Max then Some(v) else None
      case None => None
  }

  /** Only ASCII white space may surround a number: a trailing no-break
      space fails, as does any other character after the digits. */
  lemma TryParseRejectsOtherText()
    ensures TryParseInt32(Some("12a")) == None
    ensures TryParseInt32(Some("60\U{A0}")) == None
  {
    TrimNoOp("12a", IsNumberWhite);
    assert !IsDigit("12a"[2]);
    TrimNoOp("60\U{A0}", IsNumberWhite);
    assert !IsDigit("60\U{A0}"[2]);
  }

  /** A sign alone is not a number. */
  lemma TryParseRejectsSign()
    ensures TryParseInt32(Some("+")) == None
  {
    TrimNoOp("+", IsNumberWhite);
  }

  /** A rendered integer outside the 32-bit range does not parse: with
      `IntToStringRoundTrip`, rendered text parses back exactly for the
      32-bit integers. */
  lemma TryParseRejectsOutOfRange(i: int)
    requires i < Int32Min || Int32Max < i
    ensures TryParseInt32(Some(IntToString(i))) == None
  {
    IntToStringEdges(i);
    TrimNoOp(IntToString(i), IsNumberWhite);
    ParseSignedIntToString(i);
  }

  /** White space on both sides is dropped and the sign is kept. */
  lemma TryParseAcceptsPadded()
    ensures TryParseInt32(Some(" -7\t")) == Some(-7)
  {
    TrimPadded(" ", "-7", "\t", IsNumberWhite);
    assert " " + "-7" + "\t" == " -7\t";
    assert DigitsValue("7") == 7;
  }

  /** Every 32-bit integer survives rendering and parsing: the settings
      written as `n.ToString()` read back as `n`. */
  lemma IntToStringRoundTrip(i: int)
    requires Int32Min <= i <= Int32Max
    ensures TryParseInt32(Some(IntToString(i))) == Some(i)
  {
    var s := IntToString(i);
    IntToStringEdges(i);
    TrimNoOp(s, IsNumberWhite);
    ParseSignedIntToString(i);
  }

  /** A rendered integer starts with a sign or digit and ends with a digit. */
  lemma IntToStringEdges(i: int)
    ensures var s := IntToString(i);
      |s| > 0 && !IsNumberWhite(s[0]) && !IsNumberWhite(s[|s| - 1])
  {
    var s := IntToString(i);
    if i < 0 {
      var d := NatToString(-i);
      assert s[|s| - 1] == d[|d| - 1];
    }
  }

  lemma ParseSignedIntToString(i: int)
    ensures ParseSigned(IntToString(i)) == Some(i)
  {
    var s := IntToString(i);
    if i < 0 {
      NatToStringRoundTrip(-i);
      assert s[1..] == NatToString(-i);
    } else {
      NatToStringRoundTrip(i);
      assert s[0] != '-' && s[0] != '+';
    }
  }

  // ---------------------------------------------------------------------
  // Ordinal ordering

  /** Ordinal (code point) order, the order of SQLite's BINARY collation
      over UTF-8 text. */
  predicate StrLeq(a: string, b: string) {
    |a| == 0 || (|b| > 0 && (a[0] < b[0] || (a[0] == b[0] && StrLeq(a[1..], b[1..]))))
  }

  lemma {:induction false} StrLeqTotal(a: string, b: string)
    ensures StrLeq(a, b) || StrLeq(b, a)
  {
    if |a| > 0 && |b| > 0 && a[0] == b[0] {
      StrLeqTotal(a[1..], b[1..]);
    }
  }

  lemma {:induction false} StrLeqAntisymmetric(a: string, b: string)
    requires StrLeq(a, b) && StrLeq(b, a)
    ensures a == b
  {
    if |a| > 0 && |b| > 0 {
      StrLeqAntisymmetric(a[1..], b[1..]);
      assert a == [a[0]] + a[1..];
      assert b == [b[0]] + b[1..];
    }
  }

  lemma {:induction false} StrLeqTransitive(a: string, b: string, c: string)
    requires StrLeq(a, b) && StrLeq(b, c)
    ensures StrLeq(a, c)
  {
    if |a| > 0 && a[0] == b[0] && b[0] == c[0] {
      StrLeqTransitive(a[1..], b[1..], c[1..]);
    }
  }

  lemma {:induction false} StrLeqReflexive(a: string)
    ensures StrLeq(a, a)
  {
    if |a| > 0 {
      StrLeqReflexive(a[1..]);
    }
  }
}
