/**
  The string operations of JavaScript that the client components and the upload
  middleware rely on: `trim`, ASCII case mapping, `includes`, printing a number in
  decimal and `padStart(2, "0")`.  Strings are sequences of characters; case
  mapping is restricted to ASCII.
 */
module JsText {

  // ---------------------------------------------------------------------------
  // Whitespace and trim
  // ---------------------------------------------------------------------------

  /** The ECMAScript WhiteSpace and LineTerminator characters: what `trim` removes
      and what `\s` matches in a regular expression. */
  predicate IsSpace(c: char) {
    || c == '\t' || c == '\n' || c == '\U{000B}' || c == '\U{000C}' || c == '\r'
    || c == ' ' || c == '\U{00A0}' || c == '\U{1680}'
    || ('\U{2000}' <= c <= '\U{200A}')
    || c == '\U{2028}' || c == '\U{2029}' || c == '\U{202F}' || c == '\U{205F}'
    || c == '\U{3000}' || c == '\U{FEFF}'
  }

  predicate AllSpace(s: string) {
    forall k :: 0 <= k < |s| ==> IsSpace(s[k])
  }

  /** The number of whitespace characters `s` starts with. */
  function LeadingSpace(s: string): (n: nat)
    ensures n <= |s|
    ensures forall k :: 0 <= k < n ==> IsSpace(s[k])
    ensures n == |s| || !IsSpace(s[n])
  {
    if s != [] && IsSpace(s[0]) then 1 + LeadingSpace(s[1..]) else 0
  }

  /** The number of whitespace characters `s` ends with. */
  function TrailingSpace(s: string): (n: nat)
    ensures n <= |s|
    ensures forall k :: |s| - n <= k < |s| ==> IsSpace(s[k])
    ensures n == |s| || !IsSpace(s[|s| - n - 1])
  {
    if s != [] && IsSpace(s[|s| - 1]) then 1 + TrailingSpace(s[..|s| - 1]) else 0
  }

  /** `String.prototype.trim`: the leading whitespace is dropped, then the
      trailing whitespace of what is left. */
  function Trim(s: string): (r: string)
    ensures |r| <= |s|
    // neither end of the trimmed text is whitespace
    ensures r == [] || (!IsSpace(r[0]) && !IsSpace(r[|r| - 1]))
  {
    var i := LeadingSpace(s);
    var t := s[i..];
    var n := TrailingSpace(t);
    assert n < |t| ==> t[..|t| - n][0] == s[i] && t[..|t| - n][|t| - n - 1] == t[|t| - n - 1];
    t[..|t| - n]
  }

  /** What `trim` keeps is the piece of the input after its leading whitespace,
      and only whitespace is cut off after it. */
  lemma TrimPiece(s: string)
    ensures var i := LeadingSpace(s);
            && i + |Trim(s)| <= |s| && Trim(s) == s[i..i + |Trim(s)|]
            && forall k :: i + |Trim(s)| <= k < |s| ==> IsSpace(s[k])
  {
    var i := LeadingSpace(s);
    var t := s[i..];
    var n := TrailingSpace(t);
    var r := Trim(s);
    assert r == t[..|t| - n];
    assert |r| == |t| - n;
    assert r == s[i..i + |r|];
    forall k | i + |r| <= k < |s| ensures IsSpace(s[k]) {
      assert s[k] == t[k - i];
    }
  }

  /** Trimming leaves nothing exactly when everything is whitespace. */
  lemma TrimEmpty(s: string)
    ensures Trim(s) == [] <==> AllSpace(s)
  {
    var i := LeadingSpace(s);
    var t := s[i..];
    var n := TrailingSpace(t);
    if Trim(s) == [] {
      assert n == |t|;
      assert i == |s|;
    } else {
      assert Trim(s)[0] == s[i];
    }
  }

  /** What `trim` keeps is a contiguous piece of the input that neither starts nor
      ends with whitespace, and only whitespace is cut off on either side; the
      result is empty exactly when the input is all whitespace. */
  lemma TrimShape(s: string)
    ensures var i := LeadingSpace(s);
            && i + |Trim(s)| <= |s| && Trim(s) == s[i..i + |Trim(s)|]
            && (forall k :: 0 <= k < i ==> IsSpace(s[k]))
            && (forall k :: i + |Trim(s)| <= k < |s| ==> IsSpace(s[k]))
    ensures Trim(s) == [] || (!IsSpace(Trim(s)[0]) && !IsSpace(Trim(s)[|Trim(s)| - 1]))
    ensures Trim(s) == [] <==> AllSpace(s)
  {
    TrimPiece(s);
    TrimEmpty(s);
  }

  /** Trimming twice is trimming once. */
  lemma TrimIdempotent(s: string)
    ensures Trim(Trim(s)) == Trim(s)
  {
    var r := Trim(s);
    if r != [] {
      assert LeadingSpace(r) == 0;
      assert TrailingSpace(r) == 0;
      assert r[0..] == r;
    }
  }

  // ---------------------------------------------------------------------------
  // ASCII classes and case
  // ---------------------------------------------------------------------------

  predicate IsAsciiLetter(c: char) {
    ('a' <= c <= 'z') || ('A' <= c <= 'Z')
  }

  predicate IsDigit(c: char) {
    '0' <= c <= '9'
  }

  predicate AllDigits(s: string) {
    forall k :: 0 <= k < |s| ==> IsDigit(s[k])
  }

  function LowerChar(c: char): char {
    if 'A' <= c <= 'Z' then (c as int + 32) as char else c
  }

  function UpperChar(c: char): char {
    if 'a' <= c <= 'z' then (c as int - 32) as char else c
  }

  /** `toLowerCase`, for ASCII letters. */
  function ToLower(s: string): (r: string)
    ensures |r| == |s|
    ensures forall k :: 0 <= k < |s| ==> r[k] == LowerChar(s[k])
  {
    if s == [] then [] else [LowerChar(s[0])] + ToLower(s[1..])
  }

  /** `toUpperCase`, for ASCII letters. */
  function ToUpper(s: string): (r: string)
    ensures |r| == |s|
    ensures forall k :: 0 <= k < |s| ==> r[k] == UpperChar(s[k])
  {
    if s == [] then [] else [UpperChar(s[0])] + ToUpper(s[1..])
  }

  // ---------------------------------------------------------------------------
  // includes
  // ---------------------------------------------------------------------------

  predicate StartsWith(s: string, t: string) {
    |t| <= |s| && s[..|t|] == t
  }

  /** `t` occurs in `s` starting at index `i`. */
  predicate OccursAt(s: string, t: string, i: int) {
    0 <= i && i + |t| <= |s| && s[i..i + |t|] == t
  }

  /** `String.prototype.includes`. */
  predicate Contains(s: string, t: string): (r: bool)
    ensures t == [] ==> r
    ensures r ==> |t| <= |s|
    decreases |s|
  {
    StartsWith(s, t) || (s != [] && Contains(s[1..], t))
  }

  /** `includes` holds exactly when the needle occurs at some position. */
  lemma {:induction false} ContainsIffOccurs(s: string, t: string)
    ensures Contains(s, t) <==> exists i :: OccursAt(s, t, i)
    decreases |s|
  {
    if StartsWith(s, t) {
      assert OccursAt(s, t, 0);
    } else if s != [] {
      ContainsIffOccurs(s[1..], t);
      if exists i :: OccursAt(s[1..], t, i) {
        var i :| OccursAt(s[1..], t, i);
        assert s[i + 1..i + 1 + |t|] == s[1..][i..i + |t|];
        assert OccursAt(s, t, i + 1);
      }
      if exists i :: OccursAt(s, t, i) {
        var i :| OccursAt(s, t, i);
        assert i != 0;
        assert s[1..][i - 1..i - 1 + |t|] == s[i..i + |t|];
        assert OccursAt(s[1..], t, i - 1);
      }
    }
  }

  /** An empty haystack contains only the empty needle. */
  lemma {:induction false} EmptyContainsOnlyEmpty(t: string)
    ensures Contains("", t) <==> t == ""
  {
  }

  // ---------------------------------------------------------------------------
  // Decimal numbers
  // ---------------------------------------------------------------------------

  function DigitChar(d: nat): (c: char)
    requires d < 10
    ensures IsDigit(c)
  {
    ('0' as int + d) as char
  }

  function DigitValue(c: char): (d: nat)
    requires IsDigit(c)
    ensures d < 10
  {
    c as int - '0' as int
  }

  /** `String(n)` for a non-negative integer. */
  function NatToDecimal(n: nat): (r: string)
    ensures 1 <= |r| && AllDigits(r)
    ensures |r| > 1 ==> r[0] != '0'
    ensures n < 10 ==> |r| == 1
    ensures 10 <= n < 100 ==> |r| == 2
  {
    if n < 10 then [DigitChar(n)] else NatToDecimal(n / 10) + [DigitChar(n % 10)]
  }

  /** The value of a string of decimal digits (the inverse of `NatToDecimal`). */
  function DecimalValue(s: string): nat
    requires AllDigits(s)
  {
    if s == [] then 0 else 10 * DecimalValue(s[..|s| - 1]) + DigitValue(s[|s| - 1])
  }

  /** Printing a number and reading it back gives the number. */
  lemma {:induction false} DecimalRoundTrip(n: nat)
    ensures DecimalValue(NatToDecimal(n)) == n
  {
    if n >= 10 {
      var s := NatToDecimal(n);
      assert s[..|s| - 1] == NatToDecimal(n / 10);
      DecimalRoundTrip(n / 10);
    }
  }

  /** `String(i)` for any integer: a minus sign before the digits of a negative one. */
  function IntToDecimal(i: int): (r: string)
    ensures r != [] && (r[0] == '-' <==> i < 0)
    // after the sign come the digits, which read back as the magnitude
    ensures var digits := if i < 0 then r[1..] else r;
            && digits != [] && AllDigits(digits)
            && DecimalValue(digits) == if i < 0 then -i else i
  {
    DecimalRoundTrip(if i < 0 then -i else i);
    if i < 0 then "-" + NatToDecimal(-i) else NatToDecimal(i)
  }

  /** `padStart(2, "0")`. */
  function PadStart2(s: string): (r: string)
    ensures |r| == if |s| >= 2 then |s| else 2
    // a text that is long enough is never cut short
    ensures |s| >= 2 ==> r == s
  {
    if |s| >= 2 then s else seq(2 - |s|, _ => '0') + s
  }

  /** `padStart(2, "0")` keeps the text whole as its suffix, and everything added
      in front of it is a '0'. */
  lemma PadStart2Content(s: string)
    ensures |PadStart2(s)| >= |s|
    ensures PadStart2(s)[|PadStart2(s)| - |s|..] == s
    ensures forall k :: 0 <= k < |PadStart2(s)| - |s| ==> PadStart2(s)[k] == '0'
  {
    if |s| < 2 {
      var zeros := seq(2 - |s|, _ => '0');
      assert PadStart2(s) == zeros + s;
      assert (zeros + s)[|zeros|..] == s;
    }
  }

  /** A leading zero does not change the value of a digit string. */
  lemma {:induction false} LeadingZero(s: string)
    requires AllDigits(s)
    ensures AllDigits(['0'] + s) && DecimalValue(['0'] + s) == DecimalValue(s)
    decreases |s|
  {
    var t := ['0'] + s;
    if s != [] {
      assert t[..|t| - 1] == ['0'] + s[..|s| - 1];
      LeadingZero(s[..|s| - 1]);
    }
  }

  /** Padding keeps the text as its suffix (it never truncates), makes it at least
      two characters long and keeps its decimal value. */
  lemma PadStart2Keeps(s: string)
    requires AllDigits(s)
    ensures |PadStart2(s)| == if |s| >= 2 then |s| else 2
    ensures PadStart2(s)[|PadStart2(s)| - |s|..] == s
    ensures AllDigits(PadStart2(s)) && DecimalValue(PadStart2(s)) == DecimalValue(s)
  {
    if |s| == 1 {
      assert PadStart2(s) == ['0'] + s;
      LeadingZero(s);
    } else if |s| == 0 {
      assert PadStart2(s) == ['0'] + ['0'];
      LeadingZero(['0']);
    }
  }

  /** A number printed and padded to two digits reads back as the number. */
  lemma PaddedDecimal(n: nat)
    ensures AllDigits(PadStart2(NatToDecimal(n)))
    ensures DecimalValue(PadStart2(NatToDecimal(n))) == n
    ensures |PadStart2(NatToDecimal(n))| >= 2
    ensures n < 100 ==> |PadStart2(NatToDecimal(n))| == 2
  {
    PadStart2Keeps(NatToDecimal(n));
    DecimalRoundTrip(n);
  }
}
