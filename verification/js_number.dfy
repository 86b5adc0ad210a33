/**
 * The three JavaScript number coercions the search path applies to the
 * `limit` query parameter: `isNaN(s)` (the StringToNumber grammar of
 * section 7.1.4.1 of ECMA-262), `parseInt(s)` (section 19.2.5, radix
 * omitted) and `array.slice(0, end)`. A NaN is `None`.
 */
module JsNumber {
  import opened Text
  import opened Types

  predicate IsDecimalDigit(c: char) { '0' <= c <= '9' }

  predicate IsHexDigit(c: char) { IsDecimalDigit(c) || ('a' <= c <= 'f') || ('A' <= c <= 'F') }

  predicate IsOctalDigit(c: char) { '0' <= c <= '7' }

  predicate IsBinaryDigit(c: char) { c == '0' || c == '1' }

  /** A non-empty run made only of `digit` characters. */
  predicate AllDigits(s: string, digit: char -> bool) {
    |s| > 0 && Span(s, digit) == |s|
  }

  /** ExponentPart: (e|E) (+|-)? DecimalDigits. */
  predicate IsExponentPart(s: string) {
    && |s| >= 2
    && (s[0] == 'e' || s[0] == 'E')
    && (if s[1] == '+' || s[1] == '-' then AllDigits(s[2..], IsDecimalDigit)
        else AllDigits(s[1..], IsDecimalDigit))
  }

  /** StrUnsignedDecimalLiteral: `Infinity`, or digits with an optional
      fraction and exponent, with at least one digit before or after the point. */
  predicate IsUnsignedDecimalLiteral(s: string) {
    if s == "Infinity" then true
    else
      var i := Span(s, IsDecimalDigit);
      var rest := s[i..];
      if |rest| > 0 && rest[0] == '.' then
        var frac := rest[1..];
        var j := Span(frac, IsDecimalDigit);
        (i > 0 || j > 0) && (frac[j..] == [] || IsExponentPart(frac[j..]))
      else
        i > 0 && (rest == [] || IsExponentPart(rest))
  }

  /** StrDecimalLiteral: an optional sign then an unsigned decimal literal. */
  predicate IsDecimalLiteral(s: string) {
    if |s| > 0 && (s[0] == '+' || s[0] == '-') then IsUnsignedDecimalLiteral(s[1..])
    else IsUnsignedDecimalLiteral(s)
  }

  /** 0x…, 0o…, 0b… integer literals (no sign allowed). */
  predicate IsNonDecimalIntegerLiteral(s: string) {
    && |s| >= 3
    && s[0] == '0'
    && (|| ((s[1] == 'x' || s[1] == 'X') && AllDigits(s[2..], IsHexDigit))
        || ((s[1] == 'o' || s[1] == 'O') && AllDigits(s[2..], IsOctalDigit))
        || ((s[1] == 'b' || s[1] == 'B') && AllDigits(s[2..], IsBinaryDigit)))
  }

  /** `isNaN(s)` for a string `s`: `Number(s)` is NaN unless the trimmed
      text is empty (which gives 0) or a numeric literal. */
  predicate IsNaN(s: string) {
    var t := Trim(s);
    !(t == [] || IsDecimalLiteral(t) || IsNonDecimalIntegerLiteral(t))
  }

  function DigitValue(c: char): (v: nat)
    requires IsHexDigit(c)
    ensures v < 16
    ensures IsDecimalDigit(c) ==> v < 10
  {
    if IsDecimalDigit(c) then c as int - '0' as int
    else if 'a' <= c <= 'f' then c as int - 'a' as int + 10
    else c as int - 'A' as int + 10
  }

  /** The value of a digit string in the given radix, most significant first. */
  function DigitsValue(s: string, radix: nat): nat
    requires forall i :: 0 <= i < |s| ==> IsHexDigit(s[i])
  {
    if |s| == 0 then 0 else DigitsValue(s[..|s| - 1], radix) * radix + DigitValue(s[|s| - 1])
  }

  /** `parseInt(s)` with no radix: skip leading whitespace, take one sign,
      read hexadecimal after a `0x`/`0X` prefix and decimal otherwise, and
      stop at the first character that is not a digit; no digit means NaN. */
  function ParseInt(s: string): (r: Option<int>)
  {
    var t := TrimStart(s);
    var negative := |t| > 0 && t[0] == '-';
    var u := if |t| > 0 && (t[0] == '+' || t[0] == '-') then t[1..] else t;
    match ParseMagnitude(u)
    case None => None
    case Some(m) => Some(if negative then -(m as int) else m)
  }

  /** The unsigned part of `parseInt`: hexadecimal digits after a `0x`/`0X`
      prefix, decimal digits otherwise, read up to the first non-digit. */
  function ParseMagnitude(u: string): Option<nat>
  {
    var hex := |u| >= 2 && u[0] == '0' && (u[1] == 'x' || u[1] == 'X');
    var v := if hex then u[2..] else u;
    var n := if hex then Span(v, IsHexDigit) else Span(v, IsDecimalDigit);
    if n == 0 then None
    else Some(DigitsValue(v[..n], if hex then 16 else 10))
  }

  /** `parseInt("")` is NaN. */
  lemma ParseIntEmpty()
    ensures ParseInt([]) == None
  {
    assert TrimStart([]) == [];
  }

  /** Decimal rendering of a natural number (what `String(n)` gives). */
  function DecimalString(n: nat): (s: string)
    ensures |s| > 0
    ensures forall i :: 0 <= i < |s| ==> IsDecimalDigit(s[i])
  {
    var d := ['0' + (n % 10) as char];
    if n < 10 then d else DecimalString(n / 10) + d
  }

  lemma {:induction false} DecimalStringValue(n: nat)
    ensures DigitsValue(DecimalString(n), 10) == n
  {
    var s := DecimalString(n);
    if n >= 10 {
      DecimalStringValue(n / 10);
      assert s[..|s| - 1] == DecimalString(n / 10);
    }
  }

  /** A string made only of digits is one whole span. */
  lemma {:induction false} SpanAll(s: string, digit: char -> bool)
    requires forall i :: 0 <= i < |s| ==> digit(s[i])
    ensures Span(s, digit) == |s|
  {
    if |s| > 0 {
      SpanAll(s[1..], digit);
    }
  }

  /** A digit string is its own trimmed form. */
  lemma DigitsAreTrimmed(s: string)
    requires |s| > 0 && forall i :: 0 <= i < |s| ==> IsDecimalDigit(s[i])
    ensures TrimStart(s) == s && Trim(s) == s
  {
    assert !IsSpace(s[0]) && !IsSpace(s[|s| - 1]);
  }

  /** parseInt reads back every decimal rendering of a natural number. */
  lemma ParseIntDecimalString(n: nat)
    ensures ParseInt(DecimalString(n)) == Some(n)
  {
    ParseIntOfDigits(DecimalString(n));
    DecimalStringValue(n);
  }

  /** parseInt reads a string of decimal digits as its decimal value. */
  lemma ParseIntOfDigits(s: string)
    requires |s| > 0 && forall i :: 0 <= i < |s| ==> IsDecimalDigit(s[i])
    ensures ParseInt(s) == Some(DigitsValue(s, 10))
  {
    assert !IsSpace(s[0]) && s[0] != '+' && s[0] != '-';
    ParseIntOfUnsigned(s);
    MagnitudeOfDigits(s);
  }

  /** Text with no leading whitespace or sign is read by its magnitude alone. */
  lemma ParseIntOfUnsigned(s: string)
    requires |s| > 0 && !IsSpace(s[0]) && s[0] != '+' && s[0] != '-'
    ensures ParseMagnitude(s).None? ==> ParseInt(s).None?
    ensures ParseMagnitude(s).Some? ==> ParseInt(s) == Some(ParseMagnitude(s).value as int)
  {
    assert TrimStart(s) == s;
  }

  /** The unsigned reading of a decimal digit string is its value. */
  lemma MagnitudeOfDigits(s: string)
    requires |s| > 0 && forall i :: 0 <= i < |s| ==> IsDecimalDigit(s[i])
    ensures ParseMagnitude(s) == Some(DigitsValue(s, 10))
  {
    SpanAll(s, IsDecimalDigit);
    assert s[..|s|] == s;
    if |s| >= 2 {
      assert !IsDecimalDigit('x') && !IsDecimalDigit('X');
      assert s[1] != 'x' && s[1] != 'X';
    }
  }

  /** Number accepts every decimal rendering of a natural number too, so the
      two coercions agree on well-formed limits. */
  lemma NumberAcceptsDecimalString(n: nat)
    ensures !IsNaN(DecimalString(n))
  {
    var s := DecimalString(n);
    DigitsAreTrimmed(s);
    SpanAll(s, IsDecimalDigit);
    assert s[0] != '+' && s[0] != '-';
    assert s[|s|..] == [];
    assert IsUnsignedDecimalLiteral(s);
  }

  /** Length kept by `a.slice(0, end)` on an array of length `len`: NaN
      reads as 0, a negative end counts from the back, and a large end stops
      at the length. */
  function SliceEnd(len: nat, end: Option<int>): (k: nat)
    ensures k <= len
    ensures end.None? ==> k == 0
    ensures end.Some? && end.value >= 0 ==> k == if end.value < len then end.value else len
    ensures end.Some? && end.value < 0 ==> k == if len + end.value < 0 then 0 else len + end.value
  {
    match end
    case None => 0
    case Some(e) =>
      if e < 0 then (if len + e < 0 then 0 else len + e)
      else if e < len then e
      else len
  }

  /** `a.slice(0, end)`: a prefix of `a`. */
  function Slice<T>(a: seq<T>, end: Option<int>): (r: seq<T>)
    ensures |r| == SliceEnd(|a|, end)
    ensures r == a[..|r|]
  {
    a[..SliceEnd(|a|, end)]
  }
}
