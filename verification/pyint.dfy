/**
 * Python's `int(text)` for a base-10 string, restricted to ASCII digits:
 * surrounding whitespace (`int()`'s own set, which lacks U+001C..U+001F) is
 * ignored, one optional `+` or `-` sign may lead, and the digits may be
 * grouped by single underscores (`1_000`). Leading zeros are accepted. Any
 * other text raises `ValueError`, modelled as `None`; so does a numeral over
 * the interpreter's digit limit, which this model does not impose.
 */
module PyInt {
  import opened Wrappers
  import opened Text

  predicate IsDigit(c: char) {
    '0' <= c <= '9'
  }

  function DigitValue(c: char): (d: nat)
    requires IsDigit(c)
    ensures d < 10
  {
    c as int - '0' as int
  }

  function DigitChar(d: nat): (c: char)
    requires d < 10
    ensures IsDigit(c) && DigitValue(c) == d
  {
    ('0' as int + d) as char
  }

  predicate AllDigits(s: string) {
    forall i :: 0 <= i < |s| ==> IsDigit(s[i])
  }

  predicate DigitsOrUnderscores(s: string) {
    forall i :: 0 <= i < |s| ==> IsDigit(s[i]) || s[i] == '_'
  }

  /** The unsigned part of a Python integer literal: non-empty, starting and
      ending with a digit, made of digits and underscores, with no two
      underscores in a row. */
  predicate IsNumeral(s: string) {
    && |s| > 0
    && IsDigit(s[0])
    && IsDigit(s[|s| - 1])
    && DigitsOrUnderscores(s)
    && (forall i :: 0 <= i < |s| - 1 ==> !(s[i] == '_' && s[i + 1] == '_'))
  }

  /** The value of a run of digits and underscores, the underscores ignored. */
  function NumeralValue(s: string): nat
    requires DigitsOrUnderscores(s)
    decreases |s|
  {
    if |s| == 0 then 0
    else if s[|s| - 1] == '_' then NumeralValue(s[..|s| - 1])
    else 10 * NumeralValue(s[..|s| - 1]) + DigitValue(s[|s| - 1])
  }

  predicate IsSign(c: char) {
    c == '+' || c == '-'
  }

  /** An already stripped integer literal: an optional sign, then a numeral.
      A literal always ends in a digit, is negative only after `-`, and a
      text without any digit is rejected. */
  function ParseLiteral(t: string): (r: Option<int>)
    ensures r.Some? ==> |t| > 0 && IsDigit(t[|t| - 1])
    ensures r.Some? && r.value < 0 ==> t[0] == '-'
    ensures (forall i :: 0 <= i < |t| ==> !IsDigit(t[i])) ==> r.None?
  {
    if |t| > 0 && IsSign(t[0]) then
      var body := t[1..];
      if IsNumeral(body) then
        assert body[|body| - 1] == t[|t| - 1];
        assert IsDigit(t[1]);
        var v: int := NumeralValue(body);
        Some(if t[0] == '-' then -v else v)
      else
        None
    else if IsNumeral(t) then
      Some(NumeralValue(t))
    else
      None
  }

  /** `int(s)`: `Some(value)`, or `None` where Python raises `ValueError`. */
  function ParseInt(s: string): Option<int>
  {
    ParseLiteral(Strip(IntSpaces, s))
  }

  /** `int()` rejects blank text; a reading needs a digit somewhere in the
      text, and a negative one a `-`. */
  lemma ParseIntNeedsDigit(s: string)
    ensures AllBlank(IntSpaces, s) ==> ParseInt(s).None?
    ensures ParseInt(s).Some? ==> exists i :: 0 <= i < |s| && IsDigit(s[i])
    ensures ParseInt(s).Some? && ParseInt(s).value < 0 ==>
              exists i :: 0 <= i < |s| && s[i] == '-'
  {
    var a := LeadingSpaces(IntSpaces, s);
    var t := Strip(IntSpaces, s);
    StripTrims(IntSpaces, s);
    StripKeepsPiece(IntSpaces, s);
    if ParseInt(s).Some? {
      assert s[a + |t| - 1] == t[|t| - 1];
      assert s[a] == t[0];
    }
  }

  // ---------------------------------------------------------------------------
  // Decimal formatting, the inverse of ParseInt on natural numbers
  // ---------------------------------------------------------------------------

  /** `str(n)` for a natural number: its decimal digits, no leading zero. */
  function Decimal(n: nat): (s: string)
    ensures |s| > 0 && AllDigits(s)
    ensures NumeralValue(s) == n
    ensures |s| > 1 ==> s[0] != '0'
    decreases n
  {
    if n < 10 then
      [DigitChar(n)]
    else
      var p := Decimal(n / 10);
      var s := p + [DigitChar(n % 10)];
      assert s[..|s| - 1] == p;
      s
  }

  /** Two-digit, zero-padded form of `n`, as a clock shows seconds. */
  function TwoDigits(n: nat): (s: string)
    requires n < 100
    ensures |s| == 2 && AllDigits(s)
    ensures NumeralValue(s) == n
  {
    var s := [DigitChar(n / 10), DigitChar(n % 10)];
    assert s[..1] == [DigitChar(n / 10)];
    assert s[..1][..0] == [];
    assert NumeralValue(s[..1]) == n / 10;
    s
  }

  /** A digit string is a numeral; it contains no whitespace, so it is trimmed. */
  lemma DigitsAreNumeral(s: string)
    requires |s| > 0 && AllDigits(s)
    ensures IsNumeral(s) && Trimmed(IntSpaces, s)
  {
  }

  /** A digit string reads as its numeral value. */
  lemma ParseIntDigits(d: string)
    requires |d| > 0 && AllDigits(d)
    ensures ParseInt(d) == Some(NumeralValue(d) as int)
  {
    DigitsAreNumeral(d);
    StripTrimmed(IntSpaces, d);
  }

  /** A sign followed by a digit string reads as the signed value. */
  lemma ParseIntSigned(sign: char, d: string)
    requires IsSign(sign) && |d| > 0 && AllDigits(d)
    ensures ParseInt([sign] + d) == Some(if sign == '-' then -(NumeralValue(d) as int) else NumeralValue(d))
  {
    var t := [sign] + d;
    SignedIsTrimmed(sign, d);
    StripTrimmed(IntSpaces, t);
    ParseLiteralSigned(sign, d);
  }

  lemma SignedIsTrimmed(sign: char, d: string)
    requires IsSign(sign) && |d| > 0 && AllDigits(d)
    ensures Trimmed(IntSpaces, [sign] + d)
  {
    var t := [sign] + d;
    assert t[0] == sign && !IsBlank(IntSpaces, sign);
    assert t[|t| - 1] == d[|d| - 1] && !IsBlank(IntSpaces, d[|d| - 1]);
  }

  /** A sign before a numeral reads as the signed value of the numeral. */
  lemma ParseLiteralOfSigned(sign: char, d: string)
    requires IsSign(sign) && IsNumeral(d)
    ensures ParseLiteral([sign] + d)
            == Some(if sign == '-' then -(NumeralValue(d) as int) else NumeralValue(d))
  {
    assert ([sign] + d)[1..] == d;
  }

  lemma ParseLiteralSigned(sign: char, d: string)
    requires IsSign(sign) && |d| > 0 && AllDigits(d)
    ensures ParseLiteral([sign] + d) == Some(if sign == '-' then -(NumeralValue(d) as int) else NumeralValue(d))
  {
    DigitsAreNumeral(d);
    ParseLiteralOfSigned(sign, d);
  }



  /** `int` reads back what `str` writes. */
  lemma ParseIntDecimal(n: nat)
    ensures ParseInt(Decimal(n)) == Some(n)
  {
    ParseIntDigits(Decimal(n));
  }

  /** `int` reads a zero-padded two-digit field. */
  lemma ParseIntTwoDigits(n: nat)
    requires n < 100
    ensures ParseInt(TwoDigits(n)) == Some(n)
  {
    ParseIntDigits(TwoDigits(n));
  }

  /** Whitespace of `int()`'s set around the literal is ignored. */
  lemma ParseIntPadded(pre: string, t: string, post: string)
    requires AllBlank(IntSpaces, pre) && AllBlank(IntSpaces, post) && Trimmed(IntSpaces, t)
    ensures ParseInt(pre + t + post) == ParseInt(t)
  {
    StripPadded(IntSpaces, pre, t, post);
    StripTrimmed(IntSpaces, t);
  }

  /** An ASCII separator U+001C..U+001F after the digits is not skipped, so
      the field is rejected although `strip()` would remove it. */
  lemma ParseIntTrailingSeparator(d: string, c: char)
    requires |d| > 0 && AllDigits(d) && IsSeparator(c)
    ensures ParseInt(d + [c]) == None
    ensures IsSpace(c)
  {
    var s := d + [c];
    assert Trimmed(IntSpaces, s) by { assert s[0] == d[0]; assert s[|s| - 1] == c; }
    StripTrimmed(IntSpaces, s);
  }

  /** Underscores group digits without changing the value. */
  lemma {:induction false} NumeralIgnoresUnderscore(a: string, b: string)
    requires AllDigits(a) && AllDigits(b)
    ensures DigitsOrUnderscores(a + "_" + b) && DigitsOrUnderscores(a + b)
    ensures NumeralValue(a + "_" + b) == NumeralValue(a + b)
    decreases |b|
  {
    var s := a + "_" + b;
    if |b| == 0 {
      assert s[..|s| - 1] == a;
      assert a + b == a;
    } else {
      var b' := b[..|b| - 1];
      assert s[..|s| - 1] == a + "_" + b';
      assert (a + b)[..|a + b| - 1] == a + b';
      NumeralIgnoresUnderscore(a, b');
    }
  }

  /** `int("1_000") == 1000`: a numeral with an underscore reads as its digits. */
  lemma ParseIntUnderscore(a: string, b: string)
    requires |a| > 0 && |b| > 0 && AllDigits(a) && AllDigits(b)
    ensures ParseInt(a + "_" + b) == ParseInt(a + b)
  {
    var s := a + "_" + b;
    NumeralIgnoresUnderscore(a, b);
    assert s[|s| - 1] == b[|b| - 1];
    assert forall i :: 0 <= i < |s| - 1 && s[i] == '_' ==> i == |a|;
    assert IsNumeral(s);
    StripTrimmed(IntSpaces, s);
    ParseIntDigits(a + b);
  }
}
