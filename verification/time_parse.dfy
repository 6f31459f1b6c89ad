/**
 * `parse_time_to_minutes`: a clock reading `MM:SS` or `HH:MM:SS`, possibly
 * carrying the HTML entity `&zwnj;` and surrounding whitespace, read as a
 * number of minutes. Minutes are exact reals here, not binary floats.
 */
module TimeParse {
  import opened Wrappers
  import opened Text
  import opened PyInt

  /** The zero-width non-joiner entity the e-mails put inside clock readings. */
  const Zwnj: string := "&zwnj;"

  /** The three ways the parser can end: a number of minutes, `None`, or the
      `ValueError` that Python's `int()` raises on the named field. */
  datatype TimeResult =
    | Minutes(value: real)
    | NoTime
    | ValueError(field: string)

  /** The colon-separated fields left once the entity and the outer
      whitespace are removed: at least one field, none holding a colon, and
      joined back with colons they give the cleaned text, which neither
      starts nor ends with whitespace. */
  function Fields(s: string): (r: seq<string>)
    ensures |r| >= 1
    ensures forall i :: 0 <= i < |r| ==> ':' !in r[i]
    ensures Join(r, ':') == Strip(StrSpaces, RemoveAll(s, Zwnj))
    ensures Trimmed(StrSpaces, Join(r, ':'))
  {
    var cleaned := Strip(StrSpaces, RemoveAll(s, Zwnj));
    StripTrims(StrSpaces, RemoveAll(s, Zwnj));
    Split(cleaned, ':')
  }

  /** The reading is a whole number of seconds. */
  predicate WholeSeconds(minutes: real) {
    (minutes * 60.0).Floor as real == minutes * 60.0
  }

  /** The field's integer value; only called once the field is known to parse. */
  function FieldValue(f: string): int
    requires ParseInt(f).Some?
  {
    ParseInt(f).value
  }

  /** `parse_time_to_minutes(s)`. `None` exactly for the empty text or a
      field count other than two or three; otherwise the fields decide. */
  function ParseTimeToMinutes(s: string): (r: TimeResult)
    ensures |s| == 0 ==> r == NoTime
    ensures r == NoTime <==> |s| == 0 || (|Fields(s)| != 2 && |Fields(s)| != 3)
    ensures r.ValueError? ==> r.field in Fields(s) && ParseInt(r.field).None?
    ensures r.Minutes? ==> WholeSeconds(r.value)
  {
    if |s| == 0 then NoTime else ReadFields(Fields(s))
  }

  /** Minutes in `M:SS`: a whole number of seconds, `60*M + S` of them. */
  function MinutesSeconds(m: int, sec: int): (r: real)
    ensures r * 60.0 == (60 * m + sec) as real
    ensures WholeSeconds(r)
  {
    var r := m as real + sec as real / 60.0;
    assert (r * 60.0).Floor == 60 * m + sec;
    r
  }

  /** Minutes in `H:MM:SS`: a whole number of seconds, `3600*H + 60*M + S` of them. */
  function HoursMinutesSeconds(h: int, m: int, sec: int): (r: real)
    ensures r * 60.0 == (3600 * h + 60 * m + sec) as real
    ensures WholeSeconds(r)
  {
    var r := (h * 60) as real + m as real + sec as real / 60.0;
    assert (r * 60.0).Floor == 3600 * h + 60 * m + sec;
    r
  }

  /** `MM:SS`: the minutes field is read first, so a `ValueError` names it
      whenever it is not an integer. A reading comes exactly when both fields
      are integers, and it is `60*M + S` seconds. */
  function ReadMinSec(mm: string, ss: string): (r: TimeResult)
    ensures !r.NoTime?
    ensures r.ValueError? ==> (r.field == mm && ParseInt(mm).None?)
                              || (r.field == ss && ParseInt(mm).Some? && ParseInt(ss).None?)
    ensures r.Minutes? <==> ParseInt(mm).Some? && ParseInt(ss).Some?
    ensures r.Minutes? ==> r.value * 60.0 == (60 * FieldValue(mm) + FieldValue(ss)) as real
    ensures r.Minutes? ==> WholeSeconds(r.value)
  {
    var m, sec := ParseInt(mm), ParseInt(ss);
    if m.None? then ValueError(mm)
    else if sec.None? then ValueError(ss)
    else Minutes(MinutesSeconds(m.value, sec.value))
  }

  /** `HH:MM:SS`: the fields are read left to right, and a `ValueError` names
      the first that is not an integer. A reading comes exactly when all three
      are integers, and it is `3600*H + 60*M + S` seconds. */
  function ReadHourMinSec(hh: string, mm: string, ss: string): (r: TimeResult)
    ensures !r.NoTime?
    ensures r.ValueError? ==> (r.field == hh && ParseInt(hh).None?)
                              || (r.field == mm && ParseInt(hh).Some? && ParseInt(mm).None?)
                              || (r.field == ss && ParseInt(hh).Some? && ParseInt(mm).Some?
                                  && ParseInt(ss).None?)
    ensures r.Minutes? <==> ParseInt(hh).Some? && ParseInt(mm).Some? && ParseInt(ss).Some?
    ensures r.Minutes? ==>
              r.value * 60.0 == (3600 * FieldValue(hh) + 60 * FieldValue(mm) + FieldValue(ss)) as real
    ensures r.Minutes? ==> WholeSeconds(r.value)
  {
    var h, m, sec := ParseInt(hh), ParseInt(mm), ParseInt(ss);
    if h.None? then ValueError(hh)
    else if m.None? then ValueError(mm)
    else if sec.None? then ValueError(ss)
    else Minutes(HoursMinutesSeconds(h.value, m.value, sec.value))
  }

  /** The field-reading half of the parser: two fields are `MM:SS`, three are
      `HH:MM:SS`, any other count is `None`. A `ValueError` names the first
      field, in reading order, that is not an integer; a reading comes
      exactly when there are two or three fields and all are integers, and it
      is a whole number of seconds. */
  function ReadFields(parts: seq<string>): (r: TimeResult)
    ensures r == NoTime <==> |parts| != 2 && |parts| != 3
    ensures r.ValueError? ==> r.field in parts && ParseInt(r.field).None?
    ensures r.ValueError? ==> r.field == parts[0] || ParseInt(parts[0]).Some?
    ensures r.Minutes? <==> (|parts| == 2 || |parts| == 3)
                            && forall i :: 0 <= i < |parts| ==> ParseInt(parts[i]).Some?
    ensures r.Minutes? ==> WholeSeconds(r.value)
    ensures |parts| == 2 ==> r == ReadMinSec(parts[0], parts[1])
    ensures |parts| == 3 ==> r == ReadHourMinSec(parts[0], parts[1], parts[2])
  {
    if |parts| == 2 then
      var r := ReadMinSec(parts[0], parts[1]);
      assert (forall i :: 0 <= i < 2 ==> ParseInt(parts[i]).Some?)
             <==> ParseInt(parts[0]).Some? && ParseInt(parts[1]).Some?;
      r
    else if |parts| == 3 then
      var r := ReadHourMinSec(parts[0], parts[1], parts[2]);
      assert (forall i :: 0 <= i < 3 ==> ParseInt(parts[i]).Some?)
             <==> ParseInt(parts[0]).Some? && ParseInt(parts[1]).Some? && ParseInt(parts[2]).Some?;
      r
    else
      NoTime
  }

  /** Any text whose cleaned form is two integer fields `M:S` reads as
      `M + S/60` minutes. */
  lemma TwoFieldReading(s: string)
    requires |s| > 0 && |Fields(s)| == 2
    requires ParseInt(Fields(s)[0]).Some? && ParseInt(Fields(s)[1]).Some?
    ensures ParseTimeToMinutes(s)
            == Minutes(FieldValue(Fields(s)[0]) as real + FieldValue(Fields(s)[1]) as real / 60.0)
  {
  }

  /** Any text whose cleaned form is three integer fields `H:M:S` reads as
      `H*60 + M + S/60` minutes. */
  lemma ThreeFieldReading(s: string)
    requires |s| > 0 && |Fields(s)| == 3
    requires ParseInt(Fields(s)[0]).Some? && ParseInt(Fields(s)[1]).Some?
    requires ParseInt(Fields(s)[2]).Some?
    ensures ParseTimeToMinutes(s)
            == Minutes((FieldValue(Fields(s)[0]) * 60) as real + FieldValue(Fields(s)[1]) as real
                       + FieldValue(Fields(s)[2]) as real / 60.0)
  {
  }

  // ---------------------------------------------------------------------------
  // Clock formatting, the partner of the parser
  // ---------------------------------------------------------------------------

  /** `M:SS`, as a clock shows minutes and seconds. */
  function Clock(m: nat, sec: nat): string
    requires sec < 60
  {
    Decimal(m) + ":" + TwoDigits(sec)
  }

  /** `H:MM:SS`. */
  function LongClock(h: nat, m: nat, sec: nat): string
    requires m < 60 && sec < 60
  {
    Decimal(h) + ":" + TwoDigits(m) + ":" + TwoDigits(sec)
  }

  lemma DigitsFree(d: string)
    requires AllDigits(d)
    ensures ':' !in d && '&' !in d
  {
  }

  /** Colon- and entity-free fields joined by colons into a trimmed text pass
      through cleaning intact and split back into those fields. */
  lemma CleanFields(fields: seq<string>)
    requires |fields| >= 1
    requires forall i :: 0 <= i < |fields| ==> ':' !in fields[i] && '&' !in fields[i]
    requires Trimmed(StrSpaces, Join(fields, ':'))
    ensures RemoveAll(Join(fields, ':'), Zwnj) == Join(fields, ':')
    ensures Fields(Join(fields, ':')) == fields
  {
    var s := Join(fields, ':');
    AmpFreeJoin(fields);
    RemoveAllPassThrough(s, "", Zwnj);
    assert s + "" == s;
    StripTrimmed(StrSpaces, s);
    SplitJoin(fields, ':');
  }

  /** A text of digit fields joined by colons passes through cleaning intact
      and splits back into those fields. */
  lemma CleanDigitFields(fields: seq<string>)
    requires |fields| >= 1
    requires forall i :: 0 <= i < |fields| ==> |fields[i]| > 0 && AllDigits(fields[i])
    ensures RemoveAll(Join(fields, ':'), Zwnj) == Join(fields, ':')
    ensures Fields(Join(fields, ':')) == fields
  {
    forall i | 0 <= i < |fields| ensures ':' !in fields[i] && '&' !in fields[i] {
      DigitsFree(fields[i]);
    }
    EdgesOfJoin(fields);
    CleanFields(fields);
  }

  lemma {:induction false} AmpFreeJoin(fields: seq<string>)
    requires forall i :: 0 <= i < |fields| ==> '&' !in fields[i]
    ensures '&' !in Join(fields, ':')
    decreases |fields|
  {
    if |fields| > 1 {
      AmpFreeJoin(fields[1..]);
    }
  }

  lemma {:induction false} EdgesOfJoin(fields: seq<string>)
    requires |fields| >= 1
    requires forall i :: 0 <= i < |fields| ==> |fields[i]| > 0 && AllDigits(fields[i])
    ensures var s := Join(fields, ':');
            |s| > 0 && IsDigit(s[0]) && IsDigit(s[|s| - 1]) && Trimmed(StrSpaces, s)
    decreases |fields|
  {
    if |fields| > 1 {
      EdgesOfJoin(fields[1..]);
      var t := Join(fields[1..], ':');
      var s := fields[0] + [':'] + t;
      assert s[0] == fields[0][0];
      assert s[|s| - 1] == t[|t| - 1];
    }
  }

  /** Reading back a formatted `M:SS` clock gives `M + SS/60` minutes. */
  lemma ParseClock(m: nat, sec: nat)
    requires sec < 60
    ensures ParseTimeToMinutes(Clock(m, sec)) == Minutes(m as real + sec as real / 60.0)
  {
    var a, b := Decimal(m), TwoDigits(sec);
    assert Join([a, b], ':') == Clock(m, sec);
    CleanDigitFields([a, b]);
    ParseIntDecimal(m);
    ParseIntTwoDigits(sec);
  }

  lemma LongClockFields(h: nat, m: nat, sec: nat)
    requires m < 60 && sec < 60
    ensures Fields(LongClock(h, m, sec)) == [Decimal(h), TwoDigits(m), TwoDigits(sec)]
  {
    var a, b, c := Decimal(h), TwoDigits(m), TwoDigits(sec);
    assert [a, b, c][1..] == [b, c];
    assert [b, c][1..] == [c];
    assert Join([b, c], ':') == b + ":" + c;
    assert Join([a, b, c], ':') == a + ":" + (b + ":" + c);
    assert a + ":" + (b + ":" + c) == LongClock(h, m, sec);
    CleanDigitFields([a, b, c]);
  }

  /** The three fields of a formatted `H:MM:SS` clock read as its hours,
      minutes and seconds. */
  lemma LongClockFieldValues(h: nat, m: nat, sec: nat)
    requires m < 60 && sec < 60
    ensures |Fields(LongClock(h, m, sec))| == 3
    ensures ParseInt(Fields(LongClock(h, m, sec))[0]) == Some(h)
    ensures ParseInt(Fields(LongClock(h, m, sec))[1]) == Some(m)
    ensures ParseInt(Fields(LongClock(h, m, sec))[2]) == Some(sec)
  {
    LongClockFields(h, m, sec);
    ParseIntDecimal(h);
    ParseIntTwoDigits(m);
    ParseIntTwoDigits(sec);
  }

  /** Reading back a formatted `H:MM:SS` clock gives `H*60 + MM + SS/60` minutes. */
  lemma ParseLongClock(h: nat, m: nat, sec: nat)
    requires m < 60 && sec < 60
    ensures ParseTimeToMinutes(LongClock(h, m, sec))
            == Minutes((h * 60) as real + m as real + sec as real / 60.0)
  {
    var s := LongClock(h, m, sec);
    LongClockFieldValues(h, m, sec);
    assert FieldValue(Fields(s)[0]) == h && FieldValue(Fields(s)[1]) == m
           && FieldValue(Fields(s)[2]) == sec;
    ThreeFieldReading(s);
  }

  /** The e-mails write `23&zwnj;:56`: the entity is dropped before splitting. */
  lemma ParseEmailClock(m: nat, sec: nat)
    requires sec < 60
    ensures ParseTimeToMinutes(Decimal(m) + Zwnj + ":" + TwoDigits(sec))
            == Minutes(m as real + sec as real / 60.0)
  {
    var s := Decimal(m) + Zwnj + ":" + TwoDigits(sec);
    var a, b := Decimal(m), TwoDigits(sec);
    EmailClockCleans(m, sec);
    assert Join([a, b], ':') == Clock(m, sec);
    CleanDigitFields([a, b]);
    assert Fields(s) == Fields(Clock(m, sec));
    ParseClock(m, sec);
  }

  lemma EmailClockCleans(m: nat, sec: nat)
    requires sec < 60
    ensures RemoveAll(Decimal(m) + Zwnj + ":" + TwoDigits(sec), Zwnj) == Clock(m, sec)
  {
    var a, b := Decimal(m), TwoDigits(sec);
    DigitsFree(a);
    DigitsFree(b);
    var tail := ":" + b;
    assert '&' !in tail;
    assert a + Zwnj + ":" + b == a + (Zwnj + tail);
    RemoveAllPassThrough(a, Zwnj + tail, Zwnj);
    RemoveAllLeading(Zwnj, tail);
    RemoveAllPassThrough(tail, "", Zwnj);
    assert tail + "" == tail;
    assert a + tail == Clock(m, sec);
  }

  /** A lone number is one field: `None`, not zero minutes. */
  lemma ParseSingleField(n: nat)
    ensures ParseTimeToMinutes(Decimal(n)) == NoTime
  {
    assert Join([Decimal(n)], ':') == Decimal(n);
    CleanDigitFields([Decimal(n)]);
  }

  /** A field that starts with neither a digit, a sign nor whitespace is not
      an integer. */
  lemma NotAnInteger(w: string)
    requires |w| > 0 && !IsBlank(IntSpaces, w[0]) && !IsDigit(w[0]) && !IsSign(w[0])
    ensures ParseInt(w).None?
  {
  }

  /** A non-numeric minutes field raises a `ValueError` on that field rather
      than yielding `None`. */
  lemma ParseNonNumericField(w: string, sec: nat)
    requires sec < 60
    requires |w| > 0 && ':' !in w && '&' !in w
    requires !IsSpace(w[0]) && !IsDigit(w[0]) && !IsSign(w[0])
    ensures ParseTimeToMinutes(w + ":" + TwoDigits(sec)) == ValueError(w)
  {
    var b := TwoDigits(sec);
    var s := w + ":" + b;
    DigitsFree(b);
    assert Join([w, b], ':') == s;
    assert s[0] == w[0] && s[|s| - 1] == b[1];
    CleanFields([w, b]);
    NotAnInteger(w);
    assert ReadFields([w, b]) == ReadMinSec(w, b);
  }

  /** An empty field (a dangling colon) raises too. */
  lemma ParseEmptyField(m: nat)
    ensures ParseTimeToMinutes(Decimal(m) + ":") == ValueError("")
  {
    var a := Decimal(m);
    var s := a + ":";
    DigitsFree(a);
    assert Join([a, ""], ':') == s;
    assert s[0] == a[0] && s[|s| - 1] == ':';
    CleanFields([a, ""]);
    ParseIntDecimal(m);
    assert Strip(IntSpaces, "") == "";
    assert ReadFields([a, ""]) == ReadMinSec(a, "");
  }

  /** `strip()` leaves a separator U+001C..U+001F inside the text, and
      `int()` does not skip it: `23\x1c:56` raises on its minutes field. */
  lemma ParseSeparatorInField(m: nat, c: char, sec: nat)
    requires sec < 60 && IsSeparator(c)
    ensures ParseTimeToMinutes(Decimal(m) + [c] + ":" + TwoDigits(sec))
            == ValueError(Decimal(m) + [c])
  {
    var a, b := Decimal(m) + [c], TwoDigits(sec);
    var s := a + ":" + b;
    DigitsFree(Decimal(m));
    DigitsFree(b);
    assert ':' !in a && '&' !in a;
    assert Join([a, b], ':') == s;
    assert s[0] == a[0] && s[|s| - 1] == b[1];
    CleanFields([a, b]);
    ParseIntTrailingSeparator(Decimal(m), c);
    assert ReadFields([a, b]) == ReadMinSec(a, b);
  }
}
