/**
 * The three Python `str` operations the time parser relies on:
 * `replace(old, '')`, `strip()` and `split(sep)`, over `seq<char>`, and the
 * whitespace skipping `int()` does around a literal.
 */
module Text {

  /** Python's `str.isspace()` for a single character: the ASCII controls
      TAB..CR, the separators U+001C..U+001F, SPACE, and the Unicode
      whitespace code points. */
  predicate IsSpace(c: char) {
    || ('\t' <= c <= '\r')
    || ('\U{1C}' <= c <= '\U{1F}')
    || c == ' '
    || c == '\U{85}'
    || c == '\U{A0}'
    || c == '\U{1680}'
    || ('\U{2000}' <= c <= '\U{200A}')
    || c == '\U{2028}'
    || c == '\U{2029}'
    || c == '\U{202F}'
    || c == '\U{205F}'
    || c == '\U{3000}'
  }

  /** The ASCII information separators U+001C..U+001F. */
  predicate IsSeparator(c: char) {
    '\U{1C}' <= c <= '\U{1F}'
  }

  /** The two whitespace sets in play. `strip()` removes `str.isspace()`
      characters. `int()` keeps ASCII text as it is, maps other Unicode
      whitespace to a space, and then skips only ASCII whitespace; so the
      separators U+001C..U+001F, though `isspace()`, are not skipped. */
  datatype Spaces = StrSpaces | IntSpaces

  predicate IsBlank(k: Spaces, c: char) {
    IsSpace(c) && (k == IntSpaces ==> !IsSeparator(c))
  }

  predicate AllBlank(k: Spaces, s: string) {
    forall i :: 0 <= i < |s| ==> IsBlank(k, s[i])
  }

  /** Neither the first nor the last character is whitespace. */
  predicate Trimmed(k: Spaces, s: string) {
    |s| == 0 || (!IsBlank(k, s[0]) && !IsBlank(k, s[|s| - 1]))
  }

  // ---------------------------------------------------------------------------
  // strip()
  // ---------------------------------------------------------------------------

  /** Number of whitespace characters at the start of `s`. */
  function LeadingSpaces(k: Spaces, s: string): (n: nat)
    ensures n <= |s|
    decreases |s|
  {
    if |s| > 0 && IsBlank(k, s[0]) then 1 + LeadingSpaces(k, s[1..]) else 0
  }

  /** Number of whitespace characters at the end of `s`. */
  function TrailingSpaces(k: Spaces, s: string): (n: nat)
    ensures n <= |s|
    decreases |s|
  {
    if |s| > 0 && IsBlank(k, s[|s| - 1]) then 1 + TrailingSpaces(k, s[..|s| - 1]) else 0
  }

  /** `r` occurs in `s` starting at index `i`. */
  predicate PieceAt(r: string, s: string, i: int) {
    0 <= i <= |s| - |r| && r == s[i..i + |r|]
  }

  /** `s` without its leading and trailing whitespace: `strip()` for
      `StrSpaces`. */
  function Strip(k: Spaces, s: string): (r: string)
    ensures |r| <= |s|
  {
    var t := s[LeadingSpaces(k, s)..];
    t[..|t| - TrailingSpaces(k, t)]
  }

  /** Stripping cuts only at the ends: what is kept is one contiguous piece
      of the text, starting right after the leading whitespace. */
  lemma StripKeepsPiece(k: Spaces, s: string)
    ensures PieceAt(Strip(k, s), s, LeadingSpaces(k, s))
  {
  }

  /** `LeadingSpaces` counts exactly the maximal whitespace prefix. */
  lemma {:induction false} LeadingSpacesMaximal(k: Spaces, s: string)
    ensures forall i :: 0 <= i < LeadingSpaces(k, s) ==> IsBlank(k, s[i])
    ensures LeadingSpaces(k, s) < |s| ==> !IsBlank(k, s[LeadingSpaces(k, s)])
    decreases |s|
  {
    if |s| > 0 && IsBlank(k, s[0]) {
      var q := s[1..];
      LeadingSpacesMaximal(k, q);
      assert forall i :: 1 <= i < |s| ==> s[i] == q[i - 1];
    }
  }

  /** `TrailingSpaces` counts exactly the maximal whitespace suffix. */
  lemma {:induction false} TrailingSpacesMaximal(k: Spaces, s: string)
    ensures forall i :: |s| - TrailingSpaces(k, s) <= i < |s| ==> IsBlank(k, s[i])
    ensures TrailingSpaces(k, s) < |s| ==> !IsBlank(k, s[|s| - TrailingSpaces(k, s) - 1])
    decreases |s|
  {
    if |s| > 0 && IsBlank(k, s[|s| - 1]) {
      var p := s[..|s| - 1];
      TrailingSpacesMaximal(k, p);
      assert forall i :: 0 <= i < |p| ==> s[i] == p[i];
    }
  }

  /** What is stripped neither starts nor ends with whitespace, and it is
      empty exactly when the whole text is whitespace. */
  lemma StripTrims(k: Spaces, s: string)
    ensures Trimmed(k, Strip(k, s))
    ensures |Strip(k, s)| == 0 <==> AllBlank(k, s)
  {
    var a := LeadingSpaces(k, s);
    var t := s[a..];
    var b := TrailingSpaces(k, t);
    var r := Strip(k, s);
    LeadingSpacesMaximal(k, s);
    TrailingSpacesMaximal(k, t);
    assert r == t[..|t| - b];
    if |r| > 0 {
      assert r[0] == s[a];
      assert r[|r| - 1] == t[|t| - b - 1];
      assert !AllBlank(k, s) by { assert !IsBlank(k, s[a]); }
    } else {
      // a first non-space character of `s` would have been kept
      assert a == |s|;
    }
  }

  /** Leading whitespace before a non-space character is counted exactly. */
  lemma {:induction false} LeadingSpacesPadded(k: Spaces, pre: string, x: string)
    requires AllBlank(k, pre)
    requires |x| == 0 || !IsBlank(k, x[0])
    ensures LeadingSpaces(k, pre + x) == |pre|
    decreases |pre|
  {
    if |pre| == 0 {
      assert pre + x == x;
    } else {
      assert (pre + x)[1..] == pre[1..] + x;
      LeadingSpacesPadded(k, pre[1..], x);
    }
  }

  /** Trailing whitespace after a non-space character is counted exactly. */
  lemma {:induction false} TrailingSpacesPadded(k: Spaces, x: string, post: string)
    requires AllBlank(k, post)
    requires |x| == 0 || !IsBlank(k, x[|x| - 1])
    ensures TrailingSpaces(k, x + post) == |post|
    decreases |post|
  {
    if |post| == 0 {
      assert x + post == x;
    } else {
      assert (x + post)[..|x + post| - 1] == x + post[..|post| - 1];
      TrailingSpacesPadded(k, x, post[..|post| - 1]);
    }
  }

  /** Stripping removes exactly the whitespace padding around a trimmed core. */
  lemma StripPadded(k: Spaces, pre: string, core: string, post: string)
    requires AllBlank(k, pre) && AllBlank(k, post) && Trimmed(k, core)
    ensures Strip(k, pre + core + post) == core
  {
    var s := pre + core + post;
    if |core| == 0 {
      assert AllBlank(k, s) by {
        forall i | 0 <= i < |s| ensures IsBlank(k, s[i]) {
          if i < |pre| { assert s[i] == pre[i]; } else { assert s[i] == post[i - |pre|]; }
        }
      }
      StripTrims(k, s);
    } else {
      assert s == pre + (core + post);
      LeadingSpacesPadded(k, pre, core + post);
      assert s[|pre|..] == core + post;
      TrailingSpacesPadded(k, core, post);
      assert (core + post)[..|core|] == core;
    }
  }

  /** A string that is already trimmed is left unchanged by stripping. */
  lemma StripTrimmed(k: Spaces, s: string)
    requires Trimmed(k, s)
    ensures Strip(k, s) == s
  {
    StripPadded(k, "", s, "");
    assert "" + s + "" == s;
  }


  // ---------------------------------------------------------------------------
  // replace(pat, '')
  // ---------------------------------------------------------------------------

  /** `pat` occurs somewhere in `s`. */
  predicate OccursIn(pat: string, s: string)
    decreases |s|
  {
    pat <= s || (|s| > 0 && OccursIn(pat, s[1..]))
  }

  /** `s.replace(pat, '')`: scanning left to right, every non-overlapping
      occurrence of `pat` is deleted. An empty `pat` leaves `s` as it is. */
  function RemoveAll(s: string, pat: string): (r: string)
    ensures |r| <= |s|
    ensures !OccursIn(pat, s) ==> r == s
    decreases |s|
  {
    if |pat| == 0 || |s| == 0 then s
    else if pat <= s then
      RemoveAll(s[|pat|..], pat)
    else
      [s[0]] + RemoveAll(s[1..], pat)
  }

  /** Characters that cannot start an occurrence of `pat` pass through untouched. */
  lemma {:induction false} RemoveAllPassThrough(a: string, b: string, pat: string)
    requires |pat| > 0 && pat[0] !in a
    ensures RemoveAll(a + b, pat) == a + RemoveAll(b, pat)
    decreases |a|
  {
    if |a| > 0 {
      var s := a + b;
      assert s[0] == a[0] != pat[0];
      assert !(pat <= s);
      assert s[1..] == a[1..] + b;
      RemoveAllPassThrough(a[1..], b, pat);
      assert [a[0]] + (a[1..] + RemoveAll(b, pat)) == a + RemoveAll(b, pat);
    } else {
      assert a + b == b;
    }
  }

  /** A leading occurrence of `pat` is deleted. */
  lemma RemoveAllLeading(pat: string, b: string)
    requires |pat| > 0
    ensures RemoveAll(pat + b, pat) == RemoveAll(b, pat)
  {
    assert pat <= pat + b;
    assert (pat + b)[|pat|..] == b;
  }

  /** The parts one after another. */
  function Concat(parts: seq<string>): string
    decreases |parts|
  {
    if |parts| == 0 then "" else parts[0] + Concat(parts[1..])
  }

  /** The parts with the text `sep` between neighbours. */
  function JoinBy(parts: seq<string>, sep: string): string
    decreases |parts|
  {
    if |parts| <= 1 then Concat(parts) else parts[0] + sep + JoinBy(parts[1..], sep)
  }

  /** Every occurrence of `pat` between pieces that cannot start one is
      deleted, and the pieces are kept in order: `replace(pat, '')` on such
      a text is the concatenation of its pieces. */
  lemma {:induction false} RemoveAllJoined(parts: seq<string>, pat: string)
    requires |pat| > 0 && |parts| >= 1
    requires forall i :: 0 <= i < |parts| ==> pat[0] !in parts[i]
    ensures RemoveAll(JoinBy(parts, pat), pat) == Concat(parts)
    decreases |parts|
  {
    var head := parts[0];
    if |parts| == 1 {
      assert Concat(parts) == head + Concat([]);
      RemoveAllPassThrough(head, "", pat);
      assert head + "" == head;
    } else {
      var rest := JoinBy(parts[1..], pat);
      assert JoinBy(parts, pat) == head + (pat + rest);
      RemoveAllPassThrough(head, pat + rest, pat);
      RemoveAllLeading(pat, rest);
      RemoveAllJoined(parts[1..], pat);
    }
  }

  // ---------------------------------------------------------------------------
  // split(sep) and its inverse join
  // ---------------------------------------------------------------------------

  /** Number of occurrences of `c` in `s`. */
  function Count(s: string, c: char): nat
    decreases |s|
  {
    if |s| == 0 then 0 else (if s[0] == c then 1 else 0) + Count(s[1..], c)
  }

  /** `sep.join(parts)`. */
  function Join(parts: seq<string>, sep: char): string
    decreases |parts|
  {
    if |parts| == 0 then ""
    else if |parts| == 1 then parts[0]
    else parts[0] + [sep] + Join(parts[1..], sep)
  }

  /** `s.split(sep)`: the maximal pieces of `s` between occurrences of `sep`.
      There is always one piece more than there are separators, no piece
      contains the separator, and joining the pieces gives back `s`. */
  function Split(s: string, sep: char): (r: seq<string>)
    ensures |r| == Count(s, sep) + 1
    ensures forall i :: 0 <= i < |r| ==> sep !in r[i]
    ensures Join(r, sep) == s
    decreases |s|
  {
    if |s| == 0 then [""]
    else
      var rest := Split(s[1..], sep);
      if s[0] == sep then
        assert Join([""] + rest, sep) == "" + [sep] + Join(rest, sep);
        assert s == [sep] + s[1..];
        [""] + rest
      else
        var r := [[s[0]] + rest[0]] + rest[1..];
        assert r[1..] == rest[1..];
        assert |rest| == 1 ==> Join(r, sep) == [s[0]] + rest[0];
        assert |rest| > 1 ==> Join(rest, sep) == rest[0] + [sep] + Join(rest[1..], sep);
        assert |rest| > 1 ==> Join(r, sep) == [s[0]] + rest[0] + [sep] + Join(rest[1..], sep);
        assert s == [s[0]] + s[1..];
        r
  }

  /** Splitting a separator-free piece followed by the separator. */
  lemma {:induction false} SplitAfterPiece(a: string, t: string, sep: char)
    requires sep !in a
    ensures Split(a + [sep] + t, sep) == [a] + Split(t, sep)
    decreases |a|
  {
    var s := a + [sep] + t;
    if |a| == 0 {
      assert s == [sep] + t;
      assert s[1..] == t;
    } else {
      assert s[0] == a[0] != sep;
      assert s[1..] == a[1..] + [sep] + t;
      SplitAfterPiece(a[1..], t, sep);
      assert [a[0]] + a[1..] == a;
    }
  }

  /** A separator-free string is a single piece. */
  lemma {:induction false} SplitNoSeparator(a: string, sep: char)
    requires sep !in a
    ensures Split(a, sep) == [a]
    decreases |a|
  {
    if |a| > 0 {
      SplitNoSeparator(a[1..], sep);
      assert [a[0]] + a[1..] == a;
    }
  }

  /** `split` inverts `join` on non-empty lists of separator-free pieces. */
  lemma {:induction false} SplitJoin(parts: seq<string>, sep: char)
    requires |parts| >= 1
    requires forall i :: 0 <= i < |parts| ==> sep !in parts[i]
    ensures Split(Join(parts, sep), sep) == parts
    decreases |parts|
  {
    if |parts| == 1 {
      SplitNoSeparator(parts[0], sep);
    } else {
      SplitJoin(parts[1..], sep);
      SplitAfterPiece(parts[0], Join(parts[1..], sep), sep);
      assert [parts[0]] + parts[1..] == parts;
    }
  }
}
