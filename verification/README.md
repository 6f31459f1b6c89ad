# OTF workout e-mail classifier — Dafny model

This project models the decision logic of the Orangetheory e-mail parser in
`src/parsers/otf_parser.py`:

- `classify_workout` takes the treadmill ("tread") and rower ("row") sections
  that the HTML extractors found. It names the class with a four-rule,
  first-match-wins decision tree: TREAD_50, STRENGTH_50, ORANGE_90 or
  ORANGE_60. It splits the class duration into tread, row and strength
  seconds; strength time is never observed, so it is a clamped residual. It
  also records an evidence trail.
- `parse_time_to_minutes` reads a clock such as `23&zwnj;:56` or `1:02:03` as
  a number of minutes.

The model is functional. Immutable datatypes stand for the source's dicts and
pure functions stand for its functions. Properties are proved as `ensures`
clauses and lemmas.

| file | module | models |
|---|---|---|
| `wrappers.dfy` | `Wrappers` | `Option`, standing for Python's `None`-or-value |
| `text.dfy` | `Text` | the `str` operations the parser uses: `replace(pat, '')`, `strip()`, `split(':')` and its inverse `join` |
| `pyint.dfy` | `PyInt` | Python's `int(text)` in base 10, and `str(n)` as its partner |
| `time_parse.dfy` | `TimeParse` | `parse_time_to_minutes` and a clock formatter as its partner |
| `classifier.dfy` | `Classifier` | `classify_workout`, its section records, labels, evidence and the `int(minutes * 60)` truncation |
| `workout_rules.dfy` | `WorkoutRules` | the decision tree as a rule table, the rules restated over whole seconds, and worked examples |

Modelling choices:

- **Times are exact reals.** A section time is `Option<real>` minutes, where
  the source has an optional float. `int(minutes * 60)` is written out as
  truncation toward zero (`Classifier.Trunc`). The thresholds compare minutes
  against 40, as the code does. The properties over seconds are stated for
  sections built by `WorkoutRules.FromSeconds`, that is, for times that are a
  whole number of seconds. The 40-minute threshold is then 2400 s. The
  section times `classify_workout` receives are built by the extractors
  (src/parsers/otf_parser.py:76-79 and 133-136) inline, as
  `minutes + (seconds / 60.0)` from two integers, so under exact arithmetic
  they are whole numbers of seconds, and on those the truncation is exact
  (`WorkoutRules.WholeSecondsTruncateExactly`). The extractors do not call
  `parse_time_to_minutes`; its readings are whole seconds too
  (`TimeParse.ParseTimeToMinutes` ensures `WholeSeconds`), and
  `WorkoutRules.ClockToSeconds` relates the two functions although the
  source never chains them.
- **The parser has three outcomes.** They are `Minutes(value)`, `NoTime`
  (Python's `None`) and `ValueError(field)`. `ValueError` stands for the
  exception `int()` raises, and names the field that caused it.
- **`int()` on a field** follows Python for ASCII digits. It ignores
  surrounding whitespace, takes one optional `+`/`-` sign, and accepts digits
  grouped by single underscores. Leading zeros are allowed. The two
  whitespace sets differ (`Text.Spaces`): `strip()` removes every
  `str.isspace()` character, while `int()` keeps ASCII text as it is, maps
  other Unicode whitespace to a space, and skips only ASCII whitespace. So
  the separators U+001C..U+001F are removed by `strip()` but make `int()`
  raise: `23\x1c:56` raises on its minutes field
  (`TimeParse.ParseSeparatorInField`). The interpreter's limit on the number
  of digits `int()` converts is not modelled (see "Left out").
- **The rule order follows the code.** In the code, rule 1 (TREAD_50) tests
  whether the rower *section* is present, not whether the row time is zero.
  Rule 2 (STRENGTH_50) tests that neither section is present. Every other
  input is an ORANGE class. A description of the system lists the rules in
  another order and wording: it has a zero-row-time test, ORANGE_60 only
  when both times are positive, and STRENGTH_50 as the fall-through.
  `WorkoutRules.RowSectionBlocksTread50` and
  `WorkoutRules.ShortTreadAloneIsOrange60` pin down the code's behaviour
  where the two readings part.
- **Overfull classes are clamped, not reported.** A description of the
  system asks for a component sum above the class duration to be reported
  as a data-quality condition. The code clamps strength to zero and reports
  nothing (`WorkoutRules.OverfullClassClampsStrength`,
  `WorkoutRules.LongTreadExceedsTread50`). The model follows the code.

## Model

| member | source | states |
|---|---|---|
| `Text.RemoveAll` | src/parsers/otf_parser.py:26 | Removing the `&zwnj;` entity never lengthens the text, and a text with no occurrence is returned unchanged. That every occurrence is deleted is stated by `Text.RemoveAllJoined` |
| `Text.RemoveAllJoined` | src/parsers/otf_parser.py:26 | For any pieces that cannot start the entity, joined with the entity between them, `replace` deletes every occurrence and gives the pieces concatenated in order |
| `Text.RemoveAllLeading` | src/parsers/otf_parser.py:26 | An occurrence at the front is deleted and removal continues after it |
| `Text.RemoveAllPassThrough` | src/parsers/otf_parser.py:26 | Characters that cannot start the entity are copied through, and removal continues on the rest |
| `Text.StripKeepsPiece` | src/parsers/otf_parser.py:26 | `strip()` cuts only at the ends: what it keeps is one contiguous piece of the text, starting right after the leading whitespace |
| `Text.StripTrims` | src/parsers/otf_parser.py:26 | After stripping (by `strip()`'s or `int()`'s whitespace set) the text neither starts nor ends with whitespace, and it is empty exactly when the input was all whitespace |
| `Text.StripPadded` | src/parsers/otf_parser.py:26 | Stripping removes exactly the whitespace padding around a trimmed core, and nothing of the core |
| `Text.Split` | src/parsers/otf_parser.py:28 | `split(':')` yields one more field than there are colons, no field contains a colon, and joining the fields with `:` gives back the text |
| `Text.SplitJoin` | src/parsers/otf_parser.py:28 | `split` inverts `join` on any non-empty list of colon-free fields |
| `PyInt.ParseIntNeedsDigit` | src/parsers/otf_parser.py:31 | `int()` rejects blank text. A reading needs a digit somewhere in the text, and a negative reading a `-` |
| `PyInt.ParseLiteral` | src/parsers/otf_parser.py:31 | `int()` accepts a stripped literal only if it ends in a digit, gives a negative value only after `-`, and rejects a text with no digit |
| `PyInt.ParseLiteralOfSigned` | src/parsers/otf_parser.py:31 | `int()` reads a `+` or `-` followed by any numeral (underscores between digits included) as the signed value of that numeral |
| `PyInt.ParseIntDecimal` | src/parsers/otf_parser.py:31 | `int(str(n)) == n` for every natural number |
| `PyInt.ParseIntTwoDigits` | src/parsers/otf_parser.py:31 | A zero-padded two-digit field such as `05` reads as its value |
| `PyInt.ParseIntSigned` | src/parsers/otf_parser.py:31 | A `+` or `-` sign before the digits gives the signed value |
| `PyInt.ParseIntPadded` | src/parsers/otf_parser.py:31 | Whitespace of `int()`'s set around a field does not change what `int()` reads |
| `PyInt.ParseIntTrailingSeparator` | src/parsers/otf_parser.py:31 | A separator U+001C..U+001F after the digits, though `isspace()`, makes `int()` reject the field |
| `PyInt.ParseIntUnderscore` | src/parsers/otf_parser.py:31 | An underscore between digits is ignored, so `1_000` reads as `1000` |
| `TimeParse.ParseTimeToMinutes` | src/parsers/otf_parser.py:12-38 | The empty text gives `None`. Otherwise the result is `None` exactly when the cleaned text has other than 2 or 3 colon-separated fields. A `ValueError` names a field that is not an integer, and every reading is a whole number of seconds |
| `TimeParse.Fields` | src/parsers/otf_parser.py:26-28 | The cleaned text splits into at least one field, none holding a colon; joined back with colons the fields give the entity-free, stripped text, which has no outer whitespace |
| `TimeParse.ReadFields` | src/parsers/otf_parser.py:28-38 | Two or three fields give a reading or an error, any other count gives `None`. The error names the first non-integer field in reading order. A reading comes exactly when every field is an integer, and it is `60*M + S` seconds for `M:S` and `3600*H + 60*M + S` seconds for `H:M:S` |
| `TimeParse.ReadMinSec` | src/parsers/otf_parser.py:29-32 | For `MM:SS`, the minutes field is read first. An error names the minutes field when it is not an integer, and the seconds field only when the minutes field is one. A reading comes exactly when both fields are integers, and it is `60*M + S` seconds |
| `TimeParse.ReadHourMinSec` | src/parsers/otf_parser.py:33-36 | For `HH:MM:SS`, the fields are read left to right and an error names the first that is not an integer. A reading comes exactly when all three are integers, and it is `3600*H + 60*M + S` seconds |
| `TimeParse.TwoFieldReading` | src/parsers/otf_parser.py:29-32 | Any text whose cleaned form is two integer fields `M:S` reads as `M + S/60` minutes |
| `TimeParse.ThreeFieldReading` | src/parsers/otf_parser.py:33-36 | Any text whose cleaned form is three integer fields `H:M:S` reads as `H*60 + M + S/60` minutes |
| `TimeParse.MinutesSeconds` | src/parsers/otf_parser.py:31-32 | `M + S/60` minutes are exactly `60*M + S` seconds |
| `TimeParse.HoursMinutesSeconds` | src/parsers/otf_parser.py:35-36 | `H*60 + M + S/60` minutes are exactly `3600*H + 60*M + S` seconds |
| `TimeParse.CleanFields` | src/parsers/otf_parser.py:26-28 | Fields with no colon and no entity, joined by colons into a text with no surrounding whitespace, pass through entity removal and stripping unchanged and split back into the same fields |
| `TimeParse.CleanDigitFields` | src/parsers/otf_parser.py:26-28 | Digit fields joined by colons pass through entity removal and stripping unchanged, and split back into the same fields |
| `TimeParse.ParseClock` | src/parsers/otf_parser.py:29-32 | Parsing a formatted `M:SS` clock gives `M + SS/60` minutes |
| `TimeParse.LongClockFields` | src/parsers/otf_parser.py:26-28 | A formatted `H:MM:SS` clock splits into its hour, minute and second digit strings |
| `TimeParse.LongClockFieldValues` | src/parsers/otf_parser.py:28-36 | The three fields of a formatted `H:MM:SS` clock read as its hours, minutes and seconds |
| `TimeParse.ParseLongClock` | src/parsers/otf_parser.py:33-36 | Parsing a formatted `H:MM:SS` clock gives `H*60 + MM + SS/60` minutes |
| `TimeParse.ParseEmailClock` | src/parsers/otf_parser.py:26-32 | `M&zwnj;:SS`, as the e-mails write it, parses like `M:SS` |
| `TimeParse.EmailClockCleans` | src/parsers/otf_parser.py:26 | Removing the entity from `M&zwnj;:SS` leaves `M:SS` |
| `TimeParse.ParseSingleField` | src/parsers/otf_parser.py:28-38 | A lone number is a single field and gives `None`, not zero minutes |
| `TimeParse.NotAnInteger` | src/parsers/otf_parser.py:31 | A field starting with neither a digit, a sign nor whitespace is not an integer for `int()` |
| `TimeParse.ParseNonNumericField` | src/parsers/otf_parser.py:26-32 | A non-numeric minutes field (such as `ab:05`) raises `ValueError` on that field instead of giving `None` |
| `TimeParse.ParseEmptyField` | src/parsers/otf_parser.py:31 | A dangling colon (`23:`) leaves an empty field, and `int('')` raises |
| `TimeParse.ParseSeparatorInField` | src/parsers/otf_parser.py:26-31 | A separator U+001C..U+001F between the minutes and the colon survives `strip()`, and the reading raises `ValueError` on the minutes field (`23\x1c:56`) |
| `Classifier.TimeOrZero` | src/parsers/otf_parser.py:174-175 | A missing section time counts as 0 minutes, a present one as itself |
| `Classifier.ToSeconds` | src/parsers/otf_parser.py:178-179 | `int(minutes * 60)`: for non-negative minutes, the whole seconds not above the exact seconds and within one of them; for negative minutes, the mirror image |
| `Classifier.Trunc` | src/parsers/otf_parser.py:178-179 | `int()` on a real truncates toward zero: the result is within one of the input and not past it |
| `Classifier.ClassifyWorkout` | src/parsers/otf_parser.py:157-232 | The class duration always matches the label. The evidence records both presence flags, both times (a missing one as 0) and their sum, whichever rule fired. Strength is never negative, and when positive the three component times add up to the class duration. TREAD_50 has no row or strength time. STRENGTH_50 has no cardio time and is strength throughout |
| `WorkoutRules.FirstMatch` | src/parsers/otf_parser.py:161-165 | The first-match-wins evaluator gives nothing exactly when no rule fires. Otherwise it gives the label of a rule that fires and that no earlier firing rule precedes |
| `WorkoutRules.ClassifyIsFirstMatch` | src/parsers/otf_parser.py:189-219 | For every input, the code's label is the label of the first firing rule of the documented four-rule table |
| `WorkoutRules.ToSecondsOfWholeSeconds` | src/parsers/otf_parser.py:178-179 | `int(minutes * 60)` returns the seconds exactly when the time is a whole number of seconds |
| `WorkoutRules.WholeSecondsTruncateExactly` | src/parsers/otf_parser.py:178-179 | On any whole number of seconds, which every extractor time `minutes + seconds / 60.0` is, the truncation loses nothing |
| `WorkoutRules.ClockToSeconds` | src/parsers/otf_parser.py:178-179 | A parsed `M:SS` reading, put through the classifier's truncation, becomes `60*M + SS` seconds. The source never chains the two functions; this shows they agree on the seconds of a clock |
| `WorkoutRules.Tread50Rule` | src/parsers/otf_parser.py:191-199 | At least 2400 s of tread and no rower section give TREAD_50: 50 minutes, the input tread seconds, no row, no strength. This holds whatever the other fields say, so rule 1 wins over all others |
| `WorkoutRules.Strength50Rule` | src/parsers/otf_parser.py:202-210 | If rule 1 does not fire and neither section is present, the result is STRENGTH_50: 50 minutes, no tread or row time, 3000 s of strength |
| `WorkoutRules.OrangeThreshold` | src/parsers/otf_parser.py:213-219 | Past rules 1 and 2, the result is ORANGE_90 (90 minutes) exactly when tread + row reach 2400 s, 2400 included. Otherwise it is ORANGE_60 (60 minutes) |
| `WorkoutRules.ResidualStrength` | src/parsers/otf_parser.py:222-223 | In an ORANGE class, tread and row seconds are the inputs. When strength is positive, tread + row + strength equals the class duration. When strength is zero, tread + row already fill the class |
| `WorkoutRules.MissingTimeIsZero` | src/parsers/otf_parser.py:174-175 | A section with no time classifies exactly like one with zero time, whatever the other section holds; for each section alone and for both together |
| `WorkoutRules.NonNegativeTimes` | src/parsers/otf_parser.py:174-223 | With non-negative times, all component seconds are non-negative and strength never exceeds the class duration |
| `WorkoutRules.ThresholdComparesMinutes` | src/parsers/otf_parser.py:178-219 | The thresholds compare untruncated minutes. 20.01 and 19.99 minutes give ORANGE_90 although their truncated seconds sum to 2399 |
| `WorkoutRules.Orange90Example` | src/parsers/otf_parser.py:213-223 | 1436 s of tread and 1073 s of row give ORANGE_90 with 2891 s of strength |
| `WorkoutRules.Orange60Example` | src/parsers/otf_parser.py:216-223 | 1553 s of tread and 231 s of row give ORANGE_60 with 1816 s of strength |
| `WorkoutRules.Tread50Example` | src/parsers/otf_parser.py:191-199 | 2692 s of tread and no rower section give TREAD_50 with no strength |
| `WorkoutRules.Strength50Example` | src/parsers/otf_parser.py:202-210 | No sections give STRENGTH_50 with 3000 s of strength |
| `WorkoutRules.ThresholdIsInclusive` | src/parsers/otf_parser.py:213-219 | Exactly 2400 s of cardio is ORANGE_90, and 2399 s is ORANGE_60 |
| `WorkoutRules.RowSectionBlocksTread50` | src/parsers/otf_parser.py:191 | A rower section without a readable time still blocks TREAD_50: 2700 s of tread gives ORANGE_90 |
| `WorkoutRules.ShortTreadAloneIsOrange60` | src/parsers/otf_parser.py:202-219 | A short tread section with no rower section is ORANGE_60, not STRENGTH_50 |
| `WorkoutRules.OverfullClassClampsStrength` | src/parsers/otf_parser.py:222-223 | Cardio beyond 90 minutes clamps strength to 0, and the component times then exceed the class duration |
| `WorkoutRules.LongTreadExceedsTread50` | src/parsers/otf_parser.py:191-199 | A TREAD_50 class can report more tread seconds than its 50 minutes |

## Left out

- The HTML extractors `extract_tread_metrics` and `extract_row_metrics`
  (src/parsers/otf_parser.py:41-154) and the calorie and splat-point lookups
  in `parse_otf_email` (src/parsers/otf_parser.py:256-286). They navigate a
  BeautifulSoup tree and run regular expressions over HTML, which are foreign
  library calls. Their output enters the model as the `SectionMetrics`
  records that `ClassifyWorkout` takes.
- The miles-to-meters conversion `int(miles * 1609.34)`
  (src/parsers/otf_parser.py:94). It is floating point inside an extractor.
- Floating-point rounding. Times are exact reals, so a float product
  `minutes * 60` that lands just below a whole number, and so loses a second
  to truncation, is not modelled. Under exact arithmetic `M + S/60` minutes are
  exactly `60*M + S` seconds.
- `datetime.now()` and the empty placeholder subject in `parse_otf_email`
  (src/parsers/otf_parser.py:251-254). They are a wall-clock read and a stub,
  with no logic.
- `parse_otf_email` itself. It only wires the extractors to `classify_workout`
  and gathers their results into a dict.
- The test script tests/test_parser.py. It reads sample e-mails from disk and
  prints the results; the e-mails are not part of this model.
- `PyInt.ParseLiteral`: Unicode decimal digits other than ASCII `0`-`9`
  (for example Arabic-Indic digits) are rejected here, while Python's
  `int()` accepts them.
- `TimeParse.ParseTimeToMinutes`: the argument is a string. The `None`
  argument that `if not time_str` would also turn into `None` is outside the
  function's declared `str` type.
- `TimeParse.ParseTimeToMinutes`: the `OverflowError` that
  `minutes + (seconds / 60.0)` and `(hours * 60) + minutes + (seconds / 60.0)`
  raise when a field's integer is too large for a float (for example
  `'1' * 400 + ':00'`) is not modelled. Times are exact reals, so such a
  text gives a reading here.
- `PyInt.ParseLiteral`: Python's `int()` raises `ValueError` on a numeral of
  more than 4300 digits (the interpreter's default limit, adjustable at run
  time). The model accepts numerals of any length.
- A normalizer that a description of the system lists is not in the code,
  so none of it is modelled: the
  workout component records, the distance-present-iff-run-or-row invariant,
  the idempotency keys and the `ClassificationError`/`NormalizationError`
  conditions.
