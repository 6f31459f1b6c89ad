/**
 * What the classifier promises, stated apart from its code: the decision
 * tree as a table of rules read top to bottom, the rules restated over whole
 * seconds, the residual identity, and worked examples.
 */
module WorkoutRules {
  import opened Wrappers
  import opened Classifier
  import TimeParse

  // ---------------------------------------------------------------------------
  // The decision tree as data
  // ---------------------------------------------------------------------------

  datatype Rule = Rule(outcome: ClassType, fires: (SectionMetrics, SectionMetrics) -> bool)

  /** The four rules in the order the classifier documents them. */
  function DecisionTree(): seq<Rule> {
    [ Rule(Tread50, (t: SectionMetrics, r: SectionMetrics) => TimeOrZero(t) >= CardioThreshold && !r.present),
      Rule(Strength50, (t: SectionMetrics, r: SectionMetrics) => !t.present && !r.present),
      Rule(Orange90, (t: SectionMetrics, r: SectionMetrics) => TimeOrZero(t) + TimeOrZero(r) >= CardioThreshold),
      Rule(Orange60, (t: SectionMetrics, r: SectionMetrics) => true) ]
  }

  /** The label of the first rule that fires, if any does. */
  function FirstMatch(rules: seq<Rule>, tread: SectionMetrics, row: SectionMetrics): (r: Option<ClassType>)
    ensures r.None? <==> forall i :: 0 <= i < |rules| ==> !rules[i].fires(tread, row)
    ensures r.Some? ==> exists i :: 0 <= i < |rules| && rules[i].outcome == r.value
                          && rules[i].fires(tread, row)
                          && forall j :: 0 <= j < i ==> !rules[j].fires(tread, row)
    decreases |rules|
  {
    if |rules| == 0 then None
    else if rules[0].fires(tread, row) then Some(rules[0].outcome)
    else
      var r := FirstMatch(rules[1..], tread, row);
      assert forall i :: 1 <= i < |rules| ==> rules[i] == rules[1..][i - 1];
      if r.Some? then
        var k :| 0 <= k < |rules[1..]| && rules[1..][k].outcome == r.value
                 && rules[1..][k].fires(tread, row)
                 && forall j :: 0 <= j < k ==> !rules[1..][j].fires(tread, row);
        assert rules[k + 1] == rules[1..][k];
        r
      else
        r
  }

  /** The code takes exactly the branch the rule table picks: every input gets
      a label, and the label is that of the first rule that fires. */
  lemma ClassifyIsFirstMatch(tread: SectionMetrics, row: SectionMetrics)
    ensures FirstMatch(DecisionTree(), tread, row) == Some(ClassifyWorkout(tread, row).classType)
  {
    var rules := DecisionTree();
    assert rules[1..][1..][1..] == [rules[3]];
    assert rules[1..][1..] == [rules[2], rules[3]];
    assert rules[1..] == [rules[1], rules[2], rules[3]];
    assert FirstMatch([rules[3]], tread, row) == Some(Orange60);
  }

  // ---------------------------------------------------------------------------
  // The rules over whole seconds
  // ---------------------------------------------------------------------------

  /** A section whose time is a whole number of seconds. */
  function FromSeconds(present: bool, seconds: Option<nat>): (m: SectionMetrics)
    ensures m.present == present && m.totalTimeMinutes.Some? == seconds.Some?
  {
    SectionMetrics(present, if seconds.Some? then Some(seconds.value as real / 60.0) else None)
  }

  /** Forty minutes, in seconds. */
  const ThresholdSeconds: nat := 2400

  /** A whole number of seconds survives the minutes round trip. */
  lemma ToSecondsOfWholeSeconds(k: nat)
    ensures ToSeconds(k as real / 60.0) == k
  {
  }

  /** On a whole number of seconds the truncation to seconds loses nothing.
      The extractors build every section time as `minutes + seconds / 60.0`
      from two integers, which is such a time. */
  lemma WholeSecondsTruncateExactly(minutes: real)
    requires TimeParse.WholeSeconds(minutes)
    ensures ToSeconds(minutes) as real == minutes * 60.0
  {
    var x := minutes * 60.0;
    assert x.Floor as real == x;
    if x < 0.0 {
      assert (-x).Floor == -x.Floor;
    }
  }

  /** A reading of `M:SS` by the clock parser becomes `60*M + SS` seconds
      under the classifier's truncation. The source never feeds one into the
      other; this shows the two agree on the seconds a clock denotes. */
  lemma ClockToSeconds(m: nat, sec: nat)
    requires sec < 60
    ensures var r := TimeParse.ParseTimeToMinutes(TimeParse.Clock(m, sec));
            r.Minutes? && ToSeconds(r.value) == 60 * m + sec
  {
    TimeParse.ParseClock(m, sec);
  }

  /** Rule 1, checked first: at least 40 minutes of tread and no rower section
      make a 50-minute tread class with no rowing and no strength, whatever
      the tread section's own flag says. */
  lemma Tread50Rule(treadPresent: bool, tread: Option<nat>, rowPresent: bool, row: Option<nat>)
    requires tread.GetOr(0) >= ThresholdSeconds && !rowPresent
    ensures var c := ClassifyWorkout(FromSeconds(treadPresent, tread), FromSeconds(rowPresent, row));
            && c.classType == Tread50 && c.classMinutes == 50
            && c.treadSeconds == tread.GetOr(0) && c.rowSeconds == 0 && c.strengthSeconds == 0
  {
    ToSecondsOfWholeSeconds(tread.GetOr(0));
  }

  /** Rule 2: when rule 1 does not fire and neither section is present, the
      whole 50-minute class is strength. */
  lemma Strength50Rule(tread: Option<nat>, row: Option<nat>)
    requires tread.GetOr(0) < ThresholdSeconds
    ensures var c := ClassifyWorkout(FromSeconds(false, tread), FromSeconds(false, row));
            && c.classType == Strength50 && c.classMinutes == 50
            && c.treadSeconds == 0 && c.rowSeconds == 0 && c.strengthSeconds == 3000
  {
  }

  /** Rules 3 and 4: once a section is present and rule 1 does not fire, the
      class is the 90-minute one exactly when tread and row reach 2400 s
      together (2400 s itself included), and the 60-minute one otherwise. */
  lemma OrangeThreshold(treadPresent: bool, tread: Option<nat>, rowPresent: bool, row: Option<nat>)
    requires treadPresent || rowPresent
    requires !(tread.GetOr(0) >= ThresholdSeconds && !rowPresent)
    ensures var c := ClassifyWorkout(FromSeconds(treadPresent, tread), FromSeconds(rowPresent, row));
            && (c.classType == Orange90 <==> tread.GetOr(0) + row.GetOr(0) >= ThresholdSeconds)
            && (c.classType == Orange60 <==> tread.GetOr(0) + row.GetOr(0) < ThresholdSeconds)
            && (c.classType == Orange90 ==> c.classMinutes == 90)
            && (c.classType == Orange60 ==> c.classMinutes == 60)
  {
    var t, r := FromSeconds(treadPresent, tread), FromSeconds(rowPresent, row);
    assert TimeOrZero(t) + TimeOrZero(r) == (tread.GetOr(0) + row.GetOr(0)) as real / 60.0;
  }

  /** The residual split of an orange class: strength is what is left of the
      class after tread and row, never negative; when there is some, the three
      parts fill the class exactly, and when there is none, tread and row
      already fill or overfill it. */
  lemma ResidualStrength(treadPresent: bool, tread: Option<nat>, rowPresent: bool, row: Option<nat>)
    requires treadPresent || rowPresent
    requires !(tread.GetOr(0) >= ThresholdSeconds && !rowPresent)
    ensures var c := ClassifyWorkout(FromSeconds(treadPresent, tread), FromSeconds(rowPresent, row));
            && c.treadSeconds == tread.GetOr(0) && c.rowSeconds == row.GetOr(0)
            && (c.strengthSeconds > 0 ==>
                  tread.GetOr(0) + row.GetOr(0) + c.strengthSeconds == c.classMinutes * 60)
            && (c.strengthSeconds == 0 ==> tread.GetOr(0) + row.GetOr(0) >= c.classMinutes * 60)
  {
    ToSecondsOfWholeSeconds(tread.GetOr(0));
    ToSecondsOfWholeSeconds(row.GetOr(0));
  }

  /** The section with its missing time, if any, replaced by zero. */
  function Zeroed(m: SectionMetrics): (z: SectionMetrics)
    ensures z.present == m.present && z.totalTimeMinutes.Some?
    ensures m.totalTimeMinutes.Some? ==> z == m
    ensures m.totalTimeMinutes.None? ==> z.totalTimeMinutes == Some(0.0)
  {
    SectionMetrics(m.present, Some(m.totalTimeMinutes.GetOr(0.0)))
  }

  /** `or 0`: a section with no time reads exactly like one with zero time,
      whatever the other section holds. */
  lemma MissingTimeIsZero(tread: SectionMetrics, row: SectionMetrics)
    ensures ClassifyWorkout(tread, row) == ClassifyWorkout(Zeroed(tread), row)
    ensures ClassifyWorkout(tread, row) == ClassifyWorkout(tread, Zeroed(row))
    ensures ClassifyWorkout(tread, row) == ClassifyWorkout(Zeroed(tread), Zeroed(row))
  {
  }

  /** For non-negative section times the component seconds are non-negative
      and strength never exceeds the class duration. */
  lemma NonNegativeTimes(tread: SectionMetrics, row: SectionMetrics)
    requires TimeOrZero(tread) >= 0.0 && TimeOrZero(row) >= 0.0
    ensures var c := ClassifyWorkout(tread, row);
            && c.treadSeconds >= 0 && c.rowSeconds >= 0
            && c.strengthSeconds <= c.classMinutes * 60
  {
  }

  /** The seconds that enter the residual are truncated, but the thresholds
      compare the untruncated minutes: 20.01 and 19.99 minutes reach the
      90-minute class although their seconds add up to 2399. */
  lemma ThresholdComparesMinutes()
    ensures var c := ClassifyWorkout(SectionMetrics(true, Some(20.01)), SectionMetrics(true, Some(19.99)));
            && c.classType == Orange90 && c.treadSeconds + c.rowSeconds == 2399
            && c.strengthSeconds == 5400 - 2399
  {
    assert ToSeconds(20.01) == 1200;
    assert ToSeconds(19.99) == 1199;
  }

  // ---------------------------------------------------------------------------
  // Worked examples
  // ---------------------------------------------------------------------------

  /** 23:56 of tread and 17:53 of rowing make a 90-minute class with 2891 s of strength. */
  lemma Orange90Example()
    ensures var c := ClassifyWorkout(FromSeconds(true, Some(1436)), FromSeconds(true, Some(1073)));
            c.classType == Orange90 && c.strengthSeconds == 2891
  {
    ToSecondsOfWholeSeconds(1436);
    ToSecondsOfWholeSeconds(1073);
  }

  /** 25:53 of tread and 3:51 of rowing make a 60-minute class with 1816 s of strength. */
  lemma Orange60Example()
    ensures var c := ClassifyWorkout(FromSeconds(true, Some(1553)), FromSeconds(true, Some(231)));
            c.classType == Orange60 && c.strengthSeconds == 1816
  {
    ToSecondsOfWholeSeconds(1553);
    ToSecondsOfWholeSeconds(231);
  }

  /** 44:52 of tread and no rower section make a tread class with no strength. */
  lemma Tread50Example()
    ensures var c := ClassifyWorkout(FromSeconds(true, Some(2692)), FromSeconds(false, None));
            c.classType == Tread50 && c.treadSeconds == 2692 && c.strengthSeconds == 0
  {
    ToSecondsOfWholeSeconds(2692);
  }

  /** Neither section: a 50-minute strength class. */
  lemma Strength50Example()
    ensures var c := ClassifyWorkout(FromSeconds(false, None), FromSeconds(false, None));
            c.classType == Strength50 && c.strengthSeconds == 3000
  {
  }

  /** Exactly 40 minutes of cardio is already the 90-minute class. */
  lemma ThresholdIsInclusive()
    ensures var c := ClassifyWorkout(FromSeconds(true, Some(1200)), FromSeconds(true, Some(1200)));
            c.classType == Orange90 && c.strengthSeconds == 3000
    ensures var c := ClassifyWorkout(FromSeconds(true, Some(1200)), FromSeconds(true, Some(1199)));
            c.classType == Orange60
  {
    ToSecondsOfWholeSeconds(1200);
    ToSecondsOfWholeSeconds(1199);
  }

  // ---------------------------------------------------------------------------
  // Behaviour the code has that a reading of the rules by row time would not
  // ---------------------------------------------------------------------------

  /** Rule 1 looks at the rower section's presence, not its time: a rower
      section without a readable time blocks the tread class. */
  lemma RowSectionBlocksTread50()
    ensures var c := ClassifyWorkout(FromSeconds(true, Some(2700)), FromSeconds(true, None));
            c.classType == Orange90 && c.strengthSeconds == 2700
  {
    ToSecondsOfWholeSeconds(2700);
  }

  /** A short tread section alone is an orange class, not a strength class. */
  lemma ShortTreadAloneIsOrange60()
    ensures var c := ClassifyWorkout(FromSeconds(true, Some(600)), FromSeconds(false, None));
            c.classType == Orange60 && c.strengthSeconds == 3000
  {
    ToSecondsOfWholeSeconds(600);
  }

  /** Cardio beyond the class duration is not reported: strength is clamped
      to zero and the component times exceed the 90 minutes. */
  lemma OverfullClassClampsStrength()
    ensures var c := ClassifyWorkout(FromSeconds(true, Some(3600)), FromSeconds(true, Some(2400)));
            && c.classType == Orange90 && c.strengthSeconds == 0
            && c.treadSeconds + c.rowSeconds == 6000 > c.classMinutes * 60
  {
    ToSecondsOfWholeSeconds(3600);
    ToSecondsOfWholeSeconds(2400);
  }

  /** A tread class can carry more tread time than its 50 minutes. */
  lemma LongTreadExceedsTread50()
    ensures var c := ClassifyWorkout(FromSeconds(true, Some(3600)), FromSeconds(false, None));
            && c.classType == Tread50 && c.treadSeconds == 3600 > c.classMinutes * 60
  {
    ToSecondsOfWholeSeconds(3600);
  }
}
