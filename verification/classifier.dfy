/**
 * `classify_workout`: the four-rule, first-match-wins decision tree that
 * names a class from its treadmill and rower sections, and the residual
 * split of the class duration into tread, row and strength seconds.
 *
 * Section times are minutes as exact reals (the source holds them as
 * binary floats); seconds are Python's `int(minutes * 60)`, a truncation
 * toward zero.
 */
module Classifier {
  import opened Wrappers

  /** What an extractor reports about one section of the e-mail: whether the
      section's header was found, and its total time in minutes if read. */
  datatype SectionMetrics = SectionMetrics(present: bool, totalTimeMinutes: Option<real>)

  /** The labels `TREAD_50`, `STRENGTH_50`, `ORANGE_90` and `ORANGE_60`. */
  datatype ClassType = Tread50 | Strength50 | Orange90 | Orange60 {

    /** The fixed class duration that goes with each label. */
    function Minutes(): nat {
      match this
      case Tread50 => 50
      case Strength50 => 50
      case Orange90 => 90
      case Orange60 => 60
    }
  }

  /** The facts the decision was taken on, recorded whichever rule fired. */
  datatype Evidence = Evidence(
    treadPresent: bool,
    treadTimeMin: real,
    rowPresent: bool,
    rowTimeMin: real,
    totalCardioTime: real)

  datatype Classification = Classification(
    classType: ClassType,
    classMinutes: nat,
    treadSeconds: int,
    rowSeconds: int,
    strengthSeconds: nat,
    evidence: Evidence)

  /** Combined cardio at or above this many minutes makes a 90-minute class;
      tread alone at or above it, with no rower section, makes a tread class. */
  const CardioThreshold: real := 40.0

  /** `metrics['total_time_minutes'] or 0`: a missing time counts as zero. */
  function TimeOrZero(m: SectionMetrics): (t: real)
    ensures m.totalTimeMinutes.None? ==> t == 0.0
    ensures m.totalTimeMinutes.Some? ==> t == m.totalTimeMinutes.value
  {
    m.totalTimeMinutes.GetOr(0.0)
  }

  /** Python's `int(x)` on a float: truncation toward zero. */
  function Trunc(x: real): (r: int)
    ensures 0.0 <= x ==> r as real <= x < r as real + 1.0
    ensures x < 0.0 ==> r as real - 1.0 < x <= r as real
  {
    if x >= 0.0 then x.Floor else -((-x).Floor)
  }

  /** `int(minutes * 60)`: the seconds, truncated toward zero. */
  function ToSeconds(minutes: real): (r: int)
    ensures 0.0 <= minutes ==> 0 <= r && r as real <= minutes * 60.0 < r as real + 1.0
    ensures minutes < 0.0 ==> r <= 0 && r as real - 1.0 < minutes * 60.0 <= r as real
  {
    Trunc(minutes * 60.0)
  }

  function Max(a: int, b: int): int {
    if a >= b then a else b
  }

  /** `classify_workout(tread, row)`.
      The class duration always agrees with the label; the evidence records
      both presence flags, both times (a missing time as zero) and their sum,
      whichever rule fired; strength time is never negative, and whenever
      there is some, the three component times add up to the class duration
      exactly. */
  function ClassifyWorkout(tread: SectionMetrics, row: SectionMetrics): (c: Classification)
    ensures c.classMinutes == c.classType.Minutes()
    ensures c.evidence.treadPresent == tread.present && c.evidence.rowPresent == row.present
    ensures c.evidence.treadTimeMin == TimeOrZero(tread) && c.evidence.rowTimeMin == TimeOrZero(row)
    ensures c.evidence.totalCardioTime == c.evidence.treadTimeMin + c.evidence.rowTimeMin
    ensures c.strengthSeconds > 0 ==>
              c.treadSeconds + c.rowSeconds + c.strengthSeconds == c.classMinutes * 60
    ensures c.classType == Tread50 ==> c.rowSeconds == 0 && c.strengthSeconds == 0
    ensures c.classType == Strength50 ==>
              c.treadSeconds == 0 && c.rowSeconds == 0 && c.strengthSeconds == c.classMinutes * 60
  {
    var treadTime := TimeOrZero(tread);
    var rowTime := TimeOrZero(row);
    var treadSeconds := ToSeconds(treadTime);
    var rowSeconds := ToSeconds(rowTime);
    var evidence := Evidence(tread.present, treadTime, row.present, rowTime, treadTime + rowTime);
    if treadTime >= CardioThreshold && !row.present then
      // Rule 1: a tread-only class, no strength block
      Classification(Tread50, 50, treadSeconds, 0, 0, evidence)
    else if !tread.present && !row.present then
      // Rule 2: no cardio section at all, the whole class is strength
      Classification(Strength50, 50, 0, 0, 50 * 60, evidence)
    else
      // Rules 3 and 4: an orange class, strength is the residual time
      var (classType, classMinutes) :=
        if treadTime + rowTime >= CardioThreshold then (Orange90, 90) else (Orange60, 60);
      var strengthSeconds := Max(0, classMinutes * 60 - treadSeconds - rowSeconds);
      Classification(classType, classMinutes, treadSeconds, rowSeconds, strengthSeconds, evidence)
  }
}
