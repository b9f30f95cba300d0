/**
 * The completion aggregate of one day and its status band: the classes a
 * calendar cell is painted with, and the figures of the progress circle.
 * Counts are whole numbers, so every percentage comparison of the source
 * is restated exactly in integers.
 */
module Status {
  import opened Rounding

  datatype Option<T> = None | Some(value: T)

  /** The classes a day on or before today receives: 'perfect', 'success',
      'fail', or 'fail' with 'neon' for a day with nothing completed. */
  datatype Band = Perfect | Success | Fail(neon: bool)

  /** The band of a day with `completed` recorded entries out of `total`
      habits; `onOrBeforeToday` is the comparison `thisDate <= today`. */
  function DayBand(completed: nat, total: nat, onOrBeforeToday: bool): (b: Option<Band>)
    ensures b == None <==> total == 0 || !onOrBeforeToday
    ensures b == Some(Perfect) <==> total > 0 && onOrBeforeToday && completed == total
    ensures b == Some(Success) <==>
      total > 0 && onOrBeforeToday && completed != total && 100 * completed >= 60 * total
    ensures b == Some(Fail(true)) <==> total > 0 && onOrBeforeToday && completed == 0
    ensures b == Some(Fail(false)) <==>
      total > 0 && onOrBeforeToday && 0 < completed && 100 * completed < 60 * total
  {
    if total > 0 && onOrBeforeToday then
      Some(if completed == total then Perfect
           else if 100 * completed >= 60 * total then Success
           else if completed == 0 then Fail(true)
           else Fail(false))
    else None
  }

  /** The source's percentage, `(completedCount / totalHabits) * 100`, in
      exact rational arithmetic; 0 when there are no habits. */
  function Percentage(completed: nat, total: nat): real {
    if total > 0 then (completed as real / total as real) * 100.0 else 0.0
  }

  /** The source's status decision, read literally on that percentage. */
  function BandOfPercentage(completed: nat, total: nat, onOrBeforeToday: bool): Option<Band> {
    var percentage := Percentage(completed, total);
    if total > 0 && onOrBeforeToday then
      Some(if percentage == 100.0 then Perfect
           else if percentage >= 60.0 then Success
           else if percentage == 0.0 then Fail(true)
           else Fail(false))
    else None
  }

  lemma PercentageScaled(completed: nat, total: nat)
    requires total > 0
    ensures Percentage(completed, total) * total as real == 100.0 * completed as real
  {
    var q := completed as real / total as real;
    assert q * total as real == completed as real;
    calc {
      Percentage(completed, total) * total as real;
      (q * 100.0) * total as real;
      100.0 * (q * total as real);
    }
  }

  /** The integer thresholds decide exactly as the rational percentage does:
      100% is all habits done, 60% or more is 100 * completed >= 60 * total,
      0% is nothing done. */
  lemma DayBandMatchesPercentage(completed: nat, total: nat, onOrBeforeToday: bool)
    ensures DayBand(completed, total, onOrBeforeToday)
            == BandOfPercentage(completed, total, onOrBeforeToday)
  {
    if total > 0 {
      PercentageThresholds(completed, total);
    }
  }

  lemma PercentageThresholds(completed: nat, total: nat)
    requires total > 0
    ensures Percentage(completed, total) == 100.0 <==> completed == total
    ensures Percentage(completed, total) >= 60.0 <==> 100 * completed >= 60 * total
    ensures Percentage(completed, total) == 0.0 <==> completed == 0
  {
    var p, t, c := Percentage(completed, total), total as real, completed as real;
    PercentageScaled(completed, total);
    assert p * t == 100.0 * c;
    if completed == total {
      RealCancel(p, 100.0, t);
    }
    if completed == 0 {
      RealCancel(p, 0.0, t);
    }
    ScaledThreshold(p, t, 100.0 * c, 60.0);
    assert (100 * completed) as real == 100.0 * c;
    assert (60 * total) as real == 60.0 * t;
  }

  lemma RealCancel(x: real, y: real, t: real)
    requires t > 0.0 && x * t == y * t
    ensures x == y
  {
    assert (x - y) * t == 0.0;
  }

  /** A ratio p with p * t == x is at least k exactly when x is at least k * t. */
  lemma ScaledThreshold(p: real, t: real, x: real, k: real)
    requires t > 0.0 && p * t == x
    ensures p >= k <==> x >= k * t
  {
    assert x - k * t == (p - k) * t;
  }

  /** The order of the bands, worst first. */
  function Rank(b: Band): nat {
    match b
    case Fail(neon) => if neon then 0 else 1
    case Success => 2
    case Perfect => 3
  }

  /** Completing more habits never yields a worse band, as long as the count
      does not exceed the number of habits. */
  lemma DayBandMonotone(c1: nat, c2: nat, total: nat)
    requires c1 <= c2 <= total && total > 0
    ensures Rank(DayBand(c1, total, true).value) <= Rank(DayBand(c2, total, true).value)
  {
  }

  /** A count above the number of habits (left behind when a habit is
      deleted) is not perfect but counts as success. */
  lemma OverfullDayIsSuccess(completed: nat, total: nat)
    requires 0 < total < completed
    ensures DayBand(completed, total, true) == Some(Success)
  {
  }

  /** What the progress circle shows: a whole percentage and the fraction
      completed / total. */
  datatype Progress = Progress(percent: int, completed: nat, total: nat)

  /** `updateHabitProgress`: 0% and 0/0 when there are no habits, otherwise
      `Math.round(completed / total * 100)` and completed / total. */
  function HabitProgress(completed: nat, total: nat): (p: Progress)
    ensures total == 0 ==> p == Progress(0, 0, 0)
    ensures total > 0 ==> p.completed == completed && p.total == total
    ensures total > 0 ==>
      200 * completed - total < 2 * total * p.percent <= 200 * completed + total
  {
    if total == 0 then Progress(0, 0, 0)
    else Progress(RoundRatio(100 * completed, total), completed, total)
  }

  lemma HabitProgressBounds(completed: nat, total: nat)
    requires total > 0
    ensures completed <= total ==> 0 <= HabitProgress(completed, total).percent <= 100
    ensures completed == total ==> HabitProgress(completed, total).percent == 100
    ensures completed == 0 ==> HabitProgress(completed, total).percent == 0
    ensures completed > total ==> HabitProgress(completed, total).percent >= 100
  {
    RoundRatioExact(100, total);
    RoundRatioExact(0, total);
    if completed <= total {
      RoundRatioMonotone(0, 100 * completed, total);
      RoundRatioMonotone(100 * completed, 100 * total, total);
    } else {
      RoundRatioMonotone(100 * total, 100 * completed, total);
    }
  }

  /** The circle rounds, the calendar does not: with 199 of 200 habits done
      the circle reads 100% while the day's band is only success. */
  lemma RoundedHundredIsNotPerfect()
    ensures HabitProgress(199, 200).percent == 100
    ensures DayBand(199, 200, true) == Some(Success)
  {
    RoundRatioAtLeast(19900, 200, 100);
    RoundRatioBelow(19900, 200, 101);
  }
}
