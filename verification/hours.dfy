/** Worked-hours arithmetic (`calculate_hours`, app.py lines 12-17).

    Hours are kept as whole hundredths of an hour, so 7.5 hours is 750. The
    app rounds `minutes / 60` to two decimals; the nearest hundredth of
    `m / 60` is the nearest integer to `5m / 3`, and since `5m / 3` is never
    a half-integer the rounding mode (half-up or half-even) never matters. */
module Hours {

  type Hour = h: int | 0 <= h < 24
  type Minute = m: int | 0 <= m < 60

  /** A `datetime.time` value as the time widget produces it (minute resolution). */
  datatype TimeOfDay = TimeOfDay(hour: Hour, minute: Minute)
  {
    function MinutesSinceMidnight(): (r: int)
      ensures 0 <= r < 24 * 60
    {
      hour * 60 + minute
    }
  }

  /** End minus start, on one common day, less the break. */
  function WorkedMinutes(start: TimeOfDay, end: TimeOfDay, breakMinutes: int): (r: int)
  {
    end.MinutesSinceMidnight() - start.MinutesSinceMidnight() - breakMinutes
  }

  /** `r` hundredths is the closest hundredth to `minutes / 60` hours:
      |r/100 - minutes/60| < 1/200, multiplied through by 600. */
  predicate IsNearestHundredth(minutes: int, r: int)
  {
    -3 < 6 * r - 10 * minutes < 3
  }

  /** The largest result: a 00:00-23:59 shift without a break. */
  const MaxHundredths := 2398

  /** `calculate_hours`: 0 when the worked minutes are not positive, else the
      worked time rounded to the nearest hundredth of an hour. */
  function CalculateHours(start: TimeOfDay, end: TimeOfDay, breakMinutes: int): (r: nat)
    ensures r == 0 <==> WorkedMinutes(start, end, breakMinutes) <= 0
    ensures r > 0 ==> IsNearestHundredth(WorkedMinutes(start, end, breakMinutes), r)
  {
    var total := WorkedMinutes(start, end, breakMinutes);
    if total > 0 then (5 * total + 1) / 3 else 0
  }

  /** At most one hundredth is nearest, so the rounded value is well defined. */
  lemma NearestHundredthIsUnique(minutes: int, a: int, b: int)
    requires IsNearestHundredth(minutes, a) && IsNearestHundredth(minutes, b)
    ensures a == b
  {
  }

  /** An end time not after the start time is rejected, never wrapped past
      midnight, whatever the (non-negative) break. */
  lemma EndNotAfterStartYieldsZero(start: TimeOfDay, end: TimeOfDay, breakMinutes: nat)
    requires end.MinutesSinceMidnight() <= start.MinutesSinceMidnight()
    ensures CalculateHours(start, end, breakMinutes) == 0
  {
  }

  /** With a non-negative break, at most 1439 minutes are worked: 23.98 hours. */
  lemma HoursAtMostOneDay(start: TimeOfDay, end: TimeOfDay, breakMinutes: nat)
    ensures CalculateHours(start, end, breakMinutes) <= MaxHundredths
  {
  }

  /** The widget defaults (09:00 to 17:00, 30 minutes break) give 7.5 hours;
      a break filling the whole span and an end before the start give 0; a
      single worked minute already rounds up to 0.02. */
  lemma CalculateHoursExamples()
    ensures CalculateHours(TimeOfDay(9, 0), TimeOfDay(17, 0), 30) == 750
    ensures CalculateHours(TimeOfDay(9, 0), TimeOfDay(9, 30), 30) == 0
    ensures CalculateHours(TimeOfDay(9, 0), TimeOfDay(8, 0), 0) == 0
    ensures CalculateHours(TimeOfDay(9, 0), TimeOfDay(9, 1), 0) == 2
  {
  }
}
