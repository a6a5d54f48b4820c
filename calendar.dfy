/** Weekday numbering and day names of an attendance group (0 = Monday ... 6 = Sunday). */
module Calendar {
  import opened Common

  /** date.weekday(): Python computes it as (toordinal() + 6) % 7. */
  function Weekday(d: Date): (w: int)
    ensures 0 <= w <= 6
    ensures d == 1 ==> w == 0
  {
    (d + 6) % 7
  }

  /** The next date has the next weekday number, Sunday (6) being followed by
      Monday (0); with the range and the anchor above this fixes every weekday. */
  lemma WeekdaySucc(d: Date)
    ensures Weekday(d + 1) == (Weekday(d) + 1) % 7
  {
  }

  /** Dates a week apart share their weekday. */
  lemma WeekdayWeekly(d: Date, weeks: nat)
    ensures Weekday(d + 7 * weeks) == Weekday(d)
  {
  }

  /** AttendanceGroup.WEEKDAYS. */
  const WEEKDAYS: seq<(int, string)> := [
    (0, "Monday"), (1, "Tuesday"), (2, "Wednesday"), (3, "Thursday"),
    (4, "Friday"), (5, "Saturday"), (6, "Sunday")]

  predicate IsWeekday(day: int)
  {
    0 <= day <= 6
  }

  /** `dict(WEEKDAYS)[day]`, defined on the seven weekday numbers only. */
  function DayName(day: int): (name: string)
    requires IsWeekday(day)
    ensures |name| >= 6
  {
    WEEKDAYS[day].1
  }

  /** Two different day names already differ in one of their first two letters,
      so no day name is a prefix of a string that starts with another one. */
  lemma DayNamesDifferEarly(d: int, e: int)
    requires IsWeekday(d) && IsWeekday(e) && d != e
    ensures DayName(d)[0] != DayName(e)[0] || DayName(d)[1] != DayName(e)[1]
  {
  }
}
