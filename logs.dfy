/** AttendanceLog (attendance/models.py): one user's check-in and check-out
    times for one date. */
module Logs {
  import opened Common

  /** Both times are nullable; `created_at`/`updated_at` are not modelled. */
  datatype Log = Log(checkIn: Option<Time>, checkOut: Option<Time>)

  /** is_complete: both times are recorded. */
  predicate IsComplete(l: Log)
  {
    l.checkIn.Some? && l.checkOut.Some?
  }

  /** is_active: clocked in and not yet out. */
  predicate IsActive(l: Log)
  {
    l.checkIn.Some? && l.checkOut.None?
  }

  /** AttendanceLog.clean passes: no record with both times present and the
      check-out at or before the check-in. */
  predicate Clean(l: Log)
  {
    !(l.checkIn.Some? && l.checkOut.Some? && l.checkOut.value <= l.checkIn.value)
  }

  /** get_total_hours, in seconds rather than hours: both times are combined
      with the same date, so the difference is out minus in (negative when the
      check-out is earlier); 0 unless both are recorded. */
  function TotalSeconds(l: Log): (s: int)
    ensures -86400 < s < 86400
    ensures !IsComplete(l) ==> s == 0
  {
    if IsComplete(l) then l.checkOut.value - l.checkIn.value else 0
  }

  /** get_total_hours_display: None stands for "N/A"; Some(s) is rendered as
      s / 3600 hours with two decimals, and only a positive total is shown. */
  function TotalHoursDisplay(l: Log): (d: Option<int>)
    ensures d.Some? ==> d.value > 0 && IsComplete(l)
  {
    var s := TotalSeconds(l);
    if s > 0 then Some(s) else None
  }

  /** For a complete record, passing clean, having a positive total and having
      a total shown instead of "N/A" are the same thing; a record missing a time
      always shows "N/A". */
  lemma CleanIffPositiveTotal(l: Log)
    ensures IsComplete(l) ==> (Clean(l) <==> TotalSeconds(l) > 0)
    ensures IsComplete(l) ==> (Clean(l) <==> TotalHoursDisplay(l) == Some(TotalSeconds(l)))
    ensures !IsComplete(l) ==> Clean(l) && TotalHoursDisplay(l) == None
  {
  }

  /** The position of one (user, date) entry in the per-day machine.
      Blank and OrphanCheckOut are records without a check-in; clock_in
      never creates them, but its defensive branch handles them. */
  datatype DayState = NoRecord | Blank | OrphanCheckOut | CheckedIn | CheckedOut

  function StateOf(entry: Option<Log>): (st: DayState)
    ensures st == NoRecord <==> entry.None?
    ensures st == CheckedIn <==> entry.Some? && IsActive(entry.value)
    ensures st == CheckedOut <==> entry.Some? && IsComplete(entry.value)
    ensures st == Blank || st == OrphanCheckOut <==> entry.Some? && entry.value.checkIn.None?
  {
    match entry
    case None => NoRecord
    case Some(l) =>
      if l.checkIn.None? then (if l.checkOut.None? then Blank else OrphanCheckOut)
      else if l.checkOut.None? then CheckedIn
      else CheckedOut
  }

  /** is_complete and is_active never hold together, and a record with a
      check-in is exactly one of the two. */
  lemma CompleteActiveExclusive(l: Log)
    ensures !(IsComplete(l) && IsActive(l))
    ensures l.checkIn.Some? <==> IsComplete(l) || IsActive(l)
  {
  }
}
