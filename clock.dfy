/** The clock-in/clock-out rules of attendance/views.py as functions over the
    table of attendance logs, with the eligibility check and the employee
    dashboard that decide what a user may do today. */
module Clock {
  import opened Common
  import opened Calendar
  import opened Groups
  import opened Logs

  /** The (user, date) pair that AttendanceLog is unique on. */
  datatype LogKey = LogKey(user: UserId, date: Date)

  /** The attendance log table: at most one record per (user, date). */
  type LogTable = map<LogKey, Log>

  /** A UserGroup row; the set of rows is unique on (user, group). */
  datatype Membership = Membership(user: UserId, group: GroupId)

  /** clock_in's `any(ug.group.is_day_allowed(today) for ug in user_groups)`. */
  predicate Eligible(memberships: set<Membership>, groups: map<GroupId, Group>, user: UserId, today: Date)
  {
    exists m :: m in memberships && m.user == user && m.group in groups && IsDayAllowed(groups[m.group], today)
  }

  /** The weekdays allowed by any of the user's groups. */
  ghost function AllowedUnion(memberships: set<Membership>, groups: map<GroupId, Group>, user: UserId): set<int>
  {
    set m, d | m in memberships && m.user == user && m.group in groups && d in groups[m.group].allowedDays :: d
  }

  /** Eligibility is membership of today's weekday in the union of the user's
      groups' allowed days; a user without memberships is never eligible. */
  lemma EligibleIffInUnion(memberships: set<Membership>, groups: map<GroupId, Group>, user: UserId, today: Date)
    ensures Eligible(memberships, groups, user, today) <==> Weekday(today) in AllowedUnion(memberships, groups, user)
    ensures (forall m :: m in memberships ==> m.user != user) ==> !Eligible(memberships, groups, user, today)
  {
  }

  datatype ClockInResult = NotAllowedToday(weekday: int) | ClockedIn(at: Time) | AlreadyClockedIn

  /** clock_in on (user, today) at `now`, given whether one of the user's groups
      allows today: denial, then get_or_create with check_in = now, then the
      "already clocked in" warning or the defensive fill-in of a missing check-in. */
  function ClockInStep(logs: LogTable, allowed: bool, user: UserId, today: Date, now: Time): (out: (ClockInResult, LogTable))
    ensures out.1.Keys == logs.Keys + (if allowed then {LogKey(user, today)} else {})
    ensures forall k :: k in logs && k != LogKey(user, today) ==> out.1[k] == logs[k]
    ensures out.0.ClockedIn? <==> out.1 != logs
    ensures out.0.ClockedIn? ==> out.0.at == now && out.1[LogKey(user, today)].checkIn == Some(now)
    ensures out.0.ClockedIn? ==>
      out.1[LogKey(user, today)].checkOut == (if LogKey(user, today) in logs then logs[LogKey(user, today)].checkOut else None)
    ensures out.0.NotAllowedToday? <==> !allowed
    ensures out.0.NotAllowedToday? ==> out.0.weekday == Weekday(today)
    ensures out.0 == AlreadyClockedIn <==> allowed && LogKey(user, today) in logs && logs[LogKey(user, today)].checkIn.Some?
  {
    var key := LogKey(user, today);
    if !allowed then (NotAllowedToday(Weekday(today)), logs)
    else if key !in logs then (ClockedIn(now), logs[key := Log(Some(now), None)])
    else if logs[key].checkIn.Some? then (AlreadyClockedIn, logs)
    else (ClockedIn(now), logs[key := logs[key].(checkIn := Some(now))])
  }

  datatype ClockOutResult = NoRecordToday | NotClockedIn | AlreadyClockedOut | ClockedOut(at: Time, totalSeconds: int)

  /** clock_out on (user, today) at `now`: the three refusals, otherwise
      check_out = now with no ordering check, reporting the total. */
  function ClockOutStep(logs: LogTable, user: UserId, today: Date, now: Time): (out: (ClockOutResult, LogTable))
    ensures out.1.Keys == logs.Keys
    ensures forall k :: k in logs && k != LogKey(user, today) ==> out.1[k] == logs[k]
    ensures out.0.ClockedOut? <==> out.1 != logs
    ensures out.0 == NoRecordToday <==> LogKey(user, today) !in logs
    ensures out.0 == NotClockedIn <==> LogKey(user, today) in logs && logs[LogKey(user, today)].checkIn.None?
    ensures out.0 == AlreadyClockedOut <==>
      LogKey(user, today) in logs && logs[LogKey(user, today)].checkIn.Some? && logs[LogKey(user, today)].checkOut.Some?
    ensures out.0.ClockedOut? ==>
      var l := out.1[LogKey(user, today)];
      l.checkIn == logs[LogKey(user, today)].checkIn && l.checkOut == Some(now)
      && out.0.at == now && out.0.totalSeconds == TotalSeconds(l)
  {
    var key := LogKey(user, today);
    if key !in logs then (NoRecordToday, logs)
    else if logs[key].checkIn.None? then (NotClockedIn, logs)
    else if logs[key].checkOut.Some? then (AlreadyClockedOut, logs)
    else
      var l := logs[key].(checkOut := Some(now));
      (ClockedOut(now, TotalSeconds(l)), logs[key := l])
  }

  function Entry(logs: LogTable, key: LogKey): Option<Log>
  {
    if key in logs then Some(logs[key]) else None
  }

  /** The per-day machine NO_RECORD -> CHECKED_IN -> CHECKED_OUT, on states alone. */
  function AfterClockIn(st: DayState, allowed: bool): DayState
  {
    if !allowed then st
    else match st
      case NoRecord => CheckedIn
      case Blank => CheckedIn
      case OrphanCheckOut => CheckedOut
      case _ => st
  }

  function AfterClockOut(st: DayState): DayState
  {
    if st == CheckedIn then CheckedOut else st
  }

  /** Both clock actions move the (user, today) entry exactly as the state
      machine does, and touch no other entry's state. */
  lemma ClockStepsFollowMachine(logs: LogTable, allowed: bool, user: UserId, today: Date, now: Time, k: LogKey)
    ensures var key := LogKey(user, today);
      StateOf(Entry(ClockInStep(logs, allowed, user, today, now).1, k))
        == (if k == key then AfterClockIn(StateOf(Entry(logs, k)), allowed) else StateOf(Entry(logs, k)))
    ensures var key := LogKey(user, today);
      StateOf(Entry(ClockOutStep(logs, user, today, now).1, k))
        == (if k == key then AfterClockOut(StateOf(Entry(logs, k))) else StateOf(Entry(logs, k)))
  {
  }

  /** A first clock_in on an allowed day creates exactly one record, with the
      check-in set to now and no check-out. */
  lemma ClockInCreates(logs: LogTable, user: UserId, today: Date, now: Time)
    requires LogKey(user, today) !in logs
    ensures var (r, logs') := ClockInStep(logs, true, user, today, now);
      r == ClockedIn(now) && logs' == logs[LogKey(user, today) := Log(Some(now), None)]
      && |logs'| == |logs| + 1
  {
  }

  /** Clocking in again after a successful clock-in (at any later time) warns
      and changes nothing: the stored check-in stays the first one. */
  lemma ClockInIdempotent(logs: LogTable, user: UserId, today: Date, now: Time, later: Time)
    requires ClockInStep(logs, true, user, today, now).0.ClockedIn?
    ensures var logs' := ClockInStep(logs, true, user, today, now).1;
      ClockInStep(logs', true, user, today, later) == (AlreadyClockedIn, logs')
      && logs'[LogKey(user, today)].checkIn == Some(now)
  {
  }

  /** A second clock_out after a successful one warns and changes nothing. */
  lemma ClockOutOnce(logs: LogTable, user: UserId, today: Date, now: Time, later: Time)
    requires ClockOutStep(logs, user, today, now).0.ClockedOut?
    ensures var logs' := ClockOutStep(logs, user, today, now).1;
      ClockOutStep(logs', user, today, later) == (AlreadyClockedOut, logs')
  {
  }

  /** Clock in at t1 then clock out at t2 on a fresh day: the total is t2 - t1,
      and the record passes AttendanceLog.clean exactly when t2 > t1. */
  lemma InThenOut(logs: LogTable, user: UserId, today: Date, t1: Time, t2: Time)
    requires LogKey(user, today) !in logs
    ensures var logs1 := ClockInStep(logs, true, user, today, t1).1;
      var (r, logs2) := ClockOutStep(logs1, user, today, t2);
      r == ClockedOut(t2, t2 - t1)
      && logs2[LogKey(user, today)] == Log(Some(t1), Some(t2))
      && (Logs.Clean(logs2[LogKey(user, today)]) <==> t2 > t1)
  {
  }

  /** Every record has a check-in: what clock actions alone produce. */
  ghost predicate AllCheckedIn(logs: LogTable)
  {
    forall k :: k in logs ==> logs[k].checkIn.Some?
  }

  /** Every record passes AttendanceLog.clean. */
  ghost predicate AllClean(logs: LogTable)
  {
    forall k :: k in logs ==> Logs.Clean(logs[k])
  }

  /** Clock actions keep every record checked in, and keep every record clean
      as long as a clock-out time is later than the check-in it closes. The
      code does not check that order itself. */
  lemma ClockStepsPreserveInvariants(logs: LogTable, allowed: bool, user: UserId, today: Date, now: Time)
    ensures AllCheckedIn(logs) ==> AllCheckedIn(ClockInStep(logs, allowed, user, today, now).1)
    ensures AllCheckedIn(logs) ==> AllCheckedIn(ClockOutStep(logs, user, today, now).1)
    ensures AllClean(logs) && AllCheckedIn(logs) ==> AllClean(ClockInStep(logs, allowed, user, today, now).1)
    ensures AllClean(logs) && (LogKey(user, today) in logs && logs[LogKey(user, today)].checkIn.Some? ==> logs[LogKey(user, today)].checkIn.value < now)
      ==> AllClean(ClockOutStep(logs, user, today, now).1)
  {
  }

  /** A clock-out at or before the check-in is accepted and stored: the record
      then fails AttendanceLog.clean. */
  lemma ClockOutSkipsClean(user: UserId, today: Date, t1: Time, t2: Time)
    requires t2 <= t1
    ensures var logs := map[LogKey(user, today) := Log(Some(t1), None)];
      var (r, logs') := ClockOutStep(logs, user, today, t2);
      r.ClockedOut? && !Logs.Clean(logs'[LogKey(user, today)]) && TotalHoursDisplay(logs'[LogKey(user, today)]) == None
  {
  }

  /** The employee dashboard's button state. */
  datatype Flags = Flags(canCheckIn: bool, canCheckOut: bool, isFinished: bool)

  function DashboardFlags(isAllowedToday: bool, todayLog: Option<Log>): (f: Flags)
    ensures !(f.canCheckIn && f.canCheckOut)
    ensures f.isFinished ==> !f.canCheckIn && !f.canCheckOut
    ensures f.canCheckIn ==> isAllowedToday
  {
    Flags(
      isAllowedToday && (todayLog.None? || todayLog.value.checkIn.None?),
      todayLog.Some? && todayLog.value.checkIn.Some? && todayLog.value.checkOut.None?,
      todayLog.Some? && IsComplete(todayLog.value))
  }

  /** The buttons offer exactly the actions that would succeed: "clock in" is
      enabled iff clock_in would record a check-in, "clock out" iff clock_out
      would record a check-out, and "finished" iff both refuse with a warning. */
  lemma FlagsMatchClockActions(logs: LogTable, allowed: bool, user: UserId, today: Date, now: Time)
    ensures var f := DashboardFlags(allowed, Entry(logs, LogKey(user, today)));
      && (f.canCheckIn <==> ClockInStep(logs, allowed, user, today, now).0.ClockedIn?)
      && (f.canCheckOut <==> ClockOutStep(logs, user, today, now).0.ClockedOut?)
      && (f.isFinished <==> ClockOutStep(logs, user, today, now).0 == AlreadyClockedOut && (allowed ==> ClockInStep(logs, allowed, user, today, now).0 == AlreadyClockedIn))
  {
  }

  /** Some group of the list allows the date. */
  predicate AnyGroupAllows(gs: seq<Group>, date: Date)
  {
    exists i :: 0 <= i < |gs| && IsDayAllowed(gs[i], date)
  }

  /** The names of the groups that allow the date. */
  function AllowingGroupNames(gs: seq<Group>, date: Date): (names: seq<string>)
    ensures |names| <= |gs|
    ensures names != [] <==> AnyGroupAllows(gs, date)
    ensures forall n :: n in names ==> exists i :: 0 <= i < |gs| && gs[i].name == n && IsDayAllowed(gs[i], date)
    ensures forall i :: 0 <= i < |gs| && IsDayAllowed(gs[i], date) ==> gs[i].name in names
  {
    if gs == [] then []
    else
      var init := gs[..|gs| - 1];
      var last := gs[|gs| - 1];
      var names := AllowingGroupNames(init, date);
      assert forall i :: 0 <= i < |init| ==> init[i] == gs[i];
      if IsDayAllowed(last, date) then names + [last.name] else names
  }

  /** employee_dashboard's loop over the user's groups (ordered by name): it
      decides whether today is allowed and collects the names of the groups
      that allow it. */
  method TodayPermissions(userGroups: seq<Group>, today: Date) returns (isAllowedToday: bool, allowedGroups: seq<string>)
    ensures isAllowedToday == AnyGroupAllows(userGroups, today)
    ensures allowedGroups == AllowingGroupNames(userGroups, today)
  {
    isAllowedToday := false;
    allowedGroups := [];
    var i := 0;
    while i < |userGroups|
      invariant 0 <= i <= |userGroups|
      invariant isAllowedToday == AnyGroupAllows(userGroups[..i], today)
      invariant allowedGroups == AllowingGroupNames(userGroups[..i], today)
    {
      var g := userGroups[i];
      assert userGroups[..i + 1][..i] == userGroups[..i];
      if IsDayAllowed(g, today) {
        isAllowedToday := true;
        allowedGroups := allowedGroups + [g.name];
      }
      i := i + 1;
    }
    assert userGroups[..i] == userGroups;
  }

  /** The groups of a user's memberships. */
  ghost function UserGroups(memberships: set<Membership>, groups: map<GroupId, Group>, user: UserId): set<Group>
  {
    set m | m in memberships && m.user == user && m.group in groups :: groups[m.group]
  }

  /** The dashboard's loop and clock_in's any(...) agree when the loop runs
      over the user's groups. */
  lemma DashboardAgreesWithClockIn(memberships: set<Membership>, groups: map<GroupId, Group>, user: UserId, userGroups: seq<Group>, today: Date)
    requires (set i | 0 <= i < |userGroups| :: userGroups[i]) == UserGroups(memberships, groups, user)
    ensures AnyGroupAllows(userGroups, today) <==> Eligible(memberships, groups, user, today)
  {
    var listed := set i | 0 <= i < |userGroups| :: userGroups[i];
    if AnyGroupAllows(userGroups, today) {
      var i :| 0 <= i < |userGroups| && IsDayAllowed(userGroups[i], today);
      assert userGroups[i] in listed;
      var m :| m in memberships && m.user == user && m.group in groups && groups[m.group] == userGroups[i];
    }
    if Eligible(memberships, groups, user, today) {
      var m :| m in memberships && m.user == user && m.group in groups && IsDayAllowed(groups[m.group], today);
      assert groups[m.group] in UserGroups(memberships, groups, user);
      var i :| 0 <= i < |userGroups| && userGroups[i] == groups[m.group];
    }
  }

  /** The "Weekday Shift" group of the seed data (Monday to Friday) as a user's
      only group: clock-in is refused on Saturday 2024-01-06 (ordinal 738891);
      on Monday 2024-01-08 (ordinal 738893) a clock-in at 09:00 and a
      clock-out at 17:30 record 30600 seconds, that is 8.5 hours. */
  lemma WeekdayShiftExample()
    ensures var ms := {Membership(1, 1)};
      var gs := map[1 := Group("Weekday Shift", [0, 1, 2, 3, 4])];
      && ClockInStep(map[], Eligible(ms, gs, 1, 738891), 1, 738891, 32400) == (NotAllowedToday(5), map[])
      && var logs := ClockInStep(map[], Eligible(ms, gs, 1, 738893), 1, 738893, 32400).1;
         logs == map[LogKey(1, 738893) := Log(Some(32400), None)]
         && ClockOutStep(logs, 1, 738893, 63000).0 == ClockedOut(63000, 30600)
  {
  }
}
