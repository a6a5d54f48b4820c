# Attendance clock model

A Dafny model of the attendance core of an employee attendance tracker (a
Django application). Employees clock in and out once per day, on the
weekdays their attendance groups allow. Administrators manage the groups,
assign users to them, and review or export the attendance logs.

The model covers two files:

- `attendance/models.py`. Attendance groups and their `allowed_days`, with
  `is_day_allowed`, `clean` and `get_allowed_days_display`. Attendance logs,
  with `clean`, `get_total_hours`, `get_total_hours_display`, `is_complete`
  and `is_active`. The uniqueness constraints on (user, date) and
  (user, group).
- `attendance/views.py`. `clock_in`, `clock_out`, the eligibility check, the
  employee dashboard's permission loop and button flags, group
  create/edit/delete, `assign_user_to_group`, and the filter and ordering
  used by `reports` and `export_excel`.

Files:

- `common.dfy`: `Option`, dates as day numbers (the ordinal that Python's
  `date.toordinal()` gives), times as whole seconds since midnight, and user
  accounts.
- `calendar.dfy`: the weekday of a date (0 = Monday … 6 = Sunday) and the day
  names.
- `groups.dfy`: the attendance group as a value. Contains `IsDayAllowed`; the
  validation loop `Clean`; `SortDays` (Python's `sorted`); the day-name
  display; and a parser that reads the display back, which serves as its
  inverse.
- `logs.dfy`: the attendance log as a value, with its derived queries. It
  also defines the per-day states NoRecord, Blank, OrphanCheckOut, CheckedIn
  and CheckedOut.
- `clock.dfy`: pure clock-in and clock-out transitions over the log table.
  `map<LogKey, Log>` makes "one log per (user, date)" hold by construction.
  Also: eligibility, the dashboard flags, the dashboard loop, and lemmas that
  tie them together.
- `reports.dfy`: the report filter and the (date, username) ordering. Rows are
  inserted in order. Also the export's sheet lines.
- `store.dfy`: class `AttendanceStore`, which holds users, groups, the
  membership set and the log table. Its methods change these in place as the
  views do. Each clock method's `ensures` ties the new table to the pure
  transition in `clock.dfy`. Memberships are a `set<Membership>`, so a
  (user, group) pair is stored at most once.

Where the code does not enforce the business rules stated in its own
docstrings, the model follows the code:

- The log model's docstring says "Must have check_in before check_out"
  (attendance/models.py:105), but `clock_out` does not check that the
  check-out is later than the check-in (attendance/views.py:127-129). It stores `now` as given. No `InvalidOrder`
  refusal exists. `Clock.ClockOutSkipsClean` shows a clock-out that produces
  a record failing `AttendanceLog.clean`. `Clock.ClockStepsPreserveInvariants`
  shows that every record stays clean when each clock-out time is later than
  its check-in.
- `clock_out` tells "no record for today" apart from "record without a
  check-in". They are two outcomes here: `NoRecordToday` and `NotClockedIn`.
- The export shows a total for every complete record, even one that is zero
  or negative (attendance/views.py:413). `get_total_hours_display` shows
  "N/A" unless the total is positive (attendance/models.py:173).
  `Reports.ExportTotalVersusDisplay` shows that the two agree on exactly the
  records that pass `clean`.
- `create_group` and `edit_group` do not run `AttendanceGroup.clean`. Days
  outside 0..6 are stored as submitted. Such a day never matches a date
  (`Groups.AllowedWeekdaysAreListed`). It does make the display lookup fail
  (`Groups.AllowedDaysDisplay` is `None`).

## Model

| member | source | states |
|---|---|---|
| Common.DisplayName | attendance/views.py:409 | the export's user cell is the full name whenever it is non-empty, and the username otherwise; it is empty only when both are |
| Calendar.Weekday | attendance/models.py:12-14 | a date's weekday number lies in 0..6, and 1 January of year 1 (day 1) is Monday, 0 |
| Calendar.WeekdaySucc | attendance/models.py:12-14 | the next date has the next weekday number, Sunday (6) being followed by Monday (0); with `Weekday`'s range and anchor this fixes the numbering of every date |
| Groups.IsDayAllowed | attendance/models.py:64-66 | definition: the date's weekday number occurs in `allowed_days` |
| Groups.AllowedWeekdaysAreListed | attendance/models.py:64-66 | a group allows a date iff the date's weekday occurs in `allowed_days`; entries outside 0..6 never match |
| Groups.DayAllowedWeekly | attendance/models.py:64-66 | whether a date is allowed depends only on its weekday: dates whole weeks apart get the same answer |
| Groups.Clean | attendance/models.py:55-62 | validation passes iff every entry lies in 0..6; otherwise it reports the first entry outside 0..6, and every entry before it is valid |
| Groups.SortDays | attendance/models.py:53 | `sorted(allowed_days)` is ascending and a permutation of the list (repeats kept) |
| Groups.DayNames | attendance/models.py:52-53 | one day name per entry, in the same order, each the WEEKDAYS name of its number |
| Groups.AllowedDaysDisplay | attendance/models.py:50-53 | the display exists iff every entry is a weekday number (the name lookup fails otherwise); it is empty iff the list is |
| Groups.DisplayRoundTrip | attendance/models.py:50-53 | reading the display of a valid list back gives the list sorted ascending, one name per entry |
| Logs.Clean | attendance/models.py:148-152 | definition: `clean` fails exactly when both times are present and the check-out is at or before the check-in |
| Logs.IsComplete | attendance/models.py:175-177 | definition: both times are recorded |
| Logs.IsActive | attendance/models.py:179-181 | definition: checked in and not yet checked out |
| Logs.TotalSeconds | attendance/models.py:154-168 | the worked time is 0 unless both times are recorded, and always less than a day in magnitude |
| Logs.TotalHoursDisplay | attendance/models.py:170-173 | a total is shown (not "N/A") only when it is positive, and then the record is complete |
| Logs.CleanIffPositiveTotal | attendance/models.py:148-173 | for a complete record: passing `clean`, a positive total and a shown total are equivalent; an incomplete record is clean and shows "N/A" |
| Logs.StateOf | attendance/models.py:175-181 | the per-day state is CheckedIn iff `is_active`, CheckedOut iff `is_complete`, NoRecord iff there is no log |
| Logs.CompleteActiveExclusive | attendance/models.py:175-181 | `is_complete` and `is_active` never both hold; a record with a check-in satisfies exactly one of them |
| Clock.Eligible | attendance/views.py:82-84 | definition: some membership of the user names an existing group that allows today |
| Clock.EligibleIffInUnion | attendance/views.py:83-84 | a user may clock in iff today's weekday is in the union of the user's groups' allowed days; without memberships never |
| Clock.ClockInStep | attendance/views.py:73-107 | refused (naming today's weekday) iff no group allows today; "already clocked in" iff allowed and today's record has a check-in; otherwise a check-in at `now` is recorded, a new record having no check-out and the defensive fill-in keeping the stored one; only the (user, today) entry may change or be added |
| Clock.ClockOutStep | attendance/views.py:111-141 | "no record" iff today has no log, "must clock in" iff its check-in is missing, "already clocked out" iff both times are set, each leaving the table unchanged; otherwise `check_out = now`, `check_in` kept, and the result reports `now` and the total; no other entry changes |
| Clock.ClockStepsFollowMachine | attendance/views.py:91-129 | both actions move the (user, today) entry as the machine NO_RECORD → CHECKED_IN → CHECKED_OUT does, and leave every other entry's state alone |
| Clock.ClockInCreates | attendance/views.py:91-95 | a first clock-in on an allowed day creates exactly one record, with `check_in = now` and no check-out |
| Clock.ClockInIdempotent | attendance/views.py:97-99 | a clock-in after a successful one warns and changes nothing; the stored check-in stays the first one |
| Clock.ClockOutOnce | attendance/views.py:125-126 | a clock-out after a successful one warns "already clocked out" and changes nothing |
| Clock.InThenOut | attendance/views.py:128-131 | clock-in at t1 then clock-out at t2 records both times and reports t2 − t1 seconds; the record passes `clean` iff t2 > t1 |
| Clock.ClockStepsPreserveInvariants | attendance/views.py:91-129 | clock actions keep every record checked in, and keep every record clean when each clock-out is later than its check-in |
| Clock.ClockOutSkipsClean | attendance/views.py:127-129 | a clock-out at or before the check-in is accepted; the stored record fails `clean` and displays "N/A" |
| Clock.DashboardFlags | attendance/views.py:46-48 | `can_check_in` and `can_check_out` are never both true; neither holds with `is_finished`; clocking in needs an allowed day |
| Clock.FlagsMatchClockActions | attendance/views.py:46-48 | the clock-in button is enabled iff `clock_in` would record a check-in; the clock-out button iff `clock_out` would record a check-out; "finished" iff `clock_out` would only warn "already clocked out" and, on an allowed day, `clock_in` would only warn "already clocked in" (on a day no group allows, `clock_in` refuses with an error instead) |
| Clock.AllowingGroupNames | attendance/views.py:37-40 | the collected names are empty iff no group allows today, each comes from a group allowing today, and every allowing group's name is collected |
| Clock.TodayPermissions | attendance/views.py:34-40 | the dashboard loop computes whether some group allows today and the names of the groups that do |
| Clock.DashboardAgreesWithClockIn | attendance/views.py:31-40 | run over the user's groups, the dashboard's permission agrees with `clock_in`'s `any(...)` check |
| Clock.WeekdayShiftExample | users/management/commands/seed_data.py:45-75 | for a user whose only group is the seeded Monday-to-Friday group: refused on a Saturday; on a Monday, 09:00 to 17:30 records 30600 s (8.5 h) |
| Reports.Matches | attendance/views.py:346-351 | definition: the date lies within the given inclusive bounds and the log belongs to the given user; an absent bound or user does not filter; `export_excel` applies the same filter (attendance/views.py:381-386) |
| Reports.InsertRow | attendance/views.py:379 | inserting a row keeps the result strictly ordered by date, then username, and adds exactly that row |
| Reports.ExportLineOf | attendance/views.py:407-414 | the user cell is the display name (full name, else username), the date and both time cells are the log's own, and the total cell is present iff both times are, and is then the worked time |
| Reports.ExportTotalVersusDisplay | attendance/views.py:413 | the export's total and `get_total_hours_display` agree on clean records; on complete records that fail `clean`, the export shows a total of zero or less where the display shows "N/A" |
| Store.AttendanceStore.ClockIn | attendance/views.py:73-107 | the log table changes exactly as `ClockInStep` says, with the user's memberships deciding eligibility; nothing else changes |
| Store.AttendanceStore.ClockOut | attendance/views.py:111-141 | the log table changes exactly as `ClockOutStep` says; nothing else changes |
| Store.AttendanceStore.CreateGroup | attendance/views.py:209-228 | refuses a missing name or no days, then a name already in use; otherwise adds the group under a new id with the days as given |
| Store.AttendanceStore.EditGroup | attendance/views.py:242-255 | an unknown id (404), then a missing name or no days, then a name used by another group (the uncaught IntegrityError of `group.save()`) all leave groups unchanged; otherwise replaces that group's name and days only |
| Store.AttendanceStore.DeleteGroup | attendance/views.py:272-278 | an unknown id is reported (404); otherwise the group and exactly the memberships that point at it are removed |
| Store.AttendanceStore.AssignUserToGroups | attendance/views.py:304-318 | "user not found" (404) iff the user does not exist, and then nothing changes; on success the user's group set equals the selected set; otherwise the loop stopped at the first unknown or repeated id, keeping exactly the selections before it; other users' memberships never change |
| Store.AttendanceStore.Query | attendance/views.py:344-351 | every returned log matches the inclusive date bounds and the user filter; every matching log is returned exactly once; the order is strict by date (descending for reports) and then username |
| Store.AttendanceStore.ExportExcel | attendance/views.py:379-414 | the same query in ascending date order, a header row of the five fixed columns, and one line per returned log in that order |

## Left out

- HTTP handling. This covers request methods, `messages`, `redirect`,
  `render` and URL routing. The GET pages of the group and assignment forms
  are also left out. Results are outcome values instead.
- The admin and employee role checks (`user_is_admin`, the dashboard's
  redirect for admins) and authentication. These belong to the
  authentication layer. The clock methods take the signed-in user as a
  parameter.
- `timezone.localdate()` and `timezone.localtime()`. "Today" and "now" are
  parameters. Times are whole seconds; the microseconds of a `time` value
  are not modelled.
- Time formatting with `strftime` and the two-decimal float output of
  hours. Totals are kept as integer seconds: the source divides seconds by
  3600.
- Spreadsheet styling, column widths and the download file name
  (openpyxl). The sheet is kept as a header and a list of lines.
- `created_at`, `updated_at` and `assigned_at`. These timestamps do not
  affect any decision.
- `allowed_days` values that are not a list of integers. This is
  `AttendanceGroup.clean`'s first branch and its `isinstance` test. The views
  always store a list of integers, so the field is `seq<int>`.
- The `int()` conversion of submitted day and group-id strings, and the
  error a non-numeric value raises. Malformed date strings in the report
  filters are left out for the same reason. The model takes the converted
  values.
- The 100-character limit on group names. Enforcing it depends on the
  database backend.
- Dashboard statistics and listings. These are the admin dashboard counts,
  the group user counts, the last-seven-days history and the user list.
  They are read-only ORM queries.
- Deleting users, and the cascade to their logs and memberships. No view
  in the core deletes users.
- The employee dashboard's own queries. `TodayPermissions` and
  `DashboardFlags` take the user's groups (in name order) and today's log
  as inputs. `DashboardAgreesWithClockIn` relates those inputs to the
  store.
- Store.AttendanceStore.AssignUserToGroups: follows Django's default
  autocommit, with no request-wide transaction (`ATOMIC_REQUESTS` off). The
  project settings are not part of this model. Under a request transaction,
  a failed assignment would leave the memberships as they were.
- Store.AttendanceStore.Query: usernames are compared by character code.
  The database's collation may order them differently.
- Concurrent requests and the atomicity of `get_or_create`. The model is
  one request at a time.
- The Django admin configuration (attendance/admin.py). The seed script's
  data appears only in `Clock.WeekdayShiftExample`.
