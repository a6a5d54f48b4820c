/** AttendanceGroup (attendance/models.py): a named set of weekdays on which
    its members may clock in. */
module Groups {
  import opened Common
  import opened Calendar

  /** The stored `allowed_days` list is kept as written: order, repetitions and
      out-of-range values included. */
  datatype Group = Group(name: string, allowedDays: seq<int>)

  /** is_day_allowed: the date's weekday occurs in the group's list. */
  predicate IsDayAllowed(g: Group, date: Date)
  {
    Weekday(date) in g.allowedDays
  }

  /** The days on which a group allows clocking in are exactly the listed
      weekday numbers: out-of-range entries never match a date, and a list
      without a weekday in it allows no date at all. */
  lemma AllowedWeekdaysAreListed(g: Group, date: Date)
    ensures IsDayAllowed(g, date) <==> exists i :: 0 <= i < |g.allowedDays| && IsWeekday(g.allowedDays[i]) && g.allowedDays[i] == Weekday(date)
  {
  }

  /** Whether a date is allowed depends only on its weekday. */
  lemma DayAllowedWeekly(g: Group, date: Date, weeks: nat)
    ensures IsDayAllowed(g, date + 7 * weeks) == IsDayAllowed(g, date)
  {
  }

  /** Every entry of the list is a weekday number. */
  predicate ValidDays(days: seq<int>)
  {
    forall d :: d in days ==> IsWeekday(d)
  }

  datatype DaysCheck = DaysValid | InvalidDay(day: int)

  /** AttendanceGroup.clean: walks the list and rejects the first entry outside
      0..6; a list whose entries all lie in 0..6 passes. */
  method Clean(days: seq<int>) returns (r: DaysCheck)
    ensures r.DaysValid? <==> ValidDays(days)
    ensures r.InvalidDay? ==>
      exists i :: 0 <= i < |days| && days[i] == r.day && !IsWeekday(r.day) && ValidDays(days[..i])
  {
    var i := 0;
    while i < |days|
      invariant 0 <= i <= |days|
      invariant ValidDays(days[..i])
    {
      if !IsWeekday(days[i]) {
        return InvalidDay(days[i]);
      }
      assert days[..i + 1] == days[..i] + [days[i]];
      i := i + 1;
    }
    assert days[..i] == days;
    return DaysValid;
  }

  predicate SortedDays(s: seq<int>)
  {
    forall i, j :: 0 <= i < j < |s| ==> s[i] <= s[j]
  }

  /** A value no larger than any element of a sorted list can go in front of it. */
  lemma ConsSortedDays(d: int, s: seq<int>)
    requires SortedDays(s)
    requires forall x :: x in s ==> d <= x
    ensures SortedDays([d] + s)
  {
    var r := [d] + s;
    forall i, j | 0 <= i < j < |r| ensures r[i] <= r[j] {
      if i > 0 { assert r[i] == s[i - 1] && r[j] == s[j - 1]; }
      else { assert r[j] in s; }
    }
  }

  /** Places `d` in front of the first larger-or-equal element of a sorted list. */
  function InsertDay(d: int, s: seq<int>): (r: seq<int>)
    requires SortedDays(s)
    ensures SortedDays(r)
    ensures multiset(r) == multiset(s) + multiset{d}
    ensures forall x :: x in r ==> x == d || x in s
  {
    if s == [] || d <= s[0] then
      assert forall x :: x in s ==> d <= x by {
        forall x | x in s ensures d <= x {
          var j :| 0 <= j < |s| && s[j] == x;
          assert s[0] <= s[j];
        }
      }
      ConsSortedDays(d, s);
      [d] + s
    else
      assert s == [s[0]] + s[1..];
      var t := InsertDay(d, s[1..]);
      assert forall x :: x in t ==> s[0] <= x by {
        forall x | x in t ensures s[0] <= x {
          if x != d {
            var j :| 0 <= j < |s[1..]| && s[1..][j] == x;
            assert s[j + 1] == x;
          }
        }
      }
      ConsSortedDays(s[0], t);
      [s[0]] + t
  }

  /** `sorted(allowed_days)`: ascending, with every entry kept. */
  function SortDays(days: seq<int>): (s: seq<int>)
    ensures SortedDays(s)
    ensures multiset(s) == multiset(days)
  {
    if days == [] then []
    else
      assert days == [days[0]] + days[1..];
      InsertDay(days[0], SortDays(days[1..]))
  }

  /** A rearrangement of a list of weekday numbers is one too. */
  lemma ValidDaysPermutation(a: seq<int>, b: seq<int>)
    requires multiset(a) == multiset(b)
    ensures ValidDays(a) <==> ValidDays(b)
  {
    assert forall d :: d in a <==> d in multiset(a);
    assert forall d :: d in b <==> d in multiset(b);
  }

  /** The day name of every entry, in order. */
  function DayNames(days: seq<int>): (names: seq<string>)
    requires ValidDays(days)
    ensures |names| == |days|
    ensures forall i :: 0 <= i < |days| ==> names[i] == DayName(days[i])
  {
    if days == [] then [] else [DayName(days[0])] + DayNames(days[1..])
  }

  /** `sep.join(parts)`. */
  function Join(parts: seq<string>, sep: string): string
  {
    if parts == [] then []
    else if |parts| == 1 then parts[0]
    else parts[0] + sep + Join(parts[1..], sep)
  }

  /** get_allowed_days_display: the names of the sorted entries joined by ", ".
      An entry outside 0..6 has no name and makes the lookup fail (None). */
  function AllowedDaysDisplay(days: seq<int>): (r: Option<string>)
    ensures r.Some? <==> ValidDays(days)
    ensures r.Some? ==> (r.value == [] <==> days == [])
  {
    if ValidDays(days) then
      var sorted := SortDays(days);
      ValidDaysPermutation(sorted, days);
      assert |sorted| == |days| by { assert |multiset(sorted)| == |multiset(days)|; }
      Some(Join(DayNames(sorted), ", "))
    else None
  }

  /* Reading a display string back into day numbers. */

  /** The first weekday number from `d` on whose name starts `s`. */
  function LeadingDayFrom(s: string, d: int): (r: Option<int>)
    requires 0 <= d <= 7
    ensures r.Some? ==> d <= r.value <= 6 && DayName(r.value) <= s
    decreases 7 - d
  {
    if d == 7 then None
    else if DayName(d) <= s then Some(d)
    else LeadingDayFrom(s, d + 1)
  }

  /** A comma-and-space separated list of day names, read into day numbers. */
  function ParseDayList(s: string): Option<seq<int>>
    decreases |s|
  {
    match LeadingDayFrom(s, 0)
    case None => None
    case Some(d) =>
      var rest := s[|DayName(d)|..];
      if rest == [] then Some([d])
      else if |rest| >= 2 && rest[..2] == ", " then
        match ParseDayList(rest[2..])
        case None => None
        case Some(ds) => Some([d] + ds)
      else None
  }

  /** The inverse of the display text: the empty text is the empty list. */
  function ParseDaysDisplay(s: string): Option<seq<int>>
  {
    if s == [] then Some([]) else ParseDayList(s)
  }

  lemma NotPrefixWhenDiffering(a: string, b: string, i: nat)
    requires i < |a| && i < |b| && a[i] != b[i]
    ensures !(a <= b)
  {
  }

  /** Scanning the weekday names finds the one that a string starts with. */
  lemma {:induction false} LeadingDayOf(d: int, rest: string, from: int)
    requires IsWeekday(d) && 0 <= from <= d
    ensures LeadingDayFrom(DayName(d) + rest, from) == Some(d)
    decreases d - from
  {
    var s := DayName(d) + rest;
    assert DayName(d) <= s;
    if from < d {
      DayNamesDifferEarly(d, from);
      if DayName(d)[0] != DayName(from)[0] {
        NotPrefixWhenDiffering(DayName(from), s, 0);
      } else {
        NotPrefixWhenDiffering(DayName(from), s, 1);
      }
      LeadingDayOf(d, rest, from + 1);
    }
  }

  /** Parsing the joined names of a non-empty list of weekdays gives the list back. */
  lemma {:induction false} ParseJoinedNames(days: seq<int>)
    requires ValidDays(days) && days != []
    ensures ParseDayList(Join(DayNames(days), ", ")) == Some(days)
    decreases |days|
  {
    var d := days[0];
    var names := DayNames(days);
    if |days| == 1 {
      assert days == [d];
      assert Join(names, ", ") == DayName(d);
      LeadingDayOf(d, [], 0);
      assert DayName(d) + [] == DayName(d);
      assert DayName(d)[|DayName(d)|..] == [];
    } else {
      var tail := days[1..];
      assert names[1..] == DayNames(tail);
      var joinedTail := Join(DayNames(tail), ", ");
      var s := Join(names, ", ");
      assert s == DayName(d) + (", " + joinedTail);
      LeadingDayOf(d, ", " + joinedTail, 0);
      var rest := s[|DayName(d)|..];
      assert rest == ", " + joinedTail;
      assert |rest| >= 2 && rest[..2] == ", ";
      assert rest[2..] == joinedTail;
      ParseJoinedNames(tail);
      assert days == [d] + tail;
    }
  }

  /** The display of a valid list reads back as that list sorted ascending,
      one name per entry: get_allowed_days_display loses only the order of
      the stored list. */
  lemma DisplayRoundTrip(days: seq<int>)
    requires ValidDays(days)
    ensures AllowedDaysDisplay(days).Some?
    ensures ParseDaysDisplay(AllowedDaysDisplay(days).value) == Some(SortDays(days))
  {
    var sorted := SortDays(days);
    ValidDaysPermutation(sorted, days);
    if sorted != [] {
      assert |sorted| == |days| by { assert |multiset(sorted)| == |multiset(days)|; }
      ParseJoinedNames(sorted);
    }
  }
}
