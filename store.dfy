/** The attendance database as one object: users, attendance groups, group
    memberships and attendance logs, with the views of attendance/views.py
    that change or query them. */
module Store {
  import opened Common
  import opened Calendar
  import opened Groups
  import opened Logs
  import opened Clock
  import opened Reports

  /** No two groups share a name (the unique constraint on AttendanceGroup.name). */
  ghost predicate UniqueGroupNames(groups: map<GroupId, Group>)
  {
    forall a, b :: a in groups && b in groups && groups[a].name == groups[b].name ==> a == b
  }

  /** Some group other than `except` already has this name. */
  predicate NameTaken(groups: map<GroupId, Group>, name: string, except: Option<GroupId>)
  {
    exists id :: id in groups && groups[id].name == name && except != Some(id)
  }

  /** The ids of the groups a user belongs to. */
  function UserGroupIds(memberships: set<Membership>, user: UserId): set<GroupId>
  {
    set m | m in memberships && m.user == user :: m.group
  }

  /** The entries of a list, with no repeats. */
  predicate Distinct(ids: seq<GroupId>)
  {
    forall i, j :: 0 <= i < j < |ids| ==> ids[i] != ids[j]
  }

  datatype GroupOutcome = GroupSaved(id: GroupId) | GroupDeleted(id: GroupId) | MissingNameOrDays | DuplicateName | GroupNotFound

  datatype AssignOutcome = Assigned | UserNotFound | UnknownGroup(id: GroupId) | DuplicateGroup(id: GroupId)

  class AttendanceStore {
    var users: map<UserId, UserInfo>
    var groups: map<GroupId, Group>
    var memberships: set<Membership>
    var logs: LogTable
    /** The next id the database hands out to a new group. */
    var nextGroupId: GroupId

    /** The database's constraints: unique usernames and group names, and
        foreign keys of memberships and logs that point at existing rows. */
    ghost predicate Valid()
      reads this
    {
      && UniqueUsernames(users)
      && UniqueGroupNames(groups)
      && (forall m :: m in memberships ==> m.user in users && m.group in groups)
      && (forall k :: k in logs ==> k.user in users)
      && (forall id :: id in groups ==> id < nextGroupId)
    }

    /** An empty attendance database over the given accounts. */
    constructor (accounts: map<UserId, UserInfo>)
      requires UniqueUsernames(accounts)
      ensures Valid()
      ensures users == accounts && groups == map[] && memberships == {} && logs == map[]
    {
      users := accounts;
      groups := map[];
      memberships := {};
      logs := map[];
      nextGroupId := 1;
    }

    /** clock_in for the signed-in `user`, with today's date and the current
        time passed in. */
    method ClockIn(user: UserId, today: Date, now: Time) returns (r: ClockInResult)
      requires Valid() && user in users
      modifies this`logs
      ensures Valid()
      ensures (r, logs) == ClockInStep(old(logs), Eligible(memberships, groups, user, today), user, today, now)
    {
      var allowed := Eligible(memberships, groups, user, today);
      if !allowed {
        return NotAllowedToday(Weekday(today));
      }
      var key := LogKey(user, today);
      if key !in logs {
        logs := logs[key := Log(Some(now), None)];
        return ClockedIn(now);
      }
      var log := logs[key];
      if log.checkIn.Some? {
        return AlreadyClockedIn;
      }
      logs := logs[key := log.(checkIn := Some(now))];
      return ClockedIn(now);
    }

    /** clock_out for the signed-in `user`. */
    method ClockOut(user: UserId, today: Date, now: Time) returns (r: ClockOutResult)
      requires Valid()
      modifies this`logs
      ensures Valid()
      ensures (r, logs) == ClockOutStep(old(logs), user, today, now)
    {
      var key := LogKey(user, today);
      if key !in logs {
        return NoRecordToday;
      }
      var log := logs[key];
      if log.checkIn.None? {
        return NotClockedIn;
      } else if log.checkOut.Some? {
        return AlreadyClockedOut;
      }
      log := log.(checkOut := Some(now));
      logs := logs[key := log];
      return ClockedOut(now, TotalSeconds(log));
    }

    /** create_group with the submitted name (empty when missing) and the
        selected days after int() conversion. The days are stored as given:
        objects.create does not run AttendanceGroup.clean. */
    method CreateGroup(name: string, days: seq<int>) returns (r: GroupOutcome)
      requires Valid()
      modifies this`groups, this`nextGroupId
      ensures Valid()
      ensures name == [] || days == [] ==> r == MissingNameOrDays
      ensures name != [] && days != [] && NameTaken(old(groups), name, None) ==> r == DuplicateName
      ensures r.GroupSaved? <==> name != [] && days != [] && !NameTaken(old(groups), name, None)
      ensures r.GroupSaved? ==>
        r.id !in old(groups) && groups == old(groups)[r.id := Group(name, days)]
      ensures !r.GroupSaved? ==> groups == old(groups)
    {
      if name == [] || days == [] {
        return MissingNameOrDays;
      }
      if NameTaken(groups, name, None) {
        return DuplicateName;
      }
      var id := nextGroupId;
      groups := groups[id := Group(name, days)];
      nextGroupId := nextGroupId + 1;
      return GroupSaved(id);
    }

    /** edit_group: replaces the name and days of an existing group. A name
        already used by another group makes `group.save()` raise an
        IntegrityError that, unlike in create_group, nothing catches: the
        request ends in a server error and nothing is saved. DuplicateName
        stands for that failure. */
    method EditGroup(id: GroupId, name: string, days: seq<int>) returns (r: GroupOutcome)
      requires Valid()
      modifies this`groups
      ensures Valid()
      ensures id !in old(groups) ==> r == GroupNotFound
      ensures id in old(groups) && (name == [] || days == []) ==> r == MissingNameOrDays
      ensures id in old(groups) && name != [] && days != [] && NameTaken(old(groups), name, Some(id)) ==> r == DuplicateName
      ensures r.GroupSaved? <==> id in old(groups) && name != [] && days != [] && !NameTaken(old(groups), name, Some(id))
      ensures r.GroupSaved? ==> r.id == id && groups == old(groups)[id := Group(name, days)]
      ensures !r.GroupSaved? ==> groups == old(groups)
    {
      if id !in groups {
        return GroupNotFound;
      }
      if name == [] || days == [] {
        return MissingNameOrDays;
      }
      if NameTaken(groups, name, Some(id)) {
        return DuplicateName;
      }
      groups := groups[id := Group(name, days)];
      return GroupSaved(id);
    }

    /** delete_group: removes the group and, by cascade, its memberships. */
    method DeleteGroup(id: GroupId) returns (r: GroupOutcome)
      requires Valid()
      modifies this`groups, this`memberships
      ensures Valid()
      ensures r == (if id in old(groups) then GroupDeleted(id) else GroupNotFound)
      ensures groups == old(groups) - {id}
      ensures forall m :: m in memberships <==> m in old(memberships) && m.group != id
    {
      if id !in groups {
        return GroupNotFound;
      }
      groups := groups - {id};
      memberships := set m | m in memberships && m.group != id;
      return GroupDeleted(id);
    }

    /** assign_user_to_group: deletes all of the user's memberships, then
        creates one per selected id in order. The request is not wrapped in a
        transaction, so an unknown id (DoesNotExist) or a repeated one (the
        unique constraint) ends it with the memberships made so far kept. */
    method AssignUserToGroups(user: UserId, selected: seq<GroupId>) returns (r: AssignOutcome)
      requires Valid()
      modifies this`memberships
      ensures Valid()
      ensures forall m: Membership :: m.user != user ==> (m in memberships <==> m in old(memberships))
      ensures r == UserNotFound <==> user !in users
      ensures user !in users ==> memberships == old(memberships)
      ensures r == Assigned <==>
        user in users && Distinct(selected) && forall i :: 0 <= i < |selected| ==> selected[i] in groups
      ensures r == Assigned ==> UserGroupIds(memberships, user) == set i | 0 <= i < |selected| :: selected[i]
      ensures r.UnknownGroup? || r.DuplicateGroup? ==>
        exists n :: 0 <= n < |selected| && r.id == selected[n]
          && Distinct(selected[..n]) && (forall j :: 0 <= j < n ==> selected[j] in groups)
          && UserGroupIds(memberships, user) == (set i | 0 <= i < n :: selected[i])
          && (r.UnknownGroup? <==> selected[n] !in groups)
          && (r.DuplicateGroup? ==> selected[n] in selected[..n])
    {
      if user !in users {
        return UserNotFound;
      }
      memberships := set m | m in memberships && m.user != user;
      var i := 0;
      while i < |selected|
        invariant 0 <= i <= |selected|
        invariant Valid()
        invariant forall m: Membership :: m.user != user ==> (m in memberships <==> m in old(memberships))
        invariant UserGroupIds(memberships, user) == set j | 0 <= j < i :: selected[j]
        invariant Distinct(selected[..i])
        invariant forall j :: 0 <= j < i ==> selected[j] in groups
      {
        var g := selected[i];
        if g !in groups {
          return UnknownGroup(g);
        }
        var m := Membership(user, g);
        if m in memberships {
          assert g in UserGroupIds(memberships, user);
          assert selected[..i + 1][i] in selected[..i];
          return DuplicateGroup(g);
        }
        ghost var before := UserGroupIds(memberships, user);
        assert g !in before;
        memberships := memberships + {m};
        assert UserGroupIds(memberships, user) == before + {g};
        assert (set j | 0 <= j < i + 1 :: selected[j]) == (set j | 0 <= j < i :: selected[j]) + {g};
        assert Distinct(selected[..i + 1]) by {
          forall j | 0 <= j < i ensures selected[j] != g {
            assert selected[j] in before;
          }
        }
        i := i + 1;
      }
      assert selected[..i] == selected;
      return Assigned;
    }

    /** The row a log appears as in a report. */
    function RowFor(k: LogKey): Row
      reads this
      requires k in logs && k.user in users
    {
      Row(k.user, users[k.user].username, k.date, logs[k])
    }

    /** The logs matching the filter, strictly ordered: reports() passes
        Descending, export_excel() Ascending. Every matching log appears, once. */
    method Query(f: Filter, o: DateOrder) returns (rows: seq<Row>)
      requires Valid()
      ensures Sorted(rows, o)
      ensures forall x :: x in rows ==> x.Key() in logs && Matches(f, x.Key()) && x == RowFor(x.Key())
      ensures forall k :: k in logs && Matches(f, k) ==> RowFor(k) in rows
    {
      rows := [];
      var pending := logs.Keys;
      while pending != {}
        invariant pending <= logs.Keys
        invariant Sorted(rows, o)
        invariant forall x :: x in rows ==> x.Key() in logs && x.Key() !in pending && Matches(f, x.Key()) && x == RowFor(x.Key())
        invariant forall k :: k in logs && k !in pending && Matches(f, k) ==> RowFor(k) in rows
        decreases pending
      {
        var k :| k in pending;
        pending := pending - {k};
        if Matches(f, k) {
          var r := RowFor(k);
          forall x | x in rows ensures Before(x, r, o) || Before(r, x, o) {
            if x.date == r.date {
              assert x.user != r.user;
            }
            BeforeTotal(x, r, o);
          }
          rows := InsertRow(rows, r, o);
        }
      }
    }

    /** export_excel: the ascending query, then one sheet line per log after
        the header row. */
    method ExportExcel(f: Filter) returns (rows: seq<Row>, sheet: Sheet)
      requires Valid()
      ensures Sorted(rows, Ascending)
      ensures forall x :: x in rows ==> x.Key() in logs && Matches(f, x.Key()) && x == RowFor(x.Key())
      ensures forall k :: k in logs && Matches(f, k) ==> RowFor(k) in rows
      ensures sheet.header == EXPORT_HEADER
      ensures |sheet.lines| == |rows|
      ensures forall i :: 0 <= i < |rows| ==> rows[i].user in users && sheet.lines[i] == ExportLineOf(rows[i], users[rows[i].user])
    {
      rows := Query(f, Ascending);
      var lines: seq<ExportLine> := [];
      var i := 0;
      while i < |rows|
        invariant 0 <= i <= |rows|
        invariant |lines| == i
        invariant forall j :: 0 <= j < i ==> rows[j].user in users && lines[j] == ExportLineOf(rows[j], users[rows[j].user])
      {
        assert rows[i] in rows;
        lines := lines + [ExportLineOf(rows[i], users[rows[i].user])];
        i := i + 1;
      }
      sheet := Sheet(EXPORT_HEADER, lines);
    }
  }
}
