/** Value types shared by the attendance model. */
module Common {

  datatype Option<T> = None | Some(value: T)

  /** A calendar date as a day number: the proleptic Gregorian ordinal that
      Python's date.toordinal() gives (day 1 is 1 January of year 1, a Monday). */
  type Date = int

  /** A local time of day, in whole seconds since midnight. */
  type Time = t: int | 0 <= t < 86400

  type UserId = nat
  type GroupId = nat

  /** The parts of a user account the attendance views read: the login name
      (unique, used for ordering) and the result of get_full_name(). */
  datatype UserInfo = UserInfo(username: string, fullName: string)

  /** `user.get_full_name() or user.username`: the full name unless it is empty. */
  function DisplayName(u: UserInfo): (name: string)
    ensures u.fullName != [] ==> name == u.fullName
    ensures u.fullName == [] ==> name == u.username
    ensures name == [] <==> u.fullName == [] && u.username == []
  {
    if u.fullName != [] then u.fullName else u.username
  }

  /** No two users share a username. */
  ghost predicate UniqueUsernames(users: map<UserId, UserInfo>)
  {
    forall a, b :: a in users && b in users && users[a].username == users[b].username ==> a == b
  }
}
