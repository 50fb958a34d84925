/** The user table behind `PostgresUserRepository`: creation, lookups by email
    and by user name or email, password update, listing and bulk removal.
    Rows are kept in primary-key (insertion) order, the order in which
    gorm's `First` picks a match. */
module UserRepository {

  import opened Results
  import opened Errors

  /** Profile fields the core stores but never interprets. */
  datatype Profile = Profile(firstName: string, lastName: string, userName: string)

  datatype User = User(profile: Profile, email: string, passwordHash: string)

  type UserTable = seq<User>

  /** The unique indexes on `email` and `user_name`. */
  predicate KeysUnique(rows: UserTable)
  {
    forall i, j :: 0 <= i < j < |rows| ==>
      rows[i].email != rows[j].email && rows[i].profile.userName != rows[j].profile.userName
  }

  predicate HasEmail(rows: UserTable, email: string)
  {
    exists i :: 0 <= i < |rows| && rows[i].email == email
  }

  predicate HasUserName(rows: UserTable, userName: string)
  {
    exists i :: 0 <= i < |rows| && rows[i].profile.userName == userName
  }

  /** Row `k` is the first, in key order, whose user name or email is `identifier`. */
  predicate FirstIdentified(rows: UserTable, identifier: string, k: int)
  {
    && 0 <= k < |rows|
    && (rows[k].profile.userName == identifier || rows[k].email == identifier)
    && forall j :: 0 <= j < k ==> rows[j].profile.userName != identifier && rows[j].email != identifier
  }

  /** Index of the first row satisfying `p`, as `WHERE … LIMIT 1` in key order. */
  function FirstMatch(rows: UserTable, p: User -> bool): (r: Option<nat>)
    ensures r.Some? ==> r.value < |rows| && p(rows[r.value])
    ensures r.Some? ==> forall j :: 0 <= j < r.value ==> !p(rows[j])
    ensures r.None? ==> forall j :: 0 <= j < |rows| ==> !p(rows[j])
  {
    if rows == [] then None
    else if p(rows[0]) then Some(0)
    else
      match FirstMatch(rows[1..], p)
      case None => None
      case Some(k) => Some(k + 1)
  }

  /** `Create`: insert a row; the database refuses a duplicate email or user name. */
  function Create(rows: UserTable, user: User): (r: Result<UserTable, AuthError>)
    ensures r.Success? <==> !HasEmail(rows, user.email) && !HasUserName(rows, user.profile.userName)
    ensures r.Success? ==> r.value == rows + [user]
    ensures r.Failure? ==> r.error == UniqueViolation
    ensures KeysUnique(rows) && r.Success? ==> KeysUnique(r.value)
  {
    if HasEmail(rows, user.email) || HasUserName(rows, user.profile.userName) then Failure(UniqueViolation)
    else Success(rows + [user])
  }

  /** `FindByEmail`: the user with that email, else "user not found". */
  function FindByEmail(rows: UserTable, email: string): (r: Result<User, AuthError>)
    ensures r.Success? <==> HasEmail(rows, email)
    ensures r.Success? ==> r.value in rows && r.value.email == email
    ensures r.Failure? ==> r.error == UserNotFound
    ensures KeysUnique(rows) ==> forall i :: 0 <= i < |rows| && rows[i].email == email ==> r == Success(rows[i])
  {
    match FirstMatch(rows, (u: User) => u.email == email)
    case None => Failure(UserNotFound)
    case Some(k) => Success(rows[k])
  }

  /** `FindByUserNameOrEmail`: the first user, in key order, whose user name
      or email equals the identifier, else "user not found". */
  function FindByUserNameOrEmail(rows: UserTable, identifier: string): (r: Result<User, AuthError>)
    ensures r.Success? <==> HasUserName(rows, identifier) || HasEmail(rows, identifier)
    ensures r.Success? ==> exists k :: FirstIdentified(rows, identifier, k) && r.value == rows[k]
    ensures r.Failure? ==> r.error == UserNotFound
  {
    match FirstMatch(rows, (u: User) => u.profile.userName == identifier || u.email == identifier)
    case None => Failure(UserNotFound)
    case Some(k) => Success(rows[k])
  }

  /** `UpdatePassword`: `UPDATE users SET password = … WHERE email = …`;
      matching no row is not an error. */
  function UpdatePassword(rows: UserTable, email: string, newHash: string): (r: UserTable)
    ensures |r| == |rows|
    ensures forall i :: 0 <= i < |rows| ==> r[i].profile == rows[i].profile && r[i].email == rows[i].email
    ensures forall i :: 0 <= i < |rows| && rows[i].email == email ==> r[i].passwordHash == newHash
    ensures forall i :: 0 <= i < |rows| && rows[i].email != email ==> r[i] == rows[i]
    ensures KeysUnique(rows) ==> KeysUnique(r)
  {
    seq(|rows|, i requires 0 <= i < |rows| =>
      if rows[i].email == email then rows[i].(passwordHash := newHash) else rows[i])
  }

  /** `GetAll`: every stored user. The query has no ORDER BY, so only the
      multiset of rows is promised; key order is one admissible answer. */
  function GetAll(rows: UserTable): (users: seq<User>)
  {
    rows
  }

  /** `RemoveAll`: delete every user. */
  function RemoveAll(rows: UserTable): (r: UserTable)
  {
    []
  }

  /** After a password update, the lookup by that email sees the new hash and
      the same profile; lookups of every other email see exactly what they saw. */
  lemma UpdatePasswordThenFind(rows: UserTable, email: string, newHash: string, other: string)
    requires KeysUnique(rows)
    ensures var r := UpdatePassword(rows, email, newHash);
      match FindByEmail(rows, email)
      case Success(u) => FindByEmail(r, email) == Success(u.(passwordHash := newHash))
      case Failure(e) => FindByEmail(r, email) == Failure(e)
    ensures other != email ==> FindByEmail(UpdatePassword(rows, email, newHash), other) == FindByEmail(rows, other)
  {
  }

  /** A created user is listed by `GetAll`, which grows by exactly one, and is
      found by its email. */
  lemma CreateThenGetAll(rows: UserTable, user: User)
    requires Create(rows, user).Success?
    ensures var r := Create(rows, user).value;
      && user in GetAll(r)
      && |GetAll(r)| == |GetAll(rows)| + 1
      && FindByEmail(r, user.email).Success?
      && (KeysUnique(rows) ==> FindByEmail(r, user.email) == Success(user))
  {
  }

  /** Starting from an empty table, two creates of distinct users list both
      users and nothing else, in no promised order. */
  lemma TwoCreatesListTwo(rows: UserTable, u1: User, u2: User)
    requires u1.email != u2.email && u1.profile.userName != u2.profile.userName
    ensures var empty := RemoveAll(rows);
      && Create(empty, u1).Success?
      && Create(Create(empty, u1).value, u2).Success?
      && multiset(GetAll(Create(Create(empty, u1).value, u2).value)) == multiset{u1, u2}
  {
  }

  /** After `RemoveAll` no email is found. */
  lemma RemoveAllForgetsEveryone(rows: UserTable, email: string)
    ensures GetAll(RemoveAll(rows)) == []
    ensures FindByEmail(RemoveAll(rows), email) == Failure(UserNotFound)
  {
  }
}
