/** The `User` model of reviews/models.py with its role predicates, and the
    identity checks of api/validators.py that consult the user table. */
module Users {
  import opened Results
  import Constants

  datatype Role = UserRole | Moderator | Admin

  /** The stored value of each `User.Role` choice. */
  function RoleValue(r: Role): string {
    match r
    case UserRole => "user"
    case Moderator => "moderator"
    case Admin => "admin"
  }

  /** Reading a stored role back; anything else is not a choice. */
  function ParseRole(s: string): Option<Role> {
    if s == "user" then Some(UserRole)
    else if s == "moderator" then Some(Moderator)
    else if s == "admin" then Some(Admin)
    else None
  }

  lemma RoleValueRoundTrip(r: Role, s: string)
    ensures ParseRole(RoleValue(r)) == Some(r)
    ensures ParseRole(s) == Some(r) ==> s == RoleValue(r)
  {
  }

  /** The choices in declaration order, and the field's default. */
  const RoleChoices: seq<Role> := [UserRole, Moderator, Admin]

  const DefaultRole: Role := UserRole

  /** `max(len(role[0]) for role in Role.choices)`. */
  function MaxValueLength(rs: seq<Role>): (n: nat)
    ensures forall i :: 0 <= i < |rs| ==> |RoleValue(rs[i])| <= n
    ensures rs != [] ==> exists i :: 0 <= i < |rs| && |RoleValue(rs[i])| == n
    ensures rs == [] ==> n == 0
  {
    if rs == [] then 0
    else
      var rest := MaxValueLength(rs[1..]);
      var here := |RoleValue(rs[0])|;
      if here >= rest then here else rest
  }

  /** The role column is exactly as wide as the longest stored value,
      "moderator", and every role and the default fit in it. */
  lemma RoleColumnWidth()
    ensures MaxValueLength(RoleChoices) == 9
    ensures forall r: Role :: r in RoleChoices && |RoleValue(r)| <= MaxValueLength(RoleChoices)
    ensures DefaultRole in RoleChoices && RoleValue(DefaultRole) == "user"
  {
    var n := MaxValueLength(RoleChoices);
    assert |RoleValue(RoleChoices[1])| == 9;
    forall r: Role
      ensures r in RoleChoices && |RoleValue(r)| <= n
    {
      match r
      case UserRole => assert RoleChoices[0] == r;
      case Moderator => assert RoleChoices[1] == r;
      case Admin => assert RoleChoices[2] == r;
    }
  }

  datatype User = User(
    id: nat,
    username: string,
    email: string,
    role: Role,
    isSuperuser: bool,
    firstName: Option<string>,
    lastName: Option<string>,
    bio: Option<string>)

  /** `is_admin`: a superuser whatever the role, or the stored role value
      "admin". */
  function IsAdmin(u: User): (r: bool)
    ensures r <==> u.isSuperuser || RoleValue(u.role) == "admin"
    ensures u.isSuperuser ==> r
  {
    u.isSuperuser || u.role == Admin
  }

  /** `is_moderator`: the stored role value "moderator" only; superuser
      status plays no part, so a moderator is an administrator only as a
      superuser. */
  function IsModerator(u: User): (r: bool)
    ensures r <==> RoleValue(u.role) == "moderator"
    ensures r && IsAdmin(u) ==> u.isSuperuser
    ensures r ==> !IsAdmin(u.(isSuperuser := false))
  {
    u.role == Moderator
  }

  /** The user table in primary-key order, so that `.first()` is its
      earliest matching row. */
  type UserTable = seq<User>

  /** The table's unique constraints: ids, usernames and emails. */
  ghost predicate UniqueIdentities(users: UserTable) {
    forall i, j :: 0 <= i < j < |users| ==>
      && users[i].id != users[j].id
      && users[i].username != users[j].username
      && users[i].email != users[j].email
  }

  predicate HasUsername(users: UserTable, name: string) {
    exists i :: 0 <= i < |users| && users[i].username == name
  }

  predicate HasEmail(users: UserTable, email: string) {
    exists i :: 0 <= i < |users| && users[i].email == email
  }

  /** `User.objects.filter(username=name).first()`. */
  function FindByUsername(users: UserTable, name: string): (r: Option<User>)
    ensures r.Some? ==> r.value in users && r.value.username == name
    ensures r.None? <==> !HasUsername(users, name)
    ensures r.Some? ==> exists i :: (0 <= i < |users| && users[i] == r.value
      && forall j :: 0 <= j < i ==> users[j].username != name)
  {
    if users == [] then None
    else if users[0].username == name then Some(users[0])
    else
      var r := FindByUsername(users[1..], name);
      assert HasUsername(users[1..], name) ==> HasUsername(users, name);
      assert HasUsername(users, name) && users[0].username != name ==> HasUsername(users[1..], name) by {
        if HasUsername(users, name) && users[0].username != name {
          var i :| 0 <= i < |users| && users[i].username == name;
          assert users[1..][i - 1] == users[i];
        }
      }
      if r.Some? then
        assert exists i :: (0 <= i < |users| && users[i] == r.value
          && forall j :: 0 <= j < i ==> users[j].username != name) by {
          var k :| 0 <= k < |users[1..]| && users[1..][k] == r.value
            && forall j :: 0 <= j < k ==> users[1..][j].username != name;
          assert users[k + 1] == r.value;
          forall j | 0 <= j < k + 1
            ensures users[j].username != name
          {
            if j > 0 {
              assert users[j] == users[1..][j - 1];
            }
          }
        }
        r
      else r
  }

  /** With unique usernames the first match is the only one. */
  lemma FindByUsernameUnique(users: UserTable, u: User)
    requires UniqueIdentities(users)
    requires u in users
    ensures FindByUsername(users, u.username) == Some(u)
  {
    var r := FindByUsername(users, u.username);
    var i :| 0 <= i < |users| && users[i] == r.value;
    var k :| 0 <= k < |users| && users[k] == u;
  }

  datatype IdentityError =
    | UsernameTakenWithOtherEmail
    | EmailTaken

  /** validate_user_exists: the existing account when the pair matches it,
      nothing when both username and email are free, an error otherwise.
      It only reads the table. */
  function ValidateUserExists(users: UserTable, username: string, email: string): (r: Result<Option<User>, IdentityError>)
    ensures r == Ok(None) <==> !HasUsername(users, username) && !HasEmail(users, email)
    ensures r == Err(EmailTaken) <==> !HasUsername(users, username) && HasEmail(users, email)
    ensures r.Ok? && r.value.Some? ==>
      r.value.value in users && r.value.value.username == username && r.value.value.email == email
    ensures r == Err(UsernameTakenWithOtherEmail) ==>
      exists i :: 0 <= i < |users| && users[i].username == username && users[i].email != email
  {
    match FindByUsername(users, username)
    case Some(u) =>
      if u.email != email then Err(UsernameTakenWithOtherEmail) else Ok(Some(u))
    case None =>
      if HasEmail(users, email) then Err(EmailTaken) else Ok(None)
  }

  /** On a table with unique usernames the outcome for a taken username is
      decided by the one account holding it: its email either matches, and
      that very account is returned, or it does not, and the call fails. */
  lemma ValidateUserExistsOnTakenName(users: UserTable, u: User, email: string)
    requires UniqueIdentities(users)
    requires u in users
    ensures u.email == email ==> ValidateUserExists(users, u.username, email) == Ok(Some(u))
    ensures u.email != email ==> ValidateUserExists(users, u.username, email) == Err(UsernameTakenWithOtherEmail)
  {
    FindByUsernameUnique(users, u);
  }

  datatype NameError = TooLong(fieldName: string)

  /** validate_name_length: at most 150 characters, value returned as is. */
  function ValidateNameLength(value: string, fieldName: string): (r: Result<string, NameError>)
    ensures r.Ok? <==> |value| <= Constants.MaxFirstLastNameLength
    ensures r.Ok? ==> r.value == value
    ensures r.Err? ==> r.error == TooLong(fieldName)
  {
    if |value| > 150 then Err(TooLong(fieldName)) else Ok(value)
  }
}
