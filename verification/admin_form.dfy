/** CustomUserCreationForm of reviews/forms.py: the admin's user-creation
    form and its identity rules, which differ from validate_user_exists in
    refusing an exact match for a form that creates a new user. */
module AdminForm {
  import opened Results
  import opened Usernames
  import opened Users

  /** The form's cleaned data; a field the form did not clean is `None`. */
  datatype FormData = FormData(username: Option<string>, email: Option<string>, role: Option<Role>)

  /** Python truthiness of an optional string. */
  predicate Truthy(s: Option<string>) {
    s.Some? && s.value != ""
  }

  /** clean_username: the format check applies only to a non-empty value. */
  function CleanUsername(w: WordClass, username: Option<string>): (r: Result<Option<string>, UsernameError>)
    ensures !Truthy(username) ==> r == Ok(username)
    ensures Truthy(username) ==> (r.Ok? <==> ValidateUsernameFormat(w, username.value).Ok?)
    ensures r.Ok? ==> r.value == username
  {
    if Truthy(username) then
      var v :- ValidateUsernameFormat(w, username.value);
      Ok(Some(v))
    else Ok(username)
  }

  datatype FormError =
    | NameHeldWithOtherEmail
    | AlreadyExists
    | EmailHeld

  /** clean: `instanceSaved` says whether the form's instance already has a
      primary key. */
  function Clean(users: UserTable, data: FormData, instanceSaved: bool): (r: Result<FormData, FormError>)
    ensures r.Ok? ==> r.value == data
    ensures !(Truthy(data.username) && Truthy(data.email)) ==> r == Ok(data)
    ensures r == Err(EmailHeld) <==>
      Truthy(data.username) && Truthy(data.email)
      && !HasUsername(users, data.username.value) && HasEmail(users, data.email.value)
    ensures r == Err(AlreadyExists) ==> !instanceSaved
  {
    if Truthy(data.username) && Truthy(data.email) then
      var username := data.username.value;
      var email := data.email.value;
      match FindByUsername(users, username)
      case Some(u) =>
        if u.email != email then Err(NameHeldWithOtherEmail)
        else if !instanceSaved then Err(AlreadyExists)
        else Ok(data)
      case None =>
        if HasEmail(users, email) then Err(EmailHeld) else Ok(data)
    else Ok(data)
  }

  /** With both fields filled in, the form accepts exactly what
      validate_user_exists accepts, except that an exact match of an
      existing account passes only when the form edits a saved instance. */
  lemma CleanAgreesWithValidateUserExists(users: UserTable, data: FormData, instanceSaved: bool)
    requires Truthy(data.username) && Truthy(data.email)
    ensures var v := ValidateUserExists(users, data.username.value, data.email.value);
      Clean(users, data, instanceSaved).Ok? <==> v == Ok(None) || (v.Ok? && instanceSaved)
  {
  }

  /** On a table with unique usernames: the owner of the username decides.
      A different email is refused; the same email is refused for a new
      instance and allowed for a saved one. */
  lemma CleanOnTakenName(users: UserTable, u: User, data: FormData, instanceSaved: bool)
    requires UniqueIdentities(users)
    requires u in users
    requires data.username == Some(u.username) && Truthy(data.username) && Truthy(data.email)
    ensures data.email.value != u.email ==> Clean(users, data, instanceSaved) == Err(NameHeldWithOtherEmail)
    ensures data.email.value == u.email && !instanceSaved ==> Clean(users, data, instanceSaved) == Err(AlreadyExists)
    ensures data.email.value == u.email && instanceSaved ==> Clean(users, data, instanceSaved) == Ok(data)
  {
    FindByUsernameUnique(users, u);
  }
}
