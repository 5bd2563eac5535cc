/** Sign-up and token exchange: SignUpSerializer and TokenSerializer of
    api/serializers.py. Mail delivery and the token generator are outside
    the model: "a code was sent to u" is recorded in an outbox, and the
    check of a code is the predicate `codeOk` supplied by the caller. */
module Auth {
  import opened Results
  import opened Usernames
  import opened Users
  import Text

  /** The user table and, in order, every account a code was sent to. */
  datatype AuthState = AuthState(users: UserTable, outbox: seq<User>)

  datatype SignUpError =
    | EmailBlank
    | EmailTooLong
    | UsernameBlank
    | UsernameTooLong
    | UsernameFormat(formatError: UsernameError)
    | Identity(identityError: IdentityError)
    | DuplicateOnSave

  /** The primary key the table gives to the next row. */
  function NextId(users: UserTable): (id: nat)
    ensures forall i :: 0 <= i < |users| ==> users[i].id < id
  {
    if users == [] then 1
    else
      var rest := NextId(users[..|users| - 1]);
      var last := users[|users| - 1].id + 1;
      if last > rest then last else rest
  }

  /** Unicode NFKC normalization, which `normalize_username` applies; the
      Unicode tables are outside the model. */
  type Normalizer = string -> string

  /** BaseUserManager.normalize_email: the stripped address is split at its
      last '@' and the domain part is lower-cased; an address without '@'
      is kept as given. */
  function NormalizeEmail(email: string): (r: string)
    ensures Text.LastIndex(Text.Strip(email), '@').None? ==> r == email
    ensures Text.LastIndex(Text.Strip(email), '@').Some? ==>
      DomainLowered(Text.Strip(email), Text.LastIndex(Text.Strip(email), '@').value, r)
  {
    var t := Text.Strip(email);
    match Text.LastIndex(t, '@')
    case None => email
    case Some(k) => LowerAfter(t, k)
  }

  /** `r` is `t` up to and including position `k` and lower-cased after
      it. */
  predicate DomainLowered(t: string, k: nat, r: string) {
    && |r| == |t| && k < |t| && r[..k + 1] == t[..k + 1]
    && forall i :: k < i < |r| ==> r[i] == Text.LowerChar(t[i])
  }

  /** `t` with the characters after position `k` lower-cased. */
  function LowerAfter(t: string, k: nat): (r: string)
    ensures |r| == |t|
    ensures k < |t| ==> DomainLowered(t, k, r)
    ensures forall i :: 0 <= i < |t| ==> r[i] == (if i > k then Text.LowerChar(t[i]) else t[i])
  {
    seq(|t|, i requires 0 <= i < |t| => if i > k then Text.LowerChar(t[i]) else t[i])
  }

  /** The last '@' is the only '@' at or after it. */
  lemma LastIndexAt(s: string, k: nat)
    requires k < |s| && s[k] == '@' && '@' !in s[k + 1..]
    ensures Text.LastIndex(s, '@') == Some(k)
  {
  }

  /** A stored address normalizes to itself. */
  lemma NormalizeEmailIdempotent(email: string)
    ensures NormalizeEmail(NormalizeEmail(email)) == NormalizeEmail(email)
  {
    var t := Text.Strip(email);
    match Text.LastIndex(t, '@')
    case None =>
    case Some(k) =>
      assert NormalizeEmail(email) == LowerAfter(t, k);
      LoweredDomainIsNormal(t, k);
  }

  /** Lower-casing the domain of a stripped address gives an address that
      is already normal. */
  lemma LoweredDomainIsNormal(t: string, k: nat)
    requires k < |t| && t[k] == '@' && '@' !in t[k + 1..]
    requires !Text.IsSpace(t[0]) && !Text.IsSpace(t[|t| - 1])
    ensures NormalizeEmail(LowerAfter(t, k)) == LowerAfter(t, k)
  {
    var r := LowerAfter(t, k);
    Text.LowerCharKeeps(t[|t| - 1]);
    assert r[0] == t[0];
    Text.StripKeepsTrimmed(r);
    LoweredDomainHasNoAt(t, k);
    LastIndexAt(r, k);
    LowerAfterIdempotent(t, k);
  }

  lemma LoweredDomainHasNoAt(t: string, k: nat)
    requires k < |t| && t[k] == '@' && '@' !in t[k + 1..]
    ensures LowerAfter(t, k)[k] == '@' && '@' !in LowerAfter(t, k)[k + 1..]
  {
    var r := LowerAfter(t, k);
    forall i | k < i < |r| ensures r[i] != '@' {
      Text.LowerCharKeeps(t[i]);
      assert t[i] == t[k + 1..][i - k - 1];
    }
  }

  lemma LowerAfterIdempotent(t: string, k: nat)
    ensures LowerAfter(LowerAfter(t, k), k) == LowerAfter(t, k)
  {
    var r := LowerAfter(t, k);
    forall i | 0 <= i < |t| ensures LowerAfter(r, k)[i] == r[i] {
      Text.LowerCharKeeps(t[i]);
    }
  }

  /** The address of the counterexample below, normalized. */
  lemma NormalizeEmailExample()
    ensures NormalizeEmail("bob@X.COM") == "bob@x.com"
  {
    var email := "bob@X.COM";
    assert email[0] == 'b' && email[8] == 'M';
    NormalizeTrimmedEmail(email, 3);
    LowerAfterExample();
  }

  lemma LowerAfterExample()
    ensures LowerAfter("bob@X.COM", 3) == "bob@x.com"
  {
  }

  /** An address with no white space at either end and its last '@' at
      `k` normalizes to its lowered domain. */
  lemma NormalizeTrimmedEmail(email: string, k: nat)
    requires k < |email| && email[k] == '@' && '@' !in email[k + 1..]
    requires !Text.IsSpace(email[0]) && !Text.IsSpace(email[|email| - 1])
    ensures NormalizeEmail(email) == LowerAfter(email, k)
  {
    Text.StripKeepsTrimmed(email);
    LastIndexAt(email, k);
  }

  /** The account `create_user` makes for a new sign-up: default role, not
      a superuser, no names or bio. */
  function NewUser(users: UserTable, username: string, email: string): User {
    User(NextId(users), username, email, DefaultRole, false, None, None, None)
  }

  /** The checks both sign-ups share: field checks in field order (email,
      then username with validate_username_format), then
      validate_user_exists. */
  function SignUpChecks(w: WordClass, st: AuthState, username: string, email: string): (r: Result<Option<User>, SignUpError>)
    ensures r.Ok? <==>
      && 0 < |email| <= 254 && 0 < |username| <= 150
      && ValidateUsernameFormat(w, username).Ok?
      && ValidateUserExists(users := st.users, username := username, email := email).Ok?
    ensures r.Ok? ==> r == Ok(ValidateUserExists(st.users, username, email).value)
  {
    if email == "" then Err(EmailBlank)
    else if |email| > 254 then Err(EmailTooLong)
    else if username == "" then Err(UsernameBlank)
    else if |username| > 150 then Err(UsernameTooLong)
    else match ValidateUsernameFormat(w, username)
    case Err(e) => Err(UsernameFormat(e))
    case Ok(_) =>
      match ValidateUserExists(st.users, username, email)
      case Err(e) => Err(Identity(e))
      case Ok(found) => Ok(found)
  }

  /** Sign-up as intended: the account is stored with the pair the checks
      accepted. A matching account is reused (`update` returns it
      unchanged); otherwise one account is created. Either way exactly one
      code is sent. */
  function SignUp(w: WordClass, st: AuthState, username: string, email: string): (r: Result<(AuthState, User), SignUpError>)
    ensures r.Ok? ==> r.value.0.outbox == st.outbox + [r.value.1]
    ensures r.Ok? ==> r.value.1.username == username && r.value.1.email == email
    ensures r.Ok? && HasUsername(st.users, username) ==>
      r.value.0.users == st.users && r.value.1 in st.users
    ensures r.Ok? && !HasUsername(st.users, username) ==>
      && r.value.0.users == st.users + [r.value.1]
      && r.value.1.role == UserRole && !r.value.1.isSuperuser
    ensures r.Ok? <==>
      && 0 < |email| <= 254 && 0 < |username| <= 150
      && ValidateUsernameFormat(w, username).Ok?
      && ValidateUserExists(users := st.users, username := username, email := email).Ok?
    ensures r.Ok? && UniqueIdentities(st.users) ==> UniqueIdentities(r.value.0.users)
  {
    match SignUpChecks(w, st, username, email)
    case Err(e) => Err(e)
    case Ok(Some(u)) => Ok((AuthState(st.users, st.outbox + [u]), u))
    case Ok(None) =>
      var u := NewUser(st.users, username, email);
      Ok((AuthState(st.users + [u], st.outbox + [u]), u))
  }

  /** Sign-up AS WRITTEN: the checks are those of SignUp, on the pair as
      typed, but `create_user` stores the username NFKC-normalized and the
      e-mail with its domain lower-cased. A stored value that collides with
      an existing account is refused by the table's unique constraint, an
      IntegrityError the serializer does not catch. */
  function SignUpAsWritten(w: WordClass, nfkc: Normalizer, st: AuthState, username: string, email: string): (r: Result<(AuthState, User), SignUpError>)
    ensures r.Ok? ==> r.value.0.outbox == st.outbox + [r.value.1]
    ensures r.Ok? && HasUsername(st.users, username) ==>
      && r.value.0.users == st.users && r.value.1 in st.users
      && r.value.1.username == username && r.value.1.email == email
    ensures r.Ok? && !HasUsername(st.users, username) ==>
      && r.value.0.users == st.users + [r.value.1]
      && r.value.1.username == nfkc(username) && r.value.1.email == NormalizeEmail(email)
    ensures r.Ok? <==>
      && 0 < |email| <= 254 && 0 < |username| <= 150
      && ValidateUsernameFormat(w, username).Ok?
      && ValidateUserExists(users := st.users, username := username, email := email).Ok?
      && (!HasUsername(st.users, username) ==>
            !HasUsername(st.users, nfkc(username)) && !HasEmail(st.users, NormalizeEmail(email)))
    ensures r.Ok? && UniqueIdentities(st.users) ==> UniqueIdentities(r.value.0.users)
  {
    match SignUpChecks(w, st, username, email)
    case Err(e) => Err(e)
    case Ok(Some(u)) => Ok((AuthState(st.users, st.outbox + [u]), u))
    case Ok(None) =>
      var u := NewUser(st.users, nfkc(username), NormalizeEmail(email));
      if HasUsername(st.users, u.username) || HasEmail(st.users, u.email) then Err(DuplicateOnSave)
      else Ok((AuthState(st.users + [u], st.outbox + [u]), u))
  }

  /** Signing up twice with an e-mail whose domain has a capital letter: the
      first sign-up stores "bob@x.com", so the second finds "bob" with
      another e-mail and is refused. */
  lemma SignUpAgainRefused(w: WordClass, nfkc: Normalizer)
    requires CoversAscii(w) && nfkc("bob") == "bob"
    ensures SignUpAsWritten(w, nfkc, AuthState([], []), "bob", "bob@X.COM").Ok?
    ensures var st1 := SignUpAsWritten(w, nfkc, AuthState([], []), "bob", "bob@X.COM").value.0;
      SignUpAsWritten(w, nfkc, st1, "bob", "bob@X.COM") == Err(Identity(UsernameTakenWithOtherEmail))
  {
    NormalizeEmailExample();
    assert AllAllowed(w, "bob") by {
      assert IsAsciiWordChar('b') && IsAsciiWordChar('o');
    }
    var st1 := SignUpAsWritten(w, nfkc, AuthState([], []), "bob", "bob@X.COM").value.0;
    assert st1.users[0].email == "bob@x.com";
  }

  /** On a pair that is already normal, the code as written and the
      corrected sign-up agree. */
  lemma SignUpsAgreeOnNormalPairs(w: WordClass, nfkc: Normalizer, st: AuthState, username: string, email: string)
    requires nfkc(username) == username && NormalizeEmail(email) == email
    ensures SignUpAsWritten(w, nfkc, st, username, email) == SignUp(w, st, username, email)
  {
  }

  /** Signing up again with the same pair creates nothing: the table after
      the second sign-up is the table after the first, the same account is
      returned, and one more code goes to it. */
  lemma SignUpTwiceIsIdempotent(w: WordClass, st: AuthState, username: string, email: string)
    requires UniqueIdentities(st.users)
    requires SignUp(w, st, username, email).Ok?
    ensures var (st1, u1) := SignUp(w, st, username, email).value;
      && SignUp(w, st1, username, email).Ok?
      && SignUp(w, st1, username, email).value.0.users == st1.users
      && SignUp(w, st1, username, email).value.1 == u1
      && |SignUp(w, st1, username, email).value.0.outbox| == |st.outbox| + 2
  {
    var (st1, u1) := SignUp(w, st, username, email).value;
    assert u1 in st1.users;
    ValidateUserExistsOnTakenName(st1.users, u1, email);
  }

  /** A new pair adds exactly one account. */
  lemma SignUpNewPairAddsOne(w: WordClass, st: AuthState, username: string, email: string)
    requires SignUp(w, st, username, email).Ok?
    requires !HasUsername(st.users, username)
    ensures |SignUp(w, st, username, email).value.0.users| == |st.users| + 1
    ensures !(SignUp(w, st, username, email).value.1 in st.users)
  {
  }

  datatype TokenData = TokenData(username: string, confirmationCode: string)

  datatype TokenError = UsernameRequired | CodeRequired | UnknownUser | BadCode

  /** TokenSerializer.validate: the account must exist and the code must
      check for it; the data is returned unchanged. */
  function ObtainToken(users: UserTable, data: TokenData, codeOk: (User, string) -> bool): (r: Result<TokenData, TokenError>)
    ensures r.Ok? ==> r.value == data
    ensures r.Ok? ==> exists i :: (0 <= i < |users| && users[i].username == data.username
      && codeOk(users[i], data.confirmationCode))
    ensures data.username != "" && data.confirmationCode != "" ==>
      (r == Err(UnknownUser) <==> !HasUsername(users, data.username))
    ensures data.username != "" && data.confirmationCode != "" && FindByUsername(users, data.username).Some? ==>
      && (r.Ok? <==> codeOk(FindByUsername(users, data.username).value, data.confirmationCode))
      && (r.Err? ==> r == Err(BadCode))
    ensures data.username == "" ==> r == Err(UsernameRequired)
    ensures data.username != "" && data.confirmationCode == "" ==> r == Err(CodeRequired)
  {
    if data.username == "" then Err(UsernameRequired)
    else if data.confirmationCode == "" then Err(CodeRequired)
    else match FindByUsername(users, data.username)
    case None => Err(UnknownUser)
    case Some(u) => if codeOk(u, data.confirmationCode) then Ok(data) else Err(BadCode)
  }

  /** The state machine end to end: after a successful sign-up, the token
      exchange for that username succeeds exactly for the codes that check
      for the signed-up account. */
  lemma SignUpThenToken(w: WordClass, st: AuthState, username: string, email: string,
                        code: string, codeOk: (User, string) -> bool)
    requires UniqueIdentities(st.users)
    requires SignUp(w, st, username, email).Ok?
    requires code != ""
    ensures var (st1, u) := SignUp(w, st, username, email).value;
      ObtainToken(st1.users, TokenData(username, code), codeOk).Ok? <==> codeOk(u, code)
  {
    var (st1, u) := SignUp(w, st, username, email).value;
    assert u in st1.users;
    FindByUsernameUnique(st1.users, u);
  }

  /** As written, the token exchange works for the name as stored, which
      for a new account is the NFKC form of the typed one. */
  lemma SignUpAsWrittenThenToken(w: WordClass, nfkc: Normalizer, st: AuthState, username: string, email: string,
                                 code: string, codeOk: (User, string) -> bool)
    requires UniqueIdentities(st.users)
    requires SignUpAsWritten(w, nfkc, st, username, email).Ok?
    requires code != ""
    ensures var (st1, u) := SignUpAsWritten(w, nfkc, st, username, email).value;
      && (HasUsername(st.users, username) ==> u.username == username)
      && (!HasUsername(st.users, username) ==> u.username == nfkc(username))
      && (u.username != "" ==>
            (ObtainToken(st1.users, TokenData(u.username, code), codeOk).Ok? <==> codeOk(u, code)))
  {
    var (st1, u) := SignUpAsWritten(w, nfkc, st, username, email).value;
    assert u in st1.users;
    FindByUsernameUnique(st1.users, u);
  }

  /** Signing up as "\U{FB01}x" (with the ligature) stores "fix", and the
      token request with the name as typed finds no account. */
  lemma LigatureNameLosesToken(w: WordClass, nfkc: Normalizer, code: string, codeOk: (User, string) -> bool)
    requires CoversAscii(w) && w('\U{FB01}') && nfkc("\U{FB01}x") == "fix"
    requires code != ""
    ensures SignUpAsWritten(w, nfkc, AuthState([], []), "\U{FB01}x", "fix@example.com").Ok?
    ensures var st1 := SignUpAsWritten(w, nfkc, AuthState([], []), "\U{FB01}x", "fix@example.com").value.0;
      ObtainToken(st1.users, TokenData("\U{FB01}x", code), codeOk) == Err(UnknownUser)
  {
    assert AllAllowed(w, "\U{FB01}x") by {
      assert IsAsciiWordChar('x');
    }
    var st1 := SignUpAsWritten(w, nfkc, AuthState([], []), "\U{FB01}x", "fix@example.com").value.0;
    assert st1.users[0].username == "fix";
  }
}
