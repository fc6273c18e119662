/** AuthServiceImpl: sign-in and registration over the user store, with
    BCrypt taken as given. */
module AuthService {
  import opened Common
  import opened Text
  import opened UserStore

  /** What BCrypt.checkpw reports: the candidate matches the stored hash,
      it does not, or the stored value is not a BCrypt hash at all (BCrypt
      then throws IllegalArgumentException with the given message). */
  datatype CheckResult = Match | NoMatch | Malformed(message: string)

  /** BCrypt.hashpw with the salt `gensalt(12)` drew, and BCrypt.checkpw. */
  datatype Hasher = Hasher(hashpw: string -> string, checkpw: (string, string) -> CheckResult)

  const InvalidRegistrationMessage := "Invalid registration data"

  /** Null or blank, the guard both methods apply to every argument. */
  predicate Missing(s: Option<string>) {
    s.None? || IsBlank(s.value)
  }

  /** `login(email, password)`: no lookup for a missing argument; otherwise
      the user stored under the trimmed email, if its stored hash accepts
      the trimmed password. */
  function Login(s: Users, h: Hasher, email: Option<string>, password: Option<string>): (r: Result<Option<User>>)
    ensures Missing(email) || Missing(password) ==> r == Ok(None)
    ensures r.Ok? && r.value.Some? ==>
              && email.Some? && password.Some?
              && r.value == FindByEmail(s, Some(Trim(email.value)))
              && r.value.value.password.Some?
              && h.checkpw(Trim(password.value), r.value.value.password.value) == Match
    ensures !Missing(email) && !Missing(password) && FindByEmail(s, Some(Trim(email.value))).None? ==> r == Ok(None)
    ensures !Missing(email) && !Missing(password) ==>
              var f := FindByEmail(s, Some(Trim(email.value)));
              && (f.Some? && f.value.password.None? ==> r == Ok(None))
              && (f.Some? && f.value.password.Some? ==>
                    (r == Ok(f) <==> h.checkpw(Trim(password.value), f.value.password.value) == Match))
              && (f.Some? && f.value.password.Some? && h.checkpw(Trim(password.value), f.value.password.value).Malformed? ==>
                    r == Err(IllegalArgument(h.checkpw(Trim(password.value), f.value.password.value).message)))
    ensures r.Err? ==> r.error.IllegalArgument?
  {
    if Missing(email) || Missing(password) then Ok(None)
    else
      var existing := FindByEmail(s, Some(Trim(email.value)));
      if existing.None? || existing.value.password.None? then Ok(None)
      else match h.checkpw(Trim(password.value), existing.value.password.value)
        case Match => Ok(existing)
        case NoMatch => Ok(None)
        case Malformed(message) => Err(IllegalArgument(message))
  }

  /** `register(name, email, password)`: refuse a missing argument before any
      write; otherwise create a user with trimmed name and email and the
      hash of the trimmed password. */
  function Register(s: Users, h: Hasher, name: Option<string>, email: Option<string>, password: Option<string>,
                    fails: bool): (out: CreateOutcome)
    ensures Missing(name) || Missing(email) || Missing(password) ==>
              out == NotCreated(s, IllegalArgument(InvalidRegistrationMessage))
    ensures out.Created? ==>
              && name.Some? && email.Some? && password.Some?
              && out.user.name == Some(Trim(name.value))
              && out.user.email == Some(Trim(email.value))
              && out.user.password == Some(h.hashpw(Trim(password.value)))
              && out.user.id == Some(s.nextId)
    ensures !Missing(name) && !Missing(email) && !Missing(password) ==>
              out == Create(s, User(None, Some(Trim(name.value)), Some(Trim(email.value)), Some(h.hashpw(Trim(password.value)))), fails)
    ensures out.NotCreated? ==> out.users == s
  {
    if Missing(name) || Missing(email) || Missing(password) then NotCreated(s, IllegalArgument(InvalidRegistrationMessage))
    else
      var hashed := h.hashpw(Trim(password.value));
      Create(s, User(None, Some(Trim(name.value)), Some(Trim(email.value)), Some(hashed)), fails)
  }

  // ---------------------------------------------------------------------
  // Properties
  // ---------------------------------------------------------------------

  /** Sign-in after registration: with a hasher whose check accepts the hash
      of the same password, logging in with the registered email (up to
      surrounding whitespace) and password returns the new user. */
  lemma RegisterThenLogin(s: Users, h: Hasher, name: string, email: string, password: string, fails: bool,
                          loginEmail: string, loginPassword: string)
    requires Register(s, h, Some(name), Some(email), Some(password), fails).Created?
    requires !Missing(Some(loginEmail)) && !Missing(Some(loginPassword))
    requires Trim(loginEmail) == Trim(email) && Trim(loginPassword) == Trim(password)
    requires h.checkpw(Trim(password), h.hashpw(Trim(password))) == Match
    ensures var out := Register(s, h, Some(name), Some(email), Some(password), fails);
            Login(out.users, h, Some(loginEmail), Some(loginPassword)) == Ok(Some(out.user))
  {
    var user := User(None, Some(Trim(name)), Some(Trim(email)), Some(h.hashpw(Trim(password))));
    CreateThenFind(s, user, fails);
  }

  /** Registering the same trimmed email twice fails the second time with the
      duplicate-email error, and the store is unchanged. */
  lemma SecondRegistrationIsDuplicate(s: Users, h: Hasher, name: string, email: string, password: string,
                                       name2: string, email2: string, password2: string)
    requires Register(s, h, Some(name), Some(email), Some(password), false).Created?
    requires Trim(email2) == Trim(email)
    requires !Missing(Some(name2)) && !Missing(Some(email2)) && !Missing(Some(password2))
    ensures var u := Register(s, h, Some(name), Some(email), Some(password), false).users;
            Register(u, h, Some(name2), Some(email2), Some(password2), false) == NotCreated(u, IllegalArgument(DuplicateEmailMessage))
  {
    var u := Register(s, h, Some(name), Some(email), Some(password), false).users;
    assert UserRow(s.nextId, Some(Trim(name)), Some(Trim(email)), Some(h.hashpw(Trim(password)))) in u.rows;
  }

  /** A wrong password is refused even for a registered email: whatever the
      check rejects never signs in. */
  lemma RejectedPasswordNeverSignsIn(s: Users, h: Hasher, email: string, password: string)
    requires !Missing(Some(email)) && !Missing(Some(password))
    requires var found := FindByEmail(s, Some(Trim(email)));
             found.Some? && found.value.password.Some? && h.checkpw(Trim(password), found.value.password.value) == NoMatch
    ensures Login(s, h, Some(email), Some(password)) == Ok(None)
  {
  }
}
