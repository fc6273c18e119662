/** UserDaoImpl: the `users` table with its unique email column. */
module UserStore {
  import opened Common

  /** A user as the store returns it; the id is null until `create` sets it. */
  datatype User = User(id: Option<int>, name: Option<string>, email: Option<string>, password: Option<string>)

  datatype UserRow = UserRow(id: int, name: Option<string>, email: Option<string>, password: Option<string>)

  /** The rows in storage order and the AUTO_INCREMENT counter. */
  datatype Users = Users(rows: seq<UserRow>, nextId: int)

  const DuplicateEmailMessage := "Email already exists"
  const CreateFailedMessage := "Failed to create user"

  /** Ids are below the counter and emails are unique (the UNIQUE constraint). */
  predicate WellFormed(s: Users) {
    && (forall row :: row in s.rows ==> row.id < s.nextId)
    && (forall i, j :: 0 <= i < j < |s.rows| && s.rows[i].email.Some? ==> s.rows[i].email != s.rows[j].email)
  }

  datatype CreateOutcome = Created(users: Users, user: User) | NotCreated(users: Users, error: Error)

  function ToUser(row: UserRow): User {
    User(Some(row.id), row.name, row.email, row.password)
  }

  predicate EmailTaken(s: Users, email: Option<string>) {
    email.Some? && exists row :: row in s.rows && row.email == email
  }

  /** `create(user)`: insert and set the generated key on the user. A UNIQUE
      violation (SQLState 23000) surfaces as its own IllegalArgumentException;
      any other failure, given by `fails`, as a generic one. */
  function Create(s: Users, user: User, fails: bool): (out: CreateOutcome)
    ensures fails ==> out == NotCreated(s, StoreFailure(CreateFailedMessage))
    ensures !fails && EmailTaken(s, user.email) ==> out == NotCreated(s, IllegalArgument(DuplicateEmailMessage))
    ensures out.Created? <==> !fails && !EmailTaken(s, user.email)
    ensures out.Created? ==> out.user == user.(id := Some(s.nextId))
    ensures out.Created? ==> out.users.rows == s.rows + [UserRow(s.nextId, user.name, user.email, user.password)]
    ensures out.Created? ==> out.users.nextId > s.nextId
    ensures out.NotCreated? ==> out.users == s
  {
    if fails then NotCreated(s, StoreFailure(CreateFailedMessage))
    else if EmailTaken(s, user.email) then NotCreated(s, IllegalArgument(DuplicateEmailMessage))
    else Created(Users(s.rows + [UserRow(s.nextId, user.name, user.email, user.password)], s.nextId + 1),
                 user.(id := Some(s.nextId)))
  }

  /** The first row whose email is `email`; SQL `=` never matches a null. */
  function FindRowByEmail(rows: seq<UserRow>, email: string): (r: Option<UserRow>)
    ensures r.Some? ==> r.value in rows && r.value.email == Some(email)
    ensures r.None? <==> forall row :: row in rows ==> row.email != Some(email)
  {
    if |rows| == 0 then None
    else if rows[0].email == Some(email) then Some(rows[0])
    else FindRowByEmail(rows[1..], email)
  }

  /** `findByEmail(email)`: the user with that email, else null. */
  function FindByEmail(s: Users, email: Option<string>): (r: Option<User>)
    ensures email.None? ==> r.None?
    ensures r.Some? ==> r.value.email == email && r.value.id.Some?
    ensures r.Some? ==> exists row :: row in s.rows && r.value == ToUser(row)
    ensures email.Some? ==> (r.None? <==> !EmailTaken(s, email))
  {
    if email.None? then None
    else match FindRowByEmail(s.rows, email.value)
      case None => None
      case Some(row) => Some(ToUser(row))
  }

  /** The first row whose email and stored password both equal the arguments. */
  function FindRowByCredentials(rows: seq<UserRow>, email: string, password: string): (r: Option<UserRow>)
    ensures r.Some? ==> r.value in rows && r.value.email == Some(email) && r.value.password == Some(password)
    ensures r.None? <==> forall row :: row in rows ==> !(row.email == Some(email) && row.password == Some(password))
  {
    if |rows| == 0 then None
    else if rows[0].email == Some(email) && rows[0].password == Some(password) then Some(rows[0])
    else FindRowByCredentials(rows[1..], email, password)
  }

  /** `login(email, password)`: compares the stored password string as is. */
  function Login(s: Users, email: Option<string>, password: Option<string>): (r: Option<User>)
    ensures r.Some? ==> email.Some? && password.Some? && r.value.email == email && r.value.password == password
    ensures email.Some? && password.Some? ==>
              (r.None? <==> forall row :: row in s.rows ==> !(row.email == email && row.password == password))
  {
    if email.None? || password.None? then None
    else match FindRowByCredentials(s.rows, email.value, password.value)
      case None => None
      case Some(row) => Some(ToUser(row))
  }

  /** A created user is found by its email, with the generated id. */
  lemma CreateThenFind(s: Users, user: User, fails: bool)
    requires Create(s, user, fails).Created? && user.email.Some?
    ensures FindByEmail(Create(s, user, fails).users, user.email) == Some(Create(s, user, fails).user)
  {
    FindRowByEmailAppend(s.rows, UserRow(s.nextId, user.name, user.email, user.password));
  }

  lemma {:induction false} FindRowByEmailAppend(rows: seq<UserRow>, last: UserRow)
    requires last.email.Some?
    requires forall row :: row in rows ==> row.email != last.email
    ensures FindRowByEmail(rows + [last], last.email.value) == Some(last)
    decreases |rows|
  {
    if |rows| > 0 {
      assert (rows + [last])[1..] == rows[1..] + [last];
      FindRowByEmailAppend(rows[1..], last);
    }
  }

  /** Create keeps ids below the counter and emails unique. */
  lemma CreateKeepsWellFormed(s: Users, user: User, fails: bool)
    requires WellFormed(s)
    ensures WellFormed(Create(s, user, fails).users)
  {
    var out := Create(s, user, fails);
    if out.Created? {
      var rows := out.users.rows;
      forall i, j | 0 <= i < j < |rows| && rows[i].email.Some? ensures rows[i].email != rows[j].email {
        if j == |s.rows| {
          assert rows[i] in s.rows;
        }
      }
    }
  }
}
