/** `POST /auth/register` and `POST /auth/login` of backend/routes/auth.js over a user table
    keyed by email (the table's unique `email` column). Password hashing, hash comparison and
    token signing come from libraries whose code is not part of this model; they are passed
    in as functions: `hash` for `bcrypt.hashSync`, `compare` for `bcrypt.compare` and `sign`
    for `jwt.sign` of the payload `{ userId }`. */
module AuthRoutes {
  import opened Js
  import opened ValidationSchemas
  import opened QuizSummary
  import opened QuizRoutes

  /** A row of the user table, with the stored (hashed) password. */
  datatype User = User(id: UserId, email: string, password: string, fullName: string, nickname: string)

  /** The user object a login returns: the row without its password. */
  datatype SafeUser = SafeUser(id: UserId, email: string, fullName: string, nickname: string)

  /** The body of a successful login: the signed token and the user. */
  datatype LoginReply = LoginReply(token: string, user: SafeUser)

  const FillAllFields := "Please fill in all the fields before registering!"
  const PasswordsDiffer := "Your passwords do not match!"
  const AlreadyRegistered := "You have registered this email before. Pleas log in!"
  const RegisterFailed := "Something went wrong, try again later!"
  const EmptyLoginFields := "You've left empty fields!"
  const NoSuchAccount := "An account with that email does not exist. Pleas register an account."
  const WrongPassword := "Your password is incorrect."

  /** `const { password, ...safeUser } = user`. */
  function WithoutPassword(u: User): SafeUser {
    SafeUser(u.id, u.email, u.fullName, u.nickname)
  }

  /** The row `prisma.user.create` stores for a registration: the password is hashed. */
  function NewUser(id: UserId, b: RegisterBody, hash: string -> string): User {
    User(id, b.email, hash(b.password), b.fullName, b.nickname)
  }

  /** The two checks of the register handler that need no database: any empty field is refused
      first, then two different passwords. */
  function RegisterRejection(b: RegisterBody): (r: Option<string>)
    ensures r.None? <==> (b.email != "" && b.password != "" && b.fullName != "" && b.nickname != ""
                          && b.passwordRepeat != "" && b.password == b.passwordRepeat)
    ensures r == Some(FillAllFields) <==>
      b.email == "" || b.password == "" || b.fullName == "" || b.nickname == "" || b.passwordRepeat == ""
    ensures r.Some? ==> r.value == FillAllFields || r.value == PasswordsDiffer
  {
    if b.email == "" || b.password == "" || b.fullName == "" || b.nickname == "" || b.passwordRepeat == "" then
      Some(FillAllFields)
    else if b.password != b.passwordRepeat then Some(PasswordsDiffer)
    else None
  }

  /** Every row is filed under its own email, ids are distinct, and all lie below the next id
      the database hands out. */
  predicate TableValid(users: map<string, User>, nextId: UserId) {
    && (forall e | e in users :: users[e].email == e && users[e].id < nextId)
    && (forall e, f | e in users && f in users && e != f :: users[e].id != users[f].id)
  }

  /** Behind the register schema, with a `z.email()` that refuses "", the empty-field check
      never fires; only the password mismatch remains. */
  lemma SchemaValidRegisterRejection(b: RegisterBody, isEmail: string -> bool)
    requires RegisterSchemaValid(b, isEmail) && !isEmail("")
    ensures RegisterRejection(b).None? <==> b.password == b.passwordRepeat
    ensures RegisterRejection(b) != Some(FillAllFields)
  {
    RegisterSchemaNonEmpty(b, isEmail);
  }

  class UserTable {
    var users: map<string, User>
    var nextId: UserId

    ghost predicate Valid()
      reads this
    {
      TableValid(users, nextId)
    }

    constructor ()
      ensures users == map[] && nextId == 1 && Valid()
    {
      users := map[];
      nextId := 1;
    }

    /** The register handler. Every refusal leaves the table alone; a success adds exactly one
        row, under the given email, holding the hashed password. `databaseUp` stands for the
        database and hashing calls completing without an exception. */
    method Register(b: RegisterBody, hash: string -> string, databaseUp: bool) returns (resp: Response<string>)
      requires Valid()
      modifies this
      ensures Valid()
      ensures RegisterRejection(b).Some? ==>
        resp == Failure(400, RegisterRejection(b).value) && users == old(users) && nextId == old(nextId)
      ensures RegisterRejection(b).None? && b.email in old(users) ==>
        resp == Failure(409, AlreadyRegistered) && users == old(users) && nextId == old(nextId)
      ensures RegisterRejection(b).None? && b.email !in old(users) && !databaseUp ==>
        resp == Failure(500, RegisterFailed) && users == old(users) && nextId == old(nextId)
      ensures RegisterRejection(b).None? && b.email !in old(users) && databaseUp ==>
        && resp == Ok(201, "Your account has been created with " + b.email)
        && users == old(users)[b.email := NewUser(old(nextId), b, hash)]
        && |users| == |old(users)| + 1
        && nextId == old(nextId) + 1
    {
      var rejection := RegisterRejection(b);
      if rejection.Some? {
        return Failure(400, rejection.value);
      }
      if b.email in users {
        return Failure(409, AlreadyRegistered);
      }
      if !databaseUp {
        return Failure(500, RegisterFailed);
      }
      var row := NewUser(nextId, b, hash);
      users := users[b.email := row];
      nextId := nextId + 1;
      resp := Ok(201, "Your account has been created with " + b.email);
    }

    /** The login handler. It reads the table and changes nothing. */
    function Login(b: LoginBody, compare: (string, string) -> bool, sign: UserId -> string): (resp: Response<LoginReply>)
      reads this
      ensures resp.Ok? <==> (b.email != "" && b.password != "" && b.email in users
                             && compare(b.password, users[b.email].password))
      ensures resp.Ok? ==> resp == Ok(200, LoginReply(sign(users[b.email].id), WithoutPassword(users[b.email])))
      ensures resp.Failure? ==> resp.status == if b.email == "" || b.password == "" then 400 else 401
      ensures b.email == "" || b.password == "" ==> resp == Failure(400, EmptyLoginFields)
      ensures b.email != "" && b.password != "" && b.email !in users ==> resp == Failure(401, NoSuchAccount)
      ensures b.email != "" && b.password != "" && b.email in users && !compare(b.password, users[b.email].password)
        ==> resp == Failure(401, WrongPassword)
    {
      if b.email == "" || b.password == "" then Failure(400, EmptyLoginFields)
      else if b.email !in users then Failure(401, NoSuchAccount)
      else
        var u := users[b.email];
        if !compare(b.password, u.password) then Failure(401, WrongPassword)
        else Ok(200, LoginReply(sign(u.id), WithoutPassword(u)))
    }
  }

  /** Right after a registration, logging in with the same email and password yields a token
      for the new id and the new user without its password, provided the comparison accepts
      a password against its own hash. */
  lemma LoginAfterRegister(t: UserTable, b: RegisterBody, id: UserId, hash: string -> string,
                           compare: (string, string) -> bool, sign: UserId -> string)
    requires RegisterRejection(b).None?
    requires b.email in t.users && t.users[b.email] == NewUser(id, b, hash)
    requires compare(b.password, hash(b.password))
    ensures t.Login(LoginBody(b.email, b.password), compare, sign)
      == Ok(200, LoginReply(sign(id), SafeUser(id, b.email, b.fullName, b.nickname)))
  {
  }

  /** In a valid table two logins that succeed for different emails carry different user ids,
      so different accounts never receive the payload of the same user. */
  lemma LoginsDistinguishUsers(t: UserTable, b1: LoginBody, b2: LoginBody, compare: (string, string) -> bool,
                               sign: UserId -> string)
    requires TableValid(t.users, t.nextId)
    requires t.Login(b1, compare, sign).Ok? && t.Login(b2, compare, sign).Ok? && b1.email != b2.email
    ensures t.Login(b1, compare, sign).value.user.id != t.Login(b2, compare, sign).value.user.id
  {
  }
}
