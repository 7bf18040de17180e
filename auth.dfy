/**
 * The register, login and profile handlers of the auth router, with the
 * JSON envelope they send back.
 */
module Auth {
  import opened Wrappers
  import opened Users
  import opened Crypto

  /** The body of a register request. `None` is a field that is not there. */
  datatype RegisterRequest = RegisterRequest(name: Option<string>, email: Option<string>, password: Option<string>, role: Option<string>)

  /** The body of a login request. */
  datatype LoginRequest = LoginRequest(email: Option<string>, password: Option<string>)

  /** The JSON envelope of every response, with its HTTP status. */
  datatype Response = Response(status: nat, success: bool, message: Option<string>, user: Option<PublicUser>, token: Option<Token>)

  /** JavaScript truthiness of a string field: present and not empty. */
  predicate Truthy(f: Option<string>) {
    f.Some? && f.value != ""
  }

  const MissingRegisterFieldsMessage: string := "name, email, role, and password are required"
  const InvalidRoleMessage: string := "role must be either USER or ADMIN"
  const DuplicateEmailMessage: string := "User with this email already exists"
  const RegisteredMessage: string := "User registered successfully"
  const MissingLoginFieldsMessage: string := "Email and password are required"
  const InvalidCredentialsMessage: string := "Invalid email or password"
  const LoggedInMessage: string := "Login successful"

  function Failure(status: nat, message: string): Response {
    Response(status, false, Some(message), None, None)
  }

  function MissingRegisterFields(): Response { Failure(400, MissingRegisterFieldsMessage) }
  function InvalidRole(): Response { Failure(400, InvalidRoleMessage) }
  function DuplicateEmail(): Response { Failure(400, DuplicateEmailMessage) }
  function MissingLoginFields(): Response { Failure(400, MissingLoginFieldsMessage) }
  function InvalidCredentials(): Response { Failure(401, InvalidCredentialsMessage) }

  /** All four register fields are truthy (the check at line 16 of the handler). */
  predicate RegisterFieldsPresent(req: RegisterRequest) {
    Truthy(req.name) && Truthy(req.email) && Truthy(req.password) && Truthy(req.role)
  }

  /** The role named by a register request is one the handler accepts. */
  predicate RoleAccepted(req: RegisterRequest)
    requires RegisterFieldsPresent(req)
  {
    RoleFrom(req.role.value).Some?
  }

  /** The request passes every check of the register handler against `db`. */
  predicate RegisterAccepts(db: Db, req: RegisterRequest) {
    RegisterFieldsPresent(req) && RoleAccepted(req) && req.email.value !in db.users
  }

  /** A register response together with the table it leaves behind. */
  datatype Outcome = Outcome(response: Response, db: Db)

  /**
   * The register handler on values: the decision ladder of missing fields,
   * unknown role and taken email, and otherwise one insertion.
   */
  function RegisterStep(db: Db, req: RegisterRequest, h: Hasher, env: Option<string>): (out: Outcome)
    ensures out.response == MissingRegisterFields() <==> !RegisterFieldsPresent(req)
    ensures out.response == InvalidRole() <==> RegisterFieldsPresent(req) && !RoleAccepted(req)
    ensures out.response == DuplicateEmail() <==>
              RegisterFieldsPresent(req) && RoleAccepted(req) && req.email.value in db.users
    ensures out.response.status == 201 <==> RegisterAccepts(db, req)
    ensures out.response.status == 400 || out.response.status == 201
    ensures out.response.status != 201 ==> out.db == db
    ensures out.response.status == 201 ==>
              var e := req.email.value;
              && e in out.db.users
              && out.db.users == db.users[e := out.db.users[e]]
              && out.db.nextId == db.nextId + 1
              && |out.db.users| == |db.users| + 1
              && out.db.users[e] == UserRecord(db.nextId, req.name.value, e, h.hash(req.password.value), RoleFrom(req.role.value).value)
              && out.response.success
              && out.response.message == Some(RegisteredMessage)
              && out.response.user == Some(Strip(out.db.users[e]))
              && out.response.token == Some(Token(Claims(db.nextId, out.db.users[e].role), SecretFor(env, RegisterFallbackSecret)))
    ensures ValidDb(db) ==> ValidDb(out.db)
  {
    if !RegisterFieldsPresent(req) then Outcome(MissingRegisterFields(), db)
    else if !RoleAccepted(req) then Outcome(InvalidRole(), db)
    else if req.email.value in db.users then Outcome(DuplicateEmail(), db)
    else
      var role := if Truthy(req.role) then RoleFrom(req.role.value).value else User;
      var newUser := UserRecord(db.nextId, req.name.value, req.email.value, h.hash(req.password.value), role);
      var token := Sign(Claims(newUser.id, newUser.role), SecretFor(env, RegisterFallbackSecret));
      Outcome(Response(201, true, Some(RegisteredMessage), Some(Strip(newUser)), Some(token)),
              Db(db.users[req.email.value := newUser], db.nextId + 1))
  }

  /** The login request names a stored user and its password verifies against the stored hash. */
  predicate Authenticates(users: map<string, UserRecord>, req: LoginRequest, h: Hasher) {
    && Truthy(req.email) && Truthy(req.password)
    && req.email.value in users
    && h.verify(req.password.value, users[req.email.value].password)
  }

  /**
   * The login handler: it only reads the table. An unknown email and a
   * wrong password get the one response `InvalidCredentials()`.
   */
  function Login(users: map<string, UserRecord>, req: LoginRequest, h: Hasher, env: Option<string>): (r: Response)
    ensures r == MissingLoginFields() <==> !Truthy(req.email) || !Truthy(req.password)
    ensures r == InvalidCredentials() <==>
              Truthy(req.email) && Truthy(req.password) && !Authenticates(users, req, h)
    ensures r.status == 200 <==> Authenticates(users, req, h)
    ensures r.status == 200 || r.status == 400 || r.status == 401
    ensures r.success <==> r.status == 200
    ensures r.status != 200 ==> r.user.None? && r.token.None?
    ensures r.status == 200 ==>
              var u := users[req.email.value];
              && r.message == Some(LoggedInMessage)
              && r.user == Some(Strip(u))
              && r.token == Some(Token(Claims(u.id, u.role), SecretFor(env, LoginFallbackSecret)))
  {
    if !Truthy(req.email) || !Truthy(req.password) then MissingLoginFields()
    else if req.email.value !in users then InvalidCredentials()
    else
      var user := users[req.email.value];
      if !h.verify(req.password.value, user.password) then InvalidCredentials()
      else
        var token := Sign(Claims(user.id, user.role), SecretFor(env, LoginFallbackSecret));
        Response(200, true, Some(LoggedInMessage), Some(Strip(user)), Some(token))
  }

  /** The profile handler: the user the authentication middleware attached, without its password. */
  function Me(current: UserRecord): (r: Response)
    ensures r.status == 200 && r.success
    ensures r.user == Some(Strip(current)) && r.token.None? && r.message.None?
  {
    Response(200, true, None, Some(Strip(current)), None)
  }

  /** The user table the register handler writes to. */
  class UserTable {
    var users: map<string, UserRecord>
    var nextId: nat

    function Snapshot(): Db
      reads this
    {
      Db(users, nextId)
    }

    predicate Valid()
      reads this
    {
      ValidDb(Snapshot())
    }

    constructor (firstId: nat)
      ensures Valid() && users == map[] && nextId == firstId
    {
      users := map[];
      nextId := firstId;
    }

    /**
     * The register handler: validate, look the email up, and otherwise
     * hash the password and insert one record.
     */
    method Register(req: RegisterRequest, h: Hasher, env: Option<string>) returns (r: Response)
      requires Valid()
      modifies this
      ensures Valid()
      ensures Outcome(r, Snapshot()) == RegisterStep(old(Snapshot()), req, h, env)
      ensures r.status != 201 ==> users == old(users) && nextId == old(nextId)
      ensures r.status == 201 ==>
                var e := req.email.value;
                && e !in old(users) && e in users
                && users == old(users)[e := users[e]]
                && users[e].password == h.hash(req.password.value)
                && r.user == Some(Strip(users[e]))
    {
      if !Truthy(req.name) || !Truthy(req.email) || !Truthy(req.password) || !Truthy(req.role) {
        return MissingRegisterFields();
      }
      if Truthy(req.role) && RoleFrom(req.role.value).None? {
        return InvalidRole();
      }
      var email := req.email.value;
      if email in users {
        return DuplicateEmail();
      }
      var hashedPassword := h.hash(req.password.value);
      var role := User;
      if Truthy(req.role) {
        role := RoleFrom(req.role.value).value;
      }
      var newUser := UserRecord(nextId, req.name.value, email, hashedPassword, role);
      users := users[email := newUser];
      nextId := nextId + 1;
      var token := Sign(Claims(newUser.id, newUser.role), SecretFor(env, RegisterFallbackSecret));
      r := Response(201, true, Some(RegisteredMessage), Some(Strip(newUser)), Some(token));
    }
  }
}
