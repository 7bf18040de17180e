/**
 * Properties of the auth handlers that relate several calls: no password
 * reaches a response, the two login failures look alike, what register
 * stores login accepts, and sequences of registrations keep emails unique.
 */
module AuthProperties {
  import opened Wrappers
  import opened Users
  import opened Crypto
  import opened Auth

  // ---------------------------------------------------------------------
  // The password projection
  // ---------------------------------------------------------------------

  /** Strip forgets the password and nothing else: putting it back gives the record again. */
  lemma StripLosesOnlyPassword(u: UserRecord, other: string)
    ensures WithPassword(Strip(u), u.password) == u
    ensures Strip(u.(password := other)) == Strip(u)
  {
  }

  /** The profile response is the same whatever password hash the attached user carries. */
  lemma MeHidesPassword(u: UserRecord, other: string)
    ensures Me(u.(password := other)) == Me(u)
    ensures Me(u).user.value == Strip(u)
  {
  }

  /** The register response does not depend on the hasher: the hash is stored, never sent back. */
  lemma RegisterResponseIgnoresHasher(db: Db, req: RegisterRequest, h1: Hasher, h2: Hasher, env: Option<string>)
    ensures RegisterStep(db, req, h1, env).response == RegisterStep(db, req, h2, env).response
  {
  }

  /**
   * The login response depends on the stored hash only through whether the
   * password verifies against it.
   */
  lemma LoginIgnoresStoredHash(users: map<string, UserRecord>, req: LoginRequest, h: Hasher, env: Option<string>,
                               e: string, other: string)
    requires e in users
    requires Truthy(req.password) ==> h.verify(req.password.value, users[e].password) == h.verify(req.password.value, other)
    ensures Login(users, req, h, env) == Login(users[e := users[e].(password := other)], req, h, env)
  {
  }

  // ---------------------------------------------------------------------
  // Login
  // ---------------------------------------------------------------------

  /**
   * An unknown email and a wrong password get the same response: 401, no
   * user, no token, one message.
   */
  lemma LoginUniformFailure(unknown: map<string, UserRecord>, known: map<string, UserRecord>,
                            req: LoginRequest, h: Hasher, env: Option<string>)
    requires Truthy(req.email) && Truthy(req.password)
    requires req.email.value !in unknown
    requires req.email.value in known && !h.verify(req.password.value, known[req.email.value].password)
    ensures Login(unknown, req, h, env) == Login(known, req, h, env)
    ensures Login(known, req, h, env) == InvalidCredentials()
  {
  }

  /** In a valid table, the user a successful login returns is the one filed under the email asked for. */
  lemma LoginReturnsOwnEmail(db: Db, req: LoginRequest, h: Hasher, env: Option<string>)
    requires ValidDb(db)
    requires Login(db.users, req, h, env).status == 200
    ensures Login(db.users, req, h, env).user.value.email == req.email.value
  {
  }

  /** Login reads only the record of the email it is given. */
  lemma LoginDependsOnlyOnOwnRecord(users1: map<string, UserRecord>, users2: map<string, UserRecord>,
                                    req: LoginRequest, h: Hasher, env: Option<string>)
    requires Truthy(req.email)
    requires req.email.value in users1 <==> req.email.value in users2
    requires req.email.value in users1 ==> users1[req.email.value] == users2[req.email.value]
    ensures Login(users1, req, h, env) == Login(users2, req, h, env)
  {
  }

  // ---------------------------------------------------------------------
  // Register, then login
  // ---------------------------------------------------------------------

  /**
   * With a sound hasher, the credentials a successful register stored log
   * in: same user, same claims. The two tokens are signed with the same
   * secret exactly when JWT_SECRET is set to a non-empty value.
   */
  lemma RegisterThenLogin(db: Db, req: RegisterRequest, h: Hasher, env: Option<string>)
    requires Sound(h)
    requires RegisterAccepts(db, req)
    ensures var out := RegisterStep(db, req, h, env);
            var r := Login(out.db.users, LoginRequest(req.email, req.password), h, env);
            && r.status == 200
            && r.user == out.response.user
            && r.token.value.claims == out.response.token.value.claims
            && (r.token.value.secret == out.response.token.value.secret <==> Truthy(env))
  {
  }

  /** Without JWT_SECRET the register and login handlers sign with different fallbacks. */
  lemma FallbackSecretsDiffer(env: Option<string>)
    ensures SecretFor(env, RegisterFallbackSecret) == SecretFor(env, LoginFallbackSecret) <==> Truthy(env)
  {
  }

  /** The role default of the create call never applies: the stored role is the one requested. */
  lemma RegisterStoresRequestedRole(db: Db, req: RegisterRequest, h: Hasher, env: Option<string>)
    requires RegisterAccepts(db, req)
    ensures RegisterStep(db, req, h, env).db.users[req.email.value].role == RoleFrom(req.role.value).value
    ensures req.role.value == "USER" || req.role.value == "ADMIN"
  {
  }

  // ---------------------------------------------------------------------
  // Sequences of registrations
  // ---------------------------------------------------------------------

  /** Runs the register handler on each request in turn and collects the responses. */
  function RegisterAll(db: Db, reqs: seq<RegisterRequest>, h: Hasher, env: Option<string>): (out: (seq<Response>, Db))
    ensures |out.0| == |reqs|
    decreases |reqs|
  {
    if reqs == [] then ([], db)
    else
      var first := RegisterStep(db, reqs[0], h, env);
      var rest := RegisterAll(first.db, reqs[1..], h, env);
      ([first.response] + rest.0, rest.1)
  }

  /** The number of responses that report a created user. */
  function CountCreated(rs: seq<Response>): (n: nat)
    ensures n <= |rs|
  {
    if rs == [] then 0 else (if rs[0].status == 201 then 1 else 0) + CountCreated(rs[1..])
  }

  /** Every run of registrations keeps the table valid: emails and ids stay unique. */
  lemma {:induction false} RegisterAllValid(db: Db, reqs: seq<RegisterRequest>, h: Hasher, env: Option<string>)
    requires ValidDb(db)
    ensures ValidDb(RegisterAll(db, reqs, h, env).1)
    decreases |reqs|
  {
    if reqs != [] {
      RegisterAllValid(RegisterStep(db, reqs[0], h, env).db, reqs[1..], h, env);
    }
  }

  /** Records are never changed or removed by later registrations. */
  lemma {:induction false} RegisterAllKeepsRecords(db: Db, reqs: seq<RegisterRequest>, h: Hasher, env: Option<string>, e: string)
    requires e in db.users
    ensures e in RegisterAll(db, reqs, h, env).1.users
    ensures RegisterAll(db, reqs, h, env).1.users[e] == db.users[e]
    decreases |reqs|
  {
    if reqs != [] {
      RegisterAllKeepsRecords(RegisterStep(db, reqs[0], h, env).db, reqs[1..], h, env, e);
    }
  }

  /** The table grows by exactly one record per created response, and by nothing else. */
  lemma {:induction false} RegisterAllCount(db: Db, reqs: seq<RegisterRequest>, h: Hasher, env: Option<string>)
    ensures |RegisterAll(db, reqs, h, env).1.users| == |db.users| + CountCreated(RegisterAll(db, reqs, h, env).0)
    decreases |reqs|
  {
    if reqs != [] {
      var first := RegisterStep(db, reqs[0], h, env);
      RegisterAllCount(first.db, reqs[1..], h, env);
      var out := RegisterAll(db, reqs, h, env);
      assert out.0[1..] == RegisterAll(first.db, reqs[1..], h, env).0;
    }
  }

  /** A request for an email already in the table is never accepted, however late it comes. */
  lemma {:induction false} RegisterAllRejectsTaken(db: Db, reqs: seq<RegisterRequest>, h: Hasher, env: Option<string>,
                                                   e: string, j: nat)
    requires e in db.users
    requires j < |reqs| && reqs[j].email == Some(e)
    ensures RegisterAll(db, reqs, h, env).0[j].status == 400
    ensures RegisterFieldsPresent(reqs[j]) && RoleAccepted(reqs[j]) ==> RegisterAll(db, reqs, h, env).0[j] == DuplicateEmail()
    decreases |reqs|
  {
    var first := RegisterStep(db, reqs[0], h, env);
    if j > 0 {
      RegisterAllRejectsTaken(first.db, reqs[1..], h, env, e, j - 1);
    }
  }

  /**
   * Registering the same email twice: once one request in the run has been
   * accepted, every later request for that email is rejected, so the table
   * holds exactly one record for it.
   */
  lemma {:induction false} RegisterAllAcceptsEmailOnce(db: Db, reqs: seq<RegisterRequest>, h: Hasher, env: Option<string>,
                                                       i: nat, j: nat)
    requires i < j < |reqs|
    requires reqs[i].email == reqs[j].email
    requires RegisterAll(db, reqs, h, env).0[i].status == 201
    ensures RegisterAll(db, reqs, h, env).0[j].status == 400
    ensures RegisterFieldsPresent(reqs[j]) && RoleAccepted(reqs[j]) ==> RegisterAll(db, reqs, h, env).0[j] == DuplicateEmail()
    decreases |reqs|
  {
    var first := RegisterStep(db, reqs[0], h, env);
    if i > 0 {
      RegisterAllAcceptsEmailOnce(first.db, reqs[1..], h, env, i - 1, j - 1);
    } else {
      RegisterAllRejectsTaken(first.db, reqs[1..], h, env, reqs[0].email.value, j - 1);
    }
  }
}
