/**
 * The user table as the auth routes see it: one record per user, keyed by
 * email, with a store-assigned id. The ORM (Prisma) is modelled by the map
 * alone.
 */
module Users {
  import opened Wrappers

  /** The two roles the register handler accepts. */
  datatype Role = User | Admin

  /** The role named by a request string; `["USER", "ADMIN"].includes(role)` is exact string equality. */
  function RoleFrom(s: string): (r: Option<Role>)
    ensures r == Some(User) <==> s == "USER"
    ensures r == Some(Admin) <==> s == "ADMIN"
    ensures r.None? <==> s != "USER" && s != "ADMIN"
  {
    if s == "USER" then Some(User)
    else if s == "ADMIN" then Some(Admin)
    else None
  }

  /** A stored user; `password` holds the hash, never the clear text. */
  datatype UserRecord = UserRecord(id: nat, name: string, email: string, password: string, role: Role)

  /** What leaves the server about a user: every field but the password. */
  datatype PublicUser = PublicUser(id: nat, name: string, email: string, role: Role)

  /**
   * Object-rest removal of the password field (`const { password, ...rest } = user`),
   * which is also what the `select` of `prisma.user.create` returns.
   */
  function Strip(u: UserRecord): (p: PublicUser)
    ensures WithPassword(p, u.password) == u
  {
    PublicUser(u.id, u.name, u.email, u.role)
  }

  /** Puts a password hash back on a public view; used only to state that Strip loses nothing else. */
  function WithPassword(p: PublicUser, hash: string): (u: UserRecord)
    ensures u.password == hash
  {
    UserRecord(p.id, p.name, p.email, hash, p.role)
  }

  /** The table: records keyed by email, and the next id the store will hand out. */
  datatype Db = Db(users: map<string, UserRecord>, nextId: nat)

  /**
   * What the table keeps: every record is filed under its own email (so
   * emails are unique), every id was handed out before `nextId`, and no
   * two records share an id.
   */
  predicate ValidDb(db: Db) {
    && (forall e :: e in db.users ==> db.users[e].email == e && db.users[e].id < db.nextId)
    && (forall e1, e2 :: e1 in db.users && e2 in db.users && db.users[e1].id == db.users[e2].id ==> e1 == e2)
  }
}
