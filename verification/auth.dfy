/**
 * Registration and login. Registration validates the body, hashes the
 * password, decides the approval flag and inserts one users row; login looks
 * the user up by name and decides between 400, 401, 403 and success in a
 * fixed order, answering with a view of the row that leaves out the hash.
 *
 * Password hashing and comparison are bcrypt's and are parameters here:
 * `hash` gives the stored form of a password (None when it throws) and
 * `matches` compares a password with a stored hash (None when it throws).
 */
module Auth {

  import opened Values
  import opened Http
  import opened Schema

  /** The fields of a `/register` body. */
  datatype RegisterRequest = RegisterRequest(
    username: Value, password: Value, role: Value, name: Value,
    department: Value, rollNumber: Value, section: Value)

  /** The body of a 201: whether the account waits for approval, and its id. */
  datatype Registered = Registered(needsApproval: bool, userId: nat)

  predicate RegisterComplete(req: RegisterRequest) {
    Truthy(req.username) && Truthy(req.password) && Truthy(req.role) && Truthy(req.name)
  }

  /**
   * The row the handler asks to insert: only a faculty account starts
   * unapproved, and a falsy roll number or section is stored as NULL while
   * the department is passed on as given.
   */
  function RegisterInsert(req: RegisterRequest, hashed: string): (u: UserInsert)
    ensures u.approved <==> req.role != Str("faculty")
    ensures !Truthy(req.rollNumber) ==> u.rollNumber == Null
    ensures !Truthy(req.section) ==> u.section == Null
    ensures Truthy(req.rollNumber) ==> u.rollNumber == req.rollNumber
    ensures Truthy(req.section) ==> u.section == req.section
    ensures u.username == req.username && u.password == hashed && u.role == req.role && u.name == req.name
    ensures u.department == req.department
  {
    UserInsert(req.username, hashed, req.role, req.name, req.department,
               Or(req.rollNumber, Null), Or(req.section, Null), req.role != Str("faculty"))
  }

  /** `POST /register` against the store `t`: the reply and the store afterwards. */
  function Register(t: Tables, req: RegisterRequest, hash: Value -> Option<string>)
    : (r: (Reply<Registered>, Tables))
    ensures !RegisterComplete(req) ==> r == (Error(BAD_REQUEST, "Missing required fields"), t)
    ensures r.0.Error? ==> r.1 == t
    ensures r.0.Ok? <==>
      && RegisterComplete(req) && hash(req.password).Some?
      && UserViolation(t.users, RegisterInsert(req, hash(req.password).value)).None?
    ensures r.0.Ok? ==>
      && r.0.code == CREATED
      && r.0.body.userId == t.lastUserId + 1
      && r.0.body.needsApproval == (req.role == Str("faculty"))
      && r.1 == t.(users := t.users + [NewUser(RegisterInsert(req, hash(req.password).value), r.0.body.userId)],
                   lastUserId := r.0.body.userId)
    ensures TablesValid(t) ==> TablesValid(r.1)
  {
    if !RegisterComplete(req) then (Error(BAD_REQUEST, "Missing required fields"), t)
    else match hash(req.password)
      case None => (Error(SERVER_ERROR, "Server error"), t)
      case Some(hashed) =>
        var (t', result) := InsertUser(t, RegisterInsert(req, hashed));
        match result
        case Inserted(id) => (Ok(CREATED, Registered(req.role == Str("faculty"), id)), t')
        case Rejected(Unique) => (Error(BAD_REQUEST, "Username already exists"), t')
        case Rejected(_) => (Error(SERVER_ERROR, "Registration failed"), t')
  }

  method RegisterRoute(db: Database, req: RegisterRequest, hash: Value -> Option<string>)
    returns (reply: Reply<Registered>)
    requires db.Valid()
    modifies db
    ensures db.Valid()
    ensures (reply, db.Snapshot()) == Register(old(db.Snapshot()), req, hash)
  {
    if !RegisterComplete(req) {
      return Error(BAD_REQUEST, "Missing required fields");
    }
    var hashed := hash(req.password);
    if hashed.None? {
      return Error(SERVER_ERROR, "Server error");
    }
    var result := db.RunUserInsert(RegisterInsert(req, hashed.value));
    match result {
      case Inserted(id) =>
        reply := Ok(CREATED, Registered(req.role == Str("faculty"), id));
      case Rejected(Unique) =>
        reply := Error(BAD_REQUEST, "Username already exists");
      case Rejected(_) =>
        reply := Error(SERVER_ERROR, "Registration failed");
    }
  }

  /** A name already in the table gives 400 "Username already exists" and changes nothing. */
  lemma RegisterDuplicate(t: Tables, req: RegisterRequest, hash: Value -> Option<string>)
    requires RegisterComplete(req) && hash(req.password).Some? && IsRole(BindText(req.role).value)
    requires UsernameTaken(t.users, BindText(req.username).value)
    ensures Register(t, req, hash) == (Error(BAD_REQUEST, "Username already exists"), t)
  {
  }

  /** Any other rejection of the insert (a role outside the CHECK) gives 500 "Registration failed". */
  lemma RegisterBadRole(t: Tables, req: RegisterRequest, hash: Value -> Option<string>)
    requires RegisterComplete(req) && hash(req.password).Some? && !IsRole(BindText(req.role).value)
    ensures Register(t, req, hash) == (Error(SERVER_ERROR, "Registration failed"), t)
  {
  }

  /** The fields login answers with: the users row without its password hash. */
  datatype UserView = UserView(
    id: nat, username: string, role: string, name: string,
    department: Option<string>, rollNumber: Option<string>, section: Option<string>)

  function View(u: User): (v: UserView)
    ensures v.id == u.id && v.username == u.username && v.role == u.role && v.name == u.name
    ensures v.department == u.department && v.rollNumber == u.rollNumber && v.section == u.section
  {
    UserView(u.id, u.username, u.role, u.name, u.department, u.rollNumber, u.section)
  }

  /** The view does not depend on the stored hash. */
  lemma ViewHidesPassword(u: User, p: string)
    ensures View(u.(password := p)) == View(u)
  {
  }

  /** `SELECT * FROM users WHERE username = ?` with `db.get`: the first matching row. */
  function FindUser(users: seq<User>, username: string): (r: Option<User>)
    ensures r.None? <==> !UsernameTaken(users, username)
    ensures r.Some? ==> r.value in users && r.value.username == username
  {
    if users == [] then None
    else if users[0].username == username then Some(users[0])
    else
      var r := FindUser(users[1..], username);
      assert forall i :: 0 < i < |users| ==> users[i] == users[1..][i - 1];
      r
  }

  /** A user appended under a name nobody had is the one a later lookup finds. */
  lemma {:induction false} FindAppended(users: seq<User>, u: User)
    requires !UsernameTaken(users, u.username)
    ensures FindUser(users + [u], u.username) == Some(u)
  {
    if users != [] {
      assert (users + [u])[1..] == users[1..] + [u];
      assert !UsernameTaken(users[1..], u.username) by {
        forall i | 0 <= i < |users[1..]| ensures users[1..][i].username != u.username {
          assert users[1..][i] == users[i + 1];
        }
      }
      FindAppended(users[1..], u);
    }
  }

  datatype LoginRequest = LoginRequest(username: Value, password: Value)

  /** `POST /login` against the users table. */
  function Login(users: seq<User>, req: LoginRequest, matches: (Value, string) -> Option<bool>)
    : (r: Reply<UserView>)
    ensures !Truthy(req.username) || !Truthy(req.password) ==>
              r == Error(BAD_REQUEST, "Username and password required")
    ensures Truthy(req.username) && Truthy(req.password) && !UsernameTaken(users, BindText(req.username).value) ==>
              r == Error(UNAUTHORIZED, "Invalid credentials")
    ensures Truthy(req.username) && Truthy(req.password) ==>
      forall u :: FindUser(users, BindText(req.username).value) == Some(u) ==>
        && (matches(req.password, u.password) == None ==> r == Error(SERVER_ERROR, "Server error"))
        && (matches(req.password, u.password) == Some(false) ==> r == Error(UNAUTHORIZED, "Invalid credentials"))
        && (matches(req.password, u.password) == Some(true) && u.role == "faculty" && !u.approved ==>
              r == Error(FORBIDDEN, "Account pending admin approval"))
        && (matches(req.password, u.password) == Some(true) && !(u.role == "faculty" && !u.approved) ==>
              r == Ok(OK, View(u)))
    ensures r.Ok? ==>
      && r.code == OK
      && exists i :: 0 <= i < |users| && users[i].username == BindText(req.username).value
           && r.body == View(users[i]) && matches(req.password, users[i].password) == Some(true)
           && !(users[i].role == "faculty" && !users[i].approved)
  {
    if !Truthy(req.username) || !Truthy(req.password) then Error(BAD_REQUEST, "Username and password required")
    else match FindUser(users, BindText(req.username).value)
      case None => Error(UNAUTHORIZED, "Invalid credentials")
      case Some(u) =>
        match matches(req.password, u.password)
        case None => Error(SERVER_ERROR, "Server error")
        case Some(false) => Error(UNAUTHORIZED, "Invalid credentials")
        case Some(true) =>
          if u.role == "faculty" && !u.approved then Error(FORBIDDEN, "Account pending admin approval")
          else Ok(OK, View(u))
  }

  /**
   * The password is checked before approval: an unapproved faculty account
   * gets 401 with a wrong password, the same answer as an unknown name, and
   * 403 only with the right one.
   */
  lemma LoginChecksPasswordFirst(users: seq<User>, req: LoginRequest, matches: (Value, string) -> Option<bool>, u: User)
    requires Truthy(req.username) && Truthy(req.password)
    requires FindUser(users, BindText(req.username).value) == Some(u)
    requires u.role == "faculty" && !u.approved
    ensures matches(req.password, u.password) == Some(false) ==>
              Login(users, req, matches) == Error(UNAUTHORIZED, "Invalid credentials")
    ensures matches(req.password, u.password) == Some(true) ==>
              Login(users, req, matches) == Error(FORBIDDEN, "Account pending admin approval")
  {
  }

  /**
   * Registering and then logging in with the same name and password
   * succeeds with the view of the new row, unless the account is a
   * faculty account, which gets 403 until it is approved.
   */
  lemma RegisterThenLogin(t: Tables, req: RegisterRequest, hash: Value -> Option<string>,
                          matches: (Value, string) -> Option<bool>)
    requires Register(t, req, hash).0.Ok?
    requires matches(req.password, hash(req.password).value) == Some(true)
    ensures var (reply, t') := Register(t, req, hash);
            var login := Login(t'.users, LoginRequest(req.username, req.password), matches);
            && (req.role != Str("faculty") ==> login == Ok(OK, View(t'.users[|t'.users| - 1])))
            && (req.role == Str("faculty") ==> login == Error(FORBIDDEN, "Account pending admin approval"))
            && t'.users[|t'.users| - 1].id == reply.body.userId
  {
    var (reply, t') := Register(t, req, hash);
    var u := NewUser(RegisterInsert(req, hash(req.password).value), reply.body.userId);
    assert t'.users == t.users + [u];
    FindAppended(t.users, u);
  }
}
