/**
 * The signup, login and logout routes. Unlike the user controller, login
 * here marks the account online and logout marks it offline, each stamping
 * `lastSeen` with the current time.
 */
module AuthRoutes {
  import opened Common
  import opened Store

  datatype SignupBody = SignupBody(name: Option<string>, email: Option<string>, password: Option<string>)

  /** Missing fields first, then the password length, then a duplicate email. */
  function SignupCheck(body: SignupBody, users: map<Id, User>): (r: Check)
    ensures !(Truthy(body.name) && Truthy(body.email) && Truthy(body.password)) <==>
      r == Reject(400, "Please provide all required fields")
    ensures r == Reject(400, "Password must be at least 6 characters") <==>
      Truthy(body.name) && Truthy(body.email) && Truthy(body.password) && |body.password.value| < 6
    ensures r == Reject(400, "User already exists with this email") <==>
      && Truthy(body.name) && Truthy(body.email) && Truthy(body.password) && |body.password.value| >= 6
      && EmailTaken(users, body.email.value)
    ensures r.Pass? <==>
      && Truthy(body.name) && Truthy(body.email) && Truthy(body.password) && |body.password.value| >= 6
      && !EmailTaken(users, body.email.value)
  {
    if !Truthy(body.name) || !Truthy(body.email) || !Truthy(body.password) then
      Reject(400, "Please provide all required fields")
    else if |body.password.value| < 6 then
      Reject(400, "Password must be at least 6 characters")
    else if FindUserByEmail(users, body.email).Some? then
      Reject(400, "User already exists with this email")
    else Pass
  }

  method Signup(db: Db, body: SignupBody) returns (r: Response<Id>)
    requires db.Valid()
    modifies db
    ensures db.Valid()
    ensures unchanged(db`admins, db`posts, db`chats, db`messages)
    ensures SignupCheck(body, old(db.users)).Reject? ==>
      && r == Err(400, SignupCheck(body, old(db.users)).message)
      && db.users == old(db.users) && db.nextId == old(db.nextId)
    ensures SignupCheck(body, old(db.users)).Pass? ==>
      && r == Ok(201, old(db.nextId))
      && old(db.nextId) !in old(db.users)
      && db.users == old(db.users)[old(db.nextId) :=
           User(body.name.value, body.email.value, body.password.value, None, false, false, None)]
  {
    var check := SignupCheck(body, db.users);
    if check.Reject? {
      return Err(check.status, check.message);
    }
    var id := db.NewId();
    db.users := db.users[id := User(body.name.value, body.email.value, body.password.value, None, false, false, None)];
    r := Ok(201, id);
  }

  /**
   * The login decision. An unknown email and a wrong password give the same
   * reply, so a caller cannot tell which one it was.
   */
  function LoginDecision(users: map<Id, User>, body: LoginBody, matches: (string, Option<string>) -> bool): (r: Response<Id>)
    ensures r == Err(400, "Please provide email and password") <==> !Truthy(body.email) || !Truthy(body.password)
    ensures r.Ok? <==>
      && Truthy(body.email) && Truthy(body.password)
      && exists id :: id in users && FindUserByEmail(users, body.email) == Some(id) && matches(users[id].password, body.password)
    ensures r.Ok? ==> r.status == 200 && r.body in users && Some(users[r.body].email) == body.email
    ensures r.Err? && Truthy(body.email) && Truthy(body.password) ==> r == Err(401, "Invalid email or password")
  {
    if !Truthy(body.email) || !Truthy(body.password) then Err(400, "Please provide email and password")
    else
      var found := FindUserByEmail(users, body.email);
      if found.None? then Err(401, "Invalid email or password")
      else if !matches(users[found.value].password, body.password) then Err(401, "Invalid email or password")
      else Ok(200, found.value)
  }

  /** A successful login marks the account online as of `now`; a refused one changes no account. */
  method Login(db: Db, body: LoginBody, matches: (string, Option<string>) -> bool, now: Time) returns (r: Response<Id>)
    requires db.Valid()
    modifies db
    ensures db.Valid()
    ensures unchanged(db`admins, db`posts, db`chats, db`messages, db`nextId)
    ensures r == LoginDecision(old(db.users), body, matches)
    ensures r.Err? ==> db.users == old(db.users)
    ensures r.Ok? ==> db.users == old(db.users)[r.body := old(db.users)[r.body].(isOnline := true, lastSeen := Some(now))]
  {
    if !Truthy(body.email) || !Truthy(body.password) {
      return Err(400, "Please provide email and password");
    }
    var found := FindUserByEmail(db.users, body.email);
    if found.None? {
      return Err(401, "Invalid email or password");
    }
    var user := db.users[found.value];
    if !matches(user.password, body.password) {
      return Err(401, "Invalid email or password");
    }
    user := user.(isOnline := true, lastSeen := Some(now));
    db.users := db.users[found.value := user];
    r := Ok(200, found.value);
  }

  /**
   * Marks the requester offline as of `now`. A requester whose account no
   * longer exists makes the handler dereference a missing record, which ends
   * in its generic server error.
   */
  method Logout(db: Db, me: Id, now: Time) returns (r: Response<string>)
    requires db.Valid()
    modifies db
    ensures db.Valid()
    ensures unchanged(db`admins, db`posts, db`chats, db`messages, db`nextId)
    ensures me !in old(db.users) ==> r == Err(500, "Server error during logout") && db.users == old(db.users)
    ensures me in old(db.users) ==>
      && r == Ok(200, "Logged out successfully")
      && db.users == old(db.users)[me := old(db.users)[me].(isOnline := false, lastSeen := Some(now))]
  {
    if me !in db.users {
      return Err(500, "Server error during logout");
    }
    var user := db.users[me];
    user := user.(isOnline := false, lastSeen := Some(now));
    db.users := db.users[me := user];
    r := Ok(200, "Logged out successfully");
  }
}
