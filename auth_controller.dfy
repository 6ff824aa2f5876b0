/**
 * Account handlers of the user controller: registration (with the admin
 * flag granted by a shared secret), login, profile update and the user
 * directory, which never lists the requester.
 */
module AuthController {
  import opened Common
  import opened Store

  datatype RegisterBody = RegisterBody(
    name: Option<string>,
    email: Option<string>,
    password: Option<string>,
    pic: Option<string>,
    secretKey: Option<string>)

  datatype ProfileBody = ProfileBody(
    name: Option<string>,
    email: Option<string>,
    pic: Option<string>,
    password: Option<string>)

  /** Missing fields are reported before a duplicate email is looked for. */
  function RegisterUserCheck(body: RegisterBody, users: map<Id, User>): (r: Check)
    ensures !(Truthy(body.name) && Truthy(body.email) && Truthy(body.password)) <==>
      r == Reject(400, "Please Enter all the Fields")
    ensures r == Reject(400, "User already exists") <==>
      Truthy(body.name) && Truthy(body.email) && Truthy(body.password) && EmailTaken(users, body.email.value)
    ensures r.Pass? <==>
      Truthy(body.name) && Truthy(body.email) && Truthy(body.password) && !EmailTaken(users, body.email.value)
  {
    if !Truthy(body.name) || !Truthy(body.email) || !Truthy(body.password) then
      Reject(400, "Please Enter all the Fields")
    else if FindUserByEmail(users, body.email).Some? then
      Reject(400, "User already exists")
    else Pass
  }

  /** The new account is an admin exactly when a non-empty secret equal to the configured one is sent. */
  function AdminFlag(secretKey: Option<string>, adminSecret: Option<string>): (r: bool)
    ensures r <==> Truthy(secretKey) && adminSecret == secretKey
    ensures adminSecret.None? ==> !r
  {
    Truthy(secretKey) && secretKey == adminSecret
  }

  /** The account `registerUser` stores for an accepted request. */
  function NewUser(body: RegisterBody, adminSecret: Option<string>): User
    requires Truthy(body.name) && Truthy(body.email) && Truthy(body.password)
  {
    User(body.name.value, body.email.value, body.password.value, body.pic,
         AdminFlag(body.secretKey, adminSecret), false, None)
  }

  /** A second registration with the same email is refused. */
  lemma RegisterTwiceRefused(body: RegisterBody, users: map<Id, User>, adminSecret: Option<string>, id: Id)
    requires RegisterUserCheck(body, users).Pass?
    ensures RegisterUserCheck(body, users[id := NewUser(body, adminSecret)]) == Reject(400, "User already exists")
  {
    var after := users[id := NewUser(body, adminSecret)];
    assert after[id].email == body.email.value;
  }

  method RegisterUser(db: Db, body: RegisterBody, adminSecret: Option<string>) returns (r: Response<Id>)
    requires db.Valid()
    modifies db
    ensures db.Valid()
    ensures unchanged(db`admins, db`posts, db`chats, db`messages)
    ensures RegisterUserCheck(body, old(db.users)).Reject? ==>
      && r == Err(RegisterUserCheck(body, old(db.users)).status, RegisterUserCheck(body, old(db.users)).message)
      && db.users == old(db.users) && db.nextId == old(db.nextId)
    ensures RegisterUserCheck(body, old(db.users)).Pass? ==>
      && r == Ok(201, old(db.nextId))
      && old(db.nextId) !in old(db.users)
      && db.users == old(db.users)[old(db.nextId) := NewUser(body, adminSecret)]
  {
    var check := RegisterUserCheck(body, db.users);
    if check.Reject? {
      return Err(check.status, check.message);
    }
    var isAdmin := false;
    if Truthy(body.secretKey) && body.secretKey == adminSecret {
      isAdmin := true;
    }
    var id := db.NewId();
    db.users := db.users[id := User(body.name.value, body.email.value, body.password.value, body.pic, isAdmin, false, None)];
    r := Ok(201, id);
  }

  /**
   * Login of the user controller. `matches(stored, candidate)` stands for the
   * account's password comparison.
   */
  function AuthUser(users: map<Id, User>, body: LoginBody, matches: (string, Option<string>) -> bool): (r: Response<Id>)
    ensures r.Ok? <==> exists id :: id in users && FindUserByEmail(users, body.email) == Some(id) && matches(users[id].password, body.password)
    ensures r.Ok? ==> r.status == 200 && r.body in users && Some(users[r.body].email) == body.email
    ensures r.Err? ==> r == Err(401, "Invalid Email or Password")
  {
    var found := FindUserByEmail(users, body.email);
    if found.Some? && matches(users[found.value].password, body.password) then Ok(200, found.value)
    else Err(401, "Invalid Email or Password")
  }

  /** An unknown email is refused whatever the password comparison says. */
  lemma UnknownEmailRefused(users: map<Id, User>, body: LoginBody, matches: (string, Option<string>) -> bool)
    requires forall id :: id in users ==> Some(users[id].email) != body.email
    ensures AuthUser(users, body, matches) == Err(401, "Invalid Email or Password")
  {
  }

  /** Each of name, email and pic is replaced by a truthy new value and kept otherwise; the password likewise. */
  function MergeProfile(u: User, body: ProfileBody): (r: User)
    ensures Truthy(body.name) ==> r.name == body.name.value
    ensures !Truthy(body.name) ==> r.name == u.name
    ensures Truthy(body.email) ==> r.email == body.email.value
    ensures !Truthy(body.email) ==> r.email == u.email
    ensures Truthy(body.pic) ==> r.pic == body.pic
    ensures !Truthy(body.pic) ==> r.pic == u.pic
    ensures Truthy(body.password) ==> r.password == body.password.value
    ensures !Truthy(body.password) ==> r.password == u.password
    ensures r.isAdmin == u.isAdmin && r.isOnline == u.isOnline && r.lastSeen == u.lastSeen
  {
    var name := OrElse(body.name, u.name);
    var email := OrElse(body.email, u.email);
    var pic := if Truthy(body.pic) then body.pic else u.pic;
    var password := if Truthy(body.password) then body.password.value else u.password;
    u.(name := name, email := email, pic := pic, password := password)
  }

  /** Sending the same profile update twice has the effect of sending it once. */
  lemma MergeProfileIdempotent(u: User, body: ProfileBody)
    ensures MergeProfile(MergeProfile(u, body), body) == MergeProfile(u, body)
  {
  }

  /** An update that supplies nothing truthy leaves the account as it was. */
  lemma EmptyProfileKeepsUser(u: User, body: ProfileBody)
    requires !Truthy(body.name) && !Truthy(body.email) && !Truthy(body.pic) && !Truthy(body.password)
    ensures MergeProfile(u, body) == u
  {
  }

  method UpdateUserProfile(db: Db, me: Id, body: ProfileBody) returns (r: Response<User>)
    requires db.Valid()
    modifies db
    ensures db.Valid()
    ensures unchanged(db`admins, db`posts, db`chats, db`messages, db`nextId)
    ensures me !in old(db.users) ==> r == Err(404, "User Not Found") && db.users == old(db.users)
    ensures me in old(db.users) ==>
      var updated := MergeProfile(old(db.users)[me], body);
      r == Ok(200, updated) && db.users == old(db.users)[me := updated]
  {
    if me !in db.users {
      return Err(404, "User Not Found");
    }
    var user := db.users[me];
    user := user.(name := OrElse(body.name, user.name));
    user := user.(email := OrElse(body.email, user.email));
    user := user.(pic := if Truthy(body.pic) then body.pic else user.pic);
    if Truthy(body.password) {
      user := user.(password := body.password.value);
    }
    db.users := db.users[me := user];
    r := Ok(200, user);
  }

  /**
   * The user directory: every user other than the requester; with a
   * truthy `search`, only those `matchesSearch` accepts (the case-insensitive
   * name-or-email pattern match).
   */
  function AllUsers(users: map<Id, User>, me: Id, search: Option<string>, matchesSearch: (User, string) -> bool): (r: seq<Id>)
    ensures me !in r
    ensures forall id :: id in r <==>
      id in users && id != me && (!Truthy(search) || matchesSearch(users[id], search.value))
    ensures forall i, j :: 0 <= i < j < |r| ==> r[i] < r[j]
  {
    InNaturalOrder(set id | id in users && id != me && (!Truthy(search) || matchesSearch(users[id], search.value)))
  }
}
