/**
 * The admin console: admin registration guarded by the shared secret,
 * admin login, the dashboard counters, the user listing, and removal of
 * users and posts.
 */
module AdminController {
  import opened Common
  import opened Store
  import AuthController

  datatype AdminBody = AdminBody(
    name: Option<string>,
    email: Option<string>,
    password: Option<string>,
    pic: Option<string>,
    secretKey: Option<string>)

  predicate AllFields(body: AdminBody) {
    Truthy(body.name) && Truthy(body.email) && Truthy(body.password) && Truthy(body.secretKey)
  }

  predicate AdminEmailTaken(admins: map<Id, Admin>, email: string) {
    exists id :: id in admins && admins[id].email == email
  }

  /** Missing fields, then a wrong secret, then a duplicate email. */
  function RegisterAdminCheck(body: AdminBody, adminSecret: Option<string>, admins: map<Id, Admin>): (r: Check)
    ensures !AllFields(body) <==> r == Reject(400, "Please Enter all the Fields")
    ensures r == Reject(401, "Invalid Admin Secret") <==> AllFields(body) && body.secretKey != adminSecret
    ensures r == Reject(400, "Admin already exists") <==>
      AllFields(body) && body.secretKey == adminSecret && AdminEmailTaken(admins, body.email.value)
    ensures r.Pass? <==>
      AllFields(body) && body.secretKey == adminSecret && !AdminEmailTaken(admins, body.email.value)
  {
    if !AllFields(body) then Reject(400, "Please Enter all the Fields")
    else if body.secretKey != adminSecret then Reject(401, "Invalid Admin Secret")
    else if FindAdminByEmail(admins, body.email).Some? then Reject(400, "Admin already exists")
    else Pass
  }

  /** With no secret configured, no admin can ever register. */
  lemma NoSecretNoAdmins(body: AdminBody, admins: map<Id, Admin>)
    ensures !RegisterAdminCheck(body, None, admins).Pass?
  {
  }

  function NewAdmin(body: AdminBody): Admin
    requires AllFields(body)
  {
    Admin(body.name.value, body.email.value, body.password.value, body.pic)
  }

  /** Registering the same admin twice: the second attempt is refused as a duplicate. */
  lemma RegisterAdminTwiceRefused(body: AdminBody, adminSecret: Option<string>, admins: map<Id, Admin>, id: Id)
    requires RegisterAdminCheck(body, adminSecret, admins).Pass?
    ensures RegisterAdminCheck(body, adminSecret, admins[id := NewAdmin(body)]) == Reject(400, "Admin already exists")
  {
    assert admins[id := NewAdmin(body)][id].email == body.email.value;
  }

  method RegisterAdmin(db: Db, body: AdminBody, adminSecret: Option<string>) returns (r: Response<Id>)
    requires db.Valid()
    modifies db
    ensures db.Valid()
    ensures unchanged(db`users, db`posts, db`chats, db`messages)
    ensures RegisterAdminCheck(body, adminSecret, old(db.admins)).Reject? ==>
      && r == Err(RegisterAdminCheck(body, adminSecret, old(db.admins)).status,
                  RegisterAdminCheck(body, adminSecret, old(db.admins)).message)
      && db.admins == old(db.admins) && db.nextId == old(db.nextId)
    ensures RegisterAdminCheck(body, adminSecret, old(db.admins)).Pass? ==>
      && r == Ok(201, old(db.nextId))
      && old(db.nextId) !in old(db.admins)
      && db.admins == old(db.admins)[old(db.nextId) := NewAdmin(body)]
  {
    var check := RegisterAdminCheck(body, adminSecret, db.admins);
    if check.Reject? {
      return Err(check.status, check.message);
    }
    var id := db.NewId();
    db.admins := db.admins[id := Admin(body.name.value, body.email.value, body.password.value, body.pic)];
    r := Ok(201, id);
  }

  /** Admin login; `matches(stored, candidate)` stands for the password comparison. */
  function AuthAdmin(admins: map<Id, Admin>, email: Option<string>, password: Option<string>,
                     matches: (string, Option<string>) -> bool): (r: Response<Id>)
    ensures r.Ok? <==> exists id :: id in admins && FindAdminByEmail(admins, email) == Some(id) && matches(admins[id].password, password)
    ensures r.Ok? ==> r.status == 200 && r.body in admins && Some(admins[r.body].email) == email
    ensures r.Err? ==> r == Err(401, "Invalid Email or Password")
  {
    var found := FindAdminByEmail(admins, email);
    if found.Some? && matches(admins[found.value].password, password) then Ok(200, found.value)
    else Err(401, "Invalid Email or Password")
  }

  datatype Stats = Stats(
    totalUsers: int,
    activeUsers: int,
    inactiveUsers: int,
    totalChats: int,
    totalMessages: int,
    totalPosts: int)

  /**
   * The dashboard counters. `socketClients` is the live connection count of
   * the socket server, `None` when no socket server is running.
   */
  function GetStats(db: Db, socketClients: Option<nat>): (r: Stats)
    reads db
    ensures r.totalUsers == |db.users| && r.totalChats == |db.chats|
    ensures r.totalMessages == |db.messages| && r.totalPosts == |db.posts|
    ensures socketClients.None? ==> r.activeUsers == 0 && r.inactiveUsers == r.totalUsers
    ensures socketClients.Some? ==> r.activeUsers == socketClients.value
    ensures r.activeUsers + r.inactiveUsers == r.totalUsers
  {
    var active := if socketClients.Some? then socketClients.value else 0;
    Stats(|db.users|, active, |db.users| - active, |db.chats|, |db.messages|, |db.posts|)
  }

  /**
   * Connections are counted, not users, so more open connections than
   * accounts (several tabs, or connections that never signed in) report a
   * negative number of inactive users.
   */
  lemma InactiveGoesNegative(db: Db, clients: nat)
    requires clients > |db.users|
    ensures GetStats(db, Some(clients)).inactiveUsers < 0
  {
  }

  /** The admin's user listing: unlike the directory, it includes every user that matches the search. */
  function GetAllUsers(users: map<Id, User>, search: Option<string>, matchesSearch: (User, string) -> bool): (r: seq<Id>)
    ensures forall id :: id in r <==> id in users && (!Truthy(search) || matchesSearch(users[id], search.value))
    ensures forall i, j :: 0 <= i < j < |r| ==> r[i] < r[j]
  {
    InNaturalOrder(set id | id in users && (!Truthy(search) || matchesSearch(users[id], search.value)))
  }

  /** The admin listing is the requester's directory plus the requester, when the requester matches. */
  lemma AdminListingAddsOnlyRequester(users: map<Id, User>, me: Id, search: Option<string>, matchesSearch: (User, string) -> bool)
    ensures forall id :: id in GetAllUsers(users, search, matchesSearch) <==>
      id in AuthController.AllUsers(users, me, search, matchesSearch) ||
      (id == me && me in users && (!Truthy(search) || matchesSearch(users[me], search.value)))
  {
  }

  method DeleteUser(db: Db, id: Id) returns (r: Response<string>)
    requires db.Valid()
    modifies db
    ensures db.Valid()
    ensures unchanged(db`admins, db`posts, db`chats, db`messages, db`nextId)
    ensures id in old(db.users) ==>
      r == Ok(200, "User removed") && db.users == old(db.users) - {id} && |db.users| == |old(db.users)| - 1
    ensures id !in old(db.users) ==> r == Err(404, "User not found") && db.users == old(db.users)
  {
    if id !in db.users {
      return Err(404, "User not found");
    }
    db.users := db.users - {id};
    r := Ok(200, "User removed");
  }

  method DeletePost(db: Db, id: Id) returns (r: Response<string>)
    requires db.Valid()
    modifies db
    ensures db.Valid()
    ensures unchanged(db`users, db`admins, db`chats, db`messages, db`nextId)
    ensures id in old(db.posts) ==>
      r == Ok(200, "Post removed") && db.posts == old(db.posts) - {id} && |db.posts| == |old(db.posts)| - 1
    ensures id !in old(db.posts) ==> r == Err(404, "Post not found") && db.posts == old(db.posts)
  {
    if id !in db.posts {
      return Err(404, "Post not found");
    }
    db.posts := db.posts - {id};
    r := Ok(200, "Post removed");
  }
}
