/**
 * The document store as an in-memory table: one map from id to record per
 * collection (users, admins, posts, chats, messages). Ids are allocated from
 * one counter, so a new record never reuses the id of another record in any
 * collection, as ObjectIds never do.
 */
module Store {
  import opened Common

  /**
   * A user account. `password` stands for whatever the account stores for
   * its password; hashing and comparison happen outside this model.
   */
  datatype User = User(
    name: string,
    email: string,
    password: string,
    pic: Option<string>,
    isAdmin: bool,
    isOnline: bool,
    lastSeen: Option<Time>)

  datatype Admin = Admin(name: string, email: string, password: string, pic: Option<string>)

  datatype Comment = Comment(user: Id, text: string, createdAt: Time)

  datatype Post = Post(
    user: Id,
    content: Option<string>,
    image: Option<string>,
    likes: seq<Id>,
    comments: seq<Comment>)

  /**
   * A conversation. The message routes keep `lastMessage`; the message
   * controller writes `latestMessage`.
   */
  datatype Chat = Chat(
    participants: seq<Id>,
    isGroupChat: bool,
    lastMessage: Option<Id>,
    latestMessage: Option<Id>)

  /**
   * A message. Direct messages sent through the message routes have a
   * `receiver`; messages sent through the message controller belong to a
   * `chat` instead.
   */
  datatype Message = Message(
    sender: Id,
    receiver: Option<Id>,
    chat: Option<Id>,
    content: string,
    messageType: Option<string>,
    read: bool,
    readAt: Option<Time>,
    createdAt: Time)

  /** No id occurs twice in `s`. */
  predicate NoDuplicates(s: seq<Id>) {
    forall i, j :: 0 <= i < j < |s| ==> s[i] != s[j]
  }

  class Db {
    var users: map<Id, User>
    var admins: map<Id, Admin>
    var posts: map<Id, Post>
    var chats: map<Id, Chat>
    var messages: map<Id, Message>
    var nextId: Id

    /** Every id in use is below the allocation counter. */
    ghost predicate Valid()
      reads this
    {
      && (forall id :: id in users ==> id < nextId)
      && (forall id :: id in admins ==> id < nextId)
      && (forall id :: id in posts ==> id < nextId)
      && (forall id :: id in chats ==> id < nextId)
      && (forall id :: id in messages ==> id < nextId)
    }

    constructor ()
      ensures Valid()
      ensures users == map[] && admins == map[] && posts == map[]
      ensures chats == map[] && messages == map[]
    {
      users, admins, posts, chats, messages := map[], map[], map[], map[], map[];
      nextId := 0;
    }

    /** Allocates an id that no collection uses yet. */
    method NewId() returns (id: Id)
      requires Valid()
      modifies this`nextId
      ensures Valid()
      ensures id == old(nextId) && nextId == id + 1
      ensures id !in users && id !in admins && id !in posts && id !in chats && id !in messages
    {
      id := nextId;
      nextId := nextId + 1;
    }
  }

  /** Some stored user already has this email. */
  predicate EmailTaken(users: map<Id, User>, email: string) {
    exists id :: id in users && users[id].email == email
  }

  /** The first user whose email is `email`; an absent email matches no record. */
  function FindUserByEmail(users: map<Id, User>, email: Option<string>): (r: Option<Id>)
    ensures r.Some? <==> email.Some? && exists id :: id in users && users[id].email == email.value
    ensures r.Some? ==> r.value in users && Some(users[r.value].email) == email
  {
    if email.None? then None else Least(users, (u: User) => u.email == email.value)
  }

  /** The first admin whose email is `email`; an absent email matches no record. */
  function FindAdminByEmail(admins: map<Id, Admin>, email: Option<string>): (r: Option<Id>)
    ensures r.Some? <==> email.Some? && exists id :: id in admins && admins[id].email == email.value
    ensures r.Some? ==> r.value in admins && Some(admins[r.value].email) == email
  {
    if email.None? then None else Least(admins, (a: Admin) => a.email == email.value)
  }
}
