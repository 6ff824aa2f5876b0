/**
 * Direct messages: sending one (which finds or creates the two users'
 * one-to-one chat), reading the conversation between two users, and
 * marking a message read, which only its receiver may do.
 */
module MessageRoutes {
  import opened Common
  import opened Store

  /** The body of a send; a falsy `receiverId` is absent. */
  datatype SendBody = SendBody(receiverId: Option<Id>, content: Option<string>, messageType: Option<string>)

  /** A one-to-one chat that has both users among its participants. */
  predicate DirectChatOf(c: Chat, a: Id, b: Id) {
    !c.isGroupChat && a in c.participants && b in c.participants
  }

  /** The chat the send attaches its message to, if one exists. */
  function FindDirectChat(chats: map<Id, Chat>, a: Id, b: Id): (r: Option<Id>)
    ensures r.None? <==> forall id :: id in chats ==> !DirectChatOf(chats[id], a, b)
    ensures r.Some? ==> r.value in chats && DirectChatOf(chats[r.value], a, b)
  {
    Least(chats, (c: Chat) => DirectChatOf(c, a, b))
  }

  function SendCheck(body: SendBody): (r: Check)
    ensures r.Pass? <==> body.receiverId.Some? && Truthy(body.content)
    ensures r.Reject? ==> r == Reject(400, "Receiver and content are required")
  {
    if body.receiverId.None? || !Truthy(body.content) then Reject(400, "Receiver and content are required")
    else Pass
  }

  /** The message a validated send stores; the type defaults to "text". */
  function NewDirectMessage(me: Id, body: SendBody, now: Time): (m: Message)
    requires SendCheck(body).Pass?
    ensures m.sender == me && m.receiver == body.receiverId && m.chat.None?
    ensures m.content == body.content.value && !m.read && m.readAt.None? && m.createdAt == now
    ensures m.messageType == Some(if Truthy(body.messageType) then body.messageType.value else "text")
  {
    Message(me, body.receiverId, None, body.content.value, Some(OrElse(body.messageType, "text")), false, None, now)
  }

  /**
   * Stores the message, then records it as the last message of the users'
   * one-to-one chat, creating that chat when there is none. A rejected send
   * stores neither a message nor a chat.
   */
  method Send(db: Db, me: Id, body: SendBody, now: Time) returns (r: Response<Id>)
    requires db.Valid()
    modifies db
    ensures db.Valid()
    ensures unchanged(db`users, db`admins, db`posts)
    ensures SendCheck(body).Reject? ==>
      && r == Err(400, "Receiver and content are required")
      && unchanged(db`messages, db`chats, db`nextId)
    ensures SendCheck(body).Pass? ==>
      var mid := old(db.nextId);
      var other := body.receiverId.value;
      && r == Ok(201, mid)
      && mid !in old(db.messages)
      && db.messages == old(db.messages)[mid := NewDirectMessage(me, body, now)]
      && (FindDirectChat(old(db.chats), me, other).None? ==>
            && mid + 1 !in old(db.chats)
            && db.chats == old(db.chats)[mid + 1 := Chat([me, other], false, Some(mid), None)])
      && (FindDirectChat(old(db.chats), me, other).Some? ==>
            var cid := FindDirectChat(old(db.chats), me, other).value;
            db.chats == old(db.chats)[cid := old(db.chats)[cid].(lastMessage := Some(mid))])
  {
    if body.receiverId.None? || !Truthy(body.content) {
      return Err(400, "Receiver and content are required");
    }
    var other := body.receiverId.value;
    var mid := db.NewId();
    db.messages := db.messages[mid := Message(me, Some(other), None, body.content.value,
                                              Some(OrElse(body.messageType, "text")), false, None, now)];
    var found := FindDirectChat(db.chats, me, other);
    if found.None? {
      var cid := db.NewId();
      db.chats := db.chats[cid := Chat([me, other], false, Some(mid), None)];
    } else {
      var chat := db.chats[found.value];
      db.chats := db.chats[found.value := chat.(lastMessage := Some(mid))];
    }
    r := Ok(201, mid);
  }

  /** After a send, the two users have exactly the one-to-one chat it used or created, naming the new message. */
  lemma SendLeavesUsableChat(chats: map<Id, Chat>, me: Id, other: Id, mid: Id, newId: Id)
    requires newId !in chats
    ensures var after := if FindDirectChat(chats, me, other).None?
                         then chats[newId := Chat([me, other], false, Some(mid), None)]
                         else chats[FindDirectChat(chats, me, other).value :=
                                    chats[FindDirectChat(chats, me, other).value].(lastMessage := Some(mid))];
            var c := FindDirectChat(after, me, other);
            c.Some? && after[c.value].lastMessage == Some(mid)
            && (FindDirectChat(chats, me, other).None? ==> c == Some(newId))
            && (FindDirectChat(chats, me, other).Some? ==> c == FindDirectChat(chats, me, other))
  {
    var found := FindDirectChat(chats, me, other);
    if found.None? {
      var after := chats[newId := Chat([me, other], false, Some(mid), None)];
      assert DirectChatOf(after[newId], me, other);
      assert forall id :: id in after && DirectChatOf(after[id], me, other) ==> id == newId;
    } else {
      var after := chats[found.value := chats[found.value].(lastMessage := Some(mid))];
      assert DirectChatOf(after[found.value], me, other);
      assert forall id :: id in after && DirectChatOf(after[id], me, other) ==> id in chats && DirectChatOf(chats[id], me, other);
      var c := FindDirectChat(after, me, other);
      assert c.value <= found.value;
      assert found.value <= c.value;
    }
  }

  /** The message goes from `a` to `b` or from `b` to `a`. */
  predicate Between(m: Message, a: Id, b: Id) {
    (m.sender == a && m.receiver == Some(b)) || (m.sender == b && m.receiver == Some(a))
  }

  /** The message's creation time, as the conversation query sorts on it. */
  function CreatedAt(msgs: map<Id, Message>): Id -> int {
    id => if id in msgs then msgs[id].createdAt else 0
  }

  function ConversationIds(msgs: map<Id, Message>, a: Id, b: Id): set<Id> {
    set id | id in msgs && Between(msgs[id], a, b)
  }

  /** The messages between the two users in either direction, oldest first. */
  function Conversation(msgs: map<Id, Message>, me: Id, other: Id): (r: seq<Id>)
    ensures forall id :: id in r <==> id in msgs && Between(msgs[id], me, other)
    ensures NoDuplicates(r)
    ensures forall i, j :: 0 <= i < j < |r| ==> msgs[r[i]].createdAt <= msgs[r[j]].createdAt
  {
    var r := SortBy(ConversationIds(msgs, me, other), CreatedAt(msgs));
    assert forall i, j :: 0 <= i < j < |r| ==> Before(CreatedAt(msgs), r[i], r[j]);
    r
  }

  /** Both participants read the same conversation. */
  lemma ConversationSymmetric(msgs: map<Id, Message>, a: Id, b: Id)
    ensures Conversation(msgs, a, b) == Conversation(msgs, b, a)
  {
    assert ConversationIds(msgs, a, b) == ConversationIds(msgs, b, a);
  }

  /**
   * Marks a message read. Only the message's receiver may; a message without
   * a receiver makes the handler's receiver comparison fail, which ends in
   * its generic server error.
   */
  method MarkRead(db: Db, messageId: Id, me: Id, now: Time) returns (r: Response<Message>)
    requires db.Valid()
    modifies db
    ensures db.Valid()
    ensures unchanged(db`users, db`admins, db`posts, db`chats, db`nextId)
    ensures messageId !in old(db.messages) ==> r == Err(404, "Message not found") && db.messages == old(db.messages)
    ensures messageId in old(db.messages) && old(db.messages)[messageId].receiver.None? ==>
      r == Err(500, "Server error") && db.messages == old(db.messages)
    ensures messageId in old(db.messages) && old(db.messages)[messageId].receiver.Some?
            && old(db.messages)[messageId].receiver.value != me ==>
      r == Err(403, "Not authorized") && db.messages == old(db.messages)
    ensures messageId in old(db.messages) && old(db.messages)[messageId].receiver == Some(me) ==>
      var m := old(db.messages)[messageId].(read := true, readAt := Some(now));
      r == Ok(200, m) && db.messages == old(db.messages)[messageId := m]
  {
    if messageId !in db.messages {
      return Err(404, "Message not found");
    }
    var message := db.messages[messageId];
    if message.receiver.None? {
      return Err(500, "Server error");
    }
    if message.receiver.value != me {
      return Err(403, "Not authorized");
    }
    message := message.(read := true, readAt := Some(now));
    db.messages := db.messages[messageId := message];
    r := Ok(200, message);
  }
}
