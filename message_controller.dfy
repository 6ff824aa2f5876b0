/**
 * Chat messages of the message controller: a message is posted into a chat
 * by id and becomes that chat's `latestMessage`; a chat's messages are
 * listed by their `chat` field.
 */
module MessageController {
  import opened Common
  import opened Store

  datatype ChatMessageBody = ChatMessageBody(content: Option<string>, chatId: Option<Id>)

  function SendMessageCheck(body: ChatMessageBody): (r: Check)
    ensures r.Pass? <==> Truthy(body.content) && body.chatId.Some?
    ensures r.Reject? ==> r == Reject(400, "Bad Request")
  {
    if !Truthy(body.content) || body.chatId.None? then Reject(400, "Bad Request") else Pass
  }

  /**
   * Stores the message in the named chat and makes it the chat's latest
   * message. An update of a chat id that names no chat finds nothing and
   * changes nothing, while the message is still stored.
   */
  method SendMessage(db: Db, me: Id, body: ChatMessageBody, now: Time) returns (r: Response<Message>)
    requires db.Valid()
    modifies db
    ensures db.Valid()
    ensures unchanged(db`users, db`admins, db`posts)
    ensures SendMessageCheck(body).Reject? ==>
      r == Err(400, "Bad Request") && unchanged(db`messages, db`chats, db`nextId)
    ensures SendMessageCheck(body).Pass? ==>
      var mid := old(db.nextId);
      var chatId := body.chatId.value;
      var m := Message(me, None, body.chatId, body.content.value, None, false, None, now);
      && r == Ok(200, m)
      && mid !in old(db.messages)
      && db.messages == old(db.messages)[mid := m]
      && (chatId in old(db.chats) ==> db.chats == old(db.chats)[chatId := old(db.chats)[chatId].(latestMessage := Some(mid))])
      && (chatId !in old(db.chats) ==> db.chats == old(db.chats))
  {
    if !Truthy(body.content) || body.chatId.None? {
      return Err(400, "Bad Request");
    }
    var message := Message(me, None, body.chatId, body.content.value, None, false, None, now);
    var mid := db.NewId();
    db.messages := db.messages[mid := message];
    var chatId := body.chatId.value;
    if chatId in db.chats {
      db.chats := db.chats[chatId := db.chats[chatId].(latestMessage := Some(mid))];
    }
    r := Ok(200, message);
  }

  /** The messages of one chat, in natural order. */
  function AllMessages(msgs: map<Id, Message>, chatId: Id): (r: seq<Id>)
    ensures forall id :: id in r <==> id in msgs && msgs[id].chat == Some(chatId)
    ensures forall i, j :: 0 <= i < j < |r| ==> r[i] < r[j]
  {
    InNaturalOrder(set id | id in msgs && msgs[id].chat == Some(chatId))
  }

  /** A message just posted into a chat is listed with that chat and with no other. */
  lemma PostedMessageListed(msgs: map<Id, Message>, mid: Id, m: Message, chatId: Id, other: Id)
    requires m.chat == Some(chatId) && other != chatId
    ensures mid in AllMessages(msgs[mid := m], chatId)
    ensures mid !in AllMessages(msgs[mid := m], other)
    ensures forall id :: id in AllMessages(msgs, chatId) && id != mid ==> id in AllMessages(msgs[mid := m], chatId)
  {
  }
}
