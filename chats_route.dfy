/** `GET /api/chats` (the caller's chats, most recently updated first) and
    `DELETE /api/chats?id=...` (remove one of the caller's chats). */
module ChatsRoute {

  import opened Wrappers
  import opened Auth
  import opened Store

  datatype ListResponse =
    | ListUnauthorized        // 401
    | ChatList(chats: seq<Chat>)

  datatype DeleteResponse =
    | DeleteUnauthorized      // 401
    | IdRequired              // 400
    | DeleteNotFound          // 404
    | DeleteSucceeded         // success flag set

  /** `GET`: without a session e-mail, 401; otherwise exactly the caller's
      chats, each once, sorted by `updatedAt` descending. */
  method Get(db: Database, session: Session) returns (r: ListResponse)
    requires db.Valid()
    ensures r.ListUnauthorized? <==> !Authenticated(session)
    ensures r.ChatList? ==>
      && SortedByUpdatedDesc(r.chats)
      && multiset(r.chats) == multiset(db.ChatsOf(session.value.id, {}))
      && (forall c :: c in r.chats <==> c in db.chats.Values && c.userId == session.value.id)
  {
    if !Authenticated(session) {
      return ListUnauthorized;
    }
    var chats := db.FindChatsOf(session.value.id);
    r := ChatList(chats);
  }

  /** `DELETE`. `id` is `None` when the `id` search parameter is absent or
      empty. The session is checked before the id, the id before ownership;
      only an owned chat is removed, and nothing else changes. */
  method Delete(db: Database, session: Session, id: Option<Id>) returns (r: DeleteResponse)
    requires db.Valid()
    modifies db
    ensures db.Valid()
    ensures !Authenticated(session) ==> r == DeleteUnauthorized
    ensures Authenticated(session) && id.None? ==> r == IdRequired
    ensures Authenticated(session) && id.Some? ==>
      if id.value in old(db.chats) && old(db.chats)[id.value].userId == session.value.id
      then r == DeleteSucceeded
      else r == DeleteNotFound
    ensures r != DeleteSucceeded ==> unchanged(db)
    ensures r == DeleteSucceeded ==>
      && db.chats == old(db.chats) - {id.value}
      && db.messages == old(db.messages)
  {
    if !Authenticated(session) {
      return DeleteUnauthorized;
    }
    var userId := session.value.id;
    if id.None? {
      return IdRequired;
    }
    var chat := db.FindChat(id.value);
    if chat.None? || chat.value.userId != userId {
      return DeleteNotFound;
    }
    db.DeleteChat(id.value);
    r := DeleteSucceeded;
  }

  /** A successful delete removes exactly the one chat: every other chat keeps
      its row, and the caller's listing afterwards is the old one without it. */
  lemma DeleteLeavesOthers(before: map<Id, Chat>, after: map<Id, Chat>, id: Id, userId: UserId)
    requires after == before - {id}
    requires id in before && before[id].userId == userId
    requires forall k | k in before :: before[k].id == k
    ensures forall k | k != id :: (k in after <==> k in before) && (k in after ==> after[k] == before[k])
    ensures id !in after
    ensures (set c | c in after.Values && c.userId == userId)
         == (set c | c in before.Values && c.userId == userId) - {before[id]}
  {
    var c0 := before[id];
    forall c | c in before.Values && c.userId == userId && c != c0
      ensures c in after.Values
    {
      var k :| k in before && before[k] == c;
      assert k != id;
      assert after[k] == c;
    }
  }
}
