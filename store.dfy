/** The session the identity provider hands to every route handler. */
module Auth {

  import opened Wrappers

  /** The identifier the store records as a chat's owner. */
  type UserId = string

  datatype User = User(email: string, id: UserId)

  /** `getServerSession(...)`: no session at all, or one whose user may lack an
      e-mail address (an absent e-mail is the empty string here). */
  type Session = Option<User>

  /** `session?.user?.email` is truthy. */
  predicate Authenticated(session: Session) {
    session.Some? && session.value.email != ""
  }
}

/** The persistent store the route handlers reach through Prisma: the `chat`
    table as a map from id to row, and the `message` table as, per chat, its
    rows in ascending creation order. */
module Store {

  import opened Wrappers
  import opened Auth

  /** A database key (a generated string in the store); only equality matters. */
  type Id = nat

  /** A `chat` row. `updatedAt` is an abstract timestamp. */
  datatype Chat = Chat(id: Id, title: string, userId: UserId, updatedAt: int)

  /** A `message` row; `role` is `"user"` or `"assistant"` as the routes write it. */
  datatype Message = Message(id: Id, chatId: Id, role: string, content: string)

  /** What a query in ascending order limited to `take` rows returns of a
      log kept in that order: its first `take` rows, or all of it when
      shorter. */
  function FirstRows(log: seq<Message>, take: nat): (h: seq<Message>)
    ensures h <= log
    ensures |h| == if |log| <= take then |log| else take
  {
    if |log| <= take then log else log[..take]
  }

  /** Ordered by `updatedAt`, most recent first. */
  predicate SortedByUpdatedDesc(r: seq<Chat>) {
    forall i, j | 0 <= i < j < |r| :: r[i].updatedAt >= r[j].updatedAt
  }

  /** Inserts `c` into a list sorted by `updatedAt` descending, after every
      chat that is at least as recent. */
  function InsertByUpdated(r: seq<Chat>, c: Chat): (s: seq<Chat>)
    requires SortedByUpdatedDesc(r)
    ensures SortedByUpdatedDesc(s)
    ensures forall i | 0 <= i < |s| :: s[i] == c || s[i] in r
    ensures multiset(s) == multiset(r) + multiset{c}
  {
    if r == [] then [c]
    else if r[0].updatedAt < c.updatedAt then [c] + r
    else
      var rest := InsertByUpdated(r[1..], c);
      InsertStep(r, c, rest);
      [r[0]] + rest
  }

  lemma InsertStep(r: seq<Chat>, c: Chat, rest: seq<Chat>)
    requires r != [] && SortedByUpdatedDesc(r) && r[0].updatedAt >= c.updatedAt
    requires SortedByUpdatedDesc(rest)
    requires forall i | 0 <= i < |rest| :: rest[i] == c || rest[i] in r[1..]
    requires multiset(rest) == multiset(r[1..]) + multiset{c}
    ensures SortedByUpdatedDesc([r[0]] + rest)
    ensures multiset([r[0]] + rest) == multiset(r) + multiset{c}
  {
    assert r == [r[0]] + r[1..];
    forall i | 0 <= i < |rest| ensures r[0].updatedAt >= rest[i].updatedAt {
      if rest[i] != c {
        var k :| 0 <= k < |r[1..]| && r[1..][k] == rest[i];
        assert r[1..][k] == r[k + 1];
      }
    }
  }

  class Database {
    var chats: map<Id, Chat>
    var messages: map<Id, seq<Message>>
    /** The next key the store hands out; every key in use lies below it. */
    var nextId: nat

    ghost predicate Valid()
      reads this
    {
      && (forall k | k in chats :: chats[k].id == k && k < nextId)
      && (forall k | k in messages :: k < nextId &&
            forall i | 0 <= i < |messages[k]| :: messages[k][i].chatId == k && messages[k][i].id < nextId)
    }

    /** The messages of chat `id`, oldest first. */
    function Log(id: Id): seq<Message>
      reads this
    {
      if id in messages then messages[id] else []
    }

    constructor ()
      ensures Valid() && chats == map[] && messages == map[]
    {
      chats, messages, nextId := map[], map[], 0;
    }

    /** Creating a chat row: a new row under a key not used before. */
    method CreateChat(title: string, userId: UserId, now: int) returns (c: Chat)
      requires Valid()
      modifies this
      ensures Valid()
      ensures c.id !in old(chats) && c.id !in old(messages)
      ensures c == Chat(c.id, title, userId, now)
      ensures chats == old(chats)[c.id := c] && messages == old(messages)
    {
      c := Chat(nextId, title, userId, now);
      chats := chats[nextId := c];
      nextId := nextId + 1;
    }

    /** Looking a chat up by its key. */
    method FindChat(id: Id) returns (c: Option<Chat>)
      ensures c.Some? <==> id in chats
      ensures c.Some? ==> c.value == chats[id]
    {
      c := if id in chats then Some(chats[id]) else None;
    }

    /** Creating a message row: it goes to the end of chat `chatId`'s log. */
    method CreateMessage(chatId: Id, role: string, content: string) returns (m: Message)
      requires Valid() && chatId in chats
      modifies this
      ensures Valid()
      ensures m.chatId == chatId && m.role == role && m.content == content
      ensures chats == old(chats)
      ensures messages == old(messages)[chatId := old(Log(chatId)) + [m]]
    {
      m := Message(nextId, chatId, role, content);
      messages := messages[chatId := Log(chatId) + [m]];
      nextId := nextId + 1;
    }

    /** The message query of the chat route: the messages of `chatId` in
        ascending creation order, limited to `take` rows, that is the OLDEST
        `take` messages of the chat. */
    method FindMessages(chatId: Id, take: nat) returns (h: seq<Message>)
      ensures h == FirstRows(Log(chatId), take)
    {
      var log := Log(chatId);
      h := if |log| <= take then log else log[..take];
    }

    /** The chats of `userId` whose key is not in `pending`. */
    ghost function ChatsOf(userId: UserId, pending: set<Id>): set<Chat>
      reads this
    {
      set c | c in chats.Values && c.userId == userId && c.id !in pending
    }

    /** The chat query of the listing: every chat owned by `userId`, each
        exactly once, ordered by `updatedAt` descending (chats updated at the
        same moment come in no particular order). */
    method FindChatsOf(userId: UserId) returns (r: seq<Chat>)
      requires Valid()
      ensures SortedByUpdatedDesc(r)
      ensures multiset(r) == multiset(ChatsOf(userId, {}))
      ensures forall c :: c in r <==> c in chats.Values && c.userId == userId
    {
      r := [];
      var todo := chats.Keys;
      while todo != {}
        invariant todo <= chats.Keys
        invariant SortedByUpdatedDesc(r)
        invariant multiset(r) == multiset(ChatsOf(userId, todo))
        decreases todo
      {
        var k :| k in todo;
        var c := chats[k];
        ChatsOfStep(userId, todo, k);
        if c.userId == userId {
          r := InsertByUpdated(r, c);
        }
        todo := todo - {k};
      }
      assert forall c :: c in r <==> c in multiset(r);
    }

    /** Taking key `k` off the pending set adds its chat when `userId` owns
        it, and that chat was not there yet. */
    lemma ChatsOfStep(userId: UserId, todo: set<Id>, k: Id)
      requires Valid() && k in todo && todo <= chats.Keys
      ensures chats[k] !in ChatsOf(userId, todo)
      ensures multiset(ChatsOf(userId, todo - {k}))
           == multiset(ChatsOf(userId, todo)) + (if chats[k].userId == userId then multiset{chats[k]} else multiset{})
    {
      var c := chats[k];
      forall d | d in ChatsOf(userId, todo - {k}) && d !in ChatsOf(userId, todo)
        ensures d == c
      {
        var k' :| k' in chats && chats[k'] == d;
      }
      assert ChatsOf(userId, todo - {k}) == ChatsOf(userId, todo) + (if c.userId == userId then {c} else {});
    }

    /** Deleting a chat row by its key. The message rows of the chat are left
        as they are: whether they go too is decided by the schema. */
    method DeleteChat(id: Id)
      requires Valid()
      modifies this
      ensures Valid()
      ensures chats == old(chats) - {id} && messages == old(messages)
    {
      chats := chats - {id};
    }
  }
}
