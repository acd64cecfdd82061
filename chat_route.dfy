/** `POST /api/chat`: check the session and the body, find or create the chat,
    store the user's message, read the chat's history back, turn it into the
    model's turn format without its last entry, ask the model, store its
    reply. */
module ChatRoute {

  import opened Wrappers
  import opened JsString
  import opened JsArray
  import opened Auth
  import opened Store

  /** The row limit of the history query. */
  const HistoryTake: nat := 20

  /** How many space-separated pieces of the message make the title. */
  const TitleWords: nat := 5

  function Min(a: int, b: int): int {
    if a < b then a else b
  }

  // ---------------------------------------------------------------------
  // Title of a new chat

  /** The title of a new chat: the message split at every single space, the
      first `TitleWords` pieces joined back with single spaces. */
  function Title(content: string): string {
    Join(Slice(Split(content, ' '), 0, TitleWords), ' ')
  }

  /** The title is the start of the message up to (not including) its fifth
      space: a prefix holding at most four spaces, followed in the message by
      a space when it is shorter, and the whole message exactly when the
      message has at most four spaces (so a message without a space is its
      own title). */
  lemma TitleIsPrefix(content: string)
    ensures Title(content) <= content
    ensures Count(Title(content), ' ') == Min(TitleWords - 1, Count(content, ' '))
    ensures |Title(content)| < |content| ==> content[|Title(content)|] == ' '
    ensures Title(content) == content <==> Count(content, ' ') < TitleWords
    ensures ' ' !in content ==> Title(content) == content
  {
    CountZero(content, ' ');
    var parts := Split(content, ' ');
    SliceTake(parts, TitleWords);
    SplitLength(content, ' ');
    var k := if TitleWords <= |parts| then TitleWords else |parts|;
    assert Slice(parts, 0, TitleWords) == parts[..k];
    JoinSplitPrefix(content, ' ', k);
    if k < |parts| {
      JoinSplitBoundary(content, ' ', k);
    } else {
      assert parts[..k] == parts;
      JoinSplit(content, ' ');
    }
  }

  // ---------------------------------------------------------------------
  // Turn history for the model

  /** The two roles the model's chat interface accepts. */
  datatype GeminiRole = UserRole | ModelRole

  /** One entry of the history handed to the model: a role and one text part. */
  datatype Turn = Turn(role: GeminiRole, text: string)

  /** A stored message as a turn: role `"user"` stays the user's turn, every
      other role becomes the model's; the text is the message's content. */
  function ToTurn(m: Message): (t: Turn)
    ensures t.role == UserRole <==> m.role == "user"
    ensures t.role == ModelRole <==> m.role != "user"
    ensures t.text == m.content
  {
    Turn(if m.role == "user" then UserRole else ModelRole, m.content)
  }

  /** The stored history mapped to turns, one for one. */
  function ToTurns(h: seq<Message>): (g: seq<Turn>)
    ensures |g| == |h|
    ensures forall i | 0 <= i < |h| :: g[i] == ToTurn(h[i])
  {
    seq(|h|, i requires 0 <= i < |h| => ToTurn(h[i]))
  }

  /** `pastHistory`: the rows the history query returns, mapped to turns,
      without the last turn. */
  function PastHistory(log: seq<Message>): seq<Turn> {
    var g := ToTurns(FirstRows(log, HistoryTake));
    FilterIndexBelow(g, |g| - 1)
  }

  /** The unused `previousMessages` (built with `slice`) and `pastHistory`
      (built with `filter` on the index) are the same sequence. */
  lemma PreviousMessagesArePastHistory(log: seq<Message>)
    ensures Slice(ToTurns(FirstRows(log, HistoryTake)), 0, -1) == PastHistory(log)
  {
    SliceAgreesWithFilter(ToTurns(FirstRows(log, HistoryTake)));
  }

  /** Up to `HistoryTake` messages, the history sent is every message before
      the current one, in order: empty for a new chat. */
  lemma PastHistoryWithinCap(log: seq<Message>)
    requires 1 <= |log| <= HistoryTake
    ensures PastHistory(log) == ToTurns(log[..|log| - 1])
    ensures |log| == 1 ==> PastHistory(log) == []
  {
    FilterIndexBelowIsPrefix(ToTurns(log), |log| - 1);
  }

  /** Beyond `HistoryTake` messages, the history sent is the OLDEST
      `HistoryTake - 1` messages: the current message is not among the rows
      read back, and the last row read back is dropped in its place. */
  lemma PastHistoryBeyondCap(log: seq<Message>)
    requires |log| > HistoryTake
    ensures PastHistory(log) == ToTurns(log[..HistoryTake - 1])
  {
    FilterIndexBelowIsPrefix(ToTurns(log[..HistoryTake]), HistoryTake - 1);
    assert log[..HistoryTake][..HistoryTake - 1] == log[..HistoryTake - 1];
  }

  /** The most recent `HistoryTake` messages, oldest first: the window the
      limit on the history query is meant to select. */
  function RecentHistory(log: seq<Message>): seq<Message> {
    log[|log| - Min(|log|, HistoryTake)..]
  }

  /** The history sent with the window of the most recent messages. */
  function RecentPastHistory(log: seq<Message>): seq<Turn> {
    var g := ToTurns(RecentHistory(log));
    FilterIndexBelow(g, |g| - 1)
  }

  /** With the recent window, the history sent is exactly the
      `min(n, HistoryTake) - 1` messages just before the current one, and never
      the current one. */
  lemma RecentPastHistoryPrecedesCurrent(log: seq<Message>)
    requires |log| >= 1
    ensures RecentPastHistory(log) == ToTurns(log[|log| - Min(|log|, HistoryTake)..|log| - 1])
    ensures |RecentPastHistory(log)| == Min(|log|, HistoryTake) - 1
  {
    var w := RecentHistory(log);
    FilterIndexBelowIsPrefix(ToTurns(w), |w| - 1);
    assert w[..|w| - 1] == log[|log| - Min(|log|, HistoryTake)..|log| - 1];
  }

  /** When a message has just been stored, the recent window sends the last
      `HistoryTake - 1` messages stored before it. */
  lemma RecentHistoryOfNewMessage(before: seq<Message>, m: Message)
    ensures RecentPastHistory(before + [m]) == ToTurns(before[|before| - Min(|before|, HistoryTake - 1)..])
  {
    var log := before + [m];
    RecentPastHistoryPrecedesCurrent(log);
    assert log[|log| - Min(|log|, HistoryTake)..|log| - 1] == before[|before| - Min(|before|, HistoryTake - 1)..];
  }

  /** When a message has just been stored, the history sent is every message
      stored before it while those number fewer than `HistoryTake`, and
      otherwise the OLDEST `HistoryTake - 1` of them. */
  lemma PastHistoryOfNewMessage(before: seq<Message>, m: Message)
    ensures PastHistory(before + [m]) == ToTurns(before[..Min(|before|, HistoryTake - 1)])
  {
    var log := before + [m];
    if |log| <= HistoryTake {
      PastHistoryWithinCap(log);
      assert log[..|log| - 1] == before[..Min(|before|, HistoryTake - 1)];
    } else {
      PastHistoryBeyondCap(log);
      assert log[..HistoryTake - 1] == before[..Min(|before|, HistoryTake - 1)];
    }
  }

  /** Up to `HistoryTake` messages the two windows send the same history. */
  lemma WindowsAgreeWithinCap(log: seq<Message>)
    requires |log| <= HistoryTake
    ensures PastHistory(log) == RecentPastHistory(log)
  {
    assert RecentHistory(log) == log;
  }

  /** A chat of 21 messages: the 20th (index 19) is the message just before
      the current one. */
  function TwentyOneMessages(): seq<Message> {
    seq(21, i requires 0 <= i < 21 =>
      Message(i, 0, if i % 2 == 0 then "user" else "assistant",
              if i == 19 then "previous" else if i == 20 then "current" else "older"))
  }

  /** On that chat, the history the route sends lacks the message just
      before the current one, which the recent window includes. */
  lemma OldestWindowDropsPrevious()
    ensures ToTurn(TwentyOneMessages()[19]) !in PastHistory(TwentyOneMessages())
    ensures ToTurn(TwentyOneMessages()[19]) in RecentPastHistory(TwentyOneMessages())
  {
    var log := TwentyOneMessages();
    PastHistoryBeyondCap(log);
    RecentPastHistoryPrecedesCurrent(log);
    var t := ToTurn(log[19]);
    assert t.text == "previous";
    var sent := ToTurns(log[..HistoryTake - 1]);
    forall i | 0 <= i < |sent| ensures sent[i] != t {
      assert log[i].content == "older";
    }
    assert ToTurns(log[1..20])[18] == t;
  }

  // ---------------------------------------------------------------------
  // The handler

  /** What sending the message on a chat session started with the history
      yields: the reply's text, or a failure (network, quota, malformed
      response). */
  datatype Reply = Replied(text: string) | Failed

  /** The hosted model, seen as a function of the history and the message. */
  type Model = (seq<Turn>, string) -> Reply

  datatype PostResponse =
    | Unauthorized                          // 401
    | ContentRequired                       // 400
    | ChatNotFound                          // 404
    | InternalError                         // 500, from the catch-all
    | Answered(message: Message, chatId: Id) // the assistant's row, with the chat id

  /** `content` is truthy: present and not the empty string. */
  predicate Truthy(content: Option<string>) {
    content.Some? && content.value != ""
  }

  /** Chat `id` exists and belongs to `userId`. */
  predicate Owns(chats: map<Id, Chat>, id: Id, userId: UserId) {
    id in chats && chats[id].userId == userId
  }

  /** The handler. `chatId` is `None` when the body's `chatId` is falsy
      (absent, null or empty); `now` stands for the store's clock. On success
      `cid` is the chat the message went to. The history is read as the
      query is written: past `HistoryTake` messages it is the oldest ones
      (`PastHistory`), not the most recent (`RecentPastHistory`). */
  method Post(db: Database, session: Session, content: Option<string>, chatId: Option<Id>,
              now: int, model: Model) returns (r: PostResponse, ghost cid: Id)
    requires db.Valid()
    modifies db
    ensures db.Valid()
    // the checks, in this order: 401, 400, 404; none of them stores anything,
    // and a request that passes all three goes on to the model
    ensures r == Unauthorized <==> !Authenticated(session)
    ensures r == ContentRequired <==> Authenticated(session) && !Truthy(content)
    ensures r == ChatNotFound <==>
      && Authenticated(session) && Truthy(content)
      && chatId.Some? && !Owns(old(db.chats), chatId.value, session.value.id)
    ensures r.InternalError? || r.Answered? <==>
      && Authenticated(session) && Truthy(content)
      && (chatId.None? || Owns(old(db.chats), chatId.value, session.value.id))
    ensures r.Unauthorized? || r.ContentRequired? || r.ChatNotFound? ==> unchanged(db)
    // past the checks: the chat, then the user's message, then the reply
    ensures (r.InternalError? || r.Answered?) && chatId.None? ==>
      && cid !in old(db.chats) && old(db.Log(cid)) == []
      && db.chats == old(db.chats)[cid := Chat(cid, Title(content.value), session.value.id, now)]
    ensures (r.InternalError? || r.Answered?) && chatId.Some? ==>
      cid == chatId.value && db.chats == old(db.chats)
    ensures r.InternalError? || r.Answered? ==> forall k | k != cid :: db.Log(k) == old(db.Log(k))
    ensures r.InternalError? || r.Answered? ==>
      var n := |old(db.Log(cid))|;
      && |db.Log(cid)| == n + (if r.Answered? then 2 else 1)
      && db.Log(cid)[..n] == old(db.Log(cid))
      && db.Log(cid)[n].role == "user" && db.Log(cid)[n].content == content.value
    // the history: the messages stored before the user's, up to the OLDEST
    // `HistoryTake - 1` of them
    ensures r.InternalError? || r.Answered? ==>
      var n := |old(db.Log(cid))|;
      var reply := model(ToTurns(old(db.Log(cid))[..Min(n, HistoryTake - 1)]), content.value);
      && (r.InternalError? <==> reply.Failed?)
      && (r.Answered? ==>
            && r.chatId == cid && r.message == db.Log(cid)[n + 1]
            && r.message.role == "assistant" && r.message.content == reply.text)
  {
    cid := 0;
    if !Authenticated(session) {
      return Unauthorized, cid;
    }
    var userId := session.value.id;
    if !Truthy(content) {
      return ContentRequired, cid;
    }
    var text := content.value;
    var currentChatId: Id;
    if chatId.None? {
      var chat := db.CreateChat(Title(text), userId, now);
      currentChatId := chat.id;
    } else {
      var chat := db.FindChat(chatId.value);
      if chat.None? || chat.value.userId != userId {
        return ChatNotFound, cid;
      }
      currentChatId := chatId.value;
    }
    cid := currentChatId;
    assert db.Valid() && cid in db.chats;
    r := Converse(db, currentChatId, text, model);
  }

  /** Everything past the checks, once chat `cid` is known: store the user's
      message, read the history back, ask the model, store its reply. */
  method Converse(db: Database, cid: Id, text: string, model: Model) returns (r: PostResponse)
    requires db.Valid() && cid in db.chats
    modifies db
    ensures db.Valid() && db.chats == old(db.chats)
    ensures r.InternalError? || r.Answered?
    ensures forall k | k != cid :: db.Log(k) == old(db.Log(k))
    ensures
      var n := |old(db.Log(cid))|;
      && |db.Log(cid)| == n + (if r.Answered? then 2 else 1)
      && db.Log(cid)[..n] == old(db.Log(cid))
      && db.Log(cid)[n].role == "user" && db.Log(cid)[n].content == text
    ensures
      var n := |old(db.Log(cid))|;
      var reply := model(ToTurns(old(db.Log(cid))[..Min(n, HistoryTake - 1)]), text);
      && (r.InternalError? <==> reply.Failed?)
      && (r.Answered? ==>
            && r.chatId == cid && r.message == db.Log(cid)[n + 1]
            && r.message.role == "assistant" && r.message.content == reply.text)
  {
    ghost var before := db.Log(cid);
    var userMessage := db.CreateMessage(cid, "user", text);
    assert db.Log(cid) == before + [userMessage];
    var history := db.FindMessages(cid, HistoryTake);
    var geminiHistory := ToTurns(history);
    var pastHistory := FilterIndexBelow(geminiHistory, |geminiHistory| - 1);
    assert pastHistory == PastHistory(before + [userMessage]);
    PastHistoryOfNewMessage(before, userMessage);
    var reply := model(pastHistory, text);
    if reply.Failed? {
      assert db.Log(cid)[..|before|] == before;
      return InternalError;
    }
    var assistantMessage := db.CreateMessage(cid, "assistant", reply.text);
    assert db.Log(cid) == before + [userMessage, assistantMessage];
    assert db.Log(cid)[..|before|] == before;
    r := Answered(assistantMessage, cid);
  }
}
