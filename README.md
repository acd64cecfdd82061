# GPT-mini chat core, modelled in Dafny

GPT-mini is a small chat application. A signed-in user sends a message. The
server stores it in a chat, which it creates when the message is the first of
a conversation. The server then asks a hosted Gemini model for an answer,
giving it the chat's earlier messages as history, and stores the reply. A
sidebar lists the user's chats, can search them by title and can delete one.
A diagnostic script reads the API key from `.env` and lists the models that
support `generateContent`.

This project models that core and proves what it does:

- `wrappers.dfy`: the `Option` type.
- `js_string.dfy`, `js_array.dfy`: the JavaScript built-ins the core relies
  on. These are `trim`, `toLowerCase`, `includes`, `split` and `join` with a
  one-character separator, `substring`, `slice` with negative indices, and
  `filter`. Each is stated with its meaning, with lemmas such as the
  `split`/`join` round trip.
- `store.dfy`: the session (`Auth`) and the store the routes reach through
  Prisma (`Store`). The store is a class `Database` that holds the chat
  table as a map, the messages as a per-chat log in creation order, and the
  key counter. Its queries (create, find, list by owner newest first,
  delete) are methods.
- `chat_route.dfy`: `POST /api/chat` as the method `ChatRoute.Post`. It
  covers the session, content and ownership checks in their order, the title
  of a new chat, the user's message, the history handed to the model, and
  the reply.
- `chats_route.dfy`: `GET /api/chats` and `DELETE /api/chats?id=...`.
- `sidebar.dfy`: the sidebar's case-insensitive title search and its
  optimistic delete. The component state is the class `SidebarState`.
- `chat_input.dfy`: the message box. It models the submit guard, the Enter
  key rule, `hasContent` and the send button's `disabled` flag. The input
  state is the class `ChatInputState`.
- `list-models.js` as `list_models.dfy`: the `.env` scan, which takes the
  first matching line only, trims the value and strips one pair of quotes.
  It also models the abort on a missing or empty key, the masked display of
  the key, and the report on the model list.

How the model stands for things outside the core:

- An id (a generated string in the store) is a `nat`, because only equality
  and freshness matter. A falsy `chatId` or `id` (absent, `null` or `""`) is
  `None`.
- The session is `Option<User>`. A missing e-mail address is the empty
  string, which is how `Auth.Authenticated` treats a falsy e-mail.
- The model is a function parameter from the history and the message to
  `Replied(text)` or `Failed`. `Failed` stands for an exception from starting
  the chat session or sending the message, which the handler's catch-all
  answers with 500. Other exceptions that reach the catch-all are left out
  (see below).
- The store's clock is the parameter `now`, and `updatedAt` is an abstract
  integer.

The model follows the code where the code and its own comments part ways:

- The history query asks for the chat's messages in ascending creation
  order, limited to 20 rows, which gives the OLDEST 20. The comments in the
  handler (src/app/api/chat/route.ts:88-93) expect the rows read back to end
  with the message just saved, which holds only while the chat has at most
  20 messages. `ChatRoute.Post` reads the history as written
  (`Store.Database.FindMessages`, `ChatRoute.PastHistory`). Findings records
  the discrepancy, with the window the comments expect
  (`ChatRoute.RecentPastHistory`) proved to send the messages just before the
  current one.
- Every stored role other than `"user"` becomes the model's role, not only
  `"assistant"` (`ChatRoute.ToTurn`).

## Model

| member | source | states |
|---|---|---|
| JsString.Trim | src/components/ChatInput.tsx:15 | The result is the slice of the input between its leading and trailing whitespace. Everything cut off is whitespace, a non-empty result starts and ends with non-whitespace, and the result is empty exactly when the input is all whitespace |
| JsString.TrimIdempotent | src/components/ChatInput.tsx:35 | Trimming twice is trimming once |
| JsString.ToLower | src/components/Sidebar.tsx:34 | Lower-casing keeps the length and maps each character on its own, `A`..`Z` to `a`..`z` |
| JsString.Includes | src/components/Sidebar.tsx:34 | `includes` holds exactly when the needle occurs at some position of the text |
| JsString.CountZero | src/app/api/chat/route.ts:30 | A string has no separator to count exactly when the separator does not occur in it |
| JsString.Split | src/app/api/chat/route.ts:30 | `split` gives at least one piece, even on the empty string |
| JsString.SplitPiecesLackSeparator | src/app/api/chat/route.ts:30 | No piece of a split contains the separator |
| JsString.JoinSplit | src/app/api/chat/route.ts:30 | Joining the pieces of a split with the same separator gives back the string |
| JsString.SplitLength | src/app/api/chat/route.ts:30 | A split has one more piece than the string has separators |
| JsString.JoinSplitPrefix | src/app/api/chat/route.ts:30 | The first k pieces of a split, joined, are a prefix of the string holding k-1 separators |
| JsString.JoinSplitBoundary | src/app/api/chat/route.ts:30 | When pieces are left over, the joined first k pieces are followed in the string by the separator |
| JsString.Join | src/app/api/chat/route.ts:30 | Definition: `join` with a one-character separator; `JoinSplit` proves it inverts `Split` |
| JsString.Substring | list-models.js:32 | Definition: `substring` clamps both indices into range and swaps them when the start is the larger; `MaskShowsEnds` and `MaskShowsShortKey` state what that gives for the mask |
| JsString.CountAppend | src/app/api/chat/route.ts:30 | Separators in a concatenation are the sum of the separators of its parts |
| JsArray.RelativeIndex | list-models.js:16 | A negative `slice` index counts from the end, and every index is clamped into `0..len` |
| JsArray.SliceTake | src/app/api/chat/route.ts:30 | `slice(0, n)` keeps the first `min(n, length)` elements |
| JsArray.SliceDropLast | src/app/api/chat/route.ts:88 | `slice(0, -1)` drops the last element and keeps the empty sequence empty |
| JsArray.SliceInner | list-models.js:16 | `slice(1, -1)` drops the first and the last element, and gives the empty sequence on fewer than two |
| JsArray.Filter | src/components/Sidebar.tsx:33-35 | `filter` keeps only elements that satisfy the test, keeps every element that does, and never grows the sequence |
| JsArray.FilterMultiset | src/components/Sidebar.tsx:33-35 | `filter` keeps each passing element exactly as often as it occurs, and no failing one |
| JsArray.FilterIsSubsequence | src/components/Sidebar.tsx:33-35 | `filter` keeps the original order, and an element is in the result exactly when it is in the input and passes |
| JsArray.FilterKeepsAll | src/components/Sidebar.tsx:33-35 | When every element passes, `filter` returns the input unchanged |
| JsArray.FilterCongruent | src/components/Sidebar.tsx:33-35 | Two tests that agree on every element filter alike |
| JsArray.FilterIndexBelowIsPrefix | src/app/api/chat/route.ts:95 | Filtering by index below a bound keeps exactly the prefix up to the bound, clamped into range |
| JsArray.Slice | src/app/api/chat/route.ts:30 | Definition: `slice` takes from the relative start to the relative end, empty when they cross; characterised by `SliceTake`, `SliceDropLast` and `SliceInner` |
| JsArray.FilterIndexBelow | src/app/api/chat/route.ts:95 | Definition: `filter` on the index, keeping positions below the bound; characterised by `FilterIndexBelowIsPrefix` |
| JsArray.SliceAgreesWithFilter | src/app/api/chat/route.ts:88-95 | `slice(0, -1)` and filtering on index below `length - 1` give the same sequence |
| Store.InsertByUpdated | src/app/api/chats/route.ts:14-17 | Inserting into a list sorted newest first keeps it sorted and adds exactly that chat (multiset) |
| Store.Database.CreateChat | src/app/api/chat/route.ts:31-37 | A new chat row under a key not used before, with the given title and owner; nothing else changes |
| Store.Database.FindChat | src/app/api/chat/route.ts:40-42 | The lookup finds a row exactly when the key is present, and returns that row |
| Store.Database.CreateMessage | src/app/api/chat/route.ts:49-55 | The message row goes to the end of its chat's log with the given role and content; other logs and the chats stay as they were |
| Store.FirstRows | src/app/api/chat/route.ts:58-62 | A query in ascending order limited to `take` rows returns a prefix of the log, of length `min(length, take)` |
| Store.Database.FindMessages | src/app/api/chat/route.ts:58-62 | The history query returns the first `take` rows of the chat's log (`FirstRows`), that is its OLDEST messages |
| Store.SortedByUpdatedDesc | src/app/api/chats/route.ts:16 | Definition: chats ordered by `updatedAt`, most recent first; `FindChatsOf` and `InsertByUpdated` keep it |
| Store.Database.FindChatsOf | src/app/api/chats/route.ts:14-17 | The listing is sorted newest first, holds each of the owner's chats exactly once (multiset equality), and holds a chat exactly when the owner owns it |
| Store.Database.DeleteChat | src/app/api/chats/route.ts:45-47 | Deleting removes exactly that key from the chat table and leaves the messages |
| Auth.Authenticated | src/app/api/chat/route.ts:13 | Definition: the session has a user with a non-empty e-mail, the test both routes make before anything else |
| ChatRoute.Title | src/app/api/chat/route.ts:30 | Definition: the first five space-separated pieces of the message, joined with spaces; characterised by `TitleIsPrefix` |
| ChatRoute.TitleIsPrefix | src/app/api/chat/route.ts:30 | The title of a new chat is a prefix of the message holding `min(4, spaces)` spaces, is followed by a space when shorter, and is the whole message exactly when it has fewer than five spaces, in particular when it has none |
| ChatRoute.ToTurn | src/app/api/chat/route.ts:66-69 | A message becomes a user turn exactly when its role is `"user"`, a model turn otherwise, and keeps its content as text |
| ChatRoute.ToTurns | src/app/api/chat/route.ts:66-69 | Mapping the history keeps its length and maps each position |
| ChatRoute.PastHistory | src/app/api/chat/route.ts:58-95 | Definition: the rows the history query returns, mapped to turns, without the last turn; characterised by `PastHistoryWithinCap`, `PastHistoryBeyondCap` and `PastHistoryOfNewMessage` |
| ChatRoute.PreviousMessagesArePastHistory | src/app/api/chat/route.ts:88-95 | The unused `previousMessages` and the `pastHistory` that is sent are the same sequence |
| ChatRoute.PastHistoryWithinCap | src/app/api/chat/route.ts:58-95 | Up to 20 messages, the history sent is every message before the current one, and it is empty for a new chat |
| ChatRoute.PastHistoryBeyondCap | src/app/api/chat/route.ts:58-95 | Beyond 20 messages, the history sent is the oldest 19 messages |
| ChatRoute.PastHistoryOfNewMessage | src/app/api/chat/route.ts:49-95 | Right after a message is stored, the history sent is every earlier message while there are fewer than 20, and otherwise the oldest 19 |
| ChatRoute.RecentHistory | src/app/api/chat/route.ts:58-62 | Definition: the most recent 20 messages, oldest first, the window the handler's comments expect |
| ChatRoute.RecentPastHistory | src/app/api/chat/route.ts:58-95 | Definition: the history sent with the recent window; characterised by `RecentPastHistoryPrecedesCurrent` |
| ChatRoute.RecentPastHistoryPrecedesCurrent | src/app/api/chat/route.ts:57-62 | With the most recent 20 rows as the window, the history sent is exactly the `min(n, 20) - 1` messages just before the current one |
| ChatRoute.RecentHistoryOfNewMessage | src/app/api/chat/route.ts:49-62 | Right after a message is stored, the recent window sends the last 19 messages stored before it |
| ChatRoute.WindowsAgreeWithinCap | src/app/api/chat/route.ts:58-62 | Up to 20 messages, the window as written and the recent window send the same history |
| ChatRoute.OldestWindowDropsPrevious | src/app/api/chat/route.ts:58-62 | On a 21-message chat, the message just before the current one is missing from the history sent, and the recent window includes it |
| ChatRoute.Truthy | src/app/api/chat/route.ts:22 | Definition: `content` is present and not the empty string |
| ChatRoute.Owns | src/app/api/chat/route.ts:43 | Definition: the chat exists and its owner is the caller |
| ChatRoute.Post | src/app/api/chat/route.ts:10-121 | Each outcome exactly when its condition holds: 401 without an e-mail, else 400 on falsy content, else 404 on a chat that is missing or owned by someone else, and otherwise the request goes on to the model. None of the refusals stores anything. Past the checks, the chat is created with the title under a fresh key, or kept. The user's message is appended, and the model is asked with the turns of the messages stored before it, up to the oldest 19. A failure answers 500 with only the user's message stored. A reply is appended as the assistant's message and returned with the chat id. Other chats' logs are unchanged |
| ChatRoute.Converse | src/app/api/chat/route.ts:48-116 | Once the chat is known: the user's message goes to the end of its log, and the model gets the turns of the messages before it, up to the oldest 19 (the query as written). A failure stops there; a reply is stored after the user's message and returned. The chat table and other logs are unchanged |
| ChatsRoute.Get | src/app/api/chats/route.ts:6-20 | 401 exactly when unauthenticated; otherwise exactly the caller's chats, each once, newest first |
| ChatsRoute.Delete | src/app/api/chats/route.ts:22-50 | 401, then 400 without an id, then 404 unless the caller owns the chat, in which case that one chat row is removed; every refusal leaves the store unchanged |
| ChatsRoute.DeleteLeavesOthers | src/app/api/chats/route.ts:37-49 | After a delete every other chat keeps its row, and the owner's chats are the old ones minus the deleted one |
| Sidebar.Matches | src/components/Sidebar.tsx:34 | Definition: the lower-cased title includes the lower-cased query |
| Sidebar.FilteredChats | src/components/Sidebar.tsx:33-35 | Definition: the list filtered by `Matches`; characterised by `FilteredChatsSelects`, `EmptyQueryKeepsAll` and `SearchIgnoresCase` |
| Sidebar.FilteredChatsSelects | src/components/Sidebar.tsx:33-35 | The search keeps list order and shows a chat exactly when its lower-cased title contains the lower-cased query |
| Sidebar.EmptyQueryKeepsAll | src/components/Sidebar.tsx:30-35 | The initial empty query shows every chat |
| Sidebar.SearchIgnoresCase | src/components/Sidebar.tsx:33-35 | Queries equal up to letter case show the same chats |
| Sidebar.WithoutId | src/components/Sidebar.tsx:39 | Definition: the list filtered to chats whose id differs; characterised by `WithoutIdRemoves` |
| Sidebar.WithoutIdRemoves | src/components/Sidebar.tsx:39 | The optimistic removal keeps the other chats in order, leaves none with that id, and changes nothing when no chat has it |
| Sidebar.SidebarState.constructor | src/components/Sidebar.tsx:25-31 | The state starts as the `chats` prop with an empty query |
| Sidebar.SidebarState.SetSearchQuery | src/components/Sidebar.tsx:127 | Typing sets the query and leaves the list |
| Sidebar.SidebarState.ReceiveProps | src/components/Sidebar.tsx:25-31 | A new prop does not reseed the list held in state |
| Sidebar.SidebarState.HandleDelete | src/components/Sidebar.tsx:37-54 | On success the list loses the chat; on failure it becomes the `chats` prop; the query is untouched |
| ChatInput.HasContent | src/components/ChatInput.tsx:35 | `hasContent` holds exactly when some character of the input is not whitespace |
| ChatInput.SendDisabled | src/components/ChatInput.tsx:97 | Definition: a reply is pending or the trimmed input is empty |
| ChatInput.Submission | src/components/ChatInput.tsx:15-16 | Definition: nothing when the trimmed input is empty or a reply is pending, else the input as typed |
| ChatInput.SubmitsOnKey | src/components/ChatInput.tsx:21 | Definition: Enter with Shift not held |
| ChatInput.DisabledIffNothingSent | src/components/ChatInput.tsx:15-17 | The send button is disabled exactly when a submit would send nothing, that is unless there is content and no reply is pending |
| ChatInput.SentTextHasContent | src/components/ChatInput.tsx:15-16 | Whatever is sent is the untrimmed input, non-empty and with content, so the chat route never answers it with 400 |
| ChatInput.ChatInputState.constructor | src/components/ChatInput.tsx:10 | The input starts empty |
| ChatInput.ChatInputState.OnChange | src/components/ChatInput.tsx:53 | Typing sets the input |
| ChatInput.ChatInputState.HandleSubmit | src/components/ChatInput.tsx:13-18 | A submit sends the input unless it trims to empty or a reply is pending; after a send the input is empty and a second submit sends nothing |
| ChatInput.ChatInputState.HandleKeyDown | src/components/ChatInput.tsx:20-25 | Exactly Enter without Shift is prevented and submits; every other key sends nothing and leaves the input |
| ListModels.MatchKeyLine | list-models.js:12 | A line matches exactly when it starts with `GEMINI_API_KEY=` and the rest holds no line terminator, and the capture is that rest |
| ListModels.NonMatchingLines | list-models.js:12 | An indented or `export`-prefixed line does not match, nor does a line still ending in a carriage return |
| ListModels.StripQuotes | list-models.js:15-17 | Definition: one pair of matching outer quotes sliced off; characterised by `StripQuotesOnePair` and `StripQuotesKeepsOthers` |
| ListModels.StripQuotesOnePair | list-models.js:15-17 | Exactly one pair of matching outer quotes is removed, and a lone quote leaves the empty string |
| ListModels.StripQuotesKeepsOthers | list-models.js:15-17 | Unquoted and mismatched values are kept |
| ListModels.KeyValue | list-models.js:14-17 | Definition: the captured group trimmed, then stripped of one pair of quotes |
| ListModels.FirstKey | list-models.js:11-21 | Definition: the value of the first matching line, or empty; characterised by `FirstMatchWins` and `NoMatchNoKey` |
| ListModels.FirstMatchWins | list-models.js:11-21 | The key is the trimmed, unquoted value of the first matching line; later lines are ignored |
| ListModels.NoMatchNoKey | list-models.js:11-21 | Without a matching line the key is empty |
| ListModels.ScanEnv | list-models.js:10-21 | The loop that stops at the first match computes that key |
| ListModels.Mask | list-models.js:32 | Definition: `substring(0, 5)`, three dots, `substring(length - 5)`; characterised by `MaskShowsEnds` and `MaskShowsShortKey` |
| ListModels.MaskShowsEnds | list-models.js:32 | A key of five characters or more shows its first and last five around `...` |
| ListModels.MaskShowsShortKey | list-models.js:32 | A key of at most five characters is shown whole, twice |
| ListModels.LoadApiKey | list-models.js:10-32 | The script aborts exactly when the scan's key is empty; otherwise it uses that key and shows its mask |
| ListModels.GenerateContentModels | list-models.js:49 | Definition: the models whose `supportedGenerationMethods` is present and lists `generateContent`; characterised by `GenerateContentModelsSelects` |
| ListModels.GenerateContentModelsSelects | list-models.js:49 | The filter keeps, in order, exactly the models listing `generateContent` |
| ListModels.ReportOn | list-models.js:41-60 | Unparseable text reports a parse error, then a set `error` reports the API error, then a missing `models` reports that, otherwise the names of the filtered models in order, with "none found" exactly when no model supports `generateContent` |

## Left out

- Prisma, next-auth and the Gemini SDK are not part of this model. The store
  is the `Database` class, the session is a parameter, and the model is a
  function parameter. Network, quota and SDK errors are the single `Failed`
  reply.
- `session.user.id` is read under a type-check suppression and assumed to be
  set. `lib/auth`, which would decide that, is not part of this model.
- ChatRoute.Post: only a failure of the model call is modelled as the 500
  answer. The catch-all also answers 500 when other steps throw, and these
  are not modelled:
  - a request body that is not valid JSON;
  - a `content` that is truthy but not a string (a number, an object), on
    which `split` throws;
  - a store failure in creating the chat, looking it up, or storing either
    message.
  A store failure after the chat was created leaves a new chat without
  messages. The model cannot reach that state, because its store operations
  never fail.
- The route builds a first chat session from `slice(0, -1)` and never uses
  it. Only its equality with the history actually sent is modelled
  (`ChatRoute.PreviousMessagesArePastHistory`).
- Timestamps: `updatedAt` is an abstract integer set from `now` when a chat
  is created. Storing a message does not touch it, as in the store.
- Store.Database.DeleteChat: whether a chat's messages cascade on delete is
  decided by the schema, which is not part of this model. The messages are
  left in place.
- JsString.ToLower: only ASCII letters are lower-cased; the full Unicode
  case mapping of `toLowerCase` is not modelled.
- `readFileSync`, `https.get`, `process.exit` and console output in
  `list-models.js` are I/O. The `.env` text and the parsed response body are
  parameters, and `JSON.parse` failing is `None`.
- ListModels.ModelInfo: a `supportedGenerationMethods` that is present but
  is not an array (a string, whose `includes` does substring search) is not
  modelled.
- Concurrency: requests run one at a time. Sidebar.SidebarState.HandleDelete
  runs to completion with the outcome of its request as a parameter, so
  other state updates that interleave with the awaited request are not
  modelled.
- `router.refresh()`, navigation, the mobile toggle and the rest of the
  presentational components (ChatWindow, layout, styling, textarea resizing)
  are not part of this model.

## Findings

| source | as written | input that shows it | evidently intended | confidence | as-written member | corrected member |
|---|---|---|---|---|---|---|
| src/app/api/chat/route.ts:58-62 | The history query sorts by creation time ascending and keeps 20 rows, so it returns the OLDEST 20 messages. Beyond 20 messages the newly stored message is not among them, and dropping the last row removes the 20th oldest message instead | a chat holding 20 messages, so that the new one is the 21st: the history sent is messages 1..19 and leaves out message 20, the one just before the new one | the most recent 20 messages, so that the history ends with the message just before the current one | not executed | ChatRoute.OldestWindowDropsPrevious | ChatRoute.RecentPastHistoryPrecedesCurrent |
