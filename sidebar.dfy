/** The sidebar's chat list: the search filter over the list held in state,
    and the optimistic delete that removes a chat at once and puts the list
    back when the server refuses. */
module Sidebar {

  import opened JsString
  import opened JsArray
  import opened Store

  /** The search test: the lower-cased title contains the lower-cased query. */
  predicate Matches(c: Chat, query: string) {
    Includes(ToLower(c.title), ToLower(query))
  }

  /** `filteredChats`: the chats the search keeps, in list order. */
  function FilteredChats(chats: seq<Chat>, query: string): seq<Chat> {
    Filter((c: Chat) => Matches(c, query), chats)
  }

  /** The filtered list keeps the list's order, and holds a chat exactly when
      the list holds it and its title contains the query, ignoring case. */
  lemma FilteredChatsSelects(chats: seq<Chat>, query: string)
    ensures IsSubsequence(FilteredChats(chats, query), chats)
    ensures forall c :: c in FilteredChats(chats, query) <==> c in chats && Matches(c, query)
  {
    FilterIsSubsequence((c: Chat) => Matches(c, query), chats);
  }

  /** An empty query keeps every chat. */
  lemma EmptyQueryKeepsAll(chats: seq<Chat>)
    ensures FilteredChats(chats, "") == chats
  {
    assert ToLower("") == "";
    forall c | c in chats ensures Matches(c, "") {
      assert OccursAt(ToLower(c.title), "", 0);
    }
    FilterKeepsAll((c: Chat) => Matches(c, ""), chats);
  }

  /** Queries that differ only in the case of their letters select the same
      chats. */
  lemma SearchIgnoresCase(chats: seq<Chat>, q1: string, q2: string)
    requires ToLower(q1) == ToLower(q2)
    ensures FilteredChats(chats, q1) == FilteredChats(chats, q2)
  {
    FilterCongruent((c: Chat) => Matches(c, q1), (c: Chat) => Matches(c, q2), chats);
  }

  /** The list without the chats whose id is `id`. */
  function WithoutId(chats: seq<Chat>, id: Id): seq<Chat> {
    Filter((c: Chat) => c.id != id, chats)
  }

  /** Removal by id keeps the others in order, leaves no chat with that id,
      and changes nothing when no chat has it. */
  lemma WithoutIdRemoves(chats: seq<Chat>, id: Id)
    ensures IsSubsequence(WithoutId(chats, id), chats)
    ensures forall c :: c in WithoutId(chats, id) <==> c in chats && c.id != id
    ensures (forall c | c in chats :: c.id != id) ==> WithoutId(chats, id) == chats
  {
    FilterIsSubsequence((c: Chat) => c.id != id, chats);
    if forall c | c in chats :: c.id != id {
      FilterKeepsAll((c: Chat) => c.id != id, chats);
    }
  }

  /** The sidebar component's state. `initialChats` is the `chats` prop the
      layout passes; `chats` is the state it seeds. */
  class SidebarState {
    var initialChats: seq<Chat>
    var chats: seq<Chat>
    var searchQuery: string

    constructor (initial: seq<Chat>)
      ensures initialChats == initial && chats == initial && searchQuery == ""
    {
      initialChats, chats, searchQuery := initial, initial, "";
    }

    /** The chats shown. */
    function Visible(): seq<Chat>
      reads this
    {
      FilteredChats(chats, searchQuery)
    }

    /** The search box's `onChange`. */
    method SetSearchQuery(query: string)
      modifies this
      ensures searchQuery == query
      ensures chats == old(chats) && initialChats == old(initialChats)
    {
      searchQuery := query;
    }

    /** A re-render with a new `chats` prop (after `router.refresh()`): the
        state keeps its own list, only the prop changes. */
    method ReceiveProps(initial: seq<Chat>)
      modifies this
      ensures initialChats == initial
      ensures chats == old(chats) && searchQuery == old(searchQuery)
    {
      initialChats := initial;
    }

    /** `handleDelete(id)`. `deleted` says whether the `DELETE` request
        answered with an ok status. The chat is removed at once; on failure
        the list becomes the `chats` prop, not the list as it stood just
        before this delete. */
    method HandleDelete(id: Id, deleted: bool)
      modifies this
      ensures chats == if deleted then WithoutId(old(chats), id) else initialChats
      ensures initialChats == old(initialChats) && searchQuery == old(searchQuery)
    {
      chats := WithoutId(chats, id);
      if !deleted {
        chats := initialChats;
      }
    }
  }
}
