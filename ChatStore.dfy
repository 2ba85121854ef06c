/**
 * The conversation store of the chat view: the list of chats (newest
 * first) and the id of the chat that is open, if any. The store's
 * updates are pure functions of the previous list, specified here first;
 * the class `ConversationStore` then holds the two pieces of state and
 * applies them, as the view's handlers do.
 */
module ChatStore {
  import opened Types

  /**
   * `chats.find(c => c.id === id)`: the first chat carrying `id`, or
   * none when no chat carries it.
   */
  function FindChat(chats: seq<Chat>, id: int): (r: Option<Chat>)
    ensures r.Some? ==> r.value in chats && r.value.id == id
    ensures r.None? <==> forall k :: 0 <= k < |chats| ==> chats[k].id != id
    decreases |chats|
  {
    if chats == [] then None
    else if chats[0].id == id then Some(chats[0])
    else FindChat(chats[1..], id)
  }

  /** The chat `FindChat` returns is the first one carrying `id`. */
  lemma {:induction false} FindChatFirst(chats: seq<Chat>, id: int, k: nat)
    requires k < |chats| && chats[k].id == id
    requires forall j :: 0 <= j < k ==> chats[j].id != id
    ensures FindChat(chats, id) == Some(chats[k])
    decreases k
  {
    if k > 0 {
      FindChatFirst(chats[1..], id, k - 1);
    }
  }

  /**
   * The chat the view shows: none when no chat is open (no chat's number
   * id equals `null`), otherwise the first chat with the open id.
   */
  function ActiveChatOf(chats: seq<Chat>, activeChatId: Option<int>): (r: Option<Chat>)
    ensures r.Some? ==> activeChatId == Some(r.value.id) && r.value in chats
    ensures r.None? <==> activeChatId.None? || forall k :: 0 <= k < |chats| ==> chats[k].id != activeChatId.value
  {
    if activeChatId.None? then None else FindChat(chats, activeChatId.value)
  }

  /** Some chat of `chats` carries `id`. */
  predicate Listed(chats: seq<Chat>, id: int) {
    exists k :: 0 <= k < |chats| && chats[k].id == id
  }

  /** `chats.filter(c => c.id !== id)`: every chat carrying `id` dropped, the rest in order. */
  function RemoveChat(chats: seq<Chat>, id: int): (r: seq<Chat>)
    ensures |r| <= |chats|
    ensures forall c :: c in r <==> c in chats && c.id != id
    decreases |chats|
  {
    if chats == [] then []
    else if chats[0].id == id then RemoveChat(chats[1..], id)
    else [chats[0]] + RemoveChat(chats[1..], id)
  }

  /** Filtering keeps order: filtering two lists one after the other is filtering their concatenation. */
  lemma {:induction false} RemoveChatAppend(a: seq<Chat>, b: seq<Chat>, id: int)
    ensures RemoveChat(a + b, id) == RemoveChat(a, id) + RemoveChat(b, id)
    decreases |a|
  {
    if a == [] {
      assert a + b == b;
    } else {
      assert (a + b)[1..] == a[1..] + b;
      RemoveChatAppend(a[1..], b, id);
    }
  }

  /** Deleting an id no chat carries leaves the list as it was. */
  lemma {:induction false} RemoveChatAbsent(chats: seq<Chat>, id: int)
    requires !Listed(chats, id)
    ensures RemoveChat(chats, id) == chats
    decreases |chats|
  {
    if chats != [] {
      assert !Listed(chats[1..], id) by {
        forall k | 0 <= k < |chats| - 1 ensures chats[1..][k].id != id {
          assert chats[1..][k] == chats[k + 1];
        }
      }
      RemoveChatAbsent(chats[1..], id);
      assert chats == [chats[0]] + chats[1..];
    }
  }

  /** Deleting twice is deleting once. */
  lemma {:induction false} RemoveChatIdempotent(chats: seq<Chat>, id: int)
    ensures RemoveChat(RemoveChat(chats, id), id) == RemoveChat(chats, id)
  {
    var r := RemoveChat(chats, id);
    assert !Listed(r, id) by {
      forall k | 0 <= k < |r| ensures r[k].id != id {
        assert r[k] in r;
      }
    }
    RemoveChatAbsent(r, id);
  }

  /**
   * `chats.map(c => c.id !== id ? c : { ...c, title })`: every chat
   * carrying `id` gets the new title; nothing else changes.
   */
  function RenameChat(chats: seq<Chat>, id: int, title: string): (r: seq<Chat>)
    ensures |r| == |chats|
    ensures forall k :: 0 <= k < |r| ==>
      r[k].id == chats[k].id && r[k].createdAt == chats[k].createdAt && r[k].messages == chats[k].messages
    ensures forall k :: 0 <= k < |r| ==> r[k].title == if chats[k].id == id then title else chats[k].title
    decreases |chats|
  {
    if chats == [] then []
    else
      var c := chats[0];
      [if c.id != id then c else c.(title := title)] + RenameChat(chats[1..], id, title)
  }

  /** Renaming twice to the same title is renaming once. */
  lemma RenameChatIdempotent(chats: seq<Chat>, id: int, title: string)
    ensures RenameChat(RenameChat(chats, id, title), id, title) == RenameChat(chats, id, title)
  {
    var once := RenameChat(chats, id, title);
    var twice := RenameChat(once, id, title);
    forall k | 0 <= k < |once| ensures twice[k] == once[k] {
      assert twice[k].title == once[k].title;
    }
  }

  /** `messages.map(m => m.id === message.id ? message : m)`. */
  function ReplaceById(messages: seq<ChatMessage>, message: ChatMessage): (r: seq<ChatMessage>)
    ensures |r| == |messages|
    ensures forall k :: 0 <= k < |r| ==> r[k] == if messages[k].id == message.id then message else messages[k]
    decreases |messages|
  {
    if messages == [] then []
    else [if messages[0].id == message.id then message else messages[0]] + ReplaceById(messages[1..], message)
  }

  /**
   * The message list after `addMessage` has handled one chat: when a
   * message with the same id is already there, every such message is
   * replaced in place; otherwise the message is appended.
   */
  function UpsertMessage(messages: seq<ChatMessage>, message: ChatMessage): (r: seq<ChatMessage>)
    ensures HasId(messages, message.id) ==>
      |r| == |messages| && forall k :: 0 <= k < |r| ==> r[k] == if messages[k].id == message.id then message else messages[k]
    ensures !HasId(messages, message.id) ==>
      |r| == |messages| + 1 && r[..|messages|] == messages && r[|messages|] == message
  {
    if HasId(messages, message.id) then ReplaceById(messages, message) else messages + [message]
  }

  /** A message with a new id is appended at the end. */
  lemma UpsertFresh(messages: seq<ChatMessage>, message: ChatMessage)
    requires !HasId(messages, message.id)
    ensures UpsertMessage(messages, message) == messages + [message]
  {
    var r := UpsertMessage(messages, message);
    assert r == r[..|messages|] + [r[|messages|]];
  }

  /** After an upsert the message is in the list under its id. */
  lemma UpsertHolds(messages: seq<ChatMessage>, message: ChatMessage)
    ensures message in UpsertMessage(messages, message)
    ensures HasId(UpsertMessage(messages, message), message.id)
  {
    var r := UpsertMessage(messages, message);
    if HasId(messages, message.id) {
      var k :| 0 <= k < |messages| && messages[k].id == message.id;
      assert r[k] == message;
    } else {
      assert r[|messages|] == message;
    }
  }

  /** Adding the same message twice gives the same list as adding it once. */
  lemma UpsertIdempotent(messages: seq<ChatMessage>, message: ChatMessage)
    ensures UpsertMessage(UpsertMessage(messages, message), message) == UpsertMessage(messages, message)
  {
    var once := UpsertMessage(messages, message);
    UpsertHolds(messages, message);
    var twice := UpsertMessage(once, message);
    forall k | 0 <= k < |once| ensures once[k].id == message.id ==> once[k] == message {
      if !HasId(messages, message.id) && k < |messages| {
        assert once[k] == once[..|messages|][k] == messages[k];
      }
    }
  }

  /** An upsert keeps the message ids of a list distinct. */
  lemma UpsertUnique(messages: seq<ChatMessage>, message: ChatMessage)
    requires UniqueIds(messages)
    ensures UniqueIds(UpsertMessage(messages, message))
  {
    var r := UpsertMessage(messages, message);
    if HasId(messages, message.id) {
      assert forall k :: 0 <= k < |r| ==> r[k].id == messages[k].id;
    } else {
      forall i, j | 0 <= i < j < |r| ensures r[i].id != r[j].id {
        if j == |messages| {
          assert r[i] == messages[i];
        } else {
          assert r[i] == messages[i] && r[j] == messages[j];
        }
      }
    }
  }

  /**
   * `addMessage`: in every chat carrying `chatId` the message list gets
   * the upsert; every other chat, and every other field, stays as it was.
   */
  function AddMessageTo(chats: seq<Chat>, chatId: int, message: ChatMessage): (r: seq<Chat>)
    ensures |r| == |chats|
    ensures forall k :: 0 <= k < |r| ==>
      r[k] == if chats[k].id == chatId then chats[k].(messages := UpsertMessage(chats[k].messages, message)) else chats[k]
    decreases |chats|
  {
    if chats == [] then []
    else
      var c := chats[0];
      [if c.id != chatId then c else c.(messages := UpsertMessage(c.messages, message))]
        + AddMessageTo(chats[1..], chatId, message)
  }

  /** Adding the same message to the same chat twice is adding it once. */
  lemma AddMessageIdempotent(chats: seq<Chat>, chatId: int, message: ChatMessage)
    ensures AddMessageTo(AddMessageTo(chats, chatId, message), chatId, message) == AddMessageTo(chats, chatId, message)
  {
    var once := AddMessageTo(chats, chatId, message);
    var twice := AddMessageTo(once, chatId, message);
    forall k | 0 <= k < |once| ensures twice[k] == once[k] {
      if chats[k].id == chatId {
        UpsertIdempotent(chats[k].messages, message);
      }
    }
  }

  /** Every chat's messages have distinct ids. */
  predicate AllUnique(chats: seq<Chat>) {
    forall k :: 0 <= k < |chats| ==> UniqueIds(chats[k].messages)
  }

  /** `addMessage` keeps every chat's message ids distinct. */
  lemma AddMessageUnique(chats: seq<Chat>, chatId: int, message: ChatMessage)
    requires AllUnique(chats)
    ensures AllUnique(AddMessageTo(chats, chatId, message))
  {
    var r := AddMessageTo(chats, chatId, message);
    forall k | 0 <= k < |r| ensures UniqueIds(r[k].messages) {
      if chats[k].id == chatId {
        UpsertUnique(chats[k].messages, message);
      }
    }
  }

  /**
   * What the open chat shows after `addMessage` on it: the same chat
   * with the message upserted (the first chat carrying the id is the one
   * found before and after).
   */
  lemma {:induction false} FindAfterAdd(chats: seq<Chat>, chatId: int, message: ChatMessage)
    ensures FindChat(AddMessageTo(chats, chatId, message), chatId) ==
      match FindChat(chats, chatId)
      case None => None
      case Some(c) => Some(c.(messages := UpsertMessage(c.messages, message)))
    decreases |chats|
  {
    if chats != [] && chats[0].id != chatId {
      var r := AddMessageTo(chats, chatId, message);
      assert r[1..] == AddMessageTo(chats[1..], chatId, message);
      FindAfterAdd(chats[1..], chatId, message);
    }
  }

  /**
   * The store of the chat view. `chats` is persisted by the host (the
   * persistence is not modelled: the constructor takes what was loaded);
   * `activeChatId` is the open chat's id, or none while the list shows.
   */
  class ConversationStore {
    var chats: seq<Chat>
    var activeChatId: Option<int>

    /** The store as it starts: the loaded chats, none of them open. */
    constructor(saved: seq<Chat>)
      ensures chats == saved && activeChatId == None
    {
      chats := saved;
      activeChatId := None;
    }

    /** `activeChat`: the chat the view shows, when one is open. */
    function ActiveChat(): (r: Option<Chat>)
      reads this
      ensures r.Some? ==> activeChatId == Some(r.value.id) && r.value in chats
      ensures activeChatId.Some? && Listed(chats, activeChatId.value) ==> r.Some?
    {
      ActiveChatOf(chats, activeChatId)
    }

    /**
     * The open chat's id, when there is one, names a listed chat, so the
     * view's `activeChat!` finds a chat.
     */
    predicate ActiveListed()
      reads this
    {
      activeChatId.Some? ==> Listed(chats, activeChatId.value)
    }

    /** `createChat`: the new chat goes first, the others follow in order. */
    method CreateChat(chat: Chat)
      modifies this
      ensures chats == [chat] + old(chats) && activeChatId == old(activeChatId)
      ensures old(ActiveListed()) ==> ActiveListed()
    {
      chats := [chat] + chats;
      if activeChatId.Some? && old(Listed(chats, activeChatId.value)) {
        var k :| 0 <= k < |old(chats)| && old(chats)[k].id == activeChatId.value;
        assert chats[k + 1] == old(chats)[k];
      }
    }

    /** `openChat`: the chat with `id` becomes the open one. */
    method OpenChat(id: int)
      modifies this
      ensures activeChatId == Some(id) && chats == old(chats)
      ensures ActiveListed() <==> Listed(chats, id)
    {
      activeChatId := Some(id);
    }

    /** `closeChat`: no chat is open any more. */
    method CloseChat()
      modifies this
      ensures activeChatId == None && chats == old(chats)
      ensures ActiveListed()
    {
      activeChatId := None;
    }

    /**
     * `deleteChat`: closes the chat first when it is the open one, then
     * drops every chat carrying `chatId`.
     */
    method DeleteChat(chatId: int)
      modifies this
      ensures chats == RemoveChat(old(chats), chatId)
      ensures activeChatId == if old(activeChatId) == Some(chatId) then None else old(activeChatId)
      ensures old(ActiveListed()) ==> ActiveListed()
    {
      if activeChatId == Some(chatId) {
        CloseChat();
      }
      chats := RemoveChat(chats, chatId);
      if activeChatId.Some? && old(Listed(chats, activeChatId.value)) {
        var k :| 0 <= k < |old(chats)| && old(chats)[k].id == activeChatId.value;
        var c := old(chats)[k];
        assert c in old(chats);
        assert c in chats;
        var j :| 0 <= j < |chats| && chats[j] == c;
      }
    }

    /** `updateChatTitle`: every chat carrying `id` gets the new title. */
    method UpdateChatTitle(id: int, title: string)
      modifies this
      ensures chats == RenameChat(old(chats), id, title) && activeChatId == old(activeChatId)
      ensures old(ActiveListed()) ==> ActiveListed()
    {
      chats := RenameChat(chats, id, title);
      if activeChatId.Some? && old(Listed(chats, activeChatId.value)) {
        var k :| 0 <= k < |old(chats)| && old(chats)[k].id == activeChatId.value;
        assert chats[k].id == activeChatId.value;
      }
    }

    /** `addMessage`: the message is upserted into every chat carrying `chatId`. */
    method AddMessage(chatId: int, message: ChatMessage)
      modifies this
      ensures chats == AddMessageTo(old(chats), chatId, message) && activeChatId == old(activeChatId)
      ensures old(ActiveListed()) ==> ActiveListed()
      ensures old(AllUnique(chats)) ==> AllUnique(chats)
    {
      if AllUnique(chats) {
        AddMessageUnique(chats, chatId, message);
      }
      chats := AddMessageTo(chats, chatId, message);
      if activeChatId.Some? && old(Listed(chats, activeChatId.value)) {
        var k :| 0 <= k < |old(chats)| && old(chats)[k].id == activeChatId.value;
        assert chats[k].id == activeChatId.value;
      }
    }
  }
}
