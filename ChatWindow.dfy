/**
 * The chat window's send path: the guard on the input box, the prompt
 * built from the conversation, and the loop that reads the completion
 * stream, growing the assistant's reply and handing every version of it
 * to the host (`onMessageSent`).
 *
 * The network is not modelled: the outcome of the request is the
 * parameter `response`, already cut into the text chunks the decoder
 * yields. Message ids (random UUIDs) and timestamps are parameters too.
 */
module ChatWindow {
  import opened Types
  import opened Strings
  import opened StreamParser
  import ChatStore

  /** A message as the completions endpoint receives it: role and text only. */
  datatype PromptMessage = PromptMessage(role: Role, content: string)

  /** One message as it is sent in a prompt. */
  function FormatForPrompt(message: ChatMessage): (entry: PromptMessage) {
    PromptMessage(message.role, message.content)
  }

  /** Two messages look the same to the model exactly when their roles and texts agree. */
  lemma FormatForgetsIdentity(a: ChatMessage, b: ChatMessage)
    ensures FormatForPrompt(a) == FormatForPrompt(b) <==> a.role == b.role && a.content == b.content
  {
  }

  /** The whole conversation as a prompt, message by message, in order. */
  function FormatMessagesForPrompt(messages: seq<ChatMessage>): (r: seq<PromptMessage>)
    ensures |r| == |messages|
    ensures forall k :: 0 <= k < |r| ==> r[k].role == messages[k].role && r[k].content == messages[k].content
    decreases |messages|
  {
    if messages == [] then [] else [FormatForPrompt(messages[0])] + FormatMessagesForPrompt(messages[1..])
  }

  /** Formatting a conversation formats each part of it separately. */
  lemma {:induction false} FormatAppend(a: seq<ChatMessage>, b: seq<ChatMessage>)
    ensures FormatMessagesForPrompt(a + b) == FormatMessagesForPrompt(a) + FormatMessagesForPrompt(b)
    decreases |a|
  {
    if a != [] {
      assert (a + b)[0] == a[0];
      assert (a + b)[1..] == a[1..] + b;
      FormatAppend(a[1..], b);
    }
  }

  /**
   * What the request to the completions endpoint produced: `Failed` when
   * the request throws or the response is not ok or has no body;
   * otherwise the chunks read before the stream ended, and whether a read
   * failed after them.
   */
  datatype Response = Failed | Stream(chunks: seq<string>, interrupted: bool)

  /** The reply versions a response hands to the host. */
  function Replies(reply: ChatMessage, response: Response, decode: string -> Frame): (versions: seq<ChatMessage>) {
    if response.Failed? then [] else Commits(reply, Deltas(Events(response.chunks), decode))
  }

  /**
   * Whether the window is still marked as streaming after a response:
   * only a stream that ended without "[DONE]" and without an error leaves
   * it so.
   */
  predicate StillStreaming(response: Response) {
    response.Stream? && !response.interrupted && !Stops(Events(response.chunks))
  }

  /** The chat window's own state. */
  class Controller {
    /** The text in the input box. */
    var messageText: string
    /** Whether a reply is being streamed; sending is refused meanwhile. */
    var isStreaming: bool
    /** Every message handed to `onMessageSent`, oldest first. */
    var sent: seq<ChatMessage>
    /** The `messages` of every request posted to the completions endpoint, oldest first. */
    var requests: seq<seq<PromptMessage>>

    constructor()
      ensures messageText == [] && !isStreaming && sent == [] && requests == []
    {
      messageText := [];
      isStreaming := false;
      sent := [];
      requests := [];
    }

    /** The input box's change handler. */
    method EditMessageText(text: string)
      modifies this
      ensures messageText == text
      ensures isStreaming == old(isStreaming) && sent == old(sent) && requests == old(requests)
    {
      messageText := text;
    }

    /** A message may be sent: the input is not blank and no reply is streaming. */
    predicate CanSend()
      reads this
    {
      Trim(messageText) != [] && !isStreaming
    }

    /**
     * The part of a send before the request: marks the window as
     * streaming, hands the user's message and the empty reply to the host,
     * clears the input, and posts the conversation followed by the user's
     * message as the prompt.
     */
    method Submit(chat: Chat, user: ChatMessage, reply: ChatMessage)
      modifies this
      ensures isStreaming && messageText == []
      ensures sent == old(sent) + [user] + [reply]
      ensures requests == old(requests) + [FormatMessagesForPrompt(chat.messages + [user])]
    {
      isStreaming := true;
      sent := sent + [user];
      var promptMessages := chat.messages + [user];
      messageText := [];
      sent := sent + [reply];
      requests := requests + [FormatMessagesForPrompt(promptMessages)];
    }

    /**
     * Sends the input as a user message, then streams the assistant's
     * reply. `decode` stands for the JSON decoding of a payload.
     */
    method SendMessage(chat: Chat, userId: string, userAt: int, replyId: string, replyAt: int,
                       response: Response, decode: string -> Frame)
      modifies this
      ensures !old(CanSend()) ==>
        messageText == old(messageText) && isStreaming == old(isStreaming)
        && sent == old(sent) && requests == old(requests)
      ensures old(CanSend()) ==>
        var user := ChatMessage(userId, User, old(messageText), userAt);
        var reply := ChatMessage(replyId, Assistant, [], replyAt);
        messageText == []
        && requests == old(requests) + [FormatMessagesForPrompt(chat.messages + [user])]
        && sent == old(sent) + [user] + [reply] + Replies(reply, response, decode)
        && isStreaming == StillStreaming(response)
    {
      if Trim(messageText) == [] || isStreaming {
        return;
      }
      var userMessage := ChatMessage(userId, User, messageText, userAt);
      var reply := ChatMessage(replyId, Assistant, [], replyAt);
      Submit(chat, userMessage, reply);
      Receive(reply, response, decode);
    }

    /**
     * The part of a send after the request: every version of the growing
     * reply is handed to the host, and the window stops streaming when the
     * request fails, a read fails, or "[DONE]" arrives.
     */
    method Receive(reply: ChatMessage, response: Response, decode: string -> Frame)
      modifies this
      ensures sent == old(sent) + Replies(reply, response, decode)
      ensures isStreaming == (old(isStreaming) && StillStreaming(response))
      ensures messageText == old(messageText) && requests == old(requests)
    {
      if response.Failed? {
        assert sent + Replies(reply, response, decode) == sent;
        isStreaming := false;
        return;
      }
      var commits, stopped := ReadStream(response.chunks, reply, decode);
      sent := sent + commits;
      if stopped || response.interrupted {
        isStreaming := false;
      }
    }
  }

  /**
   * The stream loop: reads the chunks into a line buffer and hands each
   * batch of complete lines on, returning every version of `reply` handed
   * over and whether "[DONE]" ended the stream.
   */
  method ReadStream(chunks: seq<string>, reply: ChatMessage, decode: string -> Frame)
    returns (commits: seq<ChatMessage>, stopped: bool)
    ensures stopped == Stops(Events(chunks))
    ensures commits == Commits(reply, Deltas(Events(chunks), decode))
  {
    var assistantMessage := reply;
    commits := [];
    var buffer: string := [];
    var i := 0;
    while i < |chunks|
      invariant 0 <= i <= |chunks|
      invariant buffer == Pending(chunks[..i])
      invariant !Stops(Events(chunks[..i]))
      invariant assistantMessage == reply.(content := reply.content + Concat(Deltas(Events(chunks[..i]), decode)))
      invariant commits == Commits(reply, Deltas(Events(chunks[..i]), decode))
    {
      ChunkStep(chunks, i);
      EventsStep(chunks, i);
      buffer, commits, assistantMessage, stopped :=
        ReadChunk(buffer, chunks[i], Events(chunks[..i]), reply, decode, commits, assistantMessage);
      if stopped {
        StopIsFinal(chunks, i + 1, decode);
        return;
      }
      i := i + 1;
    }
    assert chunks[..|chunks|] == chunks;
    stopped := false;
  }

  /**
   * One round of the stream loop: appends a chunk to the buffer, keeps
   * the text after its last "\n" as the new buffer, and handles the
   * complete lines before it.
   */
  method ReadChunk(buffer0: string, chunk: string, ghost seen: seq<Line>, reply: ChatMessage, decode: string -> Frame,
                   commits0: seq<ChatMessage>, message0: ChatMessage)
    returns (buffer: string, commits: seq<ChatMessage>, message: ChatMessage, stopped: bool)
    requires !Stops(seen)
    requires message0 == reply.(content := reply.content + Concat(Deltas(seen, decode)))
    requires commits0 == Commits(reply, Deltas(seen, decode))
    ensures buffer == LastPiece(buffer0 + chunk, NewLine)
    ensures var now := seen + Kinds(LeadingPieces(buffer0 + chunk, NewLine));
      stopped == Stops(now)
      && commits == Commits(reply, Deltas(now, decode))
      && message == reply.(content := reply.content + Concat(Deltas(now, decode)))
  {
    buffer := buffer0 + chunk;
    var pieces := Split(buffer, NewLine);
    buffer := pieces[|pieces| - 1];
    var lines := pieces[..|pieces| - 1];
    commits, message, stopped := HandleLines(lines, seen, reply, decode, commits0, message0);
  }

  /**
   * The inner loop: handles the complete lines of one chunk, after the
   * lines `before` that did not end the stream, until "[DONE]".
   */
  method HandleLines(lines: seq<string>, ghost before: seq<Line>, reply: ChatMessage, decode: string -> Frame,
                     commits0: seq<ChatMessage>, message0: ChatMessage)
    returns (commits: seq<ChatMessage>, message: ChatMessage, stopped: bool)
    requires !Stops(before)
    requires message0 == reply.(content := reply.content + Concat(Deltas(before, decode)))
    requires commits0 == Commits(reply, Deltas(before, decode))
    ensures stopped == Stops(before + Kinds(lines))
    ensures commits == Commits(reply, Deltas(before + Kinds(lines), decode))
    ensures message == reply.(content := reply.content + Concat(Deltas(before + Kinds(lines), decode)))
  {
    commits, message := commits0, message0;
    ghost var done := before;
    var j := 0;
    while j < |lines|
      invariant 0 <= j <= |lines|
      invariant done == before + Kinds(lines[..j])
      invariant !Stops(done)
      invariant message == reply.(content := reply.content + Concat(Deltas(done, decode)))
      invariant commits == Commits(reply, Deltas(done, decode))
    {
      KindsSnoc(lines, j);
      AppendAssoc(before, Kinds(lines[..j]), [Classify(lines[j])]);
      commits, message, stopped := HandleLine(lines[j], done, reply, decode, commits, message);
      done := done + [Classify(lines[j])];
      if stopped {
        StopAfter(before, lines, j + 1, decode);
        return;
      }
      j := j + 1;
    }
    assert lines[..|lines|] == lines;
    stopped := false;
  }

  /**
   * The loop body for one line: a line without "data:" is skipped,
   * "[DONE]" stops the stream, and a payload whose delta is a non-empty
   * string grows the reply, which is then handed over. A payload that does
   * not decode, or has no delta, changes nothing.
   */
  method HandleLine(line: string, ghost done: seq<Line>, reply: ChatMessage, decode: string -> Frame,
                    commits0: seq<ChatMessage>, message0: ChatMessage)
    returns (commits: seq<ChatMessage>, message: ChatMessage, stopped: bool)
    requires !Stops(done)
    requires message0 == reply.(content := reply.content + Concat(Deltas(done, decode)))
    requires commits0 == Commits(reply, Deltas(done, decode))
    ensures stopped == Stops(done + [Classify(line)])
    ensures commits == Commits(reply, Deltas(done + [Classify(line)], decode))
    ensures message == reply.(content := reply.content + Concat(Deltas(done + [Classify(line)], decode)))
  {
    commits, message, stopped := commits0, message0, false;
    ghost var ds := Deltas(done, decode);
    var kind := Classify(line);
    LineStep(done, kind, decode);
    match kind {
      case Ignored =>
      case Stop =>
        stopped := true;
      case Payload(data) =>
        var frame := decode(data);
        if frame.Parsed? && frame.delta.Some? && frame.delta.value != [] {
          var delta := frame.delta.value;
          ConcatSnoc(ds, delta);
          AppendAssoc(reply.content, Concat(ds), delta);
          CommitsSnoc(reply, ds, delta);
          message := message.(content := message.content + delta);
          commits := commits + [message];
        }
    }
  }

  /** The messages the host holds after applying each handed-over message in turn. */
  function Deliver(messages: seq<ChatMessage>, log: seq<ChatMessage>): (r: seq<ChatMessage>)
    decreases |log|
  {
    if log == [] then messages else Deliver(ChatStore.UpsertMessage(messages, log[0]), log[1..])
  }

  /** A new version of the last message, under its id, replaces it in place. */
  lemma UpsertLast(before: seq<ChatMessage>, last: ChatMessage, next: ChatMessage)
    requires !HasId(before, last.id) && next.id == last.id
    ensures ChatStore.UpsertMessage(before + [last], next) == before + [next]
  {
    var messages := before + [last];
    assert messages[|before|].id == next.id;
    var r := ChatStore.UpsertMessage(messages, next);
    forall k | 0 <= k < |before| ensures r[k] == before[k] {
      assert messages[k] == before[k];
    }
  }

  /**
   * Replaying the commits of a growing reply leaves one copy of it, at
   * the end, carrying the whole text.
   */
  lemma {:induction false} DeliverCommits(before: seq<ChatMessage>, reply: ChatMessage, ds: seq<string>)
    requires !HasId(before, reply.id)
    ensures Deliver(before + [reply], Commits(reply, ds)) == before + [reply.(content := reply.content + Concat(ds))]
    decreases |ds|
  {
    if ds == [] {
      assert reply.content + Concat(ds) == reply.content;
    } else {
      var next := reply.(content := reply.content + ds[0]);
      var log := Commits(reply, ds);
      assert log == [next] + Commits(next, ds[1..]);
      UpsertLast(before, reply, next);
      assert Deliver(before + [reply], log) == Deliver(before + [next], Commits(next, ds[1..]));
      DeliverCommits(before, next, ds[1..]);
      var text := reply.content + Concat(ds);
      assert Concat(ds) == ds[0] + Concat(ds[1..]);
      AppendAssoc(reply.content, ds[0], Concat(ds[1..]));
      assert next.(content := text) == reply.(content := text);
    }
  }

  /** Delivering a log that starts with `message` upserts `message` first. */
  lemma DeliverCons(messages: seq<ChatMessage>, message: ChatMessage, log: seq<ChatMessage>)
    ensures Deliver(messages, [message] + log) == Deliver(ChatStore.UpsertMessage(messages, message), log)
  {
    assert ([message] + log)[0] == message;
    assert ([message] + log)[1..] == log;
  }

  /** Appending a message with another id keeps an id absent. */
  lemma StillAbsent(messages: seq<ChatMessage>, message: ChatMessage, id: string)
    requires !HasId(messages, id) && message.id != id
    ensures !HasId(messages + [message], id)
  {
    var all := messages + [message];
    forall k | 0 <= k < |all| ensures all[k].id != id {
      if k < |messages| {
        assert all[k] == messages[k];
      }
    }
  }

  /**
   * End to end: when the host applies everything a send hands over to a
   * conversation holding neither id, the conversation gains the user's
   * message and then the assistant's reply carrying all streamed text.
   */
  lemma SendDelivers(messages: seq<ChatMessage>, user: ChatMessage, reply: ChatMessage,
                     response: Response, decode: string -> Frame)
    requires !HasId(messages, user.id) && !HasId(messages, reply.id) && user.id != reply.id
    ensures var text := if response.Failed? then [] else Concat(Deltas(Events(response.chunks), decode));
      Deliver(messages, [user] + [reply] + Replies(reply, response, decode))
        == messages + [user] + [reply.(content := reply.content + text)]
  {
    var ds := if response.Failed? then [] else Deltas(Events(response.chunks), decode);
    var replies := Commits(reply, ds);
    assert Replies(reply, response, decode) == replies;
    assert [user] + [reply] + replies == [user] + ([reply] + replies);
    DeliverCons(messages, user, [reply] + replies);
    ChatStore.UpsertFresh(messages, user);
    StillAbsent(messages, user, reply.id);
    DeliverCons(messages + [user], reply, replies);
    ChatStore.UpsertFresh(messages + [user], reply);
    DeliverCommits(messages + [user], reply, ds);
  }
}
