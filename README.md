# obsidian-llm-chat: a Dafny model of the chat core

This project models the core of an Obsidian plugin that chats with an LLM
through an OpenAI-style `/v1/chat/completions` endpoint. It covers:

- **The conversation store** (`src/App.tsx`). This is the list of chats,
  newest first, plus the id of the open chat. The updates that rebuild the
  list are pure functions in `ChatStore.dfy`: `deleteChat`'s filter is
  `RemoveChat`, `updateChatTitle`'s map is `RenameChat`, and `addMessage`'s
  map is `AddMessageTo` over the upsert `UpsertMessage`. The `activeChat`
  lookup is `FindChat` / `ActiveChatOf`. The class
  `ChatStore.ConversationStore` holds the two pieces of state. Its methods
  apply those functions; `createChat`, `openChat` and `closeChat` are
  direct assignments there (prepend the new chat, set or clear the open id).
- **The chat window's send path** (`src/ChatWindow/ChatWindow.tsx`). This
  covers the guard on the input box, the prompt built from the conversation,
  and the loop that reads the streamed completion. The loop splits the text
  at "\n" and classifies each line: not `data:`, `data: [DONE]`, or a
  payload. It accumulates each non-empty delta into the assistant's reply and
  hands every version of the reply to the host. `ChatWindow.Controller`
  holds the window's state (`messageText`, `isStreaming`), the log of
  messages handed to `onMessageSent`, and the log of prompts posted.
  `StreamParser.dfy` is the specification the loop is proved against. It
  fixes which complete lines the received chunks hold (`Lines`, `Pending`),
  how each line is classified (`Classify`, `Kinds`), and which deltas a run
  of classified lines yields up to the first `[DONE]` (`Deltas`, `Stops`).
  It also fixes which reply versions are handed over (`Commits`).
- **How an assistant message is split into answer text and `<think>`
  reasoning** (`src/ChatWindow/ChatWindowMessage.tsx`,
  `renderAssistantContent`). The loop is `Segments.RenderAssistantContent`.
  It is proved equal to the recursive scan `ScanText`. A well-formed reading
  of a content is a segment list that, put back together with the markers,
  is exactly the content, untrimmed and in order, with no marker starting
  inside a segment of its kind. The scan is proved to be such a reading,
  and the only one.
- **Records** (`src/types.ts`) are the datatypes in `Types.dfy`.
- **JavaScript string built-ins** used by the core are in `Strings.dfy`:
  `indexOf`, `startsWith`, `trim`, the `^data:\s*` removal and
  `split("\n")`. What `split` returns is stated by `SplitPiecesFree`,
  `JoinSplit`, `SplitJoin` and `SplitAppend`. `Join` is the inverse they
  state it against; the core itself never joins. `Concat` is the text a
  run of chunks adds up to (`ConcatAppend`). `Contains` says that a
  pattern occurs somewhere in a text.

The host is modelled as parameters and logs:

- The network response is the parameter `response`. It is either `Failed`,
  or the decoded text chunks plus a flag saying whether a later read threw.
- JSON decoding of a payload is the parameter `decode`. It yields
  `Malformed` or the value of `choices?.[0]?.delta?.content`. It is also
  `Malformed` when the payload parses to a value whose `choices` cannot be
  read, such as `null`, since that lookup throws inside the same `try`.
- Message ids (random UUIDs) and timestamps are parameters.
- `ChatWindow.SendDelivers` ties the window to the store. When the host
  applies the log of one send through `addMessage`'s upsert, the
  conversation gains the user's message and then one reply carrying all
  streamed text.

The code does several things a reader of the design might not expect. The
model follows the code:

- A closed `<think></think>` region yields an empty reasoning segment.
  The code pushes it without checking for emptiness.
- `data: [DONE]\r`, as sent with "\r\n" line endings, is not the end marker.
  After splitting at "\n" the "\r" stays, so the line is taken for a payload
  (`StreamParser.CarriageReturnDone`).
- A last line that the stream does not end with "\n" is never parsed
  (`StreamParser.TrailingLineIgnored`).
- A stream that ends without `[DONE]` and without an error leaves
  `isStreaming` set, so the window refuses further sends
  (`ChatWindow.StillStreaming`, in `Controller.SendMessage`).
- `deleteChat`, `updateChatTitle` and `addMessage` act on every chat
  carrying the id, not only the first one. `activeChat` is the first.

## Model

| member | source | states |
|---|---|---|
| Strings.IndexOf | src/ChatWindow/ChatWindowMessage.tsx:15 | `indexOf(pat, from)` is -1 or a position at or after `from` where the pattern still fits |
| Strings.IndexOfFirst | src/ChatWindow/ChatWindowMessage.tsx:34 | the result of `indexOf` is the first occurrence at or after `from`, and -1 exactly when there is none |
| Strings.TrimStart | src/ChatWindow/ChatWindow.tsx:88 | what `^\s*` removal leaves is a suffix, everything removed is white space, and it does not start with white space |
| Strings.TrimStartAfterBlank | src/ChatWindow/ChatWindow.tsx:88 | blank text followed by text that does not start with white space loses exactly the blank text |
| Strings.TrimEnd | src/ChatWindow/ChatWindowMessage.tsx:60 | trailing-space removal leaves a prefix, removes only white space and does not end in white space |
| Strings.TrimEmptyIffBlank | src/ChatWindow/ChatWindow.tsx:37 | `trim()` is empty exactly when the text is all white space |
| Strings.SplitPiecesFree | src/ChatWindow/ChatWindow.tsx:83 | no piece of `split(sep)` holds the separator |
| Strings.JoinSplit | src/ChatWindow/ChatWindow.tsx:83 | joining the pieces of `split(sep)` with `sep` gives the text back |
| Strings.SplitJoin | src/ChatWindow/ChatWindow.tsx:83 | splitting pieces free of the separator after joining them gives the pieces back |
| Strings.SplitAppend | src/ChatWindow/ChatWindow.tsx:82-84 | splitting `x + y` splits `x` and re-splits its last piece followed by `y` |
| Strings.LeadingAppend | src/ChatWindow/ChatWindow.tsx:82-84 | the complete pieces and the remainder of `x + y` are those of `x` followed by those of its remainder plus `y` |
| Strings.ConcatAppend | src/ChatWindow/ChatWindow.tsx:82 | accumulating two runs of chunks is accumulating their concatenation |
| Segments.RenderAssistantContent | src/ChatWindow/ChatWindowMessage.tsx:8-51 | the scan loop yields exactly the segments of the recursive text-mode scan from position 0 |
| Segments.ScanWellFormed | src/ChatWindow/ChatWindowMessage.tsx:13-51 | the segments, each text one preceded by nothing or a closer and each reasoning one by `<think>`, and each followed by its marker unless it runs, non-empty, to the end, make up exactly the content with nothing lost, trimmed or reordered. No segment holds the marker that ends its kind, no text segment is empty, and no two neighbouring segments are both text |
| Segments.ScanUnique | src/ChatWindow/ChatWindowMessage.tsx:13-51 | any well-formed reading of the content is the scan's segment list, so the scan is determined by that reading |
| Segments.TextReadingsAgree | src/ChatWindow/ChatWindowMessage.tsx:13-51 | two text-mode readings of the same content from the same cursor are equal |
| Segments.ReadingMarkerFree | src/ChatWindow/ChatWindowMessage.tsx:15-22 | every segment of a reading holds no marker of its own kind, and text segments are non-empty |
| Segments.ReadingAlternates | src/ChatWindow/ChatWindowMessage.tsx:13-51 | a reading never puts two text segments side by side |
| Segments.NoOpenerOneText | src/ChatWindow/ChatWindowMessage.tsx:15-22 | content without `<think>` is one text segment, or none when empty |
| Segments.ClosedRegion | src/ChatWindow/ChatWindowMessage.tsx:13-51 | text without `<think>`, `<think>`, reasoning without `</think>`, `</think>`, text without `<think>` gives the texts when non-empty and the reasoning even when empty, untrimmed |
| Segments.UnterminatedRegion | src/ChatWindow/ChatWindowMessage.tsx:13-41 | text without `<think>`, then `<think>` and reasoning without `</think>` to the end, gives the text when non-empty and the reasoning as a final think segment when non-empty |
| Segments.DisplayText | src/ChatWindow/ChatWindowMessage.tsx:53-67 | a displayed segment is empty exactly when its text is blank |
| Segments.Rendered | src/ChatWindow/ChatWindowMessage.tsx:79-85 | a user's message is one untrimmed block; any other message shows one block per scanned segment |
| ChatStore.FindChat | src/App.tsx:10 | the chat found carries the id and is listed; none is found exactly when no chat carries the id |
| ChatStore.FindChatFirst | src/App.tsx:10 | the chat found is the first one carrying the id |
| ChatStore.ActiveChatOf | src/App.tsx:9-10 | `activeChat` carries the open id and is listed; it is missing exactly when no chat is open or none carries the open id |
| ChatStore.RemoveChat | src/App.tsx:18 | the filter keeps exactly the chats not carrying the id |
| ChatStore.RemoveChatAppend | src/App.tsx:18 | the filter keeps order: filtering a concatenation filters each part |
| ChatStore.RemoveChatAbsent | src/App.tsx:18 | deleting an id no chat carries changes nothing |
| ChatStore.RemoveChatIdempotent | src/App.tsx:16-19 | deleting twice is deleting once |
| ChatStore.RenameChat | src/App.tsx:29-36 | every chat carrying the id gets the title; order, ids, dates and messages are untouched |
| ChatStore.RenameChatIdempotent | src/App.tsx:29-36 | renaming twice to the same title is renaming once |
| ChatStore.ReplaceById | src/App.tsx:46 | every message carrying the id is replaced, the others kept in place |
| ChatStore.UpsertMessage | src/App.tsx:43-47 | a message whose id is present replaces every message with that id in place; otherwise it is appended after the unchanged list |
| ChatStore.UpsertFresh | src/App.tsx:47 | a message with a new id is appended at the end |
| ChatStore.UpsertHolds | src/App.tsx:43-47 | after the upsert the message is in the list under its id |
| ChatStore.UpsertIdempotent | src/App.tsx:43-47 | upserting the same message twice is upserting once |
| ChatStore.UpsertUnique | src/App.tsx:43-47 | the upsert keeps message ids distinct |
| ChatStore.AddMessageTo | src/App.tsx:38-52 | each chat carrying the chat id gets the upserted messages, with its other fields kept; every other chat is unchanged |
| ChatStore.AddMessageIdempotent | src/App.tsx:38-52 | adding the same message to the same chat twice is adding it once |
| ChatStore.AddMessageUnique | src/App.tsx:38-52 | `addMessage` keeps each chat's message ids distinct |
| ChatStore.FindAfterAdd | src/App.tsx:38-52 | after `addMessage` the chat found under the id is the one found before, with the message upserted |
| ChatStore.ConversationStore.constructor | src/App.tsx:8-9 | the store starts with the saved chats and no chat open |
| ChatStore.ConversationStore.ActiveChat | src/App.tsx:10 | the shown chat carries the open id and is listed, and exists whenever the open id is listed |
| ChatStore.ConversationStore.CreateChat | src/App.tsx:12-14 | the new chat goes first, the open chat stays open and listed |
| ChatStore.ConversationStore.OpenChat | src/App.tsx:21-23 | the id becomes the open one; the open chat is listed exactly when the id is |
| ChatStore.ConversationStore.CloseChat | src/App.tsx:25-27 | no chat is open; the list is unchanged |
| ChatStore.ConversationStore.DeleteChat | src/App.tsx:16-19 | the chats carrying the id are dropped, the chat is closed if it was open, and an open listed chat stays listed |
| ChatStore.ConversationStore.UpdateChatTitle | src/App.tsx:29-36 | the list is renamed; the open chat stays open and listed |
| ChatStore.ConversationStore.AddMessage | src/App.tsx:38-52 | the message is upserted into the chats carrying the id; distinct message ids and a listed open chat are kept |
| StreamParser.Classify | src/ChatWindow/ChatWindow.tsx:87-89 | a line is ignored exactly when it lacks `data:`. A stop line is `data:`, white space, `[DONE]`. A payload is what follows `data:` and its white space, and is not `[DONE]` |
| StreamParser.StopIff | src/ChatWindow/ChatWindow.tsx:87-92 | a line ends the stream exactly when it is `data:`, white space and `[DONE]` |
| StreamParser.CarriageReturnDone | src/ChatWindow/ChatWindow.tsx:83-89 | `data: [DONE]\r` is a payload `[DONE]\r`, not the end marker |
| StreamParser.KindsAt | src/ChatWindow/ChatWindow.tsx:86-88 | the k-th classified line is the classification of the k-th line |
| StreamParser.KindsAppend | src/ChatWindow/ChatWindow.tsx:86 | classifying two runs of lines classifies each run |
| StreamParser.DeltasAppend | src/ChatWindow/ChatWindow.tsx:86-103 | reading more lines appends their deltas, unless the lines already read held `[DONE]` |
| StreamParser.UntilStop | src/ChatWindow/ChatWindow.tsx:89-92 | lines after the first `[DONE]` contribute nothing |
| StreamParser.LineStep | src/ChatWindow/ChatWindow.tsx:86-103 | one more line stops the stream exactly when it is `[DONE]`; otherwise it adds its payload's non-empty delta, if any, and nothing else |
| StreamParser.StopAfter | src/ChatWindow/ChatWindow.tsx:89-92 | once a prefix of a chunk's lines stops the stream, the rest of them changes nothing |
| StreamParser.Commits | src/ChatWindow/ChatWindow.tsx:96-99 | one reply version is handed over per delta |
| StreamParser.CommitsContent | src/ChatWindow/ChatWindow.tsx:96-99 | the k-th version handed over is the reply carrying the first k+1 deltas |
| StreamParser.CommitsSnoc | src/ChatWindow/ChatWindow.tsx:96-99 | one more delta hands over one more version, carrying all text so far |
| StreamParser.LinesReassemble | src/ChatWindow/ChatWindow.tsx:82-84 | the complete lines and the buffer, joined with "\n", are the received text; no line and not the buffer holds "\n" |
| StreamParser.LinesStep | src/ChatWindow/ChatWindow.tsx:82-84 | appending a chunk to the buffer and splitting yields exactly the lines that chunk completes, and the new buffer |
| StreamParser.ChunkStep | src/ChatWindow/ChatWindow.tsx:80-84 | the same step, stated on the chunks read so far |
| StreamParser.LinesPrefix | src/ChatWindow/ChatWindow.tsx:79-84 | the lines of all chunks are the lines of the first i chunks followed by those of their buffer plus the rest |
| StreamParser.TrailingLineIgnored | src/ChatWindow/ChatWindow.tsx:79-84 | a final chunk without "\n" completes no line |
| StreamParser.EventsStep | src/ChatWindow/ChatWindow.tsx:79-88 | reading chunk i adds exactly the classified lines it completes |
| StreamParser.StopIsFinal | src/ChatWindow/ChatWindow.tsx:89-92 | once the lines read hold `[DONE]`, the chunks not yet read change neither the stop nor the deltas, so the loop may return |
| ChatWindow.FormatMessagesForPrompt | src/ChatWindow/ChatWindow.tsx:32-34 | the prompt has one entry per message, in order, with its role and text |
| ChatWindow.FormatForgetsIdentity | src/ChatWindow/ChatWindow.tsx:28-30 | two messages format alike exactly when their roles and texts agree |
| ChatWindow.FormatAppend | src/ChatWindow/ChatWindow.tsx:32-34 | formatting a concatenation formats each part |
| ChatWindow.Controller.constructor | src/ChatWindow/ChatWindow.tsx:22-23 | the input is empty, nothing streams, nothing has been sent or posted |
| ChatWindow.Controller.EditMessageText | src/ChatWindow/ChatWindow.tsx:167 | the input becomes the text; nothing else changes |
| ChatWindow.Controller.Submit | src/ChatWindow/ChatWindow.tsx:38-67 | the window streams and the input is cleared. The user's message, then the empty reply, are handed over. The conversation followed by the user's message is posted |
| ChatWindow.Controller.Receive | src/ChatWindow/ChatWindow.tsx:59-108 | every reply version the response yields is handed over. Streaming stops on a failed request, a failed read or `[DONE]` |
| ChatWindow.Controller.SendMessage | src/ChatWindow/ChatWindow.tsx:36-109 | a blank input or a running stream changes nothing. Otherwise the input is cleared and the prompt is posted. The user's message, the empty reply and every reply version are handed over in that order. The window keeps streaming only after a stream that ended without `[DONE]` or an error |
| ChatWindow.ReadStream | src/ChatWindow/ChatWindow.tsx:74-104 | the loop reports `[DONE]` exactly when the received lines hold it, and hands over exactly the versions of the reply their deltas make |
| ChatWindow.ReadChunk | src/ChatWindow/ChatWindow.tsx:82-86 | one round of the loop keeps the text after the last "\n" as buffer and handles the lines before it |
| ChatWindow.HandleLines | src/ChatWindow/ChatWindow.tsx:86-103 | the inner loop stops exactly at `[DONE]`; the reply and the versions handed over follow the deltas of the lines read |
| ChatWindow.HandleLine | src/ChatWindow/ChatWindow.tsx:87-102 | one line: skipped, stop, or growth of the reply by its non-empty delta with that version handed over |
| ChatWindow.UpsertLast | src/App.tsx:43-47 | a new version of the last message, under its id, replaces it in place |
| ChatWindow.DeliverCommits | src/ChatWindow/ChatWindow.tsx:96-99 | applying every version handed over leaves one copy of the reply, at the end, carrying all streamed text |
| ChatWindow.SendDelivers | src/App.tsx:59 | applying everything one send hands over to a conversation lacking both ids appends the user's message and then the complete reply |

## Left out

- JSX rendering, markdown and the `<details>` layout are not modelled. Only
  the segment list and its trimmed display text are.
- Persistence of the chat list in local storage (`src/hooks.ts`) is not
  modelled. The store's constructor takes the loaded list.
- `fetch`, `TextDecoder` and `JSON.parse` are not modelled. They become the
  parameters `response` (chunks already decoded to text) and `decode`.
- `crypto.randomUUID()` and `new Date()` are parameters.
- ChatWindow.Controller.Submit: the request log keeps only the body's
  `messages`. The model name and the API URL come from the plugin
  settings. The method `POST`, the `Content-Type` header and `stream: true`
  are constants of the code. None of these is modelled.
- Text is a sequence of Dafny characters. JavaScript's UTF-16 code units
  and surrogate pairs are not modelled.
- The send path is modelled as one atomic method. Interleavings are not
  modelled: awaits, React's batched state updates, and the stale
  `messageText` / `isStreaming` closure values a re-render would bring.
- ChatWindow.HandleLine: `assistantMessage.content += delta` updates the
  object that was handed over first. The model hands over values, so that
  aliasing is not captured.
- ChatWindow.HandleLine: a delta that is a truthy non-string (a number or
  an object, which `+=` would stringify) is not modelled. `decode` yields
  only strings.
- The title-editing and delete/close UI of the window are left out:
  `startEditingTitle`, the title input, and the header buttons. The store
  side of renaming and deleting is modelled.
- The chat list component (`src/ChatList`) is not part of this model, nor
  is the plugin entry point `main.tsx`.
- Segments.Rendered: only the number of blocks of a non-user message is
  stated, not their content. `DisplayText` states the trimming per block.
