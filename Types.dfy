/**
 * The records the chat plugin stores and passes around: a conversation
 * (`Chat`) and the messages in it. Timestamps are kept as integers
 * (milliseconds); the host's `Date` objects are not modelled.
 */
module Types {

  datatype Option<+T> = None | Some(value: T)

  /** The three message roles. */
  datatype Role = User | Assistant | Error

  /** One message of a conversation. `id` is a random UUID string. */
  datatype ChatMessage = ChatMessage(id: string, role: Role, content: string, createdAt: int)

  /** A conversation. `id` is the creation time in milliseconds. */
  datatype Chat = Chat(id: int, title: string, createdAt: int, messages: seq<ChatMessage>)

  /** Some message of `messages` carries `id`. */
  predicate HasId(messages: seq<ChatMessage>, id: string) {
    exists k :: 0 <= k < |messages| && messages[k].id == id
  }

  /** No two messages of `messages` share an id. */
  predicate UniqueIds(messages: seq<ChatMessage>) {
    forall i, j :: 0 <= i < j < |messages| ==> messages[i].id != messages[j].id
  }
}
