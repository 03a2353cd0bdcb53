/** The records of the chats collection and the projection returned to callers. */
module ChatDomain {
  import opened ObjectIds

  /** A stored chat exchange; timestamps are modelled as integers. */
  datatype ChatMessage = ChatMessage(
    id: ObjectId,
    userId: ObjectId,
    message: string,
    response: string,
    timeStamp: int)

  /** The message/response pair handed back to callers. */
  datatype ChatResponse = ChatResponse(message: string, response: string)

  function ToResponse(m: ChatMessage): ChatResponse {
    ChatResponse(m.message, m.response)
  }

  /** The projection of every record of `s`, in order. */
  function Responses(s: seq<ChatMessage>): seq<ChatResponse> {
    seq(|s|, i requires 0 <= i < |s| => ToResponse(s[i]))
  }

  /** The `_id` of every record of `s`, in order. */
  function Ids(s: seq<ChatMessage>): seq<ObjectId> {
    seq(|s|, i requires 0 <= i < |s| => s[i].id)
  }
}
