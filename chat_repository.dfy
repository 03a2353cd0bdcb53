/**
 * The chat repository: an append-only message log per user whose history
 * read first runs a retention sweep that evicts the oldest messages.
 */
module Chat {
  import opened Outcomes
  import opened ObjectIds
  import opened ChatDomain
  import opened ChatStore

  /** The retention limit GetMessage passes to the sweep. */
  const Limit: int := 10

  class ChatRepository {
    /** The chats collection, in insertion order. */
    var messages: seq<ChatMessage>

    ghost predicate Valid()
      reads this
    {
      UniqueIds(messages)
    }

    /** A repository over an existing collection. */
    constructor (initial: seq<ChatMessage>)
      requires UniqueIds(initial)
      ensures Valid() && messages == initial
    {
      messages := initial;
    }

    /**
     * Inserts the message as given and answers with the stored record's
     * message/response pair. The insert is refused when the `_id` is taken.
     */
    method StoreMessage(message: ChatMessage) returns (r: Result<ChatResponse>)
      requires Valid()
      modifies this
      ensures Valid()
      ensures FindById(old(messages), message.id).Some? ==>
        r == Err(DuplicateKey) && messages == old(messages)
      ensures FindById(old(messages), message.id).None? ==>
        r == Ok(ToResponse(message)) && messages == old(messages) + [message]
    {
      if FindById(messages, message.id).Some? {
        return Err(DuplicateKey);
      }
      UniqueIdsAppend(messages, message);
      messages := messages + [message];
      // read the record back by its _id
      var stored := FindById(messages, message.id);
      SameIdSameRecord(messages, stored.value, message);
      r := Ok(ToResponse(stored.value));
    }

    /**
     * The retention sweep: when the user holds at least `limit` messages,
     * collects the ids of the oldest `count - limit` (all of them when that is
     * 0) and deletes them one at a time, stopping at the first failing delete,
     * which is the one at position `deleteFailsAt` of the list.
     */
    method DeleteChatMessage(id: string, limit: int, deleteFailsAt: nat) returns (status: Outcome)
      requires Valid()
      modifies this
      ensures Valid()
      ensures Swept(status, messages) == Sweep(old(messages), id, limit, deleteFailsAt)
    {
      var parsed := ParseObjectId(id);
      if parsed.None? {
        SweepRejectsMalformedId(messages, id, limit, deleteFailsAt);
        return Fail(InvalidObjectId);
      }
      var user := parsed.value;
      var chatCounter := |ForUser(messages, user)|;
      if chatCounter < limit {
        SweepBelowLimitIsNoOp(messages, id, limit, deleteFailsAt, user);
        return Pass;
      }
      var sorted := OldestFirst(messages, user);
      var cursor := sorted[..Taken(|sorted|, chatCounter - limit)];
      ghost var victims := Victims(messages, user, limit);
      SweepByVictims(messages, id, limit, deleteFailsAt, user);
      var deletedChat := CollectIds(cursor);
      assert deletedChat == victims;
      status := DeleteInOrder(deletedChat, deleteFailsAt);
    }

    /** Walks the sweep's cursor and collects each record's `_id`, in cursor order. */
    method CollectIds(cursor: seq<ChatMessage>) returns (ids: seq<ObjectId>)
      ensures |ids| == |cursor|
      ensures forall k :: 0 <= k < |ids| ==> ids[k] == cursor[k].id
    {
      ids := [];
      var i := 0;
      while i < |cursor|
        invariant 0 <= i <= |cursor|
        invariant |ids| == i
        invariant forall k :: 0 <= k < i ==> ids[k] == cursor[k].id
      {
        ids := ids + [cursor[i].id];
        i := i + 1;
      }
    }

    /**
     * Deletes the records with the given ids one at a time, in order, and
     * stops at the delete at position `deleteFailsAt`, which fails; the
     * deletions before it stay done.
     */
    method DeleteInOrder(ids: seq<ObjectId>, deleteFailsAt: nat) returns (status: Outcome)
      requires Valid()
      modifies this
      ensures Valid()
      ensures deleteFailsAt < |ids| ==>
        status == Fail(StoreFailure) && messages == DeleteEach(old(messages), ids[..deleteFailsAt])
      ensures |ids| <= deleteFailsAt ==>
        status == Pass && messages == DeleteEach(old(messages), ids)
    {
      var j := 0;
      while j < |ids|
        invariant 0 <= j <= |ids|
        invariant j <= deleteFailsAt
        invariant messages == DeleteEach(old(messages), ids[..j])
      {
        if j == deleteFailsAt {
          DeleteEachUnique(old(messages), ids[..j]);
          return Fail(StoreFailure);
        }
        assert ids[..j + 1][..j] == ids[..j];
        messages := DeleteOne(messages, ids[j]);
        j := j + 1;
      }
      assert ids[..j] == ids;
      DeleteEachUnique(old(messages), ids);
      return Pass;
    }

    /**
     * The user's history: runs the sweep with the limit 10 and ignores its
     * outcome, then answers with the message/response pairs of the user's
     * remaining records, in table order.
     */
    method GetMessage(id: string, deleteFailsAt: nat) returns (r: Result<seq<ChatResponse>>)
      requires Valid()
      modifies this
      ensures Valid()
      ensures messages == Sweep(old(messages), id, Limit, deleteFailsAt).rows
      ensures ParseObjectId(id).None? ==> r == Err(InvalidObjectId)
      ensures ParseObjectId(id).Some? ==>
        r == Ok(Responses(ForUser(messages, ParseObjectId(id).value)))
    {
      var ignored := DeleteChatMessage(id, Limit, deleteFailsAt);
      var parsed := ParseObjectId(id);
      if parsed.None? {
        return Err(InvalidObjectId);
      }
      var cursor := ForUser(messages, parsed.value);
      var history: seq<ChatResponse> := [];
      var i := 0;
      while i < |cursor|
        invariant 0 <= i <= |cursor|
        invariant |history| == i
        invariant forall k :: 0 <= k < i ==> history[k] == ToResponse(cursor[k])
      {
        history := history + [ToResponse(cursor[i])];
        i := i + 1;
      }
      assert history == Responses(cursor);
      return Ok(history);
    }
  }

  /**
   * After a sweep that reports success, GetMessage sees at most `Limit`
   * messages of the user.
   */
  lemma HistoryWithinLimit(rows: seq<ChatMessage>, id: string, deleteFailsAt: nat, user: ObjectId)
    requires UniqueIds(rows) && ParseObjectId(id) == Some(user)
    requires Sweep(rows, id, Limit, deleteFailsAt).status == Pass
    ensures |ForUser(Sweep(rows, id, Limit, deleteFailsAt).rows, user)| <= Limit
  {
    SweepRemainingCount(rows, id, Limit, deleteFailsAt, user);
  }

  /**
   * A stored message is still in the next history read when the user then
   * holds fewer than `Limit` messages: the sweep leaves the log alone and the
   * message is the newest entry.
   */
  lemma StoredMessageInHistory(rows: seq<ChatMessage>, m: ChatMessage, id: string, deleteFailsAt: nat)
    requires ParseObjectId(id) == Some(m.userId)
    requires |ForUser(rows + [m], m.userId)| < Limit
    ensures var after := Sweep(rows + [m], id, Limit, deleteFailsAt).rows;
      after == rows + [m] && ForUser(after, m.userId) == ForUser(rows, m.userId) + [m]
  {
    ForUserAppend(rows, m, m.userId);
  }

  /**
   * The boundary case seen from the caller: storing a user's tenth message
   * and then reading the history deletes all ten, so the history is empty.
   */
  lemma TenthMessageEmptiesHistory(rows: seq<ChatMessage>, m: ChatMessage, id: string, deleteFailsAt: nat)
    requires UniqueIds(rows + [m]) && ParseObjectId(id) == Some(m.userId)
    requires |ForUser(rows, m.userId)| == Limit - 1
    requires Sweep(rows + [m], id, Limit, deleteFailsAt).status == Pass
    ensures ForUser(Sweep(rows + [m], id, Limit, deleteFailsAt).rows, m.userId) == []
  {
    ForUserAppend(rows, m, m.userId);
    SweepAtLimitClearsUser(rows + [m], id, Limit, deleteFailsAt, m.userId);
  }
}
