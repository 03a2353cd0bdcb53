/**
 * The chats collection as a sequence of records in insertion order, the
 * queries the chat repository sends to it, and the retention sweep of
 * DeleteChatMessage as a function of the collection, with its properties.
 */
module ChatStore {
  import opened Outcomes
  import opened ObjectIds
  import opened ChatDomain

  /** No two records share an `_id`: the collection's unique index on `_id`. */
  ghost predicate UniqueIds(rows: seq<ChatMessage>) {
    forall i, j :: 0 <= i < j < |rows| ==> rows[i].id != rows[j].id
  }

  /** Records whose ids are all distinct are told apart by their ids. */
  lemma SameIdSameRecord(rows: seq<ChatMessage>, a: ChatMessage, b: ChatMessage)
    requires UniqueIds(rows) && a in rows && b in rows && a.id == b.id
    ensures a == b
  {
    var i :| 0 <= i < |rows| && rows[i] == a;
    var j :| 0 <= j < |rows| && rows[j] == b;
    assert i == j;
  }

  lemma UniqueIdsTail(rows: seq<ChatMessage>)
    requires UniqueIds(rows) && rows != []
    ensures UniqueIds(rows[1..])
    ensures forall m :: m in rows[1..] ==> m.id != rows[0].id
  {
    forall m | m in rows[1..] ensures m.id != rows[0].id {
      var j :| 0 <= j < |rows[1..]| && rows[1..][j] == m;
      assert rows[j + 1] == m;
    }
  }

  /** Appending a record whose `_id` is free keeps the ids unique. */
  lemma UniqueIdsAppend(rows: seq<ChatMessage>, m: ChatMessage)
    requires UniqueIds(rows) && FindById(rows, m.id).None?
    ensures UniqueIds(rows + [m])
  {
    var s := rows + [m];
    forall i, j | 0 <= i < j < |s| ensures s[i].id != s[j].id {
      assert s[i] == rows[i];
      if j < |rows| {
        assert s[j] == rows[j];
      } else {
        assert rows[i] in rows;
      }
    }
  }

  lemma UniqueIdsCons(x: ChatMessage, rows: seq<ChatMessage>)
    requires UniqueIds(rows)
    requires forall m :: m in rows ==> m.id != x.id
    ensures UniqueIds([x] + rows)
  {
    var s := [x] + rows;
    forall i, j | 0 <= i < j < |s| ensures s[i].id != s[j].id {
      assert s[j] == rows[j - 1];
      if i > 0 {
        assert s[i] == rows[i - 1];
      } else {
        assert s[j] in rows;
      }
    }
  }

  /**
   * FindOne with filter `{_id: id}`: the first record carrying `id`, or
   * nothing when no record carries it.
   */
  function FindById(rows: seq<ChatMessage>, id: ObjectId): (r: Option<ChatMessage>)
    ensures r.None? <==> forall m :: m in rows ==> m.id != id
    ensures r.Some? ==> r.value in rows && r.value.id == id
  {
    if rows == [] then None
    else if rows[0].id == id then Some(rows[0])
    else FindById(rows[1..], id)
  }

  /** Find with filter `{_userId: user}`: the user's records in table order. */
  function ForUser(rows: seq<ChatMessage>, user: ObjectId): (r: seq<ChatMessage>)
    ensures forall m :: m in r <==> m in rows && m.userId == user
    ensures |r| <= |rows|
  {
    if rows == [] then []
    else if rows[0].userId == user then [rows[0]] + ForUser(rows[1..], user)
    else ForUser(rows[1..], user)
  }

  /** The records of every other user, in table order. */
  function OtherUsers(rows: seq<ChatMessage>, user: ObjectId): (r: seq<ChatMessage>)
    ensures forall m :: m in r <==> m in rows && m.userId != user
  {
    if rows == [] then []
    else if rows[0].userId != user then [rows[0]] + OtherUsers(rows[1..], user)
    else OtherUsers(rows[1..], user)
  }

  /**
   * The user filter keeps table order: filtering two stretches of the table
   * one after the other gives the filter of the whole.
   */
  lemma {:induction false} ForUserConcat(a: seq<ChatMessage>, b: seq<ChatMessage>, user: ObjectId)
    ensures ForUser(a + b, user) == ForUser(a, user) + ForUser(b, user)
  {
    if a == [] {
      assert a + b == b;
    } else {
      assert (a + b)[0] == a[0] && (a + b)[1..] == a[1..] + b;
      ForUserConcat(a[1..], b, user);
    }
  }

  /** Storing a record makes it the newest entry of its owner's history. */
  lemma ForUserAppend(rows: seq<ChatMessage>, m: ChatMessage, user: ObjectId)
    ensures ForUser(rows + [m], user) ==
      (if m.userId == user then ForUser(rows, user) + [m] else ForUser(rows, user))
  {
    ForUserConcat(rows, [m], user);
    assert [m][1..] == [];
  }

  /** DeleteOne with filter `{_id: id}`: drops the first record carrying `id`, if any. */
  function DeleteOne(rows: seq<ChatMessage>, id: ObjectId): seq<ChatMessage>
  {
    if rows == [] then []
    else if rows[0].id == id then rows[1..]
    else [rows[0]] + DeleteOne(rows[1..], id)
  }

  /**
   * DeleteOne removes one record when some record carries the id, and none
   * otherwise; under unique ids the removed record is the one carrying the id
   * and every other record stays, in table order.
   */
  lemma {:induction false} DeleteOneEffect(rows: seq<ChatMessage>, id: ObjectId)
    ensures FindById(rows, id).None? ==> DeleteOne(rows, id) == rows
    ensures FindById(rows, id).Some? ==> |DeleteOne(rows, id)| == |rows| - 1
    ensures UniqueIds(rows) ==> DeleteOne(rows, id) == KeepUnless(rows, [id])
  {
    if rows != [] && rows[0].id != id {
      DeleteOneEffect(rows[1..], id);
    }
    if UniqueIds(rows) {
      DeleteOneUnique(rows, id);
    }
  }

  /** DeleteOne for each id of `ids` in turn, the first id first. */
  function DeleteEach(rows: seq<ChatMessage>, ids: seq<ObjectId>): seq<ChatMessage>
    decreases |ids|
  {
    if ids == [] then rows
    else DeleteOne(DeleteEach(rows, ids[..|ids| - 1]), ids[|ids| - 1])
  }

  /** The records whose `_id` is not listed in `ids`, in table order. */
  ghost function KeepUnless(rows: seq<ChatMessage>, ids: seq<ObjectId>): (r: seq<ChatMessage>)
    ensures forall m :: m in r <==> m in rows && m.id !in ids
  {
    if rows == [] then []
    else if rows[0].id in ids then KeepUnless(rows[1..], ids)
    else [rows[0]] + KeepUnless(rows[1..], ids)
  }

  lemma {:induction false} KeepUnlessNone(rows: seq<ChatMessage>, ids: seq<ObjectId>)
    requires forall m :: m in rows ==> m.id !in ids
    ensures KeepUnless(rows, ids) == rows
  {
    if rows != [] {
      KeepUnlessNone(rows[1..], ids);
    }
  }

  lemma {:induction false} KeepUnlessTwice(rows: seq<ChatMessage>, a: seq<ObjectId>, b: seq<ObjectId>)
    ensures KeepUnless(KeepUnless(rows, a), b) == KeepUnless(rows, a + b)
  {
    if rows != [] {
      KeepUnlessTwice(rows[1..], a, b);
    }
  }

  lemma {:induction false} KeepUnlessUnique(rows: seq<ChatMessage>, ids: seq<ObjectId>)
    requires UniqueIds(rows)
    ensures UniqueIds(KeepUnless(rows, ids))
  {
    if rows != [] {
      UniqueIdsTail(rows);
      KeepUnlessUnique(rows[1..], ids);
      if rows[0].id !in ids {
        UniqueIdsCons(rows[0], KeepUnless(rows[1..], ids));
      }
    }
  }

  /** With unique ids, DeleteOne removes exactly the record carrying `id`. */
  lemma {:induction false} DeleteOneUnique(rows: seq<ChatMessage>, id: ObjectId)
    requires UniqueIds(rows)
    ensures DeleteOne(rows, id) == KeepUnless(rows, [id])
  {
    if rows != [] {
      UniqueIdsTail(rows);
      if rows[0].id == id {
        KeepUnlessNone(rows[1..], [id]);
      } else {
        DeleteOneUnique(rows[1..], id);
      }
    }
  }

  /** With unique ids, deleting ids one at a time removes exactly the records they name. */
  lemma {:induction false} DeleteEachUnique(rows: seq<ChatMessage>, ids: seq<ObjectId>)
    requires UniqueIds(rows)
    ensures DeleteEach(rows, ids) == KeepUnless(rows, ids)
    ensures UniqueIds(DeleteEach(rows, ids))
    decreases |ids|
  {
    if ids == [] {
      KeepUnlessNone(rows, ids);
    } else {
      var init, last := ids[..|ids| - 1], ids[|ids| - 1];
      DeleteEachUnique(rows, init);
      KeepUnlessUnique(rows, init);
      DeleteOneUnique(KeepUnless(rows, init), last);
      KeepUnlessTwice(rows, init, [last]);
      assert init + [last] == ids;
    }
    KeepUnlessUnique(rows, ids);
  }

  lemma {:induction false} ForUserOfKeep(rows: seq<ChatMessage>, user: ObjectId, ids: seq<ObjectId>)
    ensures ForUser(KeepUnless(rows, ids), user) == KeepUnless(ForUser(rows, user), ids)
  {
    if rows != [] {
      ForUserOfKeep(rows[1..], user, ids);
    }
  }

  lemma {:induction false} OtherUsersOfKeep(rows: seq<ChatMessage>, user: ObjectId, ids: seq<ObjectId>)
    requires forall m :: m in rows && m.userId != user ==> m.id !in ids
    ensures OtherUsers(KeepUnless(rows, ids), user) == OtherUsers(rows, user)
  {
    if rows != [] {
      OtherUsersOfKeep(rows[1..], user, ids);
    }
  }

  /** Removing one id that a record of `rows` carries shortens unique-id `rows` by one. */
  lemma {:induction false} KeepUnlessOne(rows: seq<ChatMessage>, id: ObjectId)
    requires UniqueIds(rows) && id in Ids(rows)
    ensures |KeepUnless(rows, [id])| == |rows| - 1
  {
    UniqueIdsTail(rows);
    if rows[0].id == id {
      KeepUnlessNone(rows[1..], [id]);
    } else {
      var k :| 0 <= k < |rows| && Ids(rows)[k] == id;
      assert Ids(rows[1..])[k - 1] == id;
      KeepUnlessOne(rows[1..], id);
    }
  }

  ghost predicate Distinct(ids: seq<ObjectId>) {
    forall i, j :: 0 <= i < j < |ids| ==> ids[i] != ids[j]
  }

  /** Removing distinct ids, each carried by some record, shortens `rows` by their number. */
  lemma {:induction false} KeepUnlessCount(rows: seq<ChatMessage>, ids: seq<ObjectId>)
    requires UniqueIds(rows) && Distinct(ids)
    requires forall v :: v in ids ==> v in Ids(rows)
    ensures |KeepUnless(rows, ids)| == |rows| - |ids|
    decreases |ids|
  {
    if ids == [] {
      KeepUnlessNone(rows, ids);
    } else {
      var init, last := ids[..|ids| - 1], ids[|ids| - 1];
      assert init + [last] == ids;
      KeepUnlessCount(rows, init);
      KeepUnlessTwice(rows, init, [last]);
      var kept := KeepUnless(rows, init);
      KeepUnlessUnique(rows, init);
      assert last in ids;
      var k :| 0 <= k < |Ids(rows)| && Ids(rows)[k] == last;
      assert last !in init;
      assert rows[k] in kept;
      var p :| 0 <= p < |kept| && kept[p] == rows[k];
      assert Ids(kept)[p] == last;
      KeepUnlessOne(kept, last);
    }
  }

  /** Ascending by timestamp. */
  ghost predicate SortedByTimeStamp(s: seq<ChatMessage>) {
    forall i, j :: 0 <= i < j < |s| ==> s[i].timeStamp <= s[j].timeStamp
  }

  /** Puts `x` before the first record that is not older than it. */
  function InsertByTimeStamp(x: ChatMessage, s: seq<ChatMessage>): seq<ChatMessage> {
    if s == [] || x.timeStamp <= s[0].timeStamp then [x] + s
    else [s[0]] + InsertByTimeStamp(x, s[1..])
  }

  /**
   * The sort the sweep's Find asks for: ascending timestamp. The store's
   * order between equal timestamps is unspecified; this one keeps table order.
   */
  function SortByTimeStamp(s: seq<ChatMessage>): seq<ChatMessage> {
    if s == [] then [] else InsertByTimeStamp(s[0], SortByTimeStamp(s[1..]))
  }

  /** Inserting adds exactly `x`. */
  lemma {:induction false} InsertByTimeStampPermutes(x: ChatMessage, s: seq<ChatMessage>)
    ensures multiset(InsertByTimeStamp(x, s)) == multiset(s) + multiset{x}
  {
    if s != [] && x.timeStamp > s[0].timeStamp {
      InsertByTimeStampPermutes(x, s[1..]);
      assert s == [s[0]] + s[1..];
    }
  }

  /** Inserting into a sorted sequence keeps it sorted and adds exactly `x`. */
  lemma {:induction false} InsertByTimeStampCorrect(x: ChatMessage, s: seq<ChatMessage>)
    requires SortedByTimeStamp(s)
    ensures SortedByTimeStamp(InsertByTimeStamp(x, s))
    ensures multiset(InsertByTimeStamp(x, s)) == multiset(s) + multiset{x}
    ensures InsertByTimeStamp(x, s)[0] == x || InsertByTimeStamp(x, s)[0] == s[0]
  {
    InsertByTimeStampPermutes(x, s);
    if s != [] && x.timeStamp > s[0].timeStamp {
      var rest := InsertByTimeStamp(x, s[1..]);
      InsertByTimeStampCorrect(x, s[1..]);
      var r := [s[0]] + rest;
      assert s[0].timeStamp <= rest[0].timeStamp;
      forall i, j | 0 <= i < j < |r| ensures r[i].timeStamp <= r[j].timeStamp {
        if i == 0 && j > 1 {
          assert rest[0].timeStamp <= rest[j - 1].timeStamp;
        }
      }
    }
  }

  /** The sort yields the same records, ascending by timestamp. */
  lemma {:induction false} SortByTimeStampCorrect(s: seq<ChatMessage>)
    ensures SortedByTimeStamp(SortByTimeStamp(s))
    ensures multiset(SortByTimeStamp(s)) == multiset(s)
  {
    if s != [] {
      SortByTimeStampCorrect(s[1..]);
      InsertByTimeStampCorrect(s[0], SortByTimeStamp(s[1..]));
      assert s == [s[0]] + s[1..];
    }
  }

  lemma {:induction false} InsertKeepsUniqueIds(x: ChatMessage, s: seq<ChatMessage>)
    requires SortedByTimeStamp(s) && UniqueIds(s)
    requires forall m :: m in s ==> m.id != x.id
    ensures UniqueIds(InsertByTimeStamp(x, s))
  {
    if s == [] || x.timeStamp <= s[0].timeStamp {
      UniqueIdsCons(x, s);
    } else {
      UniqueIdsTail(s);
      InsertKeepsUniqueIds(x, s[1..]);
      InsertByTimeStampCorrect(x, s[1..]);
      var rest := InsertByTimeStamp(x, s[1..]);
      forall m | m in rest ensures m.id != s[0].id {
        assert m in multiset(rest);
      }
      UniqueIdsCons(s[0], rest);
    }
  }

  lemma {:induction false} SortKeepsUniqueIds(s: seq<ChatMessage>)
    requires UniqueIds(s)
    ensures UniqueIds(SortByTimeStamp(s))
  {
    if s != [] {
      UniqueIdsTail(s);
      SortKeepsUniqueIds(s[1..]);
      SortByTimeStampCorrect(s[1..]);
      var sorted := SortByTimeStamp(s[1..]);
      forall m | m in sorted ensures m.id != s[0].id {
        assert m in multiset(sorted);
      }
      InsertKeepsUniqueIds(s[0], sorted);
    }
  }

  /**
   * How many documents a Find returns from `len` candidates under
   * `SetLimit(limit)`: the driver reads a limit of 0 as "no limit".
   */
  function Taken(len: nat, limit: nat): nat {
    if limit == 0 || limit > len then len else limit
  }

  /**
   * `SetLimit` cuts the result short exactly when the limit is positive and
   * below the number of candidates, and then to exactly the limit.
   */
  lemma TakenCutsShort(len: nat, limit: nat)
    ensures Taken(len, limit) <= len
    ensures Taken(len, limit) < len <==> 0 < limit < len
    ensures Taken(len, limit) < len ==> Taken(len, limit) == limit
  {
  }

  /** The user's records oldest first: the sweep's Find before its limit. */
  function OldestFirst(rows: seq<ChatMessage>, user: ObjectId): seq<ChatMessage> {
    SortByTimeStamp(ForUser(rows, user))
  }

  /**
   * The ids the sweep collects for deletion once the user's count has reached
   * `limit`: the oldest `count - limit` of them, or all of them when
   * `count - limit` is 0.
   */
  function Victims(rows: seq<ChatMessage>, user: ObjectId, limit: int): seq<ObjectId>
    requires |ForUser(rows, user)| >= limit
  {
    var sorted := OldestFirst(rows, user);
    Ids(sorted[..Taken(|sorted|, |ForUser(rows, user)| - limit)])
  }

  /**
   * The collected ids: as many as `SetLimit(count - limit)` lets through,
   * each the id of one of the user's records.
   */
  lemma VictimsOfUser(rows: seq<ChatMessage>, user: ObjectId, limit: int)
    requires |ForUser(rows, user)| >= limit
    ensures |Victims(rows, user, limit)| == Taken(|ForUser(rows, user)|, |ForUser(rows, user)| - limit)
    ensures forall k :: 0 <= k < |Victims(rows, user, limit)| ==>
      FindById(ForUser(rows, user), Victims(rows, user, limit)[k]).Some?
  {
    var forUser := ForUser(rows, user);
    var sorted := OldestFirst(rows, user);
    SortedLength(forUser);
    var picked := sorted[..Taken(|sorted|, |forUser| - limit)];
    var victims := Victims(rows, user, limit);
    assert victims == Ids(picked);
    forall k | 0 <= k < |victims| ensures FindById(forUser, victims[k]).Some? {
      SortedIsFromSource(forUser, picked[k]);
    }
  }

  /** Sorting keeps the length. */
  lemma SortedLength(s: seq<ChatMessage>)
    ensures |SortByTimeStamp(s)| == |s|
  {
    SortByTimeStampCorrect(s);
    assert |multiset(SortByTimeStamp(s))| == |multiset(s)|;
  }

  /** Every record of the sorted sequence comes from the input. */
  lemma SortedIsFromSource(s: seq<ChatMessage>, m: ChatMessage)
    requires m in SortByTimeStamp(s)
    ensures m in s
  {
    SortByTimeStampCorrect(s);
    assert m in multiset(SortByTimeStamp(s));
  }

  /** What DeleteChatMessage returns and the collection it leaves. */
  datatype Swept = Swept(status: Outcome, rows: seq<ChatMessage>)

  /**
   * DeleteChatMessage(idHex, limit) run against `rows`, where the DeleteOne at
   * position `deleteFailsAt` of the collected list is the first to report an
   * error (a position past the list's end: every delete succeeds).
   */
  function Sweep(rows: seq<ChatMessage>, idHex: string, limit: int, deleteFailsAt: nat): Swept
  {
    match ParseObjectId(idHex)
    case None => Swept(Fail(InvalidObjectId), rows)
    case Some(user) =>
      if |ForUser(rows, user)| < limit then Swept(Pass, rows)
      else
        var victims := Victims(rows, user, limit);
        if deleteFailsAt < |victims| then
          Swept(Fail(StoreFailure), DeleteEach(rows, victims[..deleteFailsAt]))
        else
          Swept(Pass, DeleteEach(rows, victims))
  }

  /**
   * The sweep's error classes: a malformed user id and nothing else gives
   * InvalidObjectId; a failing delete, only once the count has reached the
   * limit, gives StoreFailure.
   */
  lemma SweepStatus(rows: seq<ChatMessage>, idHex: string, limit: int, deleteFailsAt: nat)
    ensures Sweep(rows, idHex, limit, deleteFailsAt).status == Fail(InvalidObjectId) <==> !ValidObjectIdHex(idHex)
    ensures Sweep(rows, idHex, limit, deleteFailsAt).status == Fail(StoreFailure) <==>
      ValidObjectIdHex(idHex) && limit <= |ForUser(rows, ParseObjectId(idHex).value)| &&
      deleteFailsAt < |Victims(rows, ParseObjectId(idHex).value, limit)|
    ensures Sweep(rows, idHex, limit, deleteFailsAt).status in {Pass, Fail(InvalidObjectId), Fail(StoreFailure)}
  {
  }

  /** The sweep once the user's count has reached the limit, in terms of the collected ids. */
  lemma SweepByVictims(rows: seq<ChatMessage>, idHex: string, limit: int, deleteFailsAt: nat, user: ObjectId)
    requires ParseObjectId(idHex) == Some(user) && |ForUser(rows, user)| >= limit
    ensures var victims := Victims(rows, user, limit);
      Sweep(rows, idHex, limit, deleteFailsAt) ==
        if deleteFailsAt < |victims| then Swept(Fail(StoreFailure), DeleteEach(rows, victims[..deleteFailsAt]))
        else Swept(Pass, DeleteEach(rows, victims))
  {
  }

  /** How many deletions the sweep carries out before it stops. */
  function Done(rows: seq<ChatMessage>, user: ObjectId, limit: int, deleteFailsAt: nat): nat {
    var count := |ForUser(rows, user)|;
    if count < limit then 0
    else
      var n := Taken(count, count - limit);
      if deleteFailsAt < n then deleteFailsAt else n
  }

  /**
   * The shape every sweep has: it removes the `Done` oldest records of the
   * user, and nothing else.
   */
  lemma SweepRemovesOldestPrefix(rows: seq<ChatMessage>, idHex: string, limit: int, deleteFailsAt: nat, user: ObjectId)
    requires UniqueIds(rows) && ParseObjectId(idHex) == Some(user)
    ensures Done(rows, user, limit, deleteFailsAt) <= |OldestFirst(rows, user)|
    ensures UniqueIds(OldestFirst(rows, user)) && SortedByTimeStamp(OldestFirst(rows, user))
    ensures multiset(OldestFirst(rows, user)) == multiset(ForUser(rows, user))
    ensures Sweep(rows, idHex, limit, deleteFailsAt).rows ==
      KeepUnless(rows, Ids(OldestFirst(rows, user)[..Done(rows, user, limit, deleteFailsAt)]))
    ensures UniqueIds(Sweep(rows, idHex, limit, deleteFailsAt).rows)
  {
    var sorted := OldestFirst(rows, user);
    var d := Done(rows, user, limit, deleteFailsAt);
    SortByTimeStampCorrect(ForUser(rows, user));
    UniqueIdsForUser(rows, user);
    SortKeepsUniqueIds(ForUser(rows, user));
    SweepDeletesDonePrefix(rows, idHex, limit, deleteFailsAt, user);
    DeleteEachUnique(rows, Ids(sorted[..d]));
  }

  /** The sweep's table is DeleteEach of the ids of the `Done` oldest records. */
  lemma SweepDeletesDonePrefix(rows: seq<ChatMessage>, idHex: string, limit: int, deleteFailsAt: nat, user: ObjectId)
    requires ParseObjectId(idHex) == Some(user)
    ensures Done(rows, user, limit, deleteFailsAt) <= |OldestFirst(rows, user)|
    ensures Sweep(rows, idHex, limit, deleteFailsAt).rows ==
      DeleteEach(rows, Ids(OldestFirst(rows, user)[..Done(rows, user, limit, deleteFailsAt)]))
  {
    SortedLength(ForUser(rows, user));
    if |ForUser(rows, user)| >= limit {
      DoneIsVictimsPrefix(rows, user, limit, deleteFailsAt);
    } else {
      assert Ids(OldestFirst(rows, user)[..0]) == [];
    }
  }

  /** Once the count has reached the limit, the completed deletions are a prefix of the collected ids. */
  lemma DoneIsVictimsPrefix(rows: seq<ChatMessage>, user: ObjectId, limit: int, deleteFailsAt: nat)
    requires |ForUser(rows, user)| >= limit
    requires |OldestFirst(rows, user)| == |ForUser(rows, user)|
    ensures var victims := Victims(rows, user, limit);
      Ids(OldestFirst(rows, user)[..Done(rows, user, limit, deleteFailsAt)]) ==
        if deleteFailsAt < |victims| then victims[..deleteFailsAt] else victims
  {
    var sorted := OldestFirst(rows, user);
    var count := |ForUser(rows, user)|;
    var n := Taken(count, count - limit);
    if deleteFailsAt < n {
      IdsOfPrefix(sorted[..n], deleteFailsAt);
      assert sorted[..n][..deleteFailsAt] == sorted[..deleteFailsAt];
    }
  }

  /** The ids of a prefix are the prefix of the ids. */
  lemma IdsOfPrefix(s: seq<ChatMessage>, n: nat)
    requires n <= |s|
    ensures Ids(s)[..n] == Ids(s[..n])
  {
  }

  lemma {:induction false} UniqueIdsForUser(rows: seq<ChatMessage>, user: ObjectId)
    requires UniqueIds(rows)
    ensures UniqueIds(ForUser(rows, user))
  {
    if rows != [] {
      UniqueIdsTail(rows);
      UniqueIdsForUser(rows[1..], user);
      if rows[0].userId == user {
        UniqueIdsCons(rows[0], ForUser(rows[1..], user));
      }
    }
  }

  lemma IdInIds(s: seq<ChatMessage>, m: ChatMessage)
    requires m in s
    ensures m.id in Ids(s)
  {
    var p :| 0 <= p < |s| && s[p] == m;
    assert Ids(s)[p] == m.id;
  }

  /** The ids of a prefix of unique-id records name exactly the records of that prefix. */
  lemma PrefixIds(sorted: seq<ChatMessage>, d: nat)
    requires UniqueIds(sorted) && d <= |sorted|
    ensures Distinct(Ids(sorted[..d]))
    ensures forall j :: 0 <= j < |sorted| ==> (sorted[j].id in Ids(sorted[..d]) <==> j < d)
  {
    var prefix := Ids(sorted[..d]);
    forall j | 0 <= j < |sorted| ensures sorted[j].id in prefix <==> j < d {
      if j < d {
        assert prefix[j] == sorted[j].id;
      }
    }
  }

  /** A malformed user id is rejected before the collection is touched. */
  lemma SweepRejectsMalformedId(rows: seq<ChatMessage>, idHex: string, limit: int, deleteFailsAt: nat)
    requires !ValidObjectIdHex(idHex)
    ensures Sweep(rows, idHex, limit, deleteFailsAt) == Swept(Fail(InvalidObjectId), rows)
  {
  }

  /** Below the limit the sweep succeeds and changes nothing. */
  lemma SweepBelowLimitIsNoOp(rows: seq<ChatMessage>, idHex: string, limit: int, deleteFailsAt: nat, user: ObjectId)
    requires ParseObjectId(idHex) == Some(user)
    requires |ForUser(rows, user)| < limit
    ensures Sweep(rows, idHex, limit, deleteFailsAt) == Swept(Pass, rows)
  {
  }

  /**
   * How many of the user's messages are left: every completed delete removes
   * one. When no delete fails, a user below the limit keeps every message, a
   * user exactly at the limit keeps none (the driver reads the limit 0 as no
   * limit), and a user above a non-negative limit keeps `limit`.
   */
  lemma SweepRemainingCount(rows: seq<ChatMessage>, idHex: string, limit: int, deleteFailsAt: nat, user: ObjectId)
    requires UniqueIds(rows) && ParseObjectId(idHex) == Some(user)
    ensures var count := |ForUser(rows, user)|;
      var sw := Sweep(rows, idHex, limit, deleteFailsAt);
      && (sw.status == Fail(StoreFailure) ==>
            |ForUser(sw.rows, user)| == count - deleteFailsAt && deleteFailsAt < count)
      && (sw.status == Pass ==>
            |ForUser(sw.rows, user)| ==
              (if count < limit then count
               else if count == limit || limit < 0 then 0
               else limit))
  {
    var sw := Sweep(rows, idHex, limit, deleteFailsAt);
    var forUser := ForUser(rows, user);
    var sorted := OldestFirst(rows, user);
    var d := Done(rows, user, limit, deleteFailsAt);
    SweepRemovesOldestPrefix(rows, idHex, limit, deleteFailsAt, user);
    assert |sorted| == |forUser| by {
      assert |multiset(sorted)| == |multiset(forUser)|;
    }
    var gone := Ids(sorted[..d]);
    PrefixIds(sorted, d);
    ForUserOfKeep(rows, user, gone);
    UniqueIdsForUser(rows, user);
    forall v | v in gone ensures v in Ids(forUser) {
      var j :| 0 <= j < |gone| && gone[j] == v;
      assert sorted[j] in multiset(forUser);
      IdInIds(forUser, sorted[j]);
    }
    KeepUnlessCount(forUser, gone);
    assert |ForUser(sw.rows, user)| == |forUser| - d;
  }

  /**
   * The boundary case: a user holding exactly `limit` messages loses all of
   * them, because the sweep asks for `count - limit` = 0 documents and the
   * driver reads a limit of 0 as no limit. Other users keep theirs.
   */
  lemma SweepAtLimitClearsUser(rows: seq<ChatMessage>, idHex: string, limit: int, deleteFailsAt: nat, user: ObjectId)
    requires UniqueIds(rows) && ParseObjectId(idHex) == Some(user)
    requires |ForUser(rows, user)| == limit
    requires Sweep(rows, idHex, limit, deleteFailsAt).status == Pass
    ensures ForUser(Sweep(rows, idHex, limit, deleteFailsAt).rows, user) == []
    ensures OtherUsers(Sweep(rows, idHex, limit, deleteFailsAt).rows, user) == OtherUsers(rows, user)
  {
    SweepRemainingCount(rows, idHex, limit, deleteFailsAt, user);
    SweepKeepsOtherUsers(rows, idHex, limit, deleteFailsAt, user);
  }

  /** The sweep only ever removes records of the given user. */
  lemma SweepKeepsOtherUsers(rows: seq<ChatMessage>, idHex: string, limit: int, deleteFailsAt: nat, user: ObjectId)
    requires UniqueIds(rows) && ParseObjectId(idHex) == Some(user)
    ensures OtherUsers(Sweep(rows, idHex, limit, deleteFailsAt).rows, user) == OtherUsers(rows, user)
  {
    var sorted := OldestFirst(rows, user);
    var d := Done(rows, user, limit, deleteFailsAt);
    SweepRemovesOldestPrefix(rows, idHex, limit, deleteFailsAt, user);
    var gone := Ids(sorted[..d]);
    forall m | m in rows && m.userId != user ensures m.id !in gone {
      if m.id in gone {
        var j :| 0 <= j < |gone| && gone[j] == m.id;
        assert sorted[j] in multiset(ForUser(rows, user));
        SameIdSameRecord(rows, m, sorted[j]);
      }
    }
    OtherUsersOfKeep(rows, user, gone);
  }

  /**
   * Eviction is oldest first: every message of the user that the sweep
   * removed is no newer than any message of the user that it left.
   */
  lemma SweepOldestFirst(rows: seq<ChatMessage>, idHex: string, limit: int, deleteFailsAt: nat, user: ObjectId)
    requires UniqueIds(rows) && ParseObjectId(idHex) == Some(user)
    ensures var after := Sweep(rows, idHex, limit, deleteFailsAt).rows;
      forall e, s :: e in ForUser(rows, user) && e !in after && s in ForUser(after, user) ==>
        e.timeStamp <= s.timeStamp
  {
    var after := Sweep(rows, idHex, limit, deleteFailsAt).rows;
    var sorted := OldestFirst(rows, user);
    var d := Done(rows, user, limit, deleteFailsAt);
    SweepRemovesOldestPrefix(rows, idHex, limit, deleteFailsAt, user);
    var gone := Ids(sorted[..d]);
    PrefixIds(sorted, d);
    forall e, s | e in ForUser(rows, user) && e !in after && s in ForUser(after, user)
      ensures e.timeStamp <= s.timeStamp
    {
      assert e in multiset(sorted);
      var i :| 0 <= i < |sorted| && sorted[i] == e;
      assert s in ForUser(rows, user);
      assert s in multiset(sorted);
      var q :| 0 <= q < |sorted| && sorted[q] == s;
      assert i < d <= q;
    }
  }

  /**
   * The collected ids are deleted in order and the sweep stops at the first
   * failing delete: it fails exactly when `deleteFailsAt` falls inside the
   * list, the ids before that position are gone and the ids from it on are
   * still present.
   */
  lemma SweepDeletesInOrder(rows: seq<ChatMessage>, idHex: string, limit: int, deleteFailsAt: nat, user: ObjectId)
    requires UniqueIds(rows) && ParseObjectId(idHex) == Some(user)
    requires |ForUser(rows, user)| >= limit
    ensures var victims := Victims(rows, user, limit);
      var sw := Sweep(rows, idHex, limit, deleteFailsAt);
      && Distinct(victims)
      && (sw.status == Fail(StoreFailure) <==> deleteFailsAt < |victims|)
      && (sw.status == Pass <==> |victims| <= deleteFailsAt)
      && forall j :: 0 <= j < |victims| ==>
           (FindById(sw.rows, victims[j]).None? <==> j < deleteFailsAt)
  {
    var victims := Victims(rows, user, limit);
    var after := Sweep(rows, idHex, limit, deleteFailsAt).rows;
    var sorted := OldestFirst(rows, user);
    var d := Done(rows, user, limit, deleteFailsAt);
    SweepRemovesOldestPrefix(rows, idHex, limit, deleteFailsAt, user);
    var n := |victims|;
    assert victims == Ids(sorted[..n]);
    PrefixIds(sorted, n);
    var gone := Ids(sorted[..d]);
    PrefixIds(sorted, d);
    forall j | 0 <= j < n ensures FindById(after, victims[j]).None? <==> j < deleteFailsAt {
      assert victims[j] == sorted[j].id;
      if j >= d {
        assert sorted[j] in multiset(ForUser(rows, user));
        assert sorted[j] in after;
      }
    }
  }
}
