/**
 * The bank-service repository: point lookups by id and by name, a whole
 * record `$set` update, delete, a name-checked create, and paged listing.
 */
module Bank {
  import opened Outcomes
  import opened ObjectIds

  /** A bank service record; `serviceType` is the record's `type` field. */
  datatype BankService = BankService(
    id: ObjectId,
    name: string,
    details: string,
    numberOfUsers: int,
    status: string,
    serviceType: string,
    icon: string)

  /** The six values UpdateBank writes. */
  datatype BankRequest = BankRequest(
    name: string,
    details: string,
    numberOfUsers: int,
    status: string,
    serviceType: string,
    icon: string)

  /** No two records share an `_id`: the collection's unique index on `_id`. */
  ghost predicate UniqueIds(rows: seq<BankService>) {
    forall i, j :: 0 <= i < j < |rows| ==> rows[i].id != rows[j].id
  }

  /**
   * FindOne: the position of the first record, in table order, that the
   * filter `matches`, or nothing when none does.
   */
  function FirstMatch(rows: seq<BankService>, matches: BankService -> bool): (r: Option<nat>)
    ensures r.Some? ==> r.value < |rows| && matches(rows[r.value])
    ensures r.Some? ==> forall j :: 0 <= j < r.value ==> !matches(rows[j])
    ensures r.None? ==> forall j :: 0 <= j < |rows| ==> !matches(rows[j])
  {
    if rows == [] then None
    else if matches(rows[0]) then Some(0)
    else
      match FirstMatch(rows[1..], matches)
      case None => None
      case Some(k) => Some(k + 1)
  }

  /** The first record the filter matches is at `k`, so FindOne returns position `k`. */
  lemma {:induction false} FirstMatchAt(rows: seq<BankService>, matches: BankService -> bool, k: nat)
    requires k < |rows| && matches(rows[k])
    requires forall j :: 0 <= j < k ==> !matches(rows[j])
    ensures FirstMatch(rows, matches) == Some(k)
    decreases k
  {
    if k > 0 {
      FirstMatchAt(rows[1..], matches, k - 1);
    }
  }

  /** The filter `{_id: id}`. */
  function IndexOfId(rows: seq<BankService>, id: ObjectId): Option<nat> {
    FirstMatch(rows, (b: BankService) => b.id == id)
  }

  /** The filter `{name: name}`. */
  function IndexOfName(rows: seq<BankService>, name: string): Option<nat> {
    FirstMatch(rows, (b: BankService) => b.name == name)
  }

  /** The record already holds every value of the request, so a `$set` of them modifies nothing. */
  predicate HoldsRequest(b: BankService, req: BankRequest) {
    && b.name == req.name
    && b.details == req.details
    && b.numberOfUsers == req.numberOfUsers
    && b.status == req.status
    && b.serviceType == req.serviceType
    && b.icon == req.icon
  }

  /** The `$set` of all six request values, empty ones included; the id is kept. */
  function Updated(b: BankService, req: BankRequest): (u: BankService)
    ensures u.id == b.id && HoldsRequest(u, req)
  {
    b.(name := req.name, details := req.details, numberOfUsers := req.numberOfUsers,
       status := req.status, serviceType := req.serviceType, icon := req.icon)
  }

  /**
   * The update's "no modified docs" case: a `$set` of the request leaves the
   * record as it was exactly when the record already holds the request.
   */
  lemma SetModifiesNothing(b: BankService, req: BankRequest)
    ensures HoldsRequest(b, req) <==> Updated(b, req) == b
  {
  }

  function Min(a: int, b: int): int {
    if a <= b then a else b
  }

  /**
   * Pages tile the collection: record `i` lies in the window of page `page`
   * (skip `(page - 1) * size`, at most `size` records) exactly when `page`
   * is `i / size + 1`.
   */
  lemma {:induction false} EveryRecordOnOnePage(size: int, i: nat, page: int)
    requires size >= 1 && page >= 1
    ensures ((page - 1) * size <= i < (page - 1) * size + size) <==> page == i / size + 1
  {
    var p, q := page - 1, i / size;
    assert q * size <= i < q * size + size;
    if p < q {
      assert (p + 1) * size <= q * size;
    } else if p > q {
      assert (q + 1) * size <= p * size;
    }
  }

  /** Removing the record at `k` keeps exactly the records with another id, ids still unique. */
  lemma RemoveAtKeepsOthers(rows: seq<BankService>, k: nat)
    requires UniqueIds(rows) && k < |rows|
    ensures UniqueIds(rows[..k] + rows[k + 1..])
    ensures forall b :: b in rows[..k] + rows[k + 1..] <==> b in rows && b.id != rows[k].id
  {
    var rest := rows[..k] + rows[k + 1..];
    assert forall j :: 0 <= j < |rest| ==> rest[j] == rows[if j < k then j else j + 1];
    forall b | b in rows && b.id != rows[k].id ensures b in rest {
      var j :| 0 <= j < |rows| && rows[j] == b;
      assert rest[if j < k then j else j - 1] == b;
    }
  }

  class BankRepository {
    /** The bank-service collection, in insertion order. */
    var banks: seq<BankService>

    ghost predicate Valid()
      reads this
    {
      UniqueIds(banks)
    }

    /** A repository over an existing collection. */
    constructor (initial: seq<BankService>)
      requires UniqueIds(initial)
      ensures Valid() && banks == initial
    {
      banks := initial;
    }

    /**
     * The record with the given id: a malformed id fails before the lookup,
     * an id no record carries fails with NoDocuments.
     */
    function GetBankById(id: string): (r: Result<BankService>)
      reads this
      ensures ParseObjectId(id).None? ==> r == Err(InvalidObjectId)
      ensures r.Ok? ==> r.value in banks && ParseObjectId(id) == Some(r.value.id)
      ensures ParseObjectId(id).Some? && r.Err? ==>
        r.error == NoDocuments && forall b :: b in banks ==> Some(b.id) != ParseObjectId(id)
    {
      match ParseObjectId(id)
      case None => Err(InvalidObjectId)
      case Some(bankId) =>
        match IndexOfId(banks, bankId)
        case None => Err(NoDocuments)
        case Some(k) => Ok(banks[k])
    }

    /** A record whose name is exactly `term`, or NoDocuments when there is none. */
    function SearchByName(term: string): (r: Result<BankService>)
      reads this
      ensures r.Ok? ==> r.value in banks && r.value.name == term
      ensures r.Err? ==> r.error == NoDocuments && forall b :: b in banks ==> b.name != term
    {
      match IndexOfName(banks, term)
      case None => Err(NoDocuments)
      case Some(k) => Ok(banks[k])
    }

    /**
     * Overwrites all six values of the record with the given id and returns
     * the stored record. Fails, changing nothing, on a malformed id, on an id
     * no record carries, and when the record already holds every value.
     */
    method UpdateBank(id: string, req: BankRequest) returns (r: Result<BankService>)
      requires Valid()
      modifies this
      ensures Valid()
      ensures match ParseObjectId(id)
        case None => r == Err(InvalidObjectId) && banks == old(banks)
        case Some(bankId) =>
          match IndexOfId(old(banks), bankId)
          case None => r == Err(NoMatchedDocs) && banks == old(banks)
          case Some(k) =>
            if HoldsRequest(old(banks)[k], req) then
              r == Err(NoModifiedDocs) && banks == old(banks)
            else
              && |banks| == |old(banks)|
              && banks == old(banks)[k := banks[k]]
              && banks[k].id == bankId
              && HoldsRequest(banks[k], req)
              && r == Ok(banks[k])
      ensures r.Ok? ==> GetBankById(id) == r
    {
      var parsed := ParseObjectId(id);
      if parsed.None? {
        return Err(InvalidObjectId);
      }
      var bankId := parsed.value;
      var matched := IndexOfId(banks, bankId);
      if matched.None? {
        return Err(NoMatchedDocs);
      }
      var k := matched.value;
      if HoldsRequest(banks[k], req) {
        return Err(NoModifiedDocs);
      }
      ghost var before := banks;
      banks := banks[k := Updated(banks[k], req)];
      assert forall j :: 0 <= j < k ==> banks[j] == before[j];
      FirstMatchAt(banks, (b: BankService) => b.id == bankId, k);
      // read the record back by its _id
      var found := IndexOfId(banks, bankId);
      r := Ok(banks[found.value]);
    }

    /**
     * Removes the record with the given id. A malformed id fails; an id no
     * record carries is not an error. Afterwards no record carries the id.
     */
    method DeleteBank(id: string) returns (status: Outcome)
      requires Valid()
      modifies this
      ensures Valid()
      ensures match ParseObjectId(id)
        case None => status == Fail(InvalidObjectId) && banks == old(banks)
        case Some(bankId) =>
          && status == Pass
          && (forall b :: b in banks <==> b in old(banks) && b.id != bankId)
          && match IndexOfId(old(banks), bankId)
             case None => banks == old(banks)
             case Some(k) => banks == old(banks)[..k] + old(banks)[k + 1..]
      ensures status == Pass ==> GetBankById(id) == Err(NoDocuments)
    {
      var parsed := ParseObjectId(id);
      if parsed.None? {
        return Fail(InvalidObjectId);
      }
      var bankId := parsed.value;
      var matched := IndexOfId(banks, bankId);
      if matched.Some? {
        var k := matched.value;
        RemoveAtKeepsOthers(banks, k);
        banks := banks[..k] + banks[k + 1..];
      }
      status := Pass;
    }

    /**
     * Inserts the record under the id the store assigns and returns the stored
     * record, unless a record with the same name exists (checked first) or
     * the id is taken; either failure changes nothing.
     */
    method PostBank(bank: BankService, assignedId: ObjectId) returns (r: Result<BankService>)
      requires Valid()
      modifies this
      ensures Valid()
      ensures IndexOfName(old(banks), bank.name).Some? ==>
        r == Err(AlreadyExistingBank) && banks == old(banks)
      ensures IndexOfName(old(banks), bank.name).None? && IndexOfId(old(banks), assignedId).Some? ==>
        r == Err(DuplicateKey) && banks == old(banks)
      ensures IndexOfName(old(banks), bank.name).None? && IndexOfId(old(banks), assignedId).None? ==>
        r == Ok(bank.(id := assignedId)) && banks == old(banks) + [bank.(id := assignedId)]
      ensures r.Ok? ==> GetBankById(ObjectIdHex(assignedId)) == r
    {
      if IndexOfName(banks, bank.name).Some? {
        return Err(AlreadyExistingBank);
      }
      if IndexOfId(banks, assignedId).Some? {
        return Err(DuplicateKey);
      }
      ghost var before := banks;
      banks := banks + [bank.(id := assignedId)];
      assert forall j :: 0 <= j < |before| ==> banks[j] == before[j];
      FirstMatchAt(banks, (b: BankService) => b.id == assignedId, |before|);
      // read the record back by its _id
      var found := IndexOfId(banks, assignedId);
      r := Ok(banks[found.value]);
    }

    /**
     * Page `page` of `size` records, skipping `(page - 1) * size`, in table
     * order, and the number of records in the whole collection.
     */
    method GetBanks(page: int, size: int) returns (items: seq<BankService>, total: int)
      requires page >= 1 && size >= 1
      ensures total == |banks|
      ensures |items| ==
        (if (page - 1) * size >= |banks| then 0 else Min(size, |banks| - (page - 1) * size))
      ensures forall k :: 0 <= k < |items| ==> items[k] == banks[(page - 1) * size + k]
    {
      var skip := (page - 1) * size;
      var lo, hi := Min(skip, |banks|), Min(skip + size, |banks|);
      var cursor := banks[lo..hi];
      items := [];
      var i := 0;
      while i < |cursor|
        invariant 0 <= i <= |cursor|
        invariant items == cursor[..i]
      {
        items := items + [cursor[i]];
        i := i + 1;
      }
      assert items == banks[lo..hi];
      total := |banks|;
    }
  }
}
