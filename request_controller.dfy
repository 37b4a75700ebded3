/**
  `RequestController`: writes of `blood_requests` rows and the fulfilment
  of a request, which marks the request and then issues the chosen units.

  A write the database rejects (an SQLException inside `executeUpdate`) is
  the only way a write reports failure.  `fulfillRequest` performs up to
  1 + n writes; which of them are rejected is the parameter `rejects`:
  write 0 is the request row, write i (1 <= i <= n) the i-th unit.
*/
module RequestControl {
  import opened Wrappers
  import opened Calendar
  import opened Tables
  import opened Query
  import Validation
  import Model
  import InventoryControl

  /** `getRequestById`: the request row with this key, or `None`. */
  function FindRequest(requests: seq<RequestRecord>, requestId: int): (r: Option<RequestRecord>)
    ensures r.Some? ==> r.value in requests && r.value.requestId == requestId
    ensures r.None? <==> forall q :: q in requests ==> q.requestId != requestId
  {
    FindFirst(requests, (q: RequestRecord) => q.requestId == requestId)
  }

  /**
    The status `fulfillRequest` writes, from the number of unit ids passed
    (duplicates included) and the quantity asked for.
  */
  function FulfilmentStatus(count: nat, quantity: int): (status: string)
    ensures status == "fulfilled" <==> count >= quantity
    ensures status == "partially fulfilled" <==> 0 < count < quantity
    ensures status == "pending" <==> count == 0 && quantity > 0
    ensures Validation.IsValidRequestStatus(status)
  {
    if count >= quantity then "fulfilled"
    else if count > 0 then "partially fulfilled"
    else "pending"
  }

  // ---------------------------------------------------------------------
  // Row writes
  // ---------------------------------------------------------------------

  /** `updateRequestStatus`: only `status` and `processed_by` of that request change. */
  function RequestsAfterStatus(requests: seq<RequestRecord>, requestId: int, status: string, processedBy: string)
    : (r: seq<RequestRecord>)
    ensures |r| == |requests|
    ensures forall i :: 0 <= i < |r| && requests[i].requestId == requestId ==>
              r[i].status == status && r[i].processedBy == processedBy
    ensures forall i :: 0 <= i < |r| ==>
              r[i].(status := requests[i].status, processedBy := requests[i].processedBy) == requests[i]
    ensures forall i :: 0 <= i < |r| && requests[i].requestId != requestId ==> r[i] == requests[i]
  {
    UpdateWhere(requests, (q: RequestRecord) => q.requestId == requestId,
                (q: RequestRecord) => q.(status := status, processedBy := processedBy))
  }

  /** After the status write, looking the request up again finds the new status. */
  lemma FindAfterStatus(requests: seq<RequestRecord>, requestId: int, status: string, processedBy: string)
    requires UniqueKeys(requests, RequestKey)
    requires FindRequest(requests, requestId).Some?
    ensures FindRequest(RequestsAfterStatus(requests, requestId, status, processedBy), requestId).Some?
    ensures var found := FindRequest(RequestsAfterStatus(requests, requestId, status, processedBy), requestId).value;
            found == FindRequest(requests, requestId).value.(status := status, processedBy := processedBy)
  {
    var r := RequestsAfterStatus(requests, requestId, status, processedBy);
    var before := FindRequest(requests, requestId).value;
    var i :| 0 <= i < |requests| && requests[i] == before;
    assert r[i] == before.(status := status, processedBy := processedBy);
    SameKeys(requests, r, RequestKey);
    FindUnique(r, requestId, i);
  }

  /** With unique keys, the lookup finds the one row that has the key. */
  lemma FindUnique(requests: seq<RequestRecord>, requestId: int, i: int)
    requires UniqueKeys(requests, RequestKey)
    requires 0 <= i < |requests| && requests[i].requestId == requestId
    ensures FindRequest(requests, requestId) == Some(requests[i])
  {
    assert requests[i] in requests;
    var found := FindRequest(requests, requestId).value;
    var j :| 0 <= j < |requests| && requests[j] == found;
    assert RequestKey(requests[j]) == RequestKey(requests[i]);
  }

  /** The row `addRequest` inserts: the database assigns the key; today is the request date when none is given. */
  function NewRequestRow(request: RequestRecord, requestId: int, nowMs: int): (r: RequestRecord)
    ensures r.requestDate.Some?
    ensures request.requestDate.Some? ==> r.requestDate == request.requestDate
    ensures request.requestDate.None? ==> r.requestDate == Some(DayOf(nowMs))
    ensures r.requestId == requestId
    ensures r.(requestId := request.requestId, requestDate := request.requestDate) == request
  {
    request.(requestId := requestId,
             requestDate := if request.requestDate.Some? then request.requestDate else Some(DayOf(nowMs)))
  }

  /** `updateRequest`: every column but `request_date` is taken from the object. */
  function RequestsAfterUpdate(requests: seq<RequestRecord>, request: RequestRecord): (r: seq<RequestRecord>)
    ensures |r| == |requests|
    ensures forall i :: 0 <= i < |r| ==> r[i].requestId == requests[i].requestId
    ensures forall i :: 0 <= i < |r| ==> r[i].requestDate == requests[i].requestDate
    ensures forall i :: 0 <= i < |r| && requests[i].requestId == request.requestId ==>
              r[i].(requestDate := request.requestDate) == request
    ensures forall i :: 0 <= i < |r| && requests[i].requestId != request.requestId ==> r[i] == requests[i]
  {
    UpdateWhere(requests, (q: RequestRecord) => q.requestId == request.requestId,
                (q: RequestRecord) => request.(requestDate := q.requestDate))
  }

  /** `deleteRequest`. */
  function RequestsAfterDelete(requests: seq<RequestRecord>, requestId: int): (r: seq<RequestRecord>)
    ensures forall q :: q in r <==> q in requests && q.requestId != requestId
  {
    DeleteWhere(requests, (q: RequestRecord) => q.requestId == requestId)
  }

  method AddRequest(db: Database, request: Model.BloodRequest, nowMs: int) returns (success: bool)
    requires db.Valid()
    modifies db`requests, db`nextRequestId
    ensures db.Valid() && success
    ensures db.requests == old(db.requests) + [NewRequestRow(request.Row(), old(db.nextRequestId), nowMs)]
    ensures db.nextRequestId == old(db.nextRequestId) + 1
  {
    var row := NewRequestRow(request.Row(), db.nextRequestId, nowMs);
    AppendKeepsUniqueKeys(db.requests, RequestKey, row);
    db.requests := db.requests + [row];
    db.nextRequestId := db.nextRequestId + 1;
    success := true;
  }

  method UpdateRequest(db: Database, request: Model.BloodRequest) returns (success: bool)
    requires db.Valid()
    modifies db`requests
    ensures db.Valid() && success
    ensures db.requests == RequestsAfterUpdate(old(db.requests), request.Row())
  {
    var after := RequestsAfterUpdate(db.requests, request.Row());
    SameKeys(db.requests, after, RequestKey);
    db.requests := after;
    success := true;
  }

  method DeleteRequest(db: Database, requestId: int) returns (success: bool)
    requires db.Valid()
    modifies db`requests
    ensures db.Valid() && success
    ensures db.requests == RequestsAfterDelete(old(db.requests), requestId)
  {
    DeleteWhereKeys(db.requests, RequestKey, (q: RequestRecord) => q.requestId == requestId);
    db.requests := RequestsAfterDelete(db.requests, requestId);
    success := true;
  }

  method UpdateRequestStatus(db: Database, requestId: int, status: string, processedBy: string)
    returns (success: bool)
    requires db.Valid()
    modifies db`requests
    ensures db.Valid() && success
    ensures db.requests == RequestsAfterStatus(old(db.requests), requestId, status, processedBy)
  {
    var after := RequestsAfterStatus(db.requests, requestId, status, processedBy);
    SameKeys(db.requests, after, RequestKey);
    db.requests := after;
    success := true;
  }

  // ---------------------------------------------------------------------
  // Queries
  // ---------------------------------------------------------------------

  function RequestDateKey(q: RequestRecord): Option<int> {
    q.requestDate
  }

  function HasStatus(status: string): RequestRecord -> bool {
    (q: RequestRecord) => q.status == status
  }

  /** The result of `getRequestsByStatus`: requests with exactly this status, newest request date first. */
  function RequestsWithStatus(requests: seq<RequestRecord>, status: string): (r: seq<RequestRecord>)
    ensures SortedBy(r, RequestDateKey, Desc)
    ensures forall q :: q in r <==> q in requests && q.status == status
    ensures forall q :: multiset(r)[q] == if q.status == status then multiset(requests)[q] else 0
  {
    SelectContents(requests, HasStatus(status), RequestDateKey, Desc);
    OrderBy(Where(requests, HasStatus(status)), RequestDateKey, Desc)
  }

  method GetRequestsByStatus(db: Database, status: string) returns (requestList: seq<RequestRecord>)
    ensures requestList == RequestsWithStatus(db.requests, status)
  {
    requestList := Select(db.requests, HasStatus(status), RequestDateKey, Desc);
  }

  // ---------------------------------------------------------------------
  // Fulfilment
  // ---------------------------------------------------------------------

  /** The unit table after setting each listed unit to "issued", in list order. */
  function IssueAll(units: seq<UnitRecord>, unitIds: seq<string>): (r: seq<UnitRecord>)
    ensures |r| == |units|
  {
    if unitIds == [] then units
    else InventoryControl.UnitsAfterStatus(IssueAll(units, unitIds[..|unitIds| - 1]), unitIds[|unitIds| - 1], "issued")
  }

  /**
    Issuing does not look at the unit: every listed unit that exists becomes
    "issued" whatever its status, expiry, group or component was; every other
    column, and every unlisted unit, is unchanged.  A duplicated id is issued once.
  */
  lemma {:induction false} IssueAllEffect(units: seq<UnitRecord>, unitIds: seq<string>)
    ensures forall i :: 0 <= i < |units| ==>
              IssueAll(units, unitIds)[i] == if units[i].unitId in unitIds then units[i].(status := "issued") else units[i]
    decreases |unitIds|
  {
    if unitIds != [] {
      var init := unitIds[..|unitIds| - 1];
      IssueAllEffect(units, init);
      assert forall id :: id in unitIds <==> id in init || id == unitIds[|unitIds| - 1] by {
        assert unitIds == init + [unitIds[|unitIds| - 1]];
      }
    }
  }

  lemma IssueAllPrefix(units: seq<UnitRecord>, unitIds: seq<string>, i: nat)
    requires i < |unitIds|
    ensures IssueAll(units, unitIds[..i + 1]) ==
            InventoryControl.UnitsAfterStatus(IssueAll(units, unitIds[..i]), unitIds[i], "issued")
  {
    assert unitIds[..i + 1][..i] == unitIds[..i];
  }

  /**
    How many unit writes succeed, out of `n`, before the first rejected one
    (unit writes are numbered from 1).
  */
  function WritesBeforeRejection(n: nat, rejects: set<nat>): (k: nat)
    ensures k <= n
    ensures forall j :: 1 <= j <= k ==> j !in rejects
    ensures k < n ==> k + 1 in rejects
  {
    if n == 0 then 0
    else
      var k := WritesBeforeRejection(n - 1, rejects);
      if k < n - 1 then k else if n in rejects then n - 1 else n
  }

  lemma WritesBeforeRejectionUnique(n: nat, rejects: set<nat>, k: nat)
    requires k <= n
    requires forall j :: 1 <= j <= k ==> j !in rejects
    requires k < n ==> k + 1 in rejects
    ensures WritesBeforeRejection(n, rejects) == k
  {
  }

  datatype Outcome = Outcome(success: bool, requests: seq<RequestRecord>, units: seq<UnitRecord>)

  /**
    What `fulfillRequest` returns and leaves in the tables.  A missing request,
    or a rejected request write, changes nothing.  Otherwise the request row
    gets the new status and `processedBy` first; then the listed units are
    issued in order up to the first rejected write, and the earlier ones stay
    issued.
  */
  function FulfilOutcome(requests: seq<RequestRecord>, units: seq<UnitRecord>, requestId: int,
                         unitIds: seq<string>, processedBy: string, rejects: set<nat>): (o: Outcome)
    ensures FindRequest(requests, requestId).None? ==> o == Outcome(false, requests, units)
    ensures 0 in rejects ==> o == Outcome(false, requests, units)
    ensures o.success ==> forall j :: 0 <= j <= |unitIds| ==> j !in rejects
  {
    match FindRequest(requests, requestId)
    case None => Outcome(false, requests, units)
    case Some(request) =>
      if 0 in rejects then Outcome(false, requests, units)
      else
        var status := FulfilmentStatus(|unitIds|, request.quantity);
        var k := WritesBeforeRejection(|unitIds|, rejects);
        Outcome(k == |unitIds|, RequestsAfterStatus(requests, requestId, status, processedBy),
                IssueAll(units, unitIds[..k]))
  }

  /** `fulfillRequest`, write by write. */
  method FulfillRequest(db: Database, requestId: int, unitIds: seq<string>, processedBy: string, rejects: set<nat>)
    returns (success: bool)
    requires db.Valid()
    modifies db`requests, db`units
    ensures db.Valid()
    ensures Outcome(success, db.requests, db.units) ==
            FulfilOutcome(old(db.requests), old(db.units), requestId, unitIds, processedBy, rejects)
  {
    var request := FindRequest(db.requests, requestId);
    if request.None? {
      return false;
    }
    var status := FulfilmentStatus(|unitIds|, request.value.quantity);
    if 0 in rejects {
      return false;
    }
    success := UpdateRequestStatus(db, requestId, status, processedBy);
    success := IssueUnits(db, unitIds, rejects);
  }

  /**
    The loop of `fulfillRequest`: each listed unit is set to "issued" in
    turn, stopping at the first rejected write.
  */
  method IssueUnits(db: Database, unitIds: seq<string>, rejects: set<nat>) returns (success: bool)
    requires db.Valid()
    modifies db`units
    ensures db.Valid()
    ensures db.units == IssueAll(old(db.units), unitIds[..WritesBeforeRejection(|unitIds|, rejects)])
    ensures success <==> WritesBeforeRejection(|unitIds|, rejects) == |unitIds|
  {
    success := true;
    var i := 0;
    while i < |unitIds|
      invariant 0 <= i <= |unitIds|
      invariant db.Valid()
      invariant db.units == IssueAll(old(db.units), unitIds[..i])
      invariant forall j :: 1 <= j <= i ==> j !in rejects
      invariant success
    {
      if i + 1 in rejects {
        success := false;
        break;
      }
      IssueAllPrefix(old(db.units), unitIds, i);
      success := InventoryControl.UpdateBloodUnitStatus(db, unitIds[i], "issued");
      i := i + 1;
    }
    WritesBeforeRejectionUnique(|unitIds|, rejects, i);
  }

  // ---------------------------------------------------------------------
  // What fulfilment does and does not guarantee
  // ---------------------------------------------------------------------

  /** With every write accepted: success, the new status is written, and exactly the listed units are issued. */
  lemma FulfilWithoutFailures(requests: seq<RequestRecord>, units: seq<UnitRecord>, requestId: int,
                              unitIds: seq<string>, processedBy: string)
    requires UniqueKeys(requests, RequestKey)
    requires FindRequest(requests, requestId).Some?
    ensures var o := FulfilOutcome(requests, units, requestId, unitIds, processedBy, {});
            var found := FindRequest(o.requests, requestId);
            && o.success
            && found.Some?
            && found.value.status == FulfilmentStatus(|unitIds|, FindRequest(requests, requestId).value.quantity)
            && found.value.processedBy == processedBy
            && (forall i :: 0 <= i < |units| ==>
                  o.units[i] == if units[i].unitId in unitIds then units[i].(status := "issued") else units[i])
  {
    var request := FindRequest(requests, requestId).value;
    FindAfterStatus(requests, requestId, FulfilmentStatus(|unitIds|, request.quantity), processedBy);
    assert unitIds[..|unitIds|] == unitIds;
    IssueAllEffect(units, unitIds);
  }

  /**
    Not all-or-nothing: when a unit write is rejected the call reports
    failure, yet the request keeps its new status and the units before the
    rejected one stay issued.
  */
  lemma FulfilPartialFailure(requests: seq<RequestRecord>, units: seq<UnitRecord>, requestId: int,
                             unitIds: seq<string>, processedBy: string, rejects: set<nat>, failing: nat)
    requires UniqueKeys(requests, RequestKey)
    requires FindRequest(requests, requestId).Some?
    requires 0 !in rejects
    requires 1 <= failing <= |unitIds| && failing in rejects
    ensures var o := FulfilOutcome(requests, units, requestId, unitIds, processedBy, rejects);
            var k := WritesBeforeRejection(|unitIds|, rejects);
            && !o.success
            && k < failing
            && FindRequest(o.requests, requestId).Some?
            && FindRequest(o.requests, requestId).value.status ==
               FulfilmentStatus(|unitIds|, FindRequest(requests, requestId).value.quantity)
            && (forall i :: 0 <= i < |units| ==>
                  o.units[i] == if units[i].unitId in unitIds[..k] then units[i].(status := "issued") else units[i])
  {
    var request := FindRequest(requests, requestId).value;
    FindAfterStatus(requests, requestId, FulfilmentStatus(|unitIds|, request.quantity), processedBy);
    var k := WritesBeforeRejection(|unitIds|, rejects);
    IssueAllEffect(units, unitIds[..k]);
  }

  /**
    The status already stored plays no part: a fulfilled or cancelled request
    is overwritten, and an empty list with a positive quantity sets any
    request back to "pending", reporting success.
  */
  lemma FulfilIgnoresCurrentStatus(requests: seq<RequestRecord>, units: seq<UnitRecord>, requestId: int,
                                   processedBy: string)
    requires UniqueKeys(requests, RequestKey)
    requires FindRequest(requests, requestId).Some?
    requires FindRequest(requests, requestId).value.quantity > 0
    ensures var o := FulfilOutcome(requests, units, requestId, [], processedBy, {});
            && o.success
            && o.units == units
            && FindRequest(o.requests, requestId).Some?
            && FindRequest(o.requests, requestId).value.status == "pending"
  {
    var request := FindRequest(requests, requestId).value;
    FindAfterStatus(requests, requestId, "pending", processedBy);
  }

  /**
    The status counts list entries, not distinct units: the same unit listed
    twice for a request of two fulfils it, though only one unit is issued.
  */
  lemma FulfilCountsDuplicates(u: UnitRecord)
    ensures FulfilmentStatus(|[u.unitId, u.unitId]|, 2) == "fulfilled"
    ensures IssueAll([u], [u.unitId, u.unitId]) == [u.(status := "issued")]
  {
    IssueAllEffect([u], [u.unitId, u.unitId]);
  }
}
