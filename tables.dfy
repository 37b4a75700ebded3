/**
  The three tables of the blood bank database (`donors`, `blood_inventory`,
  `blood_requests`), held in memory.  A row is a value; a table is the
  sequence of its rows in insertion order.  DATE columns hold day numbers
  (see module Calendar) and may be NULL.
*/
module Tables {
  import opened Wrappers
  import Query

  /** A row of `blood_inventory`. */
  datatype UnitRecord = UnitRecord(
    unitId: string,
    donorId: int,
    bloodGroup: string,
    collectionDate: Option<int>,
    expiryDate: Option<int>,
    status: string,
    location: string,
    component: string,
    remarks: string,
    testedBy: string,
    isTestPassed: bool)

  /** A row of `donors`. */
  datatype DonorRecord = DonorRecord(
    donorId: int,
    name: string,
    bloodGroup: string,
    dateOfBirth: Option<int>,
    gender: string,
    phone: string,
    email: string,
    address: string,
    lastDonationDate: Option<int>,
    isEligible: bool,
    medicalHistory: string,
    registrationDate: Option<int>)

  /** A row of `blood_requests`. */
  datatype RequestRecord = RequestRecord(
    requestId: int,
    patientName: string,
    bloodGroup: string,
    component: string,
    quantity: int,
    requestDate: Option<int>,
    requiredDate: Option<int>,
    status: string,
    hospitalName: string,
    doctorName: string,
    contactPerson: string,
    contactPhone: string,
    reason: string,
    priority: string,
    processedBy: string,
    remarks: string)

  /** The primary key of each table. */
  function UnitKey(u: UnitRecord): string { u.unitId }
  function DonorKey(d: DonorRecord): int { d.donorId }
  function RequestKey(r: RequestRecord): int { r.requestId }

  /**
    The database the controllers share.  `unit_id`, `donor_id` and
    `request_id` are primary keys; the latter two are assigned by the
    database from a counter when a row is inserted.
  */
  class Database {
    var donors: seq<DonorRecord>
    var units: seq<UnitRecord>
    var requests: seq<RequestRecord>
    var nextDonorId: int
    var nextRequestId: int

    ghost predicate Valid()
      reads this
    {
      && Query.UniqueKeys(units, UnitKey)
      && Query.UniqueKeys(donors, DonorKey)
      && Query.UniqueKeys(requests, RequestKey)
      && (forall d :: d in donors ==> d.donorId < nextDonorId)
      && (forall r :: r in requests ==> r.requestId < nextRequestId)
    }

    constructor ()
      ensures Valid()
      ensures donors == [] && units == [] && requests == []
      ensures nextDonorId == 1 && nextRequestId == 1
    {
      donors, units, requests := [], [], [];
      nextDonorId, nextRequestId := 1, 1;
    }
  }
}
