/**
  `ReportController`: reports over a range of days.  `start` and `end` are
  day numbers (the view parses them from `yyyy-MM-dd`, so they fall at
  midnight); `BETWEEN` includes both ends and never matches NULL.

  The report readers copy only some columns into the objects they return;
  the others keep the defaults of a new object (empty text, `false`, no date).
*/
module ReportControl {
  import opened Wrappers
  import opened Calendar
  import opened Tables
  import opened Query
  import Validation
  import InventoryControl
  import RequestControl

  /** `column BETWEEN start AND end`. */
  predicate Between(d: Option<int>, start: int, end: int) {
    d.Some? && start <= d.value <= end
  }

  function CollectionKey(u: UnitRecord): Option<int> {
    u.collectionDate
  }

  function CollectedBetween(start: int, end: int): UnitRecord -> bool {
    (u: UnitRecord) => Between(u.collectionDate, start, end)
  }

  function RequestedBetween(start: int, end: int): RequestRecord -> bool {
    (q: RequestRecord) => Between(q.requestDate, start, end)
  }

  /** The columns `getDonationReport` and `getExpiredUnitsReport` copy: all but location, remarks, tester and test result. */
  function UnitReportColumns(u: UnitRecord): (r: UnitRecord)
    ensures r.(location := u.location, remarks := u.remarks, testedBy := u.testedBy, isTestPassed := u.isTestPassed) == u
    ensures r.location == "" && r.remarks == "" && r.testedBy == "" && !r.isTestPassed
  {
    u.(location := "", remarks := "", testedBy := "", isTestPassed := false)
  }

  /** The columns `getRequestReport` copies: all but doctor, contact person and phone, reason, processed-by and remarks. */
  function RequestReportColumns(q: RequestRecord): (r: RequestRecord)
    ensures r.(doctorName := q.doctorName, contactPerson := q.contactPerson, contactPhone := q.contactPhone,
               reason := q.reason, processedBy := q.processedBy, remarks := q.remarks) == q
    ensures r.doctorName == "" && r.contactPerson == "" && r.contactPhone == ""
    ensures r.reason == "" && r.processedBy == "" && r.remarks == ""
  {
    q.(doctorName := "", contactPerson := "", contactPhone := "", reason := "", processedBy := "", remarks := "")
  }

  /** The columns `getFrequentDonorsReport` copies: all but address, eligibility, medical history and registration date. */
  function DonorReportColumns(d: DonorRecord): (r: DonorRecord)
    ensures r.(address := d.address, isEligible := d.isEligible, medicalHistory := d.medicalHistory,
               registrationDate := d.registrationDate) == d
    ensures r.address == "" && !r.isEligible && r.medicalHistory == "" && r.registrationDate.None?
  {
    d.(address := "", isEligible := false, medicalHistory := "", registrationDate := None)
  }

  // ---------------------------------------------------------------------
  // Date-range reports
  // ---------------------------------------------------------------------

  /** `getDonationReport`: units collected in the range, latest collection first. */
  function DonationReport(units: seq<UnitRecord>, start: int, end: int): (r: seq<UnitRecord>)
    ensures |r| == Count(units, CollectedBetween(start, end))
    ensures SortedBy(r, CollectionKey, Desc)
    ensures forall v :: v in r <==>
              exists u :: u in units && Between(u.collectionDate, start, end) && UnitReportColumns(u) == v
  {
    var rows := OrderBy(Where(units, CollectedBetween(start, end)), CollectionKey, Desc);
    SelectContents(units, CollectedBetween(start, end), CollectionKey, Desc);
    MapRowsSorted(rows, UnitReportColumns, CollectionKey, Desc);
    MapRowsContents(rows, UnitReportColumns);
    MapRows(rows, UnitReportColumns)
  }

  method GetDonationReport(db: Database, start: int, end: int) returns (unitList: seq<UnitRecord>)
    ensures unitList == DonationReport(db.units, start, end)
  {
    var rows := Select(db.units, CollectedBetween(start, end), CollectionKey, Desc);
    unitList := ReadAll(rows, UnitReportColumns);
  }

  /** `getRequestReport`: requests made in the range, latest request first. */
  function RequestReport(requests: seq<RequestRecord>, start: int, end: int): (r: seq<RequestRecord>)
    ensures |r| == Count(requests, RequestedBetween(start, end))
    ensures SortedBy(r, RequestControl.RequestDateKey, Desc)
    ensures forall v :: v in r <==>
              exists q :: q in requests && Between(q.requestDate, start, end) && RequestReportColumns(q) == v
  {
    var rows := OrderBy(Where(requests, RequestedBetween(start, end)), RequestControl.RequestDateKey, Desc);
    SelectContents(requests, RequestedBetween(start, end), RequestControl.RequestDateKey, Desc);
    MapRowsSorted(rows, RequestReportColumns, RequestControl.RequestDateKey, Desc);
    MapRowsContents(rows, RequestReportColumns);
    MapRows(rows, RequestReportColumns)
  }

  method GetRequestReport(db: Database, start: int, end: int) returns (requestList: seq<RequestRecord>)
    ensures requestList == RequestReport(db.requests, start, end)
  {
    var rows := Select(db.requests, RequestedBetween(start, end), RequestControl.RequestDateKey, Desc);
    requestList := ReadAll(rows, RequestReportColumns);
  }

  /**
    `getExpiredUnitsReport`: units whose expiry date is in the range and that
    are available or discarded, latest expiry first.  An available unit is
    listed even when its expiry date is still ahead.
  */
  predicate ListedAsExpired(u: UnitRecord, start: int, end: int) {
    Between(u.expiryDate, start, end) && (u.status == "available" || u.status == "discarded")
  }

  function ListedAsExpiredBetween(start: int, end: int): UnitRecord -> bool {
    u => ListedAsExpired(u, start, end)
  }

  function ExpiredUnitsReport(units: seq<UnitRecord>, start: int, end: int): (r: seq<UnitRecord>)
    ensures |r| == Count(units, ListedAsExpiredBetween(start, end))
    ensures SortedBy(r, InventoryControl.ExpiryKey, Desc)
    ensures forall v :: v in r <==> exists u :: u in units && ListedAsExpired(u, start, end) && UnitReportColumns(u) == v
  {
    var rows := OrderBy(Where(units, ListedAsExpiredBetween(start, end)), InventoryControl.ExpiryKey, Desc);
    SelectContents(units, ListedAsExpiredBetween(start, end), InventoryControl.ExpiryKey, Desc);
    MapRowsSorted(rows, UnitReportColumns, InventoryControl.ExpiryKey, Desc);
    MapRowsContents(rows, UnitReportColumns);
    MapRows(rows, UnitReportColumns)
  }

  method GetExpiredUnitsReport(db: Database, start: int, end: int) returns (unitList: seq<UnitRecord>)
    ensures unitList == ExpiredUnitsReport(db.units, start, end)
  {
    var rows := Select(db.units, ListedAsExpiredBetween(start, end), InventoryControl.ExpiryKey, Desc);
    unitList := ReadAll(rows, UnitReportColumns);
  }

  // ---------------------------------------------------------------------
  // Frequent donors
  // ---------------------------------------------------------------------

  function FromDonor(donorId: int): UnitRecord -> bool {
    (u: UnitRecord) => u.donorId == donorId
  }

  /** `COUNT(bi.unit_id)` for one donor: the units that carry the donor's id. */
  function DonationCount(units: seq<UnitRecord>, donorId: int): nat {
    Count(units, FromDonor(donorId))
  }

  /**
    The inner `JOIN` drops a donor without units, and `HAVING` keeps a donor
    with at least `minDonations` of them; so a donor is listed only with at
    least one donation, however small `minDonations` is.
  */
  predicate IsFrequent(units: seq<UnitRecord>, d: DonorRecord, minDonations: int) {
    DonationCount(units, d.donorId) >= 1 && DonationCount(units, d.donorId) >= minDonations
  }

  function FrequentIn(units: seq<UnitRecord>, minDonations: int): DonorRecord -> bool {
    d => IsFrequent(units, d, minDonations)
  }

  function DonationCountKey(units: seq<UnitRecord>): DonorRecord -> Option<int> {
    (d: DonorRecord) => Some(DonationCount(units, d.donorId))
  }

  /** `getFrequentDonorsReport`: frequent donors, most donations first. */
  function FrequentDonors(donors: seq<DonorRecord>, units: seq<UnitRecord>, minDonations: int): (r: seq<DonorRecord>)
    ensures |r| == Count(donors, FrequentIn(units, minDonations))
    ensures SortedBy(r, DonationCountKey(units), Desc)
    ensures forall v :: v in r <==> exists d :: d in donors && IsFrequent(units, d, minDonations) && DonorReportColumns(d) == v
  {
    var rows := OrderBy(Where(donors, FrequentIn(units, minDonations)), DonationCountKey(units), Desc);
    SelectContents(donors, FrequentIn(units, minDonations), DonationCountKey(units), Desc);
    MapRowsSorted(rows, DonorReportColumns, DonationCountKey(units), Desc);
    MapRowsContents(rows, DonorReportColumns);
    MapRows(rows, DonorReportColumns)
  }

  method GetFrequentDonorsReport(db: Database, minDonations: int) returns (donorList: seq<DonorRecord>)
    ensures donorList == FrequentDonors(db.donors, db.units, minDonations)
  {
    var rows := Select(db.donors, FrequentIn(db.units, minDonations), DonationCountKey(db.units), Desc);
    donorList := ReadAll(rows, DonorReportColumns);
  }

  /** Every listed donor has given blood at least once and at least `minDonations` times, even for `minDonations <= 0`. */
  lemma FrequentDonorsHaveDonated(donors: seq<DonorRecord>, units: seq<UnitRecord>, minDonations: int)
    ensures forall v :: v in FrequentDonors(donors, units, minDonations) ==>
              exists u :: u in units && u.donorId == v.donorId
    ensures forall v :: v in FrequentDonors(donors, units, minDonations) ==>
              DonationCount(units, v.donorId) >= minDonations
  {
    forall v | v in FrequentDonors(donors, units, minDonations)
      ensures exists u :: u in units && u.donorId == v.donorId
    {
      var d :| d in donors && IsFrequent(units, d, minDonations) && DonorReportColumns(d) == v;
      WhereContents(units, FromDonor(d.donorId));
      var w := Where(units, FromDonor(d.donorId));
      assert w[0] in w;
    }
  }

  // ---------------------------------------------------------------------
  // Inventory status: stock per blood group and component
  // ---------------------------------------------------------------------

  function AvailableOfKindAt(today: int, group: string, component: string): UnitRecord -> bool {
    u => InventoryControl.IsAvailable(u, today) && u.bloodGroup == group && u.component == component
  }

  function GroupAndComponent(u: UnitRecord): (string, string) {
    (u.bloodGroup, u.component)
  }

  /** A map with exactly one cell per group of the eight and component of the four. */
  ghost predicate AllCells(report: map<string, map<string, int>>) {
    && (forall g :: g in report <==> g in Validation.BloodGroups)
    && (forall g :: g in report ==> forall c :: c in report[g] <==> c in Validation.Components)
  }

  /** The inner loop of the initialisation: every component at 0. */
  method ZeroComponentCounts() returns (componentCounts: map<string, int>)
    ensures forall c :: c in componentCounts <==> c in Validation.Components
    ensures forall c :: c in componentCounts ==> componentCounts[c] == 0
  {
    componentCounts := map[];
    var m := 0;
    while m < |Validation.Components|
      invariant 0 <= m <= |Validation.Components|
      invariant forall c :: c in componentCounts <==> c in Validation.Components[..m]
      invariant forall c :: c in componentCounts ==> componentCounts[c] == 0
    {
      componentCounts := componentCounts[Validation.Components[m] := 0];
      m := m + 1;
    }
    assert Validation.Components[..m] == Validation.Components;
  }

  /** The initialisation of the report: every cell at 0. */
  method ZeroInventoryStatus() returns (report: map<string, map<string, int>>)
    ensures AllCells(report)
    ensures forall g, c :: g in report && c in report[g] ==> report[g][c] == 0
  {
    report := map[];
    var k := 0;
    while k < |Validation.BloodGroups|
      invariant 0 <= k <= |Validation.BloodGroups|
      invariant forall g :: g in report <==> g in Validation.BloodGroups[..k]
      invariant forall g :: g in report ==> forall c :: c in report[g] <==> c in Validation.Components
      invariant forall g, c :: g in report && c in report[g] ==> report[g][c] == 0
    {
      var componentCounts := ZeroComponentCounts();
      report := report[Validation.BloodGroups[k] := componentCounts];
      k := k + 1;
    }
    assert Validation.BloodGroups[..k] == Validation.BloodGroups;
  }

  /** `componentMap.put(component, count)` on the map held for a group: only that cell changes. */
  method PutCell(report: map<string, map<string, int>>, g: string, c: string, count: int)
    returns (r: map<string, map<string, int>>)
    requires AllCells(report) && g in report && c in report[g]
    ensures AllCells(r)
    ensures r[g][c] == count
    ensures forall g', c' :: g' in r && c' in r[g'] && (g', c') != (g, c) ==> r[g'][c'] == report[g'][c']
  {
    r := report[g := report[g][c := count]];
  }

  /**
    `getInventoryStatusReport`: a cell for each of the eight groups and four
    components, holding the number of available units of that kind; a
    `GROUP BY` row for any other group or component is ignored.
  */
  method GetInventoryStatusReport(db: Database, nowMs: int) returns (report: map<string, map<string, int>>)
    ensures AllCells(report)
    ensures forall g, c :: g in report && c in report[g] ==>
              report[g][c] == Count(db.units, AvailableOfKindAt(DayOf(nowMs), g, c))
  {
    var today := DayOf(nowMs);
    report := ZeroInventoryStatus();
    var available := Where(db.units, InventoryControl.AvailableAt(today));
    WhereContents(db.units, InventoryControl.AvailableAt(today));
    var kinds := Distinct(available, GroupAndComponent);
    report := PutKindCounts(report, db.units, today, kinds);
    forall g, c | (g, c) !in kinds
      ensures Count(db.units, AvailableOfKindAt(today, g, c)) == 0
    {
      AbsentKindCountsZero(db.units, today, g, c);
    }
  }

  /**
    The loop over the `GROUP BY` rows: the count of each listed kind that
    has a cell replaces its 0; other kinds are skipped.
  */
  method PutKindCounts(zero: map<string, map<string, int>>, units: seq<UnitRecord>, today: int,
                       kinds: seq<(string, string)>)
    returns (report: map<string, map<string, int>>)
    requires AllCells(zero)
    requires forall g, c :: g in zero && c in zero[g] ==> zero[g][c] == 0
    ensures AllCells(report)
    ensures forall g, c :: g in report && c in report[g] ==>
              report[g][c] == (if (g, c) in kinds then Count(units, AvailableOfKindAt(today, g, c)) else 0)
  {
    report := zero;
    var i := 0;
    while i < |kinds|
      invariant 0 <= i <= |kinds|
      invariant AllCells(report)
      invariant forall g, c :: g in report && c in report[g] ==>
                  report[g][c] == (if (g, c) in kinds[..i] then Count(units, AvailableOfKindAt(today, g, c)) else 0)
    {
      var kind := kinds[i];
      var g, c := kind.0, kind.1;
      ghost var before := report;
      if g in report && c in report[g] {
        report := PutCell(report, g, c, Count(units, AvailableOfKindAt(today, g, c)));
      }
      assert kinds[..i + 1] == kinds[..i] + [kind];
      forall g', c' | g' in report && c' in report[g']
        ensures report[g'][c'] ==
                (if (g', c') in kinds[..i + 1] then Count(units, AvailableOfKindAt(today, g', c')) else 0)
      {
        if (g', c') != kind {
          assert report[g'][c'] == before[g'][c'];
          assert (g', c') in kinds[..i + 1] <==> (g', c') in kinds[..i];
        }
      }
      i := i + 1;
    }
    assert kinds[..i] == kinds;
  }

  /** A kind that no available unit has counts 0. */
  lemma AbsentKindCountsZero(units: seq<UnitRecord>, today: int, g: string, c: string)
    requires forall u :: u in units && InventoryControl.IsAvailable(u, today) ==> GroupAndComponent(u) != (g, c)
    ensures Count(units, AvailableOfKindAt(today, g, c)) == 0
  {
    CountNone(units, AvailableOfKindAt(today, g, c));
  }

  /**
    The four cells of a group add up to that group's count in
    `getBloodInventoryStats`, less the available units of the group whose
    component is none of the four.
  */
  lemma {:induction false} GroupCellsSum(units: seq<UnitRecord>, today: int, g: string)
    ensures Count(units, AvailableOfKindAt(today, g, "whole blood")) + Count(units, AvailableOfKindAt(today, g, "plasma"))
          + Count(units, AvailableOfKindAt(today, g, "platelets")) + Count(units, AvailableOfKindAt(today, g, "red cells"))
          + Count(units, OtherComponentAt(today, g))
         == Count(units, InventoryControl.AvailableOfGroupAt(today, g))
    decreases |units|
  {
    if units != [] {
      GroupCellsSum(units[..|units| - 1], today, g);
    }
  }

  function OtherComponentAt(today: int, g: string): UnitRecord -> bool {
    u => InventoryControl.IsAvailable(u, today) && u.bloodGroup == g && u.component !in Validation.Components
  }

  // ---------------------------------------------------------------------
  // Summary
  // ---------------------------------------------------------------------

  function RequestedWithStatus(start: int, end: int, statuses: set<string>): RequestRecord -> bool {
    (q: RequestRecord) => Between(q.requestDate, start, end) && q.status in statuses
  }

  /** `status = 'discarded' OR (status = 'available' AND expiry_date < CURDATE())`, with the expiry date in the range. */
  predicate CountedAsExpired(u: UnitRecord, start: int, end: int, today: int) {
    Between(u.expiryDate, start, end) &&
    (u.status == "discarded" || (u.status == "available" && u.expiryDate.value < today))
  }

  function ExpiredBetween(start: int, end: int, today: int): UnitRecord -> bool {
    u => CountedAsExpired(u, start, end, today)
  }

  /** The keys `getSummaryReport` always returns. */
  const SummaryKeys: set<string> :=
    {"totalDonations", "totalRequests", "fulfilledRequests", "pendingRequests", "expiredUnits"}

  /**
    `getSummaryReport`: each `COUNT(*)` over the range.  The counts agree
    with the list reports: donations and requests with their lengths, and
    the expired units with at most the units the expired-units report lists.
  */
  method GetSummaryReport(db: Database, start: int, end: int, nowMs: int) returns (summary: map<string, int>)
    ensures summary.Keys == SummaryKeys
    ensures summary["totalDonations"] == |DonationReport(db.units, start, end)|
    ensures summary["totalRequests"] == |RequestReport(db.requests, start, end)|
    ensures summary["fulfilledRequests"] ==
            Count(db.requests, RequestedWithStatus(start, end, {"fulfilled", "partially fulfilled"}))
    ensures summary["pendingRequests"] == Count(db.requests, RequestedWithStatus(start, end, {"pending"}))
    ensures summary["expiredUnits"] == Count(db.units, ExpiredBetween(start, end, DayOf(nowMs)))
    ensures summary["fulfilledRequests"] + summary["pendingRequests"] <= summary["totalRequests"]
    ensures summary["expiredUnits"] <= |ExpiredUnitsReport(db.units, start, end)|
  {
    var today := DayOf(nowMs);
    summary := map["totalDonations" := 0, "totalRequests" := 0, "fulfilledRequests" := 0,
                   "pendingRequests" := 0, "expiredUnits" := 0];
    summary := summary["totalDonations" := Count(db.units, CollectedBetween(start, end))];
    summary := summary["totalRequests" := Count(db.requests, RequestedBetween(start, end))];
    summary := summary["fulfilledRequests" :=
                 Count(db.requests, RequestedWithStatus(start, end, {"fulfilled", "partially fulfilled"}))];
    summary := summary["pendingRequests" := Count(db.requests, RequestedWithStatus(start, end, {"pending"}))];
    summary := summary["expiredUnits" := Count(db.units, ExpiredBetween(start, end, today))];
    SummaryRequestsBound(db.requests, start, end);
    SummaryExpiredBound(db.units, start, end, today);
  }

  /** Fulfilled (fully or partly) and pending requests are disjoint parts of the requests in the range. */
  lemma SummaryRequestsBound(requests: seq<RequestRecord>, start: int, end: int)
    ensures Count(requests, RequestedWithStatus(start, end, {"fulfilled", "partially fulfilled"}))
          + Count(requests, RequestedWithStatus(start, end, {"pending"}))
         <= Count(requests, RequestedBetween(start, end))
  {
    CountDisjoint(requests, RequestedWithStatus(start, end, {"fulfilled", "partially fulfilled"}),
                  RequestedWithStatus(start, end, {"pending"}), RequestedBetween(start, end));
  }

  /**
    Every unit the summary counts as expired is listed by the expired-units
    report; the converse fails for an available unit not yet past its expiry.
  */
  lemma SummaryExpiredBound(units: seq<UnitRecord>, start: int, end: int, today: int)
    ensures Count(units, ExpiredBetween(start, end, today)) <= Count(units, ListedAsExpiredBetween(start, end))
  {
    CountMonotone(units, ExpiredBetween(start, end, today), ListedAsExpiredBetween(start, end));
  }

  lemma ListedButNotExpired(u: UnitRecord, start: int, end: int, today: int)
    requires u.status == "available" && u.expiryDate == Some(today) && start <= today <= end
    ensures ListedAsExpired(u, start, end) && !CountedAsExpired(u, start, end, today)
  {
  }
}
