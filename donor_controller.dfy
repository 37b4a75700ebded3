/**
  `DonorController`: reads and writes of the `donors` table and the
  eligibility rule that a donor may give blood again 90 days after the
  last donation.
*/
module DonorControl {
  import opened Wrappers
  import opened Calendar
  import opened Tables
  import Model
  import Query

  /** The waiting period between donations, in milliseconds (90 days of 24 hours). */
  const NinetyDaysMs: int := 90 * 24 * 60 * 60 * 1000

  /** `getDonorById`: the donor row with this key, or `None` (Java's `null`). */
  function FindDonor(donors: seq<DonorRecord>, donorId: int): (r: Option<DonorRecord>)
    ensures r.Some? ==> r.value in donors && r.value.donorId == donorId
    ensures r.None? <==> forall d :: d in donors ==> d.donorId != donorId
  {
    Query.FindFirst(donors, (d: DonorRecord) => d.donorId == donorId)
  }

  // ---------------------------------------------------------------------
  // Eligibility
  // ---------------------------------------------------------------------

  /**
    At instant `nowMs`, at least 90 days have passed since the donation
    stored for day `lastDay` (read back as midnight of that day).  Measured
    in milliseconds, this is the same as the current day being at least 90
    days after the donation day.
  */
  function WaitingPeriodOver(lastDay: int, nowMs: int): (over: bool)
    ensures over <==> DayOf(nowMs) >= lastDay + 90
  {
    MillisecondsToDays(lastDay, nowMs);
    nowMs - StartOfDay(lastDay) >= NinetyDaysMs
  }

  lemma {:induction false} MillisecondsToDays(lastDay: int, nowMs: int)
    ensures nowMs - StartOfDay(lastDay) >= NinetyDaysMs <==> DayOf(nowMs) >= lastDay + 90
  {
    var today := DayOf(nowMs);
    assert StartOfDay(today) <= nowMs < StartOfDay(today + 1);
    assert StartOfDay(lastDay) + NinetyDaysMs == StartOfDay(lastDay + 90);
    if today >= lastDay + 90 {
      MulMonotone(lastDay + 90, today);
    } else {
      MulMonotone(today + 1, lastDay + 90);
    }
  }

  /** Exactly 90 days after midnight of the donation day is enough; one millisecond earlier is not. */
  lemma WaitingPeriodBoundary(lastDay: int)
    ensures WaitingPeriodOver(lastDay, StartOfDay(lastDay) + NinetyDaysMs)
    ensures !WaitingPeriodOver(lastDay, StartOfDay(lastDay) + NinetyDaysMs - 1)
  {
  }

  /**
    `isEligibleToDonate`: a donor that does not exist is not eligible; one
    whose eligibility flag is off is not eligible whatever the dates; one that
    never donated is eligible; otherwise the 90-day rule decides.  The table
    is only read.
  */
  method IsEligibleToDonate(db: Database, donorId: int, nowMs: int) returns (eligible: bool)
    ensures FindDonor(db.donors, donorId).None? ==> !eligible
    ensures eligible <==>
              && FindDonor(db.donors, donorId).Some?
              && FindDonor(db.donors, donorId).value.isEligible
              && (FindDonor(db.donors, donorId).value.lastDonationDate.None? ||
                  DayOf(nowMs) >= FindDonor(db.donors, donorId).value.lastDonationDate.value + 90)
  {
    var donor := FindDonor(db.donors, donorId);
    if donor.Some? {
      if !donor.value.isEligible {
        return false;
      }
      if donor.value.lastDonationDate.Some? {
        return WaitingPeriodOver(donor.value.lastDonationDate.value, nowMs);
      }
      return true;
    }
    return false;
  }

  // ---------------------------------------------------------------------
  // Writes
  // ---------------------------------------------------------------------

  /**
    The row `addDonor` inserts: the object's fields, the key the database
    assigns, and today as the registration date when the object has none.
  */
  function NewDonorRow(donor: DonorRecord, donorId: int, nowMs: int): (r: DonorRecord)
    ensures r.registrationDate.Some?
    ensures donor.registrationDate.Some? ==> r.registrationDate == donor.registrationDate
    ensures donor.registrationDate.None? ==> r.registrationDate == Some(DayOf(nowMs))
    ensures r.donorId == donorId
    ensures r.(donorId := donor.donorId, registrationDate := donor.registrationDate) == donor
  {
    donor.(donorId := donorId,
           registrationDate := if donor.registrationDate.Some? then donor.registrationDate
                               else Some(DayOf(nowMs)))
  }

  /**
    `updateDonor`: the row with the object's key takes every column from the
    object except `registration_date`, which keeps its stored value.
  */
  function DonorsAfterUpdate(donors: seq<DonorRecord>, donor: DonorRecord): (r: seq<DonorRecord>)
    ensures |r| == |donors|
    ensures forall i :: 0 <= i < |r| ==> r[i].donorId == donors[i].donorId
    ensures forall i :: 0 <= i < |r| ==> r[i].registrationDate == donors[i].registrationDate
    ensures forall i :: 0 <= i < |r| && donors[i].donorId == donor.donorId ==>
              r[i].(registrationDate := donor.registrationDate) == donor
    ensures forall i :: 0 <= i < |r| && donors[i].donorId != donor.donorId ==> r[i] == donors[i]
  {
    Query.UpdateWhere(donors, (d: DonorRecord) => d.donorId == donor.donorId,
                      (d: DonorRecord) => donor.(registrationDate := d.registrationDate))
  }

  /** `updateLastDonationDate`: only that donor's `last_donation_date` changes. */
  function DonorsAfterLastDonation(donors: seq<DonorRecord>, donorId: int, date: Option<int>): (r: seq<DonorRecord>)
    ensures |r| == |donors|
    ensures forall i :: 0 <= i < |r| ==>
              r[i].lastDonationDate == (if donors[i].donorId == donorId then date else donors[i].lastDonationDate)
    ensures forall i :: 0 <= i < |r| ==> r[i].(lastDonationDate := donors[i].lastDonationDate) == donors[i]
  {
    Query.UpdateWhere(donors, (d: DonorRecord) => d.donorId == donorId,
                      (d: DonorRecord) => d.(lastDonationDate := date))
  }

  /** `deleteDonor`. */
  function DonorsAfterDelete(donors: seq<DonorRecord>, donorId: int): (r: seq<DonorRecord>)
    ensures forall d :: d in r <==> d in donors && d.donorId != donorId
  {
    Query.DeleteWhere(donors, (d: DonorRecord) => d.donorId == donorId)
  }

  method AddDonor(db: Database, donor: Model.Donor, nowMs: int) returns (success: bool)
    requires db.Valid()
    modifies db
    ensures db.Valid() && success
    ensures db.donors == old(db.donors) + [NewDonorRow(donor.Row(), old(db.nextDonorId), nowMs)]
    ensures db.nextDonorId == old(db.nextDonorId) + 1
    ensures db.units == old(db.units) && db.requests == old(db.requests)
    ensures db.nextRequestId == old(db.nextRequestId)
  {
    var row := NewDonorRow(donor.Row(), db.nextDonorId, nowMs);
    Query.AppendKeepsUniqueKeys(db.donors, DonorKey, row);
    db.donors := db.donors + [row];
    db.nextDonorId := db.nextDonorId + 1;
    success := true;
  }

  method UpdateDonor(db: Database, donor: Model.Donor) returns (success: bool)
    requires db.Valid()
    modifies db`donors
    ensures db.Valid() && success
    ensures db.donors == DonorsAfterUpdate(old(db.donors), donor.Row())
  {
    var after := DonorsAfterUpdate(db.donors, donor.Row());
    Query.SameKeys(db.donors, after, DonorKey);
    db.donors := after;
    success := true;
  }

  method DeleteDonor(db: Database, donorId: int) returns (success: bool)
    requires db.Valid()
    modifies db`donors
    ensures db.Valid() && success
    ensures db.donors == DonorsAfterDelete(old(db.donors), donorId)
  {
    Query.DeleteWhereKeys(db.donors, DonorKey, (d: DonorRecord) => d.donorId == donorId);
    db.donors := DonorsAfterDelete(db.donors, donorId);
    success := true;
  }

  method UpdateLastDonationDate(db: Database, donorId: int, date: Option<int>) returns (success: bool)
    requires db.Valid()
    modifies db`donors
    ensures db.Valid() && success
    ensures db.donors == DonorsAfterLastDonation(old(db.donors), donorId, date)
  {
    var after := DonorsAfterLastDonation(db.donors, donorId, date);
    Query.SameKeys(db.donors, after, DonorKey);
    db.donors := after;
    success := true;
  }

  /** Writing the last-donation date does not change anyone's eligibility flag or registration. */
  lemma LastDonationKeepsOtherColumns(donors: seq<DonorRecord>, donorId: int, date: Option<int>, i: int)
    requires 0 <= i < |donors|
    ensures var r := DonorsAfterLastDonation(donors, donorId, date);
            r[i].isEligible == donors[i].isEligible && r[i].registrationDate == donors[i].registrationDate
  {
    var r := DonorsAfterLastDonation(donors, donorId, date);
    assert r[i].(lastDonationDate := donors[i].lastDonationDate) == donors[i];
  }
}
