/**
  The blood-unit form of `InventoryView`: its validation, the default
  collection and expiry dates, and what saving writes.
*/
module InventoryForm {
  import opened Wrappers
  import opened Calendar
  import opened Tables
  import opened JavaText
  import Validation
  import Model
  import InventoryControl
  import DonorControl
  import opened FormDates

  /** The form's inputs: text fields as typed, combo-box selections, and whether Find confirmed a donor. */
  datatype UnitForm = UnitForm(
    unitId: string,
    donorId: string,
    donorConfirmed: bool,
    component: string,
    bloodGroup: string,
    status: string,
    location: string,
    testedBy: string,
    testPassed: bool,
    remarks: string,
    collection: DateField,
    expiry: DateField)

  /** `validateForm`, check by check in the order of the source. */
  function ValidateUnitForm(f: UnitForm, nowMs: int): (ok: bool)
    ensures ok ==> Trim(f.unitId) != [] && ParseInt(Trim(f.donorId)).Some? && f.donorConfirmed
  {
    if Trim(f.unitId) == [] then false
    else if Trim(f.donorId) == [] then false
    else if ParseInt(Trim(f.donorId)).None? then false
    else if !f.donorConfirmed then false
    else DatesInOrder(f.collection, f.expiry, nowMs)
  }

  /**
    `validateForm` as one condition, with the dates in days: a collection
    day after today is rejected, and an expiry strictly before the collection
    day is rejected, the same day being allowed; the expiry is compared only
    when a collection date is given.
  */
  lemma ValidateUnitFormInDays(f: UnitForm, nowMs: int)
    ensures ValidateUnitForm(f, nowMs) <==>
              && Trim(f.unitId) != []
              && ParseInt(Trim(f.donorId)).Some?
              && f.donorConfirmed
              && !f.collection.Unparsable?
              && (f.collection.Given? ==> f.collection.day <= DayOf(nowMs))
              && !f.expiry.Unparsable?
              && (f.expiry.Given? && f.collection.Given? ==> f.expiry.day >= f.collection.day)
  {
    DatesInOrderInDays(f.collection, f.expiry, nowMs);
    if Trim(f.donorId) == [] {
      ParseIntRejectsNoDigits(Trim(f.donorId));
    }
  }

  /**
    The expiry `saveBloodUnit` computes when the field is blank: 35 days for
    whole blood, 42 for red cells, 5 for platelets, one calendar year for
    plasma, and 35 for any other component.
  */
  function ShelfLifeExpiry(component: string, collectionDay: int): (expiry: int)
    ensures expiry > collectionDay
    ensures component == "whole blood" ==> expiry == collectionDay + 35
    ensures component == "red cells" ==> expiry == collectionDay + 42
    ensures component == "platelets" ==> expiry == collectionDay + 5
    ensures component == "plasma" ==> expiry == AddOneYear(collectionDay)
    ensures component == "plasma" ==> expiry - collectionDay == 365 || expiry - collectionDay == 366
    ensures component !in Validation.Components ==> expiry == collectionDay + 35
  {
    AddOneYearLength(collectionDay);
    match component
    case "whole blood" => collectionDay + 35
    case "red cells" => collectionDay + 42
    case "plasma" => AddOneYear(collectionDay)
    case "platelets" => collectionDay + 5
    case _ => collectionDay + 35
  }

  /** The collection day: the given date, or the current day when the field is blank. */
  function CollectionDay(f: UnitForm, nowMs: int): (day: int)
    requires !f.collection.Unparsable?
    ensures f.collection.Given? ==> day == f.collection.day
    ensures f.collection.Blank? ==> day == DayOf(nowMs)
  {
    if f.collection.Given? then f.collection.day else DayOf(nowMs)
  }

  /** The expiry day: the given date verbatim, or the shelf-life default from the collection day. */
  function ExpiryDay(f: UnitForm, nowMs: int): (day: int)
    requires !f.collection.Unparsable? && !f.expiry.Unparsable?
    ensures f.expiry.Given? ==> day == f.expiry.day
    ensures f.expiry.Blank? ==> day == ShelfLifeExpiry(f.component, CollectionDay(f, nowMs))
    ensures f.expiry.Blank? ==> day > CollectionDay(f, nowMs)
  {
    if f.expiry.Given? then f.expiry.day else ShelfLifeExpiry(f.component, CollectionDay(f, nowMs))
  }

  /**
    The unit `saveBloodUnit` builds from a valid form: trimmed text fields,
    the parsed donor id, and both dates always present.  The collection day
    is never after today.
  */
  function FormUnitRow(f: UnitForm, nowMs: int): (r: UnitRecord)
    requires ValidateUnitForm(f, nowMs)
    ensures r.unitId == Trim(f.unitId) && Some(r.donorId) == ParseInt(Trim(f.donorId))
    ensures r.location == Trim(f.location) && r.testedBy == Trim(f.testedBy) && r.remarks == Trim(f.remarks)
    ensures r.collectionDate == Some(CollectionDay(f, nowMs)) && r.expiryDate == Some(ExpiryDay(f, nowMs))
    ensures r.collectionDate.value <= DayOf(nowMs)
    ensures f.collection.Given? && f.expiry.Given? ==> r.expiryDate.value >= r.collectionDate.value
  {
    ValidateUnitFormInDays(f, nowMs);
    UnitRecord(Trim(f.unitId), ParseInt(Trim(f.donorId)).value, f.bloodGroup,
               Some(CollectionDay(f, nowMs)), Some(ExpiryDay(f, nowMs)), f.status, Trim(f.location),
               f.component, Trim(f.remarks), Trim(f.testedBy), f.testPassed)
  }

  /** The `BloodUnit` object `saveBloodUnit` fills through its setters. */
  method BuildUnit(f: UnitForm, nowMs: int) returns (unit: Model.BloodUnit)
    requires ValidateUnitForm(f, nowMs)
    ensures fresh(unit)
    ensures unit.Row() == FormUnitRow(f, nowMs)
  {
    unit := new Model.BloodUnit.Empty();
    unit.SetUnitId(Trim(f.unitId));
    unit.SetComponent(f.component);
    unit.SetDonorId(ParseInt(Trim(f.donorId)).value);
    unit.SetBloodGroup(f.bloodGroup);
    unit.SetStatus(f.status);
    unit.SetLocation(Trim(f.location));
    unit.SetTestedBy(Trim(f.testedBy));
    unit.SetTestPassed(f.testPassed);
    unit.SetRemarks(Trim(f.remarks));
    unit.SetCollectionDate(Some(CollectionDay(f, nowMs)));
    unit.SetExpiryDate(Some(ExpiryDay(f, nowMs)));
  }

  /**
    `saveBloodUnit`: nothing happens on an invalid form.  Otherwise the unit
    is added (no unit selected) or updated (a unit selected); when that
    succeeds the donor's last donation date becomes the unit's collection
    date, even when that is earlier than the one stored.  The result of that
    second write is ignored: when the database rejects it
    (`donorWriteRejected`), the unit stays saved and the donor keeps the old
    date.
  */
  method SaveBloodUnit(db: Database, f: UnitForm, selectedUnitId: Option<string>, donorWriteRejected: bool, nowMs: int)
    returns (saved: bool)
    requires db.Valid()
    modifies db`units, db`donors
    ensures db.Valid()
    ensures !ValidateUnitForm(f, nowMs) ==> !saved && db.units == old(db.units) && db.donors == old(db.donors)
    ensures ValidateUnitForm(f, nowMs) && selectedUnitId.None? ==>
              && (saved <==> forall u :: u in old(db.units) ==> u.unitId != Trim(f.unitId))
              && db.units == (if saved then old(db.units) + [FormUnitRow(f, nowMs)] else old(db.units))
    ensures ValidateUnitForm(f, nowMs) && selectedUnitId.Some? ==>
              saved && db.units == InventoryControl.UnitsAfterUpdate(old(db.units), FormUnitRow(f, nowMs))
    ensures saved && !donorWriteRejected ==>
              db.donors == DonorControl.DonorsAfterLastDonation(old(db.donors), FormUnitRow(f, nowMs).donorId,
                                                                Some(CollectionDay(f, nowMs)))
    ensures !saved || donorWriteRejected ==> db.donors == old(db.donors)
  {
    if !ValidateUnitForm(f, nowMs) {
      return false;
    }
    var unit := BuildUnit(f, nowMs);
    saved := StoreUnit(db, unit, selectedUnitId, donorWriteRejected);
  }

  /**
    The writes of `saveBloodUnit` once the form is valid: add or update, then
    the donor's last donation, whose failure does not undo the first write.
  */
  method StoreUnit(db: Database, unit: Model.BloodUnit, selectedUnitId: Option<string>, donorWriteRejected: bool)
    returns (saved: bool)
    requires db.Valid()
    modifies db`units, db`donors
    ensures db.Valid()
    ensures selectedUnitId.None? ==>
              && (saved <==> forall u :: u in old(db.units) ==> u.unitId != unit.unitId)
              && db.units == (if saved then old(db.units) + [unit.Row()] else old(db.units))
    ensures selectedUnitId.Some? ==> saved && db.units == InventoryControl.UnitsAfterUpdate(old(db.units), unit.Row())
    ensures saved && !donorWriteRejected ==>
              db.donors == DonorControl.DonorsAfterLastDonation(old(db.donors), unit.donorId, unit.collectionDate)
    ensures !saved || donorWriteRejected ==> db.donors == old(db.donors)
  {
    if selectedUnitId.None? {
      saved := InventoryControl.AddBloodUnit(db, unit);
    } else {
      saved := InventoryControl.UpdateBloodUnit(db, unit);
    }
    if saved && !donorWriteRejected {
      var _ := DonorControl.UpdateLastDonationDate(db, unit.donorId, unit.collectionDate);
    }
  }

  // ---------------------------------------------------------------------
  // What the form lets through
  // ---------------------------------------------------------------------

  /**
    With the collection date blank, an explicit expiry is never compared
    with anything: a date already past passes, and the unit is stored
    expiring before the day it was collected.
  */
  lemma BlankCollectionAcceptsPastExpiry(f: UnitForm, nowMs: int)
    requires Trim(f.unitId) != [] && ParseInt(Trim(f.donorId)).Some? && f.donorConfirmed
    requires f.collection.Blank? && f.expiry.Given? && f.expiry.day < DayOf(nowMs)
    ensures ValidateUnitForm(f, nowMs)
    ensures FormUnitRow(f, nowMs).expiryDate.value < FormUnitRow(f, nowMs).collectionDate.value
  {
    ValidateUnitFormInDays(f, nowMs);
  }

  /** The unit id's format is not checked: any non-blank id passes validation. */
  lemma UnitIdFormatNotChecked(nowMs: int)
    ensures var f := UnitForm("7", "7", true, "plasma", "A+", "available", "", "", true, "", Blank, Blank);
            ValidateUnitForm(f, nowMs) && !Validation.IsValidBloodUnitId(Trim(f.unitId))
  {
    var f := UnitForm("7", "7", true, "plasma", "A+", "available", "", "", true, "", Blank, Blank);
    assert Trim(f.unitId) == "7" by {
      assert TrimStart("7") == "7";
    }
    assert ParseInt("7") == Some(7) by {
      assert Decimal(7) == "7";
      ParseIntOfDecimal(7);
    }
  }
}
