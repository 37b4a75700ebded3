/**
  The donor form of `DonorView`: its validation and what saving writes,
  in particular that only a new donor is stamped with a registration date.
*/
module DonorForm {
  import opened Wrappers
  import opened Calendar
  import opened Tables
  import opened JavaText
  import opened FormDates
  import Model
  import DonorControl

  /** The form's inputs: text fields as typed, combo-box selections, the eligibility box and the two dates. */
  datatype DonorFields = DonorFields(
    name: string,
    bloodGroup: string,
    gender: string,
    phone: string,
    email: string,
    address: string,
    eligible: bool,
    medicalHistory: string,
    dateOfBirth: DateField,
    lastDonation: DateField)

  /**
    `validateForm`, check by check in the order of the source.  The phone
    and e-mail patterns of `ValidationUtil` are taken as parameters.
  */
  function ValidateDonorForm(f: DonorFields, isValidPhone: string -> bool, isValidEmail: string -> bool, nowMs: int)
    : (ok: bool)
    ensures ok ==> Trim(f.name) != [] && Trim(f.phone) != [] && isValidPhone(Trim(f.phone))
    ensures ok && Trim(f.email) != [] ==> isValidEmail(Trim(f.email))
  {
    if Trim(f.name) == [] then false
    else if Trim(f.phone) == [] then false
    else if !isValidPhone(Trim(f.phone)) then false
    else if Trim(f.email) != [] && !isValidEmail(Trim(f.email)) then false
    else NotInFuture(f.dateOfBirth, nowMs) && NotInFuture(f.lastDonation, nowMs)
  }

  /**
    `validateForm` as one condition, with the dates in days: e-mail is
    optional, and neither a birth date nor a last donation may lie after
    today.  Nothing relates the two dates to each other.
  */
  lemma ValidateDonorFormInDays(f: DonorFields, isValidPhone: string -> bool, isValidEmail: string -> bool, nowMs: int)
    ensures ValidateDonorForm(f, isValidPhone, isValidEmail, nowMs) <==>
              && Trim(f.name) != []
              && Trim(f.phone) != []
              && isValidPhone(Trim(f.phone))
              && (Trim(f.email) != [] ==> isValidEmail(Trim(f.email)))
              && !f.dateOfBirth.Unparsable?
              && (f.dateOfBirth.Given? ==> f.dateOfBirth.day <= DayOf(nowMs))
              && !f.lastDonation.Unparsable?
              && (f.lastDonation.Given? ==> f.lastDonation.day <= DayOf(nowMs))
  {
    NotInFutureInDays(f.dateOfBirth, nowMs);
    NotInFutureInDays(f.lastDonation, nowMs);
  }

  /** A date field that passed validation, as the value stored: the parsed day, or NULL when blank. */
  function StoredDate(field: DateField): (date: Option<int>)
    requires !field.Unparsable?
    ensures date.Some? <==> field.Given?
    ensures field.Given? ==> date.value == field.day
  {
    if field.Given? then Some(field.day) else None
  }

  /**
    The donor `saveDonor` builds from a valid form: trimmed text fields, the
    dates as given, a registration date of today only when no donor is
    selected, and the selected donor's key otherwise.
  */
  function FormDonorRow(f: DonorFields, selectedDonorId: int, nowMs: int): (r: DonorRecord)
    requires !f.dateOfBirth.Unparsable? && !f.lastDonation.Unparsable?
    ensures r.name == Trim(f.name) && r.phone == Trim(f.phone) && r.email == Trim(f.email)
    ensures r.address == Trim(f.address) && r.medicalHistory == Trim(f.medicalHistory)
    ensures r.isEligible == f.eligible
    ensures r.dateOfBirth == StoredDate(f.dateOfBirth) && r.lastDonationDate == StoredDate(f.lastDonation)
    ensures selectedDonorId == 0 ==> r.registrationDate == Some(DayOf(nowMs)) && r.donorId == 0
    ensures selectedDonorId != 0 ==> r.registrationDate.None? && r.donorId == selectedDonorId
  {
    DonorRecord(selectedDonorId, Trim(f.name), f.bloodGroup, StoredDate(f.dateOfBirth), f.gender, Trim(f.phone),
                Trim(f.email), Trim(f.address), StoredDate(f.lastDonation), f.eligible, Trim(f.medicalHistory),
                if selectedDonorId == 0 then Some(DayOf(nowMs)) else None)
  }

  /** The `Donor` object `saveDonor` fills through its setters. */
  method BuildDonor(f: DonorFields, selectedDonorId: int, nowMs: int) returns (donor: Model.Donor)
    requires !f.dateOfBirth.Unparsable? && !f.lastDonation.Unparsable?
    ensures fresh(donor)
    ensures donor.Row() == FormDonorRow(f, selectedDonorId, nowMs)
  {
    donor := new Model.Donor.Empty();
    donor.SetName(Trim(f.name));
    donor.SetBloodGroup(f.bloodGroup);
    donor.SetGender(f.gender);
    donor.SetPhone(Trim(f.phone));
    donor.SetEmail(Trim(f.email));
    donor.SetAddress(Trim(f.address));
    donor.SetEligible(f.eligible);
    donor.SetMedicalHistory(Trim(f.medicalHistory));
    donor.SetDateOfBirth(StoredDate(f.dateOfBirth));
    donor.SetLastDonationDate(StoredDate(f.lastDonation));
    if selectedDonorId == 0 {
      donor.SetRegistrationDate(Some(DayOf(nowMs)));
    }
    if selectedDonorId != 0 {
      donor.SetDonorId(selectedDonorId);
    }
  }

  /**
    `saveDonor`: nothing happens on an invalid form.  Otherwise a new donor
    is added when none is selected, and the selected donor is updated
    otherwise.
  */
  method SaveDonor(db: Database, f: DonorFields, selectedDonorId: int,
                   isValidPhone: string -> bool, isValidEmail: string -> bool, nowMs: int)
    returns (saved: bool)
    requires db.Valid()
    modifies db
    ensures db.Valid()
    ensures saved <==> ValidateDonorForm(f, isValidPhone, isValidEmail, nowMs)
    ensures !saved ==> db.donors == old(db.donors) && db.nextDonorId == old(db.nextDonorId)
    ensures saved && selectedDonorId == 0 ==>
              && db.donors == old(db.donors) + [DonorControl.NewDonorRow(FormDonorRow(f, 0, nowMs), old(db.nextDonorId), nowMs)]
              && db.nextDonorId == old(db.nextDonorId) + 1
    ensures saved && selectedDonorId != 0 ==>
              && db.donors == DonorControl.DonorsAfterUpdate(old(db.donors), FormDonorRow(f, selectedDonorId, nowMs))
              && db.nextDonorId == old(db.nextDonorId)
    ensures db.units == old(db.units) && db.requests == old(db.requests) && db.nextRequestId == old(db.nextRequestId)
  {
    if !ValidateDonorForm(f, isValidPhone, isValidEmail, nowMs) {
      return false;
    }
    var donor := BuildDonor(f, selectedDonorId, nowMs);
    saved := StoreDonor(db, donor, selectedDonorId, nowMs);
  }

  /** The write of `saveDonor` once the form is valid: add when no donor is selected, update otherwise. */
  method StoreDonor(db: Database, donor: Model.Donor, selectedDonorId: int, nowMs: int) returns (saved: bool)
    requires db.Valid()
    modifies db
    ensures db.Valid() && saved
    ensures selectedDonorId == 0 ==>
              && db.donors == old(db.donors) + [DonorControl.NewDonorRow(old(donor.Row()), old(db.nextDonorId), nowMs)]
              && db.nextDonorId == old(db.nextDonorId) + 1
    ensures selectedDonorId != 0 ==>
              && db.donors == DonorControl.DonorsAfterUpdate(old(db.donors), old(donor.Row()))
              && db.nextDonorId == old(db.nextDonorId)
    ensures db.units == old(db.units) && db.requests == old(db.requests) && db.nextRequestId == old(db.nextRequestId)
  {
    if selectedDonorId == 0 {
      saved := DonorControl.AddDonor(db, donor, nowMs);
    } else {
      saved := DonorControl.UpdateDonor(db, donor);
    }
  }

  /**
    The registration date is written only for a new donor, where it is
    today; saving an existing donor leaves every stored registration date
    as it was.
  */
  lemma RegistrationOnlyWhenNew(donors: seq<DonorRecord>, f: DonorFields, selectedDonorId: int, nextId: int, nowMs: int)
    requires !f.dateOfBirth.Unparsable? && !f.lastDonation.Unparsable?
    ensures selectedDonorId == 0 ==>
              var added := DonorControl.NewDonorRow(FormDonorRow(f, 0, nowMs), nextId, nowMs);
              added.registrationDate == Some(DayOf(nowMs)) && added.donorId == nextId
    ensures selectedDonorId != 0 ==>
              var r := DonorControl.DonorsAfterUpdate(donors, FormDonorRow(f, selectedDonorId, nowMs));
              forall i :: 0 <= i < |r| ==> r[i].registrationDate == donors[i].registrationDate
  {
  }

  /** Nothing relates the two dates: a birth date later than the last donation is accepted. */
  lemma DatesNotRelated(f: DonorFields, isValidPhone: string -> bool, isValidEmail: string -> bool, nowMs: int)
    requires Trim(f.name) != [] && Trim(f.phone) != [] && isValidPhone(Trim(f.phone)) && Trim(f.email) == []
    requires f.dateOfBirth.Given? && f.lastDonation.Given?
    requires f.lastDonation.day < f.dateOfBirth.day <= DayOf(nowMs)
    ensures ValidateDonorForm(f, isValidPhone, isValidEmail, nowMs)
  {
    ValidateDonorFormInDays(f, isValidPhone, isValidEmail, nowMs);
  }
}
