/**
  The record classes of `bloodbank.model`: plain objects whose fields the
  setters overwrite one at a time.  Java's `null` for a `Date` is `None`;
  a `String` field left unset by the default constructor is the empty
  string.  `Row()` is the object as a row of its table.
*/
module Model {
  import opened Wrappers
  import opened Tables

  /**
    A unit of collected blood (`bloodbank.model.BloodUnit`).  No field is
    constrained: any status string and any pair of dates can be stored.
  */
  class BloodUnit {
    var unitId: string
    var donorId: int
    var bloodGroup: string
    var collectionDate: Option<int>
    var expiryDate: Option<int>
    var status: string
    var location: string
    var component: string
    var remarks: string
    var testedBy: string
    var isTestPassed: bool

    function Row(): UnitRecord
      reads this
    {
      UnitRecord(unitId, donorId, bloodGroup, collectionDate, expiryDate, status, location, component, remarks, testedBy, isTestPassed)
    }

    /** The default constructor: every field holds its type's zero value. */
    constructor Empty()
      ensures Row() == UnitRecord("", 0, "", None, None, "", "", "", "", "", false)
    {
      unitId := "";
      donorId := 0;
      bloodGroup := "";
      collectionDate := None;
      expiryDate := None;
      status := "";
      location := "";
      component := "";
      remarks := "";
      testedBy := "";
      isTestPassed := false;
    }

    /** The parameterized constructor stores each argument in the field of the same name. */
    constructor (unitId: string, donorId: int, bloodGroup: string, collectionDate: Option<int>, expiryDate: Option<int>, status: string, location: string, component: string, remarks: string, testedBy: string, isTestPassed: bool)
      ensures Row() == UnitRecord(unitId, donorId, bloodGroup, collectionDate, expiryDate, status, location, component, remarks, testedBy, isTestPassed)
    {
      this.unitId := unitId;
      this.donorId := donorId;
      this.bloodGroup := bloodGroup;
      this.collectionDate := collectionDate;
      this.expiryDate := expiryDate;
      this.status := status;
      this.location := location;
      this.component := component;
      this.remarks := remarks;
      this.testedBy := testedBy;
      this.isTestPassed := isTestPassed;
    }

    method SetUnitId(x: string)
      modifies this`unitId
      ensures unitId == x
      ensures Row() == old(Row()).(unitId := x)
    {
      unitId := x;
    }

    method SetDonorId(x: int)
      modifies this`donorId
      ensures donorId == x
      ensures Row() == old(Row()).(donorId := x)
    {
      donorId := x;
    }

    method SetBloodGroup(x: string)
      modifies this`bloodGroup
      ensures bloodGroup == x
      ensures Row() == old(Row()).(bloodGroup := x)
    {
      bloodGroup := x;
    }

    method SetCollectionDate(x: Option<int>)
      modifies this`collectionDate
      ensures collectionDate == x
      ensures Row() == old(Row()).(collectionDate := x)
    {
      collectionDate := x;
    }

    method SetExpiryDate(x: Option<int>)
      modifies this`expiryDate
      ensures expiryDate == x
      ensures Row() == old(Row()).(expiryDate := x)
    {
      expiryDate := x;
    }

    method SetStatus(x: string)
      modifies this`status
      ensures status == x
      ensures Row() == old(Row()).(status := x)
    {
      status := x;
    }

    method SetLocation(x: string)
      modifies this`location
      ensures location == x
      ensures Row() == old(Row()).(location := x)
    {
      location := x;
    }

    method SetComponent(x: string)
      modifies this`component
      ensures component == x
      ensures Row() == old(Row()).(component := x)
    {
      component := x;
    }

    method SetRemarks(x: string)
      modifies this`remarks
      ensures remarks == x
      ensures Row() == old(Row()).(remarks := x)
    {
      remarks := x;
    }

    method SetTestedBy(x: string)
      modifies this`testedBy
      ensures testedBy == x
      ensures Row() == old(Row()).(testedBy := x)
    {
      testedBy := x;
    }

    method SetTestPassed(x: bool)
      modifies this`isTestPassed
      ensures isTestPassed == x
      ensures Row() == old(Row()).(isTestPassed := x)
    {
      isTestPassed := x;
    }
  }

  /**
    A registered donor (`bloodbank.model.Donor`).
  */
  class Donor {
    var donorId: int
    var name: string
    var bloodGroup: string
    var dateOfBirth: Option<int>
    var gender: string
    var phone: string
    var email: string
    var address: string
    var lastDonationDate: Option<int>
    var isEligible: bool
    var medicalHistory: string
    var registrationDate: Option<int>

    function Row(): DonorRecord
      reads this
    {
      DonorRecord(donorId, name, bloodGroup, dateOfBirth, gender, phone, email, address, lastDonationDate, isEligible, medicalHistory, registrationDate)
    }

    /** The default constructor: every field holds its type's zero value. */
    constructor Empty()
      ensures Row() == DonorRecord(0, "", "", None, "", "", "", "", None, false, "", None)
    {
      donorId := 0;
      name := "";
      bloodGroup := "";
      dateOfBirth := None;
      gender := "";
      phone := "";
      email := "";
      address := "";
      lastDonationDate := None;
      isEligible := false;
      medicalHistory := "";
      registrationDate := None;
    }

    /** The parameterized constructor stores each argument in the field of the same name. */
    constructor (donorId: int, name: string, bloodGroup: string, dateOfBirth: Option<int>, gender: string, phone: string, email: string, address: string, lastDonationDate: Option<int>, isEligible: bool, medicalHistory: string, registrationDate: Option<int>)
      ensures Row() == DonorRecord(donorId, name, bloodGroup, dateOfBirth, gender, phone, email, address, lastDonationDate, isEligible, medicalHistory, registrationDate)
    {
      this.donorId := donorId;
      this.name := name;
      this.bloodGroup := bloodGroup;
      this.dateOfBirth := dateOfBirth;
      this.gender := gender;
      this.phone := phone;
      this.email := email;
      this.address := address;
      this.lastDonationDate := lastDonationDate;
      this.isEligible := isEligible;
      this.medicalHistory := medicalHistory;
      this.registrationDate := registrationDate;
    }

    method SetDonorId(x: int)
      modifies this`donorId
      ensures donorId == x
      ensures Row() == old(Row()).(donorId := x)
    {
      donorId := x;
    }

    method SetName(x: string)
      modifies this`name
      ensures name == x
      ensures Row() == old(Row()).(name := x)
    {
      name := x;
    }

    method SetBloodGroup(x: string)
      modifies this`bloodGroup
      ensures bloodGroup == x
      ensures Row() == old(Row()).(bloodGroup := x)
    {
      bloodGroup := x;
    }

    method SetDateOfBirth(x: Option<int>)
      modifies this`dateOfBirth
      ensures dateOfBirth == x
      ensures Row() == old(Row()).(dateOfBirth := x)
    {
      dateOfBirth := x;
    }

    method SetGender(x: string)
      modifies this`gender
      ensures gender == x
      ensures Row() == old(Row()).(gender := x)
    {
      gender := x;
    }

    method SetPhone(x: string)
      modifies this`phone
      ensures phone == x
      ensures Row() == old(Row()).(phone := x)
    {
      phone := x;
    }

    method SetEmail(x: string)
      modifies this`email
      ensures email == x
      ensures Row() == old(Row()).(email := x)
    {
      email := x;
    }

    method SetAddress(x: string)
      modifies this`address
      ensures address == x
      ensures Row() == old(Row()).(address := x)
    {
      address := x;
    }

    method SetLastDonationDate(x: Option<int>)
      modifies this`lastDonationDate
      ensures lastDonationDate == x
      ensures Row() == old(Row()).(lastDonationDate := x)
    {
      lastDonationDate := x;
    }

    method SetEligible(x: bool)
      modifies this`isEligible
      ensures isEligible == x
      ensures Row() == old(Row()).(isEligible := x)
    {
      isEligible := x;
    }

    method SetMedicalHistory(x: string)
      modifies this`medicalHistory
      ensures medicalHistory == x
      ensures Row() == old(Row()).(medicalHistory := x)
    {
      medicalHistory := x;
    }

    method SetRegistrationDate(x: Option<int>)
      modifies this`registrationDate
      ensures registrationDate == x
      ensures Row() == old(Row()).(registrationDate := x)
    {
      registrationDate := x;
    }
  }

  /**
    A hospital's request for blood (`bloodbank.model.BloodRequest`).  The
    quantity is a plain integer; nothing keeps it positive.
  */
  class BloodRequest {
    var requestId: int
    var patientName: string
    var bloodGroup: string
    var component: string
    var quantity: int
    var requestDate: Option<int>
    var requiredDate: Option<int>
    var status: string
    var hospitalName: string
    var doctorName: string
    var contactPerson: string
    var contactPhone: string
    var reason: string
    var priority: string
    var processedBy: string
    var remarks: string

    function Row(): RequestRecord
      reads this
    {
      RequestRecord(requestId, patientName, bloodGroup, component, quantity, requestDate, requiredDate, status, hospitalName, doctorName, contactPerson, contactPhone, reason, priority, processedBy, remarks)
    }

    /** The default constructor: every field holds its type's zero value. */
    constructor Empty()
      ensures Row() == RequestRecord(0, "", "", "", 0, None, None, "", "", "", "", "", "", "", "", "")
    {
      requestId := 0;
      patientName := "";
      bloodGroup := "";
      component := "";
      quantity := 0;
      requestDate := None;
      requiredDate := None;
      status := "";
      hospitalName := "";
      doctorName := "";
      contactPerson := "";
      contactPhone := "";
      reason := "";
      priority := "";
      processedBy := "";
      remarks := "";
    }

    /** The parameterized constructor stores each argument in the field of the same name. */
    constructor (requestId: int, patientName: string, bloodGroup: string, component: string, quantity: int, requestDate: Option<int>, requiredDate: Option<int>, status: string, hospitalName: string, doctorName: string, contactPerson: string, contactPhone: string, reason: string, priority: string, processedBy: string, remarks: string)
      ensures Row() == RequestRecord(requestId, patientName, bloodGroup, component, quantity, requestDate, requiredDate, status, hospitalName, doctorName, contactPerson, contactPhone, reason, priority, processedBy, remarks)
    {
      this.requestId := requestId;
      this.patientName := patientName;
      this.bloodGroup := bloodGroup;
      this.component := component;
      this.quantity := quantity;
      this.requestDate := requestDate;
      this.requiredDate := requiredDate;
      this.status := status;
      this.hospitalName := hospitalName;
      this.doctorName := doctorName;
      this.contactPerson := contactPerson;
      this.contactPhone := contactPhone;
      this.reason := reason;
      this.priority := priority;
      this.processedBy := processedBy;
      this.remarks := remarks;
    }

    method SetRequestId(x: int)
      modifies this`requestId
      ensures requestId == x
      ensures Row() == old(Row()).(requestId := x)
    {
      requestId := x;
    }

    method SetPatientName(x: string)
      modifies this`patientName
      ensures patientName == x
      ensures Row() == old(Row()).(patientName := x)
    {
      patientName := x;
    }

    method SetBloodGroup(x: string)
      modifies this`bloodGroup
      ensures bloodGroup == x
      ensures Row() == old(Row()).(bloodGroup := x)
    {
      bloodGroup := x;
    }

    method SetComponent(x: string)
      modifies this`component
      ensures component == x
      ensures Row() == old(Row()).(component := x)
    {
      component := x;
    }

    method SetQuantity(x: int)
      modifies this`quantity
      ensures quantity == x
      ensures Row() == old(Row()).(quantity := x)
    {
      quantity := x;
    }

    method SetRequestDate(x: Option<int>)
      modifies this`requestDate
      ensures requestDate == x
      ensures Row() == old(Row()).(requestDate := x)
    {
      requestDate := x;
    }

    method SetRequiredDate(x: Option<int>)
      modifies this`requiredDate
      ensures requiredDate == x
      ensures Row() == old(Row()).(requiredDate := x)
    {
      requiredDate := x;
    }

    method SetStatus(x: string)
      modifies this`status
      ensures status == x
      ensures Row() == old(Row()).(status := x)
    {
      status := x;
    }

    method SetHospitalName(x: string)
      modifies this`hospitalName
      ensures hospitalName == x
      ensures Row() == old(Row()).(hospitalName := x)
    {
      hospitalName := x;
    }

    method SetDoctorName(x: string)
      modifies this`doctorName
      ensures doctorName == x
      ensures Row() == old(Row()).(doctorName := x)
    {
      doctorName := x;
    }

    method SetContactPerson(x: string)
      modifies this`contactPerson
      ensures contactPerson == x
      ensures Row() == old(Row()).(contactPerson := x)
    {
      contactPerson := x;
    }

    method SetContactPhone(x: string)
      modifies this`contactPhone
      ensures contactPhone == x
      ensures Row() == old(Row()).(contactPhone := x)
    {
      contactPhone := x;
    }

    method SetReason(x: string)
      modifies this`reason
      ensures reason == x
      ensures Row() == old(Row()).(reason := x)
    {
      reason := x;
    }

    method SetPriority(x: string)
      modifies this`priority
      ensures priority == x
      ensures Row() == old(Row()).(priority := x)
    {
      priority := x;
    }

    method SetProcessedBy(x: string)
      modifies this`processedBy
      ensures processedBy == x
      ensures Row() == old(Row()).(processedBy := x)
    {
      processedBy := x;
    }

    method SetRemarks(x: string)
      modifies this`remarks
      ensures remarks == x
      ensures Row() == old(Row()).(remarks := x)
    {
      remarks := x;
    }
  }

  /**
    Nothing ties a unit's dates or status together: an expiry before the
    collection date and a status outside the documented four are stored as given.
  */
  method UnconstrainedUnit(collection: int, expiry: int, status: string) returns (u: BloodUnit)
    ensures u.collectionDate == Some(collection) && u.expiryDate == Some(expiry) && u.status == status
  {
    u := new BloodUnit.Empty();
    u.SetCollectionDate(Some(collection));
    u.SetExpiryDate(Some(expiry));
    u.SetStatus(status);
  }
}
