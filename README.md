# Blood bank manager: a verified model

This project models the core of a desktop blood bank manager, written in Java with Swing and JDBC. The core has three parts:

- **Records.** Donors, blood units (the inventory) and blood requests made for patients.
- **Controllers.** They read and write those records in a relational database:
  - register and update donors, and decide whether a donor may give blood again;
  - add, update and delete blood units, and list the units available for use;
  - fulfil a request by issuing units;
  - compute the figures of the reports.
- **Screens.** Parts of four forms: how they validate their fields, what saving a form writes, how the request screen lists and selects units for fulfilment, and the counts and totals the report screen shows.

## How the model is built

- **Database tables** are sequences of records held by the class `Tables.Database`. A query is a function over a table (`Query`: `WHERE`, `ORDER BY`, `COUNT(*)`, `UPDATE`, `DELETE`). Each controller method is a Dafny method that changes the tables. Its `ensures` clause ties the new tables to a specification function, and lemmas prove the properties of that function.
- **Records and objects.** A record's columns form a datatype. The Java model classes become Dafny classes with the same fields and setters.
- **Dates.** The Java `Date` values the program stores are day numbers. The current time is a parameter in milliseconds. `Calendar` converts day numbers to civil dates and back, which the one-year plasma shelf life needs.
- **Form fields.** A date field is blank, unparsable, or a day number (`FormDates.DateField`). Text fields are strings. `trim()` is modelled exactly, and `Integer.parseInt` for text made of ASCII digits (`JavaText`).
- **Write failures.** A database write that the program follows with another write can be rejected. Which writes are rejected is a parameter: a set of rejected writes for the fulfilment loop, and a flag for the donor's last-donation write after a unit is saved. An insert with a duplicate key is refused by `InventoryControl.AddBloodUnit` itself.
- **Hash maps.** A `HashMap` is a Dafny `map`. Where the program iterates over a map's values, the model visits the map's known keys in order. The sums it computes do not depend on that order.

## Model

| member | source | states |
|---|---|---|
| Calendar.AfterNowIffLaterDay | BloodBankManager-1/src/main/java/bloodbank/view/InventoryView.java:899-901 | `date.after(new Date())` for a parsed day holds exactly when the day is later than the current day |
| Calendar.MulMonotone | BloodBankManager-1/src/main/java/bloodbank/view/InventoryView.java:925-927 | proof helper, not behaviour of the cited lines: comparing the start instants of two days orders them as the days themselves (the `before` check on parsed dates) |
| Calendar.MarchFirstStep | BloodBankManager-1/src/main/java/bloodbank/view/InventoryView.java:633-634 | consecutive 1 March day numbers are 366 days apart after a leap February and 365 otherwise |
| Calendar.MarchYear | BloodBankManager-1/src/main/java/bloodbank/view/InventoryView.java:633-634 | every day number falls in exactly the March-based year it returns |
| Calendar.YearDownFrom | BloodBankManager-1/src/main/java/bloodbank/view/InventoryView.java:633-634 | searching downwards finds the March-based year containing the day |
| Calendar.YearUpFrom | BloodBankManager-1/src/main/java/bloodbank/view/InventoryView.java:633-634 | searching upwards finds the March-based year containing the day |
| Calendar.MonthSplit | BloodBankManager-1/src/main/java/bloodbank/view/InventoryView.java:633-634 | within one March-based year the month index and day of month found for a day are in range |
| Calendar.CivilInYearRoundTrip | BloodBankManager-1/src/main/java/bloodbank/view/InventoryView.java:633-634 | a day inside a March-based year becomes a valid civil date that converts back to the same day |
| Calendar.CivilRoundTrip | BloodBankManager-1/src/main/java/bloodbank/view/InventoryView.java:633-634 | every day number converts to a valid (year, month, day) and back to itself |
| Calendar.NextYearLength | BloodBankManager-1/src/main/java/bloodbank/view/InventoryView.java:633-634 | the same civil date one year later (29 February clamped to 28) is 365 or 366 days on |
| Calendar.AddOneYearLength | BloodBankManager-1/src/main/java/bloodbank/view/InventoryView.java:633-634 | `cal.add(Calendar.YEAR, 1)` moves a day 365 or 366 days forward, hence strictly later |
| JavaText.TrimStart | BloodBankManager-1/src/main/java/bloodbank/view/InventoryView.java:856 | `trim()` from the front: drops exactly the leading characters up to U+0020, leaving a suffix |
| JavaText.TrimEnd | BloodBankManager-1/src/main/java/bloodbank/view/InventoryView.java:856 | `trim()` from the back: drops exactly the trailing characters up to U+0020, leaving a prefix |
| JavaText.TrimEmptyIffBlank | BloodBankManager-1/src/main/java/bloodbank/view/InventoryView.java:856 | `getText().trim().isEmpty()` holds exactly when every character is U+0020 or below |
| JavaText.Decimal | BloodBankManager-1/src/main/java/bloodbank/view/InventoryView.java:877-878 | the decimal text of a natural number is a non-empty run of ASCII digits |
| JavaText.DigitsValueOfDecimal | BloodBankManager-1/src/main/java/bloodbank/view/InventoryView.java:877-878 | reading the digits of a number's decimal text gives the number back |
| JavaText.ParseInt | BloodBankManager-1/src/main/java/bloodbank/view/InventoryView.java:877-878 | `Integer.parseInt` succeeds only on non-empty text and only with a value in the 32-bit range; the value is the digits' value, negated after a minus sign |
| JavaText.ParseIntOfDecimal | BloodBankManager-1/src/main/java/bloodbank/view/InventoryView.java:877-878 | the decimal text of any non-negative `int`, with or without a minus sign, parses back to that value |
| JavaText.ParseIntRejectsNoDigits | BloodBankManager-1/src/main/java/bloodbank/view/InventoryView.java:862-888 | empty text or a lone sign throws `NumberFormatException` (the donor-id checks) |
| JavaText.ParseIntRejectsNonDigit | BloodBankManager-1/src/main/java/bloodbank/view/InventoryView.java:877-888 | any character other than an ASCII digit outside the leading sign position makes the parse fail |
| Validation.ListContains | BloodBankManager-1/src/main/java/bloodbank/util/ValidationUtil.java:112-120 | the early-return loop over a list of valid values is true exactly when the input equals one of them |
| Validation.IsValidBloodGroup | BloodBankManager-1/src/main/java/bloodbank/util/ValidationUtil.java:107-121 | true exactly for the eight groups A+, A-, B+, B-, AB+, AB-, O+, O- (the empty string is rejected) |
| Validation.IsValidGender | BloodBankManager-1/src/main/java/bloodbank/util/ValidationUtil.java:128-142 | true exactly for Male, Female, Other |
| Validation.IsValidBloodComponent | BloodBankManager-1/src/main/java/bloodbank/util/ValidationUtil.java:149-163 | true exactly for whole blood, plasma, platelets, red cells |
| Validation.IsValidBloodUnitStatus | BloodBankManager-1/src/main/java/bloodbank/util/ValidationUtil.java:170-184 | true exactly for available, reserved, issued, discarded |
| Validation.IsValidRequestStatus | BloodBankManager-1/src/main/java/bloodbank/util/ValidationUtil.java:191-205 | true exactly for pending, fulfilled, partially fulfilled, cancelled |
| Validation.IsValidRequestPriority | BloodBankManager-1/src/main/java/bloodbank/util/ValidationUtil.java:212-226 | true exactly for normal, urgent, emergency |
| Validation.MatchesFixed | BloodBankManager-1/src/main/java/bloodbank/util/ValidationUtil.java:71-73 | an anchored pattern without repetition matches exactly the strings of its length whose characters are each in their class |
| Validation.MatchesRepeated | BloodBankManager-1/src/main/java/bloodbank/util/ValidationUtil.java:86 | an anchored `[k]+` matches exactly the non-empty strings drawn from the class |
| Validation.IsValidBloodUnitId | BloodBankManager-1/src/main/java/bloodbank/util/ValidationUtil.java:28-29 | `^BU-\d{8}-\d{4}$`: "BU-", eight digits, "-", four digits, so every valid id has 16 characters; empty is rejected |
| Validation.IsNumeric | BloodBankManager-1/src/main/java/bloodbank/util/ValidationUtil.java:94-100 | true exactly for non-empty strings of the digits 0-9 |
| Validation.IsAlphabetic | BloodBankManager-1/src/main/java/bloodbank/util/ValidationUtil.java:81-87 | true exactly for non-empty strings of ASCII letters and spaces |
| Model.BloodUnit.Empty | BloodBankManager-1/src/main/java/bloodbank/model/BloodUnit.java:22-23 | the default constructor leaves every field at its zero value (empty text, 0, no date, false) |
| Model.BloodUnit.constructor | BloodBankManager-1/src/main/java/bloodbank/model/BloodUnit.java:26-40 | the parameterized constructor stores each argument in the field of the same name |
| Model.BloodUnit.SetUnitId | BloodBankManager-1/src/main/java/bloodbank/model/BloodUnit.java:47-49 | the field unitId takes the new value and every other field is unchanged |
| Model.BloodUnit.SetDonorId | BloodBankManager-1/src/main/java/bloodbank/model/BloodUnit.java:55-57 | the field donorId takes the new value and every other field is unchanged |
| Model.BloodUnit.SetBloodGroup | BloodBankManager-1/src/main/java/bloodbank/model/BloodUnit.java:63-65 | the field bloodGroup takes the new value and every other field is unchanged |
| Model.BloodUnit.SetCollectionDate | BloodBankManager-1/src/main/java/bloodbank/model/BloodUnit.java:71-73 | the field collectionDate takes the new value and every other field is unchanged |
| Model.BloodUnit.SetExpiryDate | BloodBankManager-1/src/main/java/bloodbank/model/BloodUnit.java:79-81 | the field expiryDate takes the new value and every other field is unchanged |
| Model.BloodUnit.SetStatus | BloodBankManager-1/src/main/java/bloodbank/model/BloodUnit.java:87-89 | the field status takes the new value and every other field is unchanged |
| Model.BloodUnit.SetLocation | BloodBankManager-1/src/main/java/bloodbank/model/BloodUnit.java:95-97 | the field location takes the new value and every other field is unchanged |
| Model.BloodUnit.SetComponent | BloodBankManager-1/src/main/java/bloodbank/model/BloodUnit.java:103-105 | the field component takes the new value and every other field is unchanged |
| Model.BloodUnit.SetRemarks | BloodBankManager-1/src/main/java/bloodbank/model/BloodUnit.java:111-113 | the field remarks takes the new value and every other field is unchanged |
| Model.BloodUnit.SetTestedBy | BloodBankManager-1/src/main/java/bloodbank/model/BloodUnit.java:119-121 | the field testedBy takes the new value and every other field is unchanged |
| Model.BloodUnit.SetTestPassed | BloodBankManager-1/src/main/java/bloodbank/model/BloodUnit.java:127-129 | the field isTestPassed takes the new value and every other field is unchanged |
| Model.Donor.Empty | BloodBankManager-1/src/main/java/bloodbank/model/Donor.java:23-24 | the default constructor leaves every field at its zero value (empty text, 0, no date, false) |
| Model.Donor.constructor | BloodBankManager-1/src/main/java/bloodbank/model/Donor.java:27-43 | the parameterized constructor stores each argument in the field of the same name |
| Model.Donor.SetDonorId | BloodBankManager-1/src/main/java/bloodbank/model/Donor.java:50-52 | the field donorId takes the new value and every other field is unchanged |
| Model.Donor.SetName | BloodBankManager-1/src/main/java/bloodbank/model/Donor.java:58-60 | the field name takes the new value and every other field is unchanged |
| Model.Donor.SetBloodGroup | BloodBankManager-1/src/main/java/bloodbank/model/Donor.java:66-68 | the field bloodGroup takes the new value and every other field is unchanged |
| Model.Donor.SetDateOfBirth | BloodBankManager-1/src/main/java/bloodbank/model/Donor.java:74-76 | the field dateOfBirth takes the new value and every other field is unchanged |
| Model.Donor.SetGender | BloodBankManager-1/src/main/java/bloodbank/model/Donor.java:82-84 | the field gender takes the new value and every other field is unchanged |
| Model.Donor.SetPhone | BloodBankManager-1/src/main/java/bloodbank/model/Donor.java:90-92 | the field phone takes the new value and every other field is unchanged |
| Model.Donor.SetEmail | BloodBankManager-1/src/main/java/bloodbank/model/Donor.java:98-100 | the field email takes the new value and every other field is unchanged |
| Model.Donor.SetAddress | BloodBankManager-1/src/main/java/bloodbank/model/Donor.java:106-108 | the field address takes the new value and every other field is unchanged |
| Model.Donor.SetLastDonationDate | BloodBankManager-1/src/main/java/bloodbank/model/Donor.java:114-116 | the field lastDonationDate (which may be absent) takes the new value and every other field is unchanged |
| Model.Donor.SetEligible | BloodBankManager-1/src/main/java/bloodbank/model/Donor.java:122-124 | the field isEligible takes the new value and every other field is unchanged |
| Model.Donor.SetMedicalHistory | BloodBankManager-1/src/main/java/bloodbank/model/Donor.java:130-132 | the field medicalHistory takes the new value and every other field is unchanged |
| Model.Donor.SetRegistrationDate | BloodBankManager-1/src/main/java/bloodbank/model/Donor.java:138-140 | the field registrationDate takes the new value and every other field is unchanged |
| Model.BloodRequest.Empty | BloodBankManager-1/src/main/java/bloodbank/model/BloodRequest.java:27-28 | the default constructor leaves every field at its zero value (empty text, 0, no date, false) |
| Model.BloodRequest.constructor | BloodBankManager-1/src/main/java/bloodbank/model/BloodRequest.java:31-52 | the parameterized constructor stores each argument in the field of the same name |
| Model.BloodRequest.SetRequestId | BloodBankManager-1/src/main/java/bloodbank/model/BloodRequest.java:59-61 | the field requestId takes the new value and every other field is unchanged |
| Model.BloodRequest.SetPatientName | BloodBankManager-1/src/main/java/bloodbank/model/BloodRequest.java:67-69 | the field patientName takes the new value and every other field is unchanged |
| Model.BloodRequest.SetBloodGroup | BloodBankManager-1/src/main/java/bloodbank/model/BloodRequest.java:75-77 | the field bloodGroup takes the new value and every other field is unchanged |
| Model.BloodRequest.SetComponent | BloodBankManager-1/src/main/java/bloodbank/model/BloodRequest.java:83-85 | the field component takes the new value and every other field is unchanged |
| Model.BloodRequest.SetQuantity | BloodBankManager-1/src/main/java/bloodbank/model/BloodRequest.java:91-93 | the field quantity (any int, no positivity check) takes the new value and every other field is unchanged |
| Model.BloodRequest.SetRequestDate | BloodBankManager-1/src/main/java/bloodbank/model/BloodRequest.java:99-101 | the field requestDate takes the new value and every other field is unchanged |
| Model.BloodRequest.SetRequiredDate | BloodBankManager-1/src/main/java/bloodbank/model/BloodRequest.java:107-109 | the field requiredDate takes the new value and every other field is unchanged |
| Model.BloodRequest.SetStatus | BloodBankManager-1/src/main/java/bloodbank/model/BloodRequest.java:115-117 | the field status takes the new value and every other field is unchanged |
| Model.BloodRequest.SetHospitalName | BloodBankManager-1/src/main/java/bloodbank/model/BloodRequest.java:123-125 | the field hospitalName takes the new value and every other field is unchanged |
| Model.BloodRequest.SetDoctorName | BloodBankManager-1/src/main/java/bloodbank/model/BloodRequest.java:131-133 | the field doctorName takes the new value and every other field is unchanged |
| Model.BloodRequest.SetContactPerson | BloodBankManager-1/src/main/java/bloodbank/model/BloodRequest.java:139-141 | the field contactPerson takes the new value and every other field is unchanged |
| Model.BloodRequest.SetContactPhone | BloodBankManager-1/src/main/java/bloodbank/model/BloodRequest.java:147-149 | the field contactPhone takes the new value and every other field is unchanged |
| Model.BloodRequest.SetReason | BloodBankManager-1/src/main/java/bloodbank/model/BloodRequest.java:155-157 | the field reason takes the new value and every other field is unchanged |
| Model.BloodRequest.SetPriority | BloodBankManager-1/src/main/java/bloodbank/model/BloodRequest.java:163-165 | the field priority takes the new value and every other field is unchanged |
| Model.BloodRequest.SetProcessedBy | BloodBankManager-1/src/main/java/bloodbank/model/BloodRequest.java:171-173 | the field processedBy takes the new value and every other field is unchanged |
| Model.BloodRequest.SetRemarks | BloodBankManager-1/src/main/java/bloodbank/model/BloodRequest.java:179-181 | the field remarks takes the new value and every other field is unchanged |
| Model.UnconstrainedUnit | BloodBankManager-1/src/main/java/bloodbank/model/BloodUnit.java:71-89 | a unit can hold any status string and an expiry before its collection date: the class checks nothing |
| Query.Where | BloodBankManager-1/src/main/java/bloodbank/controller/InventoryController.java:69-71 | `WHERE p` keeps a sub-list of the table, never longer than it |
| Query.WhereContents | BloodBankManager-1/src/main/java/bloodbank/controller/InventoryController.java:69-71 | a row is selected exactly when it is in the table and satisfies the condition, with its multiplicity |
| Query.WhereAppend | BloodBankManager-1/src/main/java/bloodbank/view/RequestView.java:536-541 | filtering a concatenation filters each part, keeping their order |
| Query.WhereWhere | BloodBankManager-1/src/main/java/bloodbank/view/RequestView.java:532-542 | filtering twice is filtering by the conjunction (the group filter over the per-component query) |
| Query.WhereCongruent | BloodBankManager-1/src/main/java/bloodbank/view/RequestView.java:532-542 | conditions that agree on every row select the same rows |
| Query.Count | BloodBankManager-1/src/main/java/bloodbank/controller/ReportController.java:233-234 | `COUNT(*) … WHERE p` is the length of the filtered table, at most the table size |
| Query.CountDisjoint | BloodBankManager-1/src/main/java/bloodbank/controller/ReportController.java:257-272 | two conditions that never hold together count at most as many rows as a condition covering both |
| Query.CountMonotone | BloodBankManager-1/src/main/java/bloodbank/controller/ReportController.java:283-285 | a condition implied by another counts at least as many rows |
| Query.CountSplit | BloodBankManager-1/src/main/java/bloodbank/view/ReportView.java:480-487 | a condition that is the disjoint union of two others counts exactly their sum |
| Query.CountAll | BloodBankManager-1/src/main/java/bloodbank/view/ReportView.java:480-487 | every row counts exactly when every row satisfies the condition |
| Query.CountNone | BloodBankManager-1/src/main/java/bloodbank/controller/InventoryController.java:211-212 | a condition no row satisfies counts 0 |
| Query.InOrderTotal | BloodBankManager-1/src/main/java/bloodbank/controller/InventoryController.java:69-71 | proof helper, not behaviour of the cited lines: any two sort keys are comparable in either direction, NULL below every date |
| Query.Insert | BloodBankManager-1/src/main/java/bloodbank/controller/InventoryController.java:69-71 | inserting into a sorted list keeps it sorted and adds exactly that row |
| Query.OrderBy | BloodBankManager-1/src/main/java/bloodbank/controller/InventoryController.java:69-71 | `ORDER BY key dir` returns a sorted permutation of its input |
| Query.WhereSorted | BloodBankManager-1/src/main/java/bloodbank/view/RequestView.java:536-542 | filtering a sorted list keeps it sorted |
| Query.SelectContents | BloodBankManager-1/src/main/java/bloodbank/controller/InventoryController.java:69-71 | `SELECT * … WHERE p ORDER BY key` is sorted and holds exactly the matching rows, each as often as in the table |
| Query.Select | BloodBankManager-1/src/main/java/bloodbank/controller/InventoryController.java:69-80 | the result-set loop returns the ordered selection |
| Query.WhereSnoc | BloodBankManager-1/src/main/java/bloodbank/view/RequestView.java:537-541 | filtering one more row appends it exactly when it satisfies the condition |
| Query.UpdateWhere | BloodBankManager-1/src/main/java/bloodbank/controller/InventoryController.java:197-199 | `UPDATE … WHERE p` rewrites exactly the matching rows and keeps the table length |
| Query.UpdateNoMatch | BloodBankManager-1/src/main/java/bloodbank/controller/InventoryController.java:197-199 | proof helper, not behaviour of the cited lines: an update that matches no row leaves the table as it was |
| Query.DeleteWhere | BloodBankManager-1/src/main/java/bloodbank/controller/InventoryController.java:186-188 | `DELETE … WHERE p` keeps exactly the rows that do not match |
| Query.FindFirst | BloodBankManager-1/src/main/java/bloodbank/controller/InventoryController.java:28-39 | the by-key lookup finds a matching row exactly when one exists, and what it finds matches |
| Query.Distinct | BloodBankManager-1/src/main/java/bloodbank/controller/ReportController.java:118-120 | the `GROUP BY` groups: each value of the column once, and only values that occur |
| Query.MapRows | BloodBankManager-1/src/main/java/bloodbank/controller/ReportController.java:43-55 | reading a result set builds one object per row, in order |
| Query.MapRowsSorted | BloodBankManager-1/src/main/java/bloodbank/controller/ReportController.java:40-55 | reading rows keeps the sort order when the sort column is copied |
| Query.MapRowsContents | BloodBankManager-1/src/main/java/bloodbank/controller/ReportController.java:43-55 | each object read comes from some row and every row yields one |
| Query.ReadAll | BloodBankManager-1/src/main/java/bloodbank/controller/ReportController.java:43-55 | the `while (rs.next())` loop returns the rows read, in order |
| Query.WhereKeepsUniqueKeys | BloodBankManager-1/src/main/java/bloodbank/controller/InventoryController.java:186-188 | keeping some rows of a table with unique keys keeps them unique |
| Query.DeleteWhereKeys | BloodBankManager-1/src/main/java/bloodbank/controller/InventoryController.java:186-188 | deleting rows keeps primary keys unique and adds no row |
| Query.SameKeys | BloodBankManager-1/src/main/java/bloodbank/controller/InventoryController.java:161-179 | a rewrite that keeps every row's key keeps keys unique and introduces no key |
| Query.AppendKeepsUniqueKeys | BloodBankManager-1/src/main/java/bloodbank/controller/InventoryController.java:136-156 | inserting a row with a new key keeps keys unique |
| DonorControl.FindDonor | BloodBankManager-1/src/main/java/bloodbank/controller/DonorController.java:26-38 | `getDonorById` finds the donor with the id, or nothing exactly when no donor has it |
| DonorControl.WaitingPeriodOver | BloodBankManager-1/src/main/java/bloodbank/controller/DonorController.java:201-208 | `now - last >= 90 days` in milliseconds holds exactly when today is at least 90 days after the donation day |
| DonorControl.MillisecondsToDays | BloodBankManager-1/src/main/java/bloodbank/controller/DonorController.java:206-208 | the millisecond threshold and the 90-day threshold agree for a donation date at midnight |
| DonorControl.WaitingPeriodBoundary | BloodBankManager-1/src/main/java/bloodbank/controller/DonorController.java:206-208 | exactly 90 days after the donation is enough; one millisecond less is not |
| DonorControl.IsEligibleToDonate | BloodBankManager-1/src/main/java/bloodbank/controller/DonorController.java:192-215 | false for an unknown donor or a cleared flag; true with the flag and no last donation; otherwise true exactly when the waiting period is over; the table is only read |
| DonorControl.NewDonorRow | BloodBankManager-1/src/main/java/bloodbank/controller/DonorController.java:121-141 | `addDonor` stores every field of the object, a database-assigned id, and today as registration date when none is given |
| DonorControl.DonorsAfterUpdate | BloodBankManager-1/src/main/java/bloodbank/controller/DonorController.java:146-164 | `updateDonor` rewrites the donor with that id from the object except its registration date; other donors unchanged |
| DonorControl.DonorsAfterLastDonation | BloodBankManager-1/src/main/java/bloodbank/controller/DonorController.java:182-185 | only the last-donation date of the donor with that id changes |
| DonorControl.DonorsAfterDelete | BloodBankManager-1/src/main/java/bloodbank/controller/DonorController.java:171-174 | exactly the donors with other ids remain |
| DonorControl.AddDonor | BloodBankManager-1/src/main/java/bloodbank/controller/DonorController.java:121-141 | appends the new row with the next id, keeping ids unique; other tables unchanged |
| DonorControl.UpdateDonor | BloodBankManager-1/src/main/java/bloodbank/controller/DonorController.java:146-164 | the donors table becomes DonorsAfterUpdate; reports success even for an unknown id |
| DonorControl.DeleteDonor | BloodBankManager-1/src/main/java/bloodbank/controller/DonorController.java:171-174 | the donors table becomes DonorsAfterDelete |
| DonorControl.UpdateLastDonationDate | BloodBankManager-1/src/main/java/bloodbank/controller/DonorController.java:182-185 | the donors table becomes DonorsAfterLastDonation; success even for an unknown id |
| DonorControl.LastDonationKeepsOtherColumns | BloodBankManager-1/src/main/java/bloodbank/controller/DonorController.java:182-185 | writing the last donation leaves every donor's eligibility flag and registration date as they were |
| InventoryControl.AvailableUnits | BloodBankManager-1/src/main/java/bloodbank/controller/InventoryController.java:67-83 | exactly the units with status "available", test passed and expiry after today, each as often as stored, ascending by expiry |
| InventoryControl.AvailableUnitsOfGroup | BloodBankManager-1/src/main/java/bloodbank/controller/InventoryController.java:90-106 | exactly the available units of the group, each as often as stored, ascending by expiry, as many as the group's count |
| InventoryControl.AvailableUnitsOfComponent | BloodBankManager-1/src/main/java/bloodbank/controller/InventoryController.java:113-129 | exactly the available units of the component, each as often as stored, ascending by expiry |
| InventoryControl.NearlyExpiredUnits | BloodBankManager-1/src/main/java/bloodbank/controller/InventoryController.java:239-256 | exactly the units with status "available" and today <= expiry <= today + 7, each as often as stored, ascending; the test result is not consulted |
| InventoryControl.NearlyExpiredIgnoresTest | BloodBankManager-1/src/main/java/bloodbank/controller/InventoryController.java:239-243 | a unit that failed its test and expires today is listed as nearly expired but not as available |
| InventoryControl.GetAvailableBloodUnits | BloodBankManager-1/src/main/java/bloodbank/controller/InventoryController.java:67-83 | returns AvailableUnits for the current day |
| InventoryControl.GetAvailableBloodUnitsByBloodGroup | BloodBankManager-1/src/main/java/bloodbank/controller/InventoryController.java:90-106 | returns AvailableUnitsOfGroup for the current day |
| InventoryControl.GetAvailableBloodUnitsByComponent | BloodBankManager-1/src/main/java/bloodbank/controller/InventoryController.java:113-129 | returns AvailableUnitsOfComponent for the current day |
| InventoryControl.GetNearlyExpiredUnits | BloodBankManager-1/src/main/java/bloodbank/controller/InventoryController.java:239-256 | returns NearlyExpiredUnits for the current day |
| InventoryControl.UnitsAfterStatus | BloodBankManager-1/src/main/java/bloodbank/controller/InventoryController.java:197-200 | only the status of the unit with that id changes, to any string, with no transition check |
| InventoryControl.UnitsAfterUpdate | BloodBankManager-1/src/main/java/bloodbank/controller/InventoryController.java:161-179 | the unit with the object's id takes every column from the object; all other units unchanged |
| InventoryControl.UnitsAfterDelete | BloodBankManager-1/src/main/java/bloodbank/controller/InventoryController.java:186-189 | exactly the units with other ids remain |
| InventoryControl.AddBloodUnit | BloodBankManager-1/src/main/java/bloodbank/controller/InventoryController.java:136-156 | succeeds exactly when the unit id is new, appending the row; otherwise the table is unchanged |
| InventoryControl.UpdateBloodUnit | BloodBankManager-1/src/main/java/bloodbank/controller/InventoryController.java:161-179 | the units table becomes UnitsAfterUpdate; success even for an unknown id |
| InventoryControl.DeleteBloodUnit | BloodBankManager-1/src/main/java/bloodbank/controller/InventoryController.java:186-189 | the units table becomes UnitsAfterDelete |
| InventoryControl.UpdateBloodUnitStatus | BloodBankManager-1/src/main/java/bloodbank/controller/InventoryController.java:197-200 | the units table becomes UnitsAfterStatus, reporting success |
| InventoryControl.StatusOfUnknownUnit | BloodBankManager-1/src/main/java/bloodbank/controller/InventoryController.java:197-200 | a status update naming no stored unit changes nothing yet reports success |
| InventoryControl.GetBloodInventoryStats | BloodBankManager-1/src/main/java/bloodbank/controller/InventoryController.java:206-233 | keys are the eight groups plus any other group with an available unit; each value counts the available units of its group |
| InventoryControl.NoRowsCountZero | BloodBankManager-1/src/main/java/bloodbank/controller/InventoryController.java:211-212 | a group without available units counts 0, the initial value kept |
| RequestControl.FindRequest | BloodBankManager-1/src/main/java/bloodbank/controller/RequestController.java:28-40 | `getRequestById` finds the request with the id, or nothing exactly when none has it |
| RequestControl.FulfilmentStatus | BloodBankManager-1/src/main/java/bloodbank/controller/RequestController.java:185-192 | "fulfilled" iff count >= quantity, "partially fulfilled" iff 0 < count < quantity, "pending" iff count is 0 and quantity positive; always a valid status |
| RequestControl.RequestsAfterStatus | BloodBankManager-1/src/main/java/bloodbank/controller/RequestController.java:162-165 | only status and processed_by of the request with that id change |
| RequestControl.FindAfterStatus | BloodBankManager-1/src/main/java/bloodbank/controller/RequestController.java:162-165 | after the status write the request is found again with the new status and processor and nothing else changed |
| RequestControl.FindUnique | BloodBankManager-1/src/main/java/bloodbank/controller/RequestController.java:28-40 | with unique ids the lookup returns the one row carrying the id |
| RequestControl.NewRequestRow | BloodBankManager-1/src/main/java/bloodbank/controller/RequestController.java:90-113 | `addRequest` stores the object with a new id, and today as request date when none is given |
| RequestControl.RequestsAfterUpdate | BloodBankManager-1/src/main/java/bloodbank/controller/RequestController.java:120-143 | `updateRequest` rewrites that request from the object but never its request date; others unchanged |
| RequestControl.RequestsAfterDelete | BloodBankManager-1/src/main/java/bloodbank/controller/RequestController.java:150-153 | exactly the requests with other ids remain |
| RequestControl.AddRequest | BloodBankManager-1/src/main/java/bloodbank/controller/RequestController.java:90-113 | appends NewRequestRow with the next id, keeping ids unique |
| RequestControl.UpdateRequest | BloodBankManager-1/src/main/java/bloodbank/controller/RequestController.java:120-143 | the requests table becomes RequestsAfterUpdate |
| RequestControl.DeleteRequest | BloodBankManager-1/src/main/java/bloodbank/controller/RequestController.java:150-153 | the requests table becomes RequestsAfterDelete |
| RequestControl.UpdateRequestStatus | BloodBankManager-1/src/main/java/bloodbank/controller/RequestController.java:162-165 | the requests table becomes RequestsAfterStatus, reporting success |
| RequestControl.RequestsWithStatus | BloodBankManager-1/src/main/java/bloodbank/controller/RequestController.java:68-83 | exactly the requests with that status, each as often as stored, latest request date first |
| RequestControl.GetRequestsByStatus | BloodBankManager-1/src/main/java/bloodbank/controller/RequestController.java:68-83 | returns RequestsWithStatus |
| RequestControl.IssueAll | BloodBankManager-1/src/main/java/bloodbank/controller/RequestController.java:198-203 | issuing the listed units one by one keeps the table length |
| RequestControl.IssueAllEffect | BloodBankManager-1/src/main/java/bloodbank/controller/RequestController.java:198-203 | every listed unit becomes "issued" whatever its status, expiry, group or component; every other column and unit is unchanged |
| RequestControl.IssueAllPrefix | BloodBankManager-1/src/main/java/bloodbank/controller/RequestController.java:198-199 | issuing one more unit of the list is one more status update |
| RequestControl.WritesBeforeRejection | BloodBankManager-1/src/main/java/bloodbank/controller/RequestController.java:198-203 | the loop stops at the first rejected unit write: all writes before it were accepted |
| RequestControl.WritesBeforeRejectionUnique | BloodBankManager-1/src/main/java/bloodbank/controller/RequestController.java:198-203 | proof helper, not behaviour of the cited lines: that stopping point is the only one consistent with the rejected writes |
| RequestControl.FulfilOutcome | BloodBankManager-1/src/main/java/bloodbank/controller/RequestController.java:174-207 | an unknown request or a rejected request write changes nothing and fails; success implies every write was accepted |
| RequestControl.FulfillRequest | BloodBankManager-1/src/main/java/bloodbank/controller/RequestController.java:174-207 | the result and both tables are those of FulfilOutcome: request row first, then units in list order up to the first failure |
| RequestControl.IssueUnits | BloodBankManager-1/src/main/java/bloodbank/controller/RequestController.java:197-204 | the units listed before the first rejected write are issued; success exactly when none was rejected |
| RequestControl.FulfilWithoutFailures | BloodBankManager-1/src/main/java/bloodbank/controller/RequestController.java:174-207 | with every write accepted: success, the request carries the new status and processor, exactly the listed units are issued |
| RequestControl.FulfilPartialFailure | BloodBankManager-1/src/main/java/bloodbank/controller/RequestController.java:194-206 | not all-or-nothing: after a rejected unit write the call fails yet the request keeps its new status and the earlier units stay issued |
| RequestControl.FulfilIgnoresCurrentStatus | BloodBankManager-1/src/main/java/bloodbank/controller/RequestController.java:174-194 | the stored status is not checked: an empty list resets any request with positive quantity to "pending" and reports success |
| RequestControl.FulfilCountsDuplicates | BloodBankManager-1/src/main/java/bloodbank/controller/RequestController.java:186-199 | the same unit listed twice fulfils a request for two, though one unit is issued |
| ReportControl.UnitReportColumns | BloodBankManager-1/src/main/java/bloodbank/controller/ReportController.java:46-54 | the unit object read keeps id, donor, group, dates, status and component and clears the other columns |
| ReportControl.RequestReportColumns | BloodBankManager-1/src/main/java/bloodbank/controller/ReportController.java:78-89 | the request object read keeps the ten copied columns and clears the others |
| ReportControl.DonorReportColumns | BloodBankManager-1/src/main/java/bloodbank/controller/ReportController.java:194-203 | the donor object read keeps the eight copied columns and clears the others |
| ReportControl.DonationReport | BloodBankManager-1/src/main/java/bloodbank/controller/ReportController.java:38-62 | one row per unit collected in the inclusive range, latest collection first, each carrying that unit's copied columns |
| ReportControl.GetDonationReport | BloodBankManager-1/src/main/java/bloodbank/controller/ReportController.java:38-62 | returns DonationReport |
| ReportControl.RequestReport | BloodBankManager-1/src/main/java/bloodbank/controller/ReportController.java:70-97 | one row per request made in the inclusive range, latest first, with the copied columns |
| ReportControl.GetRequestReport | BloodBankManager-1/src/main/java/bloodbank/controller/ReportController.java:70-97 | returns RequestReport |
| ReportControl.ExpiredUnitsReport | BloodBankManager-1/src/main/java/bloodbank/controller/ReportController.java:150-175 | units with expiry in the range and status available or discarded, latest expiry first |
| ReportControl.GetExpiredUnitsReport | BloodBankManager-1/src/main/java/bloodbank/controller/ReportController.java:150-175 | returns ExpiredUnitsReport |
| ReportControl.FrequentDonors | BloodBankManager-1/src/main/java/bloodbank/controller/ReportController.java:182-211 | donors with at least one and at least minDonations units, most donations first |
| ReportControl.GetFrequentDonorsReport | BloodBankManager-1/src/main/java/bloodbank/controller/ReportController.java:182-211 | returns FrequentDonors |
| ReportControl.FrequentDonorsHaveDonated | BloodBankManager-1/src/main/java/bloodbank/controller/ReportController.java:184-189 | the inner join means every listed donor has a unit, even when minDonations <= 0 |
| ReportControl.ZeroComponentCounts | BloodBankManager-1/src/main/java/bloodbank/controller/ReportController.java:110-113 | the inner initialisation loop puts the four components at 0 and nothing else |
| ReportControl.ZeroInventoryStatus | BloodBankManager-1/src/main/java/bloodbank/controller/ReportController.java:108-115 | every group of the eight gets a map of the four components, all cells 0 |
| ReportControl.PutCell | BloodBankManager-1/src/main/java/bloodbank/controller/ReportController.java:129-133 | `componentMap.put` changes that one cell only and adds no key |
| ReportControl.GetInventoryStatusReport | BloodBankManager-1/src/main/java/bloodbank/controller/ReportController.java:103-142 | exactly 8 x 4 cells; each counts the available units of its group and component; rows of other groups or components are ignored |
| ReportControl.PutKindCounts | BloodBankManager-1/src/main/java/bloodbank/controller/ReportController.java:122-135 | each listed kind that has a cell gets its count; every other cell keeps 0 and the key set never grows |
| ReportControl.AbsentKindCountsZero | BloodBankManager-1/src/main/java/bloodbank/controller/ReportController.java:118-120 | a group and component with no available unit counts 0 |
| ReportControl.GroupCellsSum | BloodBankManager-1/src/main/java/bloodbank/controller/ReportController.java:118-120 | a group's four cells plus its units of other components equal its count in `getBloodInventoryStats` |
| ReportControl.GetSummaryReport | BloodBankManager-1/src/main/java/bloodbank/controller/ReportController.java:219-296 | exactly the five keys; each a `COUNT(*)` over the range; totals agree with the list reports; fulfilled + pending <= total; expired <= the expired-units report |
| ReportControl.SummaryRequestsBound | BloodBankManager-1/src/main/java/bloodbank/controller/ReportController.java:245-279 | fulfilled (fully or partly) and pending requests are disjoint parts of the requests in the range |
| ReportControl.SummaryExpiredBound | BloodBankManager-1/src/main/java/bloodbank/controller/ReportController.java:283-285 | every unit the summary counts as expired is listed by the expired-units report |
| ReportControl.ListedButNotExpired | BloodBankManager-1/src/main/java/bloodbank/controller/ReportController.java:150-154 | an available unit expiring today is listed as expired by the report yet not counted as expired by the summary |
| FormDates.NotInFutureInDays | BloodBankManager-1/src/main/java/bloodbank/view/DonorView.java:631-643 | a date field passes the future check exactly when it is blank, or parsed and not after today |
| FormDates.DatesInOrderInDays | BloodBankManager-1/src/main/java/bloodbank/view/InventoryView.java:897-944 | the two-date check passes exactly when the first is not in the future, the second parses, and when both are given the second is not before the first (same day allowed) |
| InventoryForm.ValidateUnitForm | BloodBankManager-1/src/main/java/bloodbank/view/InventoryView.java:854-947 | a valid form has a unit id, a donor id that parses and a donor confirmed with Find |
| InventoryForm.ValidateUnitFormInDays | BloodBankManager-1/src/main/java/bloodbank/view/InventoryView.java:854-947 | valid exactly when: unit id non-blank, donor id parses, donor confirmed, collection day not after today, expiry not before a given collection day |
| InventoryForm.ShelfLifeExpiry | BloodBankManager-1/src/main/java/bloodbank/view/InventoryView.java:621-644 | whole blood +35 days, red cells +42, platelets +5, plasma one calendar year (365 or 366 days), anything else +35; always later than collection |
| InventoryForm.CollectionDay | BloodBankManager-1/src/main/java/bloodbank/view/InventoryView.java:592-607 | the given collection date, or today when blank |
| InventoryForm.ExpiryDay | BloodBankManager-1/src/main/java/bloodbank/view/InventoryView.java:609-644 | an explicit expiry verbatim; when blank the shelf-life default, after the collection day |
| InventoryForm.FormUnitRow | BloodBankManager-1/src/main/java/bloodbank/view/InventoryView.java:578-644 | the unit built has the trimmed fields, the parsed donor id, both dates present, and a collection day not after today |
| InventoryForm.BuildUnit | BloodBankManager-1/src/main/java/bloodbank/view/InventoryView.java:578-644 | the object filled through the setters is FormUnitRow |
| InventoryForm.SaveBloodUnit | BloodBankManager-1/src/main/java/bloodbank/view/InventoryView.java:572-657 | nothing on an invalid form; otherwise add (only with a new id) or update, and on success the donor's last donation becomes the collection day even if earlier; a rejected donor write leaves the unit saved and the donor's date unchanged |
| InventoryForm.StoreUnit | BloodBankManager-1/src/main/java/bloodbank/view/InventoryView.java:646-657 | add or update, then on success write the donor's last donation date; that write's rejection does not undo the first write |
| InventoryForm.BlankCollectionAcceptsPastExpiry | BloodBankManager-1/src/main/java/bloodbank/view/InventoryView.java:918-931 | with no collection date an explicit past expiry is never compared and the unit is stored expiring before its collection day |
| InventoryForm.UnitIdFormatNotChecked | BloodBankManager-1/src/main/java/bloodbank/view/InventoryView.java:856-863 | the unit id format is not checked: "7" passes though it is not a valid unit id |
| DonorForm.ValidateDonorForm | BloodBankManager-1/src/main/java/bloodbank/view/DonorView.java:590-679 | a valid form has a name, a phone that passes the phone check, and an e-mail that passes when given |
| DonorForm.ValidateDonorFormInDays | BloodBankManager-1/src/main/java/bloodbank/view/DonorView.java:590-679 | valid exactly when name and phone are non-blank, the phone passes, a non-blank e-mail passes, and neither date is after today |
| DonorForm.StoredDate | BloodBankManager-1/src/main/java/bloodbank/view/DonorView.java:410-436 | a blank date field stores no date; a given one its day |
| DonorForm.FormDonorRow | BloodBankManager-1/src/main/java/bloodbank/view/DonorView.java:398-451 | trimmed fields, dates as given, registration today and id 0 for a new donor, no registration and the selected id otherwise |
| DonorForm.BuildDonor | BloodBankManager-1/src/main/java/bloodbank/view/DonorView.java:398-451 | the object filled through the setters is FormDonorRow |
| DonorForm.SaveDonor | BloodBankManager-1/src/main/java/bloodbank/view/DonorView.java:392-451 | saves exactly when the form is valid: adds a new donor when none is selected, updates the selected one otherwise |
| DonorForm.StoreDonor | BloodBankManager-1/src/main/java/bloodbank/view/DonorView.java:443-451 | add when no donor is selected, update otherwise |
| DonorForm.RegistrationOnlyWhenNew | BloodBankManager-1/src/main/java/bloodbank/view/DonorView.java:439-441 | a new donor is registered today; an update leaves every stored registration date unchanged |
| DonorForm.DatesNotRelated | BloodBankManager-1/src/main/java/bloodbank/view/DonorView.java:631-676 | nothing relates the two dates: a birth date after the last donation is accepted |
| RequestForm.ShownUnits | BloodBankManager-1/src/main/java/bloodbank/view/RequestView.java:524-546 | the listed units are sorted by expiry and are exactly the available units of the group, and of the component when one is given, each as often as stored |
| RequestForm.UncheckedRows | BloodBankManager-1/src/main/java/bloodbank/view/RequestView.java:549-561 | one row per unit in the same order, none checked |
| RequestForm.CheckedIds | BloodBankManager-1/src/main/java/bloodbank/view/RequestView.java:601-610 | as many ids as checked rows |
| RequestForm.CheckedIdsContents | BloodBankManager-1/src/main/java/bloodbank/view/RequestView.java:601-610 | an id is selected exactly when some checked row shows a unit with that id |
| RequestForm.NothingCheckedInFreshRows | BloodBankManager-1/src/main/java/bloodbank/view/RequestView.java:558 | a fresh listing selects nothing |
| RequestForm.KeepGroup | BloodBankManager-1/src/main/java/bloodbank/view/RequestView.java:536-542 | the filter loop keeps exactly the units of the group, in the order given |
| RequestForm.ListUnits | BloodBankManager-1/src/main/java/bloodbank/view/RequestView.java:549-561 | the table-filling loop produces UncheckedRows |
| RequestForm.FulfilEnabledOnLoad | BloodBankManager-1/src/main/java/bloodbank/view/RequestView.java:587-594 | loading a request enables Fulfil unless it is fulfilled or cancelled |
| RequestForm.FulfilEnabledOnSelection | BloodBankManager-1/src/main/java/bloodbank/view/RequestView.java:613 | applying a selection enables Fulfil exactly when a request is selected and something is checked |
| RequestForm.SelectionIgnoresStatus | BloodBankManager-1/src/main/java/bloodbank/view/RequestView.java:587-613 | a fulfilled request has Fulfil disabled on load, yet applying a non-empty selection enables it |
| RequestForm.StaffName | BloodBankManager-1/src/main/java/bloodbank/view/RequestView.java:795-798 | the trimmed field, or "Unknown Staff" when blank; never empty |
| RequestForm.ValidateRequestForm | BloodBankManager-1/src/main/java/bloodbank/view/RequestView.java:913-1005 | a valid form has patient name, hospital and a phone that passes the phone check |
| RequestForm.ValidateRequestFormInDays | BloodBankManager-1/src/main/java/bloodbank/view/RequestView.java:913-1005 | valid exactly when the three fields are non-blank, the phone passes, the request day is not after today and the required day is not before a given request day |
| RequestForm.RequestPanel.constructor | BloodBankManager-1/src/main/java/bloodbank/view/RequestView.java:60-62 | nothing selected, no rows, Fulfil off |
| RequestForm.RequestPanel.SetChecked | BloodBankManager-1/src/main/java/bloodbank/view/RequestView.java:216-219 | only the "Select" box of that row changes |
| RequestForm.RequestPanel.LoadAvailableInventory | BloodBankManager-1/src/main/java/bloodbank/view/RequestView.java:524-562 | the listing becomes unchecked rows of ShownUnits and the applied selection is cleared |
| RequestForm.RequestPanel.LoadRequestDetails | BloodBankManager-1/src/main/java/bloodbank/view/RequestView.java:568-596 | an unknown request changes nothing; otherwise Fulfil is set by FulfilEnabledOnLoad |
| RequestForm.RequestPanel.SelectRequest | BloodBankManager-1/src/main/java/bloodbank/view/RequestView.java:180-196 | a click selects the request, sets Fulfil from its status and lists the units of its group and component |
| RequestForm.RequestPanel.UpdateSelectedUnits | BloodBankManager-1/src/main/java/bloodbank/view/RequestView.java:601-620 | the selection becomes the checked ids in row order and Fulfil follows FulfilEnabledOnSelection |
| RequestForm.RequestPanel.ClearForm | BloodBankManager-1/src/main/java/bloodbank/view/RequestView.java:881-907 | no request selected, empty selection, Fulfil off, every box unchecked |
| RequestForm.RequestPanel.FulfillRequest | BloodBankManager-1/src/main/java/bloodbank/view/RequestView.java:754-819 | the controller is called exactly when a request is selected, units are applied, the request exists and the count suffices or partial is confirmed; then with StaffName; on success the listing is reloaded and the form cleared; otherwise the panel is unchanged |
| RequestForm.RequestPanel.Refresh | BloodBankManager-1/src/main/java/bloodbank/view/RequestView.java:810-812 | after success: the listing for the request's group and component, nothing selected, Fulfil off |
| RequestForm.PartialSelectionMarksPartial | BloodBankManager-1/src/main/java/bloodbank/view/RequestView.java:780-801 | a confirmed partial selection marks the request "partially fulfilled", with no check of the units' group or availability |
| ReportScreen.Tallied | BloodBankManager-1/src/main/java/bloodbank/view/ReportView.java:412-415 | tallying never removes a key |
| ReportScreen.TalliedCounts | BloodBankManager-1/src/main/java/bloodbank/view/ReportView.java:412-415 | each key ends at its start value plus the number of items with that key; a key is present exactly when it started present or some item has it |
| ReportScreen.Tally | BloodBankManager-1/src/main/java/bloodbank/view/ReportView.java:412-415 | the `put(k, getOrDefault(k, 0) + 1)` loop computes Tallied |
| ReportScreen.TallySumOver | BloodBankManager-1/src/main/java/bloodbank/view/ReportView.java:412-415 | over distinct keys, a tally adds exactly the number of items whose key is among them |
| ReportScreen.TallyCoversAll | BloodBankManager-1/src/main/java/bloodbank/view/ReportView.java:630-646 | a tally from an empty map has exactly the distinct keys of the list and sums to the list length |
| ReportScreen.ZeroGroups | BloodBankManager-1/src/main/java/bloodbank/view/ReportView.java:406-410 | the eight groups at 0 and no other key |
| ReportScreen.DonationCounts | BloodBankManager-1/src/main/java/bloodbank/view/ReportView.java:406-415 | every group present; each key counts the units of that group |
| ReportScreen.DonationCountsSum | BloodBankManager-1/src/main/java/bloodbank/view/ReportView.java:406-420 | the eight printed counts add up to the units of a standard group: all of them exactly when no unit has another group |
| ReportScreen.SumOverZeroStart | BloodBankManager-1/src/main/java/bloodbank/view/ReportView.java:406-415 | over distinct keys a tally started at 0 sums to the matching items, all of them exactly when every key is listed |
| ReportScreen.ZeroStartSum | BloodBankManager-1/src/main/java/bloodbank/view/ReportView.java:408-410 | a map of zeros sums to 0 |
| ReportScreen.RequestStatusCounts | BloodBankManager-1/src/main/java/bloodbank/view/ReportView.java:475-487 | each counter counts the requests with exactly its status; any other status is not counted |
| ReportScreen.StatusCountsSum | BloodBankManager-1/src/main/java/bloodbank/view/ReportView.java:475-487 | the four counters sum to at most the number of requests, exactly when every status is one of the four |
| ReportScreen.StatusListed | BloodBankManager-1/src/main/java/bloodbank/view/ReportView.java:481-486 | proof helper, not behaviour of the cited lines: matching one of the four cases is membership in the four statuses |
| ReportScreen.ReportGroups | BloodBankManager-1/src/main/java/bloodbank/view/ReportView.java:514-520 | "All" shows the eight groups in fixed order; anything else only itself |
| ReportScreen.RowOf | BloodBankManager-1/src/main/java/bloodbank/view/ReportView.java:524-530 | a row holds the four component counts, 0 when absent, and their sum as total |
| ReportScreen.StatusRows | BloodBankManager-1/src/main/java/bloodbank/view/ReportView.java:523-542 | one row per shown group with an entry, in order, built by RowOf |
| ReportScreen.StatusRowsOfPresentGroups | BloodBankManager-1/src/main/java/bloodbank/view/ReportView.java:523-542 | with every group present there is a row for each shown group, in order |
| ReportScreen.InventoryStatusRows | BloodBankManager-1/src/main/java/bloodbank/view/ReportView.java:523-542 | the table loop computes StatusRows |
| ReportScreen.SumOverComponents | BloodBankManager-1/src/main/java/bloodbank/view/ReportView.java:555-557 | summing a component map over the four components gives its row total |
| ReportScreen.ComponentTotal | BloodBankManager-1/src/main/java/bloodbank/view/ReportView.java:555-557 | the `values()` loop over a map of the four components gives the row total |
| ReportScreen.SumOverSnoc | BloodBankManager-1/src/main/java/bloodbank/view/ReportView.java:555-557 | a sum over one more key adds that key's entry |
| ReportScreen.TotalAvailableUnits | BloodBankManager-1/src/main/java/bloodbank/view/ReportView.java:551-559 | totalUnits is the sum of the totals of the rows shown |
| ReportScreen.RowTotalCountsGroup | BloodBankManager-1/src/main/java/bloodbank/view/ReportView.java:526-530 | a row total whose cells count units is the number of available units of the group with a standard component |
| ReportScreen.ReportRowTotal | BloodBankManager-1/src/main/java/bloodbank/view/ReportView.java:526-530 | in the controller's report each row total counts the group's available units of the four components |
| ReportScreen.RowTotalsCountUnits | BloodBankManager-1/src/main/java/bloodbank/view/ReportView.java:551-559 | over distinct present groups the row totals add up to the available units of those groups with a standard component |
| ReportScreen.BloodGroupsDistinct | BloodBankManager-1/src/main/java/bloodbank/view/ReportView.java:517 | proof helper, not behaviour of the cited lines: the eight groups are pairwise different |
| ReportScreen.ShownRowsCount | BloodBankManager-1/src/main/java/bloodbank/view/ReportView.java:514-559 | "All" gives 8 rows in order, a standard group 1 row, anything else none; each total and the overall total count available standard units |
| ReportScreen.GenerateInventoryStatusReport | BloodBankManager-1/src/main/java/bloodbank/view/ReportView.java:501-559 | the rows and totalUnits shown: ShownRowsCount applied to the controller's report for the current day, with each column the count of its group and component |
| ReportScreen.RowColumnsCount | BloodBankManager-1/src/main/java/bloodbank/view/ReportView.java:524-529 | in the controller's report each column of a row counts the available units of that group and component |
| ReportScreen.GroupColumnsCount | BloodBankManager-1/src/main/java/bloodbank/view/ReportView.java:524-529 | the four columns of one group's row are the counts of its four components |
| ReportScreen.GroupCellsCount | BloodBankManager-1/src/main/java/bloodbank/view/ReportView.java:524-529 | each cell of one group's map is the count of its component |
| ReportScreen.SummaryAvailableUnits | BloodBankManager-1/src/main/java/bloodbank/view/ReportView.java:760-765 | totalAvailableUnits counts the available units of a standard group and component, at most all available units |
| ReportScreen.StandardAtMostAvailable | BloodBankManager-1/src/main/java/bloodbank/view/ReportView.java:760-765 | units of a standard group and component are part of the available units |
| ReportScreen.ExpiredUnitsCounts | BloodBankManager-1/src/main/java/bloodbank/view/ReportView.java:630-646 | per-group and per-component tallies whose entries count their units and each sum to the number of units |
| ReportScreen.FrequentDonorCounts | BloodBankManager-1/src/main/java/bloodbank/view/ReportView.java:697-713 | per-group and per-gender tallies whose entries count their donors and each sum to the number of donors |

## Left out

- User accounts and login (`UserController`, `LoginView`), the dashboard (`DashboardView`), `UIUtil` and the application's entry point are not part of this model.
- `DatabaseController` is not part of this model. The connection, prepared statements and result sets are replaced by the tables of `Tables.Database`, and a failed statement is modelled only where a later write depends on it or a failure leaves earlier writes stored: in `fulfillRequest`, in the two writes of `saveBloodUnit`, and for an insert with a duplicate unit id. Any other single write is taken to succeed.
- Swing rendering, dialogs, focus changes and message texts are not modelled. A dialog that confirms a partial fulfilment is a boolean parameter.
- `SimpleDateFormat` parsing is not modelled. A date field is taken as already classified as blank, unparsable or a day.
- `JavaText.ParseInt` reads only the ASCII digits 0-9. Java's `Integer.parseInt` also accepts the other Unicode decimal digits (Arabic-Indic or fullwidth digits, say), so the model rejects donor ids typed with them that the unit form would accept. The list of those digits depends on the Unicode version of the Java runtime.
- SQL comparisons, `GROUP BY` and primary keys are modelled as exact string equality. The database's collation may compare text without regard to case or accents: a status "Available" would then be counted as available, and a unit id differing from a stored one only in case would be refused as a duplicate.
- `Calendar` uses the proleptic Gregorian calendar. `java.util.GregorianCalendar` follows Julian rules before 15 October 1582, so adding a year to a plasma unit collected before then may differ by a day.
- Time zones and daylight saving are not modelled. Days are whole multiples of 86 400 000 ms from the epoch.
- `ValidationUtil.isValidEmail` and `isValidPhone` use regular expressions whose full syntax is not modelled. The forms take them as function parameters. The unit-id pattern and `isAlphabetic` and `isNumeric` are modelled exactly.
- The `LIKE` searches (`searchDonors`, `searchBloodUnits`, `searchRequests`) and the full-table reads (`getAllDonors`, `getAllBloodUnits`, `getAllRequests`, `getBloodUnitById`) are not modelled. They are reads with no property beyond the query model in `Query`.
- Rows that tie on the sort key keep their table order. SQL leaves their order unspecified.
- Java `null` strings are not modelled. Text columns are always strings, and only the date columns and the last donation date may be absent.
- Counters and sums are unbounded integers. A 32-bit overflow would need more than two billion rows.
- The summary screen's fulfilment and usage rates are floating point and are not modelled.
- `RequestView` saving, deleting and loading the request list, and every field other than those named in the table, are not modelled. `DonorView` and `InventoryView` delete, search and table loading are not modelled either.
- Printing and exporting reports are not modelled.
- The report screen's ranges of report dates are day numbers supplied by the caller.
- Concurrent use of the database by several clients is not modelled.
