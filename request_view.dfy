/**
  The request screen of `RequestView`: the list of units offered for a
  request, the check-box selection, the guards around fulfilment, and the
  request form's validation.
*/
module RequestForm {
  import opened Wrappers
  import opened Calendar
  import opened Tables
  import opened Query
  import opened JavaText
  import opened FormDates
  import Validation
  import InventoryControl
  import RequestControl

  // ---------------------------------------------------------------------
  // The units offered for a request
  // ---------------------------------------------------------------------

  function InGroup(group: string): UnitRecord -> bool {
    (u: UnitRecord) => u.bloodGroup == group
  }

  /**
    The units `loadAvailableInventory` lists: with a component, the
    controller's available units of that component of which only those of
    the request's group are kept; without one, the available units of the
    group.  Either way they are usable units of the group, soonest expiry
    first.
  */
  function ShownUnits(units: seq<UnitRecord>, today: int, group: string, component: string): (r: seq<UnitRecord>)
    ensures SortedBy(r, InventoryControl.ExpiryKey, Asc)
    ensures forall u :: u in r <==>
              && u in units
              && InventoryControl.IsAvailable(u, today)
              && u.bloodGroup == group
              && (component != "" ==> u.component == component)
    ensures forall u :: multiset(r)[u] ==
              if && InventoryControl.IsAvailable(u, today)
                 && u.bloodGroup == group
                 && (component != "" ==> u.component == component)
              then multiset(units)[u] else 0
  {
    if component != "" then
      var byComponent := InventoryControl.AvailableUnitsOfComponent(units, today, component);
      WhereSorted(byComponent, InGroup(group), InventoryControl.ExpiryKey, Asc);
      WhereContents(byComponent, InGroup(group));
      Where(byComponent, InGroup(group))
    else
      InventoryControl.AvailableUnitsOfGroup(units, today, group)
  }

  /** A row of the inventory table: the unit shown and its "Select" check box. */
  datatype InventoryRow = InventoryRow(unit: UnitRecord, selected: bool)

  /** The rows a fresh listing shows: one per unit, in the same order, none checked. */
  function UncheckedRows(units: seq<UnitRecord>): (rows: seq<InventoryRow>)
    ensures |rows| == |units|
    ensures forall i :: 0 <= i < |rows| ==> rows[i].unit == units[i] && !rows[i].selected
  {
    if units == [] then []
    else UncheckedRows(units[..|units| - 1]) + [InventoryRow(units[|units| - 1], false)]
  }

  function IsChecked(row: InventoryRow): bool {
    row.selected
  }

  /** The unit ids of the checked rows, in row order. */
  function CheckedIds(rows: seq<InventoryRow>): (ids: seq<string>)
    ensures |ids| == Count(rows, IsChecked)
  {
    if rows == [] then []
    else
      var last := rows[|rows| - 1];
      CheckedIds(rows[..|rows| - 1]) + (if last.selected then [last.unit.unitId] else [])
  }

  /** An id is selected exactly when some checked row shows a unit with that id. */
  lemma {:induction false} CheckedIdsContents(rows: seq<InventoryRow>)
    ensures forall id :: id in CheckedIds(rows) <==>
              exists i :: 0 <= i < |rows| && rows[i].selected && rows[i].unit.unitId == id
    decreases |rows|
  {
    if rows != [] {
      var init := rows[..|rows| - 1];
      CheckedIdsContents(init);
      forall id
        ensures id in CheckedIds(rows) <==>
                exists i :: 0 <= i < |rows| && rows[i].selected && rows[i].unit.unitId == id
      {
        if exists i :: 0 <= i < |rows| && rows[i].selected && rows[i].unit.unitId == id {
          var i :| 0 <= i < |rows| && rows[i].selected && rows[i].unit.unitId == id;
          if i < |init| {
            assert init[i] == rows[i];
          }
        }
        if id in CheckedIds(init) {
          var i :| 0 <= i < |init| && init[i].selected && init[i].unit.unitId == id;
          assert rows[i] == init[i];
        }
      }
    }
  }

  /** A listing that checks no row selects nothing. */
  lemma NothingCheckedInFreshRows(units: seq<UnitRecord>)
    ensures CheckedIds(UncheckedRows(units)) == []
  {
    CountNone(UncheckedRows(units), IsChecked);
  }

  /** The filter loop of `loadAvailableInventory`: the units of the group, in the order given. */
  method KeepGroup(units: seq<UnitRecord>, group: string) returns (kept: seq<UnitRecord>)
    ensures kept == Where(units, InGroup(group))
  {
    kept := [];
    var i := 0;
    while i < |units|
      invariant 0 <= i <= |units|
      invariant kept == Where(units[..i], InGroup(group))
    {
      WhereSnoc(units, i, InGroup(group));
      if units[i].bloodGroup == group {
        kept := kept + [units[i]];
      }
      i := i + 1;
    }
    assert units[..i] == units;
  }

  /** The loop that fills the inventory table, one unchecked row per unit. */
  method ListUnits(units: seq<UnitRecord>) returns (rows: seq<InventoryRow>)
    ensures rows == UncheckedRows(units)
  {
    rows := [];
    var j := 0;
    while j < |units|
      invariant 0 <= j <= |units|
      invariant rows == UncheckedRows(units[..j])
    {
      assert units[..j + 1][..j] == units[..j];
      rows := rows + [InventoryRow(units[j], false)];
      j := j + 1;
    }
    assert units[..j] == units;
  }

  // ---------------------------------------------------------------------
  // Fulfilment guards
  // ---------------------------------------------------------------------

  /** Loading a request enables Fulfil unless the request is already fulfilled or cancelled. */
  function FulfilEnabledOnLoad(status: string): (enabled: bool)
    ensures enabled <==> status != "fulfilled" && status != "cancelled"
    ensures Validation.IsValidRequestStatus(status) ==>
              (enabled <==> status == "pending" || status == "partially fulfilled")
  {
    !(status == "fulfilled" || status == "cancelled")
  }

  /** Applying a selection enables Fulfil when a request is selected and something is checked. */
  function FulfilEnabledOnSelection(selectedRequestId: int, selection: seq<string>): (enabled: bool)
    ensures enabled <==> selectedRequestId > 0 && |selection| > 0
  {
    selectedRequestId > 0 && selection != []
  }

  /**
    Whatever a request's status disabled on loading, applying a non-empty
    selection enables Fulfil again: a fulfilled or cancelled request can be
    fulfilled once more.
  */
  lemma SelectionIgnoresStatus(request: RequestRecord, rows: seq<InventoryRow>, i: int)
    requires request.requestId > 0 && request.status == "fulfilled"
    requires 0 <= i < |rows| && rows[i].selected
    ensures !FulfilEnabledOnLoad(request.status)
    ensures FulfilEnabledOnSelection(request.requestId, CheckedIds(rows))
  {
    CheckedIdsContents(rows);
    assert rows[i].unit.unitId in CheckedIds(rows);
  }

  /** The staff name passed to the controller: the trimmed field, or "Unknown Staff" when that is empty. */
  function StaffName(processedByText: string): (name: string)
    ensures Trim(processedByText) != [] ==> name == Trim(processedByText)
    ensures Trim(processedByText) == [] ==> name == "Unknown Staff"
    ensures name != []
  {
    var typed := Trim(processedByText);
    if typed == [] then "Unknown Staff" else typed
  }

  /**
    The fields `validateForm` reads: patient, hospital and phone as typed,
    and the two dates.
  */
  datatype RequestFields = RequestFields(
    patientName: string,
    hospitalName: string,
    contactPhone: string,
    requestDate: DateField,
    requiredDate: DateField)

  /**
    `validateForm`, check by check in the order of the source.  The phone
    pattern is `ValidationUtil.isValidPhone`, taken as a parameter.
  */
  function ValidateRequestForm(f: RequestFields, isValidPhone: string -> bool, nowMs: int): (ok: bool)
    ensures ok ==> Trim(f.patientName) != [] && Trim(f.hospitalName) != [] && Trim(f.contactPhone) != []
    ensures ok ==> isValidPhone(Trim(f.contactPhone))
  {
    if Trim(f.patientName) == [] then false
    else if Trim(f.hospitalName) == [] then false
    else if Trim(f.contactPhone) == [] then false
    else if !isValidPhone(Trim(f.contactPhone)) then false
    else DatesInOrder(f.requestDate, f.requiredDate, nowMs)
  }

  /**
    `validateForm` in days: the request date may be today or earlier, the
    required date may be in the future but not before the request date (the
    same day is allowed), and it is compared only when a request date is given.
  */
  lemma ValidateRequestFormInDays(f: RequestFields, isValidPhone: string -> bool, nowMs: int)
    ensures ValidateRequestForm(f, isValidPhone, nowMs) <==>
              && Trim(f.patientName) != []
              && Trim(f.hospitalName) != []
              && Trim(f.contactPhone) != []
              && isValidPhone(Trim(f.contactPhone))
              && !f.requestDate.Unparsable?
              && (f.requestDate.Given? ==> f.requestDate.day <= DayOf(nowMs))
              && !f.requiredDate.Unparsable?
              && (f.requestDate.Given? && f.requiredDate.Given? ==> f.requiredDate.day >= f.requestDate.day)
  {
    DatesInOrderInDays(f.requestDate, f.requiredDate, nowMs);
  }

  // ---------------------------------------------------------------------
  // The panel
  // ---------------------------------------------------------------------

  /** The state of the request screen that the fulfilment path reads and writes. */
  class RequestPanel {
    /** The request picked in the request table; 0 when none. */
    var selectedRequestId: int
    /** The inventory table. */
    var rows: seq<InventoryRow>
    /** `selectedInventoryUnitIds`: the selection last applied. */
    var selection: seq<string>
    /** Whether the "Fulfill Request" button is enabled. */
    var fulfillEnabled: bool

    constructor ()
      ensures selectedRequestId == 0 && rows == [] && selection == [] && !fulfillEnabled
    {
      selectedRequestId := 0;
      rows := [];
      selection := [];
      fulfillEnabled := false;
    }

    /** Ticking or clearing the "Select" box of a row, the only editable cell of the inventory table. */
    method SetChecked(i: int, checked: bool)
      requires 0 <= i < |rows|
      modifies this`rows
      ensures rows == old(rows)[i := old(rows)[i].(selected := checked)]
    {
      rows := rows[i := rows[i].(selected := checked)];
    }

    /** `loadAvailableInventory`: the listing is replaced and the applied selection is dropped. */
    method LoadAvailableInventory(db: Database, nowMs: int, group: string, component: string)
      modifies this`rows, this`selection
      ensures selection == []
      ensures rows == UncheckedRows(ShownUnits(db.units, DayOf(nowMs), group, component))
    {
      selection := [];
      var units: seq<UnitRecord>;
      if component != "" {
        var byComponent := InventoryControl.GetAvailableBloodUnitsByComponent(db, nowMs, component);
        units := KeepGroup(byComponent, group);
      } else {
        units := InventoryControl.GetAvailableBloodUnitsByBloodGroup(db, nowMs, group);
      }
      rows := ListUnits(units);
    }

    /** The Fulfil part of `loadRequestDetails`; an unknown request changes nothing. */
    method LoadRequestDetails(db: Database, requestId: int)
      modifies this`fulfillEnabled
      ensures RequestControl.FindRequest(db.requests, requestId).None? ==> fulfillEnabled == old(fulfillEnabled)
      ensures RequestControl.FindRequest(db.requests, requestId).Some? ==>
                fulfillEnabled == FulfilEnabledOnLoad(RequestControl.FindRequest(db.requests, requestId).value.status)
    {
      var request := RequestControl.FindRequest(db.requests, requestId);
      if request.Some? {
        fulfillEnabled := true;
        if request.value.status == "fulfilled" || request.value.status == "cancelled" {
          fulfillEnabled := false;
        }
      }
    }

    /**
      A click on a row of the request table: that request becomes the
      selected one, its details are loaded, and the units of its group and
      component are listed.
    */
    method SelectRequest(db: Database, nowMs: int, clicked: RequestRecord)
      modifies this
      ensures selectedRequestId == clicked.requestId
      ensures RequestControl.FindRequest(db.requests, clicked.requestId).None? ==> fulfillEnabled == old(fulfillEnabled)
      ensures RequestControl.FindRequest(db.requests, clicked.requestId).Some? ==>
                fulfillEnabled == FulfilEnabledOnLoad(RequestControl.FindRequest(db.requests, clicked.requestId).value.status)
      ensures selection == []
      ensures rows == UncheckedRows(ShownUnits(db.units, DayOf(nowMs), clicked.bloodGroup, clicked.component))
    {
      selectedRequestId := clicked.requestId;
      LoadRequestDetails(db, selectedRequestId);
      LoadAvailableInventory(db, nowMs, clicked.bloodGroup, clicked.component);
    }

    /**
      `updateSelectedUnits` ("Apply Selection"): the selection becomes the
      ids of the checked rows in row order, and Fulfil is enabled from the
      selection alone.
    */
    method UpdateSelectedUnits()
      modifies this`selection, this`fulfillEnabled
      ensures selection == CheckedIds(rows)
      ensures fulfillEnabled == FulfilEnabledOnSelection(selectedRequestId, selection)
    {
      selection := [];
      var i := 0;
      while i < |rows|
        invariant 0 <= i <= |rows|
        invariant selection == CheckedIds(rows[..i])
      {
        assert rows[..i + 1][..i] == rows[..i];
        if rows[i].selected {
          selection := selection + [rows[i].unit.unitId];
        }
        i := i + 1;
      }
      assert rows[..i] == rows;
      fulfillEnabled := selectedRequestId > 0 && selection != [];
    }

    /** `clearForm`, as far as the fulfilment state goes: nothing selected, Fulfil off, every box cleared. */
    method ClearForm()
      modifies this
      ensures selectedRequestId == 0 && selection == [] && !fulfillEnabled
      ensures |rows| == |old(rows)|
      ensures forall i :: 0 <= i < |rows| ==> rows[i] == old(rows)[i].(selected := false)
    {
      selectedRequestId := 0;
      selection := [];
      fulfillEnabled := false;
      var i := 0;
      while i < |rows|
        invariant 0 <= i <= |rows| == |old(rows)|
        invariant selectedRequestId == 0 && selection == [] && !fulfillEnabled
        invariant forall k :: 0 <= k < i ==> rows[k] == old(rows)[k].(selected := false)
        invariant forall k :: i <= k < |rows| ==> rows[k] == old(rows)[k]
      {
        rows := rows[i := rows[i].(selected := false)];
        i := i + 1;
      }
    }

    /**
      `fulfillRequest`.  No controller call is made without a selected
      request, without an applied selection, when the request is not found,
      or when fewer units than asked are selected and the user declines to
      go on (`confirmPartial`).  Otherwise the controller runs with the
      staff name, and on success the listing is reloaded for the request's
      group and component and the form is cleared; on failure the panel
      stays as it was.
    */
    method FulfillRequest(db: Database, nowMs: int, processedByText: string, confirmPartial: bool, rejects: set<nat>)
      returns (called: bool, success: bool)
      requires db.Valid()
      modifies this, db`requests, db`units
      ensures db.Valid()
      ensures old(selectedRequestId) == 0 || old(selection) == [] ==> !called
      ensures called <==>
                && old(selectedRequestId) != 0
                && old(selection) != []
                && RequestControl.FindRequest(old(db.requests), old(selectedRequestId)).Some?
                && (|old(selection)| >= RequestControl.FindRequest(old(db.requests), old(selectedRequestId)).value.quantity
                    || confirmPartial)
      ensures !called ==>
                && !success
                && db.requests == old(db.requests) && db.units == old(db.units)
                && selectedRequestId == old(selectedRequestId) && selection == old(selection)
                && rows == old(rows) && fulfillEnabled == old(fulfillEnabled)
      ensures called ==>
                RequestControl.Outcome(success, db.requests, db.units) ==
                RequestControl.FulfilOutcome(old(db.requests), old(db.units), old(selectedRequestId), old(selection),
                                             StaffName(processedByText), rejects)
      ensures called && success ==>
                var request := RequestControl.FindRequest(old(db.requests), old(selectedRequestId)).value;
                && selectedRequestId == 0 && selection == [] && !fulfillEnabled
                && rows == UncheckedRows(ShownUnits(db.units, DayOf(nowMs), request.bloodGroup, request.component))
      ensures called && !success ==>
                && selectedRequestId == old(selectedRequestId) && selection == old(selection)
                && rows == old(rows) && fulfillEnabled == old(fulfillEnabled)
    {
      called, success := false, false;
      if selectedRequestId == 0 {
        return;
      }
      if selection == [] {
        return;
      }
      var request := RequestControl.FindRequest(db.requests, selectedRequestId);
      if request.None? {
        return;
      }
      if |selection| < request.value.quantity && !confirmPartial {
        return;
      }
      var processedBy := StaffName(processedByText);
      called := true;
      success := RequestControl.FulfillRequest(db, selectedRequestId, selection, processedBy, rejects);
      if success {
        Refresh(db, nowMs, request.value.bloodGroup, request.value.component);
      }
    }

    /** After a successful fulfilment: the listing is reloaded for the request's group and component, then the form is cleared. */
    method Refresh(db: Database, nowMs: int, group: string, component: string)
      modifies this
      ensures selectedRequestId == 0 && selection == [] && !fulfillEnabled
      ensures rows == UncheckedRows(ShownUnits(db.units, DayOf(nowMs), group, component))
    {
      LoadAvailableInventory(db, nowMs, group, component);
      ghost var listed := rows;
      ClearForm();
      assert rows == listed;
    }
  }

  /**
    With too few units selected and the partial fulfilment confirmed, the
    request is marked "partially fulfilled" although nothing checks the
    selected units are of its group or still available.
  */
  lemma PartialSelectionMarksPartial(requests: seq<RequestRecord>, units: seq<UnitRecord>, requestId: int,
                                     selection: seq<string>, processedBy: string)
    requires UniqueKeys(requests, RequestKey)
    requires RequestControl.FindRequest(requests, requestId).Some?
    requires 0 < |selection| < RequestControl.FindRequest(requests, requestId).value.quantity
    ensures var o := RequestControl.FulfilOutcome(requests, units, requestId, selection, processedBy, {});
            && o.success
            && RequestControl.FindRequest(o.requests, requestId).Some?
            && RequestControl.FindRequest(o.requests, requestId).value.status == "partially fulfilled"
  {
    var request := RequestControl.FindRequest(requests, requestId).value;
    var o := RequestControl.FulfilOutcome(requests, units, requestId, selection, processedBy, {});
    RequestControl.WritesBeforeRejectionUnique(|selection|, {}, |selection|);
    RequestControl.FindAfterStatus(requests, requestId, "partially fulfilled", processedBy);
  }
}
