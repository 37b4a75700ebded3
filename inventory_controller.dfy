/**
  `InventoryController`: the queries over `blood_inventory` that decide
  which units can be handed out, the writes of unit rows, and the
  per-group stock counts.  `today` is the value of `CURDATE()`.
*/
module InventoryControl {
  import opened Wrappers
  import opened Calendar
  import opened Tables
  import opened Query
  import Validation
  import Model

  /**
    `status = 'available' AND is_test_passed = TRUE AND expiry_date > CURDATE()`.
    A NULL expiry date never compares greater, so such a unit is never available.
  */
  predicate IsAvailable(u: UnitRecord, today: int) {
    u.status == "available" && u.isTestPassed && u.expiryDate.Some? && u.expiryDate.value > today
  }

  function AvailableAt(today: int): UnitRecord -> bool {
    u => IsAvailable(u, today)
  }

  function AvailableOfGroupAt(today: int, group: string): UnitRecord -> bool {
    u => IsAvailable(u, today) && u.bloodGroup == group
  }

  function AvailableOfComponentAt(today: int, component: string): UnitRecord -> bool {
    u => IsAvailable(u, today) && u.component == component
  }

  /** `status = 'available' AND expiry_date BETWEEN CURDATE() AND CURDATE() + 7`; the test result is not consulted. */
  predicate IsNearlyExpired(u: UnitRecord, today: int) {
    u.status == "available" && u.expiryDate.Some? && today <= u.expiryDate.value <= today + 7
  }

  function NearlyExpiredAt(today: int): UnitRecord -> bool {
    u => IsNearlyExpired(u, today)
  }

  function ExpiryKey(u: UnitRecord): Option<int> {
    u.expiryDate
  }

  function GroupOf(u: UnitRecord): string {
    u.bloodGroup
  }

  // ---------------------------------------------------------------------
  // Queries
  // ---------------------------------------------------------------------

  /** The result of `getAvailableBloodUnits`: every usable unit, soonest expiry first. */
  function AvailableUnits(units: seq<UnitRecord>, today: int): (r: seq<UnitRecord>)
    ensures SortedBy(r, ExpiryKey, Asc)
    ensures forall u :: u in r <==> u in units && IsAvailable(u, today)
    ensures forall u :: multiset(r)[u] == if IsAvailable(u, today) then multiset(units)[u] else 0
  {
    SelectContents(units, AvailableAt(today), ExpiryKey, Asc);
    OrderBy(Where(units, AvailableAt(today)), ExpiryKey, Asc)
  }

  /** The result of `getAvailableBloodUnitsByBloodGroup`. */
  function AvailableUnitsOfGroup(units: seq<UnitRecord>, today: int, group: string): (r: seq<UnitRecord>)
    ensures SortedBy(r, ExpiryKey, Asc)
    ensures forall u :: u in r <==> u in units && IsAvailable(u, today) && u.bloodGroup == group
    ensures |r| == Count(units, AvailableOfGroupAt(today, group))
    ensures forall u :: multiset(r)[u] ==
              if IsAvailable(u, today) && u.bloodGroup == group then multiset(units)[u] else 0
  {
    SelectContents(units, AvailableOfGroupAt(today, group), ExpiryKey, Asc);
    OrderBy(Where(units, AvailableOfGroupAt(today, group)), ExpiryKey, Asc)
  }

  /** The result of `getAvailableBloodUnitsByComponent`. */
  function AvailableUnitsOfComponent(units: seq<UnitRecord>, today: int, component: string): (r: seq<UnitRecord>)
    ensures SortedBy(r, ExpiryKey, Asc)
    ensures forall u :: u in r <==> u in units && IsAvailable(u, today) && u.component == component
    ensures forall u :: multiset(r)[u] ==
              if IsAvailable(u, today) && u.component == component then multiset(units)[u] else 0
  {
    SelectContents(units, AvailableOfComponentAt(today, component), ExpiryKey, Asc);
    OrderBy(Where(units, AvailableOfComponentAt(today, component)), ExpiryKey, Asc)
  }

  /** The result of `getNearlyExpiredUnits`: available units expiring within a week, soonest first. */
  function NearlyExpiredUnits(units: seq<UnitRecord>, today: int): (r: seq<UnitRecord>)
    ensures SortedBy(r, ExpiryKey, Asc)
    ensures forall u :: u in r <==> u in units && IsNearlyExpired(u, today)
    ensures forall u :: multiset(r)[u] == if IsNearlyExpired(u, today) then multiset(units)[u] else 0
  {
    SelectContents(units, NearlyExpiredAt(today), ExpiryKey, Asc);
    OrderBy(Where(units, NearlyExpiredAt(today)), ExpiryKey, Asc)
  }

  /** A unit that failed its test, or that expires today, can still be listed as nearly expired. */
  lemma NearlyExpiredIgnoresTest(u: UnitRecord, today: int)
    requires u.status == "available" && !u.isTestPassed && u.expiryDate == Some(today)
    ensures u in NearlyExpiredUnits([u], today)
    ensures u !in AvailableUnits([u], today)
  {
  }

  method GetAvailableBloodUnits(db: Database, nowMs: int) returns (unitList: seq<UnitRecord>)
    ensures unitList == AvailableUnits(db.units, DayOf(nowMs))
  {
    unitList := Select(db.units, AvailableAt(DayOf(nowMs)), ExpiryKey, Asc);
  }

  method GetAvailableBloodUnitsByBloodGroup(db: Database, nowMs: int, bloodGroup: string)
    returns (unitList: seq<UnitRecord>)
    ensures unitList == AvailableUnitsOfGroup(db.units, DayOf(nowMs), bloodGroup)
  {
    unitList := Select(db.units, AvailableOfGroupAt(DayOf(nowMs), bloodGroup), ExpiryKey, Asc);
  }

  method GetAvailableBloodUnitsByComponent(db: Database, nowMs: int, component: string)
    returns (unitList: seq<UnitRecord>)
    ensures unitList == AvailableUnitsOfComponent(db.units, DayOf(nowMs), component)
  {
    unitList := Select(db.units, AvailableOfComponentAt(DayOf(nowMs), component), ExpiryKey, Asc);
  }

  method GetNearlyExpiredUnits(db: Database, nowMs: int) returns (unitList: seq<UnitRecord>)
    ensures unitList == NearlyExpiredUnits(db.units, DayOf(nowMs))
  {
    unitList := Select(db.units, NearlyExpiredAt(DayOf(nowMs)), ExpiryKey, Asc);
  }

  // ---------------------------------------------------------------------
  // Writes
  // ---------------------------------------------------------------------

  /** `updateBloodUnitStatus`: whatever the old and new status, only that unit's status column changes. */
  function UnitsAfterStatus(units: seq<UnitRecord>, unitId: string, status: string): (r: seq<UnitRecord>)
    ensures |r| == |units|
    ensures forall i :: 0 <= i < |r| ==> r[i].status == (if units[i].unitId == unitId then status else units[i].status)
    ensures forall i :: 0 <= i < |r| ==> r[i].(status := units[i].status) == units[i]
  {
    UpdateWhere(units, (u: UnitRecord) => u.unitId == unitId, (u: UnitRecord) => u.(status := status))
  }

  /** `updateBloodUnit`: the row with the object's unit id takes every other column from the object. */
  function UnitsAfterUpdate(units: seq<UnitRecord>, unit: UnitRecord): (r: seq<UnitRecord>)
    ensures |r| == |units|
    ensures forall i :: 0 <= i < |r| ==> r[i] == (if units[i].unitId == unit.unitId then unit else units[i])
  {
    UpdateWhere(units, (u: UnitRecord) => u.unitId == unit.unitId, (u: UnitRecord) => unit)
  }

  /** `deleteBloodUnit`. */
  function UnitsAfterDelete(units: seq<UnitRecord>, unitId: string): (r: seq<UnitRecord>)
    ensures forall u :: u in r <==> u in units && u.unitId != unitId
  {
    DeleteWhere(units, (u: UnitRecord) => u.unitId == unitId)
  }

  /**
    `addBloodUnit`: the insert fails (an SQLException, so `false`) when the
    unit id is already a key; otherwise the row is appended.
  */
  method AddBloodUnit(db: Database, unit: Model.BloodUnit) returns (success: bool)
    requires db.Valid()
    modifies db`units
    ensures db.Valid()
    ensures success <==> forall u :: u in old(db.units) ==> u.unitId != unit.unitId
    ensures success ==> db.units == old(db.units) + [unit.Row()]
    ensures !success ==> db.units == old(db.units)
  {
    var row := unit.Row();
    var existing := FindFirst(db.units, (u: UnitRecord) => u.unitId == row.unitId);
    if existing.Some? {
      return false;
    }
    AppendKeepsUniqueKeys(db.units, UnitKey, row);
    db.units := db.units + [row];
    return true;
  }

  method UpdateBloodUnit(db: Database, unit: Model.BloodUnit) returns (success: bool)
    requires db.Valid()
    modifies db`units
    ensures db.Valid() && success
    ensures db.units == UnitsAfterUpdate(old(db.units), unit.Row())
  {
    var after := UnitsAfterUpdate(db.units, unit.Row());
    SameKeys(db.units, after, UnitKey);
    db.units := after;
    success := true;
  }

  method DeleteBloodUnit(db: Database, unitId: string) returns (success: bool)
    requires db.Valid()
    modifies db`units
    ensures db.Valid() && success
    ensures db.units == UnitsAfterDelete(old(db.units), unitId)
  {
    DeleteWhereKeys(db.units, UnitKey, (u: UnitRecord) => u.unitId == unitId);
    db.units := UnitsAfterDelete(db.units, unitId);
    success := true;
  }

  /** Reports success even when no row has this unit id, as `executeUpdate` does. */
  method UpdateBloodUnitStatus(db: Database, unitId: string, status: string) returns (success: bool)
    requires db.Valid()
    modifies db`units
    ensures db.Valid() && success
    ensures db.units == UnitsAfterStatus(old(db.units), unitId, status)
  {
    var after := UnitsAfterStatus(db.units, unitId, status);
    SameKeys(db.units, after, UnitKey);
    db.units := after;
    success := true;
  }

  /** A status update naming no stored unit changes nothing, yet reports success. */
  lemma StatusOfUnknownUnit(units: seq<UnitRecord>, unitId: string, status: string)
    requires forall u :: u in units ==> u.unitId != unitId
    ensures UnitsAfterStatus(units, unitId, status) == units
  {
  }

  // ---------------------------------------------------------------------
  // Stock per blood group
  // ---------------------------------------------------------------------

  /**
    `getBloodInventoryStats`: the eight groups start at 0, then every group
    that has available units (the rows of `GROUP BY blood_group`) is put with
    its count, unconditionally, so a group outside the eight becomes a key too.
  */
  method GetBloodInventoryStats(db: Database, nowMs: int) returns (stats: map<string, int>)
    ensures forall g :: g in stats <==> g in Validation.BloodGroups || exists u :: u in db.units && IsAvailable(u, DayOf(nowMs)) && u.bloodGroup == g
    ensures forall g :: g in stats ==> stats[g] == Count(db.units, AvailableOfGroupAt(DayOf(nowMs), g))
  {
    var today := DayOf(nowMs);
    stats := map[];
    var k := 0;
    while k < |Validation.BloodGroups|
      invariant 0 <= k <= |Validation.BloodGroups|
      invariant forall g :: g in stats <==> g in Validation.BloodGroups[..k]
      invariant forall g :: g in stats ==> stats[g] == 0
    {
      stats := stats[Validation.BloodGroups[k] := 0];
      k := k + 1;
    }
    assert Validation.BloodGroups[..k] == Validation.BloodGroups;
    // A group of the eight with no available unit keeps its 0.
    forall g | g in stats
      ensures stats[g] == Count(db.units, AvailableOfGroupAt(today, g)) || exists u :: u in db.units && IsAvailable(u, today) && u.bloodGroup == g
    {
      NoRowsCountZero(db.units, today, g);
    }
    var available := Where(db.units, AvailableAt(today));
    WhereContents(db.units, AvailableAt(today));
    var groups := Distinct(available, GroupOf);
    var i := 0;
    while i < |groups|
      invariant 0 <= i <= |groups|
      invariant forall g :: g in stats <==> g in Validation.BloodGroups || g in groups[..i]
      invariant forall g :: g in groups[..i] ==> stats[g] == Count(db.units, AvailableOfGroupAt(today, g))
      invariant forall g :: g in stats && g !in groups[..i] ==> stats[g] == 0
    {
      var g := groups[i];
      stats := stats[g := Count(db.units, AvailableOfGroupAt(today, g))];
      assert groups[..i + 1] == groups[..i] + [g];
      i := i + 1;
    }
    assert groups[..i] == groups;
    forall g | g in stats
      ensures stats[g] == Count(db.units, AvailableOfGroupAt(today, g))
    {
      if g !in groups {
        NoRowsCountZero(db.units, today, g);
      }
    }
  }

  /** A group with no available unit counts 0. */
  lemma NoRowsCountZero(units: seq<UnitRecord>, today: int, g: string)
    ensures (forall u :: u in units ==> !(IsAvailable(u, today) && u.bloodGroup == g)) ==>
              Count(units, AvailableOfGroupAt(today, g)) == 0
  {
    WhereContents(units, AvailableOfGroupAt(today, g));
    if forall u :: u in units ==> !(IsAvailable(u, today) && u.bloodGroup == g) {
      var w := Where(units, AvailableOfGroupAt(today, g));
      if |w| > 0 {
        assert w[0] in w;
      }
    }
  }
}
