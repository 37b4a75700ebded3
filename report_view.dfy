/**
  The counting `ReportView` does over the lists the report controller
  returns: per-key tallies in a `HashMap` (`put(k, getOrDefault(k, 0) + 1)`),
  the four request-status counters, the inventory rows and their totals.
*/
module ReportScreen {
  import opened Calendar
  import opened Tables
  import opened Query
  import Validation
  import InventoryControl
  import RequestControl
  import ReportControl

  // ---------------------------------------------------------------------
  // Tallies
  // ---------------------------------------------------------------------

  /** `getOrDefault(k, 0)`. */
  function Get(counts: map<string, int>, k: string): int {
    if k in counts then counts[k] else 0
  }

  function KeyIs<T>(key: T -> string, k: string): T -> bool {
    (x: T) => key(x) == k
  }

  function KeyIn<T>(key: T -> string, keys: seq<string>): T -> bool {
    (x: T) => key(x) in keys
  }

  /** The map after adding one to the entry of each item's key, in list order, starting from `start`. */
  function Tallied<T(!new)>(items: seq<T>, key: T -> string, start: map<string, int>): (counts: map<string, int>)
    ensures start.Keys <= counts.Keys
  {
    if items == [] then start
    else
      var before := Tallied(items[..|items| - 1], key, start);
      var k := key(items[|items| - 1]);
      before[k := Get(before, k) + 1]
  }

  /**
    Each key's entry is its starting value plus the number of items with
    that key, and a key has an entry exactly when it started with one or
    some item has it.
  */
  lemma {:induction false} TalliedCounts<T(!new)>(items: seq<T>, key: T -> string, start: map<string, int>)
    ensures forall k :: Get(Tallied(items, key, start), k) == Get(start, k) + Count(items, KeyIs(key, k))
    ensures forall k :: k in Tallied(items, key, start) <==> k in start || Count(items, KeyIs(key, k)) > 0
    decreases |items|
  {
    if items != [] {
      TalliedCounts(items[..|items| - 1], key, start);
    }
  }

  /** The loop `for (x : items) counts.put(key(x), counts.getOrDefault(key(x), 0) + 1)`. */
  method Tally<T(!new)>(items: seq<T>, key: T -> string, start: map<string, int>) returns (counts: map<string, int>)
    ensures counts == Tallied(items, key, start)
  {
    counts := start;
    var i := 0;
    while i < |items|
      invariant 0 <= i <= |items|
      invariant counts == Tallied(items[..i], key, start)
    {
      assert items[..i + 1][..i] == items[..i];
      var k := key(items[i]);
      counts := counts[k := Get(counts, k) + 1];
      i := i + 1;
    }
    assert items[..i] == items;
  }

  /** The sum of the entries of a list of keys, absent keys counting 0. */
  function SumOver(counts: map<string, int>, keys: seq<string>): int {
    if keys == [] then 0 else Get(counts, keys[0]) + SumOver(counts, keys[1..])
  }

  predicate Distinct(keys: seq<string>) {
    forall i, j :: 0 <= i < j < |keys| ==> keys[i] != keys[j]
  }

  /** Over distinct keys, a tally adds exactly the number of items whose key is among them. */
  lemma {:induction false} TallySumOver<T(!new)>(items: seq<T>, key: T -> string, start: map<string, int>, keys: seq<string>)
    requires Distinct(keys)
    ensures SumOver(Tallied(items, key, start), keys) == SumOver(start, keys) + Count(items, KeyIn(key, keys))
    decreases |keys|
  {
    if keys == [] {
      CountNone(items, KeyIn(key, keys));
    } else {
      var rest := keys[1..];
      assert Distinct(rest);
      TallySumOver(items, key, start, rest);
      TalliedCounts(items, key, start);
      assert keys[0] !in rest;
      CountSplit(items, KeyIs(key, keys[0]), KeyIn(key, rest), KeyIn(key, keys));
    }
  }

  /**
    A tally started from an empty map has an entry for each distinct key
    of the list and for nothing else, and its entries add up to the length
    of the list.
  */
  lemma TallyCoversAll<T(!new)>(items: seq<T>, key: T -> string)
    ensures forall k :: k in Tallied(items, key, map[]) <==> k in Query.Distinct(items, key)
    ensures SumOver(Tallied(items, key, map[]), Query.Distinct(items, key)) == |items|
  {
    var keys := Query.Distinct(items, key);
    TalliedCounts(items, key, map[]);
    forall k
      ensures Count(items, KeyIs(key, k)) > 0 <==> k in keys
    {
      CountAll(items, Not(KeyIs(key, k)));
      CountSplit(items, KeyIs(key, k), Not(KeyIs(key, k)), (x: T) => true);
      CountAll(items, (x: T) => true);
    }
    TallySumOver(items, key, map[], keys);
    ZeroStartSum(map[], keys);
    CountAll(items, KeyIn(key, keys));
  }

  // ---------------------------------------------------------------------
  // Donation report
  // ---------------------------------------------------------------------

  /** The map the donation summary starts from: every standard group at 0. */
  function ZeroGroups(): (counts: map<string, int>)
    ensures forall g :: g in counts <==> g in Validation.BloodGroups
    ensures forall g :: Get(counts, g) == 0
  {
    map g | g in Validation.BloodGroups :: 0
  }

  /**
    The donations per group: every standard group is present, and each
    key's entry is the number of listed units of that group.
  */
  method DonationCounts(units: seq<UnitRecord>) returns (counts: map<string, int>)
    ensures counts == Tallied(units, InventoryControl.GroupOf, ZeroGroups())
    ensures forall g :: g in Validation.BloodGroups ==> g in counts
    ensures forall g :: Get(counts, g) == Count(units, KeyIs(InventoryControl.GroupOf, g))
  {
    counts := map[];
    var i := 0;
    while i < |Validation.BloodGroups|
      invariant 0 <= i <= |Validation.BloodGroups|
      invariant forall g :: g in counts <==> g in Validation.BloodGroups[..i]
      invariant forall g :: g in counts ==> counts[g] == 0
    {
      counts := counts[Validation.BloodGroups[i] := 0];
      i := i + 1;
    }
    assert Validation.BloodGroups[..i] == Validation.BloodGroups;
    assert counts == ZeroGroups();
    counts := Tally(units, InventoryControl.GroupOf, counts);
    TalliedCounts(units, InventoryControl.GroupOf, ZeroGroups());
  }

  /**
    The eight printed group counts add up to the listed units of a standard
    group: to all of them exactly when no unit has another group.
  */
  lemma DonationCountsSum(units: seq<UnitRecord>)
    ensures var shown := SumOver(Tallied(units, InventoryControl.GroupOf, ZeroGroups()), Validation.BloodGroups);
            && shown == Count(units, KeyIn(InventoryControl.GroupOf, Validation.BloodGroups))
            && shown <= |units|
            && (shown == |units| <==> forall u :: u in units ==> u.bloodGroup in Validation.BloodGroups)
  {
    BloodGroupsDistinct();
    SumOverZeroStart(units, InventoryControl.GroupOf, ZeroGroups(), Validation.BloodGroups);
  }

  /**
    Over distinct keys, a tally started from zeros sums to the number of
    items whose key is among them: to all items exactly when every key is.
  */
  lemma SumOverZeroStart<T(!new)>(items: seq<T>, key: T -> string, start: map<string, int>, keys: seq<string>)
    requires Distinct(keys)
    requires forall k :: Get(start, k) == 0
    ensures var shown := SumOver(Tallied(items, key, start), keys);
            && shown == Count(items, KeyIn(key, keys))
            && shown <= |items|
            && (shown == |items| <==> forall x :: x in items ==> key(x) in keys)
  {
    TallySumOver(items, key, start, keys);
    ZeroStartSum(start, keys);
    CountAll(items, KeyIn(key, keys));
  }

  lemma {:induction false} ZeroStartSum(start: map<string, int>, keys: seq<string>)
    requires forall k :: Get(start, k) == 0
    ensures SumOver(start, keys) == 0
    decreases |keys|
  {
    if keys != [] {
      ZeroStartSum(start, keys[1..]);
    }
  }

  // ---------------------------------------------------------------------
  // Request report
  // ---------------------------------------------------------------------

  const RequestStatuses: seq<string> := ["pending", "fulfilled", "partially fulfilled", "cancelled"]

  function StatusOf(q: RequestRecord): string {
    q.status
  }

  /** The four counters of the request summary; any other status is not counted. */
  method RequestStatusCounts(requests: seq<RequestRecord>) returns (pending: int, fulfilled: int, partial: int, cancelled: int)
    ensures pending == Count(requests, RequestControl.HasStatus("pending"))
    ensures fulfilled == Count(requests, RequestControl.HasStatus("fulfilled"))
    ensures partial == Count(requests, RequestControl.HasStatus("partially fulfilled"))
    ensures cancelled == Count(requests, RequestControl.HasStatus("cancelled"))
  {
    pending, fulfilled, partial, cancelled := 0, 0, 0, 0;
    var i := 0;
    while i < |requests|
      invariant 0 <= i <= |requests|
      invariant pending == Count(requests[..i], RequestControl.HasStatus("pending"))
      invariant fulfilled == Count(requests[..i], RequestControl.HasStatus("fulfilled"))
      invariant partial == Count(requests[..i], RequestControl.HasStatus("partially fulfilled"))
      invariant cancelled == Count(requests[..i], RequestControl.HasStatus("cancelled"))
    {
      assert requests[..i + 1][..i] == requests[..i];
      match requests[i].status {
        case "pending" => pending := pending + 1;
        case "fulfilled" => fulfilled := fulfilled + 1;
        case "partially fulfilled" => partial := partial + 1;
        case "cancelled" => cancelled := cancelled + 1;
        case _ =>
      }
      i := i + 1;
    }
    assert requests[..i] == requests;
  }

  /**
    The four counters add up to at most the number of requests listed, and
    to exactly that number when every status is one of the four.
  */
  lemma {:induction false} StatusCountsSum(requests: seq<RequestRecord>)
    ensures var sum := Count(requests, RequestControl.HasStatus("pending"))
                     + Count(requests, RequestControl.HasStatus("fulfilled"))
                     + Count(requests, RequestControl.HasStatus("partially fulfilled"))
                     + Count(requests, RequestControl.HasStatus("cancelled"));
            && sum <= |requests|
            && (sum == |requests| <==> forall q :: q in requests ==> q.status in RequestStatuses)
  {
    var two := (q: RequestRecord) => q.status == "pending" || q.status == "fulfilled";
    var three := (q: RequestRecord) => two(q) || q.status == "partially fulfilled";
    var four := (q: RequestRecord) => three(q) || q.status == "cancelled";
    CountSplit(requests, RequestControl.HasStatus("pending"), RequestControl.HasStatus("fulfilled"), two);
    CountSplit(requests, two, RequestControl.HasStatus("partially fulfilled"), three);
    CountSplit(requests, three, RequestControl.HasStatus("cancelled"), four);
    CountAll(requests, four);
    StatusListed(requests, four);
  }

  lemma StatusListed(requests: seq<RequestRecord>, four: RequestRecord -> bool)
    requires forall q :: four(q) <==> q.status == "pending" || q.status == "fulfilled"
                                      || q.status == "partially fulfilled" || q.status == "cancelled"
    ensures (forall q :: q in requests ==> four(q)) <==> forall q :: q in requests ==> q.status in RequestStatuses
  {
  }

  // ---------------------------------------------------------------------
  // Inventory status report
  // ---------------------------------------------------------------------

  /** The groups shown: all eight in fixed order for "All", otherwise only the one selected. */
  function ReportGroups(selected: string): (groups: seq<string>)
    ensures selected == "All" ==> groups == Validation.BloodGroups
    ensures selected != "All" ==> groups == [selected]
  {
    if selected == "All" then Validation.BloodGroups else [selected]
  }

  /** A row of the inventory table: a group, its four component counts and their total. */
  datatype GroupRow = GroupRow(group: string, wholeBlood: int, plasma: int, platelets: int, redCells: int, total: int)

  /** The row of one group; a component missing from its map counts 0. */
  function RowOf(group: string, cells: map<string, int>): (row: GroupRow)
    ensures row.group == group
    ensures row.wholeBlood == Get(cells, "whole blood") && row.plasma == Get(cells, "plasma")
    ensures row.platelets == Get(cells, "platelets") && row.redCells == Get(cells, "red cells")
    ensures row.total == row.wholeBlood + row.plasma + row.platelets + row.redCells
  {
    var wholeBlood := Get(cells, "whole blood");
    var plasma := Get(cells, "plasma");
    var platelets := Get(cells, "platelets");
    var redCells := Get(cells, "red cells");
    GroupRow(group, wholeBlood, plasma, platelets, redCells, wholeBlood + plasma + platelets + redCells)
  }

  /** The rows of the table: one per shown group that has an entry in the report, in the order shown. */
  function StatusRows(report: map<string, map<string, int>>, groups: seq<string>): (rows: seq<GroupRow>)
    ensures |rows| <= |groups|
    ensures forall row :: row in rows ==> row.group in groups && row.group in report && row == RowOf(row.group, report[row.group])
  {
    if groups == [] then []
    else
      var before := StatusRows(report, groups[..|groups| - 1]);
      var g := groups[|groups| - 1];
      if g in report then before + [RowOf(g, report[g])] else before
  }

  /** With every group present, the rows are exactly the groups shown, in order. */
  lemma {:induction false} StatusRowsOfPresentGroups(report: map<string, map<string, int>>, groups: seq<string>)
    requires forall g :: g in groups ==> g in report
    ensures |StatusRows(report, groups)| == |groups|
    ensures forall i :: 0 <= i < |groups| ==> StatusRows(report, groups)[i].group == groups[i]
    decreases |groups|
  {
    if groups != [] {
      var init := groups[..|groups| - 1];
      var g := groups[|groups| - 1];
      assert forall h :: h in init ==> h in groups;
      StatusRowsOfPresentGroups(report, init);
      var before := StatusRows(report, init);
      assert g in report;
      var rows := before + [RowOf(g, report[g])];
      assert StatusRows(report, groups) == rows;
      forall i | 0 <= i < |groups|
        ensures rows[i].group == groups[i]
      {
        if i < |init| {
          assert rows[i] == before[i];
        }
      }
    }
  }

  /** The loop that fills the table. */
  method InventoryStatusRows(report: map<string, map<string, int>>, groups: seq<string>) returns (rows: seq<GroupRow>)
    ensures rows == StatusRows(report, groups)
  {
    rows := [];
    var i := 0;
    while i < |groups|
      invariant 0 <= i <= |groups|
      invariant rows == StatusRows(report, groups[..i])
    {
      assert groups[..i + 1][..i] == groups[..i];
      var g := groups[i];
      if g in report {
        rows := rows + [RowOf(g, report[g])];
      }
      i := i + 1;
    }
    assert groups[..i] == groups;
  }

  function SumTotals(rows: seq<GroupRow>): int {
    if rows == [] then 0 else SumTotals(rows[..|rows| - 1]) + rows[|rows| - 1].total
  }

  /** A report whose component maps hold exactly the four components, as the controller builds it. */
  ghost predicate FourComponents(report: map<string, map<string, int>>) {
    forall g :: g in report ==> forall c :: c in report[g] <==> c in Validation.Components
  }

  /** Summed over the four components, a component map gives its row's total. */
  lemma SumOverComponents(cells: map<string, int>)
    ensures SumOver(cells, Validation.Components) == RowOf("", cells).total
  {
    var cs := Validation.Components;
    assert SumOver(cells, cs[3..]) == Get(cells, "red cells") by {
      assert cs[3..][1..] == [];
    }
    assert SumOver(cells, cs[2..]) == Get(cells, "platelets") + SumOver(cells, cs[3..]) by {
      assert cs[2..][1..] == cs[3..];
    }
    assert SumOver(cells, cs[1..]) == Get(cells, "plasma") + SumOver(cells, cs[2..]) by {
      assert cs[1..][1..] == cs[2..];
    }
  }

  /** The inner loop `for (int count : componentMap.values())` over a map holding the four components. */
  method ComponentTotal(cells: map<string, int>) returns (total: int)
    requires forall c :: c in Validation.Components ==> c in cells
    ensures total == RowOf("", cells).total
  {
    total := 0;
    var j := 0;
    while j < |Validation.Components|
      invariant 0 <= j <= |Validation.Components|
      invariant total == SumOver(cells, Validation.Components[..j])
    {
      SumOverSnoc(cells, Validation.Components, j);
      total := total + cells[Validation.Components[j]];
      j := j + 1;
    }
    assert Validation.Components[..j] == Validation.Components;
    SumOverComponents(cells);
  }

  lemma {:induction false} SumOverSnoc(counts: map<string, int>, keys: seq<string>, j: int)
    requires 0 <= j < |keys|
    ensures SumOver(counts, keys[..j + 1]) == SumOver(counts, keys[..j]) + Get(counts, keys[j])
    decreases j
  {
    if j > 0 {
      assert keys[..j + 1][1..] == keys[1..][..j];
      assert keys[..j][1..] == keys[1..][..j - 1];
      SumOverSnoc(counts, keys[1..], j - 1);
    }
  }

  /**
    The "Total Available Units" loop: every count of every shown group
    present in the report.  A component map holds exactly the four
    components, so its values are visited as that list.
  */
  method TotalAvailableUnits(report: map<string, map<string, int>>, groups: seq<string>) returns (total: int)
    requires FourComponents(report)
    ensures total == SumTotals(StatusRows(report, groups))
  {
    total := 0;
    var i := 0;
    while i < |groups|
      invariant 0 <= i <= |groups|
      invariant total == SumTotals(StatusRows(report, groups[..i]))
    {
      assert groups[..i + 1][..i] == groups[..i];
      var g := groups[i];
      if g in report {
        var groupTotal := ComponentTotal(report[g]);
        ghost var before := StatusRows(report, groups[..i]);
        assert (before + [RowOf(g, report[g])])[..|before|] == before;
        total := total + groupTotal;
      }
      i := i + 1;
    }
    assert groups[..i] == groups;
  }

  /** An available unit of this group whose component is one of the four standard ones. */
  function StandardOfGroupAt(today: int, g: string): UnitRecord -> bool {
    (u: UnitRecord) => InventoryControl.IsAvailable(u, today) && u.bloodGroup == g && u.component in Validation.Components
  }

  /** An available unit whose group is among `groups` and whose component is one of the four. */
  function StandardInGroupsAt(today: int, groups: seq<string>): UnitRecord -> bool {
    (u: UnitRecord) => InventoryControl.IsAvailable(u, today) && u.bloodGroup in groups && u.component in Validation.Components
  }

  /** The report the controller builds: every cell counts the available units of its group and component. */
  ghost predicate CountsUnits(report: map<string, map<string, int>>, units: seq<UnitRecord>, today: int) {
    && FourComponents(report)
    && forall g, c :: g in report && c in report[g] ==>
         report[g][c] == Count(units, ReportControl.AvailableOfKindAt(today, g, c))
  }

  /** A row's total counts the available units of its group with a standard component. */
  lemma RowTotalCountsGroup(cells: map<string, int>, units: seq<UnitRecord>, today: int, g: string)
    requires forall c :: c in Validation.Components ==> Get(cells, c) == Count(units, ReportControl.AvailableOfKindAt(today, g, c))
    ensures RowOf(g, cells).total == Count(units, StandardOfGroupAt(today, g))
  {
    var cs := Validation.Components;
    assert Get(cells, cs[0]) == Count(units, ReportControl.AvailableOfKindAt(today, g, cs[0]));
    assert Get(cells, cs[1]) == Count(units, ReportControl.AvailableOfKindAt(today, g, cs[1]));
    assert Get(cells, cs[2]) == Count(units, ReportControl.AvailableOfKindAt(today, g, cs[2]));
    assert Get(cells, cs[3]) == Count(units, ReportControl.AvailableOfKindAt(today, g, cs[3]));
    ReportControl.GroupCellsSum(units, today, g);
    CountSplit(units, StandardOfGroupAt(today, g), ReportControl.OtherComponentAt(today, g),
               InventoryControl.AvailableOfGroupAt(today, g));
  }

  /** In the controller's report, each row's total counts the available units of its group with a standard component. */
  lemma ReportRowTotal(report: map<string, map<string, int>>, units: seq<UnitRecord>, today: int, g: string)
    requires CountsUnits(report, units, today) && g in report
    ensures RowOf(g, report[g]).total == Count(units, StandardOfGroupAt(today, g))
  {
    GroupCellsCount(report, units, today, g);
    RowTotalCountsGroup(report[g], units, today, g);
  }

  /**
    Over distinct groups all present in the report, the row totals add up
    to the available units of those groups with a standard component.
  */
  lemma {:induction false} RowTotalsCountUnits(report: map<string, map<string, int>>, units: seq<UnitRecord>, today: int,
                                               groups: seq<string>)
    requires CountsUnits(report, units, today)
    requires Distinct(groups) && forall g :: g in groups ==> g in report
    ensures SumTotals(StatusRows(report, groups)) == Count(units, StandardInGroupsAt(today, groups))
    decreases |groups|
  {
    if groups == [] {
      CountNone(units, StandardInGroupsAt(today, groups));
    } else {
      var init := groups[..|groups| - 1];
      var g := groups[|groups| - 1];
      assert Distinct(init);
      assert forall h :: h in init ==> h in groups;
      RowTotalsCountUnits(report, units, today, init);
      ReportRowTotal(report, units, today, g);
      var before := StatusRows(report, init);
      assert (before + [RowOf(g, report[g])])[..|before|] == before;
      assert g !in init;
      assert forall h :: h in groups <==> h in init || h == g;
      CountSplit(units, StandardInGroupsAt(today, init), StandardOfGroupAt(today, g), StandardInGroupsAt(today, groups));
    }
  }

  lemma BloodGroupsDistinct()
    ensures Distinct(Validation.BloodGroups)
  {
  }

  /**
    What the table and the total show for a selection, from the
    controller's report: all eight groups in order for "All", the one
    group when it is a standard one, nothing otherwise; every row counts
    its group's available units with a standard component, and so does the
    total over the groups shown.
  */
  lemma {:induction false} ShownRowsCount(report: map<string, map<string, int>>, units: seq<UnitRecord>, today: int,
                                          selected: string)
    requires CountsUnits(report, units, today)
    requires forall g :: g in report <==> g in Validation.BloodGroups
    ensures var rows := StatusRows(report, ReportGroups(selected));
            && (selected == "All" ==>
                  |rows| == |Validation.BloodGroups| &&
                  forall i :: 0 <= i < |rows| ==> rows[i].group == Validation.BloodGroups[i])
            && (selected != "All" && selected in Validation.BloodGroups ==> |rows| == 1 && rows[0].group == selected)
            && (selected != "All" && selected !in Validation.BloodGroups ==> rows == [])
            && (forall row :: row in rows ==> row.total == Count(units, StandardOfGroupAt(today, row.group)))
            && (selected == "All" || selected in Validation.BloodGroups ==>
                  SumTotals(rows) == Count(units, StandardInGroupsAt(today, ReportGroups(selected))))
            && (selected != "All" && selected !in Validation.BloodGroups ==> SumTotals(rows) == 0)
  {
    var groups := ReportGroups(selected);
    var rows := StatusRows(report, groups);
    forall row | row in rows
      ensures row.total == Count(units, StandardOfGroupAt(today, row.group))
    {
      ReportRowTotal(report, units, today, row.group);
    }
    if selected == "All" {
      BloodGroupsDistinct();
      StatusRowsOfPresentGroups(report, groups);
      RowTotalsCountUnits(report, units, today, groups);
    } else if selected in Validation.BloodGroups {
      StatusRowsOfPresentGroups(report, groups);
      RowTotalsCountUnits(report, units, today, groups);
    } else {
      assert StatusRows(report, groups[..0]) == [];
    }
  }

  /**
    `generateInventoryStatusReport`: the rows for the groups shown and the
    total of available units over them.
  */
  method GenerateInventoryStatusReport(db: Database, nowMs: int, selected: string)
    returns (rows: seq<GroupRow>, totalUnits: int)
    ensures selected == "All" ==>
              (|rows| == |Validation.BloodGroups| && forall i :: 0 <= i < |rows| ==> rows[i].group == Validation.BloodGroups[i])
    ensures selected != "All" && selected in Validation.BloodGroups ==> |rows| == 1 && rows[0].group == selected
    ensures selected != "All" && selected !in Validation.BloodGroups ==> rows == [] && totalUnits == 0
    ensures forall row :: row in rows ==>
              && row.wholeBlood == Count(db.units, ReportControl.AvailableOfKindAt(DayOf(nowMs), row.group, "whole blood"))
              && row.plasma == Count(db.units, ReportControl.AvailableOfKindAt(DayOf(nowMs), row.group, "plasma"))
              && row.platelets == Count(db.units, ReportControl.AvailableOfKindAt(DayOf(nowMs), row.group, "platelets"))
              && row.redCells == Count(db.units, ReportControl.AvailableOfKindAt(DayOf(nowMs), row.group, "red cells"))
              && row.total == Count(db.units, StandardOfGroupAt(DayOf(nowMs), row.group))
    ensures totalUnits == SumTotals(rows)
    ensures selected == "All" || selected in Validation.BloodGroups ==>
              totalUnits == Count(db.units, StandardInGroupsAt(DayOf(nowMs), ReportGroups(selected)))
  {
    var report := ReportControl.GetInventoryStatusReport(db, nowMs);
    var today := DayOf(nowMs);
    var groups := ReportGroups(selected);
    rows := InventoryStatusRows(report, groups);
    totalUnits := TotalAvailableUnits(report, groups);
    ShownRowsCount(report, db.units, today, selected);
    RowColumnsCount(report, db.units, today, groups);
  }

  /** In the controller's report, each column of a row counts the available units of that group and component. */
  lemma RowColumnsCount(report: map<string, map<string, int>>, units: seq<UnitRecord>, today: int, groups: seq<string>)
    requires CountsUnits(report, units, today)
    ensures forall row :: row in StatusRows(report, groups) ==>
              && row.wholeBlood == Count(units, ReportControl.AvailableOfKindAt(today, row.group, "whole blood"))
              && row.plasma == Count(units, ReportControl.AvailableOfKindAt(today, row.group, "plasma"))
              && row.platelets == Count(units, ReportControl.AvailableOfKindAt(today, row.group, "platelets"))
              && row.redCells == Count(units, ReportControl.AvailableOfKindAt(today, row.group, "red cells"))
  {
    forall row | row in StatusRows(report, groups) {
      GroupColumnsCount(report, units, today, row.group);
    }
  }

  lemma GroupColumnsCount(report: map<string, map<string, int>>, units: seq<UnitRecord>, today: int, g: string)
    requires CountsUnits(report, units, today) && g in report
    ensures var row := RowOf(g, report[g]);
            && row.wholeBlood == Count(units, ReportControl.AvailableOfKindAt(today, g, "whole blood"))
            && row.plasma == Count(units, ReportControl.AvailableOfKindAt(today, g, "plasma"))
            && row.platelets == Count(units, ReportControl.AvailableOfKindAt(today, g, "platelets"))
            && row.redCells == Count(units, ReportControl.AvailableOfKindAt(today, g, "red cells"))
  {
    GroupCellsCount(report, units, today, g);
    var cs := Validation.Components;
    assert cs[0] == "whole blood" && cs[1] == "plasma" && cs[2] == "platelets" && cs[3] == "red cells";
    assert cs[0] in cs && cs[1] in cs && cs[2] in cs && cs[3] in cs;
  }

  lemma GroupCellsCount(report: map<string, map<string, int>>, units: seq<UnitRecord>, today: int, g: string)
    requires CountsUnits(report, units, today) && g in report
    ensures forall c :: c in Validation.Components ==> Get(report[g], c) == Count(units, ReportControl.AvailableOfKindAt(today, g, c))
  {
    forall c | c in Validation.Components
      ensures Get(report[g], c) == Count(units, ReportControl.AvailableOfKindAt(today, g, c))
    {
      assert c in report[g];
    }
  }

  /**
    "Current Available Units" of the summary: every count of the whole
    report, which counts the available units whose group and component are
    both standard ones, and so at most all available units.  The report's
    keys are exactly the eight groups, so its values are visited in that
    order.
  */
  method SummaryAvailableUnits(db: Database, nowMs: int) returns (total: int)
    ensures total == Count(db.units, StandardInGroupsAt(DayOf(nowMs), Validation.BloodGroups))
    ensures total <= |InventoryControl.AvailableUnits(db.units, DayOf(nowMs))|
  {
    var report := ReportControl.GetInventoryStatusReport(db, nowMs);
    total := TotalAvailableUnits(report, Validation.BloodGroups);
    ShownRowsCount(report, db.units, DayOf(nowMs), "All");
    StandardAtMostAvailable(db.units, DayOf(nowMs));
  }

  /** Units of a standard group and component are a part of the available units. */
  lemma StandardAtMostAvailable(units: seq<UnitRecord>, today: int)
    ensures Count(units, StandardInGroupsAt(today, Validation.BloodGroups)) <= |InventoryControl.AvailableUnits(units, today)|
  {
    CountMonotone(units, StandardInGroupsAt(today, Validation.BloodGroups), InventoryControl.AvailableAt(today));
    var r := InventoryControl.AvailableUnits(units, today);
    assert r == OrderBy(Where(units, InventoryControl.AvailableAt(today)), InventoryControl.ExpiryKey, Asc);
  }

  // ---------------------------------------------------------------------
  // Expired-units and frequent-donor summaries
  // ---------------------------------------------------------------------

  function ComponentOf(u: UnitRecord): string {
    u.component
  }

  function DonorGroupOf(d: DonorRecord): string {
    d.bloodGroup
  }

  function GenderOf(d: DonorRecord): string {
    d.gender
  }

  /** The expired units per group and per component; each tally adds up to the units listed. */
  method ExpiredUnitsCounts(units: seq<UnitRecord>) returns (byGroup: map<string, int>, byComponent: map<string, int>)
    ensures byGroup == Tallied(units, InventoryControl.GroupOf, map[])
    ensures byComponent == Tallied(units, ComponentOf, map[])
    ensures forall k :: Get(byGroup, k) == Count(units, KeyIs(InventoryControl.GroupOf, k))
    ensures forall k :: Get(byComponent, k) == Count(units, KeyIs(ComponentOf, k))
    ensures SumOver(byGroup, Query.Distinct(units, InventoryControl.GroupOf)) == |units|
    ensures SumOver(byComponent, Query.Distinct(units, ComponentOf)) == |units|
  {
    byGroup := Tally(units, InventoryControl.GroupOf, map[]);
    byComponent := Tally(units, ComponentOf, map[]);
    TalliedCounts(units, InventoryControl.GroupOf, map[]);
    TalliedCounts(units, ComponentOf, map[]);
    TallyCoversAll(units, InventoryControl.GroupOf);
    TallyCoversAll(units, ComponentOf);
  }

  /** The frequent donors per group and per gender; each tally adds up to the donors listed. */
  method FrequentDonorCounts(donors: seq<DonorRecord>) returns (byGroup: map<string, int>, byGender: map<string, int>)
    ensures byGroup == Tallied(donors, DonorGroupOf, map[])
    ensures byGender == Tallied(donors, GenderOf, map[])
    ensures forall k :: Get(byGroup, k) == Count(donors, KeyIs(DonorGroupOf, k))
    ensures forall k :: Get(byGender, k) == Count(donors, KeyIs(GenderOf, k))
    ensures SumOver(byGroup, Query.Distinct(donors, DonorGroupOf)) == |donors|
    ensures SumOver(byGender, Query.Distinct(donors, GenderOf)) == |donors|
  {
    byGroup := Tally(donors, DonorGroupOf, map[]);
    byGender := Tally(donors, GenderOf, map[]);
    TalliedCounts(donors, DonorGroupOf, map[]);
    TalliedCounts(donors, GenderOf, map[]);
    TallyCoversAll(donors, DonorGroupOf);
    TallyCoversAll(donors, GenderOf);
  }
}
