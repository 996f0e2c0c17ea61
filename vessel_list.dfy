/**
 * VesselListControl: the late-join list of stations. Each time the ticker
 * publishes job availability, or the filter text changes, the list is
 * rebuilt from the ticker's station names, filtered, sorted, and its
 * selection kept or repaired.
 */
module VesselList {
  import opened VesselData
  import opened TextFilter
  import opened VesselOrdering

  /** JobsAvailable[key] does not throw for any station in StationNames. */
  predicate StationsHaveJobs(t: Ticker) {
    forall i | 0 <= i < |t.stationNames| :: t.stationNames[i].0 in t.jobsAvailable
  }

  function StationIds(t: Ticker): set<VesselId> {
    set i | 0 <= i < |t.stationNames| :: t.stationNames[i].0
  }

  /** A caller's Comparison must be a total preorder on the stations for the sort to be meaningful. */
  ghost predicate ValidComparison(c: Option<Comparer>, t: Ticker) {
    c.Some? && c.value.CustomComparer? ==> Orders(c.value.compare, StationIds(t))
  }

  lemma ComparisonOrders(c: Comparer, t: Ticker)
    requires StationsHaveJobs(t) && ValidComparison(Some(c), t)
    ensures Orders(ComparisonOf(c, t), StationIds(t))
  {
    if c.DefaultComparer? {
      DefaultComparerOrders(t, StationIds(t));
    }
  }

  /** The filter box's verdict on a station name, as a function value. */
  function Keep(filter: string): (keep: string -> bool)
    ensures forall name :: keep(name) == Matches(name, filter)
  {
    name => Matches(name, filter)
  }

  /** Some entry of the stations has this id and a name the filter keeps. */
  predicate Shown(stations: seq<(VesselId, string)>, keep: string -> bool, id: VesselId) {
    exists i | 0 <= i < |stations| :: stations[i].0 == id && keep(stations[i].1)
  }

  /**
   * The row's text is `name (total)` for a kept entry of its station, the
   * total being the station's open jobs.
   */
  predicate LabelledFrom(jobs: map<VesselId, JobCounts>, stations: seq<(VesselId, string)>, keep: string -> bool, item: Item) {
    exists i | 0 <= i < |stations| ::
      && stations[i].0 == item.metadata
      && keep(stations[i].1)
      && stations[i].0 in jobs
      && item.text == Label(stations[i].1, JobTotal(jobs[stations[i].0]))
  }

  /**
   * The rows UpdateUi's loop has added after walking `stations`: a station
   * already in the list is skipped, one whose name the filter rejects is
   * left out, and a row is marked selected when it is the selected station.
   */
  function BuildItems(jobs: map<VesselId, JobCounts>, keep: string -> bool, sel: Option<VesselId>,
                      stations: seq<(VesselId, string)>): (r: seq<Item>)
    requires forall i | 0 <= i < |stations| :: stations[i].0 in jobs
    ensures NoDuplicateIds(r)
    ensures forall id :: id in Ids(r) <==> Shown(stations, keep, id)
    ensures forall i | 0 <= i < |r| :: r[i].selected <==> sel == Some(r[i].metadata)
    decreases |stations|
  {
    if stations == [] then []
    else
      var init := stations[..|stations| - 1];
      var (key, name) := stations[|stations| - 1];
      var prev := BuildItems(jobs, keep, sel, init);
      assert forall id :: Shown(stations, keep, id) <==> Shown(init, keep, id) || (id == key && keep(name)) by {
        forall id | Shown(stations, keep, id) && id != key ensures Shown(init, keep, id) {
          var i :| 0 <= i < |stations| && stations[i].0 == id && keep(stations[i].1);
          assert init[i] == stations[i];
        }
        forall id | Shown(init, keep, id) ensures Shown(stations, keep, id) {
          var i :| 0 <= i < |init| && init[i].0 == id && keep(init[i].1);
          assert stations[i] == init[i];
        }
      }
      if key in Ids(prev) || !keep(name) then prev
      else
        var item := Item(key, Label(name, JobTotal(jobs[key])), sel == Some(key));
        assert [item][0].metadata == key;
        assert Ids([item]) == {key};
        IdsConcat(prev, [item]);
        NoDuplicateIdsConcat(prev, [item]);
        prev + [item]
  }

  /** Every row's text is built from its station's name and job total. */
  lemma {:induction false} BuildItemsLabels(jobs: map<VesselId, JobCounts>, keep: string -> bool, sel: Option<VesselId>,
                                            stations: seq<(VesselId, string)>)
    requires forall i | 0 <= i < |stations| :: stations[i].0 in jobs
    ensures forall item | item in BuildItems(jobs, keep, sel, stations) :: LabelledFrom(jobs, stations, keep, item)
    decreases |stations|
  {
    if stations != [] {
      var init := stations[..|stations| - 1];
      BuildItemsLabels(jobs, keep, sel, init);
      forall item | item in BuildItems(jobs, keep, sel, stations)
        ensures LabelledFrom(jobs, stations, keep, item)
      {
        if item in BuildItems(jobs, keep, sel, init) {
          var i :| 0 <= i < |init| && init[i].0 == item.metadata && keep(init[i].1)
            && item.text == Label(init[i].1, JobTotal(jobs[init[i].0]));
          assert stations[i] == init[i];
        } else {
          assert stations[|stations| - 1].0 == item.metadata;
        }
      }
    }
  }

  /** One pass of UpdateUi's loop: the station at index i is skipped, left out by the filter, or added. */
  lemma BuildItemsStep(jobs: map<VesselId, JobCounts>, keep: string -> bool, sel: Option<VesselId>,
                       stations: seq<(VesselId, string)>, i: nat)
    requires i < |stations|
    requires forall j | 0 <= j < |stations| :: stations[j].0 in jobs
    ensures var prev := BuildItems(jobs, keep, sel, stations[..i]);
      var key := stations[i].0;
      var name := stations[i].1;
      && (key in Ids(prev) ==> HasStation(stations[..i], key))
      && BuildItems(jobs, keep, sel, stations[..i + 1]) ==
           if key in Ids(prev) || !keep(name) then prev
           else prev + [Item(key, Label(name, JobTotal(jobs[key])), sel == Some(key))]
  {
    assert stations[..i + 1][..i] == stations[..i];
    var key := stations[i].0;
    if key in Ids(BuildItems(jobs, keep, sel, stations[..i])) {
      assert Shown(stations[..i], keep, key);
    }
  }

  /** The stations walked so far include the one at index i once the loop has passed it. */
  lemma HasStationStep(stations: seq<(VesselId, string)>, i: nat, id: VesselId)
    requires i < |stations|
    ensures HasStation(stations[..i + 1], id) <==> HasStation(stations[..i], id) || stations[i].0 == id
  {
    assert stations[..i + 1][i] == stations[i];
    assert forall j | 0 <= j < i :: stations[..i + 1][j] == stations[..i][j];
  }

  /** Which rows are built does not depend on the selection; only their Selected flags do. */
  lemma {:induction false} BuildItemsMarked(jobs: map<VesselId, JobCounts>, keep: string -> bool,
                                            sel: Option<VesselId>, other: Option<VesselId>,
                                            stations: seq<(VesselId, string)>)
    requires forall i | 0 <= i < |stations| :: stations[i].0 in jobs
    ensures BuildItems(jobs, keep, other, stations) == Marked(BuildItems(jobs, keep, sel, stations), other)
    decreases |stations|
  {
    if stations != [] {
      var init := stations[..|stations| - 1];
      var (key, name) := stations[|stations| - 1];
      BuildItemsMarked(jobs, keep, sel, other, init);
      var prev := BuildItems(jobs, keep, sel, init);
      MarkedIds(prev, other);
      if key !in Ids(prev) && keep(name) {
        MarkedSnoc(prev, Item(key, Label(name, JobTotal(jobs[key])), sel == Some(key)), other);
      }
    }
  }

  /** Marking rows commutes with inserting, since insertion looks only at the station ids. */
  lemma {:induction false} InsertMarked(cmp: (VesselId, VesselId) -> int, x: Item, items: seq<Item>, sel: Option<VesselId>)
    ensures Insert(cmp, x.(selected := sel == Some(x.metadata)), Marked(items, sel)) == Marked(Insert(cmp, x, items), sel)
  {
    var mx := x.(selected := sel == Some(x.metadata));
    if items == [] {
      MarkedCons(x, [], sel);
    } else {
      var head := items[0];
      assert items == [head] + items[1..];
      MarkedCons(head, items[1..], sel);
      var m := Marked(items, sel);
      assert m == [head.(selected := sel == Some(head.metadata))] + Marked(items[1..], sel);
      if cmp(x.metadata, head.metadata) <= 0 {
        MarkedCons(x, items, sel);
      } else {
        InsertMarked(cmp, x, items[1..], sel);
        MarkedCons(head, Insert(cmp, x, items[1..]), sel);
      }
    }
  }

  /** Marking rows commutes with sorting them. */
  lemma {:induction false} SortItemsMarked(cmp: (VesselId, VesselId) -> int, items: seq<Item>, sel: Option<VesselId>)
    ensures SortItems(cmp, Marked(items, sel)) == Marked(SortItems(cmp, items), sel)
    decreases |items|
  {
    if items != [] {
      var m := Marked(items, sel);
      var init := items[..|items| - 1];
      var last := items[|items| - 1];
      assert m[..|m| - 1] == Marked(init, sel);
      assert m[|m| - 1] == last.(selected := sel == Some(last.metadata));
      SortItemsMarked(cmp, init, sel);
      InsertMarked(cmp, last, SortItems(cmp, init), sel);
      assert SortItems(cmp, m) == Insert(cmp, m[|m| - 1], SortItems(cmp, m[..|m| - 1]));
      assert SortItems(cmp, items) == Insert(cmp, last, SortItems(cmp, init));
    }
  }

  /** Sort(): the rows sorted by the Comparison field, or left as they are when it is null. */
  function SortWith(c: Option<Comparer>, t: Ticker, items: seq<Item>): (r: seq<Item>)
    ensures multiset(r) == multiset(items) && Ids(r) == Ids(items)
    ensures NoDuplicateIds(items) ==> NoDuplicateIds(r)
  {
    match c
    case None => items
    case Some(cmp) => SortItems(ComparisonOf(cmp, t), items)
  }

  /** The selection UpdateUi sees is one of the stations (selectedFound). */
  predicate SelectionListed(t: Ticker, sel: Option<VesselId>) {
    sel.Some? && HasStation(t.stationNames, sel.value)
  }

  /** The rows of the list and the tracked selection. */
  datatype ListState = ListState(items: seq<Item>, selected: Option<VesselId>)

  /** The rows UpdateUi has built from the ticker's stations and sorted, before it repairs the selection. */
  function Rows(t: Ticker, keep: string -> bool, c: Option<Comparer>, sel: Option<VesselId>): seq<Item>
    requires StationsHaveJobs(t)
  {
    SortWith(c, t, BuildItems(t.jobsAvailable, keep, sel, t.stationNames))
  }

  /**
   * The end of UpdateUi: the selection is kept when it is still a station;
   * otherwise the first row becomes selected, or nothing when there is none.
   */
  function Repair(found: bool, sel: Option<VesselId>, rows: seq<Item>): ListState {
    if found then ListState(rows, sel)
    else if rows == [] then ListState([], None)
    else ListState(rows[0 := rows[0].(selected := true)], Some(rows[0].metadata))
  }

  /** What UpdateUi leaves behind, given the selection it started from. */
  function Reconcile(t: Ticker, keep: string -> bool, c: Option<Comparer>, sel: Option<VesselId>): ListState
    requires StationsHaveJobs(t)
  {
    Repair(SelectionListed(t, sel), sel, Rows(t, keep, c, sel))
  }

  lemma StationIdsHaveStation(t: Ticker, id: VesselId)
    ensures id in StationIds(t) <==> HasStation(t.stationNames, id)
  {
    if HasStation(t.stationNames, id) {
      var i :| 0 <= i < |t.stationNames| && t.stationNames[i].0 == id;
      assert t.stationNames[i].0 in StationIds(t);
    }
  }

  lemma ShownIsStation(t: Ticker, keep: string -> bool, id: VesselId)
    requires Shown(t.stationNames, keep, id)
    ensures HasStation(t.stationNames, id) && id in StationIds(t)
  {
    StationIdsHaveStation(t, id);
  }

  /**
   * A row as the loop builds it: flagged exactly when it is the selected
   * station, one of the stations, and labelled with a kept entry's name and
   * the station's job total.
   */
  predicate RowOf(jobs: map<VesselId, JobCounts>, stations: seq<(VesselId, string)>, keep: string -> bool,
                  sel: Option<VesselId>, item: Item) {
    && (item.selected <==> sel == Some(item.metadata))
    && HasStation(stations, item.metadata)
    && LabelledFrom(jobs, stations, keep, item)
  }

  /** Every row the loop builds is a RowOf the stations. */
  lemma BuildItemsRows(jobs: map<VesselId, JobCounts>, keep: string -> bool, sel: Option<VesselId>,
                       stations: seq<(VesselId, string)>)
    requires forall i | 0 <= i < |stations| :: stations[i].0 in jobs
    ensures var built := BuildItems(jobs, keep, sel, stations);
      forall i | 0 <= i < |built| :: RowOf(jobs, stations, keep, sel, built[i])
  {
    var built := BuildItems(jobs, keep, sel, stations);
    BuildItemsLabels(jobs, keep, sel, stations);
    forall i | 0 <= i < |built| ensures RowOf(jobs, stations, keep, sel, built[i]) {
      assert built[i] in built;
      assert built[i].metadata in Ids(built);
      var j :| 0 <= j < |stations| && stations[j].0 == built[i].metadata && keep(stations[j].1);
    }
  }

  /** Any reordering of the loop's rows has only rows as the loop builds them. */
  lemma PermutedRows(jobs: map<VesselId, JobCounts>, stations: seq<(VesselId, string)>, keep: string -> bool,
                     sel: Option<VesselId>, rows: seq<Item>)
    requires forall i | 0 <= i < |stations| :: stations[i].0 in jobs
    requires multiset(rows) == multiset(BuildItems(jobs, keep, sel, stations))
    ensures forall i | 0 <= i < |rows| :: RowOf(jobs, stations, keep, sel, rows[i])
  {
    var built := BuildItems(jobs, keep, sel, stations);
    BuildItemsRows(jobs, keep, sel, stations);
    forall i | 0 <= i < |rows| ensures RowOf(jobs, stations, keep, sel, rows[i]) {
      assert rows[i] in multiset(built);
      var k :| 0 <= k < |built| && built[k] == rows[i];
    }
  }

  /**
   * The built and sorted rows: each station at most once, exactly the
   * stations the filter keeps, flagged exactly on the selection, labelled
   * with their name and job total.
   */
  lemma RowsFacts(t: Ticker, keep: string -> bool, c: Option<Comparer>, sel: Option<VesselId>)
    requires StationsHaveJobs(t)
    ensures var rows := Rows(t, keep, c, sel);
      && NoDuplicateIds(rows)
      && (forall id :: id in Ids(rows) <==> Shown(t.stationNames, keep, id))
      && (forall i | 0 <= i < |rows| :: RowOf(t.jobsAvailable, t.stationNames, keep, sel, rows[i]))
  {
    PermutedRows(t.jobsAvailable, t.stationNames, keep, sel, Rows(t, keep, c, sel));
  }

  /** Which rows are built and how they are ordered does not depend on the selection. */
  lemma RowsMarked(t: Ticker, keep: string -> bool, c: Option<Comparer>, sel: Option<VesselId>, other: Option<VesselId>)
    requires StationsHaveJobs(t)
    ensures Rows(t, keep, c, other) == Marked(Rows(t, keep, c, sel), other)
  {
    var built := BuildItems(t.jobsAvailable, keep, sel, t.stationNames);
    BuildItemsMarked(t.jobsAvailable, keep, sel, other, t.stationNames);
    if c.Some? {
      SortItemsMarked(ComparisonOf(c.value, t), built, other);
    }
  }

  /** Repairing the selection changes Selected flags only: the stations, texts and order stay. */
  lemma RepairKeepsRows(found: bool, sel: Option<VesselId>, rows: seq<Item>)
    ensures Marked(Repair(found, sel, rows).items, None) == Marked(rows, None)
  {
    var r := Repair(found, sel, rows);
    assert |r.items| == |rows|;
    forall i | 0 <= i < |rows| ensures Marked(r.items, None)[i] == Marked(rows, None)[i] {
      assert r.items[i].metadata == rows[i].metadata && r.items[i].text == rows[i].text;
    }
  }

  lemma RepairSelection(t: Ticker, sel: Option<VesselId>, rows: seq<Item>)
    requires NoDuplicateIds(rows)
    requires forall i | 0 <= i < |rows| :: rows[i].selected <==> sel == Some(rows[i].metadata)
    requires forall i | 0 <= i < |rows| :: HasStation(t.stationNames, rows[i].metadata)
    ensures var r := Repair(SelectionListed(t, sel), sel, rows);
      && (SelectionListed(t, sel) ==> r.selected == sel)
      && (!SelectionListed(t, sel) && rows == [] ==> r.selected == None)
      && (!SelectionListed(t, sel) && rows != [] ==> r.selected == Some(rows[0].metadata))
      && (r.selected.None? ==> r.items == [])
      && (forall i | 0 <= i < |r.items| :: r.items[i].selected <==> r.selected == Some(r.items[i].metadata))
      && (r.selected.None? || HasStation(t.stationNames, r.selected.value))
  {
    var r := Repair(SelectionListed(t, sel), sel, rows);
    if !SelectionListed(t, sel) && rows != [] {
      forall i | 0 < i < |rows| ensures !r.items[i].selected && r.selected != Some(r.items[i].metadata) {
        assert r.items[i] == rows[i];
        assert rows[i].metadata != rows[0].metadata;
        assert sel != Some(rows[i].metadata);
      }
    }
  }

  /**
   * After reconciling, the list holds each station at most once, exactly
   * the stations with a name the filter keeps, each row labelled with its
   * name and job total.
   */
  lemma ReconcileContents(t: Ticker, keep: string -> bool, c: Option<Comparer>, sel: Option<VesselId>)
    requires StationsHaveJobs(t)
    ensures var r := Reconcile(t, keep, c, sel);
      && NoDuplicateIds(r.items)
      && (forall id :: id in Ids(r.items) <==> Shown(t.stationNames, keep, id))
      && (forall i | 0 <= i < |r.items| :: LabelledFrom(t.jobsAvailable, t.stationNames, keep, r.items[i]))
  {
    var rows := Rows(t, keep, c, sel);
    var r := Reconcile(t, keep, c, sel);
    RowsFacts(t, keep, c, sel);
    RepairKeepsRows(SelectionListed(t, sel), sel, rows);
    SameRows(r.items, rows);
    forall i | 0 <= i < |r.items| ensures LabelledFrom(t.jobsAvailable, t.stationNames, keep, r.items[i]) {
      assert RowOf(t.jobsAvailable, t.stationNames, keep, sel, rows[i]);
    }
  }

  /**
   * Without a Comparison the rows stay in the order the stations were
   * walked; with one they are a permutation of those rows in sorted order.
   * Selected flags aside in both cases.
   */
  lemma ReconcileOrder(t: Ticker, keep: string -> bool, c: Option<Comparer>, sel: Option<VesselId>)
    requires StationsHaveJobs(t) && ValidComparison(c, t)
    ensures var r := Reconcile(t, keep, c, sel);
      var built := BuildItems(t.jobsAvailable, keep, sel, t.stationNames);
      && (c.None? ==> Marked(r.items, None) == Marked(built, None))
      && (c.Some? ==> multiset(Marked(r.items, None)) == multiset(Marked(built, None))
                      && SortedBy(ComparisonOf(c.value, t), r.items))
  {
    var built := BuildItems(t.jobsAvailable, keep, sel, t.stationNames);
    var rows := Rows(t, keep, c, sel);
    var r := Reconcile(t, keep, c, sel);
    RepairKeepsRows(SelectionListed(t, sel), sel, rows);
    if c.Some? {
      var cmp := ComparisonOf(c.value, t);
      SortItemsMarked(cmp, built, None);
      ComparisonOrders(c.value, t);
      assert Ids(built) <= StationIds(t) by {
        forall id | id in Ids(built) ensures id in StationIds(t) {
          ShownIsStation(t, keep, id);
        }
      }
      SortItemsSorted(cmp, StationIds(t), built);
      SameRows(r.items, rows);
    }
  }

  /**
   * The selection survives when it is still one of the stations, even if
   * the filter hides its row; otherwise the first row becomes selected, or
   * nothing when the list is empty. Afterwards a row is marked selected
   * exactly when it is the selected station, and the selection is never a
   * station that no longer exists.
   */
  lemma ReconcileSelection(t: Ticker, keep: string -> bool, c: Option<Comparer>, sel: Option<VesselId>)
    requires StationsHaveJobs(t)
    ensures var r := Reconcile(t, keep, c, sel);
      && (SelectionListed(t, sel) ==> r.selected == sel)
      && (!SelectionListed(t, sel) && r.items == [] ==> r.selected == None)
      && (!SelectionListed(t, sel) && r.items != [] ==> r.selected == Some(r.items[0].metadata))
      && (r.selected.None? ==> r.items == [])
      && (forall i | 0 <= i < |r.items| :: r.items[i].selected <==> r.selected == Some(r.items[i].metadata))
      && (r.selected.None? || HasStation(t.stationNames, r.selected.value))
  {
    RowsFacts(t, keep, c, sel);
    RepairSelection(t, sel, Rows(t, keep, c, sel));
  }

  /**
   * A selection the filter hides but that is still a station is kept, and
   * then no row is marked selected.
   */
  lemma HiddenSelectionKept(t: Ticker, keep: string -> bool, c: Option<Comparer>, sel: Option<VesselId>)
    requires StationsHaveJobs(t) && SelectionListed(t, sel)
    requires !Shown(t.stationNames, keep, sel.value)
    ensures var r := Reconcile(t, keep, c, sel);
      && r.selected == sel
      && forall i | 0 <= i < |r.items| :: !r.items[i].selected
  {
    var r := Reconcile(t, keep, c, sel);
    ReconcileContents(t, keep, c, sel);
    ReconcileSelection(t, keep, c, sel);
    forall i | 0 <= i < |r.items| ensures !r.items[i].selected {
      assert r.items[i].metadata in Ids(r.items);
    }
  }

  /**
   * Reconciling again with nothing changed in between gives the same rows
   * and the same selection.
   */
  lemma ReconcileIdempotent(t: Ticker, keep: string -> bool, c: Option<Comparer>, sel: Option<VesselId>)
    requires StationsHaveJobs(t)
    ensures var r := Reconcile(t, keep, c, sel);
      Reconcile(t, keep, c, r.selected) == r
  {
    var rows := Rows(t, keep, c, sel);
    var r := Reconcile(t, keep, c, sel);
    if !SelectionListed(t, sel) {
      RowsFacts(t, keep, c, sel);
      RepairSelection(t, sel, rows);
      RowsMarked(t, keep, c, sel, r.selected);
      if rows != [] {
        RepairFirstIsMarked(sel, rows);
      }
    }
  }

  /**
   * When no row was selected, selecting the first row is the same as
   * marking the rows for the first row's station.
   */
  lemma RepairFirstIsMarked(sel: Option<VesselId>, rows: seq<Item>)
    requires rows != [] && NoDuplicateIds(rows)
    requires forall i | 0 <= i < |rows| :: !rows[i].selected
    ensures Repair(false, sel, rows).items == Marked(rows, Some(rows[0].metadata))
  {
    var s0 := rows[0].metadata;
    var m := Marked(rows, Some(s0));
    forall i | 0 < i < |rows| ensures m[i] == rows[i] {
      assert rows[i].metadata != s0;
    }
  }

  /** GetSelected().FirstOrDefault(): the station of the first row marked selected. */
  function FirstSelected(items: seq<Item>): (r: Option<VesselId>)
    ensures r.None? <==> forall i | 0 <= i < |items| :: !items[i].selected
    ensures r.Some? ==> exists i | 0 <= i < |items| ::
      && items[i].selected && items[i].metadata == r.value
      && forall j | 0 <= j < i :: !items[j].selected
  {
    if items == [] then None
    else if items[0].selected then Some(items[0].metadata)
    else
      var r := FirstSelected(items[1..]);
      assert forall i | 1 <= i < |items| :: items[i] == items[1..][i - 1];
      if r.Some? then
        var i :| 0 <= i < |items[1..]| && items[1..][i].selected && items[1..][i].metadata == r.value
          && forall j | 0 <= j < i :: !items[1..][j].selected;
        assert items[i + 1].selected && items[i + 1].metadata == r.value
          && forall j | 0 <= j < i + 1 :: !items[j].selected;
        r
      else r
  }

  class VesselListControl {
    /** The rows of VesselItemList, in display order. */
    var items: seq<Item>
    /** _selected: the station the player picked, or the one the list picked for them. */
    var selected: Option<VesselId>
    /** _lastJobState: the snapshot UpdateUi was last given. */
    var lastJobState: Option<map<VesselId, JobCounts>>
    /** FilterLineEdit.Text */
    var filterText: string
    /** The Comparison field: null, the default comparison, or a caller's own. */
    var comparison: Option<Comparer>

    /** The list starts sorted by the default comparison and is built once from the ticker. */
    constructor (t: Ticker)
      requires StationsHaveJobs(t)
      ensures comparison == Some(DefaultComparer) && filterText == ""
      ensures lastJobState == Some(t.jobsAvailable)
      ensures ListState(items, selected) == Reconcile(t, Keep(""), Some(DefaultComparer), None)
    {
      items := [];
      selected := None;
      lastJobState := None;
      filterText := "";
      comparison := Some(DefaultComparer);
      new;
      UpdateUi(t, t.jobsAvailable);
    }

    /**
     * The Selected property: the tracked selection, or failing that the
     * station of the first row the widget marks selected.
     */
    function Selected(): (r: Option<VesselId>)
      reads this
      ensures selected.Some? ==> r == selected
      ensures selected.None? ==> (r.Some? <==> exists i | 0 <= i < |items| :: items[i].selected)
      ensures selected.None? && r.Some? ==> exists i | 0 <= i < |items| ::
        && items[i].selected && items[i].metadata == r.value
        && forall j | 0 <= j < i :: !items[j].selected
    {
      if selected.Some? then selected else FirstSelected(items)
    }

    /** The widget reports that the player picked row `index`; it is taken as is. */
    method OnItemSelected(index: nat)
      requires index < |items|
      modifies this`selected
      ensures selected == Some(items[index].metadata)
    {
      selected := Some(items[index].metadata);
    }

    /** Sorts the rows by the Comparison field, if it is set. */
    method Sort(t: Ticker)
      modifies this`items
      ensures items == SortWith(comparison, t, old(items))
    {
      if comparison.Some? {
        items := SortItems(ComparisonOf(comparison.value, t), items);
      }
    }

    /** Rebuilds the list from the ticker after a job availability update `obj`. */
    method UpdateUi(t: Ticker, obj: map<VesselId, JobCounts>)
      requires StationsHaveJobs(t)
      modifies this
      ensures ListState(items, selected) == Reconcile(t, Keep(filterText), comparison, old(selected))
      ensures lastJobState == Some(obj)
      ensures filterText == old(filterText) && comparison == old(comparison)
      ensures Selected() == selected
    {
      items := [];
      var selectedFound := false;
      var stations := t.stationNames;
      for i := 0 to |stations|
        invariant items == BuildItems(t.jobsAvailable, Keep(filterText), selected, stations[..i])
        invariant selectedFound <==> selected.Some? && HasStation(stations[..i], selected.value)
        invariant selected == old(selected) && filterText == old(filterText) && comparison == old(comparison)
      {
        var (key, name) := stations[i];
        BuildItemsStep(t.jobsAvailable, Keep(filterText), selected, stations, i);
        HasStationStep(stations, i, key);
        if selected.Some? {
          HasStationStep(stations, i, selected.value);
        }
        if key in Ids(items) {
          continue;
        }
        var jobsAvailable := JobTotal(t.jobsAvailable[key]);
        var item := Item(key, Label(name, jobsAvailable), false);
        if selected == Some(key) {
          selectedFound := true;
          item := item.(selected := true);
        }
        if filterText != [] && !Contains(ToLowerInvariant(name), ToLowerInvariant(Trim(filterText))) {
          continue;
        }
        items := items + [item];
      }
      assert stations[..|stations|] == stations;
      lastJobState := Some(obj);
      Sort(t);
      Reselect(selectedFound);
    }

    /**
     * The end of UpdateUi: when the selection was not among the stations it
     * is cleared, and the first row, if any, becomes selected instead.
     */
    method Reselect(found: bool)
      requires found ==> selected.Some?
      modifies this`items, this`selected
      ensures ListState(items, selected) == Repair(found, old(selected), old(items))
      ensures selected.None? ==> items == []
    {
      if !found {
        selected := None;
        if |items| > 0 {
          items := items[0 := items[0].(selected := true)];
          selected := Some(items[0].metadata);
        }
      }
    }

    /** The filter box's text changed: rebuild from the last snapshot, if there has been one. */
    method OnFilterTextChanged(t: Ticker, text: string)
      requires lastJobState.Some? ==> StationsHaveJobs(t)
      modifies this
      ensures filterText == text && comparison == old(comparison) && lastJobState == old(lastJobState)
      ensures old(lastJobState).None? ==> items == old(items) && selected == old(selected)
      ensures old(lastJobState).Some? ==>
        ListState(items, selected) == Reconcile(t, Keep(text), comparison, old(selected))
    {
      filterText := text;
      if lastJobState.Some? {
        UpdateUi(t, lastJobState.value);
      }
    }
  }
}
