/**
 * How the vessel list orders its rows: the default comparison of two
 * stations (priority jobs first, then more open jobs, then the name), a
 * caller's own comparison, and the sort of the list by either.
 */
module VesselOrdering {
  import opened VesselData

  const StationRepresentative: JobId := "StationRepresentative"
  const Sheriff: JobId := "Sheriff"
  const PirateCaptain: JobId := "PirateCaptain"

  /** The station has an entry in both ticker dictionaries, so indexing them does not throw. */
  predicate Listed(t: Ticker, id: VesselId) {
    id in t.jobsAvailable && HasStation(t.stationNames, id)
  }

  function Sign(n: int): int {
    if n < 0 then -1 else if n > 0 then 1 else 0
  }

  /**
   * string.Compare(a, b, StringComparison.Ordinal), reduced to its sign:
   * character by character, and a proper prefix comes first.
   */
  function OrdinalCompare(a: string, b: string): (r: int)
    ensures -1 <= r <= 1
    ensures r == 0 <==> a == b
  {
    if a == [] && b == [] then 0
    else if a == [] then -1
    else if b == [] then 1
    else if a[0] < b[0] then -1
    else if a[0] > b[0] then 1
    else
      assert a == [a[0]] + a[1..] && b == [b[0]] + b[1..];
      OrdinalCompare(a[1..], b[1..])
  }

  lemma {:induction false} OrdinalCompareAntisymmetric(a: string, b: string)
    ensures OrdinalCompare(a, b) == -OrdinalCompare(b, a)
  {
    if a != [] && b != [] && a[0] == b[0] {
      OrdinalCompareAntisymmetric(a[1..], b[1..]);
    }
  }

  lemma {:induction false} OrdinalCompareTransitive(a: string, b: string, c: string)
    requires OrdinalCompare(a, b) <= 0 && OrdinalCompare(b, c) <= 0
    ensures OrdinalCompare(a, c) <= 0
  {
    if a != [] && b != [] && c != [] && a[0] == b[0] && b[0] == c[0] {
      OrdinalCompareTransitive(a[1..], b[1..], c[1..]);
    }
  }

  /**
   * VesselListControl.DefaultComparison: a negative result puts x before y.
   * Both stations must be in both ticker dictionaries, as the indexers throw
   * otherwise.
   */
  function DefaultComparison(t: Ticker, x: VesselId, y: VesselId): (r: int)
    requires Listed(t, x) && Listed(t, y)
    ensures x == y ==> r == 0
  {
    var xJobs := t.jobsAvailable[x];
    var yJobs := t.jobsAvailable[y];
    var xContainsSR := ContainsKey(xJobs, StationRepresentative);
    var yContainsSR := ContainsKey(yJobs, StationRepresentative);
    var xContainsSheriff := ContainsKey(xJobs, Sheriff);
    var yContainsSheriff := ContainsKey(yJobs, Sheriff);
    var xContainsPirateCaptain := ContainsKey(xJobs, PirateCaptain);
    var yContainsPirateCaptain := ContainsKey(yJobs, PirateCaptain);
    if xContainsSR && !yContainsSR then -1
    else if !xContainsSR && yContainsSR then 1
    else if xContainsSheriff && !yContainsSheriff then -1
    else if !xContainsSheriff && yContainsSheriff then 1
    else if xContainsPirateCaptain && !yContainsPirateCaptain then -1
    else if !xContainsPirateCaptain && yContainsPirateCaptain then 1
    else
      var jobCountComparison := -(JobTotal(xJobs) - JobTotal(yJobs));
      var nameComparison := OrdinalCompare(NameOf(t.stationNames, x), NameOf(t.stationNames, y));
      if jobCountComparison != 0 then jobCountComparison else nameComparison
  }

  /** Whether a station offers the job (ContainsKey on its job dictionary). */
  predicate Offers(t: Ticker, id: VesselId, job: JobId)
    requires id in t.jobsAvailable
  {
    ContainsKey(t.jobsAvailable[id], job)
  }

  /** A station offering StationRepresentative comes before one that does not, whatever their job counts. */
  lemma StationRepresentativeFirst(t: Ticker, x: VesselId, y: VesselId)
    requires Listed(t, x) && Listed(t, y)
    ensures Offers(t, x, StationRepresentative) && !Offers(t, y, StationRepresentative) ==> DefaultComparison(t, x, y) == -1
    ensures !Offers(t, x, StationRepresentative) && Offers(t, y, StationRepresentative) ==> DefaultComparison(t, x, y) == 1
  {
  }

  /** Sheriff decides only when StationRepresentative ties. */
  lemma SheriffSecond(t: Ticker, x: VesselId, y: VesselId)
    requires Listed(t, x) && Listed(t, y)
    requires Offers(t, x, StationRepresentative) == Offers(t, y, StationRepresentative)
    ensures Offers(t, x, Sheriff) && !Offers(t, y, Sheriff) ==> DefaultComparison(t, x, y) == -1
    ensures !Offers(t, x, Sheriff) && Offers(t, y, Sheriff) ==> DefaultComparison(t, x, y) == 1
  {
  }

  /** PirateCaptain decides only when StationRepresentative and Sheriff both tie. */
  lemma PirateCaptainThird(t: Ticker, x: VesselId, y: VesselId)
    requires Listed(t, x) && Listed(t, y)
    requires Offers(t, x, StationRepresentative) == Offers(t, y, StationRepresentative)
    requires Offers(t, x, Sheriff) == Offers(t, y, Sheriff)
    ensures Offers(t, x, PirateCaptain) && !Offers(t, y, PirateCaptain) ==> DefaultComparison(t, x, y) == -1
    ensures !Offers(t, x, PirateCaptain) && Offers(t, y, PirateCaptain) ==> DefaultComparison(t, x, y) == 1
  {
  }

  /** The three priority jobs tie between x and y. */
  predicate TiersTie(t: Ticker, x: VesselId, y: VesselId)
    requires x in t.jobsAvailable && y in t.jobsAvailable
  {
    && Offers(t, x, StationRepresentative) == Offers(t, y, StationRepresentative)
    && Offers(t, x, Sheriff) == Offers(t, y, Sheriff)
    && Offers(t, x, PirateCaptain) == Offers(t, y, PirateCaptain)
  }

  /**
   * When the priority jobs tie, the station with more open jobs comes first;
   * when the totals tie too, the names decide in ordinal order.
   */
  lemma JobCountThenName(t: Ticker, x: VesselId, y: VesselId)
    requires Listed(t, x) && Listed(t, y) && TiersTie(t, x, y)
    ensures var xTotal := JobTotal(t.jobsAvailable[x]);
      var yTotal := JobTotal(t.jobsAvailable[y]);
      && Sign(DefaultComparison(t, x, y)) == (if xTotal != yTotal then Sign(yTotal - xTotal) else
           OrdinalCompare(NameOf(t.stationNames, x), NameOf(t.stationNames, y)))
  {
  }

  /** Swapping the arguments negates the sign of the default comparison. */
  lemma DefaultComparisonAntisymmetric(t: Ticker, x: VesselId, y: VesselId)
    requires Listed(t, x) && Listed(t, y)
    ensures Sign(DefaultComparison(t, x, y)) == -Sign(DefaultComparison(t, y, x))
  {
    OrdinalCompareAntisymmetric(NameOf(t.stationNames, x), NameOf(t.stationNames, y));
  }

  /** "Sorts no later than" under the default comparison is transitive. */
  lemma DefaultComparisonTransitive(t: Ticker, x: VesselId, y: VesselId, z: VesselId)
    requires Listed(t, x) && Listed(t, y) && Listed(t, z)
    requires DefaultComparison(t, x, y) <= 0 && DefaultComparison(t, y, z) <= 0
    ensures DefaultComparison(t, x, z) <= 0
  {
    var nx, ny, nz := NameOf(t.stationNames, x), NameOf(t.stationNames, y), NameOf(t.stationNames, z);
    if OrdinalCompare(nx, ny) <= 0 && OrdinalCompare(ny, nz) <= 0 {
      OrdinalCompareTransitive(nx, ny, nz);
    }
  }

  /** The value of the list's Comparison field when it is set. */
  datatype Comparer =
    | DefaultComparer
    | CustomComparer(compare: (VesselId, VesselId) -> int)

  /**
   * The delegate the comparer stands for. The default one is only ever
   * applied to listed stations; the value it gives others is never used.
   */
  function ComparisonOf(c: Comparer, t: Ticker): (VesselId, VesselId) -> int {
    match c
    case DefaultComparer => (x, y) => if Listed(t, x) && Listed(t, y) then DefaultComparison(t, x, y) else 0
    case CustomComparer(f) => f
  }

  /**
   * The comparison is a total preorder on ids: what List.Sort asks of a
   * Comparison for its result to be sorted.
   */
  ghost predicate Orders(cmp: (VesselId, VesselId) -> int, ids: set<VesselId>) {
    && (forall x, y | x in ids && y in ids :: cmp(x, y) <= 0 || cmp(y, x) <= 0)
    && (forall x, y, z | x in ids && y in ids && z in ids :: cmp(x, y) <= 0 && cmp(y, z) <= 0 ==> cmp(x, z) <= 0)
  }

  /** The default comparison is a total preorder on any set of listed stations. */
  lemma DefaultComparerOrders(t: Ticker, ids: set<VesselId>)
    requires forall x | x in ids :: Listed(t, x)
    ensures Orders(ComparisonOf(DefaultComparer, t), ids)
  {
    var cmp := ComparisonOf(DefaultComparer, t);
    forall x, y | x in ids && y in ids
      ensures cmp(x, y) <= 0 || cmp(y, x) <= 0
    {
      DefaultComparisonAntisymmetric(t, x, y);
    }
    forall x, y, z | x in ids && y in ids && z in ids && cmp(x, y) <= 0 && cmp(y, z) <= 0
      ensures cmp(x, z) <= 0
    {
      DefaultComparisonTransitive(t, x, y, z);
    }
  }

  /** No row sorts after a later one. */
  predicate SortedBy(cmp: (VesselId, VesselId) -> int, items: seq<Item>) {
    forall i, j | 0 <= i < j < |items| :: cmp(items[i].metadata, items[j].metadata) <= 0
  }

  /** Station y sorts no later than any of the rows. */
  predicate Precedes(cmp: (VesselId, VesselId) -> int, y: VesselId, items: seq<Item>) {
    forall id | id in Ids(items) :: cmp(y, id) <= 0
  }

  lemma SortedCons(cmp: (VesselId, VesselId) -> int, x: Item, items: seq<Item>)
    ensures SortedBy(cmp, [x] + items) <==> Precedes(cmp, x.metadata, items) && SortedBy(cmp, items)
  {
    var r := [x] + items;
    assert forall i | 0 <= i < |items| :: r[i + 1] == items[i];
    if SortedBy(cmp, r) {
      assert forall i, j | 0 <= i < j < |items| :: r[i + 1] == items[i] && r[j + 1] == items[j];
      forall id | id in Ids(items) ensures cmp(x.metadata, id) <= 0 {
        var j :| 0 <= j < |items| && items[j].metadata == id;
        assert r[0] == x && r[j + 1] == items[j];
        assert cmp(r[0].metadata, r[j + 1].metadata) <= 0;
      }
    }
    if Precedes(cmp, x.metadata, items) && SortedBy(cmp, items) {
      forall i, j | 0 <= i < j < |r| ensures cmp(r[i].metadata, r[j].metadata) <= 0 {
        if i == 0 {
          assert r[j] == items[j - 1];
          assert r[j].metadata in Ids(items);
        } else {
          assert r[i] == items[i - 1] && r[j] == items[j - 1];
        }
      }
    }
  }

  /** Inserts x into the rows before the first row it does not sort after. */
  function Insert(cmp: (VesselId, VesselId) -> int, x: Item, items: seq<Item>): (r: seq<Item>)
    ensures multiset(r) == multiset(items) + multiset{x}
    ensures Ids(r) == Ids(items) + {x.metadata}
  {
    IdsConcat([x], items);
    if items == [] then [x]
    else if cmp(x.metadata, items[0].metadata) <= 0 then [x] + items
    else
      assert items == [items[0]] + items[1..];
      IdsConcat([items[0]], items[1..]);
      var rest := Insert(cmp, x, items[1..]);
      IdsConcat([items[0]], rest);
      [items[0]] + rest
  }

  /** A station that sorts no later than the first of sorted rows sorts no later than all of them. */
  lemma PrecedesHead(cmp: (VesselId, VesselId) -> int, ids: set<VesselId>, y: VesselId, items: seq<Item>)
    requires Orders(cmp, ids) && y in ids && Ids(items) <= ids
    requires items != [] && SortedBy(cmp, items) && cmp(y, items[0].metadata) <= 0
    ensures Precedes(cmp, y, items)
  {
    forall id | id in Ids(items) ensures cmp(y, id) <= 0 {
      var k :| 0 <= k < |items| && items[k].metadata == id;
      assert items[0].metadata in Ids(items);
      if k > 0 {
        assert cmp(items[0].metadata, id) <= 0;
      }
    }
  }

  /** Inserting into sorted rows keeps them sorted. */
  lemma {:induction false} InsertSorted(cmp: (VesselId, VesselId) -> int, ids: set<VesselId>, x: Item, items: seq<Item>)
    requires Orders(cmp, ids) && x.metadata in ids && Ids(items) <= ids
    requires SortedBy(cmp, items)
    ensures SortedBy(cmp, Insert(cmp, x, items))
  {
    if items != [] {
      var head := items[0];
      assert items == [head] + items[1..];
      IdsConcat([head], items[1..]);
      SortedCons(cmp, head, items[1..]);
      if cmp(x.metadata, head.metadata) <= 0 {
        PrecedesHead(cmp, ids, x.metadata, items);
        SortedCons(cmp, x, items);
      } else {
        var rest := Insert(cmp, x, items[1..]);
        InsertSorted(cmp, ids, x, items[1..]);
        assert head.metadata in ids;
        assert cmp(head.metadata, x.metadata) <= 0;
        assert Precedes(cmp, head.metadata, rest);
        SortedCons(cmp, head, rest);
      }
    }
  }

  /** Inserting a station not yet among rows without repeated stations repeats none. */
  lemma {:induction false} InsertNoDuplicates(cmp: (VesselId, VesselId) -> int, x: Item, items: seq<Item>)
    requires NoDuplicateIds(items) && x.metadata !in Ids(items)
    ensures NoDuplicateIds(Insert(cmp, x, items))
  {
    if items == [] {
    } else if cmp(x.metadata, items[0].metadata) <= 0 {
      NoDuplicateIdsConcat([x], items);
    } else {
      assert items == [items[0]] + items[1..];
      IdsConcat([items[0]], items[1..]);
      NoDuplicateIdsConcat([items[0]], items[1..]);
      var rest := Insert(cmp, x, items[1..]);
      InsertNoDuplicates(cmp, x, items[1..]);
      NoDuplicateIdsConcat([items[0]], rest);
    }
  }

  /** ItemList.Sort(comparison): sorts the rows by inserting them one after another. */
  function SortItems(cmp: (VesselId, VesselId) -> int, items: seq<Item>): (r: seq<Item>)
    ensures multiset(r) == multiset(items)
    ensures Ids(r) == Ids(items)
    ensures NoDuplicateIds(items) ==> NoDuplicateIds(r)
    decreases |items|
  {
    if items == [] then []
    else
      var init := items[..|items| - 1];
      var last := items[|items| - 1];
      assert items == init + [last];
      IdsConcat(init, [last]);
      NoDuplicateIdsConcat(init, [last]);
      var sortedInit := SortItems(cmp, init);
      if NoDuplicateIds(items) then
        InsertNoDuplicates(cmp, last, sortedInit);
        Insert(cmp, last, sortedInit)
      else
        Insert(cmp, last, sortedInit)
  }

  /** Under a total preorder the sorted rows are in order. */
  lemma {:induction false} SortItemsSorted(cmp: (VesselId, VesselId) -> int, ids: set<VesselId>, items: seq<Item>)
    requires Orders(cmp, ids) && Ids(items) <= ids
    ensures SortedBy(cmp, SortItems(cmp, items))
    decreases |items|
  {
    if items != [] {
      var init := items[..|items| - 1];
      var last := items[|items| - 1];
      assert items == init + [last];
      IdsConcat(init, [last]);
      SortItemsSorted(cmp, ids, init);
      InsertSorted(cmp, ids, last, SortItems(cmp, init));
    }
  }
}
