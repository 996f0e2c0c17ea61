/** The behaviour of the vessel list on a few concrete stations. */
module VesselExamples {
  import opened VesselData
  import opened TextFilter
  import opened VesselOrdering
  import opened VesselList

  lemma TrimLeavesKes()
    ensures Trim("kes") == "kes"
  {
    assert TrimStart("kes") == "kes";
    assert TrimEnd("kes") == "kes";
  }

  /** A name is kept when the lower-cased trimmed filter occurs in its lower-cased form. */
  lemma FoundIsKept(name: string, filter: string, trimmed: string, i: int)
    requires Trim(filter) == trimmed
    requires OccursAt(ToLowerInvariant(name), ToLowerInvariant(trimmed), i)
    ensures Matches(name, filter)
  {
  }

  /** "kes" finds "Kestrel": the filter ignores case. */
  lemma FilterFindsKestrel()
    ensures Matches("Kestrel", "kes")
  {
    var name := ToLowerInvariant("Kestrel");
    assert name[..3] == "kes";
    assert ToLowerInvariant("kes") == "kes";
    TrimLeavesKes();
    FoundIsKept("Kestrel", "kes", "kes", 0);
  }

  /** A text never occurs in a string lacking its first character. */
  lemma AbsentFirstChar(s: string, t: string)
    requires t != [] && forall i | 0 <= i < |s| :: s[i] != t[0]
    ensures !Contains(s, t)
  {
    forall i ensures !OccursAt(s, t, i) {
      if 0 <= i <= |s| - |t| {
        assert s[i..i + |t|][0] == s[i];
      }
    }
  }

  /** "zzz" does not find "Kestrel". */
  lemma FilterRejectsKestrel()
    ensures !Matches("Kestrel", "zzz")
  {
    assert TrimStart("zzz") == "zzz";
    assert TrimEnd("zzz") == "zzz";
    var name := ToLowerInvariant("Kestrel");
    assert name == "kestrel";
    assert ToLowerInvariant("zzz") == "zzz";
    AbsentFirstChar(name, "zzz");
  }

  /**
   * A station with a StationRepresentative slot sorts before one with fifty
   * doctor slots; two stations that tie on everything else sort by name.
   */
  lemma DefaultComparisonExamples()
    ensures var t := Ticker(map[1 := [("StationRepresentative", Some(1))], 2 := [("Doctor", Some(50))]],
                            [(1, "A"), (2, "B")]);
      Listed(t, 1) && Listed(t, 2) && DefaultComparison(t, 1, 2) == -1
    ensures var t := Ticker(map[1 := [("Doctor", Some(5))], 2 := [("Doctor", Some(3)), ("Janitor", None), ("Cook", Some(2))]],
                            [(1, "Kestrel"), (2, "Atlas")]);
      Listed(t, 1) && Listed(t, 2) && DefaultComparison(t, 1, 2) == 1 && DefaultComparison(t, 2, 1) == -1
  {
    var t1 := Ticker(map[1 := [("StationRepresentative", Some(1))], 2 := [("Doctor", Some(50))]],
                     [(1, "A"), (2, "B")]);
    assert Listed(t1, 1) && Listed(t1, 2) by {
      assert t1.stationNames[0].0 == 1 && t1.stationNames[1].0 == 2;
    }
    assert t1.jobsAvailable[1][0].0 == StationRepresentative;
    assert !Offers(t1, 2, StationRepresentative) by {
      assert t1.jobsAvailable[2][0].0 == "Doctor";
    }
    StationRepresentativeFirst(t1, 1, 2);

    var t2 := Ticker(map[1 := [("Doctor", Some(5))], 2 := [("Doctor", Some(3)), ("Janitor", None), ("Cook", Some(2))]],
                     [(1, "Kestrel"), (2, "Atlas")]);
    assert Listed(t2, 1) && Listed(t2, 2) by {
      assert t2.stationNames[0].0 == 1 && t2.stationNames[1].0 == 2;
    }
    assert JobTotal(t2.jobsAvailable[1]) == 5;
    assert JobTotal(t2.jobsAvailable[2]) == 5;
    assert NameOf(t2.stationNames, 1) == "Kestrel";
    assert NameOf(t2.stationNames, 2) == "Atlas";
    assert OrdinalCompare("Kestrel", "Atlas") == 1;
    assert OrdinalCompare("Atlas", "Kestrel") == -1;
    assert TiersTie(t2, 1, 2) && TiersTie(t2, 2, 1);
    JobCountThenName(t2, 1, 2);
    JobCountThenName(t2, 2, 1);
  }

  /** Alpha offers a Sheriff slot, Beta three doctor slots and Gamma none. */
  function Scenario(): Ticker {
    Ticker(map[1 := [(Sheriff, Some(1))], 2 := [("Doctor", Some(3))], 3 := []],
           [(1, "Alpha"), (2, "Beta"), (3, "Gamma")])
  }

  /** In the scenario Beta, then Gamma, sort strictly after Alpha, and Gamma after Beta. */
  lemma ScenarioComparisons()
    ensures var t := Scenario();
      && StationsHaveJobs(t) && Listed(t, 1) && Listed(t, 2) && Listed(t, 3)
      && DefaultComparison(t, 2, 1) > 0 && DefaultComparison(t, 3, 1) > 0 && DefaultComparison(t, 3, 2) > 0
  {
    var t := Scenario();
    assert t.stationNames[0].0 == 1 && t.stationNames[1].0 == 2 && t.stationNames[2].0 == 3;
    assert Offers(t, 1, Sheriff) by {
      assert t.jobsAvailable[1][0].0 == Sheriff;
    }
    assert !Offers(t, 1, StationRepresentative) && !Offers(t, 1, PirateCaptain) by {
      assert |t.jobsAvailable[1]| == 1 && t.jobsAvailable[1][0].0 == Sheriff;
    }
    assert !Offers(t, 2, StationRepresentative) && !Offers(t, 2, Sheriff) && !Offers(t, 2, PirateCaptain) by {
      assert |t.jobsAvailable[2]| == 1 && t.jobsAvailable[2][0].0 == "Doctor";
    }
    assert !Offers(t, 3, StationRepresentative) && !Offers(t, 3, Sheriff) && !Offers(t, 3, PirateCaptain) by {
      assert t.jobsAvailable[3] == [];
    }
    SheriffSecond(t, 2, 1);
    SheriffSecond(t, 3, 1);
    assert JobTotal(t.jobsAvailable[2]) == 3;
    assert JobTotal(t.jobsAvailable[3]) == 0;
    JobCountThenName(t, 3, 2);
  }

  /**
   * Distinct rows over exactly a, b and c, sorted by a comparison that puts a
   * strictly before b and c, and b strictly before c, are a, b, c in that order.
   */
  lemma ThreeInOrder(cmp: (VesselId, VesselId) -> int, items: seq<Item>, a: VesselId, b: VesselId, c: VesselId)
    requires a != b && b != c && a != c
    requires NoDuplicateIds(items) && SortedBy(cmp, items)
    requires forall id :: id in Ids(items) <==> id == a || id == b || id == c
    requires cmp(b, a) > 0 && cmp(c, a) > 0 && cmp(c, b) > 0
    ensures |items| == 3 && items[0].metadata == a && items[1].metadata == b && items[2].metadata == c
  {
    assert a in Ids(items) && b in Ids(items) && c in Ids(items);
    var ia :| 0 <= ia < |items| && items[ia].metadata == a;
    var ib :| 0 <= ib < |items| && items[ib].metadata == b;
    var ic :| 0 <= ic < |items| && items[ic].metadata == c;
    assert ia < ib && ia < ic && ib < ic;
    assert ia == 0 by {
      assert items[0].metadata in Ids(items);
    }
    assert ib == 1 by {
      assert items[1].metadata in Ids(items);
    }
    assert ic == 2 by {
      assert items[2].metadata in Ids(items);
    }
    assert |items| == 3 by {
      assert items[|items| - 1].metadata in Ids(items);
    }
  }

  /**
   * Whenever exactly stations 1, 2 and 3 are shown and the default comparison
   * puts them in that order strictly, an update from no selection lists 1, 2, 3
   * and selects 1.
   */
  lemma ThreeStationsListed(t: Ticker, keep: string -> bool)
    requires StationsHaveJobs(t)
    requires forall id :: Shown(t.stationNames, keep, id) <==> id == 1 || id == 2 || id == 3
    requires var cmp := ComparisonOf(DefaultComparer, t); cmp(2, 1) > 0 && cmp(3, 1) > 0 && cmp(3, 2) > 0
    ensures var r := Reconcile(t, keep, Some(DefaultComparer), None);
      && |r.items| == 3
      && r.items[0].metadata == 1 && r.items[1].metadata == 2 && r.items[2].metadata == 3
      && r.selected == Some(1) && r.items[0].selected
  {
    ReconcileContents(t, keep, Some(DefaultComparer), None);
    ReconcileOrder(t, keep, Some(DefaultComparer), None);
    ReconcileSelection(t, keep, Some(DefaultComparer), None);
    var r := Reconcile(t, keep, Some(DefaultComparer), None);
    ThreeInOrder(ComparisonOf(DefaultComparer, t), r.items, 1, 2, 3);
  }

  /** An empty filter shows the scenario's three stations and nothing else. */
  lemma ScenarioShown()
    ensures forall id :: Shown(Scenario().stationNames, Keep(""), id) <==> id == 1 || id == 2 || id == 3
  {
    var stations := Scenario().stationNames;
    assert stations[0].0 == 1 && stations[1].0 == 2 && stations[2].0 == 3;
    assert Keep("")(stations[0].1) && Keep("")(stations[1].1) && Keep("")(stations[2].1);
  }

  /**
   * The scenario end to end: with an empty filter, the default Comparison and
   * nothing selected, the list reads Alpha (Sheriff tier), Beta (three open
   * jobs), Gamma (none), and Alpha is selected.
   */
  lemma ScenarioEndToEnd(t: Ticker)
    requires t == Scenario()
    ensures var r := Reconcile(t, Keep(""), Some(DefaultComparer), None);
      && |r.items| == 3
      && r.items[0].metadata == 1 && r.items[1].metadata == 2 && r.items[2].metadata == 3
      && r.selected == Some(1) && r.items[0].selected
  {
    ScenarioComparisons();
    ScenarioShown();
    ThreeStationsListed(t, Keep(""));
  }
}
