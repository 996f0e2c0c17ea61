/**
 * The values the late-join vessel list works on: station ids, the job
 * dictionaries the client game ticker publishes for each station, and the
 * rows of the list widget.
 */
module VesselData {

  datatype Option<T> = None | Some(value: T)

  /** A station's network entity id (NetEntity). */
  type VesselId = int

  /** A job prototype id (ProtoId<JobPrototype>). */
  type JobId = string

  /**
   * One station's Dictionary<ProtoId<JobPrototype>, int?>, as its entries in
   * enumeration order. A None count is a job whose slots are not limited.
   */
  type JobCounts = seq<(JobId, Option<int>)>

  /** The two ClientGameTicker properties the list reads. */
  datatype Ticker = Ticker(
    jobsAvailable: map<VesselId, JobCounts>,
    // Dictionary<NetEntity, string> as its entries in enumeration order
    stationNames: seq<(VesselId, string)>)

  /** An ItemList.Item of the vessel list: Metadata holds the station id. */
  datatype Item = Item(metadata: VesselId, text: string, selected: bool)

  /** Dictionary.ContainsKey on a job dictionary. */
  predicate ContainsKey(jobs: JobCounts, job: JobId) {
    exists i | 0 <= i < |jobs| :: jobs[i].0 == job
  }

  /** `a ?? 0` */
  function CountOrZero(count: Option<int>): int {
    if count.Some? then count.value else 0
  }

  /** `Values.Sum(a => a ?? 0)`: the jobs a station shows, unlimited ones counted as 0. */
  function JobTotal(jobs: JobCounts): int {
    if jobs == [] then 0 else CountOrZero(jobs[0].1) + JobTotal(jobs[1..])
  }

  lemma {:induction false} JobTotalAppend(a: JobCounts, b: JobCounts)
    ensures JobTotal(a + b) == JobTotal(a) + JobTotal(b)
  {
    if a == [] {
      assert a + b == b;
    } else {
      assert (a + b)[1..] == a[1..] + b;
      JobTotalAppend(a[1..], b);
    }
  }

  /** Two permutations of each other stay so once the same element is taken out of both. */
  lemma PermutationWithout<T>(a: seq<T>, b: seq<T>, j: nat)
    requires a != [] && j < |b| && b[j] == a[0] && multiset(a) == multiset(b)
    ensures multiset(b[..j] + b[j + 1..]) == multiset(a[1..])
  {
    var x := a[0];
    assert b == b[..j] + [x] + b[j + 1..];
    assert a == [x] + a[1..];
    calc {
      multiset(b[..j] + b[j + 1..]);
      multiset(b[..j]) + multiset(b[j + 1..]);
      multiset(b[..j]) + multiset{x} + multiset(b[j + 1..]) - multiset{x};
      multiset(b) - multiset{x};
      multiset(a) - multiset{x};
      multiset(a[1..]);
    }
  }

  /** Taking one entry out of the dictionary takes its count out of the total. */
  lemma JobTotalRemove(jobs: JobCounts, j: nat)
    requires j < |jobs|
    ensures JobTotal(jobs) == CountOrZero(jobs[j].1) + JobTotal(jobs[..j] + jobs[j + 1..])
  {
    var pre, post := jobs[..j], jobs[j + 1..];
    var tail := [jobs[j]] + post;
    assert jobs == pre + tail;
    assert tail[1..] == post;
    assert JobTotal(tail) == CountOrZero(jobs[j].1) + JobTotal(post);
    JobTotalAppend(pre, tail);
    JobTotalAppend(pre, post);
  }

  /** The total does not depend on the order in which the dictionary enumerates its entries. */
  lemma {:induction false} JobTotalOrderIndependent(a: JobCounts, b: JobCounts)
    requires multiset(a) == multiset(b)
    ensures JobTotal(a) == JobTotal(b)
    decreases |a|
  {
    if a == [] {
      assert |b| == |multiset(b)| == 0;
    } else {
      var x := a[0];
      assert x in multiset(b);
      var j :| 0 <= j < |b| && b[j] == x;
      var rest := b[..j] + b[j + 1..];
      PermutationWithout(a, b, j);
      JobTotalOrderIndependent(a[1..], rest);
      JobTotalRemove(b, j);
    }
  }

  /** With no negative count the total is never negative. */
  lemma {:induction false} JobTotalNonNegative(jobs: JobCounts)
    requires forall i | 0 <= i < |jobs| :: CountOrZero(jobs[i].1) >= 0
    ensures JobTotal(jobs) >= 0
  {
    if jobs != [] {
      JobTotalNonNegative(jobs[1..]);
    }
  }

  /** An unlimited (null) slot, wherever it sits in the dictionary, adds nothing to the total. */
  lemma UnlimitedAddsNothing(a: JobCounts, j: JobId, b: JobCounts)
    ensures JobTotal(a + [(j, None)] + b) == JobTotal(a + b)
  {
    JobTotalAppend(a + [(j, None)], b);
    JobTotalAppend(a, [(j, None)]);
    JobTotalAppend(a, b);
  }

  /** Dictionary.ContainsKey on StationNames. */
  predicate HasStation(stations: seq<(VesselId, string)>, id: VesselId) {
    exists i | 0 <= i < |stations| :: stations[i].0 == id
  }

  /** The indexer StationNames[id]: the name of the station's entry. */
  function NameOf(stations: seq<(VesselId, string)>, id: VesselId): (name: string)
    requires HasStation(stations, id)
    ensures exists i | 0 <= i < |stations| :: stations[i] == (id, name)
  {
    if stations[0].0 == id then stations[0].1
    else
      assert exists i | 1 <= i < |stations| :: stations[i].0 == id;
      var name := NameOf(stations[1..], id);
      assert exists i | 0 <= i < |stations[1..]| :: stations[1..][i] == (id, name);
      name
  }

  /** The station ids the rows carry in their Metadata. */
  function Ids(items: seq<Item>): set<VesselId> {
    set i | 0 <= i < |items| :: items[i].metadata
  }

  lemma IdsConcat(a: seq<Item>, b: seq<Item>)
    ensures Ids(a + b) == Ids(a) + Ids(b)
  {
    forall id | id in Ids(a + b) ensures id in Ids(a) + Ids(b) {
      var k :| 0 <= k < |a + b| && (a + b)[k].metadata == id;
      if k >= |a| {
        assert b[k - |a|].metadata == id;
      }
    }
    forall id | id in Ids(a) ensures id in Ids(a + b) {
      var k :| 0 <= k < |a| && a[k].metadata == id;
      assert (a + b)[k].metadata == id;
    }
    forall id | id in Ids(b) ensures id in Ids(a + b) {
      var k :| 0 <= k < |b| && b[k].metadata == id;
      assert (a + b)[k + |a|].metadata == id;
    }
  }

  predicate NoDuplicateIds(items: seq<Item>) {
    forall i, j | 0 <= i < j < |items| :: items[i].metadata != items[j].metadata
  }

  lemma NoDuplicateIdsConcat(a: seq<Item>, b: seq<Item>)
    ensures NoDuplicateIds(a + b) <==> NoDuplicateIds(a) && NoDuplicateIds(b) && Ids(a) !! Ids(b)
  {
    if NoDuplicateIds(a + b) {
      assert forall i | 0 <= i < |a| :: (a + b)[i] == a[i];
      assert forall i | 0 <= i < |b| :: (a + b)[|a| + i] == b[i];
    }
    if NoDuplicateIds(a) && NoDuplicateIds(b) && Ids(a) !! Ids(b) {
      forall i, j | 0 <= i < j < |a + b| ensures (a + b)[i].metadata != (a + b)[j].metadata {
        if j < |a| {
        } else if i >= |a| {
          assert (a + b)[i] == b[i - |a|] && (a + b)[j] == b[j - |a|];
        } else {
          assert (a + b)[i].metadata in Ids(a);
          assert (a + b)[j] == b[j - |a|];
          assert (a + b)[j].metadata in Ids(b);
        }
      }
    }
  }

  /** The rows with their Selected flags set exactly on the row of `sel`. */
  function Marked(items: seq<Item>, sel: Option<VesselId>): (r: seq<Item>)
    ensures |r| == |items|
  {
    seq(|items|, i requires 0 <= i < |items| =>
      items[i].(selected := sel == Some(items[i].metadata)))
  }

  lemma MarkedCons(x: Item, items: seq<Item>, sel: Option<VesselId>)
    ensures Marked([x] + items, sel) == [x.(selected := sel == Some(x.metadata))] + Marked(items, sel)
  {
    var r := [x] + items;
    assert forall i | 0 < i < |r| :: r[i] == items[i - 1];
  }

  lemma MarkedSnoc(items: seq<Item>, x: Item, sel: Option<VesselId>)
    ensures Marked(items + [x], sel) == Marked(items, sel) + [x.(selected := sel == Some(x.metadata))]
  {
    var r := items + [x];
    assert forall i | 0 <= i < |items| :: r[i] == items[i];
  }

  /** Marking rows leaves their stations as they are. */
  lemma MarkedIds(items: seq<Item>, sel: Option<VesselId>)
    ensures Ids(Marked(items, sel)) == Ids(items)
  {
    assert forall i | 0 <= i < |items| :: Marked(items, sel)[i].metadata == items[i].metadata;
  }

  /** Rows that differ at most in their Selected flags carry the same stations and texts. */
  lemma SameRows(a: seq<Item>, b: seq<Item>)
    requires Marked(a, None) == Marked(b, None)
    ensures |a| == |b|
    ensures forall i | 0 <= i < |a| :: a[i].metadata == b[i].metadata && a[i].text == b[i].text
    ensures Ids(a) == Ids(b)
    ensures NoDuplicateIds(a) <==> NoDuplicateIds(b)
  {
    forall i | 0 <= i < |a| ensures a[i].metadata == b[i].metadata && a[i].text == b[i].text {
      assert Marked(a, None)[i] == a[i].(selected := false);
      assert Marked(b, None)[i] == b[i].(selected := false);
    }
  }

  // ---- decimal formatting of the job total in a row's text ----

  function DigitChar(d: nat): char
    requires d < 10
  {
    ('0' as int + d) as char
  }

  function DigitValue(c: char): nat {
    if '0' <= c <= '9' then c as int - '0' as int else 0
  }

  /** Decimal digits of n, most significant first, without leading zeros. */
  function NatToString(n: nat): (s: string)
    ensures s != []
    ensures forall i | 0 <= i < |s| :: '0' <= s[i] <= '9'
    ensures |s| > 1 ==> s[0] != '0'
  {
    if n < 10 then [DigitChar(n)] else NatToString(n / 10) + [DigitChar(n % 10)]
  }

  /** Int32.ToString(): an optional minus sign, then the digits. */
  function IntToString(n: int): string {
    if n < 0 then "-" + NatToString(-n) else NatToString(n)
  }

  function ParseNat(s: string): nat {
    if s == [] then 0 else 10 * ParseNat(s[..|s| - 1]) + DigitValue(s[|s| - 1])
  }

  function ParseInt(s: string): int {
    if s != [] && s[0] == '-' then -(ParseNat(s[1..]) as int) else ParseNat(s)
  }

  lemma {:induction false} NatToStringRoundTrip(n: nat)
    ensures ParseNat(NatToString(n)) == n
  {
    var s := NatToString(n);
    if n >= 10 {
      NatToStringRoundTrip(n / 10);
      assert s[..|s| - 1] == NatToString(n / 10);
    }
  }

  lemma IntToStringRoundTrip(n: int)
    ensures ParseInt(IntToString(n)) == n
  {
    if n < 0 {
      NatToStringRoundTrip(-n);
      assert IntToString(n)[1..] == NatToString(-n);
    } else {
      NatToStringRoundTrip(n);
    }
  }

  /** A row's text: `name + $" ({jobsAvailable})"`. */
  function Label(name: string, total: int): string {
    name + " (" + IntToString(total) + ")"
  }

  lemma SliceParts(a: string, b: string, c: string, d: string)
    ensures var s := a + b + c + d;
      && |s| == |a| + |b| + |c| + |d|
      && s[..|a|] == a
      && s[|a|..|a| + |b|] == b
      && s[|a| + |b|..|s| - |d|] == c
      && s[|s| - |d|..] == d
  {
  }

  /** The text starts with the station's name, and the number in parentheses reads back as the total. */
  lemma LabelRoundTrip(name: string, total: int)
    ensures var text := Label(name, total);
      && |text| >= |name| + 3
      && text[..|name|] == name
      && text[|name|..|name| + 2] == " ("
      && text[|text| - 1] == ')'
      && ParseInt(text[|name| + 2..|text| - 1]) == total
  {
    var digits := IntToString(total);
    SliceParts(name, " (", digits, ")");
    var text := Label(name, total);
    assert text == name + " (" + digits + ")";
    assert text[|text| - 1..] == ")";
    IntToStringRoundTrip(total);
  }
}
