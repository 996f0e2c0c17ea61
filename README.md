# Late-join vessel list

A Dafny model of `VesselListControl`, the lobby widget of the late-join
screen that lists the vessels (stations) a player can join. Each row shows
a station's name and how many job slots it has open. The widget:

- rebuilds its rows whenever the client game ticker publishes job
  availability, and whenever the player edits the filter box;
- keeps only the stations whose lower-cased name contains the trimmed,
  lower-cased filter text;
- sorts the rows with its `Comparison` delegate, which by default puts
  stations offering a StationRepresentative, then a Sheriff, then a
  PirateCaptain slot first, then stations with more open jobs, then sorts
  by name;
- keeps the player's selection while that station exists. Otherwise it
  selects the first row.

The project has five modules:

- `VesselData` (`vessel_data.dfy`) holds the values the widget works on:
  - the ticker's two dictionaries, `JobsAvailable` and `StationNames`;
  - the rows of the item list;
  - the job total `Values.Sum(a => a ?? 0)`;
  - the row text `name (total)`.
- `TextFilter` (`text_filter.dfy`) holds the filter: `Trim`, `ToLowerInvariant`, `Contains` and the keep/drop verdict `Matches`.
- `VesselOrdering` (`vessel_ordering.dfy`) holds:
  - `DefaultComparison`;
  - the ordinal string comparison;
  - the `Comparison` field's values;
  - the item list's sort, modelled as an insertion sort over a comparison delegate.
- `VesselList` (`vessel_list.dfy`) holds two things:
  - The class `VesselListControl`, whose fields are the rows, `_selected`,
    `_lastJobState`, the filter text and `Comparison`. Its methods are:
    - the constructor;
    - `UpdateUi`, whose loop walks the stations, followed by `Sort` and the selection repair (`Reselect`);
    - `OnItemSelected`;
    - the filter box's change handler;
    - the `Selected` property.
  - The specification functions that `UpdateUi` is proved against:
    - `BuildItems`: the loop's rows;
    - `Rows`: the rows once sorted;
    - `Repair`: the selection fix-up;
    - `Reconcile`: the whole update.
- `VesselExamples` (`vessel_examples.dfy`) holds the widget's documented
  behaviour on concrete stations and filter texts.

The ticker's dictionaries are modelled as follows:

- `StationNames` is a sequence of `(id, name)` entries, in the order the
  dictionary enumerates them. The loop's order, and so the order of an
  unsorted list, depends on it.
- Each station's job dictionary is a sequence of `(job, count)` entries.
  `JobTotalOrderIndependent` shows that the total does not depend on their order.
- `JobsAvailable` is a `map` from station to job dictionary.

## Model

| member | source | states |
|---|---|---|
| `VesselOrdering.DefaultComparison` | Content.Client/_NF/Latejoin/VesselListControl.xaml.cs:64-109 | a station compares 0 with itself; its behaviour is stated by the tier lemmas, JobCountThenName and the antisymmetry and transitivity lemmas below |
| `VesselOrdering.StationRepresentativeFirst` | Content.Client/_NF/Latejoin/VesselListControl.xaml.cs:66-82 | if exactly one of x, y offers StationRepresentative, the result is -1 when it is x and 1 when it is y, whatever the job counts |
| `VesselOrdering.SheriffSecond` | Content.Client/_NF/Latejoin/VesselListControl.xaml.cs:69-91 | once StationRepresentative ties, a Sheriff slot on one side only decides: -1 for x, 1 for y |
| `VesselOrdering.PirateCaptainThird` | Content.Client/_NF/Latejoin/VesselListControl.xaml.cs:72-100 | once StationRepresentative and Sheriff tie, a PirateCaptain slot on one side only decides: -1 for x, 1 for y |
| `VesselOrdering.JobCountThenName` | Content.Client/_NF/Latejoin/VesselListControl.xaml.cs:103-108 | when the three tiers tie, the sign of the result is sign(total(y) - total(x)), so more open jobs sorts first; when the totals tie too, it is the ordinal comparison of the names |
| `VesselOrdering.DefaultComparisonAntisymmetric` | Content.Client/_NF/Latejoin/VesselListControl.xaml.cs:64-109 | sign(cmp(x, y)) = -sign(cmp(y, x)) for any two listed stations |
| `VesselOrdering.DefaultComparisonTransitive` | Content.Client/_NF/Latejoin/VesselListControl.xaml.cs:64-109 | cmp(x, y) <= 0 and cmp(y, z) <= 0 give cmp(x, z) <= 0 |
| `VesselOrdering.DefaultComparerOrders` | Content.Client/_NF/Latejoin/VesselListControl.xaml.cs:46 | the default Comparison is total and transitive on any set of listed stations, so sorting by it is well defined |
| `VesselOrdering.ComparisonOf` | Content.Client/_NF/Latejoin/VesselListControl.xaml.cs:114 | the comparison the sort applies: the default comparison on listed stations, or the caller's own; DefaultComparerOrders and ComparisonOrders show it is a total preorder on the stations |
| `VesselOrdering.OrdinalCompare` | Content.Client/_NF/Latejoin/VesselListControl.xaml.cs:105 | the ordinal comparison is -1, 0 or 1, and 0 exactly when the names are equal |
| `VesselOrdering.OrdinalCompareAntisymmetric` | Content.Client/_NF/Latejoin/VesselListControl.xaml.cs:105 | swapping the names negates the ordinal comparison |
| `VesselOrdering.OrdinalCompareTransitive` | Content.Client/_NF/Latejoin/VesselListControl.xaml.cs:105 | the ordinal order on names is transitive |
| `VesselOrdering.Insert` | Content.Client/_NF/Latejoin/VesselListControl.xaml.cs:114 | inserting a row adds exactly that row and its station to the rows |
| `VesselOrdering.InsertSorted` | Content.Client/_NF/Latejoin/VesselListControl.xaml.cs:114 | under a total preorder, inserting into sorted rows leaves them sorted |
| `VesselOrdering.InsertNoDuplicates` | Content.Client/_NF/Latejoin/VesselListControl.xaml.cs:114 | inserting a new station into rows without repeats repeats none |
| `VesselOrdering.SortItems` | Content.Client/_NF/Latejoin/VesselListControl.xaml.cs:114 | the sort is a permutation of the rows, carries the same stations, and repeats none that were not repeated |
| `VesselOrdering.SortItemsSorted` | Content.Client/_NF/Latejoin/VesselListControl.xaml.cs:114 | under a total preorder on the rows' stations, the sorted rows are in order: every earlier row compares <= 0 with every later one |
| `VesselOrdering.SortedCons` | Content.Client/_NF/Latejoin/VesselListControl.xaml.cs:114 | a row followed by rows is sorted iff it sorts no later than each of them and they are sorted |
| `VesselData.JobTotal` | Content.Client/_NF/Latejoin/VesselListControl.xaml.cs:132 | the sum of the counts with null read as 0; the lemmas below show it ignores entry order, adds over concatenation, is non-negative, and that unlimited slots add nothing |
| `VesselData.JobTotalOrderIndependent` | Content.Client/_NF/Latejoin/VesselListControl.xaml.cs:132 | the job total is the same whatever order the job dictionary enumerates its entries in |
| `VesselData.JobTotalAppend` | Content.Client/_NF/Latejoin/VesselListControl.xaml.cs:132 | the total of two runs of entries is the sum of their totals |
| `VesselData.JobTotalNonNegative` | Content.Client/_NF/Latejoin/VesselListControl.xaml.cs:132 | with no negative counts the total is never negative |
| `VesselData.UnlimitedAddsNothing` | Content.Client/_NF/Latejoin/VesselListControl.xaml.cs:132 | an unlimited (null) slot anywhere in the dictionary leaves the total unchanged |
| `VesselData.NameOf` | Content.Client/_NF/Latejoin/VesselListControl.xaml.cs:105 | the name read for a station is the name of one of its entries |
| `VesselData.NatToString` | Content.Client/_NF/Latejoin/VesselListControl.xaml.cs:136 | the total is written as decimal digits with no leading zero |
| `VesselData.IntToStringRoundTrip` | Content.Client/_NF/Latejoin/VesselListControl.xaml.cs:136 | the written total reads back as the total |
| `VesselData.Label` | Content.Client/_NF/Latejoin/VesselListControl.xaml.cs:136 | a row's text; LabelRoundTrip shows it is the name, " (", the total written in decimal, and ")" |
| `VesselData.LabelRoundTrip` | Content.Client/_NF/Latejoin/VesselListControl.xaml.cs:136 | a row's text is the station's name, then " (", the total read back exactly, then ")" |
| `TextFilter.TrimStart` | Content.Client/_NF/Latejoin/VesselListControl.xaml.cs:144 | the result is a suffix of s; all that was dropped is white space, and the result does not start with white space |
| `TextFilter.TrimEnd` | Content.Client/_NF/Latejoin/VesselListControl.xaml.cs:144 | the result is a prefix of s; all that was dropped is white space, and the result does not end with white space |
| `TextFilter.Trim` | Content.Client/_NF/Latejoin/VesselListControl.xaml.cs:144 | the result is s[a..b] for some a <= b with only white space before a and after b, has no white space at either end, and is empty exactly when s is all white space |
| `TextFilter.TrimIdempotent` | Content.Client/_NF/Latejoin/VesselListControl.xaml.cs:144 | trimming twice is trimming once |
| `TextFilter.ToLowerInvariant` | Content.Client/_NF/Latejoin/VesselListControl.xaml.cs:144 | lower-casing keeps the length |
| `TextFilter.LowerIdempotent` | Content.Client/_NF/Latejoin/VesselListControl.xaml.cs:144 | lower-casing twice is lower-casing once |
| `TextFilter.Contains` | Content.Client/_NF/Latejoin/VesselListControl.xaml.cs:144 | true exactly when t occurs in s at some position |
| `TextFilter.Matches` | Content.Client/_NF/Latejoin/VesselListControl.xaml.cs:143-147 | a name is kept exactly when the filter is empty or the trimmed, lower-cased filter occurs in the lower-cased name; WhiteSpaceFilterKeepsAll, MatchesIgnoresCase and MatchesIgnoresSurroundingWhiteSpace state its consequences |
| `TextFilter.WhiteSpaceFilterKeepsAll` | Content.Client/_NF/Latejoin/VesselListControl.xaml.cs:143-147 | a filter of white space only keeps every name |
| `TextFilter.MatchesIgnoresCase` | Content.Client/_NF/Latejoin/VesselListControl.xaml.cs:143-147 | names and filters that lower-case alike are kept or dropped alike |
| `TextFilter.MatchesIgnoresSurroundingWhiteSpace` | Content.Client/_NF/Latejoin/VesselListControl.xaml.cs:143-147 | white space around the filter text changes nothing |
| `VesselList.BuildItems` | Content.Client/_NF/Latejoin/VesselListControl.xaml.cs:127-149 | the loop's rows repeat no station; a station has a row iff some entry of it has a name the filter keeps; a row is marked selected iff it is the selected station |
| `VesselList.BuildItemsLabels` | Content.Client/_NF/Latejoin/VesselListControl.xaml.cs:132-137 | each row's text is `name (total)` for a kept entry of its station and that station's job total |
| `VesselList.BuildItemsMarked` | Content.Client/_NF/Latejoin/VesselListControl.xaml.cs:138-142 | the selection only decides the rows' Selected flags: the rows for another selection are these rows re-marked |
| `VesselList.BuildItemsStep` | Content.Client/_NF/Latejoin/VesselListControl.xaml.cs:129-149 | one pass of the loop skips a station already listed, drops one the filter rejects, and otherwise appends its row |
| `VesselList.SortWith` | Content.Client/_NF/Latejoin/VesselListControl.xaml.cs:111-115 | Sort keeps the same rows and stations, and repeats none that were not repeated |
| `VesselList.ComparisonOrders` | Content.Client/_NF/Latejoin/VesselListControl.xaml.cs:111-115 | whichever comparer is set, it is a total preorder on the stations, given that a caller's own comparer is one |
| `VesselList.BuildItemsRows` | Content.Client/_NF/Latejoin/VesselListControl.xaml.cs:129-149 | every row the loop builds is for a station of the ticker, flagged exactly when it is the selection, and labelled with a kept name and its job total |
| `VesselList.PermutedRows` | Content.Client/_NF/Latejoin/VesselListControl.xaml.cs:111-115 | any reordering of the loop's rows still has only rows as the loop builds them |
| `VesselList.Rows` | Content.Client/_NF/Latejoin/VesselListControl.xaml.cs:127-153 | the rows after the loop and the sort; RowsFacts and RowsMarked state what they hold |
| `VesselList.RowsFacts` | Content.Client/_NF/Latejoin/VesselListControl.xaml.cs:127-153 | the built and sorted rows repeat no station, hold exactly the kept stations, are flagged exactly on the selection, are stations of the ticker, and carry their name and total |
| `VesselList.RowsMarked` | Content.Client/_NF/Latejoin/VesselListControl.xaml.cs:127-153 | which rows are built and their order do not depend on the selection |
| `VesselList.Repair` | Content.Client/_NF/Latejoin/VesselListControl.xaml.cs:155-163 | the selection repair after the sort; RepairKeepsRows and RepairSelection state its effect |
| `VesselList.Reconcile` | Content.Client/_NF/Latejoin/VesselListControl.xaml.cs:122-164 | the rows and selection an update leaves; ReconcileContents, ReconcileOrder, ReconcileSelection, HiddenSelectionKept and ReconcileIdempotent state its properties, and UpdateUi is proved to reach it |
| `VesselList.RepairKeepsRows` | Content.Client/_NF/Latejoin/VesselListControl.xaml.cs:155-163 | the selection repair changes Selected flags only: stations, texts and order stay |
| `VesselList.RepairSelection` | Content.Client/_NF/Latejoin/VesselListControl.xaml.cs:155-163 | a found selection is kept; otherwise the first row is selected, or nothing when there is none; afterwards exactly the selected station's row is flagged |
| `VesselList.RepairFirstIsMarked` | Content.Client/_NF/Latejoin/VesselListControl.xaml.cs:158-161 | flagging the first of unflagged rows is marking the rows for the first row's station |
| `VesselList.ReconcileContents` | Content.Client/_NF/Latejoin/VesselListControl.xaml.cs:127-149 | after an update the list has each station at most once, exactly the stations whose name the filter keeps, each labelled with its name and job total |
| `VesselList.ReconcileOrder` | Content.Client/_NF/Latejoin/VesselListControl.xaml.cs:111-115 | with no Comparison the rows keep the loop's order; with one, they are a permutation of the loop's rows, sorted by it (Selected flags aside) |
| `VesselList.ReconcileSelection` | Content.Client/_NF/Latejoin/VesselListControl.xaml.cs:126-163 | a selection that is still a station is kept; otherwise the first row is selected, or none if the list is empty; exactly the selected station's row is flagged, and the selection is never a vanished station |
| `VesselList.HiddenSelectionKept` | Content.Client/_NF/Latejoin/VesselListControl.xaml.cs:138-156 | a selection the filter hides but that still exists is kept, and then no row is flagged |
| `VesselList.ReconcileIdempotent` | Content.Client/_NF/Latejoin/VesselListControl.xaml.cs:122-164 | updating again with nothing changed gives the same rows and selection |
| `VesselList.FirstSelected` | Content.Client/_NF/Latejoin/VesselListControl.xaml.cs:28-32 | none exactly when no row is flagged; otherwise the station of the first flagged row |
| `VesselList.VesselListControl.Selected` | Content.Client/_NF/Latejoin/VesselListControl.xaml.cs:21-34 | the tracked selection when there is one; otherwise some station exactly when a row is flagged, and then the station of the first flagged row |
| `VesselList.VesselListControl.constructor` | Content.Client/_NF/Latejoin/VesselListControl.xaml.cs:40-56 | the list starts with the default Comparison and an empty filter, is built once from the ticker, and remembers that snapshot |
| `VesselList.VesselListControl.OnItemSelected` | Content.Client/_NF/Latejoin/VesselListControl.xaml.cs:117-120 | the picked row's station becomes the selection, unchecked |
| `VesselList.VesselListControl.Sort` | Content.Client/_NF/Latejoin/VesselListControl.xaml.cs:111-115 | the rows become the old rows sorted by Comparison, or stay when it is null |
| `VesselList.VesselListControl.UpdateUi` | Content.Client/_NF/Latejoin/VesselListControl.xaml.cs:122-164 | the rows and selection become `Reconcile` of the ticker, the filter, the Comparison and the old selection; the argument is stored as the last snapshot; the Selected property then equals the tracked selection |
| `VesselList.VesselListControl.Reselect` | Content.Client/_NF/Latejoin/VesselListControl.xaml.cs:155-163 | the rows and selection become `Repair` of the old ones; afterwards no selection means no rows |
| `VesselList.VesselListControl.OnFilterTextChanged` | Content.Client/_NF/Latejoin/VesselListControl.xaml.cs:51-55 | the filter text changes; the list is rebuilt from the last snapshot only when there is one, and is otherwise untouched |
| `VesselExamples.FilterFindsKestrel` | Content.Client/_NF/Latejoin/VesselListControl.xaml.cs:143-147 | the filter "kes" keeps "Kestrel" |
| `VesselExamples.FilterRejectsKestrel` | Content.Client/_NF/Latejoin/VesselListControl.xaml.cs:143-147 | the filter "zzz" drops "Kestrel" |
| `VesselExamples.DefaultComparisonExamples` | Content.Client/_NF/Latejoin/VesselListControl.xaml.cs:64-109 | one StationRepresentative slot beats fifty doctor slots; at equal totals "Atlas" sorts before "Kestrel" |
| `VesselExamples.ScenarioComparisons` | Content.Client/_NF/Latejoin/VesselListControl.xaml.cs:64-109 | in the three-station scenario, Beta and Gamma sort strictly after Alpha (its Sheriff slot), and Gamma (no jobs) strictly after Beta (three jobs) |
| `VesselExamples.ThreeInOrder` | Content.Client/_NF/Latejoin/VesselListControl.xaml.cs:111-115 | distinct rows over exactly three stations, sorted by a comparison that orders them strictly, are those stations in that order |
| `VesselExamples.ThreeStationsListed` | Content.Client/_NF/Latejoin/VesselListControl.xaml.cs:122-164 | an update from no selection, showing exactly three stations the default comparison orders strictly, lists them in that order and selects the first |
| `VesselExamples.ScenarioEndToEnd` | Content.Client/_NF/Latejoin/VesselListControl.xaml.cs:122-164 | with an empty filter and nothing selected, the scenario lists Alpha, Beta, Gamma in that order and selects Alpha, whose row is flagged |

## Left out

- Framework plumbing is not modelled: the XAML loading, dependency injection, `EntitySystem.Get`, the event subscriptions and `Dispose`. The ticker's `LobbyJobsAvailableUpdated` event is modelled by calls to `UpdateUi`, and the filter box's event by calls to `OnFilterTextChanged`.
- `ClientGameTicker` is not part of this model. Its two dictionaries are passed in as an immutable `Ticker` value.
- `UpdateUi` reads the counts from the ticker and only stores its argument `obj`, as the source does. The model keeps this: the new rows never depend on `obj`.
- `ItemList` internals are not modelled. Its rows are a sequence of (station, text, selected) values, and the widget's selection events are left out.
  - Setting `Selected` on an item is a plain flag here.
  - `OnItemSelected` takes the row index the widget reports.
- `VesselOrdering.SortItems`: the widget's sort is modelled by a deterministic insertion sort. The ordering lemmas use only that the result is a permutation, sorted by the comparison. They never use stability.
  - The real sort need not be stable. Stations that compare equal could come out in another order, for instance two stations with the same name, tiers and total.
  - `VesselList.ReconcileIdempotent`, which states exact equality of the rows, relies on the modelled sort being deterministic. Under an unstable sort it holds up to the order of such ties.
- `VesselList.ReconcileOrder`: it requires a caller-supplied `Comparison` to be a total preorder on the stations, which is the contract of the list sort it is handed to. Only its sortedness result depends on this: `UpdateUi`, the contents and the selection lemmas hold for any comparer. The model does not say in what order an inconsistent comparer leaves the rows.
- `VesselOrdering.ComparisonOf`: the default comparer returns 0 for stations missing from a dictionary. The sort only ever compares listed stations, so this value is never used. In the source, reading such a station would throw.
- `VesselOrdering.OrdinalCompare`: it gives only the sign of `string.Compare(..., Ordinal)`, and compares characters as Unicode code points rather than UTF-16 code units. Callers only use the sign, and `Comparison` is used only through its sign.
- `TextFilter.ToLowerInvariant`: it folds ASCII letters only. Invariant-culture lower-casing of other scripts is not modelled.
- `TextFilter.IsWhiteSpace`: it is the `char.IsWhiteSpace` set for characters, and nothing beyond it.
- `VesselData.JobTotal`: it uses unbounded integers. The `int` overflow checks of `Sum` and the `int` subtraction in the comparison are not modelled.
- The filter box's text is never null here. `string.IsNullOrEmpty` is modelled as emptiness.
- A station missing from `JobsAvailable` makes the indexer throw in the code. The model therefore requires, as `StationsHaveJobs`, that every station in `StationNames` has a job dictionary. This follows the code, not the lenient reading in which such a station counts as having no jobs.
