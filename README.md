# TercihApp placement core in Dafny

TercihApp lets candidates rank up to ten cities. It places them by final score: the
highest-scoring candidate is served first and gets the first city on their list that is
still free. Candidates left without a city who opted into the lottery share the leftover
cities after a shuffle. The pages then show the ranking, the placements and the
candidates still waiting.

This project models that core and proves what it guarantees:

- **Placement engine** (`src/lib/algorithm.ts`, `runPlacementAlgorithm`).
  - Module `PlacementSpec` states what the engine computes as functions over values:
    `Outcome`, built from `Pass`, `Visit` and `LotteryResults`.
  - Module `Algorithm` holds the engine's imperative form, with its map of
    per-user lists, its loops and the in-place Fisher–Yates shuffle of an array.
    `Algorithm.RunPlacementAlgorithm` is proved to return exactly `Outcome`.
  - Module `PlacementProperties` proves what `Outcome` guarantees:
    - one result per candidate;
    - no city handed out twice, and only available cities;
    - every result well formed;
    - capacity;
    - the lottery's counts;
    - each candidate gets their best free city;
    - no earlier candidate is outranked by a later one.
- **Final score** (`calculateFinalScore`). Scores are integer hundredths of a point, so
  `toFixed(2)` becomes rounding half away from zero.
- **Sorting.** Every comparator sort in the core is the same stable insertion sort
  (module `StableSort`) on a two-part key. JavaScript's `Array.prototype.sort` is stable,
  and the model proves the sort is stable too (`StableSort.SortStable`).
- **Ranking** (`src/pages/Dashboard.tsx`, `src/pages/Results.tsx`).
  - Candidates are ordered by score, then years of service, with a missing value
    counting as 0.
  - The signed-in user's rank, the "top 27" status and the row highlight are modelled.
- **Results page.** The placed table, the waiting list of unplaced candidates, the summary
  counts and the displayed preference lists.
- **Preference editor** (`src/pages/Preferences.tsx`). Class
  `PreferencesPage.PreferenceEditor` holds the page's list and message as fields. Its
  methods are the add, remove and drag handlers. The rows written on save are proved to
  be scanned by the engine in exactly the order the list showed.

Randomness is a parameter. `draw(i)` is the draw at shuffle step `i`, and the swap
partner is `draw(i) % (i + 1)`. Every result about the engine holds for all draws.

**What the engine orders by, and what it does not promise.**

- `runPlacementAlgorithm` sorts candidates by final score alone. Equal scores keep their
  input order (`PlacementProperties.ProcessingOrderSorted`).
- Years of service break ties only in the pages' ranking (module `Ranking`), not in the
  engine.
- The engine runs one preference pass over everyone, then one shuffled lottery over the
  cities left over.
- The dashboard's ranking banner says that the first 27 candidates will be placed
  (src/pages/Dashboard.tsx:115). The engine does not guarantee this.
  `Dashboard.TopRankedVolunteerCanBeUnplaced` gives a case:
  - the candidate ranked first has listed no cities and opted into the lottery;
  - a lower-ranked candidate takes the only city by preference;
  - so the candidate ranked first ends unassigned, whatever the draws.

## Model

| member | source | states |
|---|---|---|
| `Algorithm.RunPlacementAlgorithm` | src/lib/algorithm.ts:17-104 | The engine returns exactly `Outcome` for every draw. Every candidate's id appears in exactly one result. Every city handed out was marked available. No city is handed out twice. Every result is well formed. |
| `Algorithm.GroupByUser` | src/lib/algorithm.ts:30-36 | The map holds exactly the users that have entries. Each user maps to their entries in input order. |
| `Algorithm.SortGroups` | src/lib/algorithm.ts:39-42 | After the loop, every user's list is their entries sorted by ascending priority. |
| `Algorithm.LookUp` | src/lib/algorithm.ts:46 | Returns the user's priority-ordered list, or the empty list for a user without entries. |
| `Algorithm.PreferencePass` | src/lib/algorithm.ts:45-76 | The main loop ends in the state `Pass` describes: the free cities, the results and the lottery pool. |
| `Algorithm.VisitProfile` | src/lib/algorithm.ts:46-75 | One candidate's turn (scan, break, pool or unassigned) changes the state exactly as `Visit` does. |
| `Algorithm.AssignLottery` | src/lib/algorithm.ts:85-101 | Pool member i gets the i-th leftover city while there is one; the rest are unassigned (`LotteryResults`). |
| `Algorithm.CalculateFinalScore` | src/lib/algorithm.ts:106-108 | The result is within half a hundredth of the mean. A tie rounds away from zero. |
| `Algorithm.FinalScoreSymmetric` | src/lib/algorithm.ts:106-108 | Swapping the written and interview scores does not change the final score. |
| `Algorithm.FinalScoreInRange` | src/lib/algorithm.ts:106-108 | Scores in 0..100 give a final score between the two scores, so also in 0..100. |
| `Algorithm.FinalScoreExamples` | src/lib/algorithm.ts:106-108 | 95 and 90 give 92.50; 87 and 86.25 give 86.63. |
| `Shuffle.FisherYates` | src/lib/algorithm.ts:79-82 | The shuffle with draws as a parameter, step `i` swapping `i` with `draw(i) % (i + 1)`. `FisherYatesPermutation` and `FisherYatesMap` state its properties. |
| `Shuffle.ShuffleInPlace` | src/lib/algorithm.ts:79-82 | The in-place loop over the array leaves exactly `FisherYates` of the old contents. |
| `Shuffle.FisherYatesPermutation` | src/lib/algorithm.ts:79-82 | Whatever the draws, the shuffled pool is a permutation of the pool. |
| `Shuffle.ShuffleDownPermutation` | src/lib/algorithm.ts:79-82 | Each stretch of swap steps keeps the length and the members. |
| `Shuffle.ShuffleDownIdentity` | src/lib/algorithm.ts:79-82 | Draws that always pick the current slot leave the order unchanged. |
| `Shuffle.ShuffleDownMap` | src/lib/algorithm.ts:79-82 | Swap steps commute with taking a field of every element. |
| `Shuffle.FisherYatesMap` | src/lib/algorithm.ts:79-82 | Shuffling the records, then taking their ids, equals shuffling the ids with the same draws. |
| `Shuffle.SwapPermutation` | src/lib/algorithm.ts:81 | One exchange keeps the length and the members. |
| `PlacementSpec.AvailableCityIds` | src/lib/algorithm.ts:23 | The set of available cities holds no duplicates. It holds exactly the ids of the cities marked available. |
| `PlacementSpec.OfUser` | src/lib/algorithm.ts:31-36 | A user's group holds exactly that user's entries. |
| `PlacementSpec.FirstFree` | src/lib/algorithm.ts:50-61 | The scan stops at an entry whose city is free. Every entry before it is taken, and with no stop every entry is taken. |
| `Seqs.Without` | src/lib/algorithm.ts:58 | Deleting a city from the set removes that city and keeps every other one. |
| `Seqs.WithoutDistinct` | src/lib/algorithm.ts:58 | Deleting from a duplicate-free set keeps it duplicate-free. |
| `StableSort.SortSorted` | src/lib/algorithm.ts:27 | The comparator sort's output is ordered by the key. |
| `StableSort.SortStable` | src/lib/algorithm.ts:27 | The sort is stable: the elements sharing a key keep their input order. |
| `StableSort.SortIdentity` | src/lib/algorithm.ts:40 | Sorting a list already in key order leaves it unchanged. |
| `PlacementProperties.UserPreferencesOfUser` | src/lib/algorithm.ts:39-46 | Every entry the engine scans for a user is one of that user's entries. |
| `PlacementProperties.ProcessingOrderSorted` | src/lib/algorithm.ts:27 | Candidates are visited by non-increasing final score. Every candidate is visited once. Equal scores keep their input order. |
| `PlacementProperties.PassInvariant` | src/lib/algorithm.ts:45-76 | Throughout the main loop, the free cities are distinct open cities and each claimed city is claimed once. Every visited candidate has one result or one pool place. Results are well formed. |
| `PlacementProperties.VisitInv` | src/lib/algorithm.ts:45-76 | One turn of the main loop keeps that invariant. |
| `PlacementSpec.Outcome` | src/lib/algorithm.ts:17-104 | What the engine returns: the preference pass over the candidates in score order, then the lottery over the shuffled pool and the cities left. Its guarantees are the `Outcome…` lemmas below. |
| `PlacementSpec.Pass` | src/lib/algorithm.ts:45-76 | The main loop as a fold of `Visit` over the candidates. `PassInvariant`, `PassStep`, `PassMonotone` and `PlacedAtVisit` state what it keeps. |
| `PlacementSpec.Visit` | src/lib/algorithm.ts:46-75 | One candidate's turn: take the first free city of the priority-ordered list, else join the pool or be recorded unassigned. `VisitTakesBestFreeCity`, `VisitWithoutFreeCity` and `VisitAvailable` state its effect. |
| `PlacementSpec.LotteryResults` | src/lib/algorithm.ts:84-101 | The lottery's results. `LotteryUsers`, `LotteryCities` and `LotteryCounts` state which pool member gets which city. |
| `PlacementProperties.OutcomeOnePerProfile` | src/lib/algorithm.ts:17-104 | The results' user ids are the candidates' ids, each as often. There are as many results as candidates. |
| `PlacementProperties.OutcomeUniqueUsers` | src/lib/algorithm.ts:17-104 | With distinct candidate ids, every candidate has exactly one result. |
| `PlacementProperties.OutcomeCities` | src/lib/algorithm.ts:17-104 | Every city handed out was marked available. No two results carry the same city. |
| `PlacementProperties.OutcomeWellFormed` | src/lib/algorithm.ts:45-101 | A result has a city exactly when it is not unassigned. A preference result carries the city and priority of one of the candidate's own entries. A lottery result goes to a candidate who opted in. |
| `PlacementProperties.OutcomeCapacity` | src/lib/algorithm.ts:17-104 | No more candidates are placed than there are available cities. |
| `PlacementProperties.LotteryUsers` | src/lib/algorithm.ts:85-101 | The lottery's results name the shuffled pool's members, in pool order. |
| `PlacementProperties.LotteryCities` | src/lib/algorithm.ts:85-101 | Pool member i gets a city exactly when i is below the number of leftover cities, and then it gets the i-th one. |
| `PlacementProperties.LotteryCounts` | src/lib/algorithm.ts:85-101 | The lottery places min(pool, leftover cities) candidates and leaves the rest of the pool unassigned. |
| `PlacementProperties.FirstFreeIsBest` | src/lib/algorithm.ts:50-61 | The city the scan finds belongs to the candidate's free entry with the smallest priority. |
| `PlacementProperties.FirstFreeNone` | src/lib/algorithm.ts:50-65 | A scan that finds nothing means none of the candidate's entries names a free city. |
| `PlacementProperties.VisitTakesBestFreeCity` | src/lib/algorithm.ts:50-61 | A candidate with a free preferred city is placed by preference in their best free city, which is then withdrawn. Nothing else changes. |
| `PlacementProperties.VisitWithoutFreeCity` | src/lib/algorithm.ts:64-75 | A candidate with no free preferred city joins the pool if they opted in. Otherwise they get an unassigned result. |
| `PlacementProperties.VisitAvailable` | src/lib/algorithm.ts:45-76 | A turn never frees a city, and results are only appended. |
| `PlacementProperties.PassStep` | src/lib/algorithm.ts:45 | The loop over the first k+1 candidates is the loop over the first k followed by one turn. |
| `PlacementProperties.PassMonotone` | src/lib/algorithm.ts:45-76 | Free cities only become taken as the loop advances, and earlier results stay in place. |
| `PlacementProperties.PlacedAtVisit` | src/lib/algorithm.ts:45-62 | A candidate with a free entry at their turn is placed by preference, with priority at most that entry's. |
| `PlacementProperties.EarlierCandidateNotOutranked` | src/lib/algorithm.ts:45-62 | If a city a candidate listed is still free when a later candidate's turn comes, the earlier candidate was placed by preference. They got an entry of equal or better priority. |
| `Ranking.RankingOrder` | src/pages/Dashboard.tsx:24-35 | The list both pages show: the stable sort by score, then years of service. `RankingOrderSorted` and `HigherRankedListedFirst` state its order. |
| `Ranking.RankingOrderSorted` | src/pages/Dashboard.tsx:24-35 | The ranking lists every candidate once. No candidate is listed below one they rank above. Candidates with equal score and years keep their input order. |
| `Ranking.HigherRankedListedFirst` | src/pages/Dashboard.tsx:24-35 | With distinct ids, a candidate with a higher score, or an equal score and more years, gets a strictly smaller rank. |
| `Ranking.FiveYearsRankAboveNone` | src/pages/Dashboard.tsx:30-34 | On equal scores, five years of service rank first and a missing value second. |
| `Seqs.FindIndex` | src/pages/Dashboard.tsx:52 | `findIndex`, used by the dashboard, the results page and the drag handler, returns the first position whose id matches, or nothing when no element matches. |
| `Ranking.MyRank` | src/pages/Dashboard.tsx:52 | The rank is 0 exactly when nobody is signed in or the user is not listed. Otherwise it is the 1-based position of the user's first row. |
| `Ranking.RankOfPosition` | src/pages/Dashboard.tsx:132 | With distinct ids, the candidate at index i has rank i + 1. |
| `Dashboard.IsInTop27` | src/pages/Dashboard.tsx:53 | True exactly when the signed-in user appears among the first 27 rows. |
| `Dashboard.RowIsTop` | src/pages/Dashboard.tsx:131-134 | The row at index i is highlighted when its rank i + 1 is at most 27. `RowAgreesWithStatus` ties it to the status card. |
| `Dashboard.RowAgreesWithStatus` | src/pages/Dashboard.tsx:131-134 | With distinct ids, a row is highlighted as top 27 exactly when the status card says its candidate is in the top 27. |
| `Dashboard.AboveTopIsTop` | src/pages/Dashboard.tsx:53 | Anyone ranking above a top-27 candidate is in the top 27. |
| `Dashboard.TopRankedVolunteerCanBeUnplaced` | src/pages/Dashboard.tsx:115 | The banner's "first 27 will be placed" is not guaranteed by the engine. The candidate ranked first, who opted into the lottery and listed no cities, ends unassigned when a lower-ranked candidate takes the only city by preference. |
| `ResultsPage.FindProfile` | src/pages/Results.tsx:60 | Returns the first profile with that id, or nothing exactly when no profile has it. |
| `ResultsPage.FindCity` | src/pages/Results.tsx:61 | Returns the first city with that id, or nothing exactly when no city has it. |
| `ResultsPage.Enrich` | src/pages/Results.tsx:58-63 | One assignment with its profile, city and entries looked up. `EnrichAll` and `PlacedTableSpec` state that every row carries its own lookups. |
| `ResultsPage.EnrichAll` | src/pages/Results.tsx:58-63 | Each assignment becomes one row with its looked-up profile, city and entries, in order. |
| `ResultsPage.PlacedTable` | src/pages/Results.tsx:58-77 | The placed table: the enriched assignments sorted by score, then years. `PlacedTableSpec` states its contents and order. |
| `ResultsPage.PlacedTableSpec` | src/pages/Results.tsx:66-77 | The placed table shows every assignment once, with its own lookups. It is ordered by score, then years, a row without a profile counting as 0. |
| `ResultsPage.MyPlacement` | src/pages/Results.tsx:82 | Returns the signed-in user's first row, or nothing exactly when nobody is signed in or the user has no row. |
| `ResultsPage.AssignedUserIds` | src/pages/Results.tsx:86 | The set of user ids that have an assignment. `WaitingListSound`, `WaitingListComplete` and `EveryoneListedOnce` state what it splits. |
| `ResultsPage.NotAssigned` | src/pages/Results.tsx:86-88 | Keeps exactly the profiles whose id no assignment names. |
| `ResultsPage.WaitingRows` | src/pages/Results.tsx:89-93 | Each kept profile is paired with its own preference entries. |
| `ResultsPage.WaitingList` | src/pages/Results.tsx:86-107 | The waiting list: unassigned profiles with their entries, sorted by score, then years. `WaitingListSound`, `WaitingListComplete` and `WaitingListOrdered` state its contents and order. |
| `ResultsPage.WaitingListSound` | src/pages/Results.tsx:86-93 | Every waiting-list row is a candidate no assignment names, shown with their own entries. |
| `ResultsPage.WaitingListComplete` | src/pages/Results.tsx:86-93 | Every candidate no assignment names is on the waiting list. |
| `ResultsPage.WaitingListOrdered` | src/pages/Results.tsx:96-107 | The waiting list is ordered by score, then years of service. |
| `ResultsPage.EveryoneListedOnce` | src/pages/Results.tsx:86-93 | With distinct ids and assignments that name distinct known candidates, the two tables together have one row per candidate. |
| `ResultsPage.GetMyRank` | src/pages/Results.tsx:115-118 | Returns the user's 1-based position, or null exactly when the user is absent or nobody is signed in. |
| `ResultsPage.RankAgreesWithDashboard` | src/pages/Results.tsx:115-118 | The results page shows the same rank as the dashboard, with null where the dashboard has 0. |
| `ResultsPage.CountType` | src/pages/Results.tsx:205-233 | The number of table rows of one assignment kind. `CountsAddUp` states how the counts relate to the table. |
| `ResultsPage.CountsAddUp` | src/pages/Results.tsx:205-233 | The three per-kind counts add up to the total. Preference plus lottery equals the total when no stored row is unassigned. |
| `ResultsPage.DisplayedPreferences` | src/pages/Results.tsx:264 | The shown entries, sorted by priority. `DisplayedPreferencesSpec` states its contents and order. |
| `ResultsPage.DisplayedPreferencesSpec` | src/pages/Results.tsx:264 | The entries shown for a candidate are exactly theirs, each as often as stored, by ascending priority. |
| `PreferencesPage.PreferenceEditor.constructor` | src/pages/Preferences.tsx:19-23 | The page opens with an empty list and no message. |
| `PreferencesPage.PreferenceEditor.AddPreference` | src/pages/Preferences.tsx:88-108 | At 10 entries nothing is added and "too many" is shown. A city already listed is refused with its message. Otherwise the city is appended with priority length + 1 and the message cleared. At most 10 distinct cities stays true. |
| `PreferencesPage.PreferenceEditor.RemovePreference` | src/pages/Preferences.tsx:110-112 | Drops exactly the entries with that id. Nothing else changes, and the list stays valid. |
| `PreferencesPage.PreferenceEditor.HandleDragEnd` | src/pages/Preferences.tsx:76-86 | Without a target, or with the same target, nothing changes. Otherwise the dragged entry moves to the target's index. The entries are a permutation of the old ones, and the list stays valid. |
| `PreferencesPage.WithoutId` | src/pages/Preferences.tsx:111 | Keeps exactly the entries whose id differs. |
| `PreferencesPage.WithoutIdDistinct` | src/pages/Preferences.tsx:111 | Removing entries never makes a city appear twice. |
| `PreferencesPage.Dragged` | src/pages/Preferences.tsx:79-84 | `findIndex` finds both listed ids. The result has the same entries, and the dragged entry sits at the target's old index. |
| `PreferencesPage.DragMoveOk` | src/pages/Preferences.tsx:79-84 | A drag keeps a valid list valid: at most 10 entries, no city twice. |
| `PreferencesPage.ArrayMove` | src/pages/Preferences.tsx:83 | Each position of the result holds the element that the move of `from` to `to` brings there. |
| `PreferencesPage.ArrayMoveInverse` | src/pages/Preferences.tsx:83 | Moving the entry back restores the list. |
| `PreferencesPage.ArrayMovePermutation` | src/pages/Preferences.tsx:83 | A move keeps the entries. |
| `PreferencesPage.ArrayMoveDistinct` | src/pages/Preferences.tsx:83 | A move never makes a city appear twice. |
| `PreferencesPage.AvailableCities` | src/pages/Preferences.tsx:172-174 | Offers exactly the cities not yet listed. |
| `PreferencesPage.RemovedCityOfferedAgain` | src/pages/Preferences.tsx:172-174 | After an entry is removed, its city is offered again. |
| `PreferencesPage.SavedRows` | src/pages/Preferences.tsx:128-132 | One row per entry, for this user, with the entry's city and priority index + 1. |
| `PreferencesPage.SavedRowsSorted` | src/pages/Preferences.tsx:128-132 | The saved rows are in priority order. |
| `PreferencesPage.SavedOrderIsScanOrder` | src/pages/Preferences.tsx:128-132 | After a save, the engine scans the user's cities in exactly the order the list showed. This holds whatever priorities drags and removals left on the entries. |

## Left out

- Database access is not modelled. Profiles, cities, preferences and assignments are
  passed in as sequences, and writes are returned as values. This covers Supabase, the
  pages' `fetchData` loading and state setters for loading and saving flags.
- `runPlacementAlgorithmAsync` is not modelled. It fetches the data, clears and inserts
  the assignment rows (keeping only results with a city) and publishes the results. The
  results page's counts are stated for any stored rows instead.
- `Math.random` is replaced by the parameter `draw`. Every property is proved for all draws.
- Floating point is not modelled: scores are integer hundredths. `calculateFinalScore`'s
  `toFixed(2)` is modelled as exact rounding half away from zero, not as binary
  floating-point rounding.
- `Algorithm.RunPlacementAlgorithm` splits the source's single function into phase
  methods. The sorts and the set of available cities are computed by functions rather
  than by in-place `Array.prototype.sort` or `Set` operations.
- The set of available cities is modelled as a duplicate-free sequence in insertion
  order, which is JavaScript's `Set` iteration order.
- `PreferencesPage.PreferenceEditor.AddPreference`: the `temp-${Date.now()}` id is the
  parameter `freshId`.
- `PreferencesPage.PreferenceEditor.HandleDragEnd` requires both ids to be in the list,
  as the drag library reports only the list's own items. `arrayMove` with index -1 is
  not modelled.
- `PreferencesPage.SavedRows`: the ids the database assigns are the parameter `newId`.
- The save handler's success and error messages, the auto-simulation call and the
  lottery checkbox are not modelled.
- Only the messages of `addPreference` are kept in the editor's state.
- The React rendering is not modelled, apart from the row highlight and the displayed
  orders. Neither are the admin and profile pages, the seed and cleanup scripts, or the
  profile fields the core does not read.
- `ResultsPage.DisplayedPreferencesSpec` is stated for the placed table's lists. The
  waiting list uses the same function on the same per-user entries
  (src/pages/Results.tsx:385).
