/** src/pages/Results.tsx: the published results — the table of placed candidates, the list
    of candidates without a place, the signed-in user's rank and the summary counts. The
    data comes from the database; here it is passed in as sequences. */
module ResultsPage {
  import opened Wrappers
  import opened Seqs
  import opened StableSort
  import opened Domain
  import opened PlacementSpec
  import opened Ranking

  /** An assignment with the profile, the city and the preference entries the page looks up
      for it. */
  datatype PlacedRow = PlacedRow(assignment: Assignment, profile: Option<Profile>, city: Option<City>, preferences: seq<Preference>)

  /** A candidate without an assignment, with their preference entries. */
  datatype WaitingRow = WaitingRow(profile: Profile, preferences: seq<Preference>)

  /** `profiles.find(p => p.id === id)`: the first profile with the id. */
  function FindProfile(profiles: seq<Profile>, id: UserId): (r: Option<Profile>)
    ensures r.Some? ==> r.value.id == id
    ensures r.Some? ==> exists i :: (0 <= i < |profiles| && profiles[i] == r.value &&
      forall k :: 0 <= k < i ==> profiles[k].id != id)
    ensures r.None? <==> forall p :: p in profiles ==> p.id != id
  {
    match FindIndex(profiles, IdOf, id)
    case Some(i) => Some(profiles[i])
    case None => None
  }

  function CityIdOf(c: City): CityId {
    c.id
  }

  /** `cities.find(c => c.id === id)`: the first city with the id. */
  function FindCity(cities: seq<City>, id: CityId): (r: Option<City>)
    ensures r.Some? ==> r.value.id == id
    ensures r.Some? ==> exists i :: (0 <= i < |cities| && cities[i] == r.value &&
      forall k :: 0 <= k < i ==> cities[k].id != id)
    ensures r.None? <==> forall c :: c in cities ==> c.id != id
  {
    match FindIndex(cities, CityIdOf, id)
    case Some(i) => Some(cities[i])
    case None => None
  }

  /** The lookups of one assignment (the `map` over the assignments). */
  function Enrich(a: Assignment, profiles: seq<Profile>, cities: seq<City>, prefs: seq<Preference>): PlacedRow {
    PlacedRow(a, FindProfile(profiles, a.userId), FindCity(cities, a.cityId), OfUser(prefs, a.userId))
  }

  function EnrichAll(assignments: seq<Assignment>, profiles: seq<Profile>, cities: seq<City>, prefs: seq<Preference>): (rows: seq<PlacedRow>)
    ensures |rows| == |assignments|
    ensures forall i :: 0 <= i < |rows| ==> rows[i] == Enrich(assignments[i], profiles, cities, prefs)
  {
    seq(|assignments|, i requires 0 <= i < |assignments| => Enrich(assignments[i], profiles, cities, prefs))
  }

  /** `a.profile?.final_score || 0`: a row without a profile sorts as score 0. */
  function RowScore(r: PlacedRow): int {
    if r.profile.Some? then r.profile.value.finalScore else 0
  }

  /** `a.profile?.years_of_service ?? 0`. */
  function RowYears(r: PlacedRow): int {
    if r.profile.Some? then Years(r.profile.value) else 0
  }

  function RowKey(r: PlacedRow): Key {
    Key(-RowScore(r), -RowYears(r))
  }

  function AssignmentOf(r: PlacedRow): Assignment {
    r.assignment
  }

  /** The placed table: every assignment, looked up and ordered by its candidate's score,
      then years of service. */
  function PlacedTable(assignments: seq<Assignment>, profiles: seq<Profile>, cities: seq<City>, prefs: seq<Preference>): seq<PlacedRow> {
    Sort(EnrichAll(assignments, profiles, cities, prefs), RowKey)
  }

  /** The table shows each assignment once, with its own candidate's profile, city and
      preference entries, ordered by score and then years of service, a row without a
      profile ranking as score 0 with 0 years. */
  lemma PlacedTableSpec(assignments: seq<Assignment>, profiles: seq<Profile>, cities: seq<City>, prefs: seq<Preference>)
    ensures multiset(MapSeq(PlacedTable(assignments, profiles, cities, prefs), AssignmentOf)) == multiset(assignments)
    ensures forall r :: r in PlacedTable(assignments, profiles, cities, prefs) ==> r == Enrich(r.assignment, profiles, cities, prefs)
    ensures var t := PlacedTable(assignments, profiles, cities, prefs);
      forall i, j :: 0 <= i < j < |t| ==>
        RowScore(t[i]) > RowScore(t[j]) || (RowScore(t[i]) == RowScore(t[j]) && RowYears(t[i]) >= RowYears(t[j]))
  {
    var e := EnrichAll(assignments, profiles, cities, prefs);
    var t := PlacedTable(assignments, profiles, cities, prefs);
    MapMultiset(t, e, AssignmentOf);
    assert MapSeq(e, AssignmentOf) == assignments;
    forall r | r in t ensures r == Enrich(r.assignment, profiles, cities, prefs) {
      assert r in multiset(e);
    }
    SortSorted(e, RowKey);
    assert forall i, j :: 0 <= i < j < |t| ==> KeyLe(RowKey(t[i]), RowKey(t[j]));
  }

  function RowUserId(r: PlacedRow): UserId {
    r.assignment.userId
  }

  /** `enrichedAssignments.find(a => a.user_id === profile?.id)`: the signed-in user's first
      row. */
  function MyPlacement(table: seq<PlacedRow>, me: Option<UserId>): (r: Option<PlacedRow>)
    ensures r.Some? ==> me == Some(r.value.assignment.userId)
    ensures r.Some? ==> exists i :: (0 <= i < |table| && table[i] == r.value &&
      forall k :: 0 <= k < i ==> table[k].assignment.userId != r.value.assignment.userId)
    ensures r.None? <==> me.None? || forall x :: x in table ==> x.assignment.userId != me.value
  {
    if me.None? then None
    else match FindIndex(table, RowUserId, me.value)
      case Some(i) => Some(table[i])
      case None => None
  }

  /** `new Set(assignments.map(a => a.user_id))`. */
  function AssignedUserIds(assignments: seq<Assignment>): set<UserId> {
    set a | a in assignments :: a.userId
  }

  /** `profiles.filter(p => !assignedUserIds.has(p.id))`. */
  function NotAssigned(profiles: seq<Profile>, ids: set<UserId>): (r: seq<Profile>)
    ensures forall p :: p in r <==> p in profiles && p.id !in ids
  {
    if profiles == [] then []
    else
      var init, last := profiles[..|profiles| - 1], profiles[|profiles| - 1];
      assert profiles == init + [last];
      NotAssigned(init, ids) + (if last.id !in ids then [last] else [])
  }

  /** The complement of `NotAssigned`. */
  ghost function Assigned(profiles: seq<Profile>, ids: set<UserId>): (r: seq<Profile>)
    ensures forall p :: p in r <==> p in profiles && p.id in ids
  {
    if profiles == [] then []
    else
      var init, last := profiles[..|profiles| - 1], profiles[|profiles| - 1];
      assert profiles == init + [last];
      Assigned(init, ids) + (if last.id in ids then [last] else [])
  }

  /** The sort key of the waiting list: `final_score || 0`, then `years_of_service ?? 0`. */
  function WaitingKey(w: WaitingRow): Key {
    RankKey(w.profile)
  }

  /** The candidates without an assignment, with their preference entries, ordered by
      score and then years of service. */
  function WaitingList(profiles: seq<Profile>, assignments: seq<Assignment>, prefs: seq<Preference>): seq<WaitingRow> {
    Sort(WaitingRows(NotAssigned(profiles, AssignedUserIds(assignments)), prefs), WaitingKey)
  }

  function WaitingRows(kept: seq<Profile>, prefs: seq<Preference>): (rows: seq<WaitingRow>)
    ensures |rows| == |kept|
    ensures forall i :: 0 <= i < |rows| ==> rows[i] == WaitingRow(kept[i], OfUser(prefs, kept[i].id))
  {
    seq(|kept|, i requires 0 <= i < |kept| => WaitingRow(kept[i], OfUser(prefs, kept[i].id)))
  }

  /** Every row of the waiting list is a candidate no assignment names, shown with their
      own preference entries. */
  lemma WaitingListSound(profiles: seq<Profile>, assignments: seq<Assignment>, prefs: seq<Preference>)
    ensures forall w :: w in WaitingList(profiles, assignments, prefs) ==>
      w.profile in profiles && w.profile.id !in AssignedUserIds(assignments) && w.preferences == OfUser(prefs, w.profile.id)
  {
    var rows := WaitingRows(NotAssigned(profiles, AssignedUserIds(assignments)), prefs);
    forall w | w in WaitingList(profiles, assignments, prefs) ensures w in rows {
      assert w in multiset(rows);
    }
  }

  /** Every candidate no assignment names has a row in the waiting list. */
  lemma WaitingListComplete(profiles: seq<Profile>, assignments: seq<Assignment>, prefs: seq<Preference>)
    ensures forall p :: p in profiles && p.id !in AssignedUserIds(assignments) ==>
      WaitingRow(p, OfUser(prefs, p.id)) in WaitingList(profiles, assignments, prefs)
  {
    var kept := NotAssigned(profiles, AssignedUserIds(assignments));
    var rows := WaitingRows(kept, prefs);
    var l := WaitingList(profiles, assignments, prefs);
    forall p | p in profiles && p.id !in AssignedUserIds(assignments)
      ensures WaitingRow(p, OfUser(prefs, p.id)) in l
    {
      var k :| 0 <= k < |kept| && kept[k] == p;
      assert rows[k] in multiset(l);
    }
  }

  /** The waiting list is ordered like the ranking: score first, then years of service. */
  lemma WaitingListOrdered(profiles: seq<Profile>, assignments: seq<Assignment>, prefs: seq<Preference>)
    ensures var l := WaitingList(profiles, assignments, prefs);
      forall i, j :: 0 <= i < j < |l| ==> !RanksAbove(l[j].profile, l[i].profile)
  {
    var l := WaitingList(profiles, assignments, prefs);
    SortSorted(WaitingRows(NotAssigned(profiles, AssignedUserIds(assignments)), prefs), WaitingKey);
    assert forall i, j :: 0 <= i < j < |l| ==> KeyLe(WaitingKey(l[i]), WaitingKey(l[j]));
  }

  lemma {:induction false} SplitLength(profiles: seq<Profile>, ids: set<UserId>)
    ensures |NotAssigned(profiles, ids)| + |Assigned(profiles, ids)| == |profiles|
  {
    if profiles != [] {
      SplitLength(profiles[..|profiles| - 1], ids);
    }
  }

  lemma {:induction false} AssignedDistinct(profiles: seq<Profile>, ids: set<UserId>)
    requires Distinct(ProfileIds(profiles))
    ensures Distinct(ProfileIds(Assigned(profiles, ids)))
  {
    if profiles != [] {
      var init, last := profiles[..|profiles| - 1], profiles[|profiles| - 1];
      MapAppend(init, [last], IdOf);
      assert profiles == init + [last];
      assert Distinct(ProfileIds(init)) by {
        forall i, j | 0 <= i < j < |init| ensures ProfileIds(init)[i] != ProfileIds(init)[j] {
          assert ProfileIds(profiles)[i] != ProfileIds(profiles)[j];
        }
      }
      AssignedDistinct(init, ids);
      var a := Assigned(init, ids);
      if last.id in ids {
        MapAppend(a, [last], IdOf);
        forall i | 0 <= i < |a| ensures a[i].id != last.id {
          assert a[i] in init;
          var k :| 0 <= k < |init| && init[k] == a[i];
          assert ProfileIds(profiles)[k] != ProfileIds(profiles)[|init|];
        }
      }
    }
  }

  function UserOfAssignment(a: Assignment): UserId {
    a.userId
  }

  /** With distinct ids on both sides, the profiles some assignment names are as many as
      the assignments. */
  lemma AssignedCount(profiles: seq<Profile>, assignments: seq<Assignment>)
    requires Distinct(ProfileIds(profiles))
    requires Distinct(MapSeq(assignments, UserOfAssignment))
    requires forall a :: a in assignments ==> exists p :: p in profiles && p.id == a.userId
    ensures |Assigned(profiles, AssignedUserIds(assignments))| == |assignments|
  {
    var takenIds := ProfileIds(Assigned(profiles, AssignedUserIds(assignments)));
    var users := MapSeq(assignments, UserOfAssignment);
    AssignedDistinct(profiles, AssignedUserIds(assignments));
    AssignedIdsNamed(profiles, assignments);
    NamedIdsAssigned(profiles, assignments);
    DistinctSubsetLength(takenIds, users);
    DistinctSubsetLength(users, takenIds);
  }

  /** Every profile some assignment names has its id among the assignments' user ids. */
  lemma AssignedIdsNamed(profiles: seq<Profile>, assignments: seq<Assignment>)
    ensures forall x :: x in ProfileIds(Assigned(profiles, AssignedUserIds(assignments))) ==>
      x in MapSeq(assignments, UserOfAssignment)
  {
    var taken := Assigned(profiles, AssignedUserIds(assignments));
    var takenIds := ProfileIds(taken);
    var users := MapSeq(assignments, UserOfAssignment);
    forall x | x in takenIds ensures x in users {
      var k :| 0 <= k < |taken| && takenIds[k] == x;
      assert taken[k].id in AssignedUserIds(assignments);
      var m :| 0 <= m < |assignments| && assignments[m].userId == x;
      assert users[m] == x;
    }
  }

  /** Every user id an assignment carries belongs to a profile that assignment names. */
  lemma NamedIdsAssigned(profiles: seq<Profile>, assignments: seq<Assignment>)
    requires forall a :: a in assignments ==> exists p :: p in profiles && p.id == a.userId
    ensures forall x :: x in MapSeq(assignments, UserOfAssignment) ==>
      x in ProfileIds(Assigned(profiles, AssignedUserIds(assignments)))
  {
    var taken := Assigned(profiles, AssignedUserIds(assignments));
    var takenIds := ProfileIds(taken);
    var users := MapSeq(assignments, UserOfAssignment);
    forall x | x in users ensures x in takenIds {
      var m :| 0 <= m < |users| && users[m] == x;
      assert assignments[m] in assignments;
      var p :| p in profiles && p.id == assignments[m].userId;
      assert p in taken;
      var k :| 0 <= k < |taken| && taken[k] == p;
      assert takenIds[k] == x;
    }
  }

  /** Every candidate appears on the page exactly once: when profile ids are distinct, no
      two assignments name the same candidate and every assignment names a candidate, the
      placed table and the waiting list together have one row per profile. */
  lemma EveryoneListedOnce(profiles: seq<Profile>, assignments: seq<Assignment>, cities: seq<City>, prefs: seq<Preference>)
    requires Distinct(ProfileIds(profiles))
    requires Distinct(MapSeq(assignments, UserOfAssignment))
    requires forall a :: a in assignments ==> exists p :: p in profiles && p.id == a.userId
    ensures |PlacedTable(assignments, profiles, cities, prefs)| + |WaitingList(profiles, assignments, prefs)| == |profiles|
  {
    var ids := AssignedUserIds(assignments);
    var kept := NotAssigned(profiles, ids);
    SplitLength(profiles, ids);
    AssignedCount(profiles, assignments);
    SortLength(EnrichAll(assignments, profiles, cities, prefs), RowKey);
    SortLength(WaitingRows(kept, prefs), WaitingKey);
  }

  /** `getMyRank`: `idx + 1` for the user's position `idx` in the ranking, or `null`. */
  function GetMyRank(profiles: seq<Profile>, me: Option<UserId>): (r: Option<nat>)
    ensures r.Some? ==> me.Some? && 1 <= r.value <= |profiles| && profiles[r.value - 1].id == me.value
    ensures r.Some? ==> forall i :: 0 <= i < r.value - 1 ==> profiles[i].id != me.value
    ensures r.None? <==> me.None? || forall i :: 0 <= i < |profiles| ==> profiles[i].id != me.value
  {
    if me.None? then None
    else match FindIndex(profiles, IdOf, me.value)
      case Some(idx) => Some(idx + 1)
      case None => None
  }

  /** The results page and the dashboard show the same rank: `getMyRank` is `null` exactly
      where the dashboard's `myRank` is 0, and equal to it otherwise. */
  lemma RankAgreesWithDashboard(profiles: seq<Profile>, me: Option<UserId>)
    ensures GetMyRank(profiles, me) == if MyRank(profiles, me) == 0 then None else Some(MyRank(profiles, me))
  {
  }

  /** The number of rows of kind `t` (`assignments.filter(a => a.assignment_type === t).length`). */
  function CountType(rows: seq<PlacedRow>, t: AssignmentType): nat {
    if rows == [] then 0
    else CountType(rows[..|rows| - 1], t) + (if rows[|rows| - 1].assignment.assignmentType == t then 1 else 0)
  }

  /** The summary cards: "by preference" plus "by lottery" is at most the total, and equal
      to it when no stored row is of kind unassigned. */
  lemma {:induction false} CountsAddUp(rows: seq<PlacedRow>)
    ensures CountType(rows, ByPreference) + CountType(rows, ByLottery) + CountType(rows, Unassigned) == |rows|
    ensures CountType(rows, ByPreference) + CountType(rows, ByLottery) <= |rows|
    ensures (forall i :: 0 <= i < |rows| ==> rows[i].assignment.assignmentType != Unassigned) ==>
      CountType(rows, ByPreference) + CountType(rows, ByLottery) == |rows|
  {
    if rows != [] {
      CountsAddUp(rows[..|rows| - 1]);
    }
  }

  /** `sortedPrefs`: a row's preference entries by ascending priority. */
  function DisplayedPreferences(entries: seq<Preference>): seq<Preference> {
    Sort(entries, PriorityKey)
  }

  /** The preferences shown for a candidate are exactly that candidate's entries, each as
      often as stored, by ascending priority. */
  lemma DisplayedPreferencesSpec(prefs: seq<Preference>, u: UserId)
    ensures multiset(DisplayedPreferences(OfUser(prefs, u))) == multiset(OfUser(prefs, u))
    ensures forall e :: e in DisplayedPreferences(OfUser(prefs, u)) <==> e in prefs && e.userId == u
    ensures var d := DisplayedPreferences(OfUser(prefs, u));
      forall i, j :: 0 <= i < j < |d| ==> d[i].priority <= d[j].priority
  {
    var d := DisplayedPreferences(OfUser(prefs, u));
    forall e ensures e in d <==> e in prefs && e.userId == u {
      assert e in d <==> e in multiset(d);
    }
    SortSorted(OfUser(prefs, u), PriorityKey);
    assert forall i, j :: 0 <= i < j < |d| ==> KeyLe(PriorityKey(d[i]), PriorityKey(d[j]));
  }
}
