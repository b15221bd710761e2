/** src/lib/algorithm.ts: the placement engine and the final-score formula. The engine's
    phases are separate methods here so that each loop is proved on its own; together they
    are the body of `runPlacementAlgorithm`. */
module Algorithm {
  import opened Wrappers
  import opened Seqs
  import opened StableSort
  import opened Domain
  import opened Shuffle
  import opened PlacementSpec
  import opened PlacementProperties

  /** `runPlacementAlgorithm`: visits the profiles by descending final score, gives each the
      first city of its priority-ordered preference list that is still free, pools the
      lottery volunteers that got none, shuffles the pool with `draw` and hands them the
      leftover cities in set order. */
  method RunPlacementAlgorithm(profiles: seq<Profile>, cities: seq<City>, preferences: seq<Preference>, draw: nat -> nat)
    returns (results: seq<AssignmentResult>)
    ensures results == Outcome(profiles, cities, preferences, draw)
    ensures multiset(UserIds(results)) == multiset(ProfileIds(profiles))
    ensures forall i :: 0 <= i < |results| && results[i].cityId.Some? ==> results[i].cityId.value in AvailableCityIds(cities)
    ensures CitiesUnique(results)
    ensures forall i :: 0 <= i < |results| ==> WellFormed(results[i], preferences, profiles)
  {
    var availableCities := AvailableCityIds(cities);
    var sortedProfiles := ProcessingOrder(profiles);
    var preferencesByUser := GroupByUser(preferences);
    preferencesByUser := SortGroups(preferencesByUser, preferences);
    var pool;
    results, availableCities, pool := PreferencePass(sortedProfiles, preferencesByUser, preferences, availableCities);

    var lotteryPool := new Profile[|pool|](i requires 0 <= i < |pool| => pool[i]);
    assert lotteryPool[..] == pool;
    ShuffleInPlace(lotteryPool, draw);

    var remainingCities := availableCities;
    var lottery := AssignLottery(lotteryPool, remainingCities);
    results := results + lottery;
    OutcomeOnePerProfile(profiles, cities, preferences, draw);
    OutcomeCities(profiles, cities, preferences, draw);
    OutcomeWellFormed(profiles, cities, preferences, draw);
  }

  /** `byUser` maps exactly the users that have entries to their entries in input order. */
  ghost predicate GroupedByUser(byUser: map<UserId, seq<Preference>>, preferences: seq<Preference>) {
    && (forall u :: u in byUser <==> OfUser(preferences, u) != [])
    && (forall u :: u in byUser ==> byUser[u] == OfUser(preferences, u))
  }

  /** `byUser` maps exactly the users that have entries to their priority-ordered lists. */
  ghost predicate SortedByUser(byUser: map<UserId, seq<Preference>>, preferences: seq<Preference>) {
    && (forall u :: u in byUser <==> OfUser(preferences, u) != [])
    && (forall u :: u in byUser ==> byUser[u] == UserPreferences(preferences, u))
  }

  /** `preferencesByUser.get(u) || []`. */
  method LookUp(preferencesByUser: map<UserId, seq<Preference>>, ghost preferences: seq<Preference>, u: UserId)
    returns (userPrefs: seq<Preference>)
    requires SortedByUser(preferencesByUser, preferences)
    ensures userPrefs == UserPreferences(preferences, u)
  {
    userPrefs := if u in preferencesByUser then preferencesByUser[u] else [];
  }

  /** Lines 30-36: the map from user id to that user's entries, in input order. */
  method GroupByUser(preferences: seq<Preference>) returns (byUser: map<UserId, seq<Preference>>)
    ensures GroupedByUser(byUser, preferences)
  {
    byUser := map[];
    for k := 0 to |preferences|
      invariant forall u :: u in byUser <==> OfUser(preferences[..k], u) != []
      invariant forall u :: u in byUser ==> byUser[u] == OfUser(preferences[..k], u)
    {
      var pref := preferences[k];
      assert preferences[..k + 1] == preferences[..k] + [pref];
      OfUserSnoc(preferences[..k], pref);
      if pref.userId !in byUser {
        byUser := byUser[pref.userId := []];
      }
      byUser := byUser[pref.userId := byUser[pref.userId] + [pref]];
    }
    assert preferences[..|preferences|] == preferences;
  }

  /** One more entry joins its own user's group and no other. */
  lemma OfUserSnoc(prefix: seq<Preference>, pref: Preference)
    ensures forall u :: OfUser(prefix + [pref], u) == OfUser(prefix, u) + (if pref.userId == u then [pref] else [])
  {
    var next := prefix + [pref];
    assert next[..|next| - 1] == prefix && next[|next| - 1] == pref;
  }

  /** Lines 39-42: each user's entries sorted by ascending priority. */
  method SortGroups(groups: map<UserId, seq<Preference>>, ghost preferences: seq<Preference>)
    returns (byUser: map<UserId, seq<Preference>>)
    requires GroupedByUser(groups, preferences)
    ensures SortedByUser(byUser, preferences)
  {
    byUser := groups;
    var pending := byUser.Keys;
    while pending != {}
      invariant pending <= byUser.Keys == groups.Keys
      invariant forall u :: u in pending ==> byUser[u] == groups[u]
      invariant forall u :: u in byUser && u !in pending ==> byUser[u] == Sort(groups[u], PriorityKey)
      decreases pending
    {
      var userId :| userId in pending;
      byUser := byUser[userId := Sort(groups[userId], PriorityKey)];
      pending := pending - {userId};
    }
    SortedGroups(groups, byUser, preferences);
  }

  /** Sorting every group of a grouping gives each user's priority-ordered list. */
  lemma SortedGroups(groups: map<UserId, seq<Preference>>, byUser: map<UserId, seq<Preference>>, preferences: seq<Preference>)
    requires GroupedByUser(groups, preferences)
    requires byUser.Keys == groups.Keys
    requires forall u :: u in byUser ==> byUser[u] == Sort(groups[u], PriorityKey)
    ensures SortedByUser(byUser, preferences)
  {
    forall u | u in byUser ensures byUser[u] == UserPreferences(preferences, u) {
      assert groups[u] == OfUser(preferences, u);
    }
  }

  /** Lines 45-76: the main loop over the sorted profiles. */
  method PreferencePass(
    sortedProfiles: seq<Profile>,
    preferencesByUser: map<UserId, seq<Preference>>,
    ghost preferences: seq<Preference>,
    initial: seq<CityId>)
    returns (results: seq<AssignmentResult>, availableCities: seq<CityId>, pool: seq<Profile>)
    requires SortedByUser(preferencesByUser, preferences)
    ensures PassState(availableCities, results, pool) == Pass(sortedProfiles, preferences, initial)
  {
    results, availableCities, pool := [], initial, [];
    for k := 0 to |sortedProfiles|
      invariant PassState(availableCities, results, pool) == Pass(sortedProfiles[..k], preferences, initial)
    {
      ghost var next := sortedProfiles[..k + 1];
      assert next[..|next| - 1] == sortedProfiles[..k] && next[|next| - 1] == sortedProfiles[k];
      var userPrefs := LookUp(preferencesByUser, preferences, sortedProfiles[k].id);
      results, availableCities, pool := VisitProfile(sortedProfiles[k], userPrefs, preferences, results, availableCities, pool);
    }
    assert sortedProfiles[..|sortedProfiles|] == sortedProfiles;
  }

  /** Lines 46-75, one profile: scan its list for a city still in the set; on a hit push a
      'preference' result and delete the city; on a miss join the pool or push 'unassigned'. */
  method VisitProfile(
    profile: Profile,
    userPrefs: seq<Preference>,
    ghost preferences: seq<Preference>,
    results0: seq<AssignmentResult>,
    availableCities0: seq<CityId>,
    pool0: seq<Profile>)
    returns (results: seq<AssignmentResult>, availableCities: seq<CityId>, pool: seq<Profile>)
    requires userPrefs == UserPreferences(preferences, profile.id)
    ensures PassState(availableCities, results, pool)
         == Visit(PassState(availableCities0, results0, pool0), profile, preferences)
  {
    results, availableCities, pool := results0, availableCities0, pool0;
    var placed := false;
    var t := 0;
    while t < |userPrefs|
      invariant 0 <= t <= |userPrefs|
      invariant !placed && results == results0 && availableCities == availableCities0 && pool == pool0
      invariant forall i :: 0 <= i < t ==> userPrefs[i].cityId !in availableCities0
    {
      var pref := userPrefs[t];
      if pref.cityId in availableCities {
        results := results + [AssignmentResult(profile.id, Some(pref.cityId), ByPreference, Some(pref.priority))];
        availableCities := Without(availableCities, pref.cityId);
        placed := true;
        FirstFreeAt(userPrefs, availableCities0, t);
        break;
      }
      t := t + 1;
    }
    if !placed {
      FirstFreeAt(userPrefs, availableCities0, |userPrefs|);
      if profile.wantsLottery {
        pool := pool + [profile];
      } else {
        results := results + [AssignmentResult(profile.id, None, Unassigned, None)];
      }
    }
  }

  /** The scan stops at the first entry whose city is free, or finds none. */
  lemma FirstFreeAt(list: seq<Preference>, available: seq<CityId>, t: nat)
    requires t <= |list|
    requires t < |list| ==> list[t].cityId in available
    requires forall i :: 0 <= i < t ==> list[i].cityId !in available
    ensures FirstFree(list, available) == if t < |list| then Some(t) else None
  {
    var r := FirstFree(list, available);
    assert r.Some? ==> r.value < |list| && list[r.value].cityId in available;
  }

  /** Lines 85-101: pool member i takes the i-th remaining city while there is one; the
      members left over are unassigned. */
  method AssignLottery(lotteryPool: array<Profile>, remainingCities: seq<CityId>)
    returns (results: seq<AssignmentResult>)
    ensures results == LotteryResults(lotteryPool[..], remainingCities)
  {
    ghost var lottery := LotteryResults(lotteryPool[..], remainingCities);
    results := [];
    var i := 0;
    while i < lotteryPool.Length && i < |remainingCities|
      invariant 0 <= i <= lotteryPool.Length && i <= |remainingCities|
      invariant results == lottery[..i]
    {
      results := results + [AssignmentResult(lotteryPool[i].id, Some(remainingCities[i]), ByLottery, None)];
      assert lottery[..i + 1] == lottery[..i] + [lottery[i]];
      i := i + 1;
    }
    i := |remainingCities|;
    while i < lotteryPool.Length
      invariant |remainingCities| <= i
      invariant i <= lotteryPool.Length ==> results == lottery[..i]
      invariant i > lotteryPool.Length ==> results == lottery
    {
      results := results + [AssignmentResult(lotteryPool[i].id, None, Unassigned, None)];
      assert lottery[..i + 1] == lottery[..i] + [lottery[i]];
      i := i + 1;
    }
    assert results == lottery;
  }

  /** `calculateFinalScore`: the mean of the written and interview scores rounded to two
      decimals. In hundredths the mean is (written + interview) / 2, so only an odd sum needs
      rounding; `toFixed(2)` rounds the magnitude and takes the larger candidate on a tie,
      which is rounding half away from zero. */
  function CalculateFinalScore(written: int, interview: int): (r: int)
    ensures -1 <= 2 * r - (written + interview) <= 1
    ensures 2 * r - (written + interview) == 1 ==> written + interview >= 0
    ensures 2 * r - (written + interview) == -1 ==> written + interview < 0
  {
    var sum := written + interview;
    if sum >= 0 then (sum + 1) / 2 else -((-sum + 1) / 2)
  }

  /** The formula does not depend on which score is which. */
  lemma FinalScoreSymmetric(written: int, interview: int)
    ensures CalculateFinalScore(written, interview) == CalculateFinalScore(interview, written)
  {
  }

  /** Scores the registration form accepts (0 to 100 each) give a final score in 0..100. */
  lemma FinalScoreInRange(written: int, interview: int)
    requires 0 <= written <= 10000 && 0 <= interview <= 10000
    ensures 0 <= CalculateFinalScore(written, interview) <= 10000
    ensures CalculateFinalScore(written, interview) <= (if written < interview then interview else written)
    ensures CalculateFinalScore(written, interview) >= (if written < interview then written else interview)
  {
  }

  /** Two examples: 95 and 90 give 92.50; 87 and 86 give 86.50; 87 and 86.25 round up to 86.63. */
  lemma FinalScoreExamples()
    ensures CalculateFinalScore(9500, 9000) == 9250
    ensures CalculateFinalScore(8700, 8600) == 8650
    ensures CalculateFinalScore(8700, 8625) == 8663
  {
  }
}
