/** What `runPlacementAlgorithm` (src/lib/algorithm.ts:17-104) computes, written as
    functions over values. The imperative method in module Algorithm is proved to return
    exactly `Outcome`, and module PlacementProperties proves what `Outcome` guarantees. */
module PlacementSpec {
  import opened Wrappers
  import opened Seqs
  import opened StableSort
  import opened Domain
  import opened Shuffle

  /** The ids of the cities marked available, each once, in first-seen order: the iteration
      order of `new Set(cities.filter(c => c.is_available).map(c => c.id))`. */
  function AvailableCityIds(cities: seq<City>): (ids: seq<CityId>)
    ensures Distinct(ids)
    ensures forall c :: c in ids <==> exists i :: 0 <= i < |cities| && cities[i].isAvailable && cities[i].id == c
  {
    if cities == [] then []
    else
      var init, last := cities[..|cities| - 1], cities[|cities| - 1];
      var ids := AvailableCityIds(init);
      assert forall i :: 0 <= i < |init| ==> init[i] == cities[i];
      if last.isAvailable && last.id !in ids then ids + [last.id] else ids
  }

  /** The engine's comparator `(a, b) => b.final_score - a.final_score`: score only,
      highest first. */
  function EngineKey(p: Profile): Key {
    Key(-p.finalScore, 0)
  }

  /** The comparator `(a, b) => a.priority - b.priority`: lowest priority first. */
  function PriorityKey(pref: Preference): Key {
    Key(pref.priority, 0)
  }

  /** The profiles in the order the engine visits them. */
  function ProcessingOrder(profiles: seq<Profile>): seq<Profile> {
    Sort(profiles, EngineKey)
  }

  /** The entries of `prefs` that belong to user `u`, in input order: the group the source
      builds in `preferencesByUser`. */
  function OfUser(prefs: seq<Preference>, u: UserId): (r: seq<Preference>)
    ensures forall x :: x in r <==> x in prefs && x.userId == u
  {
    if prefs == [] then []
    else
      var init, last := prefs[..|prefs| - 1], prefs[|prefs| - 1];
      assert prefs == init + [last];
      OfUser(init, u) + (if last.userId == u then [last] else [])
  }

  /** User `u`'s preference list as the engine scans it: by ascending priority. */
  function UserPreferences(prefs: seq<Preference>, u: UserId): seq<Preference> {
    Sort(OfUser(prefs, u), PriorityKey)
  }

  /** The position of the first entry of `list` whose city is still available. */
  function FirstFree(list: seq<Preference>, available: seq<CityId>): (r: Option<nat>)
    ensures r.Some? ==> r.value < |list| && list[r.value].cityId in available
    ensures forall i :: 0 <= i < |list| && (r.None? || i < r.value) ==> list[i].cityId !in available
  {
    if list == [] then None
    else if list[0].cityId in available then Some(0)
    else match FirstFree(list[1..], available)
      case Some(i) => Some(i + 1)
      case None => None
  }

  /** The engine's state between two profiles: the cities still free, the results pushed so
      far and the lottery pool. */
  datatype PassState = PassState(available: seq<CityId>, results: seq<AssignmentResult>, pool: seq<Profile>)

  /** One iteration of the main loop (lines 45-76): take the first free preferred city;
      otherwise join the lottery pool or be recorded as unassigned. */
  function Visit(st: PassState, p: Profile, prefs: seq<Preference>): PassState {
    var list := UserPreferences(prefs, p.id);
    match FirstFree(list, st.available)
    case Some(i) =>
      var pref := list[i];
      PassState(
        Without(st.available, pref.cityId),
        st.results + [AssignmentResult(p.id, Some(pref.cityId), ByPreference, Some(pref.priority))],
        st.pool)
    case None =>
      if p.wantsLottery then st.(pool := st.pool + [p])
      else st.(results := st.results + [AssignmentResult(p.id, None, Unassigned, None)])
  }

  /** The main loop run over `order`, starting from the cities `initial`. */
  function Pass(order: seq<Profile>, prefs: seq<Preference>, initial: seq<CityId>): PassState {
    if order == [] then PassState(initial, [], [])
    else Visit(Pass(order[..|order| - 1], prefs, initial), order[|order| - 1], prefs)
  }

  /** Lines 84-101: pool member i gets the i-th remaining city while there is one, and is
      unassigned after that. */
  function LotteryResults(pool: seq<Profile>, remaining: seq<CityId>): seq<AssignmentResult> {
    seq(|pool|, i requires 0 <= i < |pool| =>
      if i < |remaining| then AssignmentResult(pool[i].id, Some(remaining[i]), ByLottery, None)
      else AssignmentResult(pool[i].id, None, Unassigned, None))
  }

  /** The whole engine: results of the preference pass, then those of the lottery over the
      shuffled pool and the cities left over. */
  function Outcome(profiles: seq<Profile>, cities: seq<City>, prefs: seq<Preference>, draw: nat -> nat): seq<AssignmentResult> {
    var st := Pass(ProcessingOrder(profiles), prefs, AvailableCityIds(cities));
    st.results + LotteryResults(FisherYates(st.pool, draw), st.available)
  }

  function UserOf(r: AssignmentResult): UserId {
    r.userId
  }

  /** The user ids of `results`, in order. */
  function UserIds(results: seq<AssignmentResult>): seq<UserId> {
    MapSeq(results, UserOf)
  }

  /** The profiles with final score `v`, in their order in `s`. */
  function WithScore(s: seq<Profile>, v: int): seq<Profile> {
    Select(s, EngineKey, Key(-v, 0))
  }

  /** The number of results of kind `kind`. */
  function CountKind(results: seq<AssignmentResult>, kind: AssignmentType): nat {
    if results == [] then 0
    else CountKind(results[..|results| - 1], kind) + (if results[|results| - 1].kind == kind then 1 else 0)
  }

  /** The city ids of the results that carry one, in result order. */
  function CityIds(results: seq<AssignmentResult>): seq<CityId> {
    if results == [] then []
    else
      var init, last := results[..|results| - 1], results[|results| - 1];
      CityIds(init) + (if last.cityId.Some? then [last.cityId.value] else [])
  }
}
