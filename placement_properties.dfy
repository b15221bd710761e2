/** What the placement engine guarantees, proved about `PlacementSpec.Outcome` (and so about
    `Algorithm.RunPlacementAlgorithm`, which returns it). */
module PlacementProperties {
  import opened Wrappers
  import opened Seqs
  import opened StableSort
  import opened Domain
  import opened Shuffle
  import opened PlacementSpec

  /** Some result carries city `c`. */
  ghost predicate HasCity(results: seq<AssignmentResult>, c: CityId) {
    exists i :: 0 <= i < |results| && results[i].cityId == Some(c)
  }

  /** No city is carried by two results. */
  ghost predicate CitiesUnique(results: seq<AssignmentResult>) {
    forall i, j :: 0 <= i < j < |results| && results[i].cityId.Some? ==> results[i].cityId != results[j].cityId
  }

  /** The shape every result has: a city exactly when not unassigned; a preference order
      exactly for preference results, naming a real entry of that user's list; a lottery
      result only for a candidate who asked for the lottery. */
  ghost predicate WellFormed(r: AssignmentResult, prefs: seq<Preference>, profiles: seq<Profile>) {
    && (r.kind == Unassigned <==> r.cityId.None?)
    && (r.kind == ByPreference <==> r.preferenceOrder.Some?)
    && (r.kind == ByPreference ==>
          exists e :: e in prefs && e.userId == r.userId && Some(e.cityId) == r.cityId && Some(e.priority) == r.preferenceOrder)
    && (r.kind == ByLottery ==> exists p :: p in profiles && p.id == r.userId && p.wantsLottery)
  }

  /** The cities: those still free are distinct initial cities, those claimed are claimed
      once, are no longer free, and every initial city is one or the other. */
  ghost predicate CityInv(st: PassState, initial: seq<CityId>) {
    && Distinct(st.available)
    && (forall c :: c in st.available ==> c in initial)
    && CitiesUnique(st.results)
    && (forall i :: 0 <= i < |st.results| && st.results[i].cityId.Some? ==>
          st.results[i].cityId.value in initial && st.results[i].cityId.value !in st.available)
    && (forall c :: c in initial && c !in st.available ==> HasCity(st.results, c))
  }

  /** The profiles: every visited profile has exactly one result or one place in the pool. */
  ghost predicate CountInv(st: PassState, processed: seq<Profile>) {
    && multiset(UserIds(st.results)) + multiset(ProfileIds(st.pool)) == multiset(ProfileIds(processed))
    && (forall p :: p in st.pool ==> p.wantsLottery && p in processed)
  }

  /** The results of the main loop are well formed and none of them is a lottery result. */
  ghost predicate ShapeInv(st: PassState, prefs: seq<Preference>, processed: seq<Profile>) {
    forall i :: 0 <= i < |st.results| ==> st.results[i].kind != ByLottery && WellFormed(st.results[i], prefs, processed)
  }

  ghost predicate PassInv(st: PassState, processed: seq<Profile>, prefs: seq<Preference>, initial: seq<CityId>) {
    CityInv(st, initial) && CountInv(st, processed) && ShapeInv(st, prefs, processed)
  }

  lemma UserPreferencesOfUser(prefs: seq<Preference>, u: UserId, e: Preference)
    requires e in UserPreferences(prefs, u)
    ensures e in prefs && e.userId == u
  {
    assert e in multiset(Sort(OfUser(prefs, u), PriorityKey));
  }

  lemma VisitCityInv(st: PassState, p: Profile, prefs: seq<Preference>, initial: seq<CityId>)
    requires CityInv(st, initial)
    ensures CityInv(Visit(st, p, prefs), initial)
  {
    var list := UserPreferences(prefs, p.id);
    match FirstFree(list, st.available)
    case Some(m) =>
      ClaimCityInv(st, list[m].cityId, AssignmentResult(p.id, Some(list[m].cityId), ByPreference, Some(list[m].priority)), initial);
    case None =>
      if !p.wantsLottery {
        NoCityInv(st, AssignmentResult(p.id, None, Unassigned, None), initial);
      }
  }

  /** A result claiming the free city `c` keeps the city invariant once `c` is withdrawn. */
  lemma ClaimCityInv(st: PassState, c: CityId, r: AssignmentResult, initial: seq<CityId>)
    requires CityInv(st, initial)
    requires c in st.available && r.cityId == Some(c)
    ensures CityInv(PassState(Without(st.available, c), st.results + [r], st.pool), initial)
  {
    var next := PassState(Without(st.available, c), st.results + [r], st.pool);
    WithoutDistinct(st.available, c);
    forall x | x in initial && x !in next.available ensures HasCity(next.results, x) {
      if x == c {
        assert next.results[|st.results|].cityId == Some(c);
      } else {
        assert HasCity(st.results, x);
        var i :| 0 <= i < |st.results| && st.results[i].cityId == Some(x);
        assert next.results[i].cityId == Some(x);
      }
    }
  }

  /** A result without a city keeps the city invariant. */
  lemma NoCityInv(st: PassState, r: AssignmentResult, initial: seq<CityId>)
    requires CityInv(st, initial)
    requires r.cityId.None?
    ensures CityInv(st.(results := st.results + [r]), initial)
  {
    var next := st.(results := st.results + [r]);
    forall x | x in initial && x !in next.available ensures HasCity(next.results, x) {
      assert HasCity(st.results, x);
      var i :| 0 <= i < |st.results| && st.results[i].cityId == Some(x);
      assert next.results[i].cityId == Some(x);
    }
  }

  lemma VisitCountInv(st: PassState, processed: seq<Profile>, p: Profile, prefs: seq<Preference>)
    requires CountInv(st, processed)
    ensures CountInv(Visit(st, p, prefs), processed + [p])
  {
    var list := UserPreferences(prefs, p.id);
    match FirstFree(list, st.available)
    case Some(m) =>
      CountAddResult(st, processed, p, Without(st.available, list[m].cityId),
        AssignmentResult(p.id, Some(list[m].cityId), ByPreference, Some(list[m].priority)));
    case None =>
      if p.wantsLottery {
        CountAddPool(st, processed, p);
      } else {
        CountAddResult(st, processed, p, st.available, AssignmentResult(p.id, None, Unassigned, None));
      }
  }

  /** A visited profile that gets a result is counted once. */
  lemma CountAddResult(st: PassState, processed: seq<Profile>, p: Profile, available: seq<CityId>, r: AssignmentResult)
    requires CountInv(st, processed)
    requires r.userId == p.id
    ensures CountInv(PassState(available, st.results + [r], st.pool), processed + [p])
  {
    MapAppend(processed, [p], IdOf);
    MapAppend(st.results, [r], UserOf);
  }

  /** A visited profile that joins the lottery pool is counted once. */
  lemma CountAddPool(st: PassState, processed: seq<Profile>, p: Profile)
    requires CountInv(st, processed)
    requires p.wantsLottery
    ensures CountInv(st.(pool := st.pool + [p]), processed + [p])
  {
    MapAppend(processed, [p], IdOf);
    MapAppend(st.pool, [p], IdOf);
  }

  lemma VisitShapeInv(st: PassState, processed: seq<Profile>, p: Profile, prefs: seq<Preference>)
    requires ShapeInv(st, prefs, processed)
    ensures ShapeInv(Visit(st, p, prefs), prefs, processed + [p])
  {
    var list := UserPreferences(prefs, p.id);
    var next := Visit(st, p, prefs);
    var processed' := processed + [p];
    forall i | 0 <= i < |next.results|
      ensures next.results[i].kind != ByLottery && WellFormed(next.results[i], prefs, processed')
    {
      if i < |st.results| {
        assert next.results[i] == st.results[i];
        assert WellFormed(st.results[i], prefs, processed);
      } else {
        match FirstFree(list, st.available)
        case Some(m) =>
          UserPreferencesOfUser(prefs, p.id, list[m]);
        case None =>
      }
    }
  }

  lemma VisitInv(st: PassState, processed: seq<Profile>, p: Profile, prefs: seq<Preference>, initial: seq<CityId>)
    requires PassInv(st, processed, prefs, initial)
    ensures PassInv(Visit(st, p, prefs), processed + [p], prefs, initial)
  {
    VisitCityInv(st, p, prefs, initial);
    VisitCountInv(st, processed, p, prefs);
    VisitShapeInv(st, processed, p, prefs);
  }

  /** The main loop keeps the cities free or claimed once, and accounts for every visited
      profile exactly once, by a result or by a place in the pool. */
  lemma {:induction false} PassInvariant(order: seq<Profile>, prefs: seq<Preference>, initial: seq<CityId>)
    requires Distinct(initial)
    ensures PassInv(Pass(order, prefs, initial), order, prefs, initial)
  {
    if order == [] {
      assert ProfileIds(order) == [];
    } else {
      var init := order[..|order| - 1];
      PassInvariant(init, prefs, initial);
      assert init + [order[|order| - 1]] == order;
      VisitInv(Pass(init, prefs, initial), init, order[|order| - 1], prefs, initial);
    }
  }

  /** The lottery's results name the pool's members in pool order. */
  lemma LotteryUsers(pool: seq<Profile>, remaining: seq<CityId>)
    ensures UserIds(LotteryResults(pool, remaining)) == ProfileIds(pool)
  {
  }

  /** Every candidate gets exactly one result: the results' user ids are the input profiles'
      ids, with the same multiplicities, so there are as many results as profiles (and none
      for an empty input). */
  lemma OutcomeOnePerProfile(profiles: seq<Profile>, cities: seq<City>, prefs: seq<Preference>, draw: nat -> nat)
    ensures multiset(UserIds(Outcome(profiles, cities, prefs, draw))) == multiset(ProfileIds(profiles))
    ensures |Outcome(profiles, cities, prefs, draw)| == |profiles|
  {
    var order := ProcessingOrder(profiles);
    var initial := AvailableCityIds(cities);
    var st := Pass(order, prefs, initial);
    PassInvariant(order, prefs, initial);
    var shuffled := FisherYates(st.pool, draw);
    var lottery := LotteryResults(shuffled, st.available);
    var r := st.results + lottery;
    assert r == Outcome(profiles, cities, prefs, draw);
    LotteryUsers(shuffled, st.available);
    FisherYatesMap(st.pool, IdOf, draw);
    FisherYatesPermutation(ProfileIds(st.pool), draw);
    MapAppend(st.results, lottery, UserOf);
    MapMultiset(order, profiles, IdOf);
    calc {
      multiset(UserIds(r));
      multiset(UserIds(st.results)) + multiset(UserIds(lottery));
      multiset(UserIds(st.results)) + multiset(ProfileIds(st.pool));
      multiset(ProfileIds(order));
      multiset(ProfileIds(profiles));
    }
    assert |r| == |UserIds(r)| == |multiset(UserIds(r))| == |multiset(ProfileIds(profiles))| == |profiles|;
  }

  /** With unique profile ids, every profile's id names exactly one result. */
  lemma OutcomeUniqueUsers(profiles: seq<Profile>, cities: seq<City>, prefs: seq<Preference>, draw: nat -> nat)
    requires Distinct(ProfileIds(profiles))
    ensures Distinct(UserIds(Outcome(profiles, cities, prefs, draw)))
    ensures forall p :: p in profiles ==> p.id in UserIds(Outcome(profiles, cities, prefs, draw))
  {
    var r := Outcome(profiles, cities, prefs, draw);
    OutcomeOnePerProfile(profiles, cities, prefs, draw);
    DistinctPermutation(UserIds(r), ProfileIds(profiles));
    forall p | p in profiles ensures p.id in UserIds(r) {
      var i :| 0 <= i < |profiles| && profiles[i] == p;
      assert ProfileIds(profiles)[i] == p.id;
      assert p.id in multiset(ProfileIds(profiles));
    }
  }

  /** Facts about the lottery's results, used by the lemmas below. */
  lemma LotteryCities(pool: seq<Profile>, remaining: seq<CityId>, i: nat)
    requires i < |pool|
    ensures LotteryResults(pool, remaining)[i].cityId.Some? <==> i < |remaining|
    ensures i < |remaining| ==> LotteryResults(pool, remaining)[i].cityId == Some(remaining[i])
  {
  }

  lemma LotteryCitiesInInitial(st: PassState, initial: seq<CityId>, pool: seq<Profile>)
    requires CityInv(st, initial)
    ensures var r := st.results + LotteryResults(pool, st.available);
      forall i :: 0 <= i < |r| && r[i].cityId.Some? ==> r[i].cityId.value in initial
  {
    var r := st.results + LotteryResults(pool, st.available);
    forall i | 0 <= i < |r| && r[i].cityId.Some? ensures r[i].cityId.value in initial {
      if |st.results| <= i {
        var k := i - |st.results|;
        assert r[i] == LotteryResults(pool, st.available)[k];
        LotteryCities(pool, st.available, k);
        var c := st.available[k];
        assert c in st.available;
        assert c in st.available ==> c in initial;
      } else {
        assert r[i] == st.results[i];
        assert st.results[i].cityId.value in initial;
      }
    }
  }

  lemma LotteryCitiesUnique(st: PassState, initial: seq<CityId>, pool: seq<Profile>)
    requires CityInv(st, initial)
    ensures CitiesUnique(st.results + LotteryResults(pool, st.available))
  {
    var r := st.results + LotteryResults(pool, st.available);
    var n := |st.results|;
    forall i, j | 0 <= i < j < |r| && r[i].cityId.Some? ensures r[i].cityId != r[j].cityId {
      if j < n {
        assert r[i] == st.results[i] && r[j] == st.results[j];
      } else if r[j].cityId.Some? {
        LotteryCities(pool, st.available, j - n);
        if i < n {
          assert r[i] == st.results[i];
        } else {
          LotteryCities(pool, st.available, i - n);
        }
      }
    }
  }

  /** Every city handed out is a city marked available, and no city is handed out twice. */
  lemma OutcomeCities(profiles: seq<Profile>, cities: seq<City>, prefs: seq<Preference>, draw: nat -> nat)
    ensures forall i :: 0 <= i < |Outcome(profiles, cities, prefs, draw)| && Outcome(profiles, cities, prefs, draw)[i].cityId.Some? ==>
      Outcome(profiles, cities, prefs, draw)[i].cityId.value in AvailableCityIds(cities)
    ensures CitiesUnique(Outcome(profiles, cities, prefs, draw))
  {
    var order := ProcessingOrder(profiles);
    var initial := AvailableCityIds(cities);
    var st := Pass(order, prefs, initial);
    PassInvariant(order, prefs, initial);
    var shuffled := FisherYates(st.pool, draw);
    assert Outcome(profiles, cities, prefs, draw) == st.results + LotteryResults(shuffled, st.available);
    LotteryCitiesInInitial(st, initial, shuffled);
    LotteryCitiesUnique(st, initial, shuffled);
  }

  /** Every result is well formed (see WellFormed): preference results name an entry of the
      user's own list with its priority, lottery results go only to volunteers, and exactly
      the unassigned results carry no city. */
  lemma OutcomeWellFormed(profiles: seq<Profile>, cities: seq<City>, prefs: seq<Preference>, draw: nat -> nat)
    ensures forall i :: 0 <= i < |Outcome(profiles, cities, prefs, draw)| ==>
      WellFormed(Outcome(profiles, cities, prefs, draw)[i], prefs, profiles)
  {
    var order := ProcessingOrder(profiles);
    var initial := AvailableCityIds(cities);
    var st := Pass(order, prefs, initial);
    PassShape(order, prefs, initial);
    var shuffled := FisherYates(st.pool, draw);
    FisherYatesPermutation(st.pool, draw);
    var lottery := LotteryResults(shuffled, st.available);
    var r := st.results + lottery;
    assert Outcome(profiles, cities, prefs, draw) == r;
    forall i | 0 <= i < |r| ensures WellFormed(r[i], prefs, profiles) {
      if i < |st.results| {
        assert r[i] == st.results[i];
        WellFormedTransfer(st.results[i], prefs, order, profiles);
      } else {
        assert r[i] == lottery[i - |st.results|];
        LotteryWellFormed(st.pool, shuffled, st.available, prefs, order, profiles, i - |st.results|);
      }
    }
  }

  /** The part of the pass invariant the shape of the results needs. */
  lemma PassShape(order: seq<Profile>, prefs: seq<Preference>, initial: seq<CityId>)
    requires Distinct(initial)
    ensures ShapeInv(Pass(order, prefs, initial), prefs, order)
    ensures forall p :: p in Pass(order, prefs, initial).pool ==> p.wantsLottery && p in order
  {
    PassInvariant(order, prefs, initial);
  }

  lemma WellFormedTransfer(r: AssignmentResult, prefs: seq<Preference>, order: seq<Profile>, profiles: seq<Profile>)
    requires order == ProcessingOrder(profiles)
    requires WellFormed(r, prefs, order)
    ensures WellFormed(r, prefs, profiles)
  {
    if r.kind == ByLottery {
      var p :| p in order && p.id == r.userId && p.wantsLottery;
      assert p in multiset(order);
    }
  }

  lemma LotteryWellFormed(pool: seq<Profile>, shuffled: seq<Profile>, remaining: seq<CityId>, prefs: seq<Preference>,
                          order: seq<Profile>, profiles: seq<Profile>, k: nat)
    requires order == ProcessingOrder(profiles)
    requires multiset(shuffled) == multiset(pool)
    requires forall p :: p in pool ==> p.wantsLottery && p in order
    requires k < |shuffled|
    ensures WellFormed(LotteryResults(shuffled, remaining)[k], prefs, profiles)
  {
    var p := shuffled[k];
    assert p in multiset(shuffled);
    assert p in pool by {
      assert p in multiset(pool);
    }
    assert p in multiset(order);
    assert p in profiles by {
      ProcessingOrderSorted(profiles);
    }
    assert LotteryResults(shuffled, remaining)[k].userId == p.id;
  }

  lemma {:induction false} CityIdsMembers(results: seq<AssignmentResult>, c: CityId)
    ensures c in CityIds(results) <==> HasCity(results, c)
  {
    if results != [] {
      var init, last := results[..|results| - 1], results[|results| - 1];
      CityIdsMembers(init, c);
      if HasCity(results, c) {
        var i :| 0 <= i < |results| && results[i].cityId == Some(c);
        if i < |init| {
          assert init[i].cityId == Some(c);
        }
      }
      if HasCity(init, c) {
        var i :| 0 <= i < |init| && init[i].cityId == Some(c);
        assert results[i].cityId == Some(c);
      }
    }
  }

  lemma {:induction false} CityIdsDistinct(results: seq<AssignmentResult>)
    requires CitiesUnique(results)
    ensures Distinct(CityIds(results))
  {
    if results != [] {
      var init, last := results[..|results| - 1], results[|results| - 1];
      assert CitiesUnique(init) by {
        forall i, j | 0 <= i < j < |init| && init[i].cityId.Some? ensures init[i].cityId != init[j].cityId {
          assert init[i] == results[i] && init[j] == results[j];
        }
      }
      CityIdsDistinct(init);
      if last.cityId.Some? {
        CityIdsMembers(init, last.cityId.value);
        assert !HasCity(init, last.cityId.value) by {
          forall i | 0 <= i < |init| ensures init[i].cityId != last.cityId {
            assert results[i] == init[i];
          }
        }
      }
    }
  }

  /** Capacity: the results that carry a city (the non-unassigned ones) are no more than the
      available cities. */
  lemma OutcomeCapacity(profiles: seq<Profile>, cities: seq<City>, prefs: seq<Preference>, draw: nat -> nat)
    ensures |CityIds(Outcome(profiles, cities, prefs, draw))| <= |AvailableCityIds(cities)|
  {
    var r := Outcome(profiles, cities, prefs, draw);
    OutcomeCities(profiles, cities, prefs, draw);
    CityIdsDistinct(r);
    forall c | c in CityIds(r) ensures c in AvailableCityIds(cities) {
      CityIdsMembers(r, c);
    }
    DistinctSubsetLength(CityIds(r), AvailableCityIds(cities));
  }

  /** The lottery hands out min(|pool|, |remaining|) cities and leaves the rest unassigned. */
  lemma {:induction false} LotteryCounts(pool: seq<Profile>, remaining: seq<CityId>)
    ensures CountKind(LotteryResults(pool, remaining), ByLottery) == (if |pool| < |remaining| then |pool| else |remaining|)
    ensures CountKind(LotteryResults(pool, remaining), Unassigned) == (if |pool| < |remaining| then 0 else |pool| - |remaining|)
  {
    if pool != [] {
      var init := pool[..|pool| - 1];
      LotteryCounts(init, remaining);
      var l := LotteryResults(pool, remaining);
      assert l[..|l| - 1] == LotteryResults(init, remaining);
    }
  }

  /** The engine visits candidates by final score, highest first; the sort is stable, so
      candidates with equal scores keep their input order, and nobody is lost or added. */
  lemma ProcessingOrderSorted(profiles: seq<Profile>)
    ensures multiset(ProcessingOrder(profiles)) == multiset(profiles)
    ensures forall i, j :: 0 <= i < j < |ProcessingOrder(profiles)| ==>
      ProcessingOrder(profiles)[i].finalScore >= ProcessingOrder(profiles)[j].finalScore
    ensures forall v :: WithScore(ProcessingOrder(profiles), v) == WithScore(profiles, v)
  {
    var order := ProcessingOrder(profiles);
    SortSorted(profiles, EngineKey);
    assert forall i, j :: 0 <= i < j < |order| ==> KeyLe(EngineKey(order[i]), EngineKey(order[j]));
    forall v ensures WithScore(order, v) == WithScore(profiles, v) {
      SortStable(profiles, EngineKey, Key(-v, 0));
    }
  }

  /** `e` is an entry of user `u` whose city is still free. */
  ghost predicate FreeEntry(prefs: seq<Preference>, u: UserId, available: seq<CityId>, e: Preference) {
    e in prefs && e.userId == u && e.cityId in available
  }

  /** `e` is a free entry of user `u` ranked at least as high as every other free entry. */
  ghost predicate BestFreeEntry(prefs: seq<Preference>, u: UserId, available: seq<CityId>, e: Preference) {
    FreeEntry(prefs, u, available, e) && forall e' :: FreeEntry(prefs, u, available, e') ==> e.priority <= e'.priority
  }

  /** Scanning the priority-sorted list for the first free city finds the best free entry. */
  lemma FirstFreeIsBest(prefs: seq<Preference>, u: UserId, available: seq<CityId>, m: nat)
    requires FirstFree(UserPreferences(prefs, u), available) == Some(m)
    ensures BestFreeEntry(prefs, u, available, UserPreferences(prefs, u)[m])
  {
    var list := UserPreferences(prefs, u);
    SortSorted(OfUser(prefs, u), PriorityKey);
    var e := list[m];
    UserPreferencesOfUser(prefs, u, e);
    forall e' | FreeEntry(prefs, u, available, e') ensures e.priority <= e'.priority {
      assert e' in multiset(list);
      var j :| 0 <= j < |list| && list[j] == e';
      if j > m {
        assert KeyLe(PriorityKey(list[m]), PriorityKey(list[j]));
      }
    }
  }

  /** A scan that finds nothing means the user has no free entry at all. */
  lemma FirstFreeNone(prefs: seq<Preference>, u: UserId, available: seq<CityId>)
    requires FirstFree(UserPreferences(prefs, u), available).None?
    ensures forall e :: !FreeEntry(prefs, u, available, e)
  {
    var list := UserPreferences(prefs, u);
    forall e | e in prefs && e.userId == u ensures e.cityId !in available {
      assert e in multiset(list);
      var j :| 0 <= j < |list| && list[j] == e;
    }
  }

  /** One visit of the main loop, when the candidate has a free preferred city: they are
      placed, by preference, on the free city they ranked best (lowest priority), which
      stops being free. */
  lemma VisitTakesBestFreeCity(st: PassState, p: Profile, prefs: seq<Preference>)
    requires exists e :: FreeEntry(prefs, p.id, st.available, e)
    ensures exists e :: (BestFreeEntry(prefs, p.id, st.available, e) &&
      Visit(st, p, prefs) == PassState(Without(st.available, e.cityId),
        st.results + [AssignmentResult(p.id, Some(e.cityId), ByPreference, Some(e.priority))], st.pool))
  {
    var list := UserPreferences(prefs, p.id);
    var found := FirstFree(list, st.available);
    if found.None? {
      FirstFreeNone(prefs, p.id, st.available);
    } else {
      FirstFreeIsBest(prefs, p.id, st.available, found.value);
      assert BestFreeEntry(prefs, p.id, st.available, list[found.value]);
    }
  }

  /** One visit, when none of the candidate's preferred cities is free: a lottery volunteer
      joins the pool, anyone else is recorded unassigned; the free cities do not change. */
  lemma VisitWithoutFreeCity(st: PassState, p: Profile, prefs: seq<Preference>)
    requires forall e :: !FreeEntry(prefs, p.id, st.available, e)
    ensures Visit(st, p, prefs) ==
      if p.wantsLottery then st.(pool := st.pool + [p])
      else st.(results := st.results + [AssignmentResult(p.id, None, Unassigned, None)])
  {
    var found := FirstFree(UserPreferences(prefs, p.id), st.available);
    if found.Some? {
      FirstFreeIsBest(prefs, p.id, st.available, found.value);
    }
  }

  /** A visit never frees a city. */
  lemma VisitAvailable(st: PassState, p: Profile, prefs: seq<Preference>)
    ensures forall c :: c in Visit(st, p, prefs).available ==> c in st.available
    ensures st.results <= Visit(st, p, prefs).results
  {
  }

  lemma PassStep(order: seq<Profile>, prefs: seq<Preference>, initial: seq<CityId>, k: nat)
    requires k < |order|
    ensures Pass(order[..k + 1], prefs, initial) == Visit(Pass(order[..k], prefs, initial), order[k], prefs)
  {
    assert order[..k + 1][..k] == order[..k];
  }

  /** Free cities only ever become taken, and results are only ever appended: the state
      after `k` candidates extends the state after `j <= k` of them. */
  lemma {:induction false} PassMonotone(order: seq<Profile>, prefs: seq<Preference>, initial: seq<CityId>, j: nat, k: nat)
    requires j <= k <= |order|
    ensures forall c :: c in Pass(order[..k], prefs, initial).available ==> c in Pass(order[..j], prefs, initial).available
    ensures Pass(order[..j], prefs, initial).results <= Pass(order[..k], prefs, initial).results
  {
    if j < k {
      PassMonotone(order, prefs, initial, j, k - 1);
      PassStep(order, prefs, initial, k - 1);
      VisitAvailable(Pass(order[..k - 1], prefs, initial), order[k - 1], prefs);
    }
  }

  /** The candidate visited at step `k`, with a free entry `e`, receives a preference result
      ranked at least as high as `e`. */
  lemma PlacedAtVisit(order: seq<Profile>, prefs: seq<Preference>, initial: seq<CityId>, k: nat, e: Preference)
    requires k < |order|
    requires FreeEntry(prefs, order[k].id, Pass(order[..k], prefs, initial).available, e)
    ensures exists e0 :: (e0 in prefs && e0.userId == order[k].id && e0.priority <= e.priority &&
      AssignmentResult(order[k].id, Some(e0.cityId), ByPreference, Some(e0.priority)) in Pass(order[..k + 1], prefs, initial).results)
  {
    var st := Pass(order[..k], prefs, initial);
    var u := order[k].id;
    var list := UserPreferences(prefs, u);
    PassStep(order, prefs, initial, k);
    if FirstFree(list, st.available).None? {
      FirstFreeNone(prefs, u, st.available);
      assert false;
    }
    var m := FirstFree(list, st.available).value;
    FirstFreeIsBest(prefs, u, st.available, m);
    var e0 := list[m];
    var r := AssignmentResult(u, Some(e0.cityId), ByPreference, Some(e0.priority));
    assert Visit(st, order[k], prefs).results == st.results + [r];
    assert Pass(order[..k + 1], prefs, initial).results[|st.results|] == r;
  }

  /** Priority by score: if a candidate listed a city that is still free when a later
      candidate is visited (or when the main loop ends), the earlier candidate was placed by
      preference on a city they ranked at least as high as that one. So no one with a higher
      score loses a city they wanted to someone visited after them. */
  lemma EarlierCandidateNotOutranked(order: seq<Profile>, prefs: seq<Preference>, initial: seq<CityId>, k1: nat, k2: nat, e: Preference)
    requires k1 < k2 <= |order|
    requires e in prefs && e.userId == order[k1].id
    requires e.cityId in Pass(order[..k2], prefs, initial).available
    ensures exists e0 :: (e0 in prefs && e0.userId == order[k1].id && e0.priority <= e.priority &&
      AssignmentResult(order[k1].id, Some(e0.cityId), ByPreference, Some(e0.priority)) in Pass(order, prefs, initial).results)
  {
    PassMonotone(order, prefs, initial, k1, k2);
    PlacedAtVisit(order, prefs, initial, k1, e);
    var e0 :| e0 in prefs && e0.userId == order[k1].id && e0.priority <= e.priority &&
      AssignmentResult(order[k1].id, Some(e0.cityId), ByPreference, Some(e0.priority)) in Pass(order[..k1 + 1], prefs, initial).results;
    PassMonotone(order, prefs, initial, k1 + 1, |order|);
    assert order[..|order|] == order;
    PrefixMember(Pass(order[..k1 + 1], prefs, initial).results, Pass(order, prefs, initial).results,
      AssignmentResult(order[k1].id, Some(e0.cityId), ByPreference, Some(e0.priority)));
  }
}
