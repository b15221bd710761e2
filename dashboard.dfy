/** src/pages/Dashboard.tsx: the ranking table and the "top 27" status of the signed-in
    user. The list itself is `Ranking.RankingOrder`. */
module Dashboard {
  import opened Wrappers
  import opened Seqs
  import opened Domain
  import opened Ranking
  import opened StableSort
  import opened Shuffle
  import opened PlacementSpec

  /** The number of positions the dashboard marks as the top of the ranking. */
  const TopCount: nat := 27

  /** `isInTop27 = myRank > 0 && myRank <= 27`: the user appears among the first 27 rows. */
  function IsInTop27(profiles: seq<Profile>, me: Option<UserId>): (b: bool)
    ensures b <==> me.Some? && exists i :: 0 <= i < |profiles| && i < TopCount && profiles[i].id == me.value
  {
    var rank := MyRank(profiles, me);
    rank > 0 && rank <= TopCount
  }

  /** The row at 0-based `index` has rank `index + 1` and is highlighted when that rank is at
      most 27 (`isTop27 = rank <= 27`). */
  function RowIsTop(index: nat): bool {
    index + 1 <= TopCount
  }

  /** The row highlight and the status card agree: the user's own row is highlighted exactly
      when the card says they are in the top 27. */
  lemma RowAgreesWithStatus(profiles: seq<Profile>, i: nat)
    requires Distinct(ProfileIds(profiles))
    requires i < |profiles|
    ensures RowIsTop(i) <==> IsInTop27(profiles, Some(profiles[i].id))
  {
    RankOfPosition(profiles, i);
  }

  /** Whoever ranks above a top-27 candidate is in the top 27 too. */
  lemma AboveTopIsTop(profiles: seq<Profile>, a: Profile, b: Profile)
    requires Distinct(ProfileIds(profiles))
    requires a in profiles && b in profiles
    requires IsInTop27(RankingOrder(profiles), Some(a.id))
    requires RanksAbove(b, a)
    ensures IsInTop27(RankingOrder(profiles), Some(b.id))
  {
    HigherRankedListedFirst(profiles, b, a);
  }

  /** The banner says the first 27 will be placed, but the engine does not keep that promise.
      With one open city, the candidate ranked first has listed no cities and volunteered
      for the lottery. A lower-ranked candidate lists that city. The lower-ranked candidate
      takes the city by preference, so the lottery has no city left, and the candidate
      ranked first ends unassigned, whatever the draws. */
  lemma TopRankedVolunteerCanBeUnplaced(hi: Profile, lo: Profile, c: City, pref: Preference, draw: nat -> nat)
    requires hi.id != lo.id && hi.finalScore > lo.finalScore && hi.wantsLottery
    requires c.isAvailable && pref.userId == lo.id && pref.cityId == c.id
    ensures IsInTop27(RankingOrder([hi, lo]), Some(hi.id))
    ensures Outcome([hi, lo], [c], [pref], draw)
         == [AssignmentResult(lo.id, Some(c.id), ByPreference, Some(pref.priority)),
             AssignmentResult(hi.id, None, Unassigned, None)]
  {
    ScenarioRank(hi, lo);
    var st := Pass(ProcessingOrder([hi, lo]), [pref], AvailableCityIds([c]));
    var placed := AssignmentResult(lo.id, Some(c.id), ByPreference, Some(pref.priority));
    var left := AssignmentResult(hi.id, None, Unassigned, None);
    ScenarioPass(hi, lo, c, pref);
    assert st.results == [placed] && st.pool == [hi] && st.available == [];
    ScenarioLottery(hi, draw);
    assert Outcome([hi, lo], [c], [pref], draw) == [placed] + [left];
  }

  /** The lottery of the scenario above: one volunteer and no city left. */
  lemma ScenarioLottery(hi: Profile, draw: nat -> nat)
    ensures LotteryResults(FisherYates([hi], draw), []) == [AssignmentResult(hi.id, None, Unassigned, None)]
  {
    assert FisherYates([hi], draw) == ShuffleDown([hi], 0, draw) == [hi];
    var r := LotteryResults([hi], []);
    assert |r| == 1 && r[0] == AssignmentResult(hi.id, None, Unassigned, None);
  }

  /** The candidate ranked first in the scenario above is in the top 27. */
  lemma ScenarioRank(hi: Profile, lo: Profile)
    requires hi.finalScore > lo.finalScore
    ensures IsInTop27(RankingOrder([hi, lo]), Some(hi.id))
  {
    SortPair(hi, lo, RankKey);
    FirstIsTop(RankingOrder([hi, lo]));
  }

  /** The first row of a ranking is in the top 27. */
  lemma FirstIsTop(profiles: seq<Profile>)
    requires profiles != []
    ensures IsInTop27(profiles, Some(profiles[0].id))
  {
    assert 0 < TopCount;
  }

  /** The preference pass of the scenario above: the candidate ranked first goes to the
      pool, and the other one takes the only city. */
  lemma ScenarioPass(hi: Profile, lo: Profile, c: City, pref: Preference)
    requires hi.id != lo.id && hi.finalScore > lo.finalScore && hi.wantsLottery
    requires c.isAvailable && pref.userId == lo.id && pref.cityId == c.id
    ensures Pass(ProcessingOrder([hi, lo]), [pref], AvailableCityIds([c]))
         == PassState([], [AssignmentResult(lo.id, Some(c.id), ByPreference, Some(pref.priority))], [hi])
  {
    SortPair(hi, lo, EngineKey);
    ScenarioCities(c);
    var available := [c.id];
    assert [hi, lo][..1] == [hi];
    assert [hi][..0] == [];
    assert Pass([hi], [pref], available) == Visit(PassState(available, [], []), hi, [pref]);
    ScenarioFirstTurn(hi, lo, c, pref);
    ScenarioSecondTurn(hi, lo, c, pref);
  }

  lemma ScenarioCities(c: City)
    requires c.isAvailable
    ensures AvailableCityIds([c]) == [c.id]
  {
    assert [c][..0] == [];
  }

  /** The candidate ranked first has no entries, so they join the pool. */
  lemma ScenarioFirstTurn(hi: Profile, lo: Profile, c: City, pref: Preference)
    requires hi.id != lo.id && hi.wantsLottery && pref.userId == lo.id
    ensures Visit(PassState([c.id], [], []), hi, [pref]) == PassState([c.id], [], [hi])
  {
    ScenarioLists(hi, lo, pref);
    VisitWithoutEntries(PassState([c.id], [], []), hi, [pref]);
  }

  /** A lottery volunteer without entries joins the pool and nothing else changes. */
  lemma VisitWithoutEntries(st: PassState, p: Profile, prefs: seq<Preference>)
    requires UserPreferences(prefs, p.id) == [] && p.wantsLottery
    ensures Visit(st, p, prefs) == st.(pool := st.pool + [p])
  {
    assert FirstFree([], st.available) == None;
  }

  /** The other candidate's only entry names the free city, so they take it. */
  lemma ScenarioSecondTurn(hi: Profile, lo: Profile, c: City, pref: Preference)
    requires hi.id != lo.id && pref.userId == lo.id && pref.cityId == c.id
    ensures Visit(PassState([c.id], [], [hi]), lo, [pref])
         == PassState([], [AssignmentResult(lo.id, Some(c.id), ByPreference, Some(pref.priority))], [hi])
  {
    ScenarioLists(hi, lo, pref);
    assert FirstFree([pref], [c.id]) == Some(0);
    assert Without([c.id], c.id) == [];
  }

  /** The scenario's preference lists as the engine scans them. */
  lemma ScenarioLists(hi: Profile, lo: Profile, pref: Preference)
    requires hi.id != lo.id && pref.userId == lo.id
    ensures UserPreferences([pref], hi.id) == []
    ensures UserPreferences([pref], lo.id) == [pref]
  {
    assert [pref][..0] == [];
    assert OfUser([pref], hi.id) == [];
    assert OfUser([pref], lo.id) == [pref];
    assert Sort([pref], PriorityKey) == Insert(pref, Sort([], PriorityKey), PriorityKey);
  }
}
