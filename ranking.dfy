/** The candidate ranking the dashboard and the results page display
    (src/pages/Dashboard.tsx:24-35 and src/pages/Results.tsx:44-51, the same comparator):
    final score, highest first; on equal scores more years of service first, a missing
    value counting as 0; and the signed-in user's 1-based position in it. */
module Ranking {
  import opened Wrappers
  import opened Seqs
  import opened StableSort
  import opened Domain

  /** The comparator `b.final_score - a.final_score`, then `bYears - aYears`. */
  function RankKey(p: Profile): Key {
    Key(-p.finalScore, -Years(p))
  }

  /** `a` is listed strictly before `b` whatever their input order. */
  predicate RanksAbove(a: Profile, b: Profile) {
    a.finalScore > b.finalScore || (a.finalScore == b.finalScore && Years(a) > Years(b))
  }

  /** The profiles as both pages list them. */
  function RankingOrder(profiles: seq<Profile>): seq<Profile> {
    Sort(profiles, RankKey)
  }

  /** The ranking lists every profile once, never puts a profile below one it ranks above,
      and keeps profiles with equal score and years in their input order. */
  lemma RankingOrderSorted(profiles: seq<Profile>)
    ensures multiset(RankingOrder(profiles)) == multiset(profiles)
    ensures forall i, j :: 0 <= i < j < |RankingOrder(profiles)| ==>
      !RanksAbove(RankingOrder(profiles)[j], RankingOrder(profiles)[i])
    ensures forall k :: Select(RankingOrder(profiles), RankKey, k) == Select(profiles, RankKey, k)
  {
    var s := RankingOrder(profiles);
    SortSorted(profiles, RankKey);
    assert forall i, j :: 0 <= i < j < |s| ==> KeyLe(RankKey(s[i]), RankKey(s[j]));
    forall k ensures Select(s, RankKey, k) == Select(profiles, RankKey, k) {
      SortStable(profiles, RankKey, k);
    }
  }

  /** `profiles.findIndex(p => p.id === profile?.id) + 1`: the user's 1-based rank, or 0
      when nobody is signed in or the user is not listed. */
  function MyRank(profiles: seq<Profile>, me: Option<UserId>): (rank: nat)
    ensures rank == 0 <==> me.None? || forall i :: 0 <= i < |profiles| ==> profiles[i].id != me.value
    ensures rank > 0 ==> rank <= |profiles| && profiles[rank - 1].id == me.value
    ensures rank > 0 ==> forall i :: 0 <= i < rank - 1 ==> profiles[i].id != me.value
  {
    if me.None? then 0
    else match FindIndex(profiles, IdOf, me.value)
      case Some(i) => i + 1
      case None => 0
  }

  /** With distinct ids, the rank of the profile at position `i` is `i + 1`. */
  lemma RankOfPosition(profiles: seq<Profile>, i: nat)
    requires Distinct(ProfileIds(profiles))
    requires i < |profiles|
    ensures MyRank(profiles, Some(profiles[i].id)) == i + 1
  {
  }

  /** Ranks follow the comparator: among candidates with distinct ids, one who ranks above
      another (higher score, or equal score and more years of service) gets a smaller rank
      number, and both are listed. */
  lemma HigherRankedListedFirst(profiles: seq<Profile>, a: Profile, b: Profile)
    requires Distinct(ProfileIds(profiles))
    requires a in profiles && b in profiles
    requires RanksAbove(a, b)
    ensures 0 < MyRank(RankingOrder(profiles), Some(a.id)) < MyRank(RankingOrder(profiles), Some(b.id))
  {
    var s := RankingOrder(profiles);
    RankingIdsDistinct(profiles);
    var ia := PositionIn(s, profiles, a);
    var ib := PositionIn(s, profiles, b);
    RankOfPosition(s, ia);
    RankOfPosition(s, ib);
    SortSorted(profiles, RankKey);
    assert ib < ia ==> KeyLe(RankKey(s[ib]), RankKey(s[ia]));
  }

  lemma RankingIdsDistinct(profiles: seq<Profile>)
    requires Distinct(ProfileIds(profiles))
    ensures Distinct(ProfileIds(RankingOrder(profiles)))
  {
    MapMultiset(RankingOrder(profiles), profiles, IdOf);
    DistinctPermutation(ProfileIds(RankingOrder(profiles)), ProfileIds(profiles));
  }

  /** Where profile `x` of the input sits in the ranking. */
  lemma PositionIn(s: seq<Profile>, profiles: seq<Profile>, x: Profile) returns (i: nat)
    requires s == RankingOrder(profiles)
    requires x in profiles
    ensures i < |s| && s[i] == x
  {
    assert x in multiset(s);
    i :| 0 <= i < |s| && s[i] == x;
  }

  /** The tie-break the comments describe: on equal scores, five years of service rank
      above a missing value. */
  lemma FiveYearsRankAboveNone(a: Profile, b: Profile)
    requires a.id != b.id && a.finalScore == b.finalScore
    requires a.yearsOfService == Some(5) && b.yearsOfService.None?
    ensures MyRank(RankingOrder([b, a]), Some(a.id)) == 1
    ensures MyRank(RankingOrder([b, a]), Some(b.id)) == 2
  {
    assert ProfileIds([b, a]) == [b.id, a.id];
    HigherRankedListedFirst([b, a], a, b);
    RankingOrderSorted([b, a]);
    assert |RankingOrder([b, a])| == 2 by {
      assert |multiset(RankingOrder([b, a]))| == 2;
    }
  }
}
