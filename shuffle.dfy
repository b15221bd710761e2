/** The Fisher–Yates shuffle of the lottery pool (src/lib/algorithm.ts:78-82). The random
    source is a parameter: `draw(i)` is the draw made at step `i`, and the swap partner is
    `draw(i) % (i + 1)`, which, like `Math.floor(Math.random() * (i + 1))`, is some index
    in 0..i; every such index is reachable. */
module Shuffle {
  import opened Seqs

  /** `s` with the elements at `i` and `j` exchanged. */
  function Swap<T>(s: seq<T>, i: nat, j: nat): seq<T>
    requires i < |s| && j < |s|
  {
    s[i := s[j]][j := s[i]]
  }

  /** The swap partner chosen at step `i`. */
  function Partner(draw: nat -> nat, i: nat): (j: nat)
    ensures j <= i
  {
    draw(i) % (i + 1)
  }

  /** The steps `i`, `i - 1`, ..., 1 of the shuffle applied to `s`. */
  function ShuffleDown<T>(s: seq<T>, i: nat, draw: nat -> nat): seq<T>
    requires i < |s|
    decreases i
  {
    if i == 0 then s
    else ShuffleDown(Swap(s, i, Partner(draw, i)), i - 1, draw)
  }

  /** The whole shuffle: steps |s| - 1 down to 1. */
  function FisherYates<T>(s: seq<T>, draw: nat -> nat): seq<T> {
    if |s| == 0 then s else ShuffleDown(s, |s| - 1, draw)
  }

  lemma SwapPermutation<T>(s: seq<T>, i: nat, j: nat)
    requires i < |s| && j < |s|
    ensures |Swap(s, i, j)| == |s|
    ensures multiset(Swap(s, i, j)) == multiset(s)
  {
  }

  lemma {:induction false} ShuffleDownPermutation<T>(s: seq<T>, i: nat, draw: nat -> nat)
    requires i < |s|
    ensures |ShuffleDown(s, i, draw)| == |s|
    ensures multiset(ShuffleDown(s, i, draw)) == multiset(s)
    decreases i
  {
    if i > 0 {
      var s' := Swap(s, i, Partner(draw, i));
      SwapPermutation(s, i, Partner(draw, i));
      ShuffleDownPermutation(s', i - 1, draw);
    }
  }

  /** Whatever the draws, the shuffled pool holds exactly the members it held before. */
  lemma FisherYatesPermutation<T>(s: seq<T>, draw: nat -> nat)
    ensures |FisherYates(s, draw)| == |s|
    ensures multiset(FisherYates(s, draw)) == multiset(s)
  {
    if |s| > 0 {
      ShuffleDownPermutation(s, |s| - 1, draw);
    }
  }

  /** Draws that always pick the current slot leave the pool in its original order. */
  lemma {:induction false} ShuffleDownIdentity<T>(s: seq<T>, i: nat, draw: nat -> nat)
    requires i < |s|
    requires forall k :: 0 < k <= i ==> draw(k) == k
    ensures ShuffleDown(s, i, draw) == s
    decreases i
  {
    if i > 0 {
      assert Partner(draw, i) == i;
      assert Swap(s, i, i) == s;
      ShuffleDownIdentity(s, i - 1, draw);
    }
  }

  /** Shuffling commutes with projecting each element: shuffling the records and then taking
      a field gives the field values shuffled by the same draws. */
  lemma {:induction false} ShuffleDownMap<T, U>(s: seq<T>, f: T -> U, i: nat, draw: nat -> nat)
    requires i < |s|
    ensures |ShuffleDown(s, i, draw)| == |s|
    ensures ShuffleDown(MapSeq(s, f), i, draw) == MapSeq(ShuffleDown(s, i, draw), f)
    decreases i
  {
    ShuffleDownPermutation(s, i, draw);
    if i > 0 {
      var j := Partner(draw, i);
      assert Swap(MapSeq(s, f), i, j) == MapSeq(Swap(s, i, j), f);
      ShuffleDownMap(Swap(s, i, j), f, i - 1, draw);
    }
  }

  lemma FisherYatesMap<T, U>(s: seq<T>, f: T -> U, draw: nat -> nat)
    ensures |FisherYates(s, draw)| == |s|
    ensures FisherYates(MapSeq(s, f), draw) == MapSeq(FisherYates(s, draw), f)
  {
    if |s| > 0 {
      ShuffleDownMap(s, f, |s| - 1, draw);
    }
  }

  /** The in-place loop of the source: for i from length - 1 down to 1, swap slot i with the
      slot the draw picks. */
  method ShuffleInPlace<T>(a: array<T>, draw: nat -> nat)
    modifies a
    ensures a[..] == FisherYates(old(a[..]), draw)
  {
    if a.Length == 0 {
      return;
    }
    var i := a.Length - 1;
    while i > 0
      invariant 0 <= i < a.Length
      invariant ShuffleDown(a[..], i, draw) == FisherYates(old(a[..]), draw)
    {
      var j := Partner(draw, i);
      ghost var before := a[..];
      var t := a[i];
      a[i] := a[j];
      a[j] := t;
      assert a[..] == Swap(before, i, j);
      i := i - 1;
    }
  }
}
