/** Small facts about sequences shared by the rest of the model. */
module Seqs {
  import opened Wrappers

  /** `findIndex(x => key(x) === k)`: the first position whose key is `k`, if any. */
  function FindIndex<T, K(==)>(s: seq<T>, key: T -> K, k: K): (r: Option<nat>)
    ensures r.Some? ==> r.value < |s| && key(s[r.value]) == k
    ensures forall i :: 0 <= i < |s| && (r.None? || i < r.value) ==> key(s[i]) != k
  {
    if s == [] then None
    else if key(s[0]) == k then Some(0)
    else match FindIndex(s[1..], key, k)
      case Some(i) => Some(i + 1)
      case None => None
  }

  /** No element occurs twice. */
  ghost predicate Distinct<T>(s: seq<T>) {
    forall i, j :: 0 <= i < j < |s| ==> s[i] != s[j]
  }

  /** `s` with every occurrence of `x` dropped, the rest kept in order (a `Set.delete` on an
      insertion-ordered set, or a `filter(p => p !== x)`). */
  function Without<T(==,!new)>(s: seq<T>, x: T): (r: seq<T>)
    ensures forall y :: y in r <==> y in s && y != x
    ensures |r| <= |s|
    ensures x !in s ==> r == s
  {
    if s == [] then []
    else if s[0] == x then Without(s[1..], x)
    else [s[0]] + Without(s[1..], x)
  }

  lemma {:induction false} WithoutDistinct<T(!new)>(s: seq<T>, x: T)
    requires Distinct(s)
    ensures Distinct(Without(s, x))
    ensures x in s ==> |Without(s, x)| == |s| - 1
  {
    if s != [] {
      assert Distinct(s[1..]);
      WithoutDistinct(s[1..], x);
      assert s[0] !in s[1..];
    }
  }

  /** A duplicate-free sequence whose elements all lie in another duplicate-free
      sequence is no longer than it. */
  lemma {:induction false} DistinctSubsetLength<T(!new)>(s: seq<T>, t: seq<T>)
    requires Distinct(s) && Distinct(t)
    requires forall x :: x in s ==> x in t
    ensures |s| <= |t|
    decreases |s|
  {
    if s != [] {
      var x := s[0];
      assert x in t;
      var s', t' := s[1..], Without(t, x);
      forall y | y in s' ensures y in t' {
        assert y in s && y != x;
      }
      WithoutDistinct(t, x);
      assert Distinct(s');
      DistinctSubsetLength(s', t');
    }
  }

  /** `f` applied to every element, in order (an array `map`). */
  function MapSeq<T, U>(s: seq<T>, f: T -> U): (r: seq<U>)
    ensures |r| == |s|
    ensures forall i :: 0 <= i < |s| ==> r[i] == f(s[i])
  {
    seq(|s|, i requires 0 <= i < |s| => f(s[i]))
  }

  lemma MapAppend<T, U>(s: seq<T>, t: seq<T>, f: T -> U)
    ensures MapSeq(s + t, f) == MapSeq(s, f) + MapSeq(t, f)
  {
    assert MapSeq(s + t, f) == MapSeq(s, f) + MapSeq(t, f);
  }

  /** Mapping two sequences that are permutations of each other gives two sequences that
      are permutations of each other. */
  lemma {:induction false} MapMultiset<T, U>(s: seq<T>, t: seq<T>, f: T -> U)
    requires multiset(s) == multiset(t)
    ensures multiset(MapSeq(s, f)) == multiset(MapSeq(t, f))
    decreases |s|
  {
    if s == [] {
      assert |t| == |multiset(t)| == 0;
      assert MapSeq(s, f) == [] == MapSeq(t, f);
    } else {
      assert s[0] in multiset(t);
      var k :| 0 <= k < |t| && t[k] == s[0];
      MapMultisetStep(s, t, k, f);
      MapMultiset(s[1..], t[..k] + t[k + 1..], f);
    }
  }

  /** One step of `MapMultiset`: the first element of `s` taken out of both sides. */
  lemma MapMultisetStep<T, U>(s: seq<T>, t: seq<T>, k: nat, f: T -> U)
    requires multiset(s) == multiset(t)
    requires s != [] && k < |t| && t[k] == s[0]
    ensures multiset(s[1..]) == multiset(t[..k] + t[k + 1..])
    ensures multiset(MapSeq(s, f)) == multiset(MapSeq(s[1..], f)) + multiset{f(s[0])}
    ensures multiset(MapSeq(t, f)) == multiset(MapSeq(t[..k] + t[k + 1..], f)) + multiset{f(s[0])}
  {
    RemoveAt(t, k);
    RemoveFirst(s);
    MapRemoveFirst(s, f);
    MapRemoveAt(t, k, f);
  }

  lemma RemoveFirst<T>(s: seq<T>)
    requires s != []
    ensures multiset(s[1..]) == multiset(s) - multiset{s[0]}
  {
    assert s == [s[0]] + s[1..];
  }

  lemma MapRemoveFirst<T, U>(s: seq<T>, f: T -> U)
    requires s != []
    ensures multiset(MapSeq(s, f)) == multiset(MapSeq(s[1..], f)) + multiset{f(s[0])}
  {
    var m := MapSeq(s, f);
    assert MapSeq(s[1..], f) == m[1..];
    assert m == [m[0]] + m[1..];
  }

  /** Taking out the element at `k` takes one occurrence of it out of the multiset. */
  lemma RemoveAt<T>(t: seq<T>, k: nat)
    requires k < |t|
    ensures multiset(t[..k] + t[k + 1..]) == multiset(t) - multiset{t[k]}
  {
    assert t == t[..k] + [t[k]] + t[k + 1..];
  }

  /** Mapping commutes with taking out the element at `k`. */
  lemma MapRemoveAt<T, U>(t: seq<T>, k: nat, f: T -> U)
    requires k < |t|
    ensures multiset(MapSeq(t, f)) == multiset(MapSeq(t[..k] + t[k + 1..], f)) + multiset{f(t[k])}
  {
    var m := MapSeq(t, f);
    assert MapSeq(t[..k] + t[k + 1..], f) == m[..k] + m[k + 1..];
    RemoveAt(m, k);
  }

  lemma {:induction false} DistinctAtMostOnce<T>(s: seq<T>, x: T)
    requires Distinct(s)
    ensures multiset(s)[x] <= 1
  {
    if s != [] {
      assert s == [s[0]] + s[1..];
      assert Distinct(s[1..]);
      DistinctAtMostOnce(s[1..], x);
      assert s[0] !in s[1..];
    }
  }

  /** A permutation of a duplicate-free sequence is duplicate-free. */
  lemma DistinctPermutation<T>(s: seq<T>, t: seq<T>)
    requires multiset(s) == multiset(t)
    requires Distinct(t)
    ensures Distinct(s)
  {
    forall i, j | 0 <= i < j < |s| ensures s[i] != s[j] {
      if s[i] == s[j] {
        assert s == s[..i] + [s[i]] + s[i + 1..j] + [s[j]] + s[j + 1..];
        assert multiset(s)[s[i]] >= 2;
        DistinctAtMostOnce(t, s[i]);
        assert false;
      }
    }
  }

  /** An element of a prefix is an element of the whole. */
  lemma PrefixMember<T>(a: seq<T>, b: seq<T>, x: T)
    requires a <= b && x in a
    ensures x in b
  {
    var i :| 0 <= i < |a| && a[i] == x;
    assert b[i] == x;
  }
}
