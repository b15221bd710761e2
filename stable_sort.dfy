/** A stable sort by a lexicographic integer key. JavaScript's `Array.prototype.sort` is
    stable, and every comparator of the application compares one or two integer fields
    (a score, then years of service; or a priority), so each of its sorts is this sort
    with the matching key. */
module StableSort {

  /** A sort key compared lexicographically: `major` first, then `minor`. */
  datatype Key = Key(major: int, minor: int)

  predicate KeyLt(a: Key, b: Key) {
    a.major < b.major || (a.major == b.major && a.minor < b.minor)
  }

  predicate KeyLe(a: Key, b: Key) {
    !KeyLt(b, a)
  }

  /** Every element's key is no greater than the keys of the elements after it. */
  ghost predicate SortedBy<T>(s: seq<T>, key: T -> Key) {
    forall i, j :: 0 <= i < j < |s| ==> KeyLe(key(s[i]), key(s[j]))
  }

  /** The elements of `s` whose key is `k`, in their order in `s`. Stability says that a
      sort leaves each of these subsequences as it was. */
  function Select<T>(s: seq<T>, key: T -> Key, k: Key): seq<T> {
    if s == [] then []
    else (if key(s[0]) == k then [s[0]] else []) + Select(s[1..], key, k)
  }

  /** Inserts `x` into sorted `s` after every element whose key is not greater than `x`'s. */
  function Insert<T>(x: T, s: seq<T>, key: T -> Key): (r: seq<T>)
    ensures multiset(r) == multiset(s) + multiset{x}
  {
    if s == [] then [x]
    else if KeyLt(key(x), key(s[0])) then [x] + s
    else
      assert s == [s[0]] + s[1..];
      [s[0]] + Insert(x, s[1..], key)
  }

  /** Insertion sort, taking the input from left to right. */
  function Sort<T>(s: seq<T>, key: T -> Key): (r: seq<T>)
    ensures multiset(r) == multiset(s)
  {
    if s == [] then []
    else
      assert s == s[..|s| - 1] + [s[|s| - 1]];
      Insert(s[|s| - 1], Sort(s[..|s| - 1], key), key)
  }

  lemma {:induction false} InsertSorted<T>(x: T, s: seq<T>, key: T -> Key)
    requires SortedBy(s, key)
    ensures SortedBy(Insert(x, s, key), key)
  {
    if s != [] && !KeyLt(key(x), key(s[0])) {
      var rest := Insert(x, s[1..], key);
      InsertSorted(x, s[1..], key);
      forall y | y in rest ensures KeyLe(key(s[0]), key(y)) {
        assert y in multiset(rest);
        if y != x {
          assert y in s[1..];
        }
      }
      assert Insert(x, s, key) == [s[0]] + rest;
    }
  }

  /** The result of `Sort` is ordered by the key. */
  lemma {:induction false} SortSorted<T>(s: seq<T>, key: T -> Key)
    ensures SortedBy(Sort(s, key), key)
  {
    if s != [] {
      SortSorted(s[..|s| - 1], key);
      InsertSorted(s[|s| - 1], Sort(s[..|s| - 1], key), key);
    }
  }

  lemma {:induction false} SelectAppend<T>(s: seq<T>, t: seq<T>, key: T -> Key, k: Key)
    ensures Select(s + t, key, k) == Select(s, key, k) + Select(t, key, k)
  {
    if s != [] {
      var head := if key(s[0]) == k then [s[0]] else [];
      assert (s + t)[1..] == s[1..] + t;
      SelectAppend(s[1..], t, key, k);
      calc {
        Select(s + t, key, k);
        head + Select(s[1..] + t, key, k);
        head + (Select(s[1..], key, k) + Select(t, key, k));
        (head + Select(s[1..], key, k)) + Select(t, key, k);
      }
    } else {
      assert s + t == t;
    }
  }

  lemma {:induction false} SelectNone<T>(s: seq<T>, key: T -> Key, k: Key)
    requires forall i :: 0 <= i < |s| ==> key(s[i]) != k
    ensures Select(s, key, k) == []
  {
    if s != [] {
      SelectNone(s[1..], key, k);
    }
  }

  lemma SelectCons<T>(x: T, s: seq<T>, key: T -> Key, k: Key)
    ensures Select([x] + s, key, k) == (if key(x) == k then [x] else []) + Select(s, key, k)
  {
    assert ([x] + s)[0] == x;
    assert ([x] + s)[1..] == s;
  }

  /** `x` goes in front of a sorted `s` whose keys all exceed `x`'s. */
  lemma SelectInsertFront<T>(x: T, s: seq<T>, key: T -> Key, k: Key)
    requires SortedBy(s, key)
    requires s != [] && KeyLt(key(x), key(s[0]))
    ensures Select(Insert(x, s, key), key, k) == Select(s, key, k) + (if key(x) == k then [x] else [])
  {
    assert Insert(x, s, key) == [x] + s;
    SelectCons(x, s, key, k);
    if key(x) == k {
      assert forall i :: 0 <= i < |s| ==> KeyLe(key(s[0]), key(s[i]));
      SelectNone(s, key, k);
    }
  }

  /** One unfolding of `Insert` and the associativity of `+`, kept as lemmas of their own:
      written inline in `SelectInsertAfter`, they leave the solver too many ways to unfold
      `Insert` and `Select` there. */
  lemma InsertAfterHead<T>(x: T, s: seq<T>, key: T -> Key)
    requires s != [] && !KeyLt(key(x), key(s[0]))
    ensures Insert(x, s, key) == [s[0]] + Insert(x, s[1..], key)
  {
  }

  lemma AppendAssoc<T>(a: seq<T>, b: seq<T>, c: seq<T>)
    ensures a + (b + c) == (a + b) + c
  {
  }

  /** `x` goes after the head of `s`. */
  lemma SelectInsertAfter<T>(x: T, s: seq<T>, key: T -> Key, k: Key)
    requires s != [] && !KeyLt(key(x), key(s[0]))
    requires Select(Insert(x, s[1..], key), key, k) == Select(s[1..], key, k) + (if key(x) == k then [x] else [])
    ensures Select(Insert(x, s, key), key, k) == Select(s, key, k) + (if key(x) == k then [x] else [])
  {
    var rest := Insert(x, s[1..], key);
    var head := if key(s[0]) == k then [s[0]] else [];
    var tail := if key(x) == k then [x] else [];
    var mid := Select(s[1..], key, k);
    InsertAfterHead(x, s, key);
    SelectCons(s[0], rest, key, k);
    assert Select(s, key, k) == head + mid;
    AppendAssoc(head, mid, tail);
  }

  lemma {:induction false} SelectInsert<T>(x: T, s: seq<T>, key: T -> Key, k: Key)
    requires SortedBy(s, key)
    ensures Select(Insert(x, s, key), key, k)
         == Select(s, key, k) + (if key(x) == k then [x] else [])
  {
    if s == [] {
      SelectCons(x, [], key, k);
      assert [x] + [] == [x];
    } else if KeyLt(key(x), key(s[0])) {
      SelectInsertFront(x, s, key, k);
    } else {
      assert SortedBy(s[1..], key);
      SelectInsert(x, s[1..], key, k);
      SelectInsertAfter(x, s, key, k);
    }
  }

  /** One step of `Sort`: the last element joins its key's selection at the end. */
  lemma SortSelectStep<T>(s: seq<T>, key: T -> Key, k: Key)
    requires s != []
    ensures Select(Sort(s, key), key, k)
         == Select(Sort(s[..|s| - 1], key), key, k) + (if key(s[|s| - 1]) == k then [s[|s| - 1]] else [])
  {
    var sorted := Sort(s[..|s| - 1], key);
    assert Sort(s, key) == Insert(s[|s| - 1], sorted, key);
    SortSorted(s[..|s| - 1], key);
    SelectInsert(s[|s| - 1], sorted, key, k);
  }

  lemma SelectLast<T>(s: seq<T>, key: T -> Key, k: Key)
    requires s != []
    ensures Select(s, key, k) == Select(s[..|s| - 1], key, k) + (if key(s[|s| - 1]) == k then [s[|s| - 1]] else [])
  {
    var init, last := s[..|s| - 1], s[|s| - 1];
    assert Select([last], key, k) == (if key(last) == k then [last] else []) by {
      assert [last][1..] == [];
    }
    SelectAppend(init, [last], key, k);
    assert init + [last] == s;
  }

  /** `Sort` is stable: the elements sharing any one key keep their input order. */
  lemma {:induction false} SortStable<T>(s: seq<T>, key: T -> Key, k: Key)
    ensures Select(Sort(s, key), key, k) == Select(s, key, k)
  {
    if s != [] {
      SortSelectStep(s, key, k);
      SortStable(s[..|s| - 1], key, k);
      SelectLast(s, key, k);
    }
  }

  lemma {:induction false} InsertLast<T>(x: T, s: seq<T>, key: T -> Key)
    requires forall i :: 0 <= i < |s| ==> KeyLe(key(s[i]), key(x))
    ensures Insert(x, s, key) == s + [x]
  {
    if s != [] {
      InsertLast(x, s[1..], key);
      assert s == [s[0]] + s[1..];
    }
  }

  /** Sorting a sequence that is already ordered by the key leaves it as it is. */
  lemma {:induction false} SortIdentity<T>(s: seq<T>, key: T -> Key)
    requires SortedBy(s, key)
    ensures Sort(s, key) == s
  {
    if s != [] {
      var init, last := s[..|s| - 1], s[|s| - 1];
      assert SortedBy(init, key);
      SortIdentity(init, key);
      InsertLast(last, init, key);
      assert init + [last] == s;
    }
  }

  /** Two elements already in key order stay in that order. */
  lemma SortPair<T>(x: T, y: T, key: T -> Key)
    requires KeyLe(key(x), key(y))
    ensures Sort([x, y], key) == [x, y]
  {
    assert [x, y][..1] == [x];
    assert [x][..0] == [];
    assert Sort([x], key) == Insert(x, [], key) == [x];
    assert Insert(y, [x], key) == [x] + Insert(y, [], key);
  }

  lemma SortLength<T>(s: seq<T>, key: T -> Key)
    ensures |Sort(s, key)| == |s|
  {
    assert |multiset(Sort(s, key))| == |multiset(s)|;
  }
}
