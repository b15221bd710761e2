/** src/pages/Preferences.tsx: the preference editor. The page's list state
    (`selectedPreferences`) and its error message are the fields of a `PreferenceEditor`;
    each handler is a method that replaces them as the page's state setters do. The list of
    cities still offered and the rows written on save are functions of that state. */
module PreferencesPage {
  import opened Wrappers
  import opened Seqs
  import opened StableSort
  import opened Domain
  import opened PlacementSpec

  /** The most entries a list may hold. */
  const MaxPreferences: nat := 10

  /** An entry of the list being edited (`PreferenceItem`). */
  datatype PreferenceItem = PreferenceItem(id: string, cityId: CityId, cityName: string, priority: int)

  /** The error banners `addPreference` raises: too many entries, city already chosen. */
  datatype Message = TooManyPreferences | CityAlreadyChosen

  /** `items.some(p => p.cityId === c)`. */
  predicate Chosen(items: seq<PreferenceItem>, c: CityId) {
    exists i :: 0 <= i < |items| && items[i].cityId == c
  }

  /** Some entry has id `id`. */
  predicate HasId(items: seq<PreferenceItem>, id: string) {
    exists i :: 0 <= i < |items| && items[i].id == id
  }

  /** No city is listed twice. */
  ghost predicate CitiesDistinct(items: seq<PreferenceItem>) {
    forall i, j :: 0 <= i < j < |items| ==> items[i].cityId != items[j].cityId
  }

  /** What `addPreference`'s two guards keep true of a list. */
  ghost predicate ListOk(items: seq<PreferenceItem>) {
    |items| <= MaxPreferences && CitiesDistinct(items)
  }

  /** `items.filter(p => p.id !== id)`. */
  function WithoutId(items: seq<PreferenceItem>, id: string): (r: seq<PreferenceItem>)
    ensures forall x :: x in r <==> x in items && x.id != id
    ensures |r| <= |items|
  {
    if items == [] then []
    else
      var init, last := items[..|items| - 1], items[|items| - 1];
      assert items == init + [last];
      WithoutId(init, id) + (if last.id != id then [last] else [])
  }

  /** Removing entries never lists a city twice. */
  lemma {:induction false} WithoutIdDistinct(items: seq<PreferenceItem>, id: string)
    requires CitiesDistinct(items)
    ensures CitiesDistinct(WithoutId(items, id))
  {
    if items != [] {
      var init, last := items[..|items| - 1], items[|items| - 1];
      assert CitiesDistinct(init) by {
        forall i, j | 0 <= i < j < |init| ensures init[i].cityId != init[j].cityId {
          assert items[i] == init[i] && items[j] == init[j];
        }
      }
      WithoutIdDistinct(init, id);
      var r := WithoutId(init, id);
      forall k | 0 <= k < |r| ensures r[k].cityId != last.cityId {
        assert r[k] in init;
        var m :| 0 <= m < |init| && init[m] == r[k];
        assert items[m].cityId != items[|items| - 1].cityId;
      }
    }
  }

  function ItemId(item: PreferenceItem): string {
    item.id
  }

  /** A listed id is found. */
  lemma IdFound(items: seq<PreferenceItem>, id: string)
    requires HasId(items, id)
    ensures FindIndex(items, ItemId, id).Some?
  {
    var i :| 0 <= i < |items| && items[i].id == id;
  }

  /** The list after the entry with id `activeId` is dropped onto the entry with id
      `overId`: `arrayMove(items, oldIndex, newIndex)` with both indices found by
      `findIndex`. */
  function Dragged(s: seq<PreferenceItem>, activeId: string, overId: string): (r: seq<PreferenceItem>)
    requires HasId(s, activeId) && HasId(s, overId)
    ensures FindIndex(s, ItemId, activeId).Some? && FindIndex(s, ItemId, overId).Some?
    ensures |r| == |s| && multiset(r) == multiset(s)
    ensures r[FindIndex(s, ItemId, overId).value] == s[FindIndex(s, ItemId, activeId).value]
  {
    IdFound(s, activeId);
    IdFound(s, overId);
    var from, to := FindIndex(s, ItemId, activeId).value, FindIndex(s, ItemId, overId).value;
    ArrayMovePermutation(s, from, to);
    ArrayMove(s, from, to)
  }

  /** A drag keeps a valid list valid. */
  lemma DragMoveOk(s: seq<PreferenceItem>, activeId: string, overId: string)
    requires HasId(s, activeId) && HasId(s, overId)
    ensures ListOk(s) ==> ListOk(Dragged(s, activeId, overId))
  {
    if ListOk(s) {
      ArrayMoveOk(s, FindIndex(s, ItemId, activeId).value, FindIndex(s, ItemId, overId).value);
    }
  }

  /** Where the entry shown at position `i` after moving `from` to `to` came from. */
  function MoveSource(i: nat, from: nat, to: nat): nat {
    if i == to then from
    else if from <= i < to then i + 1
    else if to < i <= from then i - 1
    else i
  }

  /** `arrayMove(items, from, to)`: the entry at `from` is taken out and put back at `to`;
      the others keep their relative order. */
  function ArrayMove<T>(s: seq<T>, from: nat, to: nat): (r: seq<T>)
    requires from < |s| && to < |s|
    ensures |r| == |s|
    ensures forall i :: 0 <= i < |s| ==> MoveSource(i, from, to) < |s| && r[i] == s[MoveSource(i, from, to)]
  {
    var rest := s[..from] + s[from + 1..];
    rest[..to] + [s[from]] + rest[to..]
  }

  /** Moving an entry back where it came from restores the list. */
  lemma ArrayMoveInverse<T>(s: seq<T>, from: nat, to: nat)
    requires from < |s| && to < |s|
    ensures ArrayMove(ArrayMove(s, from, to), to, from) == s
  {
    var m := ArrayMove(s, from, to);
    var r := ArrayMove(m, to, from);
    forall i | 0 <= i < |s| ensures r[i] == s[i] {
      var k := MoveSource(i, to, from);
      assert r[i] == m[k];
      assert MoveSource(k, from, to) == i;
    }
  }

  /** A move is a permutation: the same entries, each as often. */
  lemma ArrayMovePermutation<T>(s: seq<T>, from: nat, to: nat)
    requires from < |s| && to < |s|
    ensures multiset(ArrayMove(s, from, to)) == multiset(s)
  {
    var x := s[from];
    var rest := s[..from] + s[from + 1..];
    assert s == s[..from] + [x] + s[from + 1..];
    assert multiset(s) == multiset(rest) + multiset{x};
    assert rest == rest[..to] + rest[to..];
    assert multiset(rest[..to] + [x] + rest[to..]) == multiset(rest) + multiset{x};
  }

  /** A move keeps a list's cities distinct. */
  lemma ArrayMoveDistinct(s: seq<PreferenceItem>, from: nat, to: nat)
    requires from < |s| && to < |s|
    requires CitiesDistinct(s)
    ensures CitiesDistinct(ArrayMove(s, from, to))
  {
    var r := ArrayMove(s, from, to);
    forall i, j | 0 <= i < j < |r| ensures r[i].cityId != r[j].cityId {
      var a, b := MoveSource(i, from, to), MoveSource(j, from, to);
      assert a != b;
      if a < b {
        assert s[a].cityId != s[b].cityId;
      } else {
        assert s[b].cityId != s[a].cityId;
      }
    }
  }

  /** A move keeps what `addPreference` guarantees. */
  lemma ArrayMoveOk(s: seq<PreferenceItem>, from: nat, to: nat)
    requires from < |s| && to < |s|
    requires ListOk(s)
    ensures ListOk(ArrayMove(s, from, to))
  {
    ArrayMoveDistinct(s, from, to);
  }

  /** The cities still offered for adding (`cities.filter(city => !selected.some(...))`). */
  function AvailableCities(cities: seq<City>, items: seq<PreferenceItem>): (r: seq<City>)
    ensures forall c :: c in r <==> c in cities && !Chosen(items, c.id)
  {
    if cities == [] then []
    else
      var init, last := cities[..|cities| - 1], cities[|cities| - 1];
      assert cities == init + [last];
      AvailableCities(init, items) + (if !Chosen(items, last.id) then [last] else [])
  }

  /** Removing an entry puts its city back on offer. */
  lemma RemovedCityOfferedAgain(cities: seq<City>, items: seq<PreferenceItem>, i: nat, c: City)
    requires CitiesDistinct(items)
    requires i < |items|
    requires c in cities && c.id == items[i].cityId
    ensures c in AvailableCities(cities, WithoutId(items, items[i].id))
  {
    var r := WithoutId(items, items[i].id);
    forall k | 0 <= k < |r| ensures r[k].cityId != c.id {
      assert r[k] in items;
      var m :| 0 <= m < |items| && items[m] == r[k];
      if m < i {
        assert items[m].cityId != items[i].cityId;
      } else if m > i {
        assert items[i].cityId != items[m].cityId;
      }
    }
  }

  /** The rows `savePreferences` writes: each entry's city with priority `index + 1`, for
      user `u`; `newId` stands for the ids the database assigns. */
  function SavedRows(u: UserId, items: seq<PreferenceItem>, newId: nat -> string): (rows: seq<Preference>)
    ensures |rows| == |items|
    ensures forall i :: 0 <= i < |rows| ==> rows[i].userId == u && rows[i].cityId == items[i].cityId && rows[i].priority == i + 1
  {
    seq(|items|, i requires 0 <= i < |items| => Preference(newId(i), u, items[i].cityId, i + 1))
  }

  lemma {:induction false} OfUserAppend(s: seq<Preference>, t: seq<Preference>, u: UserId)
    ensures OfUser(s + t, u) == OfUser(s, u) + OfUser(t, u)
  {
    if t == [] {
      assert s + t == s;
    } else {
      var init, last := t[..|t| - 1], t[|t| - 1];
      assert (s + t)[..|s + t| - 1] == s + init;
      assert (s + t)[|s + t| - 1] == last;
      OfUserAppend(s, init, u);
    }
  }

  lemma {:induction false} OfUserOnly(s: seq<Preference>, u: UserId)
    requires forall x :: x in s ==> x.userId == u
    ensures OfUser(s, u) == s
  {
    if s != [] {
      var init, last := s[..|s| - 1], s[|s| - 1];
      assert s == init + [last];
      OfUserOnly(init, u);
    }
  }

  lemma OfUserNone(s: seq<Preference>, u: UserId)
    requires forall x :: x in s ==> x.userId != u
    ensures OfUser(s, u) == []
  {
    if OfUser(s, u) != [] {
      assert OfUser(s, u)[0] in OfUser(s, u);
    }
  }

  lemma SavedRowsSorted(u: UserId, items: seq<PreferenceItem>, newId: nat -> string)
    ensures SortedBy(SavedRows(u, items, newId), PriorityKey)
  {
    var rows := SavedRows(u, items, newId);
    forall i, j | 0 <= i < j < |rows| ensures KeyLe(PriorityKey(rows[i]), PriorityKey(rows[j])) {
      assert rows[i].priority == i + 1 && rows[j].priority == j + 1;
    }
  }

  /** After a save, the placement engine scans the user's cities in exactly the order the
      list showed, whatever priorities the entries carried after drags and removals: the
      user's sorted preference list is the saved rows, numbered 1, 2, ... in list order. */
  lemma SavedOrderIsScanOrder(others: seq<Preference>, u: UserId, items: seq<PreferenceItem>, newId: nat -> string)
    requires forall x :: x in others ==> x.userId != u
    ensures UserPreferences(others + SavedRows(u, items, newId), u) == SavedRows(u, items, newId)
  {
    var rows := SavedRows(u, items, newId);
    OfUserAppend(others, rows, u);
    OfUserNone(others, u);
    OfUserOnly(rows, u);
    assert OfUser(others + rows, u) == rows;
    SavedRowsSorted(u, items, newId);
    SortIdentity(rows, PriorityKey);
  }

  /** The editor's state. The page's message can also carry the save outcome; only the
      messages the list handlers set are kept. */
  class PreferenceEditor {
    var selected: seq<PreferenceItem>
    var message: Option<Message>

    ghost predicate Valid()
      reads this
    {
      ListOk(selected)
    }

    /** The page opens with an empty list and no message. */
    constructor()
      ensures selected == [] && message == None
      ensures Valid()
    {
      selected := [];
      message := None;
    }

    /** `addPreference`: refuses an 11th entry and a city already listed, each with its
        message; otherwise appends the city with priority `length + 1` and clears the
        message. `freshId` stands for the `temp-${Date.now()}` id. */
    method AddPreference(city: City, freshId: string)
      modifies this
      ensures |old(selected)| >= MaxPreferences ==>
        selected == old(selected) && message == Some(TooManyPreferences)
      ensures |old(selected)| < MaxPreferences && Chosen(old(selected), city.id) ==>
        selected == old(selected) && message == Some(CityAlreadyChosen)
      ensures |old(selected)| < MaxPreferences && !Chosen(old(selected), city.id) ==>
        selected == old(selected) + [PreferenceItem(freshId, city.id, city.name, |old(selected)| + 1)] && message == None
      ensures old(Valid()) ==> Valid()
    {
      if |selected| >= MaxPreferences {
        message := Some(TooManyPreferences);
        return;
      }
      if exists i :: 0 <= i < |selected| && selected[i].cityId == city.id {
        message := Some(CityAlreadyChosen);
        return;
      }
      selected := selected + [PreferenceItem(freshId, city.id, city.name, |selected| + 1)];
      message := None;
    }

    /** `removePreference`: drops every entry with id `id`; the message is left alone. */
    method RemovePreference(id: string)
      modifies this
      ensures selected == WithoutId(old(selected), id)
      ensures !HasId(selected, id)
      ensures message == old(message)
      ensures old(Valid()) ==> Valid()
    {
      if CitiesDistinct(selected) {
        WithoutIdDistinct(selected, id);
      }
      selected := WithoutId(selected, id);
    }

    /** `handleDragEnd`: when the drop target exists and differs from the dragged entry,
        the dragged entry moves to the target's position; otherwise nothing changes. The
        drag library only reports entries of the list, so both ids are listed. */
    method HandleDragEnd(activeId: string, overId: Option<string>)
      modifies this
      requires overId.Some? && overId.value != activeId ==> HasId(selected, activeId) && HasId(selected, overId.value)
      ensures overId.None? || overId.value == activeId ==> selected == old(selected)
      ensures overId.Some? && overId.value != activeId ==> selected == Dragged(old(selected), activeId, overId.value)
      ensures multiset(selected) == multiset(old(selected))
      ensures message == old(message)
      ensures old(Valid()) ==> Valid()
    {
      if overId.Some? && activeId != overId.value {
        DragMoveOk(selected, activeId, overId.value);
        selected := Dragged(selected, activeId, overId.value);
      }
    }
  }
}
