/** `event_key` and the `all_events_map` dictionary of `main`: events of all
    weeks merged by identity, the first occurrence of a key winning, then
    listed in insertion order and sorted by `(date, start, title)`. */
module Store {
  import opened Sorting
  import opened Events
  import opened Text

  /** `(date, start, end, title, location)` */
  type Key = (string, string, string, string, string)

  /** `event_key` */
  function EventKey(ev: Event): Key {
    (ev.date, ev.start, ev.end, ev.title, ev.location)
  }

  /** The dictionary: its entries, and its keys in insertion order (a Python
      `dict` iterates in insertion order). */
  datatype Store = Store(entries: map<Key, Event>, order: seq<Key>)

  const Empty: Store := Store(map[], [])

  /** The order lists each key of the map once, and each entry sits under its
      own key. */
  ghost predicate Valid(s: Store) {
    && Distinct(s.order)
    && (forall k :: k in s.entries <==> k in s.order)
    && (forall k :: k in s.entries ==> EventKey(s.entries[k]) == k)
  }

  /** `k not in all_events_map`: whether adding `ev` inserts it. */
  predicate IsNew(s: Store, ev: Event) {
    EventKey(ev) !in s.entries
  }

  /** `if k not in all_events_map: all_events_map[k] = ev` */
  function Add(s: Store, ev: Event): Store {
    var k := EventKey(ev);
    if k in s.entries then s else Store(s.entries[k := ev], s.order + [k])
  }

  /** The store after adding a week's events in order. */
  function MergeAll(s: Store, evs: seq<Event>): Store {
    if evs == [] then s else Add(MergeAll(s, evs[..|evs| - 1]), evs[|evs| - 1])
  }

  /** The value of `added` after a week's events. */
  function Added(s: Store, evs: seq<Event>): nat {
    if evs == [] then 0
    else
      var n := |evs| - 1;
      Added(s, evs[..n]) + (if IsNew(MergeAll(s, evs[..n]), evs[n]) then 1 else 0)
  }

  /** The inner loop of `main` over `week_events`. */
  method MergeWeek(s: Store, week: seq<Event>) returns (r: Store, added: nat)
    ensures r == MergeAll(s, week) && added == Added(s, week)
  {
    r := s;
    added := 0;
    for i := 0 to |week|
      invariant r == MergeAll(s, week[..i]) && added == Added(s, week[..i])
    {
      var ev := week[i];
      assert week[..i + 1][..i] == week[..i];
      var k := EventKey(ev);
      if k !in r.entries {
        r := Store(r.entries[k := ev], r.order + [k]);
        added := added + 1;
      }
    }
    assert week[..|week|] == week;
  }

  /** `list(all_events_map.values())` */
  function Values(s: Store): seq<Event> {
    ValuesOf(s.entries, s.order)
  }

  function ValuesOf(entries: map<Key, Event>, order: seq<Key>): seq<Event> {
    if order == [] then []
    else
      var n := |order| - 1;
      ValuesOf(entries, order[..n]) + (if order[n] in entries then [entries[order[n]]] else [])
  }

  /** The exported list: the values sorted by `(date, start, title)`. */
  function Finalize(s: Store): seq<Event> {
    SortEvents(Values(s))
  }

  /** Adding keeps the store valid and leaves the event under its key. */
  lemma {:induction false} AddSpec(s: Store, ev: Event)
    requires Valid(s)
    ensures Valid(Add(s, ev))
    ensures Add(s, ev).entries[EventKey(ev)] == ev
  {
    var k := EventKey(ev);
    if k !in s.entries {
      var r := Add(s, ev);
      assert k !in s.order;
      forall x | x in r.entries ensures x in r.order {
        if x != k { assert x in s.order; }
      }
    } else {
      assert EventKey(s.entries[k]) == k;
    }
  }

  /** Adding never changes an existing entry, and inserts exactly when the
      key is absent. */
  lemma {:induction false} AddKeeps(s: Store, ev: Event)
    ensures Add(s, ev).entries.Keys == s.entries.Keys + {EventKey(ev)}
    ensures forall k :: k in s.entries ==> Add(s, ev).entries[k] == s.entries[k]
    ensures |Add(s, ev).entries| == |s.entries| + (if IsNew(s, ev) then 1 else 0)
  {
    if IsNew(s, ev) {
      assert Add(s, ev).entries.Keys == s.entries.Keys + {EventKey(ev)};
    }
  }

  /** The keys of a list of events. */
  ghost function KeysOf(evs: seq<Event>): set<Key> {
    if evs == [] then {} else KeysOf(evs[..|evs| - 1]) + {EventKey(evs[|evs| - 1])}
  }

  lemma {:induction false} KeysOfSpec(evs: seq<Event>)
    ensures forall e :: e in evs ==> EventKey(e) in KeysOf(evs)
    ensures forall k :: k in KeysOf(evs) ==> exists e :: e in evs && EventKey(e) == k
  {
    if evs != [] {
      var n := |evs| - 1;
      KeysOfSpec(evs[..n]);
      assert evs == evs[..n] + [evs[n]];
    }
  }

  /** The key holds every field of the event: two events with one key are
      the same event. */
  lemma {:induction false} EventKeyInjective(a: Event, b: Event)
    ensures EventKey(a) == EventKey(b) <==> a == b
  {
  }

  /** Merging a week keeps the store valid. */
  lemma {:induction false} MergeAllValid(s: Store, evs: seq<Event>)
    requires Valid(s)
    ensures Valid(MergeAll(s, evs))
  {
    if evs != [] {
      var n := |evs| - 1;
      MergeAllValid(s, evs[..n]);
      AddSpec(MergeAll(s, evs[..n]), evs[n]);
    }
  }

  /** Merging a week adds the keys of the week's events and nothing else. */
  lemma {:induction false} MergeAllKeys(s: Store, evs: seq<Event>)
    ensures MergeAll(s, evs).entries.Keys == s.entries.Keys + KeysOf(evs)
  {
    if evs != [] {
      var n := |evs| - 1;
      var pre := MergeAll(s, evs[..n]);
      MergeAllKeys(s, evs[..n]);
      AddKeeps(pre, evs[n]);
    }
  }

  /** Merging a week never overwrites an entry. */
  lemma {:induction false} MergeAllKeeps(s: Store, evs: seq<Event>)
    ensures forall k :: k in s.entries ==> k in MergeAll(s, evs).entries && MergeAll(s, evs).entries[k] == s.entries[k]
  {
    if evs != [] {
      var n := |evs| - 1;
      var pre := MergeAll(s, evs[..n]);
      MergeAllKeeps(s, evs[..n]);
      AddKeeps(pre, evs[n]);
    }
  }

  /** After the merge every event of the week is stored under its key. */
  lemma {:induction false} MergeAllStores(s: Store, evs: seq<Event>)
    requires Valid(s)
    ensures forall e :: e in evs ==>
              EventKey(e) in MergeAll(s, evs).entries && MergeAll(s, evs).entries[EventKey(e)] == e
  {
    MergeAllValid(s, evs);
    MergeAllKeys(s, evs);
    KeysOfSpec(evs);
    var r := MergeAll(s, evs);
    forall e | e in evs ensures r.entries[EventKey(e)] == e {
      EventKeyInjective(r.entries[EventKey(e)], e);
    }
  }

  /** `added` counts exactly the keys the merge inserts. */
  lemma {:induction false} AddedCounts(s: Store, evs: seq<Event>)
    ensures Added(s, evs) == |MergeAll(s, evs).entries| - |s.entries|
  {
    if evs != [] {
      var n := |evs| - 1;
      AddedCounts(s, evs[..n]);
      AddKeeps(MergeAll(s, evs[..n]), evs[n]);
    }
  }

  /** Adding the same event twice grows the store by exactly one. */
  lemma {:induction false} AddTwice(s: Store, ev: Event)
    requires Valid(s) && IsNew(s, ev)
    ensures Added(s, [ev, ev]) == 1
    ensures |MergeAll(s, [ev, ev]).entries| == |s.entries| + 1
  {
    assert [ev, ev][..1] == [ev];
    assert [ev][..0] == [];
    AddKeeps(s, ev);
    AddKeeps(Add(s, ev), ev);
    assert MergeAll(s, [ev]) == Add(s, ev);
    assert Added(s, [ev]) == 1;
    assert !IsNew(Add(s, ev), ev);
  }

  /** Merging a week a second time changes nothing and adds nothing. */
  lemma {:induction false} MergeIdempotent(s: Store, evs: seq<Event>)
    requires Valid(s)
    ensures MergeAll(MergeAll(s, evs), evs) == MergeAll(s, evs)
    ensures Added(MergeAll(s, evs), evs) == 0
  {
    MergeAllKeys(s, evs);
    KeysOfSpec(evs);
    MergeAllKnown(MergeAll(s, evs), evs);
  }

  /** Events whose keys are all present leave the store as it is. */
  lemma {:induction false} MergeAllKnown(s: Store, evs: seq<Event>)
    requires forall e :: e in evs ==> EventKey(e) in s.entries
    ensures MergeAll(s, evs) == s && Added(s, evs) == 0
  {
    if evs != [] {
      var n := |evs| - 1;
      assert evs == evs[..n] + [evs[n]];
      MergeAllKnown(s, evs[..n]);
    }
  }

  lemma {:induction false} ValuesOfSpec(entries: map<Key, Event>, order: seq<Key>)
    requires forall k :: k in order ==> k in entries
    ensures |ValuesOf(entries, order)| == |order|
    ensures forall i :: 0 <= i < |order| ==> ValuesOf(entries, order)[i] == entries[order[i]]
  {
    if order != [] {
      var n := |order| - 1;
      assert order == order[..n] + [order[n]];
      ValuesOfSpec(entries, order[..n]);
    }
  }

  /** The values list each stored event once, in insertion order. */
  lemma {:induction false} ValuesSpec(s: Store)
    requires Valid(s)
    ensures Distinct(Values(s))
    ensures |Values(s)| == |s.entries|
    ensures forall e :: e in Values(s) <==> EventKey(e) in s.entries && s.entries[EventKey(e)] == e
  {
    var vs := Values(s);
    ValuesOfSpec(s.entries, s.order);
    forall i, j | 0 <= i < j < |vs| ensures vs[i] != vs[j] {
      assert EventKey(vs[i]) == s.order[i];
      assert EventKey(vs[j]) == s.order[j];
    }
    DistinctCardinality(s.order);
    assert s.entries.Keys == Elements(s.order);
    forall e | EventKey(e) in s.entries && s.entries[EventKey(e)] == e ensures e in vs {
      var i :| 0 <= i < |s.order| && s.order[i] == EventKey(e);
      assert vs[i] == e;
    }
  }

  /** `final_events`: sorted by `(date, start, title)`, a permutation of the
      stored values, one event per key and no event twice. */
  lemma {:induction false} FinalizeSpec(s: Store)
    requires Valid(s)
    ensures Sorted(Finalize(s), EventLe)
    ensures multiset(Finalize(s)) == multiset(Values(s))
    ensures |Finalize(s)| == |s.entries|
    ensures Distinct(Finalize(s))
    ensures forall e :: e in Finalize(s) <==> EventKey(e) in s.entries && s.entries[EventKey(e)] == e
  {
    var vs := Values(s);
    var f := Finalize(s);
    ValuesSpec(s);
    SortDistinct(vs, EventLe);
    assert |f| == |vs| by {
      assert |multiset(f)| == |multiset(vs)|;
    }
    forall e ensures e in f <==> e in vs {
      assert e in f <==> e in multiset(f);
      assert e in vs <==> e in multiset(vs);
    }
  }

  /** Merging two lists in turn is merging their concatenation. */
  lemma {:induction false} MergeAllAppend(s: Store, a: seq<Event>, b: seq<Event>)
    ensures MergeAll(MergeAll(s, a), b) == MergeAll(s, a + b)
  {
    if b == [] {
      assert a + b == a;
    } else {
      var n := |b| - 1;
      MergeAllAppend(s, a, b[..n]);
      assert (a + b)[..|a + b| - 1] == a + b[..n];
      assert (a + b)[|a + b| - 1] == b[n];
    }
  }

  /** The exported events of a run are exactly the events scraped, each
      once, sorted by `(date, start, title)`. */
  lemma {:induction false} FinalizeOfMerge(evs: seq<Event>)
    ensures Sorted(Finalize(MergeAll(Empty, evs)), EventLe)
    ensures Distinct(Finalize(MergeAll(Empty, evs)))
    ensures forall e :: e in Finalize(MergeAll(Empty, evs)) <==> e in evs
  {
    var m := MergeAll(Empty, evs);
    MergeAllValid(Empty, evs);
    MergeAllKeys(Empty, evs);
    MergeAllStores(Empty, evs);
    KeysOfSpec(evs);
    FinalizeSpec(m);
    forall e | e in Finalize(m) ensures e in evs {
      var e' :| e' in evs && EventKey(e') == EventKey(e);
      EventKeyInjective(e, e');
    }
  }

  /** Two overlapping weeks: the second repeats the first week's course and
      adds another. The store ends with the two courses, Math first. */
  const Math := Event("Math", "2026-02-16", "09:00", "10:30", "A1")
  const Physics := Event("Physics", "2026-02-23", "14:00", "16:00", "B2")

  lemma {:induction false} TwoOverlappingWeeks()
    ensures Added(Empty, [Math]) == 1
    ensures Added(MergeAll(Empty, [Math]), [Math, Physics]) == 1
    ensures Finalize(MergeAll(MergeAll(Empty, [Math]), [Math, Physics])) == [Math, Physics]
  {
    var km, kp := EventKey(Math), EventKey(Physics);
    var s1 := Store(map[km := Math], [km]);
    var s2 := Store(map[km := Math, kp := Physics], [km, kp]);
    FirstWeek();
    SecondWeek(s1);
    assert Values(s2) == [Math, Physics] by {
      var o := [km, kp];
      assert o[..1] == [km];
      assert o[..1][..0] == [];
      assert ValuesOf(s2.entries, [km]) == [Math];
    }
    MathBeforePhysics();
  }

  lemma {:induction false} FirstWeek()
    ensures MergeAll(Empty, [Math]) == Store(map[EventKey(Math) := Math], [EventKey(Math)])
    ensures Added(Empty, [Math]) == 1
  {
    assert [Math][..0] == [];
  }

  lemma {:induction false} SecondWeek(s1: Store)
    requires s1 == Store(map[EventKey(Math) := Math], [EventKey(Math)])
    ensures MergeAll(s1, [Math, Physics])
         == Store(map[EventKey(Math) := Math, EventKey(Physics) := Physics], [EventKey(Math), EventKey(Physics)])
    ensures Added(s1, [Math, Physics]) == 1
  {
    assert [Math, Physics][..1] == [Math];
    assert [Math][..0] == [];
    assert EventKey(Math) != EventKey(Physics);
    assert MergeAll(s1, [Math]) == s1;
    assert Added(s1, [Math]) == 0;
    assert IsNew(s1, Physics);
  }

  /** The sorted order of the two courses. */
  lemma {:induction false} MathBeforePhysics()
    ensures SortEvents([Math, Physics]) == [Math, Physics]
  {
    MathFirst();
    SortPair(Math, Physics, EventLe);
  }

  lemma {:induction false} MathFirst()
    ensures EventLe(Math, Physics)
  {
    var a, b := Math.date, Physics.date;
    assert a[..8] == b[..8];
    StrLtCommonPrefix(a, b, 8);
  }
}
