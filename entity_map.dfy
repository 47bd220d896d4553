/** The archetype index: registered entities in insertion order, and for every
    component kind seen so far the set of entities indexed under it. */
module EntityMaps {
  import opened Wrappers
  import opened Lists
  import opened Ecs

  /** The map's two fields as a value. */
  datatype MapState = MapState(entities: seq<Entity>, lists: map<Kind, set<Entity>>)

  const Empty: MapState := MapState([], map[])

  /** `e` is in the set indexed under `k`. */
  predicate Listed(s: MapState, k: Kind, e: Entity) {
    k in s.lists && e in s.lists[k]
  }

  /** The per-kind sets once `e` has been put in the set of each kind in `ks`,
      a set being created for a kind not seen before. */
  function Indexed(lists: map<Kind, set<Entity>>, e: Entity, ks: seq<Kind>): map<Kind, set<Entity>> {
    map k | k in lists.Keys + (set x | x in ks) ::
      (if k in lists then lists[k] else {}) + (if k in ks then {e} else {})
  }

  /** `AddNewEntity(e)` for a non-null `e` carrying kinds `ks`. */
  function AddSpec(s: MapState, e: Entity, ks: seq<Kind>): (r: MapState)
    ensures e in s.entities ==> r == s
    ensures e !in s.entities ==> r.entities == s.entities + [e]
    ensures e !in s.entities ==> forall k :: k in ks ==> Listed(r, k, e)
    ensures forall k, x :: k in r.lists && x in r.lists[k] && x != e ==> Listed(s, k, x)
    ensures forall k, x :: k in s.lists && x in s.lists[k] ==> Listed(r, k, x)
    ensures forall k :: Listed(r, k, e) <==> Listed(s, k, e) || (e !in s.entities && k in ks)
    ensures s.lists.Keys <= r.lists.Keys
    ensures e !in s.entities ==> r.lists.Keys == s.lists.Keys + (set k | k in ks)
  {
    if e in s.entities then s
    else MapState(s.entities + [e], Indexed(s.lists, e, ks))
  }

  /** Index of the first kind in `ks` that has no set, or `|ks|`. */
  function FirstUnindexed(lists: map<Kind, set<Entity>>, ks: seq<Kind>): (j: nat)
    ensures j <= |ks|
    ensures forall i :: 0 <= i < j ==> ks[i] in lists
    ensures j < |ks| ==> ks[j] !in lists
  {
    if ks == [] then 0
    else if ks[0] !in lists then 0
    else 1 + FirstUnindexed(lists, ks[1..])
  }

  /** The per-kind sets once `e` has been taken out of the set of each kind in `ks`. */
  function Unindexed(lists: map<Kind, set<Entity>>, e: Entity, ks: seq<Kind>): map<Kind, set<Entity>> {
    map k | k in lists :: if k in ks then lists[k] - {e} else lists[k]
  }

  /** `RemoveEntity(e)` for a non-null `e` carrying kinds `ks`: the new state and
      whether it threw. An unregistered entity changes nothing. A registered one
      leaves the list first; then the sets of its kinds are visited in order and
      the first kind without a set throws, leaving the later kinds untouched. */
  function RemoveSpec(s: MapState, e: Entity, ks: seq<Kind>): (MapState, Outcome) {
    if e !in s.entities then (s, Done)
    else
      var j := FirstUnindexed(s.lists, ks);
      (MapState(RemoveFirst(s.entities, e), Unindexed(s.lists, e, ks[..j])),
       if j < |ks| then Faulted(KeyNotFound) else Done)
  }

  /** `ComponentAdded(e, k)` as written: a known kind gains `e`; an unknown kind
      gets an empty set stored, and the following `Add` on the unassigned local
      throws, so `e` is left out. */
  function ComponentAddedSpec(s: MapState, e: Entity, k: Kind): (r: (MapState, Outcome))
    ensures r.0.entities == s.entities
    ensures r.1 == Done <==> k in s.lists
    ensures r.0.lists.Keys == s.lists.Keys + {k}
    ensures k !in s.lists ==> r.0.lists[k] == {}
    ensures Listed(r.0, k, e) <==> k in s.lists
    ensures forall k', x :: k' in r.0.lists && x in r.0.lists[k'] && (k' != k || x != e) ==> Listed(s, k', x)
    ensures forall k', x :: k' in s.lists && x in s.lists[k'] ==> Listed(r.0, k', x)
  {
    if k in s.lists then (s.(lists := s.lists[k := s.lists[k] + {e}]), Done)
    else (s.(lists := s.lists[k := {}]), Faulted(NullReference))
  }

  /** What `ComponentAdded(e, k)` is evidently meant to do: put `e` in the set
      of `k`, creating that set when `k` is new. */
  function ComponentAddedIntended(s: MapState, e: Entity, k: Kind): (r: MapState)
    ensures r.entities == s.entities
    ensures r.lists.Keys == s.lists.Keys + {k}
    ensures Listed(r, k, e)
    ensures forall k', x :: k' in r.lists && x in r.lists[k'] && (k' != k || x != e) ==> Listed(s, k', x)
    ensures forall k', x :: k' in s.lists && x in s.lists[k'] ==> Listed(r, k', x)
  {
    s.(lists := s.lists[k := (if k in s.lists then s.lists[k] else {}) + {e}])
  }

  /** `ComponentRemoved(e, k)`: takes `e` out of the set of `k` when that set
      exists; never touches the entity list. */
  function ComponentRemovedSpec(s: MapState, e: Entity, k: Kind): (r: MapState)
    ensures r.entities == s.entities && r.lists.Keys == s.lists.Keys
    ensures !Listed(r, k, e)
    ensures forall k', x :: k' in r.lists && x in r.lists[k'] ==> Listed(s, k', x)
    ensures forall k', x :: k' in s.lists && x in s.lists[k'] && (k' != k || x != e) ==> Listed(r, k', x)
  {
    if k in s.lists then s.(lists := s.lists[k := s.lists[k] - {e}]) else s
  }

  /** `GetEntitiesWithComponents(kinds)`: an empty kind list throws at index 0;
      a kind without a set gives the empty result; otherwise the entities in the
      sets of all the requested kinds. */
  function Query(s: MapState, kinds: seq<Kind>): Result<set<Entity>> {
    if kinds == [] then Err(IndexOutOfRange)
    else if exists i :: 0 <= i < |kinds| && kinds[i] !in s.lists then Ok({})
    else Ok(set e | e in s.lists[kinds[0]] && forall i :: 0 <= i < |kinds| ==> e in s.lists[kinds[i]])
  }

  /** The index invariant, relative to what each registered entity carries
      (`carried`, its component kinds): no entity registered twice, and an
      entity is in the set of a kind exactly when it is registered and carries
      that kind. */
  ghost predicate Consistent(s: MapState, carried: map<Entity, seq<Kind>>) {
    && NoDups(s.entities)
    && (forall e :: e in carried ==> e in s.entities)
    && (forall e :: e in s.entities ==> e in carried)
    && (forall e, k :: e in carried && k in carried[e] ==> Listed(s, k, e))
    && (forall k, e :: k in s.lists && e in s.lists[k] ==> e in carried && k in carried[e])
  }

  /** Adding an unregistered entity keeps the index consistent with that entity
      now carrying `ks`. */
  lemma AddPreservesConsistency(s: MapState, carried: map<Entity, seq<Kind>>, e: Entity, ks: seq<Kind>)
    requires Consistent(s, carried) && e !in carried
    ensures Consistent(AddSpec(s, e, ks), carried[e := ks])
  {
    var r := AddSpec(s, e, ks);
    var c := carried[e := ks];
    forall i, j | 0 <= i < j < |r.entities| ensures r.entities[i] != r.entities[j] {
      if j == |s.entities| { assert r.entities[i] in s.entities; }
    }
  }

  /** Adding an entity that is already registered changes nothing, so the same
      entity is never listed or indexed twice. */
  lemma AddTwiceIsAddOnce(s: MapState, e: Entity, ks: seq<Kind>)
    ensures AddSpec(AddSpec(s, e, ks), e, ks) == AddSpec(s, e, ks)
    ensures NoDups(s.entities) ==> NoDups(AddSpec(s, e, ks).entities)
  {
    var r := AddSpec(s, e, ks);
    if NoDups(s.entities) && e !in s.entities {
      forall i, j | 0 <= i < j < |r.entities| ensures r.entities[i] != r.entities[j] {
        if j == |s.entities| { assert r.entities[i] in s.entities; }
      }
    }
  }

  /** On a consistent index, removing a registered entity never throws, and the
      index stays consistent without it. */
  lemma RemovePreservesConsistency(s: MapState, carried: map<Entity, seq<Kind>>, e: Entity)
    requires Consistent(s, carried) && e in carried
    ensures RemoveSpec(s, e, carried[e]).1 == Done
    ensures Consistent(RemoveSpec(s, e, carried[e]).0, carried - {e})
  {
    var ks := carried[e];
    forall m | 0 <= m < |ks| ensures ks[m] in s.lists {
      assert Listed(s, ks[m], e);
    }
    var j := FirstUnindexed(s.lists, ks);
    assert j == |ks|;
    assert ks[..j] == ks;
    var r := RemoveSpec(s, e, ks).0;
    assert r.lists == Unindexed(s.lists, e, ks);
    RemoveFirstNoDups(s.entities, e);
    var c := carried - {e};
    assert r.entities == RemoveFirst(s.entities, e);
    forall x | x in r.entities ensures x in c {
      assert x in RemoveFirst(s.entities, e);
      assert x in s.entities;
      assert x != e;
    }
    forall x, k | x in c && k in c[x] ensures Listed(r, k, x) {
      assert x != e && k in carried[x];
      assert Listed(s, k, x);
    }
    forall k, x | k in r.lists && x in r.lists[k] ensures x in c && k in c[x] {
      assert x in s.lists[k];
    }
  }

  /** A component appended to a registered entity without notifying the map,
      of a kind the map has never seen, makes `RemoveEntity` throw on that kind;
      by then the entity has left the list and every set it was indexed in. */
  lemma RemoveThrowsAfterUnnotifiedAppend(s: MapState, carried: map<Entity, seq<Kind>>, e: Entity, k: Kind)
    requires Consistent(s, carried) && e in carried && k !in s.lists
    ensures RemoveSpec(s, e, carried[e] + [k]).1 == Faulted(KeyNotFound)
    ensures var r := RemoveSpec(s, e, carried[e] + [k]).0;
            e !in r.entities && forall k' :: !Listed(r, k', e)
  {
    var ks := carried[e] + [k];
    var j := FirstUnindexed(s.lists, ks);
    forall m | 0 <= m < |carried[e]| ensures ks[m] in s.lists {
      assert ks[m] == carried[e][m];
      assert Listed(s, ks[m], e);
    }
    assert ks[|carried[e]|] == k;
    assert j == |carried[e]|;
    assert ks[..j] == carried[e];
    RemoveFirstNoDups(s.entities, e);
    var r := RemoveSpec(s, e, ks).0;
    forall k' ensures !Listed(r, k', e) {
      if Listed(s, k', e) { assert k' in carried[e]; }
    }
  }

  /** On a consistent index, a query with at least one kind returns exactly the
      registered entities that carry every requested kind. */
  lemma QueryOnConsistentIndex(s: MapState, carried: map<Entity, seq<Kind>>, kinds: seq<Kind>)
    requires Consistent(s, carried) && kinds != []
    ensures Query(s, kinds) == Ok(set e | e in carried && forall i :: 0 <= i < |kinds| ==> kinds[i] in carried[e])
  {
    var want := set e | e in carried && forall i :: 0 <= i < |kinds| ==> kinds[i] in carried[e];
    if i :| 0 <= i < |kinds| && kinds[i] !in s.lists {
      assert want == {};
    } else {
      var got := Query(s, kinds).value;
      forall e ensures e in got <==> e in want {
        if e in got {
          assert Listed(s, kinds[0], e);
          forall i | 0 <= i < |kinds| ensures kinds[i] in carried[e] { assert Listed(s, kinds[i], e); }
        }
        if e in want {
          forall i | 0 <= i < |kinds| ensures e in s.lists[kinds[i]] { assert kinds[i] in carried[e]; }
          assert kinds[0] in carried[e];
        }
      }
      assert got == want;
    }
  }

  /** A two-kind query is the intersection of the two one-kind queries. */
  lemma QueryPairIsIntersection(s: MapState, k1: Kind, k2: Kind)
    ensures Query(s, [k1, k2]) == Ok(Query(s, [k1]).value * Query(s, [k2]).value)
  {
    var kinds := [k1, k2];
    QuerySingle(s, k1);
    QuerySingle(s, k2);
    if k1 in s.lists && k2 in s.lists {
      var got := Query(s, kinds).value;
      forall e | e in got ensures e in s.lists[k1] && e in s.lists[k2] {
        assert e in s.lists[kinds[1]];
      }
      forall e | e in s.lists[k1] && e in s.lists[k2] ensures e in got {
        assert forall i :: 0 <= i < |kinds| ==> e in s.lists[kinds[i]];
      }
      assert got == s.lists[k1] * s.lists[k2];
    } else if k1 !in s.lists {
      assert kinds[0] !in s.lists;
      assert {} * Query(s, [k2]).value == {};
    } else {
      assert kinds[1] !in s.lists;
      assert Query(s, [k1]).value * {} == {};
    }
  }

  /** A one-kind query is that kind's set, or empty when the kind is unknown. */
  lemma QuerySingle(s: MapState, k: Kind)
    ensures Query(s, [k]) == Ok(if k in s.lists then s.lists[k] else {})
  {
    if k in s.lists {
      var got := Query(s, [k]).value;
      forall e | e in s.lists[k] ensures e in got {
        assert forall i :: 0 <= i < |[k]| ==> e in s.lists[[k][i]];
      }
      assert got == s.lists[k];
    } else {
      assert [k][0] !in s.lists;
    }
  }

  /** Once removed from a consistent index, an entity is in no query result. */
  lemma QueryAfterRemove(s: MapState, carried: map<Entity, seq<Kind>>, e: Entity, kinds: seq<Kind>)
    requires Consistent(s, carried) && e in carried && kinds != []
    ensures e !in Query(RemoveSpec(s, e, carried[e]).0, kinds).value
  {
    RemovePreservesConsistency(s, carried, e);
    QueryOnConsistentIndex(RemoveSpec(s, e, carried[e]).0, carried - {e}, kinds);
  }

  /** Attaching a component to a registered entity and notifying the map with the
      intended `ComponentAdded` keeps the index consistent. */
  lemma AttachIntendedPreservesConsistency(s: MapState, carried: map<Entity, seq<Kind>>, e: Entity, k: Kind)
    requires Consistent(s, carried) && e in carried
    ensures Consistent(ComponentAddedIntended(s, e, k), carried[e := carried[e] + [k]])
  {
    var r := ComponentAddedIntended(s, e, k);
    var c := carried[e := carried[e] + [k]];
    forall x, k' | x in c && k' in c[x] ensures Listed(r, k', x) {
      if x != e || k' != k {
        assert k' in carried[x];
      }
    }
    forall k', x | Listed(r, k', x) ensures x in c && k' in c[x] {
      if x != e || k' != k {
        assert Listed(s, k', x);
      }
    }
  }

  /** As written, notifying the map of a component of a kind it has never seen
      throws, and the index is left inconsistent: the entity carries the kind
      but is not in its (new, empty) set. */
  lemma AttachAsWrittenBreaksConsistency(s: MapState, carried: map<Entity, seq<Kind>>, e: Entity, k: Kind)
    requires Consistent(s, carried) && e in carried && k !in s.lists
    ensures ComponentAddedSpec(s, e, k).1 == Faulted(NullReference)
    ensures !Consistent(ComponentAddedSpec(s, e, k).0, carried[e := carried[e] + [k]])
  {
    var c := carried[e := carried[e] + [k]];
    assert k in c[e];
  }

  /** Detaching a component and notifying the map keeps the index consistent
      when the entity no longer carries that kind (`after` is what it carries
      now); when a second component of the kind remains, the entity drops out of
      a set it should be in. */
  lemma DetachNotified(s: MapState, carried: map<Entity, seq<Kind>>, e: Entity, k: Kind, after: seq<Kind>)
    requires Consistent(s, carried) && e in carried
    requires forall x :: x in after ==> x in carried[e]
    requires forall x :: x in carried[e] && x != k ==> x in after
    ensures Consistent(ComponentRemovedSpec(s, e, k), carried[e := after]) <==> k !in after
  {
    var r := ComponentRemovedSpec(s, e, k);
    var c := carried[e := after];
    if k !in after {
      forall x, k' | x in c && k' in c[x] ensures Listed(r, k', x) {
        assert k' in carried[x];
      }
      forall k', x: Entity | Listed(r, k', x) ensures x in c && k' in c[x] {
        assert Listed(s, k', x);
      }
    } else {
      assert k in c[e] && !Listed(r, k, e);
    }
  }

  /** The state reached from `s` by adding each of `es` in order, skipping nulls
      (the loop of the list constructor and of `Reset`). */
  ghost function Replay(s: MapState, es: seq<Entity?>): MapState
    reads es
  {
    if es == [] then s
    else
      var prev := Replay(s, es[..|es| - 1]);
      var last := es[|es| - 1];
      if last == null then prev else AddSpec(prev, last, Kinds(last.components))
  }

  /** One more input replays as one more `AddNewEntity`. */
  lemma ReplayStep(es: seq<Entity?>, i: nat)
    requires i < |es|
    ensures Replay(Empty, es[..i + 1]) ==
            if es[i] == null then Replay(Empty, es[..i])
            else AddSpec(Replay(Empty, es[..i]), es[i], Kinds(es[i].components))
  {
    assert es[..i + 1][..i] == es[..i];
  }

  /** Enumeration order after the inputs are replayed into an empty map: each
      non-null input once, ordered by first appearance among the inputs. */
  lemma {:induction false} ReplayEnumeration(es: seq<Entity?>)
    ensures var r := Replay(Empty, es).entities;
            && NoDups(r)
            && (forall i :: 0 <= i < |r| ==> r[i] in es)
            && (forall x: Entity :: x in es ==> x in r)
            && (forall i, j :: 0 <= i < j < |r| ==> IndexOf(es, r[i]) < IndexOf(es, r[j]))
  {
    if es != [] {
      var init := es[..|es| - 1];
      var last := es[|es| - 1];
      assert es == init + [last];
      ReplayEnumeration(init);
      var p := Replay(Empty, init).entities;
      assert Replay(Empty, es).entities == if last != null && last !in p then p + [last] else p;
      EnumerationStep(init, last, p);
    }
  }

  /** One replay step keeps the enumeration duplicate-free and ordered by
      first appearance among the inputs. */
  lemma EnumerationStep(init: seq<Entity?>, last: Entity?, p: seq<Entity>)
    requires NoDups(p)
    requires forall i :: 0 <= i < |p| ==> p[i] in init
    requires forall x: Entity :: x in init ==> x in p
    requires forall i, j :: 0 <= i < j < |p| ==> IndexOf(init, p[i]) < IndexOf(init, p[j])
    ensures var es := init + [last];
            var r := if last != null && last !in p then p + [last] else p;
            && NoDups(r)
            && (forall i :: 0 <= i < |r| ==> r[i] in es)
            && (forall x: Entity :: x in es ==> x in r)
            && (forall i, j :: 0 <= i < j < |r| ==> IndexOf(es, r[i]) < IndexOf(es, r[j]))
  {
    EarlierIndexes(init, last, p);
    if last != null && last !in p {
      AppendedInOrder(init, last, p);
    } else {
      var es := init + [last];
      forall i | 0 <= i < |p| ensures p[i] in es {
        assert p[i] in init;
      }
    }
  }

  /** Inputs already enumerated keep their first positions when one more input
      follows. */
  lemma EarlierIndexes(init: seq<Entity?>, last: Entity?, p: seq<Entity>)
    requires forall i :: 0 <= i < |p| ==> p[i] in init
    ensures forall m :: 0 <= m < |p| ==> IndexOf(init + [last], p[m]) == IndexOf(init, p[m]) < |init|
  {
    var es := init + [last];
    assert es[..|init|] == init;
    forall m | 0 <= m < |p| ensures IndexOf(es, p[m]) == IndexOf(init, p[m]) < |init| {
      IndexOfPrefix<Entity?>(init, es, p[m]);
    }
  }

  /** A new input appended to the enumeration keeps it duplicate-free and
      inside the inputs. */
  lemma AppendedInOrder(init: seq<Entity?>, last: Entity, p: seq<Entity>)
    requires NoDups(p) && last !in p
    requires forall i :: 0 <= i < |p| ==> p[i] in init
    requires forall x: Entity :: x in init ==> x in p
    requires forall i, j :: 0 <= i < j < |p| ==> IndexOf(init, p[i]) < IndexOf(init, p[j])
    requires forall m :: 0 <= m < |p| ==> IndexOf(init + [last], p[m]) == IndexOf(init, p[m]) < |init|
    ensures var es := init + [last];
            var r := p + [last];
            && NoDups(r)
            && (forall i :: 0 <= i < |r| ==> r[i] in es)
            && (forall i, j :: 0 <= i < j < |r| ==> IndexOf(es, r[i]) < IndexOf(es, r[j]))
  {
    var es := init + [last];
    var r := p + [last];
    assert last !in init;
    AppendedLast(init, last, p);
    forall i, j | 0 <= i < j < |r| ensures r[i] != r[j] {
      assert r[i] == p[i];
    }
    forall i | 0 <= i < |r| ensures r[i] in es {
      if i < |p| { assert r[i] == p[i] && p[i] in init; } else { assert r[i] == es[|init|]; }
    }
  }

  /** An input not seen before first occurs after every earlier one. */
  lemma AppendedLast(init: seq<Entity?>, last: Entity, p: seq<Entity>)
    requires last !in init
    requires forall i, j :: 0 <= i < j < |p| ==> IndexOf(init, p[i]) < IndexOf(init, p[j])
    requires forall m :: 0 <= m < |p| ==> IndexOf(init + [last], p[m]) == IndexOf(init, p[m]) < |init|
    ensures var es := init + [last];
            var r := p + [last];
            forall i, j :: 0 <= i < j < |r| ==> IndexOf(es, r[i]) < IndexOf(es, r[j])
  {
    var es := init + [last];
    var r := p + [last];
    assert IndexOf(es, last) == |init| by {
      assert es[..|init|] == init;
      IndexOfPrefix<Entity?>(init, es, last);
    }
    forall i, j | 0 <= i < j < |r| ensures IndexOf(es, r[i]) < IndexOf(es, r[j]) {
      assert r[i] == p[i];
      if j < |p| {
        assert r[j] == p[j];
        assert IndexOf(init, p[i]) < IndexOf(init, p[j]);
      } else {
        assert r[j] == last;
      }
    }
  }

  /** First occurrences in a prefix are first occurrences in the whole; an
      element outside the prefix first occurs after it. */
  lemma IndexOfPrefix<T>(init: seq<T>, s: seq<T>, x: T)
    requires |init| <= |s| && init == s[..|init|]
    ensures x in init ==> IndexOf(s, x) == IndexOf(init, x)
    ensures x !in init ==> IndexOf(s, x) >= |init|
  {
    IndexOfFirst(s, x);
    IndexOfFirst(init, x);
    var i := IndexOf(s, x);
    if i < |init| {
      assert init[i] == x;
    }
    if x in init {
      assert s[IndexOf(init, x)] == x;
    }
  }

  /** Registered entities and the kinds each currently carries. */
  ghost function CarriedBy(es: seq<Entity>): map<Entity, seq<Kind>>
    reads es
  {
    map e | e in es :: Kinds(e.components)
  }

  /** Indexing under no kind changes nothing. */
  lemma IndexedNone(lists: map<Kind, set<Entity>>, e: Entity)
    ensures Indexed(lists, e, []) == lists
  {
    var r := Indexed(lists, e, []);
    assert r.Keys == lists.Keys;
    forall k | k in r ensures r[k] == lists[k] {
      assert r[k] == lists[k] + {};
    }
  }

  /** Indexing under one more kind updates the set of that kind alone. */
  lemma IndexedStep(lists: map<Kind, set<Entity>>, e: Entity, ks: seq<Kind>, i: nat)
    requires i < |ks|
    ensures var cur := Indexed(lists, e, ks[..i]);
            Indexed(lists, e, ks[..i + 1]) == cur[ks[i] := (if ks[i] in cur then cur[ks[i]] else {}) + {e}]
  {
    var k := ks[i];
    assert ks[..i + 1] == ks[..i] + [k];
    var cur := Indexed(lists, e, ks[..i]);
    var next := Indexed(lists, e, ks[..i + 1]);
    var want := cur[k := (if k in cur then cur[k] else {}) + {e}];
    assert forall x :: x in ks[..i + 1] <==> x in ks[..i] || x == k;
    assert next.Keys == want.Keys;
    forall x | x in next ensures next[x] == want[x] {
      if x != k {
        assert x in cur;
      }
    }
  }

  /** Unindexing under one more known kind updates the set of that kind alone. */
  lemma UnindexedStep(lists: map<Kind, set<Entity>>, e: Entity, ks: seq<Kind>, i: nat)
    requires i < |ks| && ks[i] in lists
    ensures Unindexed(lists, e, ks[..i]).Keys == lists.Keys
    ensures var cur := Unindexed(lists, e, ks[..i]);
            Unindexed(lists, e, ks[..i + 1]) == cur[ks[i] := cur[ks[i]] - {e}]
  {
    var k := ks[i];
    assert ks[..i + 1] == ks[..i] + [k];
    var cur := Unindexed(lists, e, ks[..i]);
    var next := Unindexed(lists, e, ks[..i + 1]);
    var want := cur[k := cur[k] - {e}];
    assert forall x :: x in ks[..i + 1] <==> x in ks[..i] || x == k;
    assert next.Keys == want.Keys;
    forall x | x in next ensures next[x] == want[x] {
      if x == k {
        assert next[x] == lists[k] - {e};
      }
    }
  }


  /** Registering one more entity adds exactly its entry to what is carried. */
  lemma CarriedByAppend(es: seq<Entity>, e: Entity)
    requires e !in es
    ensures CarriedBy(es + [e]) == CarriedBy(es)[e := Kinds(e.components)]
  {
    assert forall x :: x in es + [e] <==> x in es || x == e;
  }

  /** Deregistering an entity drops exactly its entry from what is carried. */
  lemma CarriedByRemove(es: seq<Entity>, e: Entity)
    requires NoDups(es)
    ensures CarriedBy(RemoveFirst(es, e)) == CarriedBy(es) - {e}
  {
    RemoveFirstNoDups(es, e);
    var a := CarriedBy(RemoveFirst(es, e));
    var b := CarriedBy(es) - {e};
    assert a.Keys == b.Keys;
  }

  /** Adding an unregistered entity to a synced index leaves it synced. */
  lemma AddKeepsSynced(s: MapState, e: Entity)
    requires Consistent(s, CarriedBy(s.entities)) && e !in s.entities
    ensures Consistent(AddSpec(s, e, Kinds(e.components)), CarriedBy(s.entities + [e]))
  {
    AddPreservesConsistency(s, CarriedBy(s.entities), e, Kinds(e.components));
    CarriedByAppend(s.entities, e);
  }

  /** Removing a registered entity from a synced index never throws and leaves
      it synced. */
  lemma RemoveKeepsSynced(s: MapState, e: Entity)
    requires Consistent(s, CarriedBy(s.entities)) && e in s.entities
    ensures RemoveSpec(s, e, Kinds(e.components)).1 == Done
    ensures Consistent(RemoveSpec(s, e, Kinds(e.components)).0, CarriedBy(RemoveFirst(s.entities, e)))
  {
    RemovePreservesConsistency(s, CarriedBy(s.entities), e);
    CarriedByRemove(s.entities, e);
  }

  /** The index, as the object `EntityMap`. */
  class EntityMap {
    var entities: seq<Entity>
    var entityLists: map<Kind, set<Entity>>

    ghost predicate Valid()
      reads this
    {
      NoDups(entities)
    }

    function State(): MapState
      reads this
    {
      MapState(entities, entityLists)
    }

    /** The index agrees with what every registered entity carries right now. */
    ghost predicate Synced()
      reads this, entities
    {
      Consistent(State(), CarriedBy(entities))
    }

    /** `new EntityMap()`. */
    constructor()
      ensures Valid() && Synced()
      ensures State() == Empty
    {
      entities := [];
      entityLists := map[];
    }

    /** `new EntityMap(entities)`: adds each entity in order. */
    constructor FromEntities(es: seq<Entity?>)
      ensures Valid() && Synced()
      ensures State() == Replay(Empty, es)
    {
      entities := [];
      entityLists := map[];
      new;
      for i := 0 to |es|
        invariant Valid() && Synced()
        invariant State() == Replay(Empty, es[..i])
      {
        AddNewEntity(es[i]);
        ReplayStep(es, i);
      }
      assert es[..|es|] == es;
    }

    /** `Reset(entities)`: starts from an empty map and adds each entity in order. */
    method Reset(es: seq<Entity?>)
      modifies this
      ensures Valid() && Synced()
      ensures State() == Replay(Empty, es)
    {
      entities := [];
      entityLists := map[];
      for i := 0 to |es|
        invariant Valid() && Synced()
        invariant State() == Replay(Empty, es[..i])
      {
        AddNewEntity(es[i]);
        ReplayStep(es, i);
      }
      assert es[..|es|] == es;
    }

    /** `AddNewEntity(e)`: a no-op for null or a registered entity; otherwise
        appends `e` and puts it in the set of every kind it carries. */
    method AddNewEntity(e: Entity?)
      requires Valid()
      modifies this
      ensures Valid()
      ensures e == null ==> State() == old(State())
      ensures e != null ==> State() == AddSpec(old(State()), e, Kinds(e.components))
      ensures old(Synced()) ==> Synced()
    {
      if e == null || e in entities {
        return;
      }
      var ent: Entity := e;
      ghost var before := State();
      ghost var carried := CarriedBy(before.entities);
      AddTwiceIsAddOnce(before, ent, Kinds(ent.components));
      entities := entities + [ent];
      Index(ent);
      assert unchanged(before.entities);
      assert CarriedBy(before.entities) == carried;
      if old(Synced()) {
        AddKeepsSynced(before, ent);
      }
    }

    /** The `foreach` of `AddNewEntity`: puts `e` in the set of each kind it
        carries, creating the set of a kind seen for the first time. */
    method Index(e: Entity)
      modifies this
      ensures entities == old(entities)
      ensures entityLists == Indexed(old(entityLists), e, Kinds(e.components))
    {
      ghost var lists := entityLists;
      ghost var ks := Kinds(e.components);
      IndexedNone(lists, e);
      assert ks[..0] == [];
      for i := 0 to |e.components|
        invariant entities == old(entities)
        invariant entityLists == Indexed(lists, e, ks[..i])
      {
        var k := KindOf(e.components[i]);
        assert k == ks[i];
        IndexedStep(lists, e, ks, i);
        if k !in entityLists {
          assert {} + {e} == {e};
          entityLists := entityLists[k := {e}];
        } else {
          entityLists := entityLists[k := entityLists[k] + {e}];
        }
      }
      assert ks[..|e.components|] == ks;
    }

    /** `RemoveEntity(e)`: a no-op unless `e` is registered; otherwise takes it
        off the list and out of the set of each kind it carries, throwing at the
        first kind that has no set. On a synced index it never throws. */
    method RemoveEntity(e: Entity?) returns (outcome: Outcome)
      requires Valid()
      modifies this
      ensures Valid()
      ensures e == null ==> State() == old(State()) && outcome == Done
      ensures e != null ==> (State(), outcome) == RemoveSpec(old(State()), e, Kinds(e.components))
      ensures old(Synced()) ==> Synced() && outcome == Done
    {
      outcome := Done;
      if e == null || e !in entities {
        return;
      }
      var ent: Entity := e;
      ghost var before := State();
      ghost var carried := CarriedBy(before.entities);
      RemoveFirstNoDups(entities, ent);
      entities := RemoveFirst(entities, ent);
      outcome := Unindex(ent);
      assert unchanged(before.entities);
      assert CarriedBy(before.entities) == carried;
      if old(Synced()) {
        RemoveKeepsSynced(before, ent);
      }
    }

    /** The `foreach` of `RemoveEntity`: takes `e` out of the set of each kind
        it carries, in list order, throwing at the first kind without a set. */
    method Unindex(e: Entity) returns (outcome: Outcome)
      modifies this
      ensures entities == old(entities)
      ensures var ks := Kinds(e.components);
              var j := FirstUnindexed(old(entityLists), ks);
              && entityLists == Unindexed(old(entityLists), e, ks[..j])
              && outcome == if j < |ks| then Faulted(KeyNotFound) else Done
    {
      ghost var lists := entityLists;
      ghost var ks := Kinds(e.components);
      ghost var j := FirstUnindexed(lists, ks);
      outcome := Done;
      assert Unindexed(lists, e, ks[..0]).Keys == lists.Keys;
      for i := 0 to |e.components|
        invariant i <= j
        invariant entities == old(entities)
        invariant entityLists == Unindexed(lists, e, ks[..i])
        invariant entityLists.Keys == lists.Keys
      {
        var k := KindOf(e.components[i]);
        assert k == ks[i];
        if k !in entityLists {
          assert i == j;
          outcome := Faulted(KeyNotFound);
          return;
        }
        UnindexedStep(lists, e, ks, i);
        entityLists := entityLists[k := entityLists[k] - {e}];
      }
      assert ks[..|e.components|] == ks;
    }

    /** `ComponentAdded(e, k)`, as written: see `ComponentAddedSpec`. */
    method ComponentAdded(e: Entity?, k: Kind) returns (outcome: Outcome)
      modifies this
      ensures e == null ==> State() == old(State()) && outcome == Done
      ensures e != null ==> (State(), outcome) == ComponentAddedSpec(old(State()), e, k)
    {
      outcome := Done;
      if e == null {
        return;
      }
      if k !in entityLists {
        entityLists := entityLists[k := {}];
        outcome := Faulted(NullReference);
        return;
      }
      entityLists := entityLists[k := entityLists[k] + {e}];
    }

    /** `ComponentRemoved(e, k)`: see `ComponentRemovedSpec`. */
    method ComponentRemoved(e: Entity?, k: Kind)
      modifies this
      ensures e == null ==> State() == old(State())
      ensures e != null ==> State() == ComponentRemovedSpec(old(State()), e, k)
    {
      if k in entityLists && e != null {
        entityLists := entityLists[k := entityLists[k] - {e}];
      }
    }

    /** `GetEntitiesWithComponents(kinds)`: copies the first kind's set and
        intersects it with each further kind's set, returning early with an
        empty result at the first kind without a set. Reads the map only. */
    method GetEntitiesWithComponents(kinds: seq<Kind>) returns (r: Result<set<Entity>>)
      ensures r == Query(State(), kinds)
    {
      if |kinds| == 0 {
        return Err(IndexOutOfRange);
      }
      if kinds[0] !in entityLists {
        return Ok({});
      }
      var result := entityLists[kinds[0]];
      for i := 1 to |kinds|
        invariant forall m :: 0 <= m < i ==> kinds[m] in entityLists
        invariant result == set e | e in entityLists[kinds[0]] && forall m :: 0 <= m < i ==> e in entityLists[kinds[m]]
      {
        if kinds[i] !in entityLists {
          return Ok({});
        }
        result := result * entityLists[kinds[i]];
      }
      r := Ok(result);
    }

    /** Enumerating the map yields the registered entities in insertion order. */
    function Enumerate(): seq<Entity>
      reads this
    {
      entities
    }
  }
}
