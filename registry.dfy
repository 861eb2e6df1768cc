/** The registry: a map from entity ids to entities, the id counter that
    hands out new ids, and the query `get<Ts...>()` that assembles a view
    of the entities holding the requested component types. */
module Registries {
  import opened Sizes
  import opened Bitflags
  import opened Components
  import opened Entities
  import opened Views

  /** An entity as a query sees it: its signature flags and its slots. */
  datatype EntityState = EntityState(flags: seq<bool>, slots: seq<Component?>)

  /** The state `insert(tag, comp)` leaves: when the tag is free, the
      signature and the slots grown to cover it, with the flag set and comp
      stored; otherwise the state unchanged. Afterwards the entity is
      consistent and holds a component under tag. */
  function Inserted(s: EntityState, tag: nat, comp: Component): (r: EntityState)
    requires Consistent(s.flags, s.slots) && (tag < |s.slots| || |s.flags| <= tag)
    ensures Consistent(r.flags, r.slots)
    ensures tag < |r.slots| && r.flags[tag] && r.slots[tag] != null
    ensures InsertAccepts(s.flags, tag) ==> r.slots[tag] == comp
    ensures !InsertAccepts(s.flags, tag) ==> r == s
  {
    if InsertAccepts(s.flags, tag) then
      var n := Grown(|s.flags|, tag);
      var flags, slots := Resized(s.flags, n)[tag := true], Padded(s.slots, n)[tag := comp];
      assert Consistent(flags, slots) by {
        forall i | 0 <= i < n ensures slots[i] != null <==> flags[i] {
          if i != tag && i < |s.slots| {
            assert slots[i] == Padded(s.slots, n)[..|s.slots|][i];
          }
        }
      }
      EntityState(flags, slots)
    else s
  }

  /** The state `remove(tag)` leaves: a stored component is dropped and its
      flag cleared; otherwise the state unchanged. */
  function Removed(s: EntityState, tag: nat): (r: EntityState)
    requires Consistent(s.flags, s.slots)
    ensures Consistent(r.flags, r.slots) && |r.flags| == |s.flags| && |r.slots| == |s.slots|
    ensures !(tag < |r.slots| && r.slots[tag] != null)
    ensures forall i :: 0 <= i < |s.slots| && i != tag ==> r.slots[i] == s.slots[i]
  {
    if tag < |s.flags| && s.flags[tag] then EntityState(s.flags[tag := false], s.slots[tag := null])
    else s
  }

  // ---------------------------------------------------------------------
  // The query bitflag

  /** One step of `fillBitflag`: grow the flags to tag + 1 when they are not
      above the tag, then set flag tag. */
  function Step(flags: seq<bool>, tag: nat): (r: seq<bool>)
    ensures |r| == Grown(|flags|, tag)
  {
    (if |flags| <= tag then Resized(flags, tag + 1) else flags)[tag := true]
  }

  /** The flags `fillBitflag<Ts...>` leaves in a bitflag holding flags: one
      step per listed type, in list order. */
  function Filled(flags: seq<bool>, types: seq<nat>): seq<bool>
    decreases |types|
  {
    if types == [] then flags else Filled(Step(flags, types[0]), types[1..])
  }

  /** The query bitflag of `get<Ts...>()`: `fillBitflag<Ts...>` applied to a
      default bitflag, which has one cleared flag. */
  function Query(types: seq<nat>): seq<bool>
  {
    Filled(Cleared(1), types)
  }

  /** `fillBitflag` keeps the flags it found, sets exactly the listed tags,
      and grows the flags no further than the largest listed tag needs. */
  lemma {:induction false} FilledFlags(flags: seq<bool>, types: seq<nat>)
    ensures |flags| <= |Filled(flags, types)|
    ensures forall k :: 0 <= k < |types| ==> types[k] < |Filled(flags, types)|
    ensures forall i :: 0 <= i < |Filled(flags, types)| ==>
              (Filled(flags, types)[i] <==> (i < |flags| && flags[i]) || i in types)
    ensures |Filled(flags, types)| == |flags| || |Filled(flags, types)| - 1 in types
    decreases |types|
  {
    if types != [] {
      var t := types[0];
      var g := Step(flags, t);
      var rest := types[1..];
      FilledFlags(g, rest);
      var r := Filled(g, rest);
      assert r == Filled(flags, types);
      assert forall i :: 0 <= i < |g| ==> (g[i] <==> (i < |flags| && flags[i]) || i == t);
      forall i | 0 <= i < |r|
        ensures r[i] <==> (i < |flags| && flags[i]) || i in types
      {
        assert (i in types) == (i == t || i in rest);
      }
      forall k | 0 <= k < |types| ensures types[k] < |r| {
        if k > 0 {
          assert types[k] == rest[k - 1];
        }
      }
    }
  }

  /** The query of `get<Ts...>()` has exactly the listed tags set, and its
      size is the largest tag plus one, or the default 1. */
  lemma QueryFlags(types: seq<nat>)
    ensures |Query(types)| >= 1
    ensures forall k :: 0 <= k < |types| ==> types[k] < |Query(types)|
    ensures forall i :: 0 <= i < |Query(types)| ==> (Query(types)[i] <==> i in types)
    ensures |Query(types)| == 1 || |Query(types)| - 1 in types
  {
    FilledFlags(Cleared(1), types);
  }

  /** `fillBitflag<Ts...>(bf)`: for each listed type in order, grows bf to
      tag + 1 when it is not above the tag, then sets flag tag. */
  method FillBitflag(bf: Bitflag, types: seq<nat>)
    requires bf.Valid()
    modifies bf
    ensures bf.Valid() && bf.Flags == Filled(old(bf.Flags), types)
  {
    var j := 0;
    while j < |types|
      invariant j <= |types| && bf.Valid()
      invariant Filled(bf.Flags, types[j..]) == Filled(old(bf.Flags), types)
    {
      var t := types[j];
      assert types[j..][1..] == types[j + 1..];
      if bf.size <= t {
        bf.Resize(t + 1);
      }
      bf.Set(t, true);
      j := j + 1;
    }
  }

  // ---------------------------------------------------------------------
  // Ascending key order, as `std::map` iterates

  /** The least element of a non-empty set of ids. */
  ghost function Least(s: set<nat>): (m: nat)
    requires s != {}
    ensures m in s && forall x :: x in s ==> m <= x
    decreases s
  {
    var y :| y in s;
    var rest := s - {y};
    assert forall x :: x in s ==> x == y || x in rest;
    if rest == {} then y
    else
      var m := Least(rest);
      if y < m then y else m
  }

  /** The elements of s are strictly ascending. */
  predicate Increasing(s: seq<nat>)
  {
    forall i, j :: 0 <= i < j < |s| ==> s[i] < s[j]
  }

  /** The keys of a map in the order `std::map` visits them. */
  ghost function Ascending(s: set<nat>): (r: seq<nat>)
    ensures forall x :: x in r <==> x in s
    ensures Increasing(r)
  {
    if s == {} then []
    else
      var m := Least(s);
      [m] + Ascending(s - {m})
  }

  /** The visit starts at the least key. */
  lemma AscendingFirst(s: set<nat>, m: nat)
    requires m in s && forall x :: x in s ==> m <= x
    ensures Ascending(s) == [m] + Ascending(s - {m})
  {
    assert Least(s) <= m && m <= Least(s);
  }

  /** Taking the least element of s moves it from the ascending rest to the
      visited prefix. */
  lemma VisitLeast(visited: seq<nat>, s: set<nat>, m: nat)
    requires m in s && forall x :: x in s ==> m <= x
    ensures visited + [m] + Ascending(s - {m}) == visited + Ascending(s)
  {
    AscendingFirst(s, m);
    assert visited + [m] + Ascending(s - {m}) == visited + ([m] + Ascending(s - {m}));
  }

  // ---------------------------------------------------------------------
  // The view `get<Ts...>()` assembles

  /** The ids of order, in order, whose entities the query q admits. */
  function Admitted(snap: map<nat, EntityState>, order: seq<nat>, q: seq<bool>): seq<nat>
    requires |q| >= 1 && forall x :: x in order ==> x in snap
    decreases |order|
  {
    if order == [] then []
    else
      var last := order[|order| - 1];
      Admitted(snap, order[..|order| - 1], q) + if Admits(snap[last].flags, q) then [last] else []
  }

  /** Every entity of ids has a slot for each listed type. */
  predicate Covers(snap: map<nat, EntityState>, ids: seq<nat>, types: seq<nat>)
  {
    forall x :: x in ids ==> x in snap && forall k :: 0 <= k < |types| ==> types[k] < |snap[x].slots|
  }

  /** The resources `collectData` appends, entity after entity: each
      entity's slots of the listed types, in list order. */
  function Collected(snap: map<nat, EntityState>, ids: seq<nat>, types: seq<nat>): seq<Component?>
    requires Covers(snap, ids, types)
    decreases |ids|
  {
    if ids == [] then []
    else
      var last := ids[|ids| - 1];
      Collected(snap, ids[..|ids| - 1], types) + Gathered(snap[last].slots, types)
  }

  /** Every entity of the snapshot is consistent. */
  predicate AllConsistent(snap: map<nat, EntityState>)
  {
    forall id :: id in snap ==> Consistent(snap[id].flags, snap[id].slots)
  }

  /** What `get<Ts...>()` returns for a registry whose entities are snap:
      the ids in ascending order that the query bitflag admits, and for each
      of them its slots of the listed types. */
  ghost function Queried(snap: map<nat, EntityState>, types: seq<nat>): View
    requires |types| >= 1 && AllConsistent(snap)
  {
    QueryFlags(types);
    var ids := Admitted(snap, Ascending(snap.Keys), Query(types));
    QueriedCovers(snap, types, Ascending(snap.Keys));
    View(types, ids, Collected(snap, ids, types))
  }

  /** The ids admitted are exactly those of order whose entity the query
      admits. */
  lemma {:induction false} AdmittedMembers(snap: map<nat, EntityState>, order: seq<nat>, q: seq<bool>)
    requires |q| >= 1 && forall x :: x in order ==> x in snap
    ensures forall x :: x in Admitted(snap, order, q) <==> x in order && Admits(snap[x].flags, q)
    decreases |order|
  {
    if order != [] {
      var init := order[..|order| - 1];
      AdmittedMembers(snap, init, q);
      assert order == init + [order[|order| - 1]];
    }
  }

  /** Filtering keeps the ascending order. */
  lemma {:induction false} AdmittedAscending(snap: map<nat, EntityState>, order: seq<nat>, q: seq<bool>)
    requires |q| >= 1 && forall x :: x in order ==> x in snap
    requires Increasing(order)
    ensures Increasing(Admitted(snap, order, q))
    decreases |order|
  {
    if order != [] {
      var init := order[..|order| - 1];
      var last := order[|order| - 1];
      AdmittedAscending(snap, init, q);
      AdmittedMembers(snap, init, q);
      var prev := Admitted(snap, init, q);
      var ids := Admitted(snap, order, q);
      if Admits(snap[last].flags, q) {
        assert ids == prev + [last];
        forall i, j | 0 <= i < j < |ids| ensures ids[i] < ids[j] {
          assert ids[i] == prev[i];
          if j < |prev| {
            assert ids[j] == prev[j];
          } else {
            assert prev[i] in init;
            var a :| 0 <= a < |init| && init[a] == prev[i];
            assert init[a] == order[a];
          }
        }
      } else {
        assert ids == prev;
      }
    }
  }

  /** A new entity, whose signature is the single cleared default flag, is
      admitted by no query with a set flag. */
  lemma NewEntityAdmitsNothing(q: seq<bool>, i: nat)
    requires i < |q| && q[i]
    ensures !Admits([false], q)
  {
    if |q| == 1 {
      AndWithinOneByte([false], q);
      assert [false][..1] == [false];
    }
  }

  /** An entity the query admits has a slot for every listed type: its
      signature is at least as long as the query, and a new entity, whose
      slot vector is empty, is admitted by no query. */
  lemma AdmitsCovers(s: EntityState, types: seq<nat>)
    requires |types| >= 1 && Consistent(s.flags, s.slots)
    requires |Query(types)| >= 1 && Admits(s.flags, Query(types))
    ensures forall k :: 0 <= k < |types| ==> types[k] < |s.slots|
  {
    QueryFlags(types);
    var q := Query(types);
    NewEntityAdmitsNothing(q, types[0]);
  }

  lemma QueriedCovers(snap: map<nat, EntityState>, types: seq<nat>, order: seq<nat>)
    requires |types| >= 1 && AllConsistent(snap)
    requires forall x :: x in order ==> x in snap
    ensures |Query(types)| >= 1
    ensures Covers(snap, Admitted(snap, order, Query(types)), types)
  {
    QueryFlags(types);
    AdmittedMembers(snap, order, Query(types));
    forall x | x in Admitted(snap, order, Query(types))
      ensures forall k :: 0 <= k < |types| ==> types[k] < |snap[x].slots|
    {
      AdmitsCovers(snap[x], types);
    }
  }

  /** Each entity contributes one resource per listed type. */
  lemma {:induction false} CollectedLength(snap: map<nat, EntityState>, ids: seq<nat>, types: seq<nat>)
    requires Covers(snap, ids, types)
    ensures |Collected(snap, ids, types)| == |ids| * |types|
    decreases |ids|
  {
    if ids != [] {
      CollectedLength(snap, ids[..|ids| - 1], types);
      assert |ids| * |types| == (|ids| - 1) * |types| + |types|;
    }
  }

  /** Row r, column k of the resources is entity r's slot of the k-th listed
      type. */
  lemma {:induction false} CollectedCell(snap: map<nat, EntityState>, ids: seq<nat>, types: seq<nat>, r: nat, k: nat)
    requires Covers(snap, ids, types) && r < |ids| && k < |types|
    ensures r * |types| + k < |Collected(snap, ids, types)|
    ensures Collected(snap, ids, types)[r * |types| + k] == snap[ids[r]].slots[types[k]]
    decreases |ids|
  {
    var init := ids[..|ids| - 1];
    var prev := Collected(snap, init, types);
    var row := Gathered(snap[ids[|ids| - 1]].slots, types);
    assert Collected(snap, ids, types) == prev + row;
    if r < |init| {
      CollectedCell(snap, init, types, r, k);
      assert ids[r] == init[r];
    } else {
      CollectedLength(snap, init, types);
      assert r == |init|;
    }
  }

  /** Visiting one more id extends the admitted ids by it exactly when the
      query admits its entity. */
  lemma AdmittedStep(snap: map<nat, EntityState>, visited: seq<nat>, id: nat, q: seq<bool>)
    requires |q| >= 1 && id in snap && forall x :: x in visited ==> x in snap
    ensures forall x :: x in visited + [id] ==> x in snap
    ensures Admitted(snap, visited + [id], q)
            == Admitted(snap, visited, q) + if Admits(snap[id].flags, q) then [id] else []
  {
    var visited' := visited + [id];
    assert visited'[..|visited'| - 1] == visited;
  }

  /** Appending an entity that has a slot for every listed type appends its
      slots of those types. */
  lemma CollectedStep(snap: map<nat, EntityState>, ids: seq<nat>, id: nat, types: seq<nat>)
    requires Covers(snap, ids, types) && id in snap
    requires forall k :: 0 <= k < |types| ==> types[k] < |snap[id].slots|
    ensures Covers(snap, ids + [id], types)
    ensures Collected(snap, ids + [id], types) == Collected(snap, ids, types) + Gathered(snap[id].slots, types)
  {
    var ids' := ids + [id];
    assert forall x :: x in ids' ==> x in ids || x == id;
    assert ids'[..|ids'| - 1] == ids;
  }

  // ---------------------------------------------------------------------
  // Properties of the assembled view

  /** The view lists exactly the entities the query admits, in ascending id
      order, and holds one resource per listed type for each of them. */
  lemma QueriedShape(snap: map<nat, EntityState>, types: seq<nat>)
    requires |types| >= 1 && AllConsistent(snap)
    ensures |Query(types)| >= 1
    ensures var v := Queried(snap, types);
            && v.types == types
            && (forall id :: id in v.entities <==> id in snap && Admits(snap[id].flags, Query(types)))
            && Increasing(v.entities)
            && |v.resources| == |v.entities| * |types|
  {
    QueryFlags(types);
    var order := Ascending(snap.Keys);
    AdmittedMembers(snap, order, Query(types));
    AdmittedAscending(snap, order, Query(types));
    QueriedCovers(snap, types, order);
    var ids := Admitted(snap, order, Query(types));
    CollectedLength(snap, ids, types);
    assert Queried(snap, types) == View(types, ids, Collected(snap, ids, types));
  }

  /** In the view, `select<T>(id)` of an admitted entity is in range for
      every type T. For a listed type it yields that entity's slot of T; for
      an unlisted type, whose column is 0, the slot of the first listed
      type. */
  lemma QueriedSelect(snap: map<nat, EntityState>, types: seq<nat>, id: nat, t: nat)
    requires |types| >= 1 && AllConsistent(snap)
    requires id in Queried(snap, types).entities
    ensures var v := Queried(snap, types);
            && id in snap
            && v.Offset(FirstIndex(v.entities, id), t) < |v.resources|
            && (t in types ==>
                  && t < |snap[id].slots|
                  && v.resources[v.Offset(FirstIndex(v.entities, id), t)] == snap[id].slots[t])
            && (t !in types ==>
                  && types[0] < |snap[id].slots|
                  && v.resources[v.Offset(FirstIndex(v.entities, id), t)] == snap[id].slots[types[0]])
  {
    var v := Queried(snap, types);
    var order := Ascending(snap.Keys);
    QueryFlags(types);
    QueriedCovers(snap, types, order);
    AdmittedMembers(snap, order, Query(types));
    var r := FirstIndex(v.entities, id);
    var c := v.Column(t);
    CollectedCell(snap, v.entities, types, r, c);
    assert v.Offset(r, t) == r * |types| + c;
  }

  /** A snapshot that differs from before at most under id is before with
      the entry of id replaced. */
  lemma ChangedAt(after: map<nat, EntityState>, before: map<nat, EntityState>, id: nat)
    requires id in after && after.Keys == before.Keys
    requires forall k :: k in after && k != id ==> after[k] == before[k]
    ensures after == before[id := after[id]]
  {
  }

  // ---------------------------------------------------------------------
  // The registry

  /** The file-static `nextAvailableEntityId`, shared by every registry. */
  class IdCounter {
    var next: nat

    constructor ()
      ensures next == 0
    {
      next := 0;
    }
  }

  class Registry {
    const counter: IdCounter
    /** `mEntities`. */
    var entities: map<nat, Entity>

    /** The objects the registry's validity depends on: the entities and
        their signatures. */
    ghost var Repr: set<object>

    /** Each entity is stored under its own id, below the counter, and owns
        its signature. */
    ghost predicate Valid()
      reads this, counter, Repr
    {
      && (forall id :: id in entities ==> entities[id] in Repr && entities[id].signature in Repr)
      && (forall id :: id in entities ==> entities[id].id == id && id < counter.next)
      && (forall id :: id in entities ==> entities[id].Valid())
      && (forall a, b :: a in entities && b in entities && a != b ==>
            entities[a].signature != entities[b].signature)
    }

    /** The entities as a query sees them. */
    ghost function Snapshot(): (snap: map<nat, EntityState>)
      reads this, counter, Repr
      requires Valid()
      ensures snap.Keys == entities.Keys && AllConsistent(snap)
    {
      map id | id in entities :: EntityState(entities[id].signature.Flags, entities[id].resources)
    }

    /** A registry with no entities, drawing ids from counter. */
    constructor (counter: IdCounter)
      ensures Valid() && this.counter == counter && entities == map[]
    {
      this.counter := counter;
      entities := map[];
      Repr := {};
    }

    /** `createEntity()`: a new entity under the counter's id, after which
        the counter moves on. */
    method CreateEntity() returns (id: nat)
      requires Valid()
      modifies this, counter
      ensures Valid()
      ensures id == old(counter.next) && counter.next == id + 1
      ensures id !in old(entities) && entities.Keys == old(entities.Keys) + {id}
      ensures forall k :: k in old(entities) ==> entities[k] == old(entities[k])
      ensures fresh(entities[id]) && fresh(entities[id].signature)
      ensures entities[id].id == id
      ensures Snapshot() == old(Snapshot())[id := EntityState(Cleared(1), [])]
    {
      id := counter.next;
      var e := new Entity(id);
      Kept(this);
      Emplace(e);
    }

    /** The rest of `createEntity()`: `mEntities.emplace` of a new entity
        under the counter's id, then the counter's increment. */
    method Emplace(e: Entity)
      requires Valid() && e.Valid() && e.id == counter.next
      requires forall k :: k in entities ==> entities[k] != e && entities[k].signature != e.signature
      modifies this, counter
      ensures Valid() && entities == old(entities)[e.id := e] && counter.next == old(counter.next) + 1
      ensures Snapshot() == old(Snapshot())[e.id := EntityState(e.signature.Flags, e.resources)]
    {
      ghost var before := Snapshot();
      ghost var previous := entities;
      entities := entities[e.id := e];
      Repr := Repr + {e, e.signature};
      counter.next := counter.next + 1;
      forall k | k in previous
        ensures entities[k].Valid()
        ensures EntityState(entities[k].signature.Flags, entities[k].resources) == before[k]
      {
      }
      assert Valid();
      SnapshotGrown(before, e);
    }

    /** A valid registry that holds e besides the entities recorded in
        before, unchanged, has before with e's state as its snapshot. */
    lemma SnapshotGrown(before: map<nat, EntityState>, e: Entity)
      requires Valid() && e.id in entities && entities[e.id] == e && e.id !in before
      requires entities.Keys == before.Keys + {e.id}
      requires forall k :: k in before ==>
                 EntityState(entities[k].signature.Flags, entities[k].resources) == before[k]
      ensures Snapshot() == before[e.id := EntityState(e.signature.Flags, e.resources)]
    {
      ChangedAt(Snapshot(), before[e.id := EntityState(e.signature.Flags, e.resources)], e.id);
    }

    /** `insert(id, tag, comp)`: false for an unknown id, otherwise the
        entity's own `insert`. */
    method Insert(id: nat, tag: nat, comp: Component) returns (ok: bool)
      requires Valid()
      requires id in entities ==> tag < |entities[id].resources| || entities[id].signature.size <= tag
      modifies if id in entities then {entities[id], entities[id].signature} else {}
      ensures Valid() && entities == old(entities)
      ensures ok == (id in entities && InsertAccepts(old(entities[id].signature.Flags), tag))
      ensures id in entities ==> Snapshot() == old(Snapshot())[id := Inserted(old(Snapshot())[id], tag, comp)]
    {
      if id !in entities {
        return false;
      }
      ghost var before := Snapshot();
      var e := entities[id];
      ok := e.Insert(tag, comp);
      Touched(id);
    }

    /** `update(id, tag, comp)`: false for an unknown id, otherwise the
        entity's own `update`. */
    method Update(id: nat, tag: nat, comp: Component) returns (ok: bool)
      requires Valid()
      modifies (if id in entities then {entities[id]} else {}), comp
      ensures Valid() && entities == old(entities)
      ensures ok == (id in entities && old(entities[id].HasTag(tag))
                     && old(comp.revision) == old(entities[id].resources[tag].revision))
      ensures ok ==> Snapshot() == old(Snapshot())[id := old(Snapshot())[id].(slots := old(Snapshot())[id].slots[tag := comp])]
      ensures !ok ==> Snapshot() == old(Snapshot())
      ensures ok ==> comp.revision == Inc(old(comp.revision))
      ensures !ok ==> comp.revision == old(comp.revision)
      ensures comp.payload == old(comp.payload)
    {
      if id !in entities {
        return false;
      }
      ghost var before := Snapshot();
      var e := entities[id];
      ok := e.Update(tag, comp);
      Touched(id);
      if !ok {
        assert before[id] == EntityState(e.signature.Flags, e.resources);
      }
    }

    /** `remove(id, tag)`: false for an unknown id, otherwise the entity's
        own `remove`. */
    method Remove(id: nat, tag: nat) returns (ok: bool)
      requires Valid()
      modifies if id in entities then {entities[id], entities[id].signature} else {}
      ensures Valid() && entities == old(entities)
      ensures ok == (id in entities && old(entities[id].HasTag(tag)))
      ensures id in entities ==> Snapshot() == old(Snapshot())[id := Removed(old(Snapshot())[id], tag)]
    {
      if id !in entities {
        return false;
      }
      var e := entities[id];
      ok := e.Remove(tag);
      Touched(id);
    }

    /** `remove(id)`: erases the entity of id, which must be present. */
    method RemoveEntity(id: nat)
      requires Valid() && id in entities
      modifies this
      ensures Valid() && entities == old(entities) - {id}
      ensures Snapshot() == old(Snapshot()) - {id}
    {
      entities := entities - {id};
      Shrunk(id);
    }

    /** A stored entity's signature and slots, read off the snapshot. */
    lemma SnapshotAt(id: nat)
      requires Valid() && id in entities
      ensures entities[id].signature.Flags == Snapshot()[id].flags
      ensures entities[id].signature.size == |Snapshot()[id].flags|
      ensures entities[id].resources == Snapshot()[id].slots
    {
    }

    /** The stored entities are valid and are what the snapshot records. */
    lemma SnapshotReflected()
      requires Valid()
      ensures Reflects(entities, Snapshot())
    {
    }

    /** `get<Ts...>()`: builds the query bitflag, copies the map and
        assembles the view from the copy. */
    method Get(types: seq<nat>) returns (v: View)
      requires Valid() && |types| >= 1
      ensures v == Queried(Snapshot(), types)
      ensures Valid() && Snapshot() == old(Snapshot())
    {
      var bf := QueryBitflag(types);
      Kept(this);
      ghost var snap := Snapshot();
      var copy := entities;
      SnapshotReflected();
      label Assembling:
      v := Assemble(copy, bf, types, snap);
      Kept@Assembling(this);
    }

    /** When only the entity of id may have changed and it is still valid,
        the registry is valid and its snapshot changed at id alone. */
    twostate lemma Touched(id: nat)
      requires old(Valid()) && unchanged(this, counter) && id in entities
      requires entities[id].Valid()
      requires forall k :: k in entities && k != id ==> unchanged(entities[k]) && unchanged(entities[k].signature)
      ensures Valid()
      ensures Snapshot()
              == old(Snapshot())[id := EntityState(entities[id].signature.Flags, entities[id].resources)]
    {
      forall k | k in entities && k != id ensures entities[k].Valid() {
      }
      ChangedAt(Snapshot(), old(Snapshot()), id);
    }

    /** When the registry lost the entity of id, the others unchanged, its
        snapshot lost the entry of id. */
    twostate lemma Shrunk(id: nat)
      requires old(Valid()) && unchanged(counter) && Repr == old(Repr)
      requires entities == old(entities) - {id}
      requires forall k :: k in entities ==> unchanged(entities[k]) && unchanged(entities[k].signature)
      ensures Valid() && Snapshot() == old(Snapshot()) - {id}
    {
      forall k | k in entities ensures entities[k].Valid() {
      }
    }
  }

  /** A registry none of whose objects changed is still valid and has the
      same snapshot. */
  twostate lemma Kept(r: Registry)
    requires old(r.Valid()) && unchanged(r, r.counter)
    requires forall o :: o in old(r.Repr) ==> unchanged(o)
    ensures r.Valid() && r.Snapshot() == old(r.Snapshot())
  {
  }

  /** The entities of copy are valid and are what snap records. */
  ghost predicate Reflects(copy: map<nat, Entity>, snap: map<nat, EntityState>)
    reads set id | id in copy :: copy[id]
    reads set id | id in copy :: copy[id].signature
  {
    && copy.Keys == snap.Keys
    && forall id :: id in copy ==>
         && copy[id].Valid()
         && copy[id].signature.Flags == snap[id].flags
         && copy[id].resources == snap[id].slots
  }

  /** `bitflag bf; fillBitflag<Ts...>(bf);`: the query bitflag. */
  method QueryBitflag(types: seq<nat>) returns (bf: Bitflag)
    ensures fresh(bf) && bf.Valid() && bf.Flags == Query(types) && bf.size >= 1
  {
    bf := new Bitflag(1);
    FillBitflag(bf, types);
    QueryFlags(types);
  }

  /** The loop of `get<Ts...>()` over the copied map: visits the entities in
      ascending id order and, for each one whose `has(bf)` holds, appends its
      id and, through `collectData`, its slots of the listed types. */
  method Assemble(copy: map<nat, Entity>, bf: Bitflag, types: seq<nat>, ghost snap: map<nat, EntityState>)
      returns (v: View)
    requires |types| >= 1 && AllConsistent(snap) && Reflects(copy, snap)
    requires bf.Valid() && bf.Flags == Query(types)
    ensures v == Queried(snap, types)
  {
    QueryFlags(types);
    var remaining := copy.Keys;
    ghost var visited: seq<nat> := [];
    var ids: seq<nat> := [];
    var resources: seq<Component?> := [];
    while remaining != {}
      invariant remaining <= copy.Keys
      invariant visited + Ascending(remaining) == Ascending(copy.Keys)
      invariant forall x :: x in visited ==> x in snap
      invariant ids == Admitted(snap, visited, Query(types))
      invariant Covers(snap, ids, types)
      invariant resources == Collected(snap, ids, types)
    {
      ghost var least := Least(remaining);
      var id :| id in remaining && forall x :: x in remaining ==> id <= x;
      VisitLeast(visited, remaining, id);
      var e := copy[id];
      var admitted := e.HasSignature(bf);
      AdmittedStep(snap, visited, id, Query(types));
      if admitted {
        AdmitsCovers(snap[id], types);
        CollectedStep(snap, ids, id, types);
        resources := resources + e.Typed(types);
        ids := ids + [id];
      }
      visited := visited + [id];
      remaining := remaining - {id};
    }
    assert visited == Ascending(snap.Keys);
    v := View(types, ids, resources);
  }
}
