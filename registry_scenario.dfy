/** The registry scenario of the repository's tests
    (tests/registrySyncOperationsTests.cpp:9-54): two entities, each holding
    a `StringComponent` (tag 1) and an `IntComponent` (tag 2), queried, then
    updated through a clone while a second, stale clone is refused. */
module RegistryScenarios {
  import opened Bitflags
  import opened Components
  import opened Entities
  import opened Views
  import opened Registries

  /** The signature of an entity holding tags 1 and 2. */
  function Both(): seq<bool>
  {
    [false, true, true]
  }

  /** Two entities, 0 and 1, holding a and b, and c and d, under tags 1
      and 2. */
  function Pair(a: Component, b: Component, c: Component, d: Component): map<nat, EntityState>
  {
    map[0 := EntityState(Both(), [null, a, b]), 1 := EntityState(Both(), [null, c, d])]
  }

  /** A map with the keys 0 and 1 is visited as 0, then 1. */
  lemma AscendingPair()
    ensures Ascending({0, 1}) == [0, 1]
  {
    AscendingFirst({0, 1}, 0);
    assert {0, 1} - {0} == {1};
    AscendingFirst({1}, 1);
    assert {1} - {1} == {};
  }

  /** The query bitflags of `get<StringComponent>()` and of
      `get<StringComponent, IntComponent>()`. */
  lemma QueriesOfTags()
    ensures Query([1]) == [false, true]
    ensures Query([1, 2]) == Both()
  {
    QueryFlags([1]);
    QueryFlags([1, 2]);
    assert 1 in [1] && 0 !in [1];
    assert 1 in [1, 2] && 2 in [1, 2] && 0 !in [1, 2];
  }

  /** Both entities of the pair are consistent. */
  lemma PairConsistent(a: Component, b: Component, c: Component, d: Component)
    ensures AllConsistent(Pair(a, b, c, d))
  {
    var snap := Pair(a, b, c, d);
    forall id | id in snap ensures Consistent(snap[id].flags, snap[id].slots) {
      var s := snap[id];
      assert |s.slots| == |s.flags| == 3;
      assert s.slots[0] == null && s.slots[1] != null && s.slots[2] != null;
    }
  }

  /** The signature of tags 1 and 2 matches the query of tag 1 and the
      query of tags 1 and 2. */
  lemma BothAdmits(types: seq<nat>)
    requires types == [1] || types == [1, 2]
    ensures Query(types) == if types == [1] then [false, true] else Both()
    ensures Admits(Both(), Query(types))
  {
    QueriesOfTags();
    AndWithinOneByte(Both(), Query(types));
    assert Both()[..2] == [false, true] && Both()[..3] == Both();
  }

  /** Both entities are admitted by a query of flags 1 and 2 or of flag 1
      alone, in ascending id order. */
  lemma PairAdmitted(a: Component, b: Component, c: Component, d: Component, types: seq<nat>)
    requires types == [1] || types == [1, 2]
    ensures Query(types) == if types == [1] then [false, true] else Both()
    ensures Admitted(Pair(a, b, c, d), Ascending(Pair(a, b, c, d).Keys), Query(types)) == [0, 1]
  {
    var snap := Pair(a, b, c, d);
    assert snap.Keys == {0, 1};
    AscendingPair();
    BothAdmits(types);
    assert [0, 1][..1] == [0];
    assert Admitted(snap, [0], Query(types)) == [0];
  }

  /** The resources of both rows, for the types listed. */
  lemma PairCollected(a: Component, b: Component, c: Component, d: Component, types: seq<nat>)
    requires types == [1] || types == [1, 2]
    ensures Covers(Pair(a, b, c, d), [0, 1], types)
    ensures Collected(Pair(a, b, c, d), [0, 1], types) == if types == [1] then [a, c] else [a, b, c, d]
  {
    var snap := Pair(a, b, c, d);
    assert [0, 1][..1] == [0];
    if types == [1] {
      assert Collected(snap, [0], types) == [a];
    } else {
      assert Collected(snap, [0], types) == [a, b];
    }
  }

  /** `get<StringComponent>()` of the pair: both rows, holding a and c. */
  lemma NamesView(a: Component, b: Component, c: Component, d: Component)
    ensures AllConsistent(Pair(a, b, c, d))
    ensures Queried(Pair(a, b, c, d), [1]) == View([1], [0, 1], [a, c])
  {
    PairConsistent(a, b, c, d);
    PairAdmitted(a, b, c, d, [1]);
    PairCollected(a, b, c, d, [1]);
  }

  /** `get<StringComponent, IntComponent>()` of the pair: both rows, holding
      a and b, then c and d. */
  lemma BothView(a: Component, b: Component, c: Component, d: Component)
    ensures AllConsistent(Pair(a, b, c, d))
    ensures Queried(Pair(a, b, c, d), [1, 2]) == View([1, 2], [0, 1], [a, b, c, d])
  {
    PairConsistent(a, b, c, d);
    PairAdmitted(a, b, c, d, [1, 2]);
    PairCollected(a, b, c, d, [1, 2]);
  }

  /** The states of a new entity after inserting name under tag 1, then
      number under tag 2. */
  lemma FurnishedStates(name: Component, number: Component)
    ensures Inserted(EntityState(Cleared(1), []), 1, name) == EntityState([false, true], [null, name])
    ensures Inserted(EntityState([false, true], [null, name]), 2, number)
            == EntityState(Both(), [null, name, number])
  {
    assert Resized(Cleared(1), 2) == [false, false];
    assert Padded([], 2) == [null, null];
    assert Resized([false, true], 3) == [false, true, false];
    assert Padded([null, name], 3) == [null, name, null];
  }

  /** `insert(id, Tag<StringComponent>(), name)` then
      `insert(id, Tag<IntComponent>(), number)` on a new entity. */
  method Furnish(reg: Registry, id: nat, name: Component, number: Component)
    requires reg.Valid() && id in reg.entities && reg.Snapshot()[id] == EntityState(Cleared(1), [])
    modifies reg.entities[id], reg.entities[id].signature
    ensures reg.Valid() && reg.entities == old(reg.entities)
    ensures reg.Snapshot() == old(reg.Snapshot())[id := EntityState(Both(), [null, name, number])]
  {
    ghost var before := reg.Snapshot();
    FurnishedStates(name, number);
    reg.SnapshotAt(id);
    var ok := reg.Insert(id, 1, name);
    ghost var named := reg.Snapshot();
    reg.SnapshotAt(id);
    ok := reg.Insert(id, 2, number);
    Overwritten(before, id, named[id], EntityState(Both(), [null, name, number]));
  }

  /** Two updates of the same key leave the second value. */
  lemma Overwritten(m: map<nat, EntityState>, id: nat, first: EntityState, second: EntityState)
    ensures m[id := first][id := second] == m[id := second]
  {
  }

  /** A new registry holding one new entity, 0. */
  method CreatedOne() returns (reg: Registry)
    ensures fresh(reg) && fresh(reg.counter) && reg.Valid() && reg.counter.next == 1
    ensures 0 in reg.entities && fresh(reg.entities[0]) && fresh(reg.entities[0].signature)
    ensures reg.Snapshot() == map[0 := EntityState(Cleared(1), [])]
  {
    var counter := new IdCounter();
    reg := new Registry(counter);
    var first := reg.CreateEntity();
  }

  /** Two new entities in a new registry: entity 0, then entity 1. */
  method Created() returns (reg: Registry)
    ensures fresh(reg) && reg.Valid()
    ensures 0 in reg.entities && 1 in reg.entities
    ensures fresh(reg.entities[0]) && fresh(reg.entities[0].signature)
    ensures fresh(reg.entities[1]) && fresh(reg.entities[1].signature)
    ensures reg.Snapshot() == map[0 := EntityState(Cleared(1), []), 1 := EntityState(Cleared(1), [])]
  {
    reg := CreatedOne();
    var second := reg.CreateEntity();
  }

  /** Furnishing both new entities gives the pair. */
  lemma PairFurnished(s1: Component, i1: Component, s2: Component, i2: Component)
    ensures map[0 := EntityState(Cleared(1), []), 1 := EntityState(Cleared(1), [])]
              [0 := EntityState(Both(), [null, s1, i1])][1 := EntityState(Both(), [null, s2, i2])]
            == Pair(s1, i1, s2, i2)
  {
  }

  /** A new registry with two entities, holding s1 and i1, and s2 and i2. */
  method Populated(s1: Component, i1: Component, s2: Component, i2: Component) returns (reg: Registry)
    ensures fresh(reg) && reg.Valid() && reg.Snapshot() == Pair(s1, i1, s2, i2)
    ensures 0 in reg.entities && fresh(reg.entities[0])
  {
    reg := Created();
    Furnish(reg, 0, s1, i1);
    Furnish(reg, 1, s2, i2);
    PairFurnished(s1, i1, s2, i2);
  }

  /** The four lookups of the two-type view: entity 0's and entity 1's
      `IntComponent`, then their `StringComponent`. */
  method Lookups(v: View, a: Component, b: Component, c: Component, d: Component)
      returns (found: seq<Payload>)
    requires v == View([1, 2], [0, 1], [a, b, c, d])
    requires a.kind == 1 && b.kind == 2 && c.kind == 1 && d.kind == 2
    ensures found == [b.payload, d.payload, a.payload, c.payload]
  {
    assert FirstIndex(v.entities, 1) == 1;
    var n0 := v.Select(2, 0);
    var n1 := v.Select(2, 1);
    var s0 := v.Select(1, 0);
    var s1 := v.Select(1, 1);
    found := [n0.payload, n1.payload, s0.payload, s1.payload];
  }

  /** `get<StringComponent>()` and the lookups of both names. */
  method Names(reg: Registry, a: Component, b: Component, c: Component, d: Component)
      returns (names: seq<Payload>)
    requires reg.Valid() && reg.Snapshot() == Pair(a, b, c, d) && a.kind == 1 && c.kind == 1
    ensures names == [a.payload, c.payload]
  {
    NamesView(a, b, c, d);
    var view := reg.Get([1]);
    assert view == View([1], [0, 1], [a, c]);
    assert FirstIndex(view.entities, 1) == 1;
    var n0 := view.Select(1, 0);
    var n1 := view.Select(1, 1);
    names := [n0.payload, n1.payload];
  }

  /** `get<StringComponent, IntComponent>()` and its four lookups. */
  method Lookup(reg: Registry, a: Component, b: Component, c: Component, d: Component)
      returns (found: seq<Payload>)
    requires reg.Valid() && reg.Snapshot() == Pair(a, b, c, d)
    requires a.kind == 1 && b.kind == 2 && c.kind == 1 && d.kind == 2
    ensures found == [b.payload, d.payload, a.payload, c.payload]
  {
    BothView(a, b, c, d);
    var view := reg.Get([1, 2]);
    found := Lookups(view, a, b, c, d);
  }

  /** `get<StringComponent, IntComponent>()` and `select<StringComponent>(0)`:
      entity 0's name. */
  method CurrentName(reg: Registry, a: Component, b: Component, c: Component, d: Component)
      returns (current: Component?)
    requires reg.Valid() && reg.Snapshot() == Pair(a, b, c, d) && a.kind == 1
    ensures current == a
  {
    BothView(a, b, c, d);
    var view := reg.Get([1, 2]);
    assert view == View([1, 2], [0, 1], [a, b, c, d]);
    current := view.Select(1, 0);
  }

  /** A clone of current carrying the payload p. */
  method Renamed(current: Component, p: Payload) returns (copy: Component)
    ensures fresh(copy) && copy.kind == current.kind && copy.payload == p
    ensures copy.revision == current.revision
  {
    copy := current.Clone();
    copy.payload := p;
  }

  /** `update(0, Tag<StringComponent>(), update)` with a clone of the stored
      name at its revision: accepted, the clone stored and its revision
      moved on. */
  method AcceptedUpdate(reg: Registry, update: Component, a: Component, b: Component, c: Component,
                        d: Component) returns (updated: bool)
    requires reg.Valid() && reg.Snapshot() == Pair(a, b, c, d) && update.revision == a.revision == 0
    modifies reg.entities[0], update
    ensures reg.Valid() && reg.entities == old(reg.entities) && reg.Snapshot() == Pair(update, b, c, d)
    ensures updated && update.revision == 1 && update.payload == old(update.payload)
  {
    reg.SnapshotAt(0);
    assert reg.entities[0].signature.Flags == Both() && reg.entities[0].resources[1] == a;
    updated := reg.Update(0, 1, update);
    NameReplaced(a, b, c, d, update);
  }

  /** Replacing entity 0's slot 1 in the pair replaces its name. */
  lemma NameReplaced(a: Component, b: Component, c: Component, d: Component, u: Component)
    ensures var p := Pair(a, b, c, d); p[0 := p[0].(slots := p[0].slots[1 := u])] == Pair(u, b, c, d)
  {
    assert [null, a, b][1 := u] == [null, u, b];
  }

  /** A second update of entity 0's name from a clone still at revision 0,
      after the stored name moved to revision 1: refused, nothing
      changes. */
  method RefusedUpdate(reg: Registry, faulty: Component, update: Component, b: Component, c: Component,
                       d: Component) returns (stale: bool)
    requires reg.Valid() && reg.Snapshot() == Pair(update, b, c, d)
    requires update.revision == 1 && faulty.revision == 0
    modifies reg.entities[0], faulty
    ensures reg.Valid() && reg.Snapshot() == Pair(update, b, c, d)
    ensures !stale
  {
    reg.SnapshotAt(0);
    assert reg.entities[0].resources[1] == update;
    stale := reg.Update(0, 1, faulty);
  }

  /** Two clones of entity 0's name, at its revision 0: one renamed
      "UPDATED", one renamed "XXXXXXXXXXX". */
  method Clones(reg: Registry, a: Component, b: Component, c: Component, d: Component)
      returns (update: Component, faulty: Component)
    requires reg.Valid() && reg.Snapshot() == Pair(a, b, c, d) && a.kind == 1 && a.revision == 0
    ensures fresh(update) && fresh(faulty) && update != faulty
    ensures update.kind == 1 && update.payload == Name("UPDATED") && update.revision == 0
    ensures faulty.revision == 0
  {
    var current := CurrentName(reg, a, b, c, d);
    update := Renamed(current, Name("UPDATED"));
    faulty := Renamed(current, Name("XXXXXXXXXXX"));
  }

  /** The two clones offered in turn: the first is accepted, the second,
      still at revision 0, refused. */
  method Offered(reg: Registry, update: Component, faulty: Component, a: Component, b: Component,
                 c: Component, d: Component) returns (updated: bool, stale: bool)
    requires reg.Valid() && reg.Snapshot() == Pair(a, b, c, d) && a.revision == 0
    requires update.revision == 0 && faulty.revision == 0 && update != faulty
    modifies reg.entities[0], update, faulty
    ensures reg.Valid() && reg.Snapshot() == Pair(update, b, c, d)
    ensures update.payload == old(update.payload)
    ensures updated && !stale
  {
    updated := AcceptedUpdate(reg, update, a, b, c, d);
    stale := RefusedUpdate(reg, faulty, update, b, c, d);
  }

  /** Two clones of entity 0's name, renamed, offered as updates in turn:
      the first matches the stored revision and replaces the name, the
      second still carries the old revision and is refused. */
  method CloneUpdates(reg: Registry, a: Component, b: Component, c: Component, d: Component)
      returns (update: Component, updated: bool, stale: bool)
    requires reg.Valid() && reg.Snapshot() == Pair(a, b, c, d) && a.kind == 1 && a.revision == 0
    modifies reg.entities[0]
    ensures reg.Valid() && reg.Snapshot() == Pair(update, b, c, d)
    ensures update.kind == 1 && update.payload == Name("UPDATED")
    ensures updated && !stale
  {
    var faulty;
    update, faulty := Clones(reg, a, b, c, d);
    updated, stale := Offered(reg, update, faulty, a, b, c, d);
  }

  /** The registry of the test: entity 0 holds the name "AAA" and the
      number 10, entity 1 the name "BBB" and the number 20. */
  method Setup() returns (reg: Registry, s1: Component, i1: Component, s2: Component, i2: Component)
    ensures fresh(reg) && reg.Valid() && reg.Snapshot() == Pair(s1, i1, s2, i2)
    ensures 0 in reg.entities && fresh(reg.entities[0])
    ensures s1.kind == 1 && s1.payload == Name("AAA") && s1.revision == 0
    ensures i1.kind == 2 && i1.payload == Number(10)
    ensures s2.kind == 1 && s2.payload == Name("BBB")
    ensures i2.kind == 2 && i2.payload == Number(20)
  {
    s1 := new Component(1, Name("AAA"));
    i1 := new Component(2, Number(10));
    s2 := new Component(1, Name("BBB"));
    i2 := new Component(2, Number(20));
    reg := Populated(s1, i1, s2, i2);
  }

  /** The reads before the updates: the names through the one-type view,
      the numbers and names through the two-type view. */
  method Reads(reg: Registry, a: Component, b: Component, c: Component, d: Component)
      returns (names: seq<Payload>, found: seq<Payload>)
    requires reg.Valid() && reg.Snapshot() == Pair(a, b, c, d)
    requires a.kind == 1 && b.kind == 2 && c.kind == 1 && d.kind == 2
    ensures names == [a.payload, c.payload]
    ensures found == [b.payload, d.payload, a.payload, c.payload]
  {
    names := Names(reg, a, b, c, d);
    found := Lookup(reg, a, b, c, d);
  }

  /** The updates through two clones, then the lookups of a new two-type
      view. */
  method Updates(reg: Registry, a: Component, b: Component, c: Component, d: Component)
      returns (updated: bool, stale: bool, after: seq<Payload>)
    requires reg.Valid() && reg.Snapshot() == Pair(a, b, c, d)
    requires a.kind == 1 && a.revision == 0 && b.kind == 2 && c.kind == 1 && d.kind == 2
    modifies reg.entities[0]
    ensures updated && !stale
    ensures after == [b.payload, d.payload, Name("UPDATED"), c.payload]
  {
    var update;
    update, updated, stale := CloneUpdates(reg, a, b, c, d);
    after := Lookup(reg, update, b, c, d);
  }

  /** The test: the one-type view finds both names, the two-type view both
      numbers and names; the update through a clone succeeds, the one
      through a second clone of the same revision is refused, and a new view
      shows the updated name next to the unchanged components. */
  method SyncOperations() returns (names: seq<Payload>, found: seq<Payload>, updated: bool, stale: bool,
                                   after: seq<Payload>)
    ensures names == [Name("AAA"), Name("BBB")]
    ensures found == [Number(10), Number(20), Name("AAA"), Name("BBB")]
    ensures updated && !stale
    ensures after == [Number(10), Number(20), Name("UPDATED"), Name("BBB")]
  {
    var reg, s1, i1, s2, i2 := Setup();
    names, found := Reads(reg, s1, i1, s2, i2);
    updated, stale, after := Updates(reg, s1, i1, s2, i2);
  }
}
