/** Entities: an id, a signature bitflag whose flag t says whether the entity
    holds a component of tag t, and a tag-indexed vector of component slots. */
module Entities {
  import opened Sizes
  import opened Bitflags
  import opened Components

  /** How a guarded entry point ends when its code is followed as written:
      with a value, or with a failed assertion. */
  datatype Outcome = Value(b: bool) | AssertionFails

  /** How a function returning `bool` ends when its code is followed as
      written: with a `return`, or by running off its end without a value. */
  datatype Exit = Returns(value: bool) | FallsOffEnd

  /** The signature flags and the slot vector agree: a set flag indexes a
      stored component and a cleared one a null slot. The slot vector has one
      slot per flag, except in a new entity, whose signature is the default
      single cleared flag and whose slot vector is still empty. */
  predicate Consistent(flags: seq<bool>, slots: seq<Component?>)
  {
    && (|slots| == |flags| || (slots == [] && flags == [false]))
    && forall i :: 0 <= i < |slots| ==> (slots[i] != null <==> flags[i])
  }

  /** The signature size after `insert(tag, …)`: grown to tag + 1 when it
      was not above tag. */
  function Grown(n: nat, tag: nat): (m: nat)
    ensures m > tag && m >= n && (n > tag ==> m == n)
  {
    if n <= tag then tag + 1 else n
  }

  /** `resize(n)` of the slot vector when it grows: the new slots are null. */
  function Padded(slots: seq<Component?>, n: nat): (r: seq<Component?>)
    requires |slots| <= n
    ensures |r| == n && r[..|slots|] == slots
    ensures forall i :: |slots| <= i < n ==> r[i] == null
  {
    slots + seq(n - |slots|, i => null)
  }

  /** Whether `insert(tag, …)` stores its component: the tag is not taken. */
  predicate InsertAccepts(flags: seq<bool>, tag: nat)
  {
    !(tag < |flags| && flags[tag])
  }

  /** Whether an entity with signature flags matches the query q: the
      signature is at least as long as q and `operator&` holds. */
  predicate Admits(flags: seq<bool>, q: seq<bool>)
    requires |q| >= 1
  {
    |q| <= |flags| && AndFlags(flags, q)
  }

  /** What `get(bf)` collects: the slots below n, in ascending order, whose
      flag is set both in the query q and in the signature s. */
  function Selected(q: seq<bool>, s: seq<bool>, slots: seq<Component?>, n: nat): seq<Component?>
    requires n <= |q| && Consistent(s, slots)
    requires forall i :: 0 <= i < n && q[i] ==> i < |s|
  {
    if n == 0 then []
    else Selected(q, s, slots, n - 1) + (if q[n - 1] && s[n - 1] then [slots[n - 1]] else [])
  }

  /** `get_components<Ts...>`: the slot of each requested tag, one entry per
      tag, in the order the types are listed. */
  function Gathered(slots: seq<Component?>, types: seq<nat>): (r: seq<Component?>)
    requires forall k :: 0 <= k < |types| ==> types[k] < |slots|
    ensures |r| == |types|
    ensures forall k :: 0 <= k < |types| ==> r[k] == slots[types[k]]
  {
    if types == [] then [] else [slots[types[0]]] + Gathered(slots, types[1..])
  }

  class Entity {
    /** `mId`, fixed at construction and returned by `id()`. */
    const id: nat
    /** `mBitflag`. */
    const signature: Bitflag
    /** `mResources`. */
    var resources: seq<Component?>

    ghost predicate Valid()
      reads this, signature
    {
      signature.Valid() && Consistent(signature.Flags, resources)
    }

    /** `entity(id)`: the default signature of one cleared flag and no
        slots. */
    constructor (id: nat)
      ensures Valid() && fresh(signature)
      ensures this.id == id && signature.Flags == Cleared(1) && resources == []
    {
      this.id := id;
      signature := new Bitflag(1);
      resources := [];
      new;
      assert signature.Flags == [false];
    }

    /** `has(t)`, with the guard `size() <= t` that `insert`, `remove` and
        `update` use (`HasTagAsWritten` is the code's own guard): whether
        the entity stores a component under t. */
    function HasTag(t: nat): (b: bool)
      reads this, signature
      requires Valid()
      ensures b == (t < signature.size && signature.Flags[t])
      ensures b == (t < |resources| && resources[t] != null)
    {
      if signature.size <= t then false else signature.At(t)
    }

    /** `has(bf)`, returning false where the code's `mBitflag & bf` would fail
        its assertion because the signature is shorter than bf
        (`HasSignatureAsWritten`). */
    method HasSignature(bf: Bitflag) returns (b: bool)
      requires Valid() && bf.Valid() && bf.size >= 1
      ensures b == Admits(signature.Flags, bf.Flags)
    {
      if signature.size < bf.size {
        return false;
      }
      b := signature.And(bf);
    }

    /** `get(bf)`: walks the flags of bf and collects, in ascending order,
        the slot of every flag set both in bf and in the signature. Reading
        the signature flag of a tag set in bf requires that tag to be below
        the signature's size. */
    method Get(bf: Bitflag) returns (result: seq<Component?>)
      requires Valid() && bf.Valid()
      requires forall i :: 0 <= i < bf.size && bf.Flags[i] ==> i < signature.size
      ensures result == Selected(bf.Flags, signature.Flags, resources, bf.size)
    {
      var snapshot := resources;
      result := [];
      var i := 0;
      while i < bf.size
        invariant i <= bf.size
        invariant result == Selected(bf.Flags, signature.Flags, snapshot, i)
      {
        if bf.At(i) && signature.At(i) {
          result := result + [snapshot[i]];
        }
        i := i + 1;
      }
    }

    /** `get<Ts...>()`: for each requested tag in list order the slot under
        it, which is null exactly when the entity lacks that tag. Every tag
        must index the slot vector (`at` throws otherwise). */
    function Typed(types: seq<nat>): (r: seq<Component?>)
      reads this, signature
      requires Valid() && |types| >= 1
      requires forall k :: 0 <= k < |types| ==> types[k] < |resources|
      ensures |r| == |types|
      ensures forall k :: 0 <= k < |types| ==> r[k] == resources[types[k]]
      ensures forall k :: 0 <= k < |types| ==> (r[k] != null <==> HasTag(types[k]))
    {
      Gathered(resources, types)
    }

    /** `insert(tag, comp)`: grows the signature and the slot vector to
        tag + 1 when the signature is not above tag, then refuses a tag that
        is taken and otherwise stores comp and sets the flag. The slot write
        is unchecked, so the tag must index the slot vector by then. */
    method Insert(tag: nat, comp: Component) returns (ok: bool)
      requires Valid()
      requires tag < |resources| || signature.size <= tag
      modifies this, signature
      ensures Valid() && HasTag(tag)
      ensures ok == InsertAccepts(old(signature.Flags), tag)
      ensures signature.size == Grown(old(signature.size), tag)
      ensures ok ==> signature.Flags == Resized(old(signature.Flags), signature.size)[tag := true]
      ensures ok ==> resources == Padded(old(resources), signature.size)[tag := comp]
      ensures ok ==> signature.enabledCount
                     == old(signature.enabledCount) - (signature.size - old(signature.size)) + 1
      ensures !ok ==> signature.Flags == old(signature.Flags) && resources == old(resources)
      ensures !ok ==> signature.enabledCount == old(signature.enabledCount)
    {
      if signature.size <= tag {
        signature.Resize(tag + 1);
        resources := Padded(resources, tag + 1);
      }
      if signature.At(tag) {
        return false;
      }
      resources := resources[tag := comp];
      signature.Set(tag, true);
      ok := true;
    }

    /** `remove(tag)`: refuses a tag out of range or not taken; otherwise
        nulls the slot and clears the flag. */
    method Remove(tag: nat) returns (ok: bool)
      requires Valid()
      modifies this, signature
      ensures Valid() && !HasTag(tag)
      ensures ok == old(HasTag(tag))
      ensures signature.size == old(signature.size)
      ensures ok ==> signature.Flags == old(signature.Flags)[tag := false]
      ensures ok ==> resources == old(resources)[tag := null]
      ensures ok ==> signature.enabledCount == old(signature.enabledCount) - 1
      ensures !ok ==> signature.Flags == old(signature.Flags) && resources == old(resources)
      ensures !ok ==> signature.enabledCount == old(signature.enabledCount)
    {
      if signature.size <= tag {
        return false;
      }
      if !signature.At(tag) {
        return false;
      }
      resources := resources[tag := null];
      signature.Set(tag, false);
      ok := true;
    }

    /** `update(tag, comp)`: refuses a tag out of range or not taken, and a
        comp whose revision differs from the stored component's; otherwise
        increments comp's revision and stores comp in place of the stored
        component. */
    method Update(tag: nat, comp: Component) returns (ok: bool)
      requires Valid()
      modifies this, comp
      ensures Valid()
      ensures ok == (old(HasTag(tag)) && old(comp.revision) == old(resources[tag].revision))
      ensures ok ==> resources == old(resources)[tag := comp] && comp.revision == Inc(old(comp.revision))
      ensures !ok ==> resources == old(resources) && comp.revision == old(comp.revision)
      ensures comp.payload == old(comp.payload)
    {
      if signature.size <= tag {
        return false;
      }
      if !signature.At(tag) {
        return false;
      }
      if comp.revision != resources[tag].revision {
        return false;
      }
      comp.revision := Inc(comp.revision);
      resources := resources[tag := comp];
      ok := true;
    }
  }

  // ---------------------------------------------------------------------
  // The entry points as written, next to the corrected ones above

  /** `has(t)` as written: the guard is `size() < t`, so t == size() reaches
      `at(t)`, whose assertion `pos < size()` fails. */
  function HasTagAsWritten(flags: seq<bool>, t: nat): (o: Outcome)
    ensures o == AssertionFails <==> t == |flags|
    ensures t != |flags| ==> o == Value(t < |flags| && flags[t])
  {
    if |flags| < t then Value(false)
    else if t < |flags| then Value(flags[t])
    else AssertionFails
  }

  /** `has(bf)` as written, `mBitflag & bf`: when the signature is shorter
      than bf the assertion `size() >= rhs.size()` of `operator&` fails;
      otherwise it agrees with `Admits`. */
  function HasSignatureAsWritten(flags: seq<bool>, q: seq<bool>): (o: Outcome)
    requires |q| >= 1
    ensures o == AssertionFails <==> |flags| < |q|
    ensures o != AssertionFails ==> o == Value(Admits(flags, q))
  {
    if |flags| < |q| then AssertionFails else Value(AndFlags(flags, q))
  }

  /** Where `insert` ends as written: a taken tag returns false, and every
      accepted insert runs off the end without returning a value. */
  function InsertExitAsWritten(flags: seq<bool>, tag: nat): (x: Exit)
    ensures x == FallsOffEnd <==> InsertAccepts(flags, tag)
    ensures x != FallsOffEnd ==> x == Returns(false)
  {
    if tag < |flags| && flags[tag] then Returns(false) else FallsOffEnd
  }

  /** Where `update` ends as written: each refusal returns false, and every
      accepted update runs off the end without returning a value. */
  function UpdateExitAsWritten(flags: seq<bool>, tag: nat, sameRevision: bool): (x: Exit)
    ensures x == FallsOffEnd <==> (tag < |flags| && flags[tag] && sameRevision)
    ensures x != FallsOffEnd ==> x == Returns(false)
  {
    if |flags| <= tag then Returns(false)
    else if !flags[tag] then Returns(false)
    else if !sameRevision then Returns(false)
    else FallsOffEnd
  }

  /** A new entity asked for tag 1, which equals its signature's size: the
      code's `has(1)` fails its assertion, while the intended answer is
      false. */
  lemma NewEntityHasTagFails()
    ensures HasTagAsWritten(Cleared(1), 1) == AssertionFails
  {
  }

  /** A new entity matched against the query bitflag of tag 1 (two flags,
      the second set): the code's `has(bf)` fails its assertion, while the
      entity evidently does not match. */
  lemma NewEntityQueryFails()
    ensures HasSignatureAsWritten(Cleared(1), Cleared(2)[1 := true]) == AssertionFails
    ensures !Admits(Cleared(1), Cleared(2)[1 := true])
  {
  }

  // ---------------------------------------------------------------------
  // The entity scenarios of the repository's tests, with an `IntComponent`
  // (tag 2) on entity 0 and the query bitflag of three flags with flag 2 set

  /** The query of the scenarios selects the slot of tag 2 alone. */
  lemma SelectedTagTwo(q: seq<bool>, s: seq<bool>, slots: seq<Component?>)
    requires |q| == 3 && !q[0] && !q[1] && q[2] && |s| == 3 && Consistent(s, slots)
    ensures Selected(q, s, slots, 3) == if s[2] then [slots[2]] else []
  {
    assert Selected(q, s, slots, 1) == [];
    assert Selected(q, s, slots, 2) == [];
  }

  /** The query bitflag of three flags with flag 2 set. */
  method TagTwoQuery() returns (bf: Bitflag)
    ensures fresh(bf) && bf.Valid() && bf.size == 3
    ensures !bf.Flags[0] && !bf.Flags[1] && bf.Flags[2]
  {
    bf := new Bitflag(3);
    bf.Set(2, true);
  }

  /** Entity 0 after `insert(comp)` of a new `IntComponent` comp. */
  method EntityWithComponent(comp: Component) returns (e: Entity)
    ensures fresh(e) && fresh(e.signature) && e.Valid() && e.signature.size == 3
    ensures e.HasTag(2) && e.resources[2] == comp
  {
    e := new Entity(0);
    var inserted := e.Insert(2, comp);
  }

  /** Before the insert the entity lacks tag 2, after it has it and `get`
      finds one component, and after the remove it lacks it again. */
  method InsertGetRemove() returns (before: bool, after: bool, found: nat, removed: bool, atEnd: bool)
    ensures !before && after && found == 1 && removed && !atEnd
  {
    var comp := new Component(2, Number(0));
    var e := new Entity(0);
    before := e.HasTag(2);
    var inserted := e.Insert(2, comp);
    after := e.HasTag(2);
    var bf := TagTwoQuery();
    var got := e.Get(bf);
    SelectedTagTwo(bf.Flags, e.signature.Flags, e.resources);
    found := |got|;
    removed := e.Remove(2);
    atEnd := e.HasTag(2);
  }

  /** Two clients each `get` the component under tag 2 and clone it, the
      first setting its number to 10, the second to 20. */
  method TwoClones(e: Entity, bf: Bitflag) returns (update1: Component, update2: Component)
    requires e.Valid() && bf.Valid() && e.signature.size == 3 && e.HasTag(2)
    requires bf.size == 3 && !bf.Flags[0] && !bf.Flags[1] && bf.Flags[2]
    ensures fresh(update1) && fresh(update2) && update1 != update2
    ensures update1.revision == e.resources[2].revision && update2.revision == e.resources[2].revision
    ensures update1.payload == Number(10) && update2.payload == Number(20)
  {
    var got1 := e.Get(bf);
    SelectedTagTwo(bf.Flags, e.signature.Flags, e.resources);
    update1 := got1[0].Clone();
    update1.payload := Number(10);
    var got2 := e.Get(bf);
    update2 := got2[0].Clone();
    update2.payload := Number(20);
  }

  /** Two clients clone the stored component at the same revision and
      change it: the first update is accepted, the second is refused, and
      `get` then returns the first client's data. */
  method StaleUpdate() returns (first: bool, second: bool, seen: Payload)
    ensures first && !second && seen == Number(10)
  {
    var comp := new Component(2, Number(0));
    var e := EntityWithComponent(comp);
    var bf := TagTwoQuery();
    var update1, update2 := TwoClones(e, bf);
    first := e.Update(2, update1);
    second := e.Update(2, update2);
    var got := e.Get(bf);
    SelectedTagTwo(bf.Flags, e.signature.Flags, e.resources);
    seen := got[0].payload;
  }

  // ---------------------------------------------------------------------
  // Properties

  /** `get(bf)` returns exactly the stored components under the tags set in
      both the query and the signature; it never returns a null slot. */
  lemma {:induction false} SelectedComponents(q: seq<bool>, s: seq<bool>, slots: seq<Component?>, n: nat)
    requires n <= |q| && Consistent(s, slots)
    requires forall i :: 0 <= i < n && q[i] ==> i < |s|
    ensures null !in Selected(q, s, slots, n)
    ensures forall c :: c in Selected(q, s, slots, n) <==>
              exists i :: 0 <= i < n && q[i] && s[i] && slots[i] == c
  {
    if n > 0 {
      SelectedComponents(q, s, slots, n - 1);
      var i := n - 1;
      if q[i] && s[i] {
        assert i < |slots| && slots[i] != null;
      }
    }
  }

  /** `get(bf)` returns one component per tag set in both the query and the
      signature, and those tags are the ones `has(t)` reports. */
  lemma {:induction false} SelectedCount(q: seq<bool>, s: seq<bool>, slots: seq<Component?>, n: nat)
    requires n <= |q| && Consistent(s, slots)
    requires forall i :: 0 <= i < n && q[i] ==> i < |s|
    ensures |Selected(q, s, slots, n)| == |set i | 0 <= i < n && q[i] && i < |s| && s[i]|
  {
    if n > 0 {
      SelectedCount(q, s, slots, n - 1);
      var prev := set i | 0 <= i < n - 1 && q[i] && i < |s| && s[i];
      var now := set i | 0 <= i < n && q[i] && i < |s| && s[i];
      if q[n - 1] && s[n - 1] {
        assert now == prev + {n - 1};
      } else {
        assert now == prev;
      }
    }
  }
}
