/** Views: the read-only snapshot `registry::get<Ts...>()` returns. Row r
    belongs to entity `entities[r]` and holds one component per requested
    type; the resources are stored row after row. */
module Views {
  import opened Components

  /** `GetComponentIndex<T>::index` after `setupComponentIndexingImpl`
      has walked the types from position id on: each listed type t is given
      its position, so current is overwritten at every occurrence of t. */
  function IndexFrom(types: seq<nat>, id: nat, t: nat, current: nat): nat
    decreases |types|
  {
    if types == [] then current
    else IndexFrom(types[1..], id + 1, t, if types[0] == t then id else current)
  }

  /** The index of a type is the position of its last occurrence, and an
      unlisted type keeps the index it had. */
  lemma {:induction false} IndexFromLast(types: seq<nat>, id: nat, t: nat, current: nat)
    ensures t !in types ==> IndexFrom(types, id, t, current) == current
    ensures t in types ==>
              var c := IndexFrom(types, id, t, current);
              && id <= c < id + |types| && types[c - id] == t
              && forall k :: c - id < k < |types| ==> types[k] != t
    decreases |types|
  {
    if types != [] {
      var next := if types[0] == t then id else current;
      IndexFromLast(types[1..], id + 1, t, next);
      if t in types[1..] {
        var c := IndexFrom(types, id, t, current);
        assert types[c - id] == types[1..][c - (id + 1)];
        forall k | c - id < k < |types| ensures types[k] != t {
          assert types[k] == types[1..][k - 1];
        }
      } else if t in types {
        assert types[0] == t;
        forall k | 0 < k < |types| ensures types[k] != t {
          assert types[k] == types[1..][k - 1];
        }
      }
    }
  }

  /** `dynamic_pointer_cast<const T>` for the type of tag t: the component
      itself when it is of that type, null otherwise. */
  function Cast(c: Component?, t: nat): (r: Component?)
    ensures r != null <==> (c != null && c.kind == t)
    ensures r != null ==> r == c
  {
    if c != null && c.kind == t then c else null
  }

  /** The first position of x in s, which the search loop of `select`
      stops at. */
  function FirstIndex(s: seq<nat>, x: nat): (i: nat)
    requires x in s
    ensures i < |s| && s[i] == x
    ensures forall k :: 0 <= k < i ==> s[k] != x
  {
    if s[0] == x then 0 else 1 + FirstIndex(s[1..], x)
  }

  datatype View = View(types: seq<nat>, entities: seq<nat>, resources: seq<Component?>)
  {
    /** `mNumOfComponentsPerEntity`: the number of requested types. */
    function Width(): nat
    {
      |types|
    }

    /** Every column index falls inside a row of `Width()` cells, so the
        cells of two different rows never share an offset. */
    lemma {:induction false} RowsApart(r1: nat, t1: nat, r2: nat, t2: nat)
      requires |types| >= 1 && r1 < r2
      ensures Column(t1) < Width() && Column(t2) < Width()
      ensures Offset(r1, t1) < Offset(r2, t2)
    {
      RowMajor(r1, Column(t1), r2, Column(t2), Width());
    }

    /** The column of type t, as `setupComponentIndexing` leaves it: the
        position of its last occurrence in the type list, 0 when it is not
        listed. */
    function Column(t: nat): (c: nat)
      ensures t in types ==> c < |types| && types[c] == t
      ensures t in types ==> forall k :: c < k < |types| ==> types[k] != t
      ensures t !in types ==> c == 0
    {
      IndexFromLast(types, 0, t, 0);
      IndexFrom(types, 0, t, 0)
    }

    /** `entityIndex * mNumOfComponentsPerEntity + GetComponentIndex<T>::index`. */
    function Offset(row: nat, t: nat): nat
    {
      row * Width() + Column(t)
    }

    /** Every row's offset for type t is inside the resources, as the
        assertion of `select(predicate)` demands. */
    predicate Fits(t: nat)
    {
      forall row :: 0 <= row < |entities| ==> Offset(row, t) < |resources|
    }

    /** The component of type t in row `row`, after the cast. */
    function Cell(row: nat, t: nat): Component?
      requires row < |entities| && Fits(t)
    {
      Cast(resources[Offset(row, t)], t)
    }

    /** `select<T>(id)`: searches the entity list for the first row of id;
        null when there is none, otherwise the cast component at that row's
        offset, which the unchecked `operator[]` requires to be in range. */
    method Select(t: nat, id: nat) returns (c: Component?)
      requires id in entities ==> Offset(FirstIndex(entities, id), t) < |resources|
      ensures id !in entities ==> c == null
      ensures id in entities ==> c == Cast(resources[Offset(FirstIndex(entities, id), t)], t)
    {
      var row := 0;
      var found := false;
      while row < |entities|
        invariant row <= |entities|
        invariant forall k :: 0 <= k < row ==> entities[k] != id
      {
        if entities[row] == id {
          found := true;
          break;
        }
        row := row + 1;
      }
      if !found {
        return null;
      }
      var offset := Offset(row, t);
      c := Cast(resources[offset], t);
    }

    /** The map `select<T>(predicate)` has built after the first n rows:
        a row whose cast component satisfies pred is inserted under its
        entity id, and `std::map::insert` keeps the entry of an earlier row
        with the same id. */
    function Chosen(t: nat, pred: Component? -> bool, n: nat): map<nat, Component?>
      requires n <= |entities| && Fits(t)
    {
      if n == 0 then map[]
      else
        var m := Chosen(t, pred, n - 1);
        var c := Cell(n - 1, t);
        if pred(c) && entities[n - 1] !in m then m[entities[n - 1] := c] else m
    }

    /** Row `row` is the first row of its entity id whose component
        satisfies pred. */
    predicate FirstMatch(t: nat, pred: Component? -> bool, row: nat)
      requires row < |entities| && Fits(t)
    {
      && pred(Cell(row, t))
      && forall k :: 0 <= k < row ==> !(entities[k] == entities[row] && pred(Cell(k, t)))
    }

    /** `select<T>(predicate)`: walks the rows, asserting that each offset is
        in range, and maps the entity id of every row whose cast component
        satisfies pred to that component, the first such row of an id
        winning. */
    method SelectWhere(t: nat, pred: Component? -> bool) returns (m: map<nat, Component?>)
      requires Fits(t)
      ensures m == Chosen(t, pred, |entities|)
    {
      m := map[];
      var row := 0;
      while row < |entities|
        invariant row <= |entities| && m == Chosen(t, pred, row)
      {
        var offset := Offset(row, t);
        var c := Cast(resources[offset], t);
        if pred(c) && entities[row] !in m {
          m := m[entities[row] := c];
        }
        row := row + 1;
      }
    }
  }

  // ---------------------------------------------------------------------
  // Properties

  /** Row-major offsets: a cell of an earlier row comes before every cell of
      a later one. */
  lemma RowMajor(r1: nat, c1: nat, r2: nat, c2: nat, w: nat)
    requires r1 < r2 && c1 < w
    ensures r1 * w + c1 < r2 * w + c2
  {
    var gap: nat := r2 - r1 - 1;
    assert r2 * w == r1 * w + w + gap * w;
  }

  /** Listed without repetition, the i-th type gets column i. */
  lemma ColumnOfListed(v: View, i: nat)
    requires i < |v.types|
    requires forall a, b :: 0 <= a < b < |v.types| ==> v.types[a] != v.types[b]
    ensures v.Column(v.types[i]) == i
  {
  }

  /** `select<T>(predicate)` maps exactly the ids having a row whose
      component satisfies pred. */
  lemma {:induction false} ChosenKeys(v: View, t: nat, pred: Component? -> bool, n: nat)
    requires n <= |v.entities| && v.Fits(t)
    ensures forall id :: id in v.Chosen(t, pred, n) <==>
              exists row :: 0 <= row < n && v.entities[row] == id && pred(v.Cell(row, t))
  {
    if n > 0 {
      ChosenKeys(v, t, pred, n - 1);
      var last := n - 1;
      var m := v.Chosen(t, pred, last);
      assert v.Chosen(t, pred, n).Keys
             == m.Keys + if pred(v.Cell(last, t)) then {v.entities[last]} else {};
    }
  }

  /** Each id is mapped to the component of its first row that satisfies
      pred. */
  lemma {:induction false} ChosenFirst(v: View, t: nat, pred: Component? -> bool, n: nat)
    requires n <= |v.entities| && v.Fits(t)
    ensures forall row :: 0 <= row < n && v.FirstMatch(t, pred, row) ==>
              v.entities[row] in v.Chosen(t, pred, n) && v.Chosen(t, pred, n)[v.entities[row]] == v.Cell(row, t)
  {
    if n > 0 {
      var last := n - 1;
      ChosenFirst(v, t, pred, last);
      ChosenKeys(v, t, pred, last);
      var m, m' := v.Chosen(t, pred, last), v.Chosen(t, pred, n);
      forall row | 0 <= row < n && v.FirstMatch(t, pred, row)
        ensures v.entities[row] in m' && m'[v.entities[row]] == v.Cell(row, t)
      {
        if row == last {
          assert v.entities[last] !in m;
        } else {
          assert v.entities[row] in m && m'[v.entities[row]] == m[v.entities[row]];
        }
      }
    }
  }

  // ---------------------------------------------------------------------
  // The view scenario of the repository's tests

  /** Entities 4 and 10 with the columns `StringComponent` (tag 1) and
      `IntComponent` (tag 2): each lookup finds its entity's component of
      the requested type. */
  method TwoRows() returns (number4: Payload, name4: Payload, number10: Payload, name10: Payload)
    ensures number4 == Number(10) && name4 == Name("AAA")
    ensures number10 == Number(20) && name10 == Name("BBB")
  {
    var s1 := new Component(1, Name("AAA"));
    var i1 := new Component(2, Number(10));
    var s2 := new Component(1, Name("BBB"));
    var i2 := new Component(2, Number(20));
    var v := View([1, 2], [4, 10], [s1, i1, s2, i2]);
    assert FirstIndex(v.entities, 10) == 1;
    var c := v.Select(2, 4);
    number4 := c.payload;
    c := v.Select(1, 4);
    name4 := c.payload;
    c := v.Select(2, 10);
    number10 := c.payload;
    c := v.Select(1, 10);
    name10 := c.payload;
  }
}
