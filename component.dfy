/** Components: the values an entity stores under a tag. Every component
    carries a revision, which starts at 0, is copied by `clone` and is only
    incremented by `entity::update`. */
module Components {
  import opened Sizes

  /** The domain data of the concrete component types: a `StringComponent`
      holds a name, an `IntComponent` a number. */
  datatype Payload = Name(name: string) | Number(number: int)

  class Component {
    /** The tag of the component's concrete type; `dynamic_pointer_cast`
        to a type succeeds exactly on components of that type. */
    const kind: nat
    var payload: Payload
    /** `mRevision`, a `size_t`. */
    var revision: Size

    /** A new component of the given type and data, at revision 0. */
    constructor (kind: nat, payload: Payload)
      ensures this.kind == kind && this.payload == payload && revision == 0
    {
      this.kind := kind;
      this.payload := payload;
      revision := 0;
    }

    /** `clone_private_data(c)`: c takes over this component's revision;
        nothing else of c changes and this component is only read. */
    method ClonePrivateData(c: Component)
      modifies c
      ensures c.revision == old(revision) && revision == old(revision)
      ensures c.payload == old(c.payload)
    {
      c.revision := revision;
    }

    /** `clone()` of the concrete types: a new component of the same type
        with the domain data copied, then the revision copied. */
    method Clone() returns (copy: Component)
      ensures fresh(copy)
      ensures copy.kind == kind && copy.payload == payload && copy.revision == revision
    {
      copy := new Component(kind, payload);
      ClonePrivateData(copy);
    }
  }
}
