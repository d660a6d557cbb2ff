/**
 * The slice of an OSM object that the diff iterator and the diff visitor
 * look at: its item type and its id. Everything else about an object is an
 * opaque payload, represented here by a version number.
 */
module Entities {

  /**
   * The item type of an object. `Undefined` is the bookkeeping value the
   * dispatcher starts from; `Other` stands for every further value of the
   * item type enumeration (changesets, areas, ...), which the dispatcher
   * does not know how to narrow.
   */
  datatype Kind = Undefined | Node | Way | Relation | Other

  /** One object of the input stream: its identity and an opaque payload. */
  datatype Entity = Entity(kind: Kind, id: int, version: int)

  /** Two objects are versions of the same thing when type and id agree. */
  predicate SameIdentity(a: Entity, b: Entity)
  {
    a.kind == b.kind && a.id == b.id
  }

  /** The three kinds a diff can be narrowed to. */
  predicate IsObjectKind(k: Kind)
  {
    k == Node || k == Way || k == Relation
  }
}
