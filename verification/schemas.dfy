/** Field descriptors: the declarative schema a field tree is built from. */
module Schemas {
  import opened Wrappers

  /** One field descriptor: its `name`, its `field` type name, whether it is
      `required`, and what kind of field it describes. */
  datatype Schema = Schema(name: Option<string>, field: Option<string>, required: bool, body: Body)

  /** A leaf (simple) field; a ContainerField with one descriptor per named child;
      a HashField or ListField with the one template every child follows. */
  datatype Body =
    | Simple
    | Container(entries: seq<Schema>)
    | Hash(template: Schema)
    | List(template: Schema)

  /** A name JavaScript treats as true: present and not the empty string. */
  predicate HasName(t: Schema) {
    t.name.Some? && t.name.value != ""
  }

  /** The item name a `required` message names: the template's `name`,
      else its `field` with the last five characters (the "Field" suffix)
      dropped when something is left, else "item". */
  function ItemName(t: Schema): (r: string)
    ensures r != ""
    ensures HasName(t) ==> Some(r) == t.name
    ensures !HasName(t) && t.field.Some? && |t.field.value| > 5 ==>
              r + t.field.value[|t.field.value| - 5..] == t.field.value
    ensures !HasName(t) && (t.field.None? || |t.field.value| <= 5) ==> r == "item"
  {
    if HasName(t) then t.name.value
    else if t.field.Some? && |t.field.value| > 5 then t.field.value[..|t.field.value| - 5]
    else "item"
  }

  /** Every ContainerField descriptor in the schema gives its children
      pairwise different names. */
  predicate DistinctNames(s: Schema)
    decreases s.body
  {
    match s.body
    case Simple => true
    case Container(es) =>
      && (forall j, k | 0 <= j < k < |es| :: es[j].name != es[k].name)
      && (forall k | 0 <= k < |es| :: DistinctNames(es[k]))
    case Hash(t) => DistinctNames(t)
    case List(t) => DistinctNames(t)
  }
}
