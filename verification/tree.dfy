/** The field tree: nodes, and how a container builds its children from its
    schema, its value and its initial value. */
module Tree {
  import opened Wrappers
  import opened Sequences
  import opened Values
  import opened Schemas

  /** The three container kinds: ContainerField (named children), HashField
      (one child per key, all from `template`), ListField (one child per
      element, all from `template`). */
  datatype Kind = Named | Keyed(template: Schema) | Indexed(template: Schema)

  /** What a leaf field reports about itself. Leaf fields are not part of
      this model: whatever the leaf factory decides is taken as given. */
  datatype LeafState = LeafState(valid: bool, clean: Value, json: Value, errors: Value)

  /** Builds the state of a leaf field from its schema, value and initial value. */
  type LeafFactory = (Schema, Value, Value) -> LeafState

  /** A field: a leaf, or a container owning its children in order. */
  datatype Node =
    | Leaf(schema: Schema, value: Value, initial: Value, state: LeafState)
    | Composite(kind: Kind, schema: Schema, value: Value, initial: Value, children: seq<Node>)
  {
    /** `field.name`, taken from the field's schema. */
    function Name(): Option<string> {
      schema.name
    }
  }

  /** The child keys of a HashField: the union of the keys of its value and
      of its initial value. */
  function HashKeys(v: Value, i: Value): seq<string> {
    Union(Keys(AsHash(v)), Keys(AsHash(i)))
  }

  /** The array a ListField iterates: its value if that is an array, else `[]`. */
  function ListItems(v: Value): seq<Value> {
    if v.Arr? then v.items else []
  }

  /** Creates the field for `s` with value `v` and initial value `i`,
      creating every descendant at once. A simple schema gives a leaf. A
      ContainerField gets one child per schema entry, reading the value and
      initial value under the entry's name. A HashField gets one child per
      distinct key of its value or initial value, named by that key. A
      ListField gets one child per element of an array value. */
  function Build(s: Schema, v: Value, i: Value, leaf: LeafFactory): (n: Node)
    ensures n.schema == s && n.value == v && n.initial == i
    ensures n.Leaf? <==> s.body.Simple?
    ensures n.Leaf? ==> n.state == leaf(s, v, i)
    ensures s.body.Container? ==>
      var es := s.body.entries;
      && n.kind == Named
      && |n.children| == |es|
      && forall k :: 0 <= k < |es| ==>
           && n.children[k].schema == es[k]
           && n.children[k].value == Member(AsHash(v), KeyOf(es[k].name))
           && n.children[k].initial == Member(AsHash(i), KeyOf(es[k].name))
    ensures s.body.Hash? ==>
      var keys := HashKeys(v, i);
      && n.kind == Keyed(s.body.template)
      && |n.children| == |keys|
      && NoDup(keys)
      && (forall x :: x in keys <==> x in Keys(AsHash(v)) || x in Keys(AsHash(i)))
      && forall k :: 0 <= k < |keys| ==>
           && n.children[k].schema == s.body.template.(name := Some(keys[k]))
           && n.children[k].value == Member(AsHash(v), keys[k])
           && n.children[k].initial == Member(AsHash(i), keys[k])
    ensures s.body.List? ==>
      && n.kind == Indexed(s.body.template)
      && |n.children| == (if v.Arr? then |v.items| else 0)
      && forall k :: 0 <= k < |n.children| ==>
           && n.children[k].schema == s.body.template
           && n.children[k].value == v.items[k]
           && n.children[k].initial == (if i.Arr? && k < |i.items| then i.items[k] else Absent)
    decreases s.body
  {
    match s.body
    case Simple => Leaf(s, v, i, leaf(s, v, i))
    case Container(es) =>
      var cv, ci := AsHash(v), AsHash(i);
      Composite(Named, s, v, i,
        seq(|es|, k requires 0 <= k < |es| =>
          Build(es[k], Member(cv, KeyOf(es[k].name)), Member(ci, KeyOf(es[k].name)), leaf)))
    case Hash(t) =>
      var cv, ci := AsHash(v), AsHash(i);
      var keys := HashKeys(v, i);
      DedupDistinct(Keys(cv) + Keys(ci));
      Composite(Keyed(t), s, v, i,
        seq(|keys|, k requires 0 <= k < |keys| =>
          Build(t.(name := Some(keys[k])), Member(cv, keys[k]), Member(ci, keys[k]), leaf)))
    case List(t) =>
      var items := ListItems(v);
      Composite(Indexed(t), s, v, i,
        seq(|items|, k requires 0 <= k < |items| => Build(t, items[k], Element(i, k), leaf)))
  }

  /** The descendant reached by following child positions `addr`. */
  function NodeAt(n: Node, addr: seq<nat>): Option<Node>
  {
    if |addr| == 0 then Some(n)
    else if n.Composite? && addr[0] < |n.children| then NodeAt(n.children[addr[0]], addr[1..])
    else None
  }

  /** Following `a + b` is following `a`, then `b` from where `a` ends. */
  lemma {:induction false} NodeAtConcat(n: Node, a: seq<nat>, b: seq<nat>)
    ensures NodeAt(n, a + b) == if NodeAt(n, a).Some? then NodeAt(NodeAt(n, a).value, b) else None
  {
    if |a| > 0 {
      assert (a + b)[0] == a[0];
      assert (a + b)[1..] == a[1..] + b;
      if n.Composite? && a[0] < |n.children| {
        NodeAtConcat(n.children[a[0]], a[1..], b);
      }
    } else {
      assert a + b == b;
    }
  }

  /** A ContainerField has one child per schema entry, in schema order; child
      `k` follows entry `k` and gets the value and initial value under that
      entry's name, both read from `{}` when they are not plain objects. */
  lemma ContainerChildren(s: Schema, v: Value, i: Value, leaf: LeafFactory)
    requires s.body.Container?
    ensures var n, es := Build(s, v, i, leaf), s.body.entries;
      && n.Composite? && n.kind == Named
      && |n.children| == |es|
      && (forall k :: 0 <= k < |es| ==>
            && n.children[k] == Build(es[k], n.children[k].value, n.children[k].initial, leaf)
            && n.children[k].Name() == es[k].name
            && n.children[k].value == Member(AsHash(v), KeyOf(es[k].name))
            && n.children[k].initial == Member(AsHash(i), KeyOf(es[k].name)))
      && (!IsHash(v) ==> forall k :: 0 <= k < |es| ==> n.children[k].value == Absent)
      && (!IsHash(i) ==> forall k :: 0 <= k < |es| ==> n.children[k].initial == Absent)
  {
  }

  /** A HashField's children are named by the keys of its value in order,
      followed by the keys of its initial value that the value lacks; no name
      repeats, no name is missing from both, and each child follows the
      template under its key, with the value and initial value at that key. */
  lemma HashChildren(s: Schema, v: Value, i: Value, leaf: LeafFactory)
    requires s.body.Hash?
    ensures var n, t := Build(s, v, i, leaf), s.body.template;
      var vk, ik := Keys(AsHash(v)), Keys(AsHash(i));
      var names := vk + Dedup(Minus(ik, vk));
      && n.Composite? && n.kind == Keyed(t)
      && |n.children| == |names|
      && NoDup(names)
      && (forall x :: x in names <==> x in vk || x in ik)
      && (forall k :: 0 <= k < |names| ==>
            && n.children[k] == Build(t.(name := Some(names[k])), n.children[k].value, n.children[k].initial, leaf)
            && n.children[k].Name() == Some(names[k])
            && n.children[k].value == Member(AsHash(v), names[k])
            && n.children[k].initial == Member(AsHash(i), names[k]))
  {
    var n, t := Build(s, v, i, leaf), s.body.template;
    HashKeysOrder(v, i);
    forall k | 0 <= k < |n.children|
      ensures n.children[k] == Build(t.(name := Some(HashKeys(v, i)[k])), n.children[k].value, n.children[k].initial, leaf)
    {
    }
  }

  /** The key union keeps the value's keys first, then appends the initial
      value's new keys. */
  lemma HashKeysOrder(v: Value, i: Value)
    ensures HashKeys(v, i) == Keys(AsHash(v)) + Dedup(Minus(Keys(AsHash(i)), Keys(AsHash(v))))
  {
    DedupDistinct(MemberNames(AsHash(v).members));
    UnionOrder(Keys(AsHash(v)), Keys(AsHash(i)));
  }

  /** A ListField has one child per element of its value (none when the value
      is not an array); child `k` follows the template with element `k` as its
      value and the initial value's element `k` when there is one. */
  lemma ListChildren(s: Schema, v: Value, i: Value, leaf: LeafFactory)
    requires s.body.List?
    ensures var n, t := Build(s, v, i, leaf), s.body.template;
      && n.Composite? && n.kind == Indexed(t)
      && |n.children| == (if v.Arr? then |v.items| else 0)
      && (forall k :: 0 <= k < |n.children| ==>
            && n.children[k] == Build(t, v.items[k], n.children[k].initial, leaf)
            && n.children[k].initial == (if i.Arr? && k < |i.items| then i.items[k] else Absent))
  {
  }
}
