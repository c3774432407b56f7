/** The path-taking accessors of a container: `getValue`, `getClean`,
    `toJSON` and `getErrors`, and how a container combines its children's
    results. */
module Accessors {
  import opened Wrappers
  import opened Sequences
  import opened Values
  import opened Schemas
  import opened Paths
  import opened Tree
  import opened Validation
  import opened Lookup

  /** Why an accessor throws: "Field does not exist" for a path that does not
      resolve, or the field being invalid when its clean value or JSON form
      is asked for. */
  datatype AccessError = FieldNotFound | OperationOnInvalid

  /** The accessors that take a path. */
  datatype Op = GetValue | GetClean | ToJSON | GetErrors

  /** `out[k] = v` on an object: the member named `k` takes the new value in
      place, or a new member is appended. */
  function Assign(ms: seq<(string, Value)>, k: string, v: Value): seq<(string, Value)>
  {
    if |ms| == 0 then [(k, v)]
    else if ms[0].0 == k then [(k, v)] + ms[1..]
    else [ms[0]] + Assign(ms[1..], k, v)
  }

  /** Assigning overwrites the member named `k` in place or appends a new one;
      afterwards `k` holds `v` and every other name keeps its value. */
  lemma {:induction false} AssignNames(ms: seq<(string, Value)>, k: string, v: Value)
    ensures MemberNames(Assign(ms, k, v)) ==
              if k in MemberNames(ms) then MemberNames(ms) else MemberNames(ms) + [k]
    ensures k !in MemberNames(ms) ==> Assign(ms, k, v) == ms + [(k, v)]
    ensures Get(Assign(ms, k, v), k) == v
    ensures forall k2 :: k2 != k ==> Get(Assign(ms, k, v), k2) == Get(ms, k2)
  {
    if |ms| > 0 && ms[0].0 != k {
      AssignNames(ms[1..], k, v);
      assert MemberNames(ms) == [ms[0].0] + MemberNames(ms[1..]);
    }
  }

  /** Starting from `{}`, assigns the `j`th result under the `j`th key, in order. */
  function Gather(ks: seq<string>, vs: seq<Value>): seq<(string, Value)>
    requires |ks| == |vs|
  {
    if |ks| == 0 then []
    else Assign(Gather(ks[..|ks| - 1], vs[..|vs| - 1]), ks[|ks| - 1], vs[|vs| - 1])
  }

  /** The object's keys are the keys assigned, each once, at first assignment. */
  lemma {:induction false} GatherKeys(ks: seq<string>, vs: seq<Value>)
    requires |ks| == |vs|
    ensures MemberNames(Gather(ks, vs)) == Dedup(ks)
  {
    if |ks| > 0 {
      var ks', vs' := ks[..|ks| - 1], vs[..|vs| - 1];
      GatherKeys(ks', vs');
      AssignNames(Gather(ks', vs'), ks[|ks| - 1], vs[|vs| - 1]);
    }
  }

  /** Under a key assigned more than once, the object holds the result of the
      last assignment. */
  lemma {:induction false} GatherLast(ks: seq<string>, vs: seq<Value>, j: nat)
    requires |ks| == |vs| && j < |ks|
    requires forall j2 :: j < j2 < |ks| ==> ks[j2] != ks[j]
    ensures Get(Gather(ks, vs), ks[j]) == vs[j]
  {
    var ks', vs' := ks[..|ks| - 1], vs[..|vs| - 1];
    AssignNames(Gather(ks', vs'), ks[|ks| - 1], vs[|vs| - 1]);
    if j < |ks| - 1 {
      assert ks'[j] == ks[j];
      GatherLast(ks', vs', j);
    }
  }

  /** With distinct keys, member `j` is the `j`th key with the `j`th result. */
  lemma {:induction false} GatherDistinct(ks: seq<string>, vs: seq<Value>)
    requires |ks| == |vs| && NoDup(ks)
    ensures |Gather(ks, vs)| == |ks|
    ensures forall j :: 0 <= j < |ks| ==> Gather(ks, vs)[j] == (ks[j], vs[j])
  {
    if |ks| > 0 {
      var ks', vs' := ks[..|ks| - 1], vs[..|vs| - 1];
      assert NoDup(ks');
      GatherDistinct(ks', vs');
      assert ks[|ks| - 1] !in ks';
      GatherFresh(ks, vs);
    }
  }

  /** A key not assigned before is appended as the last member. */
  lemma GatherFresh(ks: seq<string>, vs: seq<Value>)
    requires |ks| == |vs| && |ks| > 0 && ks[|ks| - 1] !in ks[..|ks| - 1]
    ensures Gather(ks, vs) == Gather(ks[..|ks| - 1], vs[..|vs| - 1]) + [(ks[|ks| - 1], vs[|vs| - 1])]
  {
    var ks', vs' := ks[..|ks| - 1], vs[..|vs| - 1];
    GatherKeys(ks', vs');
    AssignNames(Gather(ks', vs'), ks[|ks| - 1], vs[|vs| - 1]);
  }

  /** The keys of the gathered object, and its members when no key repeats. */
  lemma GatherFacts(ks: seq<string>, vs: seq<Value>)
    requires |ks| == |vs|
    ensures MemberNames(Gather(ks, vs)) == Dedup(ks)
    ensures NoDup(ks) ==>
              && |Gather(ks, vs)| == |ks|
              && forall j :: 0 <= j < |ks| ==> Gather(ks, vs)[j] == (ks[j], vs[j])
  {
    GatherKeys(ks, vs);
    if NoDup(ks) {
      GatherDistinct(ks, vs);
    }
  }

  /** The key each child's result goes under: its `name`. */
  function ChildKeys(n: Node): (r: seq<string>)
    requires n.Composite?
    ensures |r| == |n.children|
    ensures forall k :: 0 <= k < |r| ==> r[k] == KeyOf(n.children[k].Name())
  {
    seq(|n.children|, k requires 0 <= k < |n.children| => KeyOf(n.children[k].Name()))
  }

  /** Combines one result per child: an array in child order for a
      ListField, an object keyed by child name otherwise. */
  function Combine(n: Node, rs: seq<Value>): (r: Value)
    requires n.Composite? && |rs| == |n.children|
    ensures n.kind.Indexed? ==> r.Arr? && r.items == rs
    ensures !n.kind.Indexed? ==> r.Obj? && MemberNames(r.members) == Dedup(ChildKeys(n))
    ensures !n.kind.Indexed? && NoDup(ChildKeys(n)) ==>
              && |r.members| == |rs|
              && forall k :: 0 <= k < |rs| ==> r.members[k] == (KeyOf(n.children[k].Name()), rs[k])
  {
    GatherFacts(ChildKeys(n), rs);
    if n.kind.Indexed? then Arr(rs) else Obj(Gather(ChildKeys(n), rs))
  }

  /** When several children share a name, the object holds the result of the
      last of them. */
  lemma CombineLastWins(n: Node, rs: seq<Value>, j: nat)
    requires n.Composite? && !n.kind.Indexed? && |rs| == |n.children| && j < |rs|
    requires forall j2 :: j < j2 < |rs| ==> ChildKeys(n)[j2] != ChildKeys(n)[j]
    ensures Get(Combine(n, rs).members, ChildKeys(n)[j]) == rs[j]
  {
    GatherLast(ChildKeys(n), rs, j);
  }

  /** `toJSON()`: throws when the field is invalid; a container otherwise
      asks every child for its JSON form and combines the answers. */
  function JSON(n: Node): (r: Result<Value, AccessError>)
    ensures r.Ok? <==> Valid(n)
    ensures r.Err? ==> r.error == OperationOnInvalid
    decreases n, if n.Composite? then |n.children| + 1 else 0
  {
    match n
    case Leaf(_, _, _, st) => if st.valid then Ok(st.json) else Err(OperationOnInvalid)
    case Composite(_, _, _, _, _) =>
      if !Valid(n) then Err(OperationOnInvalid)
      else
        match ChildrenJSON(n, 0)
        case Err(e) => Err(e)
        case Ok(vs) => Ok(Combine(n, vs))
  }

  /** The JSON forms of the children from position `k` on, failing with the
      first failure. */
  function ChildrenJSON(n: Node, k: nat): (r: Result<seq<Value>, AccessError>)
    requires n.Composite? && k <= |n.children|
    ensures r.Ok? <==> forall j :: k <= j < |n.children| ==> Valid(n.children[j])
    ensures r.Err? ==> r.error == OperationOnInvalid
    ensures r.Ok? ==> |r.value| == |n.children| - k
    ensures r.Ok? ==> forall j :: k <= j < |n.children| ==> JSON(n.children[j]) == Ok(r.value[j - k])
    decreases n, |n.children| - k
  {
    if k == |n.children| then Ok([])
    else
      match JSON(n.children[k])
      case Err(e) => Err(e)
      case Ok(v) =>
        match ChildrenJSON(n, k + 1)
        case Err(e) => Err(e)
        case Ok(vs) => Ok([v] + vs)
  }

  /** `getErrors()`: `[]` for a container without errors; an invalid
      container reports only its children's `getErrors()` results, combined
      by child name or position, never its own failure. */
  function Errors(n: Node): (r: Value)
    ensures n.Composite? && Valid(n) ==> r == Arr([])
    decreases n, if n.Composite? then |n.children| + 1 else 0
  {
    match n
    case Leaf(_, _, _, st) => st.errors
    case Composite(_, _, _, _, _) =>
      if Valid(n) then Arr([]) else Combine(n, ChildrenErrors(n, 0))
  }

  /** The `getErrors()` results of the children from position `k` on. */
  function ChildrenErrors(n: Node, k: nat): (r: seq<Value>)
    requires n.Composite? && k <= |n.children|
    ensures |r| == |n.children| - k
    ensures forall j :: k <= j < |n.children| ==> r[j - k] == Errors(n.children[j])
    decreases n, |n.children| - k
  {
    if k == |n.children| then [] else [Errors(n.children[k])] + ChildrenErrors(n, k + 1)
  }

  /** `getClean()`: throws when the field is invalid; a container's clean
      value is what its `validate` returned, its value unchanged. */
  function Clean(n: Node): (r: Result<Value, AccessError>)
    ensures r.Ok? <==> Valid(n)
    ensures r.Err? ==> r.error == OperationOnInvalid
    ensures n.Composite? && r.Ok? ==> r.value == n.value
  {
    match n
    case Leaf(_, _, _, st) => if st.valid then Ok(st.clean) else Err(OperationOnInvalid)
    case Composite(_, _, _, _, _) =>
      match Validate(n)
      case Ok(v) => Ok(v)
      case Err(_) => Err(OperationOnInvalid)
  }

  /** An accessor called without a path. */
  function Own(op: Op, n: Node): (r: Result<Value, AccessError>)
    ensures r.Err? ==> r.error == OperationOnInvalid && (op.GetClean? || op.ToJSON?)
    ensures (op.GetClean? || op.ToJSON?) ==> (r.Ok? <==> Valid(n))
    ensures op.GetValue? ==> r == Ok(n.value)
    ensures op.GetClean? && n.Composite? && r.Ok? ==> r.value == n.value
    ensures op.GetErrors? ==> r == Ok(Errors(n))
    ensures op.GetClean? ==> r == Clean(n)
    ensures op.ToJSON? ==> r == JSON(n)
  {
    match op
    case GetValue => Ok(n.value)
    case GetClean => Clean(n)
    case ToJSON => JSON(n)
    case GetErrors => Ok(Errors(n))
  }

  /** An accessor called with a path: with a non-empty path it resolves the
      field and asks it, throwing "Field does not exist" exactly when the
      path does not resolve; without one it answers for the container. */
  function Access(op: Op, n: Node, p: PathArg): (r: Result<Value, AccessError>)
    ensures r == Err(FieldNotFound) <==> HasSegments(p) && GetField(n, p).None?
    ensures !HasSegments(p) ==> r == Own(op, n)
    ensures HasSegments(p) && GetField(n, p).Some? ==> r == Own(op, GetField(n, p).value)
  {
    if HasSegments(p) then
      match GetField(n, p)
      case None => Err(FieldNotFound)
      case Some(m) => Own(op, m)
    else Own(op, n)
  }

  /** Asking along `p + q` is asking the field at `p` along `q`; a prefix
      that does not resolve makes the whole path fail. */
  lemma AccessAlong(op: Op, n: Node, p: seq<Seg>, q: seq<Seg>)
    ensures Access(op, n, Segments(p + q)) ==
              if Walk(n, p).Some? then Access(op, Walk(n, p).value, Segments(q)) else Err(FieldNotFound)
  {
    if |q| == 0 {
      assert p + q == p;
    }
    WalkConcat(n, p, q);
  }

  /** Reading a ListField child's value by position: `getValue([k])` is
      element `k` of the array value, and throws "Field does not exist" for
      a position outside it, or for any position when the value is not an
      array. */
  lemma ListChildValue(s: Schema, v: Value, i: Value, leaf: LeafFactory, k: int)
    requires s.body.List?
    ensures Access(GetValue, Build(s, v, i, leaf), Segments([Index(k)])) ==
              if v.Arr? && 0 <= k < |v.items| then Ok(v.items[k]) else Err(FieldNotFound)
  {
    var n := Build(s, v, i, leaf);
    assert [Index(k)][1..] == [];
    assert Walk(n, [Index(k)]) == if 0 <= k < |n.children| then Some(n.children[k]) else None;
  }

  /** Reading a HashField child's value by key: `getValue([key])` is
      `value[key]` for every key of the value or the initial value (so
      `undefined` for a key only the initial value has), and throws "Field
      does not exist" for any other key. */
  lemma HashChildValue(s: Schema, v: Value, i: Value, leaf: LeafFactory, key: string)
    requires s.body.Hash?
    ensures Access(GetValue, Build(s, v, i, leaf), Segments([Key(key)])) ==
              if key in Keys(AsHash(v)) || key in Keys(AsHash(i)) then Ok(Member(AsHash(v), key))
              else Err(FieldNotFound)
  {
    var n := Build(s, v, i, leaf);
    AccessOneSegment(GetValue, n, Key(key));
    HashFind(s, v, i, leaf, key);
  }

  /** A HashField finds a child by a key exactly when the key is one of its
      keys, and that child holds the value's member under the key. */
  lemma HashFind(s: Schema, v: Value, i: Value, leaf: LeafFactory, key: string)
    requires s.body.Hash?
    ensures ChildIndex(Build(s, v, i, leaf), Key(key)).Some? <==> key in HashKeys(v, i)
    ensures ChildIndex(Build(s, v, i, leaf), Key(key)).Some? ==>
              Build(s, v, i, leaf).children[ChildIndex(Build(s, v, i, leaf), Key(key)).value].value ==
              Member(AsHash(v), key)
  {
    var n := Build(s, v, i, leaf);
    var keys := HashKeys(v, i);
    assert forall j :: 0 <= j < |keys| ==> n.children[j].Name() == Some(keys[j]);
    match FindName(n.children, Some(key))
    case None =>
      assert key !in keys;
    case Some(j) =>
      assert keys[j] == key;
  }

  /** Asking along a one-segment path is asking the child that segment finds. */
  lemma AccessOneSegment(op: Op, n: Node, seg: Seg)
    ensures Access(op, n, Segments([seg])) ==
              if ChildIndex(n, seg).Some? then Own(op, n.children[ChildIndex(n, seg).value])
              else Err(FieldNotFound)
  {
    assert [seg][1..] == [];
  }

  /** A valid ListField's JSON is an array with one entry per child, entry
      `k` being child `k`'s JSON. */
  lemma ListJSONShape(n: Node)
    requires n.Composite? && n.kind.Indexed? && Valid(n)
    ensures JSON(n).Ok? && JSON(n).value.Arr?
    ensures |JSON(n).value.items| == |n.children|
    ensures forall k :: 0 <= k < |n.children| ==> JSON(n.children[k]) == Ok(JSON(n).value.items[k])
  {
  }

  /** Children of a valid ContainerField or HashField that share a name
      serialise under one key, which holds the JSON of the last of them. */
  lemma KeyedJSONLastWins(n: Node, j: nat)
    requires n.Composite? && !n.kind.Indexed? && Valid(n) && j < |n.children|
    requires forall j2 :: j < j2 < |n.children| ==> ChildKeys(n)[j2] != ChildKeys(n)[j]
    ensures JSON(n).Ok? && JSON(n).value.Obj?
    ensures Get(JSON(n).value.members, KeyOf(n.children[j].Name())) == JSON(n.children[j]).value
  {
    CombineLastWins(n, ChildrenJSON(n, 0).value, j);
  }

  /** A valid ContainerField's or HashField's JSON is an object with one key
      per distinct child name; when the names are distinct, member `k` is
      child `k`'s name with child `k`'s JSON. */
  lemma KeyedJSONShape(n: Node)
    requires n.Composite? && !n.kind.Indexed? && Valid(n)
    ensures JSON(n).Ok? && JSON(n).value.Obj?
    ensures MemberNames(JSON(n).value.members) == Dedup(ChildKeys(n))
    ensures NoDup(ChildKeys(n)) ==>
              && |JSON(n).value.members| == |n.children|
              && forall k :: 0 <= k < |n.children| ==>
                   && JSON(n).value.members[k].0 == KeyOf(n.children[k].Name())
                   && JSON(n).value.members[k].1 == JSON(n.children[k]).value
  {
    var vs := ChildrenJSON(n, 0).value;
    GatherKeys(ChildKeys(n), vs);
    if NoDup(ChildKeys(n)) {
      GatherDistinct(ChildKeys(n), vs);
    }
  }

  /** An invalid ListField reports an array of its children's errors, in
      child order. */
  lemma ListErrorsShape(n: Node)
    requires n.Composite? && n.kind.Indexed? && !Valid(n)
    ensures Errors(n) == Arr(ChildrenErrors(n, 0))
    ensures |Errors(n).items| == |n.children|
    ensures forall k :: 0 <= k < |n.children| ==> Errors(n).items[k] == Errors(n.children[k])
  {
  }

  /** An invalid ContainerField or HashField with distinct child names
      reports an object mapping each child name to that child's errors. */
  lemma KeyedErrorsShape(n: Node)
    requires n.Composite? && !n.kind.Indexed? && !Valid(n) && NoDup(ChildKeys(n))
    ensures Errors(n).Obj? && |Errors(n).members| == |n.children|
    ensures forall k :: 0 <= k < |n.children| ==>
              Errors(n).members[k] == (KeyOf(n.children[k].Name()), Errors(n.children[k]))
  {
    GatherDistinct(ChildKeys(n), ChildrenErrors(n, 0));
  }

  /** A ListField without children reports no errors even when it is
      invalid, for instance a required, empty one. */
  lemma EmptyListReportsNoErrors(n: Node)
    requires n.Composite? && n.kind.Indexed? && |n.children| == 0
    ensures Errors(n) == Arr([])
  {
  }
}
