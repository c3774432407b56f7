/** Concrete field trees worked through end to end. */
module Scenarios {
  import opened Wrappers
  import opened Sequences
  import opened Values
  import opened Schemas
  import opened Paths
  import opened Tree
  import opened Validation
  import opened Lookup
  import opened Accessors

  const A := Schema(Some("a"), Some("leafA"), false, Simple)
  const B := Schema(Some("b"), Some("leafB"), false, Simple)
  /** `[{name: "a", field: "leafA"}, {name: "b", field: "leafB"}]` in a ContainerField. */
  const Pair := Schema(None, Some("ContainerField"), false, Container([A, B]))

  const Item := Schema(None, Some("CharField"), false, Simple)
  /** A required ListField of CharFields. */
  const Tags := Schema(Some("tags"), Some("ListField"), true, List(Item))

  /** A HashField of CharFields. */
  const Labels := Schema(Some("labels"), Some("HashField"), false, Hash(Item))

  /** With both leaves valid, the pair's JSON maps "a" and "b" to the leaves'
      JSON forms of 1 and 2. */
  lemma PairJSON(s: Schema, v: Value, leaf: LeafFactory)
    requires s == Pair && v == Obj([("a", Num(1)), ("b", Num(2))])
    requires leaf(A, Num(1), Absent).valid && leaf(B, Num(2), Absent).valid
    ensures JSON(Build(s, v, Absent, leaf))
              == Ok(Obj([("a", leaf(A, Num(1), Absent).json), ("b", leaf(B, Num(2), Absent).json)]))
  {
    var n := Build(s, v, Absent, leaf);
    PairChildren(s, v, leaf);
    var ja, jb := leaf(A, Num(1), Absent).json, leaf(B, Num(2), Absent).json;
    assert JSON(n.children[0]) == Ok(ja);
    assert JSON(n.children[1]) == Ok(jb);
    TwoChildJSON(n, "a", "b", ja, jb);
  }

  /** A keyed container with two valid children of different names
      serialises to an object of their two JSON forms. */
  lemma TwoChildJSON(n: Node, x: string, y: string, jx: Value, jy: Value)
    requires n.Composite? && n.kind.Named? && IsHash(n.value)
    requires |n.children| == 2 && x != y
    requires n.children[0].Name() == Some(x) && n.children[1].Name() == Some(y)
    requires JSON(n.children[0]) == Ok(jx) && JSON(n.children[1]) == Ok(jy)
    ensures JSON(n) == Ok(Obj([(x, jx), (y, jy)]))
  {
    assert Valid(n.children[0]) && Valid(n.children[1]);
    assert Valid(n);
    assert ChildKeys(n) == [x, y];
    KeyedJSONShape(n);
    var ms := JSON(n).value.members;
    assert ms == [(x, jx), (y, jy)];
  }

  /** The two children of the pair: leaves for "a" and "b" holding 1 and 2. */
  lemma PairChildren(s: Schema, v: Value, leaf: LeafFactory)
    requires s == Pair && v == Obj([("a", Num(1)), ("b", Num(2))])
    ensures var n := Build(s, v, Absent, leaf);
      && n.Composite? && n.kind == Named && IsHash(n.value)
      && n.children == [Leaf(A, Num(1), Absent, leaf(A, Num(1), Absent)),
                        Leaf(B, Num(2), Absent, leaf(B, Num(2), Absent))]
  {
    var n := Build(s, v, Absent, leaf);
    assert Member(v, "a") == Num(1);
    assert Member(v, "b") == Num(2) by {
      assert v.members[1..] == [("b", Num(2))];
    }
    assert |n.children| == 2;
  }

  /** A required, empty ListField fails `required` naming the item "Char",
      cannot be serialised, and still reports no errors. */
  lemma RequiredEmptyList(leaf: LeafFactory)
    ensures Validate(Build(Tags, Arr([]), Absent, leaf)) == Err(Required("Char"))
    ensures JSON(Build(Tags, Arr([]), Absent, leaf)) == Err(OperationOnInvalid)
    ensures Access(GetErrors, Build(Tags, Arr([]), Absent, leaf), NoPath) == Ok(Arr([]))
  {
    assert "CharField"[..4] == "Char";
  }

  /** A ListField of two valid leaves is valid and reports no errors. */
  lemma TwoValidItems(s: Schema, v: Value, leaf: LeafFactory)
    requires s == Tags && v == Arr([Num(1), Num(2)])
    requires leaf(Item, Num(1), Absent).valid && leaf(Item, Num(2), Absent).valid
    ensures Valid(Build(s, v, Absent, leaf))
    ensures Errors(Build(s, v, Absent, leaf)) == Arr([])
  {
    var n := Build(s, v, Absent, leaf);
    assert n.children[0] == Leaf(Item, Num(1), Absent, leaf(Item, Num(1), Absent));
    assert n.children[1] == Leaf(Item, Num(2), Absent, leaf(Item, Num(2), Absent));
    assert OwnCheck(n).None?;
  }

  /** A ListField whose initial value is not an array gives every child an
      absent initial value, even an object with a key "0". */
  lemma ListIgnoresObjectInitial(leaf: LeafFactory)
    ensures Build(Tags, Arr([Num(1)]), Obj([("0", Num(9))]), leaf).children[0].initial == Absent
  {
  }

  /** The keys of a two-member object with different names. */
  lemma TwoKeys(v: Value, x: string, y: string)
    requires v.Obj? && |v.members| == 2 && v.members[0].0 == x && v.members[1].0 == y && x != y
    ensures Keys(AsHash(v)) == [x, y]
  {
    assert MemberNames(v.members) == [x, y];
    DedupOfDistinct([x, y]);
  }

  /** The keys of two objects named `[x, y]` and `[y, z]` combine to `[x, y, z]`. */
  lemma ThreeKeys(v: Value, i: Value, x: string, y: string, z: string)
    requires v.Obj? && |v.members| == 2 && v.members[0].0 == x && v.members[1].0 == y
    requires i.Obj? && |i.members| == 2 && i.members[0].0 == y && i.members[1].0 == z
    requires x != y && y != z && x != z
    ensures HashKeys(v, i) == [x, y, z]
  {
    TwoKeys(v, x, y);
    TwoKeys(i, y, z);
    var vk, ik := [x, y], [y, z];
    assert Minus(ik, vk) == [z] by {
      MinusSnoc([], vk, y);
      MinusSnoc([y], vk, z);
      assert [] + [y] == [y] && [y] + [z] == ik;
    }
    DedupOfDistinct([z]);
    UnionOrder(vk, ik);
  }

  /** A HashField with value `{b: 1, a: 2}` and initial value `{a: 0, c: 3}`
      has children "b", "a", "c" in that order, and "c" starts out absent. */
  lemma HashKeyOrder(v: Value, i: Value, leaf: LeafFactory)
    requires v == Obj([("b", Num(1)), ("a", Num(2))])
    requires i == Obj([("a", Num(0)), ("c", Num(3))])
    ensures var n := Build(Labels, v, i, leaf);
      && |n.children| == 3
      && n.children[0].Name() == Some("b")
      && n.children[1].Name() == Some("a")
      && n.children[2].Name() == Some("c")
      && n.children[2].value == Absent
      && n.children[2].initial == Num(3)
  {
    ThreeKeys(v, i, "b", "a", "c");
    var n := Build(Labels, v, i, leaf);
    assert |n.children| == 3;
    assert "c" !in MemberNames(v.members);
    assert Get(i.members, "c") == Num(3) by {
      assert i.members[1..] == [("c", Num(3))];
    }
  }

  /** In a ListField, the string "1" and the number 1 address the same child,
      while "01" addresses none. */
  lemma ListSegments(leaf: LeafFactory)
    ensures var n := Build(Tags, Arr([Num(1), Num(2)]), Absent, leaf);
      && GetField(n, Dotted("1")) == GetField(n, Segments([Index(1)]))
      && GetField(n, Dotted("1")) == Some(n.children[1])
      && GetField(n, Dotted("01")).None?
  {
    var n := Build(Tags, Arr([Num(1), Num(2)]), Absent, leaf);
    assert |n.children| == 2;
    assert Split("1") == ["1"];
    assert Split("01") == ["01"];
    assert AsKeys(["1"]) == [Key("1")];
    assert DigitsValue("1") == 1;
    assert ParseIndex("1") == Some(1);
    assert ChildIndex(n, Key("1")) == Some(1);
    assert ChildIndex(n, Index(1)) == Some(1);
    assert Walk(n, [Key("1")]) == Walk(n.children[1], []);
    assert Walk(n, [Index(1)]) == Walk(n.children[1], []);
    assert GetField(n, Dotted("1")) == Walk(n, [Key("1")]);
    assert ParseIndex("01") == None;
  }
}
