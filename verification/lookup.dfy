/** `getField` and `getPath`: resolving a path to a field, and reporting the
    path of a field. */
module Lookup {
  import opened Wrappers
  import opened Values
  import opened Schemas
  import opened Paths
  import opened Tree

  /** ContainerField's child lookup: the position of the first child whose
      `name` is `nm`, if any. */
  function FindName(cs: seq<Node>, nm: Option<string>): (r: Option<nat>)
    ensures r.Some? ==> r.value < |cs| && cs[r.value].Name() == nm
    ensures r.Some? ==> forall j :: 0 <= j < r.value ==> cs[j].Name() != nm
    ensures r.None? ==> forall j :: 0 <= j < |cs| ==> cs[j].Name() != nm
  {
    if |cs| == 0 then None
    else if cs[0].Name() == nm then Some(0)
    else
      match FindName(cs[1..], nm)
      case None => None
      case Some(k) => Some(k + 1)
  }

  /** `_getField(segment)`: the position of the child one segment names.
      A ListField takes a number, or a string that is an array index, as a
      position; ContainerField and HashField compare the segment with each
      child's `name` (a number never equals a name). */
  function ChildIndex(n: Node, seg: Seg): (r: Option<nat>)
    ensures r.Some? ==> n.Composite? && r.value < |n.children|
    ensures n.Composite? && n.kind.Indexed? && seg.Index? ==>
              r == if 0 <= seg.index < |n.children| then Some(seg.index) else None
    ensures n.Composite? && !n.kind.Indexed? && seg.Key? ==> r == FindName(n.children, Some(seg.key))
    ensures n.Composite? && !n.kind.Indexed? && seg.Undefined? ==> r == FindName(n.children, None)
    ensures n.Composite? && !n.kind.Indexed? && seg.Index? ==> r.None?
    ensures n.Composite? && n.kind.Indexed? && (seg.Undefined? || (seg.Key? && !IsIndexString(seg.key))) ==>
              r.None?
  {
    match n
    case Leaf(_, _, _, _) => None
    case Composite(kind, _, _, _, cs) =>
      if kind.Indexed? then
        match seg
        case Index(i) => if 0 <= i < |cs| then Some(i) else None
        case Key(s) =>
          (match ParseIndex(s)
           case Some(i) => if i < |cs| then Some(i) else None
           case None => None)
        case Undefined => None
      else
        match seg
        case Key(s) => FindName(cs, Some(s))
        case Undefined => FindName(cs, None)
        case Index(_) => None
  }

  /** In a ListField the string form of a position finds the same child as
      the position itself. */
  lemma IndexStringLookup(n: Node, i: nat)
    requires n.Composite? && n.kind.Indexed?
    ensures ChildIndex(n, Key(ShowIndex(i))) == ChildIndex(n, Index(i))
    ensures ChildIndex(n, Index(i)) == if i < |n.children| then Some(i) else None
  {
    ParseShow(i);
  }

  /** Resolves segments one at a time; `undefined` as soon as one fails. */
  function Walk(n: Node, segs: seq<Seg>): (r: Option<Node>)
    ensures |segs| == 0 ==> r == Some(n)
    ensures |segs| > 0 && n.Leaf? ==> r.None?
    ensures |segs| > 0 && ChildIndex(n, segs[0]).None? ==> r.None?
  {
    if |segs| == 0 then Some(n)
    else
      match ChildIndex(n, segs[0])
      case None => None
      case Some(k) => Walk(n.children[k], segs[1..])
  }

  /** A dot-delimited path read as name segments. */
  function AsKeys(pieces: seq<string>): (r: seq<Seg>)
    ensures |r| == |pieces|
    ensures forall k :: 0 <= k < |r| ==> r[k] == Key(pieces[k])
  {
    if |pieces| == 0 then [] else [Key(pieces[0])] + AsKeys(pieces[1..])
  }

  /** `getField(path)`: the field itself for an absent or empty path; a
      string path is split on dots first. */
  function GetField(n: Node, p: PathArg): (r: Option<Node>)
    ensures !HasSegments(p) ==> r == Some(n)
    ensures p.Segments? ==> r == Walk(n, p.segs)
  {
    match p
    case NoPath => Some(n)
    case Dotted(t) => if |t| == 0 then Some(n) else Walk(n, AsKeys(Split(t)))
    case Segments(ss) => Walk(n, ss)
  }

  /** A dotted path resolves as the array of its dot-free pieces, read as
      names. */
  lemma DottedIsSegments(n: Node, ps: seq<string>)
    requires |ps| >= 1 && Join(ps) != ""
    requires forall k :: 0 <= k < |ps| ==> '.' !in ps[k]
    ensures GetField(n, Dotted(Join(ps))) == GetField(n, Segments(AsKeys(ps)))
  {
    SplitJoin(ps);
  }

  /** Resolving `p + q` is resolving `q` from the field `p` resolves to. */
  lemma {:induction false} WalkConcat(n: Node, p: seq<Seg>, q: seq<Seg>)
    ensures Walk(n, p + q) == if Walk(n, p).Some? then Walk(Walk(n, p).value, q) else None
  {
    if |p| == 0 {
      assert p + q == q;
    } else {
      assert (p + q)[0] == p[0];
      assert (p + q)[1..] == p[1..] + q;
      match ChildIndex(n, p[0])
      case None =>
      case Some(k) => WalkConcat(n.children[k], p[1..], q);
    }
  }

  /** Whatever a path resolves to is a field of the tree, one level down per
      segment. */
  lemma {:induction false} WalkReaches(n: Node, p: seq<Seg>)
    requires Walk(n, p).Some?
    ensures exists addr :: |addr| == |p| && NodeAt(n, addr) == Walk(n, p)
  {
    if |p| == 0 {
      assert NodeAt(n, []) == Walk(n, p);
    } else {
      var k := ChildIndex(n, p[0]).value;
      WalkReaches(n.children[k], p[1..]);
      var rest :| |rest| == |p[1..]| && NodeAt(n.children[k], rest) == Walk(n.children[k], p[1..]);
      assert ([k] + rest)[1..] == rest;
      assert NodeAt(n, [k] + rest) == Walk(n, p);
    }
  }

  /** The segment a container reports for its child at position `k`: the
      position in a ListField, the child's `name` otherwise. */
  function SegFor(n: Node, k: nat): (s: Seg)
    requires n.Composite? && k < |n.children|
    ensures n.kind.Indexed? ==> s == Index(k)
    ensures !n.kind.Indexed? ==> s.Key? == n.children[k].Name().Some? && !s.Index?
    ensures s.Key? ==> n.children[k].Name() == Some(s.key)
    ensures ChildIndex(n, s) ==
              if n.kind.Indexed? then Some(k) else FindName(n.children, n.children[k].Name())
  {
    if n.kind.Indexed? then Index(k)
    else
      match n.children[k].Name()
      case Some(s) => Key(s)
      case None => Undefined
  }

  /** `getPath`: the segments leading from `n` to the field at `addr`; the
      root itself contributes none. */
  function PathOf(n: Node, addr: seq<nat>): (p: seq<Seg>)
    requires NodeAt(n, addr).Some?
    ensures |p| == |addr|
  {
    if |addr| == 0 then []
    else [SegFor(n, addr[0])] + PathOf(n.children[addr[0]], addr[1..])
  }

  /** `getPath` works from the parent: a field's path is its parent's path
      followed by the segment the parent reports for it. */
  lemma {:induction false} PathOfChild(n: Node, addr: seq<nat>, k: nat)
    requires NodeAt(n, addr).Some? && NodeAt(n, addr).value.Composite?
    requires k < |NodeAt(n, addr).value.children|
    ensures NodeAt(n, addr + [k]) == Some(NodeAt(n, addr).value.children[k])
    ensures PathOf(n, addr + [k]) == PathOf(n, addr) + [SegFor(NodeAt(n, addr).value, k)]
  {
    NodeAtConcat(n, addr, [k]);
    if |addr| > 0 {
      assert (addr + [k])[0] == addr[0];
      assert (addr + [k])[1..] == addr[1..] + [k];
      PathOfChild(n.children[addr[0]], addr[1..], k);
    }
  }

  /** The child at position `k` is the first of its siblings with its name
      (always so in a ListField, where lookup is by position). */
  predicate FirstOfName(n: Node, k: nat)
    requires n.Composite? && k < |n.children|
  {
    n.kind.Indexed? || forall j :: 0 <= j < k ==> n.children[j].Name() != n.children[k].Name()
  }

  /** Every step from `n` to the field at `addr` picks the first child of
      its name. */
  predicate FirstAlong(n: Node, addr: seq<nat>)
    requires NodeAt(n, addr).Some?
  {
    |addr| == 0 || (FirstOfName(n, addr[0]) && FirstAlong(n.children[addr[0]], addr[1..]))
  }

  /** Resolving the reported path of a field gives the field back, provided
      no earlier sibling along the way shares a name with the child taken. */
  lemma {:induction false} PathRoundTrip(n: Node, addr: seq<nat>)
    requires NodeAt(n, addr).Some? && FirstAlong(n, addr)
    ensures GetField(n, Segments(PathOf(n, addr))) == NodeAt(n, addr)
  {
    if |addr| > 0 {
      var k := addr[0];
      assert ChildIndex(n, SegFor(n, k)) == Some(k);
      PathRoundTrip(n.children[k], addr[1..]);
    }
  }

  /** In every ContainerField and HashField of the tree, sibling names differ. */
  predicate SiblingsDistinct(n: Node) {
    match n
    case Leaf(_, _, _, _) => true
    case Composite(kind, _, _, _, cs) =>
      && (kind.Indexed? || forall j, k | 0 <= j < k < |cs| :: cs[j].Name() != cs[k].Name())
      && (forall k | 0 <= k < |cs| :: SiblingsDistinct(cs[k]))
  }

  /** With distinct sibling names every field is the first of its name. */
  lemma {:induction false} DistinctFirstAlong(n: Node, addr: seq<nat>)
    requires SiblingsDistinct(n) && NodeAt(n, addr).Some?
    ensures FirstAlong(n, addr)
  {
    if |addr| > 0 {
      DistinctFirstAlong(n.children[addr[0]], addr[1..]);
    }
  }

  /** A tree built from a schema whose ContainerField entries have distinct
      names has distinct sibling names everywhere: HashField keys never
      repeat. */
  lemma {:induction false} BuildSiblingsDistinct(s: Schema, v: Value, i: Value, leaf: LeafFactory)
    requires DistinctNames(s)
    ensures SiblingsDistinct(Build(s, v, i, leaf))
    decreases s.body
  {
    var n := Build(s, v, i, leaf);
    match s.body
    case Simple =>
    case Container(es) =>
      forall k | 0 <= k < |es|
        ensures SiblingsDistinct(n.children[k])
      {
        BuildSiblingsDistinct(es[k], n.children[k].value, n.children[k].initial, leaf);
      }
    case Hash(t) =>
      HashChildren(s, v, i, leaf);
      forall k | 0 <= k < |n.children|
        ensures SiblingsDistinct(n.children[k])
      {
        var key := n.children[k].Name().value;
        assert DistinctNames(t.(name := Some(key)));
        BuildSiblingsDistinct(t.(name := Some(key)), n.children[k].value, n.children[k].initial, leaf);
      }
    case List(t) =>
      forall k | 0 <= k < |n.children|
        ensures SiblingsDistinct(n.children[k])
      {
        BuildSiblingsDistinct(t, n.children[k].value, n.children[k].initial, leaf);
      }
  }

  /** In a tree built from such a schema, `getField(getPath(f))` is `f` for
      every field `f`. */
  lemma BuiltPathRoundTrip(s: Schema, v: Value, i: Value, leaf: LeafFactory, addr: seq<nat>)
    requires DistinctNames(s) && NodeAt(Build(s, v, i, leaf), addr).Some?
    ensures GetField(Build(s, v, i, leaf), Segments(PathOf(Build(s, v, i, leaf), addr)))
              == NodeAt(Build(s, v, i, leaf), addr)
  {
    var n := Build(s, v, i, leaf);
    BuildSiblingsDistinct(s, v, i, leaf);
    DistinctFirstAlong(n, addr);
    PathRoundTrip(n, addr);
  }

  /** How a segment reads inside a dot-delimited path (`String(segment)`,
      with `undefined` joined as the empty string). */
  function SegText(seg: Seg): string {
    match seg
    case Key(s) => s
    case Index(i) => if i >= 0 then ShowIndex(i) else "-" + ShowIndex(-i)
    case Undefined => ""
  }

  /** The text of every segment of a path. */
  function Texts(p: seq<Seg>): (r: seq<string>)
    ensures |r| == |p|
    ensures forall k :: 0 <= k < |p| ==> r[k] == SegText(p[k])
  {
    if |p| == 0 then [] else [SegText(p[0])] + Texts(p[1..])
  }

  /** `path.join(".")`. */
  function PathString(p: seq<Seg>): string
    requires |p| >= 1
  {
    Join(Texts(p))
  }

  /** Reading every reported segment back as a string still finds the field:
      a ListField reads the index string as the same position. */
  lemma {:induction false} TextPathRoundTrip(n: Node, addr: seq<nat>)
    requires NodeAt(n, addr).Some? && FirstAlong(n, addr)
    requires forall k :: 0 <= k < |addr| ==> !PathOf(n, addr)[k].Undefined?
    ensures Walk(n, AsKeys(Texts(PathOf(n, addr)))) == NodeAt(n, addr)
  {
    if |addr| > 0 {
      var a, rest := addr[0], addr[1..];
      var c := n.children[a];
      var p := PathOf(n, addr);
      assert p == [SegFor(n, a)] + PathOf(c, rest);
      assert forall k :: 0 <= k < |rest| ==> PathOf(c, rest)[k] == p[k + 1];
      TextPathRoundTrip(c, rest);
      var keys := AsKeys(Texts(p));
      assert keys[1..] == AsKeys(Texts(PathOf(c, rest)));
      assert keys[0] == Key(SegText(SegFor(n, a)));
      TextFinds(n, a);
    }
  }

  /** The text of the segment reported for a child finds that child again,
      when the child is the first of its name. */
  lemma TextFinds(n: Node, a: nat)
    requires n.Composite? && a < |n.children| && FirstOfName(n, a)
    requires !SegFor(n, a).Undefined?
    ensures ChildIndex(n, Key(SegText(SegFor(n, a)))) == Some(a)
  {
    if n.kind.Indexed? {
      ParseShow(a);
    } else {
      assert FindName(n.children, n.children[a].Name()) == Some(a);
    }
  }

  /** A dot-delimited `getPath` string resolves to the field it was reported
      for, as long as no name on the way contains a dot or is missing and the
      string is not empty. */
  lemma DottedPathRoundTrip(n: Node, addr: seq<nat>)
    requires NodeAt(n, addr).Some? && FirstAlong(n, addr) && |addr| >= 1
    requires forall k :: 0 <= k < |addr| ==>
               !PathOf(n, addr)[k].Undefined? && '.' !in SegText(PathOf(n, addr)[k])
    requires PathString(PathOf(n, addr)) != ""
    ensures GetField(n, Dotted(PathString(PathOf(n, addr)))) == NodeAt(n, addr)
  {
    SplitJoin(Texts(PathOf(n, addr)));
    TextPathRoundTrip(n, addr);
  }
}
