/** Validity of a field tree, worked out bottom-up. */
module Validation {
  import opened Wrappers
  import opened Values
  import opened Schemas
  import opened Tree

  /** Why a container's `validate` fails: `required` (with the item name the
      message would use), `invalid` (the value has the wrong shape) or
      `invalidChild` (some child is invalid). */
  datatype Failure = Required(item: string) | Invalid | InvalidChild

  /** `isValid()`: a leaf reports its own validity; a container is valid
      when its `validate` passes. */
  function Valid(n: Node): (r: bool)
    ensures n.Leaf? ==> (r <==> n.state.valid)
    ensures n.Composite? ==>
      (r <==> OwnCheck(n).None? && forall k :: 0 <= k < |n.children| ==> Valid(n.children[k]))
    decreases n, 1
  {
    match n
    case Leaf(_, _, _, st) => st.valid
    case Composite(_, _, _, _, _) => Validate(n).Ok?
  }

  /** The checks a container makes of its own value, in order, before it
      looks at its children. HashField and ListField first fail `required`
      on an empty value when the field is required; then ContainerField and
      HashField want a plain object and ListField an array. */
  function OwnCheck(n: Node): (r: Option<Failure>)
    requires n.Composite?
    ensures r.None? <==>
      && (if n.kind.Indexed? then n.value.Arr? else IsHash(n.value))
      && !(!n.kind.Named? && IsEmpty(n.value) && n.schema.required)
    ensures r.Some? && r.value.Required? ==>
      && !n.kind.Named? && IsEmpty(n.value) && n.schema.required
      && r.value.item == ItemName(n.kind.template)
    ensures r.Some? ==> r.value != InvalidChild
  {
    match n.kind
    case Named =>
      if IsHash(n.value) then None else Some(Invalid)
    case Keyed(t) =>
      if IsEmpty(n.value) && n.schema.required then Some(Required(ItemName(t)))
      else if IsHash(n.value) then None
      else Some(Invalid)
    case Indexed(t) =>
      if IsEmpty(n.value) && n.schema.required then Some(Required(ItemName(t)))
      else if n.value.Arr? then None
      else Some(Invalid)
  }

  /** `validate(value)` of a container: its own checks, then `invalidChild`
      exactly when some child is not valid; on success the value comes back
      unchanged. */
  function Validate(n: Node): (r: Result<Value, Failure>)
    requires n.Composite?
    ensures r.Ok? ==> r.value == n.value
    ensures r.Ok? <==> OwnCheck(n).None? && forall k :: 0 <= k < |n.children| ==> Valid(n.children[k])
    ensures r == Err(InvalidChild) <==>
              OwnCheck(n).None? && exists k :: 0 <= k < |n.children| && !Valid(n.children[k])
    ensures OwnCheck(n).Some? ==> r == Err(OwnCheck(n).value)
    decreases n, 0
  {
    match OwnCheck(n)
    case Some(f) => Err(f)
    case None =>
      if forall k | 0 <= k < |n.children| :: Valid(n.children[k]) then Ok(n.value)
      else Err(InvalidChild)
  }

  /** ContainerField's `validate`: a value that is not a plain object fails
      `invalid`; otherwise the result is the children's verdict. */
  lemma ContainerValidateOrder(n: Node)
    requires n.Composite? && n.kind.Named?
    ensures !IsHash(n.value) ==> Validate(n) == Err(Invalid)
    ensures IsHash(n.value) ==>
              Validate(n) == if forall k :: 0 <= k < |n.children| ==> Valid(n.children[k])
                             then Ok(n.value) else Err(InvalidChild)
  {
  }

  /** HashField's `validate`: a required field with an empty value fails
      `required` whatever its children; otherwise a value that is not a plain
      object fails `invalid`; only then do the children decide. */
  lemma HashValidateOrder(n: Node)
    requires n.Composite? && n.kind.Keyed?
    ensures IsEmpty(n.value) && n.schema.required ==>
              Validate(n) == Err(Required(ItemName(n.kind.template)))
    ensures !(IsEmpty(n.value) && n.schema.required) && !IsHash(n.value) ==>
              Validate(n) == Err(Invalid)
    ensures !(IsEmpty(n.value) && n.schema.required) && IsHash(n.value) ==>
              Validate(n) == if forall k :: 0 <= k < |n.children| ==> Valid(n.children[k])
                             then Ok(n.value) else Err(InvalidChild)
  {
  }

  /** ListField's `validate`: a required field with an empty value fails
      `required` whatever its children; otherwise a value that is not an
      array fails `invalid`; only then do the children decide. */
  lemma ListValidateOrder(n: Node)
    requires n.Composite? && n.kind.Indexed?
    ensures IsEmpty(n.value) && n.schema.required ==>
              Validate(n) == Err(Required(ItemName(n.kind.template)))
    ensures !(IsEmpty(n.value) && n.schema.required) && !n.value.Arr? ==>
              Validate(n) == Err(Invalid)
    ensures !(IsEmpty(n.value) && n.schema.required) && n.value.Arr? ==>
              Validate(n) == if forall k :: 0 <= k < |n.children| ==> Valid(n.children[k])
                             then Ok(n.value) else Err(InvalidChild)
  {
  }

  /** Every field below a valid field is valid. */
  lemma {:induction false} ValidBelow(n: Node, addr: seq<nat>)
    requires Valid(n) && NodeAt(n, addr).Some?
    ensures Valid(NodeAt(n, addr).value)
  {
    if |addr| > 0 {
      ValidBelow(n.children[addr[0]], addr[1..]);
    }
  }

  /** An invalid field makes every field on the way up to the root invalid. */
  lemma InvalidAbove(n: Node, addr: seq<nat>)
    requires NodeAt(n, addr).Some? && !Valid(NodeAt(n, addr).value)
    ensures forall k :: 0 <= k <= |addr| ==>
              NodeAt(n, addr[..k]).Some? && !Valid(NodeAt(n, addr[..k]).value)
  {
    forall k | 0 <= k <= |addr|
      ensures NodeAt(n, addr[..k]).Some? && !Valid(NodeAt(n, addr[..k]).value)
    {
      assert addr[..k] + addr[k..] == addr;
      NodeAtConcat(n, addr[..k], addr[k..]);
      if Valid(NodeAt(n, addr[..k]).value) {
        ValidBelow(NodeAt(n, addr[..k]).value, addr[k..]);
      }
    }
  }

  /** The tree `n` with the field at `addr` replaced by `m`. */
  function Replace(n: Node, addr: seq<nat>, m: Node): (r: Node)
    requires NodeAt(n, addr).Some?
    ensures NodeAt(r, addr) == Some(m)
  {
    if |addr| == 0 then m
    else n.(children := n.children[addr[0] := Replace(n.children[addr[0]], addr[1..], m)])
  }

  /** Replacing the field at `addr` leaves every field outside the line from
      the root to `addr` (and below it) as it was, so its validity too. */
  lemma {:induction false} ReplaceElsewhere(n: Node, addr: seq<nat>, m: Node, other: seq<nat>)
    requires NodeAt(n, addr).Some? && NodeAt(n, other).Some?
    requires !(other <= addr) && !(addr <= other)
    ensures NodeAt(Replace(n, addr, m), other) == NodeAt(n, other)
  {
    if addr[0] == other[0] {
      ReplaceElsewhere(n.children[addr[0]], addr[1..], m, other[1..]);
    }
  }

  /** Making one field invalid makes exactly the fields on its way up to the
      root invalid; every field off that line keeps its validity. */
  lemma InvalidFieldSpreadsUp(n: Node, addr: seq<nat>, m: Node)
    requires NodeAt(n, addr).Some? && !Valid(m)
    ensures forall k :: 0 <= k <= |addr| ==>
              NodeAt(Replace(n, addr, m), addr[..k]).Some? &&
              !Valid(NodeAt(Replace(n, addr, m), addr[..k]).value)
    ensures forall other :: NodeAt(n, other).Some? && !(other <= addr) && !(addr <= other) ==>
              NodeAt(Replace(n, addr, m), other) == NodeAt(n, other)
  {
    InvalidAbove(Replace(n, addr, m), addr);
    forall other | NodeAt(n, other).Some? && !(other <= addr) && !(addr <= other)
      ensures NodeAt(Replace(n, addr, m), other) == NodeAt(n, other)
    {
      ReplaceElsewhere(n, addr, m, other);
    }
  }
}
