/** The JSON-like values a field holds, and the few predicates on them that
    the container fields use. */
module Values {
  import opened Wrappers
  import opened Sequences

  /** A value as a field sees it. `Absent` is JavaScript's `undefined`; an
      object lists its members in enumeration order. */
  datatype Value =
    | Absent
    | Null
    | Bool(b: bool)
    | Num(n: int)
    | Str(s: string)
    | Arr(items: seq<Value>)
    | Obj(members: seq<(string, Value)>)

  /** underscore's `isEmpty`: `undefined` and `null` are empty, a string,
      array or object is empty when it has no characters, elements or keys,
      and a number or boolean (which has no own keys) counts as empty too. */
  predicate IsEmpty(v: Value) {
    match v
    case Str(s) => |s| == 0
    case Arr(items) => |items| == 0
    case Obj(ms) => |ms| == 0
    case _ => true
  }

  /** A plain object: an object that is not an array. */
  predicate IsHash(v: Value) {
    v.Obj?
  }

  /** `isObject(v) && !isArray(v) ? v : {}`. */
  function AsHash(v: Value): (r: Value)
    ensures IsHash(r)
    ensures IsHash(v) ==> r == v
    ensures !IsHash(v) ==> r == Obj([])
  {
    if IsHash(v) then v else Obj([])
  }

  /** The member names of an object in order, repeats included. */
  function MemberNames(ms: seq<(string, Value)>): (r: seq<string>)
    ensures |r| == |ms|
    ensures forall i :: 0 <= i < |ms| ==> r[i] == ms[i].0
  {
    if |ms| == 0 then [] else [ms[0].0] + MemberNames(ms[1..])
  }

  /** `_.keys(v)`: the keys of an object, each once, in enumeration order;
      anything that is not an object has none. */
  function Keys(v: Value): (r: seq<string>)
    ensures forall k :: k in r <==> v.Obj? && k in MemberNames(v.members)
    ensures NoDup(r)
    ensures v.Obj? && NoDup(MemberNames(v.members)) ==> r == MemberNames(v.members)
  {
    if v.Obj? then
      var ns := MemberNames(v.members);
      DedupDistinct(ns);
      if NoDup(ns) then DedupOfDistinct(ns); Dedup(ns) else Dedup(ns)
    else []
  }

  /** The value of the first member named `k`, or `undefined`. */
  function Get(ms: seq<(string, Value)>, k: string): (r: Value)
    ensures k !in MemberNames(ms) ==> r == Absent
  {
    if |ms| == 0 then Absent
    else if ms[0].0 == k then ms[0].1
    else Get(ms[1..], k)
  }

  /** `v[k]` on a plain object, and `undefined` on anything else (which the
      containers have already replaced by `{}`). */
  function Member(v: Value, k: string): Value {
    if v.Obj? then Get(v.members, k) else Absent
  }

  /** `v[i]` when `v` is an array with more than `i` elements, `undefined`
      otherwise. */
  function Element(v: Value, i: nat): Value {
    if v.Arr? && i < |v.items| then v.items[i] else Absent
  }

  /** JavaScript turns an `undefined` property name into the string "undefined". */
  function KeyOf(name: Option<string>): string {
    match name
    case Some(s) => s
    case None => "undefined"
  }
}
