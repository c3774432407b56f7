# validoc container fields, modelled in Dafny

This project models the container-field engine of validoc
(`lib/validoc/ContainerFields.js`). A container field holds child fields,
which are leaf fields or further containers, so a form can describe
arbitrarily nested data. The engine has three container kinds:

- **ContainerField** has heterogeneous children, one per schema entry, found by name.
- **HashField** has one child per key of its value or initial value. Every child
  follows a single template schema.
- **ListField** has one child per element of its value, found by position.

The model is functional. A field tree is an immutable `Tree.Node`. The pure
function `Tree.Build` creates it from a schema, a value and an initial value.
Validity is worked out bottom-up (`Validation.Valid`, `Validation.Validate`).
Paths are resolved and reported by `Lookup.GetField` and `Lookup.PathOf`. The
path-taking accessors `getValue`, `getClean`, `toJSON` and `getErrors` are
`Accessors.Access` over `Accessors.Own`. Thrown errors become `Result` values.

Modules, one per file:

| file | module | models |
|---|---|---|
| wrappers.dfy | Wrappers | `Option` (JavaScript `undefined`) and `Result` (a throw) |
| sequences.dfy | Sequences | underscore's `uniq`/`union`, with their ordering |
| values.dfy | Values | JSON-like values, `isEmpty`, plain-object test and coercion, `keys`, member lookup |
| schemas.dfy | Schemas | field descriptors and the `required` item-name choice |
| paths.dfy | Paths | path segments, `split(".")`/`join(".")`, array-index strings |
| tree.dfy | Tree | the field tree and `_createChildFields` of the three kinds |
| validation.dfy | Validation | `isValid`/`validate` and bottom-up validity |
| lookup.dfy | Lookup | `_getField`, `getField`, `getPath` |
| accessors.dfy | Accessors | `getValue`, `getClean`, `toJSON`, `getErrors`, `_applyTochildField`, `_querychildFields` |
| scenarios.dfy | Scenarios | concrete trees worked end to end |

Leaf fields live outside this core. `Tree.Build` takes a `LeafFactory`
parameter that decides each leaf's validity, clean value, JSON form and
errors. Those are treated as given.

Three behaviours of the code are easy to misread, and the model follows the
code:

- `getErrors` on an invalid container returns only its children's `getErrors`
  results. It never returns the container's own `required`, `invalid` or
  `invalidChild` failure. So a required, empty ListField reports `[]`.
- HashField coerces a non-object initial value to `{}`.
- ListField coerces a non-array initial value to `{}`. Every child's initial
  value is then `undefined`, even when that object has a key `"0"`.

## Model

| member | source | states |
|---|---|---|
| `Sequences.DedupDistinct` | lib/validoc/ContainerFields.js:307 | the union's de-duplication leaves no key twice |
| `Sequences.UnionOrder` | lib/validoc/ContainerFields.js:307 | `_.union(a, b)` is `a` unchanged, followed by the elements of `b` missing from `a`, in `b`'s order and each once |
| `Sequences.UnionMembers` | lib/validoc/ContainerFields.js:307 | the union has no repeats and holds exactly the elements of both key lists |
| `Sequences.MinusMembers` | lib/validoc/ContainerFields.js:307 | the keys appended after `a` are exactly those of `b` that `a` lacks |
| `Values.Keys` | lib/validoc/ContainerFields.js:307 | `_.keys` lists exactly the member names of an object, each once, in member order when no name repeats, and nothing for a non-object |
| `Schemas.ItemName` | lib/validoc/ContainerFields.js:324 | the item name is never empty; a non-empty `name` wins, then `field` minus its last five characters when something is left, then "item" |
| `Paths.Split` | lib/validoc/ContainerFields.js:103-105 | `split(".")` yields at least one piece, no piece holds a dot, and joining the pieces with dots gives the string back |
| `Paths.SplitJoin` | lib/validoc/ContainerFields.js:103-105 | splitting dot-free pieces joined with dots gives the pieces back |
| `Paths.ParseShow` | lib/validoc/ContainerFields.js:391-395 | the string form of a position is read back as that position |
| `Paths.ShowParse` | lib/validoc/ContainerFields.js:391-395 | every array-index string is the string form of its index, so "01" and "1" never name the same child |
| `Tree.Build` | lib/validoc/ContainerFields.js:209-377 | for the three `_createChildFields` (lines 209-224, 301-319, 361-377): a simple schema gives a leaf holding its own state; a ContainerField has one child per entry with that entry's schema and the value and initial value under its name; a HashField has one child per distinct key of its value or initial value, each with the template renamed to the key; a ListField has one child per element of an array value, none otherwise, each with the template, its element and the initial value's element when there is one |
| `Tree.HashKeysOrder` | lib/validoc/ContainerFields.js:307 | the key union lists the value's keys first, then the initial value's keys the value lacks |
| `Tree.ContainerChildren` | lib/validoc/ContainerFields.js:209-224 | one child per schema entry in schema order; child `k` follows entry `k` and gets `value[name]` and `initialValue[name]`, both read from `{}` when not a plain object |
| `Tree.HashChildren` | lib/validoc/ContainerFields.js:301-319 | child names are the value's keys, then the initial value's keys not yet present; no name repeats; every name is a key of one or the other; each child follows the template renamed to its key, with the value and initial value at that key |
| `Tree.ListChildren` | lib/validoc/ContainerFields.js:361-377 | one child per element of an array value, none otherwise; child `i` gets element `i` and the initial value's element `i` only when the initial value is an array that long |
| `Validation.Valid` | lib/validoc/ContainerFields.js:63-77 | a leaf is valid as it reports; a container is valid exactly when its own checks pass and every child is valid |
| `Validation.OwnCheck` | lib/validoc/ContainerFields.js:379-389 | ListField's checks here, ContainerField's at lines 226-232 and HashField's at lines 321-329: a container's own checks pass exactly when its value has the right shape (a plain object, or an array for a ListField) and it is not a required, empty HashField or ListField; a `required` failure names the template's item; no own check reports `invalidChild` |
| `Validation.Validate` | lib/validoc/ContainerFields.js:63-77 | fails `invalidChild` exactly when the container's own checks pass and some child is invalid; succeeds exactly when they pass and every child is valid, returning the value unchanged |
| `Validation.ContainerValidateOrder` | lib/validoc/ContainerFields.js:226-232 | a ContainerField fails `invalid` on a value that is not a plain object, and otherwise defers to the children |
| `Validation.HashValidateOrder` | lib/validoc/ContainerFields.js:321-329 | a HashField checks `required` on an empty value first, then `invalid` for a non-object, then its children |
| `Validation.ListValidateOrder` | lib/validoc/ContainerFields.js:379-389 | a ListField checks `required` on an empty value first, then `invalid` for a non-array, then its children |
| `Validation.ValidBelow` | lib/validoc/ContainerFields.js:66-75 | every field below a valid field is valid |
| `Validation.InvalidAbove` | lib/validoc/ContainerFields.js:68-74 | an invalid field makes every container on its way up to the root invalid |
| `Validation.InvalidFieldSpreadsUp` | lib/validoc/ContainerFields.js:63-77 | making one field invalid makes exactly its ancestors invalid; fields off that line keep their validity |
| `Lookup.FindName` | lib/validoc/ContainerFields.js:234-243 | the child found by name is the first child with that name; none is found when no child has it |
| `Lookup.ChildIndex` | lib/validoc/ContainerFields.js:234-243 | a ListField finds a child by number exactly when the number is a position in range, and finds none for `undefined` or a string that is not an array index (ListField's lookup is at lines 391-395); ContainerField and HashField find the first child whose `name` is the segment (or the first unnamed child for `undefined`), and never find one by number |
| `Lookup.IndexStringLookup` | lib/validoc/ContainerFields.js:394 | in a ListField the string form of a position finds the same child as the number |
| `Lookup.Walk` | lib/validoc/ContainerFields.js:106-110 | an empty path gives the field itself; a leaf resolves no further segment; a segment that names no child makes the whole path `undefined` rather than an error |
| `Lookup.AsKeys` | lib/validoc/ContainerFields.js:104 | the pieces of a dotted path are looked up as names, one segment per piece |
| `Lookup.GetField` | lib/validoc/ContainerFields.js:100-110 | an absent or empty path returns the field itself; an array path is walked one segment at a time |
| `Lookup.DottedIsSegments` | lib/validoc/ContainerFields.js:103-105 | a non-empty dotted string resolves exactly as the array of its dot-free pieces, each read as a name |
| `Lookup.WalkConcat` | lib/validoc/ContainerFields.js:106-110 | resolving `p + q` is resolving `q` from the field `p` resolves to, and fails when `p` does not resolve |
| `Lookup.WalkReaches` | lib/validoc/ContainerFields.js:93-111 | whatever a path resolves to is a field of the tree, one level down per segment |
| `Lookup.SegFor` | lib/validoc/ContainerFields.js:397-408 | a ListField reports a child's position as a number, and ContainerField and HashField report its `name`, or `undefined` when it has none (line 259); the segment finds that very position in a ListField and the first child of its name otherwise |
| `Lookup.PathOf` | lib/validoc/ContainerFields.js:255-266 | a path has one segment per level descended; the root contributes none |
| `Lookup.PathOfChild` | lib/validoc/ContainerFields.js:262 | a field's path is its parent's path followed by the segment the parent reports for it |
| `Lookup.PathRoundTrip` | lib/validoc/ContainerFields.js:255-266 | `getField(getPath(f))` is `f` when each child on the way is the first of its name |
| `Lookup.DistinctFirstAlong` | lib/validoc/ContainerFields.js:239-240 | with distinct sibling names every child is the first of its name |
| `Lookup.BuildSiblingsDistinct` | lib/validoc/ContainerFields.js:307-312 | a tree built from a schema whose ContainerField entries have distinct names has distinct sibling names everywhere, since HashField keys never repeat |
| `Lookup.BuiltPathRoundTrip` | lib/validoc/ContainerFields.js:93-111 | in such a tree `getField(getPath(f))` is `f` for every field `f` |
| `Lookup.TextPathRoundTrip` | lib/validoc/ContainerFields.js:391-395 | a reported path still finds its field when every segment is given as a string |
| `Lookup.DottedPathRoundTrip` | lib/validoc/ContainerFields.js:103-105 | a reported path joined with dots resolves to its field when no name on the way is missing or holds a dot |
| `Accessors.AssignNames` | lib/validoc/ContainerFields.js:250 | `out[k] = v` overwrites the member named `k` in place, or appends it; afterwards `k` holds `v` and every other name keeps its value |
| `Accessors.GatherLast` | lib/validoc/ContainerFields.js:248-252 | under a name assigned more than once, the object holds the result assigned last |
| `Accessors.GatherKeys` | lib/validoc/ContainerFields.js:245-253 | the combined object has each child name once, at its first occurrence |
| `Accessors.GatherDistinct` | lib/validoc/ContainerFields.js:248-252 | with distinct names, member `k` is child `k`'s name with child `k`'s result |
| `Accessors.Combine` | lib/validoc/ContainerFields.js:245-253 | a ListField's results stay an array in child order (the base `_querychildFields`, lines 79-87); ContainerField and HashField results become an object keyed by the distinct child names, and with distinct names member `k` is child `k`'s name with child `k`'s result |
| `Accessors.JSON` | lib/validoc/ContainerFields.js:130-137 | `toJSON()` succeeds exactly when the field is valid, and otherwise throws the invalid-field error |
| `Accessors.ChildrenJSON` | lib/validoc/ContainerFields.js:84-86 | the children's JSON forms all exist exactly when every child is valid; entry `j` is child `j`'s JSON |
| `Accessors.Errors` | lib/validoc/ContainerFields.js:145-150 | a container without errors reports `[]` |
| `Accessors.ChildrenErrors` | lib/validoc/ContainerFields.js:147 | one error report per child, in child order |
| `Accessors.Clean` | lib/validoc/ContainerFields.js:121-128 | `getClean()` succeeds exactly when the field is valid; a container's clean value is what its `validate` returns (line 76), its value unchanged |
| `Accessors.Own` | lib/validoc/ContainerFields.js:113-151 | without a path, `getValue()` returns the raw value; `getClean()` and `toJSON()` succeed exactly when the field is valid and are the only ones that throw; a container's clean value is its value; `getClean()`, `toJSON()` and `getErrors()` answer as `Accessors.Clean`, `Accessors.JSON` and `Accessors.Errors` |
| `Accessors.Access` | lib/validoc/ContainerFields.js:168-176 | with a non-empty path the accessor throws "Field does not exist" exactly when the path does not resolve, and otherwise asks the resolved field |
| `Accessors.AccessAlong` | lib/validoc/ContainerFields.js:171-175 | asking along `p + q` is asking the field at `p` along `q` |
| `Accessors.ListChildValue` | lib/validoc/ContainerFields.js:361-377 | `getValue([k])` on a ListField is element `k` of its array value, and throws "Field does not exist" for a position outside the array or when the value is not an array |
| `Accessors.AccessOneSegment` | lib/validoc/ContainerFields.js:168-176 | with a one-segment path the accessor asks the child that segment finds, and throws "Field does not exist" when it finds none |
| `Accessors.HashFind` | lib/validoc/ContainerFields.js:301-319 | a HashField finds a child by a key exactly when the key is in its value or initial value, and that child holds `value[key]` |
| `Accessors.HashChildValue` | lib/validoc/ContainerFields.js:301-319 | `getValue([key])` on a HashField is `value[key]` for every key of the value or initial value, `undefined` for a key only the initial value has, and throws "Field does not exist" for any other key |
| `Accessors.ListJSONShape` | lib/validoc/ContainerFields.js:84-86 | a valid ListField's JSON is an array with one entry per child, in child order |
| `Accessors.CombineLastWins` | lib/validoc/ContainerFields.js:245-253 | when children share a name, the combined object holds the result of the last of them under that name |
| `Accessors.KeyedJSONLastWins` | lib/validoc/ContainerFields.js:245-253 | in a valid ContainerField's or HashField's JSON, a name shared by several children holds the last one's JSON |
| `Accessors.KeyedJSONShape` | lib/validoc/ContainerFields.js:245-253 | a valid ContainerField's or HashField's JSON is an object keyed by the distinct child names; with distinct names, member `k` is child `k`'s name and JSON |
| `Accessors.ListErrorsShape` | lib/validoc/ContainerFields.js:146-147 | an invalid ListField reports an array of its children's errors in child order |
| `Accessors.KeyedErrorsShape` | lib/validoc/ContainerFields.js:139-151 | an invalid ContainerField or HashField with distinct names reports each child's errors under its name |
| `Accessors.EmptyListReportsNoErrors` | lib/validoc/ContainerFields.js:146-150 | a ListField without children reports `[]`, even when invalid |
| `Scenarios.PairJSON` | lib/validoc/ContainerFields.js:245-253 | `[{name: "a"}, {name: "b"}]` with `{a: 1, b: 2}` and valid leaves serialises to `{a: json(1), b: json(2)}` |
| `Scenarios.PairChildren` | lib/validoc/ContainerFields.js:209-224 | `[{name: "a"}, {name: "b"}]` with `{a: 1, b: 2}` has two leaf children holding 1 and 2 |
| `Scenarios.TwoChildJSON` | lib/validoc/ContainerFields.js:245-253 | a ContainerField with two valid children of different names serialises to an object of their two JSON forms |
| `Scenarios.RequiredEmptyList` | lib/validoc/ContainerFields.js:379-383 | a required, empty ListField fails `required` naming "Char", cannot be serialised, and reports `[]` as its errors |
| `Scenarios.TwoValidItems` | lib/validoc/ContainerFields.js:139-151 | `[1, 2]` with valid leaves is valid and reports no errors |
| `Scenarios.ListIgnoresObjectInitial` | lib/validoc/ContainerFields.js:366 | an object initial value gives a ListField's children no initial values |
| `Scenarios.TwoKeys` | lib/validoc/ContainerFields.js:307 | the keys of a two-member object are its two names in order |
| `Scenarios.ThreeKeys` | lib/validoc/ContainerFields.js:307 | objects keyed `[x, y]` and `[y, z]` give the child names `[x, y, z]` |
| `Scenarios.HashKeyOrder` | lib/validoc/ContainerFields.js:301-319 | value `{b, a}` and initial value `{a, c}` give children "b", "a", "c", and "c" gets only an initial value |
| `Scenarios.ListSegments` | lib/validoc/ContainerFields.js:391-395 | in a ListField `"1"` and `1` find the same child and `"01"` finds none |

## Left out

- `Schemas.ItemName`: JavaScript's `field.slice(0, -5)` (line 324) counts
  UTF-16 code units, while the model's strings are sequences of Unicode
  characters. A `field` with a character outside the Basic Multilingual Plane
  (such as an emoji) among its last five code units can get a different item
  name: for `"abcd😀"` JavaScript gives `"a"` and the model gives `"item"`.
- Leaf fields (`Fields.js`, which is not part of this model). This covers the
  `Field` base class, `fields.genField`, `isValid` caching, the computation of
  `_errors` and `_clean`, and `_throwErrorIfInvalid`. A leaf's validity, clean
  value, JSON form and errors come from the `LeafFactory` parameter. A leaf
  throws on `getClean`/`toJSON` exactly when it is invalid, like a container.
- The `Field` base class's own handling of a value before `validate` is out of
  scope, along with the `default` values (`{}`, `[]`). The model validates the
  value the field was given. `_errors` is taken to be non-empty exactly when
  the field is invalid. A container's `_clean` is taken to be what its
  `validate` returns for its value (line 76), which is the value itself.
- A leaf field's `getField` is in `Fields.js`. The model takes a leaf to resolve
  the empty path to itself and nothing else.
- Parent links and object identity. `getPath` is modelled over child
  positions (`PathOf`) instead of references. So `indexOf` returning -1 for a
  foreign child is not modelled, and two equal sibling values cannot be told
  apart.
- `_addField` (lines 157-166): nothing in `ContainerFields.js` calls it.
- The abstract `_createChildFields` that throws "not implemented" (lines
  153-155): the set of container kinds is closed here, so it cannot be reached.
- Message text, `utils._i`, `ValidationError` and `JSON.stringify` in messages.
  Only the failure kind and the `required` item name are kept.
- Widgets (lines 201, 293, 353), the module loader (lines 8-16) and the
  `extend` helper (line 4).
- JavaScript property-lookup quirks. These include array properties such as
  `"length"` reached through a string segment, inherited properties such as
  `{}["constructor"]`, and the enumeration order that puts integer-like keys
  first. An object's member list is taken to be in enumeration order. A
  repeated member name is read at its first occurrence.
- Non-string `name` or `field` values in a schema. Names are strings or absent,
  and `field` is a string or absent.
- `Lookup.ChildIndex`: its contract leaves the ListField lookup by an index
  string to `Lookup.IndexStringLookup`, which states it for every index string.
- `getField` consumes the caller's array: `path.shift()` (line 106) removes
  segments from the array it was given, so after `f.getField(p)` the array
  `p` is shorter, and a later `f.getValue(p)` can answer for `f` itself. The
  model treats paths as immutable values.
- JavaScript numbers are doubles, while the model's numbers (`Values.Num`)
  and index segments (`Paths.Index`) are integers. A fractional index such as
  `getFields()[1.5]`, which is `undefined`, cannot be written.
- A bare number as a path cannot be written as a `PathArg`. `getValue(3)`
  answers for the container itself because `(3).length` is `undefined`
  (line 114), and `getField(3)` throws a `TypeError` at `path.shift` (line
  106).
- `Accessors.Errors`: its contract states only the valid case. The invalid case
  is stated by `Accessors.ListErrorsShape` and `Accessors.KeyedErrorsShape`.
