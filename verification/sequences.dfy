/** Order-preserving helpers over sequences, used for object keys. */
module Sequences {

  /** No element occurs twice. */
  predicate NoDup<T(==,!new)>(s: seq<T>) {
    forall i, j | 0 <= i < j < |s| :: s[i] != s[j]
  }

  /** Drops every repeat, keeping each element at its first occurrence
      (underscore's `uniq`). */
  function Dedup<T(==,!new)>(s: seq<T>): (r: seq<T>)
    ensures forall x :: x in r <==> x in s
  {
    if |s| == 0 then []
    else
      var r := Dedup(s[..|s| - 1]);
      assert s == s[..|s| - 1] + [s[|s| - 1]];
      if s[|s| - 1] in r then r else r + [s[|s| - 1]]
  }

  /** Deduplication leaves no repeats. */
  lemma {:induction false} DedupDistinct<T(!new)>(s: seq<T>)
    ensures NoDup(Dedup(s))
  {
    if |s| > 0 {
      DedupDistinct(s[..|s| - 1]);
    }
  }

  /** The elements of `b` that do not occur in `a`, in the order of `b`. */
  function Minus<T(==,!new)>(b: seq<T>, a: seq<T>): seq<T>
  {
    if |b| == 0 then []
    else
      assert b == b[..|b| - 1] + [b[|b| - 1]];
      Minus(b[..|b| - 1], a) + (if b[|b| - 1] in a then [] else [b[|b| - 1]])
  }

  /** underscore's `union`: the distinct elements of `a` and then of `b`,
      each at its first appearance. */
  function Union<T(==,!new)>(a: seq<T>, b: seq<T>): seq<T>
  {
    Dedup(a + b)
  }

  /** `Minus(b, a)` holds exactly the elements of `b` missing from `a`. */
  lemma {:induction false} MinusMembers<T(!new)>(b: seq<T>, a: seq<T>)
    ensures forall x :: x in Minus(b, a) <==> x in b && x !in a
  {
    if |b| > 0 {
      MinusMembers(b[..|b| - 1], a);
    }
  }

  /** The union has no repeats and holds exactly the elements of both. */
  lemma UnionMembers<T(!new)>(a: seq<T>, b: seq<T>)
    ensures NoDup(Union(a, b))
    ensures forall x :: x in Union(a, b) <==> x in a || x in b
  {
    DedupDistinct(a + b);
  }

  /** A sequence without repeats is its own deduplication. */
  lemma {:induction false} DedupOfDistinct<T(!new)>(s: seq<T>)
    requires NoDup(s)
    ensures Dedup(s) == s
  {
    if |s| > 0 {
      var init := s[..|s| - 1];
      assert NoDup(init);
      DedupOfDistinct(init);
      assert s[|s| - 1] !in init;
      assert init + [s[|s| - 1]] == s;
    }
  }

  /** Deduplicating a sequence with one element appended. */
  lemma DedupSnoc<T(!new)>(s: seq<T>, x: T)
    ensures Dedup(s + [x]) == if x in Dedup(s) then Dedup(s) else Dedup(s) + [x]
  {
    assert (s + [x])[..|s + [x]| - 1] == s;
  }

  /** The union keeps every element of `a` in place, then appends the
      elements of `b` missing from `a`, in their order in `b`, each once. */
  lemma {:induction false} UnionOrder<T(!new)>(a: seq<T>, b: seq<T>)
    requires NoDup(a)
    ensures Union(a, b) == a + Dedup(Minus(b, a))
  {
    if |b| == 0 {
      assert a + b == a;
      DedupOfDistinct(a);
    } else {
      UnionOrder(a, b[..|b| - 1]);
      UnionLast(a, b);
    }
  }

  /** The inductive step of `UnionOrder`, from `b` without its last element
      to `b`. */
  lemma UnionLast<T(!new)>(a: seq<T>, b: seq<T>)
    requires |b| > 0
    requires Dedup(a + b[..|b| - 1]) == a + Dedup(Minus(b[..|b| - 1], a))
    ensures Dedup(a + b) == a + Dedup(Minus(b, a))
  {
    var init, x := b[..|b| - 1], b[|b| - 1];
    assert b == init + [x];
    assert a + b == (a + init) + [x];
    UnionStep(a, init, x);
  }

  /** One step of `UnionOrder`: appending `x` to `b`. */
  lemma UnionStep<T(!new)>(a: seq<T>, init: seq<T>, x: T)
    requires Dedup(a + init) == a + Dedup(Minus(init, a))
    ensures Dedup((a + init) + [x]) == a + Dedup(Minus(init + [x], a))
  {
    MinusSnoc(init, a, x);
    if x in a {
      DedupSnoc(a + init, x);
      assert x in a + init;
      assert x in Dedup(a + init);
      assert Minus(init + [x], a) == Minus(init, a);
    } else {
      UnionStepFresh(a, init, x);
    }
  }

  /** `UnionStep` for an element that `a` lacks. */
  lemma UnionStepFresh<T(!new)>(a: seq<T>, init: seq<T>, x: T)
    requires x !in a
    requires Dedup(a + init) == a + Dedup(Minus(init, a))
    ensures Dedup((a + init) + [x]) == a + Dedup(Minus(init, a) + [x])
  {
    var d, m := Dedup(Minus(init, a)), Minus(init, a);
    DedupSnoc(a + init, x);
    DedupSnoc(m, x);
    assert x in a + d <==> x in d;
    if x in d {
      assert Dedup(m + [x]) == d;
    } else {
      assert Dedup(m + [x]) == d + [x];
      assert (a + d) + [x] == a + (d + [x]);
    }
  }

  /** `Minus` on a sequence with one element appended. */
  lemma MinusSnoc<T(!new)>(b: seq<T>, a: seq<T>, x: T)
    ensures Minus(b + [x], a) == Minus(b, a) + (if x in a then [] else [x])
  {
    assert (b + [x])[..|b + [x]| - 1] == b;
  }

  /** Concatenation is associative. */
  lemma Assoc<T>(a: seq<T>, b: seq<T>, c: seq<T>)
    ensures a + b + c == a + (b + c)
  {
  }

  /** Peeling the first element off a concatenation. */
  lemma ConsConcat<T>(x: seq<T>, d: seq<T>)
    requires |x| > 0
    ensures x + d == [x[0]] + (x[1..] + d)
    ensures [x[0]] + x[1..] == x
  {
  }
}
