/** Paths through a field tree: segments, dot-delimited strings, and the
    array-index strings a ListField accepts. */
module Paths {
  import opened Wrappers
  import opened Sequences

  /** One path segment: a name (a string), a position (a number), or the
      `undefined` that `getPath` reports for a child without a name. */
  datatype Seg = Key(key: string) | Index(index: int) | Undefined

  /** The `path` argument of `getField` and the accessors: absent, a
      dot-delimited string, or an array of segments. */
  datatype PathArg = NoPath | Dotted(text: string) | Segments(segs: seq<Seg>)

  /** JavaScript treats the path as given when it has a non-zero `length`. */
  predicate HasSegments(p: PathArg) {
    match p
    case NoPath => false
    case Dotted(t) => |t| > 0
    case Segments(ss) => |ss| > 0
  }

  /** `pieces.join(".")`. */
  function Join(pieces: seq<string>): string
    requires |pieces| >= 1
  {
    if |pieces| == 1 then pieces[0] else pieces[0] + "." + Join(pieces[1..])
  }

  /** `s.split(".")`: the pieces between dots, so joining them gives `s` back. */
  function Split(s: string): (r: seq<string>)
    ensures |r| >= 1
    ensures forall k :: 0 <= k < |r| ==> '.' !in r[k]
    ensures Join(r) == s
  {
    if |s| == 0 then [""]
    else
      var rest := Split(s[1..]);
      if s[0] == '.' then
        assert [""] + rest == [""] + rest[..1] + rest[1..];
        [""] + rest
      else
        var r := [[s[0]] + rest[0]] + rest[1..];
        assert r[1..] == rest[1..];
        r
  }

  /** A string without dots splits into itself. */
  lemma {:induction false} SplitPlain(x: string)
    requires '.' !in x
    ensures Split(x) == [x]
    decreases |x|
  {
    if |x| > 0 {
      SplitPlain(x[1..]);
      assert [x[0]] + x[1..] == x;
    }
  }

  /** `Split` on a string with a known first character. */
  lemma SplitCons(c: char, rest: string)
    ensures Split([c] + rest) ==
      if c == '.' then [""] + Split(rest)
      else [[c] + Split(rest)[0]] + Split(rest)[1..]
  {
    assert ([c] + rest)[0] == c;
    assert ([c] + rest)[1..] == rest;
  }

  /** A character other than a dot joins the first piece of the rest. */
  lemma SplitLetter(c: char, rest: string, head: string, more: seq<string>)
    requires c != '.' && Split(rest) == [head] + more
    ensures Split([c] + rest) == [[c] + head] + more
  {
    SplitCons(c, rest);
    assert Split(rest)[0] == head && Split(rest)[1..] == more;
  }

  /** A dot-free piece in front of a dot splits off as the first piece. */
  lemma {:induction false} SplitFront(x: string, t: string)
    requires '.' !in x
    ensures Split(x + "." + t) == [x] + Split(t)
    decreases |x|
  {
    var d := "." + t;
    Assoc(x, ".", t);
    if |x| > 0 {
      SplitFront(x[1..], t);
      Assoc(x[1..], ".", t);
      SplitFrontStep(x, d, Split(t));
    } else {
      assert x + d == ['.'] + t;
      SplitCons('.', t);
    }
  }

  /** The inductive step of `SplitFront`: one more letter in front of a
      piece that splits off. */
  lemma SplitFrontStep(x: string, d: string, more: seq<string>)
    requires |x| > 0 && x[0] != '.'
    requires Split(x[1..] + d) == [x[1..]] + more
    ensures Split(x + d) == [x] + more
  {
    ConsConcat(x, d);
    SplitLetter(x[0], x[1..] + d, x[1..], more);
  }

  /** Splitting undoes joining when no piece holds a dot. */
  lemma {:induction false} SplitJoin(pieces: seq<string>)
    requires |pieces| >= 1
    requires forall k :: 0 <= k < |pieces| ==> '.' !in pieces[k]
    ensures Split(Join(pieces)) == pieces
  {
    SplitPlain(pieces[0]);
    if |pieces| > 1 {
      SplitJoin(pieces[1..]);
      SplitFront(pieces[0], Join(pieces[1..]));
      assert [pieces[0]] + pieces[1..] == pieces;
    }
  }

  predicate IsDigit(c: char) {
    '0' <= c <= '9'
  }

  predicate AllDigits(s: string) {
    forall k :: 0 <= k < |s| ==> IsDigit(s[k])
  }

  /** A canonical array-index string: digits without a leading zero
      ("0", "12"; not "", "01" or "-1"). */
  predicate IsIndexString(s: string) {
    |s| >= 1 && AllDigits(s) && (s[0] != '0' || |s| == 1)
  }

  function DigitChar(d: nat): (c: char)
    requires d < 10
    ensures IsDigit(c)
    ensures c as int - '0' as int == d
  {
    "0123456789"[d]
  }

  /** The number a string of decimal digits denotes. */
  function DigitsValue(s: string): nat
    requires AllDigits(s)
  {
    if |s| == 0 then 0
    else DigitsValue(s[..|s| - 1]) * 10 + (s[|s| - 1] as int - '0' as int)
  }

  /** `String(i)` for a non-negative integer. */
  function ShowIndex(i: nat): (r: string)
    ensures IsIndexString(r)
  {
    if i < 10 then [DigitChar(i)]
    else
      var r := ShowIndex(i / 10) + [DigitChar(i % 10)];
      assert r[0] == ShowIndex(i / 10)[0];
      r
  }

  /** The array index a string segment denotes, if it is one. */
  function ParseIndex(s: string): Option<nat> {
    if IsIndexString(s) then Some(DigitsValue(s)) else None
  }

  /** Reading back a shown index gives the index. */
  lemma {:induction false} ParseShow(i: nat)
    ensures ParseIndex(ShowIndex(i)) == Some(i)
  {
    if i >= 10 {
      ParseShow(i / 10);
      var s := ShowIndex(i);
      assert s[..|s| - 1] == ShowIndex(i / 10);
      assert s[|s| - 1] == DigitChar(i % 10);
      assert DigitsValue(s) == (i / 10) * 10 + i % 10;
    }
  }

  /** A multi-digit string without a leading zero denotes at least 10. */
  lemma {:induction false} LeadingDigitValue(s: string)
    requires AllDigits(s) && |s| >= 1 && s[0] != '0'
    ensures DigitsValue(s) >= 1
    ensures |s| >= 2 ==> DigitsValue(s) >= 10
  {
    if |s| >= 2 {
      LeadingDigitValue(s[..|s| - 1]);
    }
  }

  /** Dividing `q * 10 + d` by ten. */
  lemma DivTen(q: nat, d: nat)
    requires d < 10
    ensures (q * 10 + d) / 10 == q && (q * 10 + d) % 10 == d
  {
  }

  /** The value of a digit string with one more digit at the end. */
  lemma DigitsValueSnoc(init: string, c: char)
    requires AllDigits(init) && IsDigit(c)
    ensures AllDigits(init + [c])
    ensures DigitsValue(init + [c]) == DigitsValue(init) * 10 + (c as int - '0' as int)
  {
    assert (init + [c])[..|init|] == init;
  }

  /** A number of two digits or more is shown as its tens followed by its
      last digit. */
  lemma ShowIndexStep(v: nat)
    requires v >= 10
    ensures ShowIndex(v) == ShowIndex(v / 10) + [DigitChar(v % 10)]
  {
  }

  /** The digit character of a digit's value is that digit. */
  lemma DigitCharOf(c: char)
    requires IsDigit(c)
    ensures DigitChar(c as int - '0' as int) == c
  {
  }

  /** An index string is the way its index is shown: no two index strings
      denote the same index. */
  lemma {:induction false} ShowParse(s: string)
    requires IsIndexString(s)
    ensures ShowIndex(DigitsValue(s)) == s
  {
    if |s| >= 2 {
      var init, c := s[..|s| - 1], s[|s| - 1];
      assert init + [c] == s;
      var q, d := DigitsValue(init), c as int - '0' as int;
      LeadingDigitValue(s);
      LeadingDigitValue(init);
      ShowParse(init);
      DigitsValueSnoc(init, c);
      DivTen(q, d);
      ShowIndexStep(q * 10 + d);
      DigitCharOf(c);
    } else {
      DigitsValueSnoc([], s[0]);
      assert [] + [s[0]] == s;
      DigitCharOf(s[0]);
    }
  }
}
