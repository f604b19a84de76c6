/** flattenArray: a depth-first flatten of a nested list into a caller's integer list. */
module ArrayUtil {

  /** An element of the input list: an Integer, a nested List, or any other object. */
  datatype Element = Int(value: int) | Nested(items: seq<Element>) | Other

  /** The integer leaves of `s`, depth first and left to right: one value for each
      Integer leaf. */
  function Flatten(s: seq<Element>): (r: seq<int>)
    ensures |r| == CountInts(s)
    decreases s
  {
    if s == [] then []
    else
      match s[0]
      case Int(v) => [v] + Flatten(s[1..])
      case Nested(items) => Flatten(items) + Flatten(s[1..])
      case Other => Flatten(s[1..])
  }

  /** The number of Integer leaves anywhere in `s`. */
  function CountInts(s: seq<Element>): nat
    decreases s
  {
    if s == [] then 0
    else
      match s[0]
      case Int(_) => 1 + CountInts(s[1..])
      case Nested(items) => CountInts(items) + CountInts(s[1..])
      case Other => CountInts(s[1..])
  }

  /** The flat list of Integers holding `xs`. */
  function Ints(xs: seq<int>): (s: seq<Element>)
    ensures |s| == |xs| && forall i :: 0 <= i < |xs| ==> s[i] == Int(xs[i])
  {
    if xs == [] then [] else [Int(xs[0])] + Ints(xs[1..])
  }

  /** Flattening distributes over concatenation. */
  lemma {:induction false} FlattenAppend(a: seq<Element>, b: seq<Element>)
    ensures Flatten(a + b) == Flatten(a) + Flatten(b)
    decreases a
  {
    if a != [] {
      assert (a + b)[0] == a[0];
      assert (a + b)[1..] == a[1..] + b;
      FlattenAppend(a[1..], b);
    } else {
      assert a + b == b;
    }
  }

  /** Flattening one more element appends that element's leaves. */
  lemma FlattenSnoc(s: seq<Element>, e: Element)
    ensures Flatten(s + [e]) == Flatten(s) + Flatten([e])
  {
    FlattenAppend(s, [e]);
  }

  /** A list that is already flat flattens to its own values. */
  lemma {:induction false} FlattenFlat(xs: seq<int>)
    ensures Flatten(Ints(xs)) == xs
  {
    if xs != [] {
      assert Ints(xs)[1..] == Ints(xs[1..]);
      FlattenFlat(xs[1..]);
    }
  }

  /** Wrapping a list in another list changes nothing. */
  lemma NestingIsTransparent(s: seq<Element>)
    ensures Flatten([Nested(s)]) == Flatten(s)
  {
    assert [Nested(s)][1..] == [];
  }

  /** Elements that are neither Integer nor List are ignored wherever they stand. */
  lemma OtherIgnored(a: seq<Element>, b: seq<Element>)
    ensures Flatten(a + [Other] + b) == Flatten(a + b)
  {
    FlattenAppend(a + [Other], b);
    FlattenAppend(a, [Other]);
    FlattenAppend(a, b);
  }

  /** [[1,2,[3]],4] flattens to [1,2,3,4]. */
  lemma NestedExample()
    ensures Flatten([Nested([Int(1), Int(2), Nested([Int(3)])]), Int(4)]) == [1, 2, 3, 4]
  {
    var inner := [Int(1), Int(2), Nested([Int(3)])];
    FlattenAppend([Int(1), Int(2)], [Nested([Int(3)])]);
    FlattenFlat([1, 2]);
    NestingIsTransparent([Int(3)]);
    FlattenFlat([3]);
    assert [Int(1), Int(2)] + [Nested([Int(3)])] == inner;
    assert Flatten(inner) == [1, 2, 3];
    FlattenAppend([Nested(inner)], [Int(4)]);
    NestingIsTransparent(inner);
    FlattenFlat([4]);
    assert [Nested(inner)] + [Int(4)] == [Nested(inner), Int(4)];
  }

  /** [[1,2,[3]],4,"Not an Integer!"] flattens to [1,2,3,4] as well. */
  lemma NonIntegerExample()
    ensures Flatten([Nested([Int(1), Int(2), Nested([Int(3)])]), Int(4), Other]) == [1, 2, 3, 4]
  {
    var s := [Nested([Int(1), Int(2), Nested([Int(3)])]), Int(4)];
    NestedExample();
    OtherIgnored(s, []);
    assert s + [Other] + [] == s + [Other];
    assert s + [] == s;
  }

  /** The empty list flattens to nothing, so flattenArray leaves the result as it was. */
  lemma EmptyExample()
    ensures Flatten([]) == []
  {
  }

  /** The caller's result list, which flattenArray appends to. */
  class IntList {
    var elements: seq<int>

    constructor ()
      ensures elements == []
    {
      elements := [];
    }

    /** add(x): appends at the end. */
    method Add(x: int)
      modifies this
      ensures elements == old(elements) + [x]
    {
      elements := elements + [x];
    }
  }

  /** flattenArray(original, result): walks `original`, recursing into nested lists and
      adding each Integer to `result`; what was in `result` stays in front, untouched. */
  method FlattenArray(original: seq<Element>, result: IntList)
    modifies result
    ensures result.elements == old(result.elements) + Flatten(original)
    decreases original
  {
    var i := 0;
    while i < |original|
      invariant 0 <= i <= |original|
      invariant result.elements == old(result.elements) + Flatten(original[..i])
    {
      var element := original[i];
      match element {
        case Nested(items) =>
          FlattenArray(items, result);
        case Int(v) =>
          result.Add(v);
        case Other =>
      }
      assert original[..i + 1] == original[..i] + [element];
      FlattenSnoc(original[..i], element);
      i := i + 1;
    }
    assert original[..i] == original;
  }
}
