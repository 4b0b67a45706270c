/**
  `VMKeyVal.__repr__`: a key/value pair shown as its key's and its value's
  reprs, which come in as strings.
 */
module KeyValRepr {
  import TupleRepr

  /**
    `VMKeyVal.__repr__`: the key and the value can be read back from their
    positions, between `VMKeyVal(` and `, ` and between `, ` and `)`.
   */
  function Repr(key: string, value: string): (r: string)
    ensures |r| == 12 + |key| + |value|
    ensures r[9..9 + |key|] == key
    ensures r[11 + |key|..|r| - 1] == value
  {
    "VMKeyVal(" + key + TupleRepr.SEP + value + ")"
  }

  /** A key/value pair is shown like the body of a two-item tuple. */
  lemma ReprShape(key: string, value: string)
    ensures Repr(key, value) == "VMKeyVal(" + TupleRepr.Join([key, value], TupleRepr.SEP) + ")"
  {
    assert [key, value][1..] == [value];
  }

  /** Keys of equal length: the rendering determines both key and value. */
  lemma ReprInjective(k1: string, v1: string, k2: string, v2: string)
    requires |k1| == |k2|
    ensures Repr(k1, v1) == Repr(k2, v2) ==> k1 == k2 && v1 == v2
  {
    var r1, r2 := Repr(k1, v1), Repr(k2, v2);
    if r1 == r2 {
      assert k1 == r1[9..9 + |k1|];
      assert v1 == r1[11 + |k1|..|r1| - 1];
    }
  }

  /** The pair of an int key and a string value, composed from the item reprs. */
  lemma Example()
    ensures Repr("VMInt(10)", "VMString(\"hello\")") == "VMKeyVal(VMInt(10), VMString(\"hello\"))"
  {
  }

  /** A pair whose value is itself a pair: the inner rendering appears whole inside the outer one. */
  lemma Nested(key: string, innerKey: string, innerValue: string)
    ensures Repr(key, Repr(innerKey, innerValue))
      == "VMKeyVal(" + key + ", VMKeyVal(" + innerKey + ", " + innerValue + "))"
  {
  }

  /** A pair whose value is a two-item tuple: the tuple's rendering nests inside the pair's. */
  lemma TupleInKeyVal(key: string, first: string, second: string)
    ensures Repr(key, TupleRepr.Repr([first, second]))
      == "VMKeyVal(" + key + ", VMTuple((" + first + ", " + second + ")))"
  {
    assert [first, second][1..] == [second];
    assert TupleRepr.Join([first, second], TupleRepr.SEP) == first + TupleRepr.SEP + second;
    var t := TupleRepr.Repr([first, second]);
    assert t == "VMTuple((" + first + TupleRepr.SEP + second + "))";
    assert Repr(key, t) == "VMKeyVal(" + key + ", " + t + ")";
    Nest(key, t, first, second);
  }

  /** The text step of `TupleInKeyVal`: splicing the tuple's text into the pair's. */
  lemma Nest(key: string, t: string, first: string, second: string)
    requires t == "VMTuple((" + first + ", " + second + "))"
    ensures "VMKeyVal(" + key + ", " + t + ")" == "VMKeyVal(" + key + ", VMTuple((" + first + ", " + second + ")))"
  {
  }
}
