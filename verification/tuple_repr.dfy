/**
  `VMTuple.__repr__` and `VMTuple.__str__`.

  The items' own renderings come in as strings (each is whatever Python's
  `repr()` or `str()` made of the converted item).  A tuple joins them with
  `", "`; a tuple of exactly one item gets a trailing comma, as Python
  writes `(x,)`.
 */
module TupleRepr {

  const SEP: string := ", "

  /** The total length of the items. */
  function TotalLength(items: seq<string>): (n: nat)
  {
    if |items| == 0 then 0 else |items[0]| + TotalLength(items[1..])
  }

  /**
    `[String]::join(sep)`: the items with `sep` between neighbours, so as
    long as the items plus one separator between each pair of neighbours.
   */
  function Join(items: seq<string>, sep: string): (r: string)
    ensures |items| == 0 ==> r == ""
    ensures |items| >= 1 ==> |r| == TotalLength(items) + |sep| * (|items| - 1)
  {
    if |items| == 0 then ""
    else if |items| == 1 then items[0]
    else items[0] + sep + Join(items[1..], sep)
  }

  /** Appending an item to a non-empty list appends the separator and the item. */
  lemma {:induction false} JoinSnoc(items: seq<string>, x: string, sep: string)
    requires |items| >= 1
    ensures Join(items + [x], sep) == Join(items, sep) + sep + x
    decreases |items|
  {
    if |items| == 1 {
      assert items + [x] == [items[0], x];
    } else {
      assert (items + [x])[1..] == items[1..] + [x];
      JoinSnoc(items[1..], x, sep);
    }
  }

  /**
    `VMTuple.__str__`: its length is two parentheses, the items, a separator
    between neighbours, and the trailing comma exactly when there is one item.
   */
  function Str(items: seq<string>): (r: string)
    ensures |r| ==
      2 + TotalLength(items) + (if |items| >= 1 then 2 * (|items| - 1) else 0) + (if |items| == 1 then 1 else 0)
  {
    if |items| == 1 then "(" + Join(items, SEP) + ",)" else "(" + Join(items, SEP) + ")"
  }

  /**
    `VMTuple.__repr__`: the `__str__` rule applied to the items' reprs,
    wrapped in `VMTuple(...)`.
   */
  function Repr(items: seq<string>): (r: string)
    ensures r == "VMTuple(" + Str(items) + ")"
  {
    if |items| == 1 then "VMTuple((" + Join(items, SEP) + ",))" else "VMTuple((" + Join(items, SEP) + "))"
  }

  /**
    The shape of `__str__`: one item is written `(s,)`; zero items are `()`;
    two or more are the first item, then `", "` and the rest joined.
   */
  lemma StrShape(items: seq<string>)
    ensures |items| == 0 ==> Str(items) == "()"
    ensures |items| == 1 ==> Str(items) == "(" + items[0] + ",)"
    ensures |items| >= 2 ==> Str(items) == "(" + items[0] + SEP + Join(items[1..], SEP) + ")"
  {
  }

  /**
    The trailing comma tells a one-item tuple from the bare parenthesised
    item, and from the tuple of no items.
   */
  lemma SingletonIsMarked(s: string)
    ensures Str([s]) != "(" + s + ")"
    ensures Str([s]) != Str([])
  {
    assert TotalLength([s]) == |s|;
  }
}
