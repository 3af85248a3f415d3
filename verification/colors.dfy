/** The colour algebra of rbt.cpp: the three colours form an ordered scale
    RED < BLACK < DOUBLE_BLACK, and a colour is moved one step at a time. */
module Colors {

  datatype Color = Red | Black | DoubleBlack

  /** Position of a colour on the scale; it is also the number of units of
      black height the colour contributes to every path through a node. */
  function Rank(c: Color): nat
  {
    match c
    case Red => 0
    case Black => 1
    case DoubleBlack => 2
  }

  /** increment_color: one step up the scale; undefined on DOUBLE_BLACK. */
  function Increment(c: Color): (r: Color)
    requires c == Red || c == Black
    ensures Rank(r) == Rank(c) + 1
  {
    if c == Red then Black else DoubleBlack
  }

  /** decrement_color: one step down the scale; undefined on RED. */
  function Decrement(c: Color): (r: Color)
    requires c == Black || c == DoubleBlack
    ensures Rank(r) + 1 == Rank(c)
    ensures r == Red || r == Black
    ensures Increment(r) == c
  {
    if c == Black then Red else Black
  }

  /** The two steps undo each other. */
  lemma StepsAreInverse(c: Color)
    ensures c != DoubleBlack ==> Decrement(Increment(c)) == c
    ensures c != Red ==> Increment(Decrement(c)) == c
  {
  }
}
