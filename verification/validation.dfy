/** The black-height validator of rbt.cpp (debug_print_helper) as a
    value-returning validation: printing is dropped, each "ERROR!" line
    becomes a structured failure, and the first failure is reported:
    children's failures before the node's own, left before right. */
module Validation {
  import opened Colors
  import opened Trees

  datatype Violation =
    | HeightMismatch(at: int)   // the two children have different black heights
    | RedRedEdge(at: int)       // a red node with a red child
    | InvalidColor(at: int)     // a node coloured DOUBLE_BLACK
    | StrayDeficiency           // the double-black sentinel inside the tree

  datatype Verdict = Valid(blackHeight: nat) | Invalid(violation: Violation)

  /** nil has black height 0; a black node adds one to its children's common
      height and a red node passes it through. */
  function Validate<V>(t: Tree<V>): (res: Verdict)
  {
    match t
    case Empty => Valid(0)
    case DBEmpty => Invalid(StrayDeficiency)
    case Node(c, l, k, _, r) =>
      var left := Validate(l);
      if left.Invalid? then left
      else
        var right := Validate(r);
        if right.Invalid? then right
        else if left.blackHeight != right.blackHeight then Invalid(HeightMismatch(k))
        else if IsRed(t) && (IsRed(l) || IsRed(r)) then Invalid(RedRedEdge(k))
        else if c == Black then Valid(left.blackHeight + 1)
        else if c == Red then Valid(left.blackHeight)
        else Invalid(InvalidColor(k))
  }

  /** The validator accepts exactly the trees with the red-black invariants,
      and then reports their black height. */
  lemma {:induction false} ValidateCorrect<V>(t: Tree<V>)
    ensures Validate(t).Valid? <==> IsRBTree(t)
    ensures Validate(t).Valid? ==> Validate(t).blackHeight == Bh(t)
  {
    match t
    case Node(c, l, k, _, r) =>
      ValidateCorrect(l);
      ValidateCorrect(r);
    case _ =>
  }

  /** A red node above a red child, on either side, over valid subtrees of
      equal black height is reported as a red-red violation at that node. */
  lemma ValidateReportsRedRed<V>(t: Tree<V>)
    requires t.Node? && t.c == Red && (IsRed(t.l) || IsRed(t.r))
    requires IsRBTree(t.l) && IsRBTree(t.r) && Bh(t.l) == Bh(t.r)
    ensures Validate(t) == Invalid(RedRedEdge(t.k))
  {
    ValidateCorrect(t.l);
    ValidateCorrect(t.r);
  }
}
