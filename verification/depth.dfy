/** Why the invariants the validator enforces keep the tree shallow: a
    red-black tree of black height h has at least 2^h - 1 entries and no
    path longer than 2h + 1 nodes. */
module Depth {
  import opened Trees

  ghost function Height<V>(t: Tree<V>): nat
  {
    match t
    case Node(_, l, _, _, r) => 1 + (if Height(l) < Height(r) then Height(r) else Height(l))
    case _ => 0
  }

  ghost function Pow2(n: nat): nat
  {
    if n == 0 then 1 else 2 * Pow2(n - 1)
  }

  /** Red nodes never stack, so a path holds at most one red node per black
      one, plus a red root. */
  lemma {:induction false} HeightBound<V>(t: Tree<V>)
    requires IsRBTree(t)
    ensures Height(t) <= 2 * Bh(t) + (if IsRed(t) then 1 else 0)
  {
    if t.Node? {
      RBTreeChildren(t);
      HeightBound(t.l);
      HeightBound(t.r);
    }
  }

  /** Every path carries Bh(t) black nodes, so the tree is at least as full
      as a perfect tree of that height. */
  lemma {:induction false} SizeBound<V>(t: Tree<V>)
    requires IsRBTree(t)
    ensures |Inorder(t)| + 1 >= Pow2(Bh(t))
  {
    if t.Node? {
      RBTreeChildren(t);
      SizeBound(t.l);
      SizeBound(t.r);
    }
  }
}
