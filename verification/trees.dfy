/** The subtree model of rbt.cpp and the invariants the algorithm keeps. */
module Trees {
  import opened Colors

  /** A subtree: nullptr, the shared double-black nil sentinel, or a node
      that owns its two children. */
  datatype Tree<V> = Empty | DBEmpty | Node(c: Color, l: Tree<V>, k: int, v: V, r: Tree<V>)

  /** is_red: a real node coloured RED. */
  predicate IsRed<V>(t: Tree<V>)
  {
    t.Node? && t.c == Red
  }

  /** is_black: nullptr, or a real node coloured BLACK. */
  predicate IsBlack<V>(t: Tree<V>)
  {
    t.Empty? || (t.Node? && t.c == Black)
  }

  /** is_double_black: the sentinel, or a node coloured DOUBLE_BLACK. */
  predicate IsDoubleBlack<V>(t: Tree<V>)
  {
    t.DBEmpty? || (t.Node? && t.c == DoubleBlack)
  }

  /** The three colour tests: nullptr is black, the sentinel is double-black
      and nothing else, and a real node passes exactly the test of its colour. */
  lemma ColourTests<V>(t: Tree<V>)
    ensures t.Empty? ==> IsBlack(t) && !IsRed(t) && !IsDoubleBlack(t)
    ensures t.DBEmpty? ==> IsDoubleBlack(t) && !IsRed(t) && !IsBlack(t)
    ensures t.Node? ==> (IsRed(t) <==> t.c == Red)
    ensures t.Node? ==> (IsBlack(t) <==> t.c == Black)
    ensures t.Node? ==> (IsDoubleBlack(t) <==> t.c == DoubleBlack)
  {
  }

  // ---------------------------------------------------------------------------
  // In-order view
  // ---------------------------------------------------------------------------

  /** The key/value pairs in in-order (left, node, right) sequence. */
  ghost function Inorder<V>(t: Tree<V>): seq<(int, V)>
  {
    match t
    case Node(_, l, k, v, r) => Inorder(l) + [(k, v)] + Inorder(r)
    case _ => []
  }

  ghost function Keys<V>(t: Tree<V>): set<int>
  {
    match t
    case Node(_, l, k, _, r) => Keys(l) + {k} + Keys(r)
    case _ => {}
  }

  /** The key/value map the tree represents (later entries in order win,
      which only matters for trees that are not ordered). */
  ghost function Elems<V>(t: Tree<V>): map<int, V>
  {
    match t
    case Node(_, l, k, v, r) => Elems(l)[k := v] + Elems(r)
    case _ => map[]
  }

  /** BST ordering: left keys below, right keys above every node's key. */
  ghost predicate Ordered<V>(t: Tree<V>)
  {
    match t
    case Node(_, l, k, _, r) =>
      && Ordered(l)
      && Ordered(r)
      && (forall x | x in Keys(l) :: x < k)
      && (forall x | x in Keys(r) :: k < x)
    case _ => true
  }

  // ---------------------------------------------------------------------------
  // Colour invariants
  // ---------------------------------------------------------------------------

  /** Black height along the leftmost path; the sentinel carries the one unit
      of black height it stands in for, and DOUBLE_BLACK counts twice. */
  ghost function Bh<V>(t: Tree<V>): nat
  {
    match t
    case Empty => 0
    case DBEmpty => 1
    case Node(c, l, _, _, _) => Rank(c) + Bh(l)
  }

  /** Every node's two children have the same black height. */
  ghost predicate Balanced<V>(t: Tree<V>)
  {
    match t
    case Node(_, l, _, _, r) => Bh(l) == Bh(r) && Balanced(l) && Balanced(r)
    case _ => true
  }

  /** No red node has a red child. */
  ghost predicate RedRedFree<V>(t: Tree<V>)
  {
    match t
    case Node(c, l, _, _, r) =>
      && !(c == Red && (IsRed(l) || IsRed(r)))
      && RedRedFree(l)
      && RedRedFree(r)
    case _ => true
  }

  /** Neither the sentinel nor a DOUBLE_BLACK node occurs anywhere. */
  ghost predicate NoDeficiency<V>(t: Tree<V>)
  {
    match t
    case Empty => true
    case DBEmpty => false
    case Node(c, l, _, _, r) => c != DoubleBlack && NoDeficiency(l) && NoDeficiency(r)
  }

  /** No red node has a red child, and every path has the same black
      height; RED/BLACK nodes only. */
  ghost predicate IsRBTree<V>(t: Tree<V>)
  {
    NoDeficiency(t) && RedRedFree(t) && Balanced(t)
  }

  /** A red-red-free tree, or a red root with at most one red child over
      red-red-free subtrees: the one violation insertion may hand back up to
      the parent. */
  ghost predicate NearlyRedRedFree<V>(t: Tree<V>)
  {
    || RedRedFree(t)
    || (IsRed(t) && RedRedFree(t.l) && RedRedFree(t.r) && !(IsRed(t.l) && IsRed(t.r)))
  }

  /** A one-unit deficiency at the root: the sentinel, or a DOUBLE_BLACK node
      over two red-black subtrees of equal black height. */
  ghost predicate Deficient<V>(t: Tree<V>)
  {
    && IsDoubleBlack(t)
    && (t.Node? ==> IsRBTree(t.l) && IsRBTree(t.r) && Bh(t.l) == Bh(t.r))
  }

  /** What a public operation must leave behind: a BST with the red-black
      invariants and a root that is not red. */
  ghost predicate WellFormed<V>(t: Tree<V>)
  {
    Ordered(t) && IsRBTree(t) && !IsRed(t)
  }

  /** The invariants pass down to both children of a red-black node. */
  lemma RBTreeChildren<V>(t: Tree<V>)
    requires IsRBTree(t) && t.Node?
    ensures IsRBTree(t.l) && IsRBTree(t.r) && Bh(t.l) == Bh(t.r)
    ensures t.c != DoubleBlack && !IsDoubleBlack(t.l) && !IsDoubleBlack(t.r)
  {
    assert NoDeficiency(t.l) && NoDeficiency(t.r);
  }
}
