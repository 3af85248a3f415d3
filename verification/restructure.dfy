/** push_black / pull_black, the rotations and the flips of rbt.cpp.  None of
    them changes the in-order sequence of key/value pairs. */
module Restructure {
  import opened Colors
  import opened Trees

  /** A node with its colour replaced and everything below it kept. */
  function Paint<V>(t: Tree<V>, c: Color): (r: Tree<V>)
    requires t.Node?
    ensures r.Node? && r.c == c && r.l == t.l && r.k == t.k && r.r == t.r
    ensures Inorder(r) == Inorder(t)
    ensures Balanced(r) <==> Balanced(t)
    ensures Bh(r) == Rank(c) + Bh(t.l)
    ensures NoDeficiency(r) <==> c != DoubleBlack && NoDeficiency(t.l) && NoDeficiency(t.r)
  {
    t.(c := c)
  }

  /** push_black: one unit of blackness moves from g down into both children. */
  function PushBlack<V>(g: Tree<V>): (r: Tree<V>)
    requires g.Node? && g.l.Node? && g.r.Node?
    requires g.c == Black || g.c == DoubleBlack
    requires g.l.c == Red || g.l.c == Black
    requires g.r.c == Red || g.r.c == Black
    ensures r.Node? && r.l.Node? && r.r.Node?
    ensures Rank(r.c) + 1 == Rank(g.c)
    ensures Rank(r.l.c) == Rank(g.l.c) + 1 && Rank(r.r.c) == Rank(g.r.c) + 1
    ensures r.k == g.k && r.l.k == g.l.k && r.r.k == g.r.k
    ensures r.l.l == g.l.l && r.l.r == g.l.r && r.r.l == g.r.l && r.r.r == g.r.r
    ensures Inorder(r) == Inorder(g)
    ensures Balanced(g) ==> Balanced(r) && Bh(r) == Bh(g)
    ensures NoDeficiency(g) && g.l.c == Red && g.r.c == Red ==> NoDeficiency(r)
  {
    var left, right := Paint(g.l, Increment(g.l.c)), Paint(g.r, Increment(g.r.c));
    assert NoDeficiency(g) ==> NoDeficiency(g.l) && NoDeficiency(g.r);
    Node(Decrement(g.c), left, g.k, g.v, right)
  }

  /** One side of pull_black: the sentinel becomes nullptr, a node steps down. */
  function PullChild<V>(t: Tree<V>): (r: Tree<V>)
    requires t.DBEmpty? || (t.Node? && (t.c == Black || t.c == DoubleBlack))
    ensures t.DBEmpty? ==> r.Empty?
    ensures t.Node? ==> r.Node? && Rank(r.c) + 1 == Rank(t.c) && r.l == t.l && r.r == t.r
    ensures Inorder(r) == Inorder(t)
    ensures Bh(r) + 1 == Bh(t)
  {
    if t.DBEmpty? then Empty else Paint(t, Decrement(t.c))
  }

  /** pull_black: one unit of blackness moves from both children up into g. */
  function PullBlack<V>(g: Tree<V>): (r: Tree<V>)
    requires g.Node? && (g.c == Red || g.c == Black)
    requires g.l.DBEmpty? || (g.l.Node? && (g.l.c == Black || g.l.c == DoubleBlack))
    requires g.r.DBEmpty? || (g.r.Node? && (g.r.c == Black || g.r.c == DoubleBlack))
    ensures r.Node? && Rank(r.c) == Rank(g.c) + 1
    ensures r.k == g.k
    ensures g.l.DBEmpty? ==> r.l.Empty?
    ensures g.l.Node? ==> r.l.Node? && Rank(r.l.c) + 1 == Rank(g.l.c) && r.l.l == g.l.l && r.l.r == g.l.r
    ensures g.r.DBEmpty? ==> r.r.Empty?
    ensures g.r.Node? ==> r.r.Node? && Rank(r.r.c) + 1 == Rank(g.r.c) && r.r.l == g.r.l && r.r.r == g.r.r
    ensures Inorder(r) == Inorder(g)
    ensures Balanced(g) ==> Balanced(r) && Bh(r) == Bh(g)
  {
    Node(Increment(g.c), PullChild(g.l), g.k, g.v, PullChild(g.r))
  }

  /** rotate_right: the left child becomes the root; no colour changes. */
  function RotateRight<V>(g: Tree<V>): (r: Tree<V>)
    requires g.Node? && g.l.Node?
    ensures r.Node? && r.r.Node?
    ensures r.c == g.l.c && r.r.c == g.c
    ensures r.k == g.l.k && r.r.k == g.k
    ensures r.l == g.l.l && r.r.l == g.l.r && r.r.r == g.r
    ensures Inorder(r) == Inorder(g)
    ensures IsRed(g) && IsRed(g.l) && Balanced(g) ==> Balanced(r) && Bh(r) == Bh(g)
    ensures NoDeficiency(r) <==> NoDeficiency(g)
  {
    var u := g.l;
    var g' := g.(l := u.r);
    assert Balanced(g) ==> Balanced(u) && Balanced(u.r);
    u.(r := g')
  }

  /** rotate_left: the right child becomes the root; no colour changes. */
  function RotateLeft<V>(g: Tree<V>): (r: Tree<V>)
    requires g.Node? && g.r.Node?
    ensures r.Node? && r.l.Node?
    ensures r.c == g.r.c && r.l.c == g.c
    ensures r.k == g.r.k && r.l.k == g.k
    ensures r.r == g.r.r && r.l.r == g.r.l && r.l.l == g.l
    ensures Inorder(r) == Inorder(g)
    ensures IsRed(g) && IsRed(g.r) && Balanced(g) ==> Balanced(r) && Bh(r) == Bh(g)
    ensures NoDeficiency(r) <==> NoDeficiency(g)
  {
    var u := g.r;
    var g' := g.(r := u.l);
    assert Balanced(g) ==> Balanced(u) && Balanced(u.l);
    u.(l := g')
  }

  /** flip_right: swap the colours of g and its left child, then rotate right. */
  function FlipRight<V>(g: Tree<V>): (r: Tree<V>)
    requires g.Node? && g.l.Node?
    ensures r.Node? && r.r.Node?
    ensures r.c == g.c && r.r.c == g.l.c
    ensures r.k == g.l.k && r.r.k == g.k
    ensures r.l == g.l.l && r.r.l == g.l.r && r.r.r == g.r
    ensures Inorder(r) == Inorder(g)
    ensures IsRed(g.l) && Balanced(g) ==> Balanced(r) && Bh(r) == Bh(g)
    ensures NoDeficiency(r) <==> NoDeficiency(g)
  {
    RotateRight(Node(g.l.c, Paint(g.l, g.c), g.k, g.v, g.r))
  }

  /** flip_left: swap the colours of g and its right child, then rotate left. */
  function FlipLeft<V>(g: Tree<V>): (r: Tree<V>)
    requires g.Node? && g.r.Node?
    ensures r.Node? && r.l.Node?
    ensures r.c == g.c && r.l.c == g.r.c
    ensures r.k == g.r.k && r.l.k == g.k
    ensures r.r == g.r.r && r.l.r == g.r.l && r.l.l == g.l
    ensures Inorder(r) == Inorder(g)
    ensures IsRed(g.r) && Balanced(g) ==> Balanced(r) && Bh(r) == Bh(g)
    ensures NoDeficiency(r) <==> NoDeficiency(g)
  {
    RotateLeft(Node(g.r.c, g.l, g.k, g.v, Paint(g.r, g.c)))
  }

  /** The two rotations undo each other. */
  lemma RotationsAreInverse<V>(g: Tree<V>)
    ensures g.Node? && g.l.Node? ==> RotateLeft(RotateRight(g)) == g
    ensures g.Node? && g.r.Node? ==> RotateRight(RotateLeft(g)) == g
  {
  }

  /** pull_black undoes push_black, and push_black undoes pull_black on a
      node with two real children. */
  lemma PushPullAreInverse<V>(g: Tree<V>)
    ensures && g.Node? && g.l.Node? && g.r.Node?
            && (g.c == Black || g.c == DoubleBlack)
            && (g.l.c == Red || g.l.c == Black)
            && (g.r.c == Red || g.r.c == Black)
            ==> PullBlack(PushBlack(g)) == g
    ensures && g.Node? && g.l.Node? && g.r.Node?
            && (g.c == Red || g.c == Black)
            && (g.l.c == Black || g.l.c == DoubleBlack)
            && (g.r.c == Black || g.r.c == DoubleBlack)
            ==> PushBlack(PullBlack(g)) == g
  {
  }
}
