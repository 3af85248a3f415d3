/** Insertion of rbt.cpp: a plain BST insert of a red leaf, followed on the
    way back up by fix_red_edge at every ancestor, and a black root. */
module Insertion {
  import opened Colors
  import opened Trees
  import opened Contents
  import opened Restructure

  /** fix_red_edge: repairs a red node with a red child directly below g. */
  function FixRedEdge<V>(g: Tree<V>): (r: Tree<V>)
    requires g.Node?
    requires IsRed(g.l) && IsRed(g.r) ==> g.c != Red
    ensures r.Node?
    ensures Inorder(r) == Inorder(g)
    ensures Balanced(g) ==> Balanced(r) && Bh(r) == Bh(g)
    ensures NoDeficiency(g) ==> NoDeficiency(r)
    ensures g.c == Black && NearlyRedRedFree(g.l) && RedRedFree(g.r) ==> RedRedFree(r)
    ensures g.c == Black && RedRedFree(g.l) && NearlyRedRedFree(g.r) ==> RedRedFree(r)
    ensures g.c == Red && RedRedFree(g.l) && RedRedFree(g.r) ==> r == g
  {
    if IsRed(g.l) && IsRed(g.r) then
      PushBlack(g)
    else
      // a red edge to the left of g: straighten a zig-zag, then flip
      var g1 := if IsRed(g.l) && IsRed(g.l.r) then g.(l := RotateLeft(g.l)) else g;
      if IsRed(g1.l) && IsRed(g1.l.l) then
        FlipRight(g1)
      else
        // a red edge to the right of g
        var g2 := if IsRed(g1.r) && IsRed(g1.r.l) then g1.(r := RotateRight(g1.r)) else g1;
        if IsRed(g2.r) && IsRed(g2.r.r) then
          FlipLeft(g2)
        else
          g2
  }

  /** insert_helper: insert below t, repairing red edges on the way back up.
      Below a black (or empty) position the result is red-black; below a red
      node it may keep one red child, which the parent's repair absorbs. */
  function InsertHelper<V>(t: Tree<V>, k: int, v: V): (r: Tree<V>)
    requires IsRBTree(t)
    ensures r.Node?
    ensures NoDeficiency(r) && Balanced(r) && Bh(r) == Bh(t)
    ensures IsRed(t) ==> IsRed(r) && NearlyRedRedFree(r)
    ensures !IsRed(t) ==> RedRedFree(r)
    decreases t
  {
    if t.Empty? then
      Node(Red, Empty, k, v, Empty)
    else if t.k == k then
      t.(v := v)
    else if k < t.k then
      FixRedEdge(t.(l := InsertHelper(t.l, k, v)))
    else
      FixRedEdge(t.(r := InsertHelper(t.r, k, v)))
  }

  /** insert: insert_helper, then a red root is painted black. */
  function Insert<V>(t: Tree<V>, k: int, v: V): (r: Tree<V>)
    requires IsRBTree(t)
    ensures IsRBTree(r)
    ensures r.Node? && r.c == Black
  {
    var g := InsertHelper(t, k, v);
    if g.c == Red then Paint(g, Black) else g
  }

  /** insert_helper adds exactly the key k, bound to v, and keeps BST order. */
  lemma {:induction false} InsertHelperContents<V>(t: Tree<V>, k: int, v: V)
    requires IsRBTree(t)
    ensures Keys(InsertHelper(t, k, v)) == Keys(t) + {k}
    ensures Ordered(t) ==> Ordered(InsertHelper(t, k, v))
    ensures Ordered(t) ==> Elems(InsertHelper(t, k, v)) == Elems(t)[k := v]
    decreases t
  {
    if t.Empty? {
    } else if t.k == k {
      if Ordered(t) {
        KeysElems(t.r);
        UpdateLeftOfMerge(Elems(t.l)[k := t.v], Elems(t.r), k, v);
      }
    } else if k < t.k {
      RBTreeChildren(t);
      var l' := InsertHelper(t.l, k, v);
      InsertHelperContents(t.l, k, v);
      InsertLeftContents(t, l', k, v);
      SameInorder(InsertHelper(t, k, v), t.(l := l'));
    } else {
      RBTreeChildren(t);
      var r' := InsertHelper(t.r, k, v);
      InsertHelperContents(t.r, k, v);
      InsertRightContents(t, r', k, v);
      SameInorder(InsertHelper(t, k, v), t.(r := r'));
    }
  }

  /** Putting back a left subtree that gained exactly k adds exactly k. */
  lemma InsertLeftContents<V>(t: Tree<V>, l': Tree<V>, k: int, v: V)
    requires t.Node? && k < t.k
    requires Keys(l') == Keys(t.l) + {k}
    requires Ordered(t.l) ==> Ordered(l')
    requires Ordered(t.l) ==> Elems(l') == Elems(t.l)[k := v]
    ensures Keys(t.(l := l')) == Keys(t) + {k}
    ensures Ordered(t) ==> Ordered(t.(l := l'))
    ensures Ordered(t) ==> Elems(t.(l := l')) == Elems(t)[k := v]
  {
    var n := t.(l := l');
    if Ordered(t) {
      assert forall x | x in Keys(l') :: x < t.k;
      assert Ordered(n);
      KeysElems(t.r);
      assert Elems(n) == Elems(t.l)[k := v][t.k := t.v] + Elems(t.r);
      UpdatesCommute(Elems(t.l), k, v, t.k, t.v);
      UpdateLeftOfMerge(Elems(t.l)[t.k := t.v], Elems(t.r), k, v);
    }
  }

  /** Putting back a right subtree that gained exactly k adds exactly k. */
  lemma InsertRightContents<V>(t: Tree<V>, r': Tree<V>, k: int, v: V)
    requires t.Node? && t.k < k
    requires Keys(r') == Keys(t.r) + {k}
    requires Ordered(t.r) ==> Ordered(r')
    requires Ordered(t.r) ==> Elems(r') == Elems(t.r)[k := v]
    ensures Keys(t.(r := r')) == Keys(t) + {k}
    ensures Ordered(t) ==> Ordered(t.(r := r'))
    ensures Ordered(t) ==> Elems(t.(r := r')) == Elems(t)[k := v]
  {
    var n := t.(r := r');
    if Ordered(t) {
      assert forall x | x in Keys(r') :: t.k < x;
      assert Ordered(n);
      assert Elems(n) == Elems(t.l)[t.k := t.v] + Elems(t.r)[k := v];
      UpdateRightOfMerge(Elems(t.l)[t.k := t.v], Elems(t.r), k, v);
    }
  }

  /** After insert(k, v) the tree holds the old bindings with k bound to v,
      is still a BST and satisfies every red-black invariant. */
  lemma InsertCorrect<V>(t: Tree<V>, k: int, v: V)
    requires Ordered(t) && IsRBTree(t)
    ensures WellFormed(Insert(t, k, v))
    ensures Keys(Insert(t, k, v)) == Keys(t) + {k}
    ensures Elems(Insert(t, k, v)) == Elems(t)[k := v]
  {
    InsertHelperContents(t, k, v);
    SameInorder(Insert(t, k, v), InsertHelper(t, k, v));
  }

  /** Re-inserting a key already present changes the in-order sequence only
      in that key's value: the same keys in the same order, every other
      binding untouched. Colours and shape may still change (see
      ReinsertRecolours), because fix_red_edge runs at every ancestor. */
  lemma {:induction false} ReinsertHelperRebinds<V>(t: Tree<V>, k: int, v: V)
    requires IsRBTree(t) && Ordered(t) && k in Keys(t)
    ensures Inorder(InsertHelper(t, k, v)) == Rebind(Inorder(t), k, v)
    decreases t
  {
    RBTreeChildren(t);
    if t.k == k {
      RebindAround(t, k, v);
    } else if k < t.k {
      ReinsertHelperRebinds(t.l, k, v);
      RebindAround(t, k, v);
      assert Inorder(InsertHelper(t, k, v)) == Inorder(t.(l := InsertHelper(t.l, k, v)));
    } else {
      ReinsertHelperRebinds(t.r, k, v);
      RebindAround(t, k, v);
      assert Inorder(InsertHelper(t, k, v)) == Inorder(t.(r := InsertHelper(t.r, k, v)));
    }
  }

  /** In an ordered node, rebinding k touches only the side that holds k. */
  lemma RebindAround<V>(t: Tree<V>, k: int, v: V)
    requires t.Node? && Ordered(t)
    ensures t.k == k ==> Rebind(Inorder(t), k, v) == Inorder(t.l) + [(k, v)] + Inorder(t.r)
    ensures k < t.k ==> Rebind(Inorder(t), k, v) == Rebind(Inorder(t.l), k, v) + [(t.k, t.v)] + Inorder(t.r)
    ensures t.k < k ==> Rebind(Inorder(t), k, v) == Inorder(t.l) + [(t.k, t.v)] + Rebind(Inorder(t.r), k, v)
  {
    KeysInorder(t.l);
    KeysInorder(t.r);
    RebindConcat(Inorder(t.l), (t.k, t.v), Inorder(t.r), k, v);
    if k <= t.k {
      RebindAbsent(Inorder(t.r), k, v);
    }
    if t.k <= k {
      RebindAbsent(Inorder(t.l), k, v);
    }
    if t.k != k {
      RebindAbsent([(t.k, t.v)], k, v);
    }
  }

  /** insert(k, v) on a present key k only rebinds k, as seen in order. */
  lemma ReinsertRebinds<V>(t: Tree<V>, k: int, v: V)
    requires IsRBTree(t) && Ordered(t) && k in Keys(t)
    ensures Inorder(Insert(t, k, v)) == Rebind(Inorder(t), k, v)
  {
    ReinsertHelperRebinds(t, k, v);
  }

  /** Re-inserting a present key is not a pure value update: with two red
      children under the root, the ancestor repair recolours them black. */
  lemma ReinsertRecolours()
    ensures var t := Node(Black, Node(Red, Empty, 1, 10, Empty), 2, 20, Node(Red, Empty, 3, 30, Empty));
            && IsRBTree(t) && Ordered(t) && 1 in Keys(t)
            && Insert(t, 1, 11)
               == Node(Black, Node(Black, Empty, 1, 11, Empty), 2, 20, Node(Black, Empty, 3, 30, Empty))
  {
  }

  /** The recolouring of a re-insert can go on to rotate an ancestor: here
      push_black at key 2 makes 2 and its red parent 4 a red-red edge, and
      the root's repair flips 4 up into the root. */
  lemma ReinsertRotates()
    ensures var t := Node(Black,
                          Node(Red,
                               Node(Black, Node(Red, Empty, 1, 1, Empty), 2, 2, Node(Red, Empty, 3, 3, Empty)),
                               4, 4,
                               Node(Black, Empty, 5, 5, Empty)),
                          6, 6,
                          Node(Black, Empty, 7, 7, Empty));
            && IsRBTree(t) && Ordered(t) && 1 in Keys(t)
            && t.k == 6 && Insert(t, 1, 1).k == 4
  {
  }
}
