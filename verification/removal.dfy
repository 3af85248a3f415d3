/** Removal of rbt.cpp: find the key, splice out a node with at most one
    child (extracting the in-order successor first when it has two), and on
    the way back up repair any double-black deficiency a child reports. */
module Removal {
  import opened Colors
  import opened Trees
  import opened Contents
  import opened Restructure

  // ---------------------------------------------------------------------------
  // Invariants of the deletion unwind
  // ---------------------------------------------------------------------------

  /** What removing from t leaves behind: the same black height, either a
      red-black tree or a one-unit deficiency at the root, never a deficiency
      below a red t, and never a red root where t's root was not red. */
  ghost predicate Restored<V>(t: Tree<V>, r: Tree<V>)
  {
    && Bh(r) == Bh(t)
    && (IsRBTree(r) || Deficient(r))
    && (IsRed(t) ==> IsRBTree(r))
    && (!IsRed(t) ==> !IsRed(r))
  }

  /** A node whose left child reports a deficiency it must repair. */
  ghost predicate LeftDeficient<V>(z: Tree<V>)
  {
    && z.Node?
    && (z.c == Red || z.c == Black)
    && Deficient(z.l)
    && IsRBTree(z.r)
    && Bh(z.l) == Bh(z.r)
    && (z.c == Red ==> !IsRed(z.r))
  }

  /** A node whose right child reports a deficiency it must repair. */
  ghost predicate RightDeficient<V>(z: Tree<V>)
  {
    && z.Node?
    && (z.c == Red || z.c == Black)
    && Deficient(z.r)
    && IsRBTree(z.l)
    && Bh(z.l) == Bh(z.r)
    && (z.c == Red ==> !IsRed(z.l))
  }

  /** What fix_left_doubleblack needs so that none of its colour steps,
      asserts or dereferences fails. */
  predicate LeftFixable<V>(z: Tree<V>)
  {
    && z.Node?
    && IsDoubleBlack(z.l)
    && if IsRed(z.r) then z.r.l.Node? && IsBlack(z.r.l)
       else z.r.Node? && IsBlack(z.r) && (z.c == Red || z.c == Black)
  }

  /** What fix_right_doubleblack needs, mirrored. */
  predicate RightFixable<V>(z: Tree<V>)
  {
    && z.Node?
    && IsDoubleBlack(z.r)
    && if IsRed(z.l) then z.l.r.Node? && IsBlack(z.l.r)
       else z.l.Node? && IsBlack(z.l) && (z.c == Red || z.c == Black)
  }

  /** What fix_doubleblack needs: the repair of whichever side it picks. */
  predicate Repairable<V>(z: Tree<V>)
  {
    && z.Node?
    && (IsDoubleBlack(z.l) ==> LeftFixable(z))
    && (!IsDoubleBlack(z.l) && IsDoubleBlack(z.r) ==> RightFixable(z))
  }

  // ---------------------------------------------------------------------------
  // splice
  // ---------------------------------------------------------------------------

  /** The shape splice is called on (at most one child) and its asserts: a red
      node has no child, and a black node's only child is red. */
  predicate Spliceable<V>(w: Tree<V>)
  {
    && w.Node?
    && (w.l.Empty? || w.r.Empty?)
    && (w.c == Red ==> w.l.Empty? && w.r.Empty?)
    && (w.c != Red && !w.l.Empty? ==> IsRed(w.l))
    && (w.c != Red && w.l.Empty? && !w.r.Empty? ==> IsRed(w.r))
  }

  /** splice: removes a node with at most one child.  A red node is a leaf and
      vanishes; a black node's only child is red and takes its place painted
      black; a black leaf leaves the double-black sentinel behind. */
  function Splice<V>(w: Tree<V>): (r: Tree<V>)
    requires Spliceable(w)
    ensures Inorder(r) == Inorder(w.l) + Inorder(w.r)
    ensures w.c == Red ==> r.Empty?
    ensures w.c != Red && w.l.Node? ==> r.Node? && r.c == Black && r.l == w.l.l && r.r == w.l.r
    ensures w.c != Red && w.r.Node? ==> r.Node? && r.c == Black && r.l == w.r.l && r.r == w.r.r
    ensures w.c != Red && w.l.Empty? && w.r.Empty? ==> r.DBEmpty?
    ensures w.c != DoubleBlack && Balanced(w) ==> Balanced(r) && Bh(r) == Bh(w)
  {
    if w.c == Red then
      Empty
    else if !w.l.Empty? then
      Paint(w.l, Black)
    else if !w.r.Empty? then
      Paint(w.r, Black)
    else
      DBEmpty
  }

  // ---------------------------------------------------------------------------
  // Double-black repair
  // ---------------------------------------------------------------------------

  /** fix_left_doubleblack_right_black: pull the deficiency up into z, then
      use a red nephew, if there is one, to settle it here. */
  function FixLeftDoubleBlackRightBlack<V>(z: Tree<V>): (r: Tree<V>)
    requires z.Node? && IsDoubleBlack(z.l) && IsBlack(z.r)
    requires z.c == Red || z.c == Black
    requires z.r.Node?
    ensures r.Node?
    ensures Inorder(r) == Inorder(z)
  {
    var z1 := PullBlack(z);
    var z2 := if IsRed(z1.r.l) && IsBlack(z1.r.r) then Node(z1.c, z1.l, z1.k, z1.v, RotateRight(z1.r)) else z1;
    if IsRed(z2.r.r) then PushBlack(FlipLeft(z2)) else z2
  }

  /** fix_left_doubleblack: a red sibling is first flipped above z, and the
      repair continues one level down, at z itself. */
  function FixLeftDoubleBlack<V>(z: Tree<V>): (r: Tree<V>)
    requires LeftFixable(z)
    ensures r.Node?
    ensures Inorder(r) == Inorder(z)
  {
    if IsRed(z.r) then
      var f := FlipLeft(z);
      Node(f.c, FixLeftDoubleBlackRightBlack(f.l), f.k, f.v, f.r)
    else
      FixLeftDoubleBlackRightBlack(z)
  }

  /** fix_right_doubleblack_left_black: the mirror image. */
  function FixRightDoubleBlackLeftBlack<V>(z: Tree<V>): (r: Tree<V>)
    requires z.Node? && IsDoubleBlack(z.r) && IsBlack(z.l)
    requires z.c == Red || z.c == Black
    requires z.l.Node?
    ensures r.Node?
    ensures Inorder(r) == Inorder(z)
  {
    var z1 := PullBlack(z);
    var z2 := if IsRed(z1.l.r) && IsBlack(z1.l.l) then Node(z1.c, RotateLeft(z1.l), z1.k, z1.v, z1.r) else z1;
    if IsRed(z2.l.l) then PushBlack(FlipRight(z2)) else z2
  }

  /** fix_right_doubleblack: the mirror image. */
  function FixRightDoubleBlack<V>(z: Tree<V>): (r: Tree<V>)
    requires RightFixable(z)
    ensures r.Node?
    ensures Inorder(r) == Inorder(z)
  {
    if IsRed(z.l) then
      var f := FlipRight(z);
      Node(f.c, f.l, f.k, f.v, FixRightDoubleBlackLeftBlack(f.r))
    else
      FixRightDoubleBlackLeftBlack(z)
  }

  /** fix_doubleblack: repair the left child's deficiency, else the right
      child's, else nothing. */
  function FixDoubleBlack<V>(z: Tree<V>): (r: Tree<V>)
    requires Repairable(z)
    ensures r.Node?
    ensures Inorder(r) == Inorder(z)
    ensures !IsDoubleBlack(z.l) && !IsDoubleBlack(z.r) ==> r == z
  {
    if IsDoubleBlack(z.l) then
      FixLeftDoubleBlack(z)
    else if IsDoubleBlack(z.r) then
      FixRightDoubleBlack(z)
    else
      z
  }

  // ---------------------------------------------------------------------------
  // The repairs settle a deficiency
  // ---------------------------------------------------------------------------

  lemma DeficientHasHeight<V>(t: Tree<V>)
    requires Deficient(t)
    ensures Bh(t) >= 1
  {
  }

  /** With a black sibling, fix_left_doubleblack_right_black either settles
      the deficiency or passes exactly one unit of it up through a black z. */
  lemma FixLeftBlackSiblingRestores<V>(z: Tree<V>)
    requires LeftDeficient(z) && IsBlack(z.r)
    ensures z.r.Node?
    ensures Restored(z, FixLeftDoubleBlackRightBlack(z))
  {
    DeficientHasHeight(z.l);
    var r := FixLeftDoubleBlackRightBlack(z);
    var s := z.r;
    var z1 := PullBlack(z);
    var d := z1.l;
    assert IsRBTree(d) && Bh(d) + 1 == Bh(z.l);
    assert z1.r == Node(Red, s.l, s.k, s.v, s.r);
    if IsRed(s.l) && IsBlack(s.r) {
      var a := s.l;
      assert IsRBTree(s) && IsRBTree(a) && IsRBTree(a.l) && IsRBTree(a.r);
      assert Bh(a.l) == Bh(d) && Bh(a.r) == Bh(s.r);
      var left, right := Node(Black, d, z.k, z.v, a.l), Node(Black, a.r, s.k, s.v, s.r);
      assert IsRBTree(left) && IsRBTree(right) && Bh(left) == Bh(right);
      assert r == Node(z.c, left, a.k, a.v, right);
    } else if IsRed(s.r) {
      var b := s.r;
      assert IsRBTree(s) && IsRBTree(s.l) && IsRBTree(b) && IsRBTree(b.l) && IsRBTree(b.r);
      assert Bh(s.l) == Bh(d) && Bh(b.l) == Bh(b.r) == Bh(s.l);
      var left, right := Node(Black, d, z.k, z.v, s.l), Node(Black, b.l, b.k, b.v, b.r);
      assert IsRBTree(left) && IsRBTree(right) && Bh(left) == Bh(right);
      assert r == Node(z.c, left, s.k, s.v, right);
    } else {
      assert r == z1;
      assert IsRBTree(s) && IsRBTree(s.l) && IsRBTree(s.r) && !IsRed(s.l) && !IsRed(s.r);
      assert IsRBTree(z1.r) && Bh(z1.r) == Bh(d);
      if z.c == Red {
        assert z1.c == Black && IsRBTree(z1);
      } else {
        assert z1.c == DoubleBlack && Deficient(z1);
      }
    }
  }

  /** fix_left_doubleblack settles or passes up a left deficiency. */
  lemma FixLeftRestores<V>(z: Tree<V>)
    requires LeftDeficient(z)
    ensures LeftFixable(z)
    ensures Restored(z, FixLeftDoubleBlack(z))
  {
    DeficientHasHeight(z.l);
    if IsRed(z.r) {
      var s := z.r;
      assert IsRBTree(s) && IsRBTree(s.l) && IsRBTree(s.r) && !IsRed(s.l) && !IsRed(s.r);
      assert Bh(s.l) == Bh(z.l) && s.l.Node?;
      var inner := Node(Red, z.l, z.k, z.v, s.l);
      assert LeftDeficient(inner) && IsBlack(inner.r);
      FixLeftBlackSiblingRestores(inner);
      var fixed := FixLeftDoubleBlackRightBlack(inner);
      assert IsRBTree(fixed) && Bh(fixed) == Bh(s.r);
      assert FixLeftDoubleBlack(z) == Node(Black, fixed, s.k, s.v, s.r);
    } else {
      FixLeftBlackSiblingRestores(z);
    }
  }

  /** Mirror of FixLeftBlackSiblingRestores. */
  lemma FixRightBlackSiblingRestores<V>(z: Tree<V>)
    requires RightDeficient(z) && IsBlack(z.l)
    ensures z.l.Node?
    ensures Restored(z, FixRightDoubleBlackLeftBlack(z))
  {
    DeficientHasHeight(z.r);
    var r := FixRightDoubleBlackLeftBlack(z);
    var s := z.l;
    var z1 := PullBlack(z);
    var d := z1.r;
    assert IsRBTree(d) && Bh(d) + 1 == Bh(z.r);
    assert z1.l == Node(Red, s.l, s.k, s.v, s.r);
    if IsRed(s.r) && IsBlack(s.l) {
      var a := s.r;
      assert IsRBTree(s) && IsRBTree(a) && IsRBTree(a.l) && IsRBTree(a.r);
      assert Bh(a.r) == Bh(d) && Bh(a.l) == Bh(s.l);
      var left, right := Node(Black, s.l, s.k, s.v, a.l), Node(Black, a.r, z.k, z.v, d);
      assert IsRBTree(left) && IsRBTree(right) && Bh(left) == Bh(right);
      assert r == Node(z.c, left, a.k, a.v, right);
    } else if IsRed(s.l) {
      var b := s.l;
      assert IsRBTree(s) && IsRBTree(s.r) && IsRBTree(b) && IsRBTree(b.l) && IsRBTree(b.r);
      assert Bh(s.r) == Bh(d) && Bh(b.l) == Bh(b.r) == Bh(s.r);
      var left, right := Node(Black, b.l, b.k, b.v, b.r), Node(Black, s.r, z.k, z.v, d);
      assert IsRBTree(left) && IsRBTree(right) && Bh(left) == Bh(right);
      assert r == Node(z.c, left, s.k, s.v, right);
    } else {
      assert r == z1;
      assert IsRBTree(s) && IsRBTree(s.l) && IsRBTree(s.r) && !IsRed(s.l) && !IsRed(s.r);
      assert IsRBTree(z1.l) && Bh(z1.l) == Bh(d);
      if z.c == Red {
        assert z1.c == Black && IsRBTree(z1);
      } else {
        assert z1.c == DoubleBlack && Deficient(z1);
      }
    }
  }

  /** Mirror of FixLeftRestores. */
  lemma FixRightRestores<V>(z: Tree<V>)
    requires RightDeficient(z)
    ensures RightFixable(z)
    ensures Restored(z, FixRightDoubleBlack(z))
  {
    DeficientHasHeight(z.r);
    if IsRed(z.l) {
      var s := z.l;
      assert IsRBTree(s) && IsRBTree(s.l) && IsRBTree(s.r) && !IsRed(s.l) && !IsRed(s.r);
      assert Bh(s.r) == Bh(z.r) && s.r.Node?;
      var inner := Node(Red, s.r, z.k, z.v, z.r);
      assert RightDeficient(inner) && IsBlack(inner.l);
      FixRightBlackSiblingRestores(inner);
      var fixed := FixRightDoubleBlackLeftBlack(inner);
      assert IsRBTree(fixed) && Bh(fixed) == Bh(s.l);
      assert FixRightDoubleBlack(z) == Node(Black, s.l, s.k, s.v, fixed);
    } else {
      FixRightBlackSiblingRestores(z);
    }
  }

  /** fix_doubleblack settles or passes up whichever deficiency z reports. */
  lemma FixDoubleBlackRestores<V>(z: Tree<V>)
    requires LeftDeficient(z) || RightDeficient(z)
    ensures Repairable(z)
    ensures Restored(z, FixDoubleBlack(z))
  {
    if LeftDeficient(z) {
      FixLeftRestores(z);
    } else {
      assert !IsDoubleBlack(z.l);
      FixRightRestores(z);
    }
  }

  /** A removal result put back under t's node needs either no repair or a
      repair fix_doubleblack can do; either way the unwind invariant holds. */
  lemma RepairAfterLeft<V>(t: Tree<V>, z: Tree<V>)
    requires IsRBTree(t) && t.Node?
    requires z.Node? && z.c == t.c && z.r == t.r && Restored(t.l, z.l)
    ensures Repairable(z)
    ensures Restored(t, FixDoubleBlack(z))
  {
    RBTreeChildren(t);
    if IsDoubleBlack(z.l) {
      assert LeftDeficient(z);
      FixDoubleBlackRestores(z);
    } else {
      assert IsRBTree(z.l) && IsRBTree(z);
    }
  }

  /** Mirror of RepairAfterLeft. */
  lemma RepairAfterRight<V>(t: Tree<V>, z: Tree<V>)
    requires IsRBTree(t) && t.Node?
    requires z.Node? && z.c == t.c && z.l == t.l && Restored(t.r, z.r)
    ensures Repairable(z)
    ensures Restored(t, FixDoubleBlack(z))
  {
    RBTreeChildren(t);
    if IsDoubleBlack(z.r) {
      assert RightDeficient(z);
      FixDoubleBlackRestores(z);
    } else {
      assert IsRBTree(z.r) && IsRBTree(z);
    }
  }

  /** A red-black subtree of black height 0 with a black (or no) root is empty. */
  lemma ZeroHeightBlackIsEmpty<V>(t: Tree<V>)
    requires IsRBTree(t) && Bh(t) == 0 && !IsRed(t)
    ensures t.Empty?
  {
  }

  /** In a red-black tree a node with an empty side meets splice's asserts,
      and splicing it out keeps the unwind invariant. */
  lemma SpliceRestores<V>(w: Tree<V>)
    requires IsRBTree(w) && w.Node? && (w.l.Empty? || w.r.Empty?)
    ensures Spliceable(w)
    ensures Restored(w, Splice(w))
  {
    if !IsRed(w.l) {
      ZeroHeightBlackIsEmpty(w.l);
    }
    if !IsRed(w.r) {
      ZeroHeightBlackIsEmpty(w.r);
    }
    if w.c == Red {
      ZeroHeightBlackIsEmpty(w.l);
      ZeroHeightBlackIsEmpty(w.r);
    } else if w.l.Node? || w.r.Node? {
      var child := if w.l.Node? then w.l else w.r;
      assert IsRed(child) && IsRBTree(child) && Bh(child) == 0;
      ZeroHeightBlackIsEmpty(child.l);
      ZeroHeightBlackIsEmpty(child.r);
      assert Splice(w) == Node(Black, Empty, child.k, child.v, Empty);
    }
  }

  /** extract_min: remove the leftmost node of u and hand back its key and
      value together with the repaired rest of u. */
  function ExtractMin<V>(u: Tree<V>): (res: (Tree<V>, int, V))
    requires IsRBTree(u) && u.Node?
    ensures Inorder(u) == [(res.1, res.2)] + Inorder(res.0)
    ensures Restored(u, res.0)
    decreases u
  {
    if !u.l.Empty? then
      var (l', minKey, minVal) := ExtractMin(u.l);
      var z := Node(u.c, l', u.k, u.v, u.r);
      RepairAfterLeft(u, z);
      (FixDoubleBlack(z), minKey, minVal)
    else
      SpliceRestores(u);
      (Splice(u), u.k, u.v)
  }

  /** remove_helper: remove key from t, repairing on the way back up. */
  function RemoveHelper<V>(t: Tree<V>, key: int): (r: Tree<V>)
    requires IsRBTree(t)
    ensures Restored(t, r)
    decreases t
  {
    if t.Empty? then
      t
    else if key == t.k then
      if t.r.Empty? || t.l.Empty? then
        SpliceRestores(t);
        Splice(t)
      else
        var (r', minKey, minVal) := ExtractMin(t.r);
        var z := Node(t.c, t.l, minKey, minVal, r');
        RepairAfterRight(t, z);
        FixDoubleBlack(z)
    else if key < t.k then
      var z := t.(l := RemoveHelper(t.l, key));
      RepairAfterLeft(t, z);
      FixDoubleBlack(z)
    else
      var z := t.(r := RemoveHelper(t.r, key));
      RepairAfterRight(t, z);
      FixDoubleBlack(z)
  }

  /** remove: remove_helper, then a deficiency left at the root is absorbed
      there: the sentinel becomes the empty tree, a double-black root black. */
  function Remove<V>(t: Tree<V>, key: int): (r: Tree<V>)
    requires IsRBTree(t)
    ensures IsRBTree(r)
    ensures !IsRed(t) ==> !IsRed(r)
    ensures Bh(r) == Bh(t) || Bh(r) + 1 == Bh(t)
  {
    var s := RemoveHelper(t, key);
    if IsDoubleBlack(s) then
      if s.DBEmpty? then Empty else Paint(s, Black)
    else
      s
  }

  // ---------------------------------------------------------------------------
  // Contents
  // ---------------------------------------------------------------------------

  /** extract_min hands back the smallest binding of an ordered subtree and
      leaves exactly the other bindings behind, still ordered. */
  lemma ExtractMinContents<V>(u: Tree<V>)
    requires IsRBTree(u) && u.Node? && Ordered(u)
    ensures var (rest, minKey, minVal) := ExtractMin(u);
      && minKey in Elems(u) && Elems(u)[minKey] == minVal
      && (forall x | x in Keys(u) :: minKey <= x)
      && Ordered(rest)
      && Keys(rest) == Keys(u) - {minKey}
      && Elems(rest) == Elems(u) - {minKey}
  {
    var res := ExtractMin(u);
    var rest, minKey, minVal := res.0, res.1, res.2;
    FirstEntry(u, (minKey, minVal), rest);
    KeysElems(rest);
    assert minKey !in Elems(rest);
    SingletonFront(Elems(rest), minKey, minVal);
  }

  /** Splicing out the node holding t's key removes exactly that binding. */
  lemma SpliceContents<V>(t: Tree<V>)
    requires IsRBTree(t) && t.Node? && (t.l.Empty? || t.r.Empty?) && Ordered(t)
    ensures Spliceable(t) && Ordered(Splice(t))
    ensures Spliceable(t) && Elems(Splice(t)) == Elems(t) - {t.k}
  {
    SpliceRestores(t);
    var r := Splice(t);
    KeysElems(t.l);
    KeysElems(t.r);
    DropUpdatedKey(Elems(t.l), Elems(t.r), t.k, t.v);
    if t.l.Node? {
      assert Inorder(r) == Inorder(t.l);
      SameInorder(r, t.l);
      assert Elems(t.l) + Elems(t.r) == Elems(t.l);
    } else if t.r.Node? {
      assert Inorder(r) == Inorder(t.r);
      SameInorder(r, t.r);
      assert Elems(t.l) + Elems(t.r) == Elems(t.r);
    } else {
      assert r.Empty? || r.DBEmpty?;
    }
  }

  /** The two-children case: the in-order successor's binding moves up into
      t's node, and t's own binding is gone. */
  lemma SuccessorContents<V>(t: Tree<V>)
    requires IsRBTree(t) && t.Node? && t.l.Node? && t.r.Node? && Ordered(t)
    ensures var (rest, minKey, minVal) := ExtractMin(t.r);
      && Ordered(Node(t.c, t.l, minKey, minVal, rest))
      && Elems(Node(t.c, t.l, minKey, minVal, rest)) == Elems(t) - {t.k}
  {
    var (rest, minKey, minVal) := ExtractMin(t.r);
    ExtractMinContents(t.r);
    FirstEntry(t.r, (minKey, minVal), rest);
    KeysElems(t.l);
    KeysElems(t.r);
    DropUpdatedKey(Elems(t.l), Elems(t.r), t.k, t.v);
    SingletonFirst(Elems(t.l), Elems(rest), minKey, minVal);
  }

  /** remove_helper removes exactly the binding of key and keeps BST order. */
  lemma {:induction false} RemoveHelperContents<V>(t: Tree<V>, key: int)
    requires IsRBTree(t) && Ordered(t)
    ensures Ordered(RemoveHelper(t, key))
    ensures Elems(RemoveHelper(t, key)) == Elems(t) - {key}
    decreases t
  {
    if t.Empty? {
    } else if key == t.k {
      if t.r.Empty? || t.l.Empty? {
        SpliceContents(t);
      } else {
        RBTreeChildren(t);
        var res := ExtractMin(t.r);
        var rest, minKey, minVal := res.0, res.1, res.2;
        SuccessorContents(t);
        SameInorder(RemoveHelper(t, key), Node(t.c, t.l, minKey, minVal, rest));
      }
    } else if key < t.k {
      var l' := RemoveHelper(t.l, key);
      RemoveHelperContents(t.l, key);
      SameInorder(RemoveHelper(t, key), t.(l := l'));
      KeysElems(t.l);
      KeysElems(l');
      KeysElems(t.r);
      DropBelowUpdate(Elems(t.l), Elems(t.r), t.k, t.v, key);
    } else {
      var r' := RemoveHelper(t.r, key);
      RemoveHelperContents(t.r, key);
      SameInorder(RemoveHelper(t, key), t.(r := r'));
      KeysElems(t.l);
      KeysElems(t.r);
      KeysElems(r');
      DropFromRight(Elems(t.l)[t.k := t.v], Elems(t.r), key);
    }
  }

  /** After remove(key) the tree holds every old binding except key's, is
      still a BST, satisfies every red-black invariant and has no deficiency
      left at the root. */
  lemma RemoveCorrect<V>(t: Tree<V>, key: int)
    requires Ordered(t) && IsRBTree(t)
    ensures Ordered(Remove(t, key)) && IsRBTree(Remove(t, key))
    ensures !IsDoubleBlack(Remove(t, key))
    ensures Elems(Remove(t, key)) == Elems(t) - {key}
    ensures Keys(Remove(t, key)) == Keys(t) - {key}
    ensures WellFormed(t) ==> WellFormed(Remove(t, key))
  {
    RemoveHelperContents(t, key);
    var s := RemoveHelper(t, key);
    if s.Node? {
      SameInorder(Remove(t, key), s);
    }
    KeysElems(t);
    KeysElems(Remove(t, key));
  }

  /** Removing a key that is absent changes nothing: the search falls off the
      tree and no repair fires on the way back up. */
  lemma {:induction false} RemoveHelperAbsent<V>(t: Tree<V>, key: int)
    requires IsRBTree(t) && key !in Keys(t)
    ensures RemoveHelper(t, key) == t
    decreases t
  {
    if t.Node? {
      RBTreeChildren(t);
      if key < t.k {
        RemoveHelperAbsent(t.l, key);
        assert t.(l := RemoveHelper(t.l, key)) == t;
      } else {
        RemoveHelperAbsent(t.r, key);
        assert t.(r := RemoveHelper(t.r, key)) == t;
      }
    }
  }

  lemma RemoveAbsent<V>(t: Tree<V>, key: int)
    requires IsRBTree(t) && key !in Keys(t)
    ensures Remove(t, key) == t
  {
    RemoveHelperAbsent(t, key);
  }
}
