/** The in-order sequence of a subtree determines its key set, its map and
    whether it is ordered; every repair step of the algorithm preserves the
    in-order sequence, so these facts carry the content proofs. */
module Contents {
  import opened Trees

  /** The map built by reading the pairs left to right. */
  ghost function ToMap<V>(s: seq<(int, V)>): map<int, V>
    decreases |s|
  {
    if |s| == 0 then map[] else ToMap(s[..|s| - 1])[s[|s| - 1].0 := s[|s| - 1].1]
  }

  ghost function KeysOf<V>(s: seq<(int, V)>): set<int>
  {
    set i | 0 <= i < |s| :: s[i].0
  }

  /** The sequence with every pair keyed k rebound to v, in place. */
  ghost function Rebind<V>(s: seq<(int, V)>, k: int, v: V): seq<(int, V)>
  {
    seq(|s|, i requires 0 <= i < |s| => if s[i].0 == k then (k, v) else s[i])
  }

  lemma RebindConcat<V>(a: seq<(int, V)>, e: (int, V), b: seq<(int, V)>, k: int, v: V)
    ensures Rebind(a + [e] + b, k, v) == Rebind(a, k, v) + Rebind([e], k, v) + Rebind(b, k, v)
  {
    var lhs, rhs := Rebind(a + [e] + b, k, v), Rebind(a, k, v) + Rebind([e], k, v) + Rebind(b, k, v);
    assert |lhs| == |rhs|;
    forall i | 0 <= i < |lhs|
      ensures lhs[i] == rhs[i]
    {
      if i < |a| {
      } else if i == |a| {
      } else {
        assert lhs[i] == Rebind(b, k, v)[i - |a| - 1];
      }
    }
  }

  lemma RebindAbsent<V>(s: seq<(int, V)>, k: int, v: V)
    requires k !in KeysOf(s)
    ensures Rebind(s, k, v) == s
  {
    forall i | 0 <= i < |s|
      ensures Rebind(s, k, v)[i] == s[i]
    {
      assert s[i].0 in KeysOf(s);
    }
  }

  /** Keys strictly increase along the sequence. */
  ghost predicate Increasing<V>(s: seq<(int, V)>)
  {
    forall i, j | 0 <= i < j < |s| :: s[i].0 < s[j].0
  }

  lemma {:induction false} ToMapAppend<V>(a: seq<(int, V)>, b: seq<(int, V)>)
    ensures ToMap(a + b) == ToMap(a) + ToMap(b)
    decreases |b|
  {
    if |b| == 0 {
      assert a + b == a;
    } else {
      var b' := b[..|b| - 1];
      assert (a + b)[..|a + b| - 1] == a + b';
      ToMapAppend(a, b');
    }
  }

  lemma {:induction false} ElemsInorder<V>(t: Tree<V>)
    ensures Elems(t) == ToMap(Inorder(t))
  {
    match t
    case Node(_, l, k, v, r) =>
      ElemsInorder(l);
      ElemsInorder(r);
      ToMapAppend(Inorder(l) + [(k, v)], Inorder(r));
      ToMapAppend(Inorder(l), [(k, v)]);
      assert [(k, v)][..0] == [];
    case _ =>
  }

  lemma {:induction false} KeysElems<V>(t: Tree<V>)
    ensures Keys(t) == Elems(t).Keys
  {
    match t
    case Node(_, l, k, v, r) =>
      KeysElems(l);
      KeysElems(r);
    case _ =>
  }

  lemma {:induction false} KeysInorder<V>(t: Tree<V>)
    ensures Keys(t) == KeysOf(Inorder(t))
  {
    match t
    case Node(_, l, k, v, r) =>
      KeysInorder(l);
      KeysInorder(r);
      var a, b := Inorder(l), Inorder(r);
      var s := a + [(k, v)] + b;
      forall x | x in KeysOf(s)
        ensures x in KeysOf(a) + {k} + KeysOf(b)
      {
        var i :| 0 <= i < |s| && s[i].0 == x;
        if i < |a| {
          assert a[i] == s[i];
        } else if i > |a| {
          assert b[i - |a| - 1] == s[i];
        }
      }
      forall x | x in KeysOf(a) + {k} + KeysOf(b)
        ensures x in KeysOf(s)
      {
        if x in KeysOf(a) {
          var i :| 0 <= i < |a| && a[i].0 == x;
          assert s[i] == a[i];
        } else if x == k {
          assert s[|a|] == (k, v);
        } else {
          var i :| 0 <= i < |b| && b[i].0 == x;
          assert s[|a| + 1 + i] == b[i];
        }
      }
    case _ =>
  }

  /** Ordering of a concatenation around one middle entry. */
  lemma IncreasingConcat<V>(a: seq<(int, V)>, e: (int, V), b: seq<(int, V)>)
    ensures Increasing(a + [e] + b) <==>
              && Increasing(a)
              && Increasing(b)
              && (forall x | x in KeysOf(a) :: x < e.0)
              && (forall x | x in KeysOf(b) :: e.0 < x)
  {
    var s := a + [e] + b;
    if Increasing(s) {
      forall i, j | 0 <= i < j < |a| ensures a[i].0 < a[j].0 {
        assert s[i] == a[i] && s[j] == a[j];
      }
      forall i, j | 0 <= i < j < |b| ensures b[i].0 < b[j].0 {
        assert s[|a| + 1 + i] == b[i] && s[|a| + 1 + j] == b[j];
      }
      forall x | x in KeysOf(a) ensures x < e.0 {
        var i :| 0 <= i < |a| && a[i].0 == x;
        assert s[i] == a[i] && s[|a|] == e;
      }
      forall x | x in KeysOf(b) ensures e.0 < x {
        var i :| 0 <= i < |b| && b[i].0 == x;
        assert s[|a| + 1 + i] == b[i] && s[|a|] == e;
      }
    }
    if && Increasing(a) && Increasing(b)
       && (forall x | x in KeysOf(a) :: x < e.0)
       && (forall x | x in KeysOf(b) :: e.0 < x)
    {
      forall i, j | 0 <= i < j < |s| ensures s[i].0 < s[j].0 {
        if j < |a| {
          assert s[i] == a[i] && s[j] == a[j];
        } else if i > |a| {
          assert s[i] == b[i - |a| - 1] && s[j] == b[j - |a| - 1];
        } else {
          if i < |a| {
            assert s[i] == a[i] && s[i].0 in KeysOf(a);
          }
          if j > |a| {
            assert s[j] == b[j - |a| - 1] && s[j].0 in KeysOf(b);
          }
        }
      }
    }
  }

  /** The recursive BST ordering is exactly "in-order keys increase". */
  lemma {:induction false} OrderedIncreasing<V>(t: Tree<V>)
    ensures Ordered(t) <==> Increasing(Inorder(t))
  {
    match t
    case Node(_, l, k, v, r) =>
      OrderedIncreasing(l);
      OrderedIncreasing(r);
      KeysInorder(l);
      KeysInorder(r);
      IncreasingConcat(Inorder(l), (k, v), Inorder(r));
    case _ =>
  }

  /** Two subtrees with the same in-order sequence hold the same keys, the
      same map, and are ordered alike. */
  lemma SameInorder<V>(a: Tree<V>, b: Tree<V>)
    requires Inorder(a) == Inorder(b)
    ensures Keys(a) == Keys(b)
    ensures Elems(a) == Elems(b)
    ensures Ordered(a) <==> Ordered(b)
  {
    KeysInorder(a);
    KeysInorder(b);
    ElemsInorder(a);
    ElemsInorder(b);
    OrderedIncreasing(a);
    OrderedIncreasing(b);
  }

  /** Updating a key the right-hand map does not hold commutes with the merge. */
  lemma UpdateLeftOfMerge<V>(a: map<int, V>, b: map<int, V>, x: int, y: V)
    requires x !in b
    ensures (a + b)[x := y] == a[x := y] + b
  {
  }

  /** Updating after a merge is updating the right-hand map. */
  lemma UpdateRightOfMerge<V>(a: map<int, V>, b: map<int, V>, x: int, y: V)
    ensures (a + b)[x := y] == a + b[x := y]
  {
  }

  /** Updates of two different keys commute. */
  lemma UpdatesCommute<V>(a: map<int, V>, x: int, vx: V, y: int, vy: V)
    requires x != y
    ensures a[x := vx][y := vy] == a[y := vy][x := vx]
  {
  }

  /** Dropping a key that only the updated entry holds. */
  lemma DropUpdatedKey<V>(a: map<int, V>, b: map<int, V>, x: int, y: V)
    requires x !in a && x !in b
    ensures (a[x := y] + b) - {x} == a + b
  {
  }

  /** Dropping a key below an update of another key. */
  lemma DropBelowUpdate<V>(a: map<int, V>, b: map<int, V>, x: int, y: V, key: int)
    requires key != x && key !in b
    ensures (a[x := y] + b) - {key} == (a - {key})[x := y] + b
  {
  }

  /** Dropping a key held only by the right-hand map. */
  lemma DropFromRight<V>(a: map<int, V>, b: map<int, V>, key: int)
    requires key !in a
    ensures (a + b) - {key} == a + (b - {key})
  {
  }

  /** A singleton in front of a map is an update of the left-hand side. */
  lemma SingletonFirst<V>(a: map<int, V>, b: map<int, V>, x: int, y: V)
    ensures a + (map[x := y] + b) == a[x := y] + b
  {
  }

  /** A tree whose in-order sequence is e followed by that of t2. */
  lemma FirstEntry<V>(t1: Tree<V>, e: (int, V), t2: Tree<V>)
    requires Inorder(t1) == [e] + Inorder(t2)
    ensures Keys(t1) == {e.0} + Keys(t2)
    ensures Elems(t1) == map[e.0 := e.1] + Elems(t2)
    ensures Ordered(t1) <==> Ordered(t2) && forall x | x in Keys(t2) :: e.0 < x
  {
    var s2 := Inorder(t2);
    assert [e] + s2 == [] + [e] + s2;
    KeysInorder(t1);
    KeysInorder(t2);
    ElemsInorder(t1);
    ElemsInorder(t2);
    OrderedIncreasing(t1);
    OrderedIncreasing(t2);
    IncreasingConcat([], e, s2);
    ToMapAppend([e], s2);
    assert [e][..0] == [];
    forall x | x in KeysOf([e] + s2)
      ensures x in {e.0} + KeysOf(s2)
    {
      var i :| 0 <= i < |[e] + s2| && ([e] + s2)[i].0 == x;
      if i > 0 {
        assert ([e] + s2)[i] == s2[i - 1];
      }
    }
    forall x | x in {e.0} + KeysOf(s2)
      ensures x in KeysOf([e] + s2)
    {
      if x == e.0 {
        assert ([e] + s2)[0] == e;
      } else {
        var i :| 0 <= i < |s2| && s2[i].0 == x;
        assert ([e] + s2)[i + 1] == s2[i];
      }
    }
  }

  /** A binding placed in front of a map that lacks its key. */
  lemma SingletonFront<V>(m: map<int, V>, x: int, y: V)
    requires x !in m
    ensures x in map[x := y] + m && (map[x := y] + m)[x] == y
    ensures (map[x := y] + m) - {x} == m
  {
  }
}
