/** The tree a set of TreeNode records encodes: the shape of the tree as a
    `Tree` of node ids, the consistency of every `_left` / `_right` slot with
    the `_parent` back-reference of the node it holds, and the lemmas showing
    that the setters, rotate() and removeFromTree() keep that encoding. */
module NodeLinks {
  import opened Wrappers
  import opened Trees
  import opened TreeNode

  function RootOf(t: Tree<NodeId>): Option<NodeId>
  {
    if t.Leaf? then None else Some(t.key)
  }

  /** The subtree `c` hangs from node `i` on side `s`: the slot names its root
      and the root's back-reference names (i, s). */
  predicate Hangs(c: Tree<NodeId>, i: NodeId, s: Side, ns: seq<NodeRec>)
    requires i < |ns|
  {
    Slot(ns[i], s) == RootOf(c) &&
    (c.Node? ==> c.key < |ns| && ns[c.key].parent == Some(ParentData(i, s)))
  }

  /** Parent consistency over the shape `t`: every node's slots name exactly its
      children in `t`, and every child's back-reference names its holder and side. */
  predicate Linked(t: Tree<NodeId>, ns: seq<NodeRec>)
  {
    match t
    case Leaf => true
    case Node(l, i, r) =>
      i < |ns| && Hangs(l, i, Left, ns) && Hangs(r, i, Right, ns) && Linked(l, ns) && Linked(r, ns)
  }

  /** The records encode the tree of shape `t`: links are consistent, no node
      occurs twice (so there is no cycle), and the root is the node without a
      parent. */
  predicate Encodes(t: Tree<NodeId>, ns: seq<NodeRec>)
  {
    Closed(ns) && t.Node? && Distinct(t) && Linked(t, ns) && t.key < |ns| && ns[t.key].parent.None?
  }

  function ValueOf(ns: seq<NodeRec>, i: NodeId): int
  {
    if i < |ns| then ns[i].value else 0
  }

  /** The values of the encoded tree, in the shape of the tree. */
  function Abs(t: Tree<NodeId>, ns: seq<NodeRec>): Tree<int>
  {
    match t
    case Leaf => Leaf
    case Node(l, i, r) => Node(Abs(l, ns), ValueOf(ns, i), Abs(r, ns))
  }

  lemma {:induction false} LinkedBounded(t: Tree<NodeId>, ns: seq<NodeRec>)
    requires Linked(t, ns)
    ensures forall i :: i in Elems(t) ==> i < |ns|
  {
    if t.Node? {
      LinkedBounded(t.left, ns);
      LinkedBounded(t.right, ns);
    }
  }

  lemma {:induction false} LinkedSub(t: Tree<NodeId>, p: seq<Side>, ns: seq<NodeRec>)
    requires Linked(t, ns) && IsPath(t, p)
    ensures Linked(Sub(t, p), ns)
  {
    if |p| > 0 {
      LinkedSub(Child(t, p[0]), p[1..], ns);
    }
  }

  /** The node at position `pre + [s]` names the node at `pre` and side `s` as its parent. */
  lemma {:induction false} ParentOf(t: Tree<NodeId>, pre: seq<Side>, s: Side, ns: seq<NodeRec>)
    requires Linked(t, ns) && IsPath(t, pre) && Sub(t, pre).Node? && Child(Sub(t, pre), s).Node?
    ensures Sub(t, pre).key < |ns| && Child(Sub(t, pre), s).key < |ns|
    ensures ns[Child(Sub(t, pre), s).key].parent == Some(ParentData(Sub(t, pre).key, s))
    ensures Slot(ns[Sub(t, pre).key], s) == Some(Child(Sub(t, pre), s).key)
  {
    if |pre| > 0 {
      ParentOf(Child(t, pre[0]), pre[1..], s, ns);
    }
  }

  /** Exactly the root of an encoded tree is without a parent. */
  lemma {:induction false} ParentlessIsRoot(t: Tree<NodeId>, ns: seq<NodeRec>, i: NodeId)
    requires Encodes(t, ns) && i in Elems(t)
    ensures i < |ns| && (ns[i].parent.None? <==> i == t.key)
  {
    LinkedBounded(t, ns);
    if i != t.key {
      var p := PathTo(t, i);
      SplitLast(t, p);
      ParentOf(t, p[..|p| - 1], p[|p| - 1], ns);
    }
  }

  /** Parent consistency of a subtree depends only on its own nodes' slots and
      on the back-references below its root. */
  lemma {:induction false} LinkedFrame(t: Tree<NodeId>, ns: seq<NodeRec>, ns': seq<NodeRec>)
    requires Linked(t, ns) && Distinct(t)
    requires forall i :: i in Elems(t) ==> SameSlots(ns, ns', i)
    requires forall i :: i in Elems(t) && RootOf(t) != Some(i) ==> SameParent(ns, ns', i)
    ensures Linked(t, ns')
  {
    match t
    case Leaf =>
    case Node(l, k, r) =>
      LinkedFrame(l, ns, ns');
      LinkedFrame(r, ns, ns');
      assert SameSlots(ns, ns', k);
  }

  /** Replacing the subtree at `p` by a consistently linked subtree with the
      same root keeps the whole tree consistent, provided nothing outside the
      replaced subtree changed. */
  lemma {:induction false} LinkedReplace(t: Tree<NodeId>, p: seq<Side>, x: Tree<NodeId>, ns: seq<NodeRec>, ns': seq<NodeRec>)
    requires Linked(t, ns) && Distinct(t) && IsPath(t, p) && Sub(t, p).Node?
    requires x.Node? && x.key == Sub(t, p).key && Linked(x, ns')
    requires forall i :: i in Elems(t) && i !in Elems(Sub(t, p)) ==> SameSlots(ns, ns', i) && SameParent(ns, ns', i)
    requires SameParent(ns, ns', x.key)
    ensures Linked(ReplaceAt(t, p, x), ns')
    ensures RootOf(ReplaceAt(t, p, x)) == RootOf(t)
  {
    if |p| > 0 {
      var c := Child(t, p[0]);
      var w := Child(t, Opposite(p[0]));
      SubElems(t, p);
      SubElems(c, p[1..]);
      LinkedReplace(c, p[1..], x, ns, ns');
      LinkedFrame(w, ns, ns');
      assert SameSlots(ns, ns', t.key) && SameParent(ns, ns', t.key);
      if |p| > 1 {
        assert c.key !in Elems(Sub(t, p));
      }
      assert SameParent(ns, ns', c.key);
    }
  }

  /** The four roles of a rotation inside a tree are four different nodes. */
  lemma RolesInTree(t: Tree<NodeId>, side: Side, ns: seq<NodeRec>)
    requires Closed(ns) && Linked(t, ns) && Distinct(t) && t.Node? && Child(t, side).Node?
    requires ns[t.key].parent.Some? ==> ns[t.key].parent.value.node !in Elems(t)
    ensures t.key < |ns| && Child(t, side).key < |ns|
    ensures RotationRoles(ns, Child(t, side).key, t.key, side, RootOf(Child(Child(t, side), Opposite(side))))
  {
    var pivot := Child(t, side);
    var b := Child(pivot, Opposite(side));
    assert Linked(pivot, ns);
    RotateRootParts(t, side);
    assert b.Node? ==> b.key in Elems(b);
  }

  /** The rotation itself, on the subtree rooted at the old parent `t`: records
      changed as rotate() changes them link the rotated subtree consistently. */
  lemma LinkedRotateRoot(t: Tree<NodeId>, side: Side, ns: seq<NodeRec>, ns': seq<NodeRec>)
    requires Closed(ns) && Linked(t, ns) && Distinct(t) && t.Node? && Child(t, side).Node?
    requires ns[t.key].parent.Some? ==> ns[t.key].parent.value.node !in Elems(t)
    requires RotationEffect(ns, ns', Child(t, side).key, t.key, side, RootOf(Child(Child(t, side), Opposite(side))))
    ensures Linked(RotateRoot(t, side), ns')
  {
    var pivot := Child(t, side);
    var opp := Opposite(side);
    var a, b, c := Child(pivot, side), Child(pivot, opp), Child(t, opp);
    assert Linked(pivot, ns);
    RotateRootParts(t, side);
    RotationFrame(ns, ns', pivot.key, t.key, side, RootOf(b), a);
    RotationFrame(ns, ns', pivot.key, t.key, side, RootOf(b), b);
    RotationFrame(ns, ns', pivot.key, t.key, side, RootOf(b), c);
    RotatedHangs(t, side, ns, ns');
    LinkedRotateRootShape(t, side, ns');
  }

  /** A subtree that holds none of the pivot, old parent and grandparent, and
      whose only node with a new back-reference is its root, stays linked. */
  lemma RotationFrame(ns: seq<NodeRec>, ns': seq<NodeRec>, pivot: NodeId, root: NodeId, side: Side,
                      displaced: Option<NodeId>, u: Tree<NodeId>)
    requires RotationEffect(ns, ns', pivot, root, side, displaced)
    requires Linked(u, ns) && Distinct(u)
    requires pivot !in Elems(u) && root !in Elems(u)
    requires ns[root].parent.Some? ==> ns[root].parent.value.node !in Elems(u)
    requires displaced == RootOf(u) || displaced.None? || displaced.value !in Elems(u)
    ensures Linked(u, ns')
  {
    LinkedBounded(u, ns);
    LinkedFrame(u, ns, ns');
  }

  /** The pivot holds the old parent, which holds the displaced subtree, and the
      two outer subtrees keep their holders. */
  lemma RotatedHangs(t: Tree<NodeId>, side: Side, ns: seq<NodeRec>, ns': seq<NodeRec>)
    requires Closed(ns) && Linked(t, ns) && Distinct(t) && t.Node? && Child(t, side).Node?
    requires ns[t.key].parent.Some? ==> ns[t.key].parent.value.node !in Elems(t)
    requires RotationEffect(ns, ns', Child(t, side).key, t.key, side, RootOf(Child(Child(t, side), Opposite(side))))
    ensures var pivot, opp := Child(t, side), Opposite(side);
      Hangs(Child(pivot, side), pivot.key, side, ns') &&
      Hangs(Child(pivot, opp), t.key, side, ns') &&
      Hangs(Child(t, opp), t.key, opp, ns') &&
      Slot(ns'[pivot.key], opp) == Some(t.key) &&
      ns'[t.key].parent == Some(ParentData(pivot.key, opp))
  {
    var pivot := Child(t, side);
    var opp := Opposite(side);
    var a, b, c := Child(pivot, side), Child(pivot, opp), Child(t, opp);
    assert Linked(pivot, ns);
    RotateRootParts(t, side);
    assert a.Node? ==> a.key in Elems(a);
    assert c.Node? ==> c.key in Elems(c);
  }

  lemma RotateRootParts<T>(t: Tree<T>, side: Side)
    requires Distinct(t) && t.Node? && Child(t, side).Node?
    ensures var pivot := Child(t, side);
      var a, b, c := Child(pivot, side), Child(pivot, Opposite(side)), Child(t, Opposite(side));
      Elems(t) == Elems(a) + Elems(b) + Elems(c) + {pivot.key, t.key} &&
      pivot.key != t.key &&
      pivot.key !in Elems(a) + Elems(b) + Elems(c) && t.key !in Elems(a) + Elems(b) + Elems(c) &&
      Elems(a) !! Elems(b) && Elems(a) !! Elems(c) && Elems(b) !! Elems(c) &&
      Distinct(a) && Distinct(b) && Distinct(c)
  {
    if side == Left {
      var Node(Node(a, x, b), y, c) := t;
      assert Distinct(t.left);
    } else {
      var Node(c, y, Node(a, x, b)) := t;
      assert Distinct(t.right);
    }
  }

  /** The rotated subtree is linked once its two moved nodes are. */
  lemma LinkedRotateRootShape(t: Tree<NodeId>, side: Side, ns': seq<NodeRec>)
    requires t.Node? && Child(t, side).Node?
    requires t.key < |ns'| && Child(t, side).key < |ns'|
    requires Linked(Child(Child(t, side), side), ns') && Linked(Child(Child(t, side), Opposite(side)), ns')
    requires Linked(Child(t, Opposite(side)), ns')
    requires Hangs(Child(Child(t, side), side), Child(t, side).key, side, ns')
    requires Hangs(Child(Child(t, side), Opposite(side)), t.key, side, ns')
    requires Hangs(Child(t, Opposite(side)), t.key, Opposite(side), ns')
    requires Slot(ns'[Child(t, side).key], Opposite(side)) == Some(t.key)
    requires ns'[t.key].parent == Some(ParentData(Child(t, side).key, Opposite(side)))
    ensures Linked(RotateRoot(t, side), ns')
  {
    if side == Left {
      var Node(Node(a, x, b), y, c) := t;
      assert RotateRoot(t, side) == Node(a, x, Node(b, y, c));
    } else {
      var Node(c, y, Node(a, x, b)) := t;
      assert RotateRoot(t, side) == Node(Node(c, y, a), x, b);
    }
  }

  /** rotate() keeps the records encoding a tree: the tree with the pivot
      rotated above its old parent, whose root is the pivot exactly when the
      old parent was the root. */
  lemma RotateKeepsEncoding(t: Tree<NodeId>, ns: seq<NodeRec>, pre: seq<Side>, s: Side)
    requires Encodes(t, ns) && IsPath(t, pre) && Sub(t, pre).Node? && Child(Sub(t, pre), s).Node?
    ensures Child(Sub(t, pre), s).key < |ns|
    ensures ns[Child(Sub(t, pre), s).key].parent == Some(ParentData(Sub(t, pre).key, s))
    ensures Encodes(RotateAt(t, pre, s), Rotated(ns, Child(Sub(t, pre), s).key))
    ensures RootOf(RotateAt(t, pre, s)) == if pre == [] then RootOf(Child(Sub(t, pre), s)) else RootOf(t)
  {
    ParentOf(t, pre, s, ns);
    if pre == [] {
      RotateTopKeepsEncoding(t, ns, s);
    } else {
      var pre', gs := pre[..|pre| - 1], pre[|pre| - 1];
      SplitLast(t, pre);
      ReplaceSnoc(t, pre', gs, RotateRoot(Sub(t, pre), s));
      RotateInnerKeepsEncoding(t, ns, pre', gs, s);
    }
  }

  /** Rotating a child of the root: the pivot becomes the root. */
  lemma RotateTopKeepsEncoding(t: Tree<NodeId>, ns: seq<NodeRec>, s: Side)
    requires Encodes(t, ns) && Child(t, s).Node?
    ensures Child(t, s).key < |ns| && ns[Child(t, s).key].parent == Some(ParentData(t.key, s))
    ensures Encodes(RotateRoot(t, s), Rotated(ns, Child(t, s).key))
    ensures RootOf(RotateRoot(t, s)) == RootOf(Child(t, s))
  {
    var b := Child(Child(t, s), Opposite(s));
    RolesInTree(t, s, ns);
    RotatedFields(ns, Child(t, s).key, t.key, s, RootOf(b));
    LinkedRotateRoot(t, s, ns, Rotated(ns, Child(t, s).key));
    RotateRootInOrder(t, s);
  }

  /** Rotating deeper: the grandparent's slot now holds the pivot and the rest
      of the tree is untouched. */
  lemma RotateInnerKeepsEncoding(t: Tree<NodeId>, ns: seq<NodeRec>, pre: seq<Side>, gs: Side, s: Side)
    requires Encodes(t, ns) && IsPath(t, pre) && Sub(t, pre).Node?
    requires Child(Sub(t, pre), gs).Node? && Child(Child(Sub(t, pre), gs), s).Node?
    ensures Child(Child(Sub(t, pre), gs), s).key < |ns|
    ensures ns[Child(Child(Sub(t, pre), gs), s).key].parent == Some(ParentData(Child(Sub(t, pre), gs).key, s))
    ensures var G := Sub(t, pre); var X := WithChild(G, gs, RotateRoot(Child(G, gs), s));
      Encodes(ReplaceAt(t, pre, X), Rotated(ns, Child(Child(G, gs), s).key)) &&
      RootOf(ReplaceAt(t, pre, X)) == RootOf(t)
  {
    var G := Sub(t, pre);
    var S := Child(G, gs);
    var v := Child(S, s).key;
    var b := Child(Child(S, s), Opposite(s));
    LinkedSub(t, pre, ns);
    DistinctSub(t, pre);
    LinkedBounded(t, ns);
    SubElems(t, pre);
    ParentOf(t, pre, gs, ns);
    assert Linked(S, ns) && Distinct(S) && G.key !in Elems(S);
    RolesInTree(S, s, ns);
    RotatedFields(ns, v, S.key, s, RootOf(b));
    var ns' := Rotated(ns, v);
    GrandparentKeepsLink(G, gs, s, ns, ns', Elems(t) - Elems(G));
    var X := WithChild(G, gs, RotateRoot(S, s));
    RotateRootParts(S, s);
    RotateRootInOrder(S, s);
    ReplaceElems(t, pre, X);
    LinkedReplace(t, pre, X, ns, ns');
    if pre != [] {
      assert t.key !in Elems(G);
    }
  }

  /** The subtree at the grandparent, with the rotation done below it, is
      linked afterwards, and nodes outside it keep their records. */
  lemma GrandparentKeepsLink(G: Tree<NodeId>, gs: Side, s: Side, ns: seq<NodeRec>, ns': seq<NodeRec>, others: set<NodeId>)
    requires Closed(ns) && Linked(G, ns) && Distinct(G) && G.Node?
    requires Child(G, gs).Node? && Child(Child(G, gs), s).Node?
    requires others !! Elems(G) && forall i :: i in others ==> i < |ns|
    requires var S := Child(G, gs);
      RotationEffect(ns, ns', Child(S, s).key, S.key, s, RootOf(Child(Child(S, s), Opposite(s))))
    ensures Linked(WithChild(G, gs, RotateRoot(Child(G, gs), s)), ns')
    ensures SameParent(ns, ns', G.key)
    ensures forall i :: i in others ==> SameSlots(ns, ns', i) && SameParent(ns, ns', i)
  {
    var S := Child(G, gs);
    var w := Child(G, Opposite(gs));
    var v := Child(S, s).key;
    var b := Child(Child(S, s), Opposite(s));
    assert Linked(S, ns) && Linked(Child(S, s), ns);
    assert Distinct(S) && Elems(S) !! Elems(w) && G.key !in Elems(S) && G.key !in Elems(w);
    LinkedBounded(G, ns);
    RotateRootParts(S, s);
    RotateRootInOrder(S, s);
    LinkedRotateRoot(S, s, ns, ns');
    assert RootOf(b) == None || b.key in Elems(S);
    RotationFrame(ns, ns', v, S.key, s, RootOf(b), w);
    assert w.Node? ==> w.key in Elems(w);
  }

  // ---------------------------------------------------------------------------
  // The values of the encoded tree

  /** Only the values of the tree's own nodes matter to its value view. */
  lemma {:induction false} AbsAgree(t: Tree<NodeId>, ns: seq<NodeRec>, ns': seq<NodeRec>)
    requires forall i :: i in Elems(t) ==> ValueOf(ns, i) == ValueOf(ns', i)
    ensures Abs(t, ns') == Abs(t, ns)
  {
    if t.Node? {
      AbsAgree(t.left, ns, ns');
      AbsAgree(t.right, ns, ns');
    }
  }

  /** Positions of the shape are positions of the value view, with the same subtrees. */
  lemma {:induction false} AbsSub(t: Tree<NodeId>, ns: seq<NodeRec>, p: seq<Side>)
    requires IsPath(t, p)
    ensures IsPath(Abs(t, ns), p) && Sub(Abs(t, ns), p) == Abs(Sub(t, p), ns)
  {
    if |p| > 0 {
      AbsSub(Child(t, p[0]), ns, p[1..]);
    }
  }

  /** Replacing a subtree of the shape replaces the same subtree of the value view. */
  lemma {:induction false} AbsReplace(t: Tree<NodeId>, ns: seq<NodeRec>, p: seq<Side>, x: Tree<NodeId>)
    requires IsPath(t, p)
    ensures IsPath(Abs(t, ns), p)
    ensures Abs(ReplaceAt(t, p, x), ns) == ReplaceAt(Abs(t, ns), p, Abs(x, ns))
  {
    AbsSub(t, ns, p);
    if |p| > 0 {
      AbsReplace(Child(t, p[0]), ns, p[1..], x);
    }
  }

  /** Rotating the shape rotates the value view at the same position. */
  lemma AbsRotate(t: Tree<NodeId>, ns: seq<NodeRec>, pre: seq<Side>, s: Side)
    requires IsPath(t, pre) && Sub(t, pre).Node? && Child(Sub(t, pre), s).Node?
    ensures IsPath(Abs(t, ns), pre) && Sub(Abs(t, ns), pre).Node? && Child(Sub(Abs(t, ns), pre), s).Node?
    ensures Abs(RotateAt(t, pre, s), ns) == RotateAt(Abs(t, ns), pre, s)
  {
    var S := Sub(t, pre);
    AbsSub(t, ns, pre);
    AbsReplace(t, ns, pre, RotateRoot(S, s));
    if s == Left {
      var Node(Node(a, x, b), y, c) := S;
      assert RotateRoot(S, s) == Node(a, x, Node(b, y, c));
    } else {
      var Node(c, y, Node(a, x, b)) := S;
      assert RotateRoot(S, s) == Node(Node(c, y, a), x, b);
    }
  }

  // ---------------------------------------------------------------------------
  // New nodes, insertion and removal

  /** A new, unlinked record (the constructor `new TreeNode(value)`) changes
      neither the encoding nor the values of the tree. */
  lemma NewNodeKeepsEncoding(t: Tree<NodeId>, ns: seq<NodeRec>, value: int)
    requires Encodes(t, ns)
    ensures |ns| !in Elems(t)
    ensures Encodes(t, ns + [NodeRec(value, None, None, None)])
    ensures Abs(t, ns + [NodeRec(value, None, None, None)]) == Abs(t, ns)
  {
    var ns' := ns + [NodeRec(value, None, None, None)];
    LinkedBounded(t, ns);
    assert forall i :: i in Elems(t) ==> ns'[i] == ns[i];
    LinkedFrame(t, ns, ns');
    AbsAgree(t, ns, ns');
  }

  /** A node with no links on its own encodes the one-node tree. */
  lemma SingleNodeEncodes(ns: seq<NodeRec>, n: NodeId)
    requires Closed(ns) && n < |ns| && ns[n].left.None? && ns[n].right.None? && ns[n].parent.None?
    ensures Encodes(Node(Leaf, n, Leaf), ns)
    ensures Abs(Node(Leaf, n, Leaf), ns) == Node(Leaf, ns[n].value, Leaf)
    ensures InOrder(Abs(Node(Leaf, n, Leaf), ns)) == [ns[n].value]
  {
    assert Elems<NodeId>(Leaf) == {};
  }

  /** Setting slot `s` of the node at `pre` to an empty subtree or to a node not
      in the tree and without children (the `left` / `right` setters) keeps the
      records encoding the tree with that slot replaced; whatever the slot held
      before leaves the tree. */
  lemma SetChildKeepsEncoding(t: Tree<NodeId>, ns: seq<NodeRec>, pre: seq<Side>, s: Side, y: Tree<NodeId>)
    requires Encodes(t, ns) && IsPath(t, pre) && Sub(t, pre).Node?
    requires y.Node? ==>
      y.left.Leaf? && y.right.Leaf? && y.key < |ns| && y.key !in Elems(t) &&
      ns[y.key].left.None? && ns[y.key].right.None?
    ensures Sub(t, pre).key < |ns| && IsPath(t, pre + [s])
    ensures Encodes(ReplaceAt(t, pre + [s], y), Attach(ns, Sub(t, pre).key, s, RootOf(y)))
    ensures RootOf(ReplaceAt(t, pre + [s], y)) == RootOf(t)
  {
    var S := Sub(t, pre);
    LinkedSub(t, pre, ns);
    DistinctSub(t, pre);
    LinkedBounded(t, ns);
    SubElems(t, pre);
    ReplaceSnoc(t, pre, s, y);
    var ns' := Attach(ns, S.key, s, RootOf(y));
    var X := WithChild(S, s, y);
    SetChildLinked(S, s, y, ns, Elems(t));
    ReplaceElems(t, pre, X);
    LinkedReplace(t, pre, X, ns, ns');
  }

  /** The setters change no value, so the value view of the new shape is the
      old value view with the slot replaced. */
  lemma SetChildValues(t: Tree<NodeId>, ns: seq<NodeRec>, pre: seq<Side>, s: Side, y: Tree<NodeId>)
    requires IsPath(t, pre) && Sub(t, pre).Node? && Sub(t, pre).key < |ns| && RefOk(RootOf(y), |ns|)
    ensures IsPath(t, pre + [s]) && IsPath(Abs(t, ns), pre + [s])
    ensures Abs(ReplaceAt(t, pre + [s], y), Attach(ns, Sub(t, pre).key, s, RootOf(y))) ==
      ReplaceAt(Abs(t, ns), pre + [s], Abs(y, ns))
  {
    SubSnoc(t, pre, s);
    var ns' := Attach(ns, Sub(t, pre).key, s, RootOf(y));
    AbsAgree(ReplaceAt(t, pre + [s], y), ns, ns');
    AbsReplace(t, ns, pre + [s], y);
  }

  /** The subtree at the holder, with slot `s` set, is linked afterwards and
      nodes other than the holder and the new child keep their records. */
  lemma SetChildLinked(S: Tree<NodeId>, s: Side, y: Tree<NodeId>, ns: seq<NodeRec>, nodes: set<NodeId>)
    requires Closed(ns) && Linked(S, ns) && Distinct(S) && S.Node? && Elems(S) <= nodes
    requires forall i :: i in nodes ==> i < |ns|
    requires y.Node? ==>
      y.left.Leaf? && y.right.Leaf? && y.key < |ns| && y.key !in nodes &&
      ns[y.key].left.None? && ns[y.key].right.None?
    ensures S.key < |ns|
    ensures var ns' := Attach(ns, S.key, s, RootOf(y));
      Linked(WithChild(S, s, y), ns') && Distinct(WithChild(S, s, y)) &&
      SameParent(ns, ns', S.key) &&
      (forall i :: i in nodes && i != S.key ==> SameSlots(ns, ns', i) && SameParent(ns, ns', i))
  {
    var ns' := Attach(ns, S.key, s, RootOf(y));
    var w := Child(S, Opposite(s));
    assert Distinct(w) && S.key !in Elems(w) && Elems(w) <= Elems(S);
    LinkedFrame(w, ns, ns');
    assert w.Node? ==> w.key in Elems(w);
    assert Linked(y, ns');
    if s == Left {
      assert WithChild(S, s, y) == Node(y, S.key, w);
    } else {
      assert WithChild(S, s, y) == Node(w, S.key, y);
    }
  }

  /** removeFromTree() on the node at position `p` (not the root) cuts its whole
      subtree out of the tree: the records then encode the tree with an empty
      slot there, and the value view loses exactly that subtree. */
  lemma RemoveKeepsEncoding(t: Tree<NodeId>, ns: seq<NodeRec>, p: seq<Side>)
    requires Encodes(t, ns) && IsPath(t, p) && |p| > 0 && Sub(t, p).Node?
    ensures Sub(t, p).key < |ns| && ns[Sub(t, p).key].parent.Some?
    ensures ns[Sub(t, p).key].parent.value.node < |ns|
    ensures var ParentData(q, s) := ns[Sub(t, p).key].parent.value;
      var ns' := Attach(ns, q, s, None);
      Encodes(ReplaceAt(t, p, Leaf), ns') &&
      RootOf(ReplaceAt(t, p, Leaf)) == RootOf(t) &&
      IsPath(Abs(t, ns), p) && Abs(ReplaceAt(t, p, Leaf), ns') == ReplaceAt(Abs(t, ns), p, Leaf)
  {
    var pre, s := p[..|p| - 1], p[|p| - 1];
    SplitLast(t, p);
    ParentOf(t, pre, s, ns);
    SetChildKeepsEncoding(t, ns, pre, s, Leaf);
    SetChildValues(t, ns, pre, s, Leaf);
  }

  /** After rotate() the value view is the old value view rotated at the same
      position. */
  lemma RotateValues(t: Tree<NodeId>, ns: seq<NodeRec>, pre: seq<Side>, s: Side)
    requires Encodes(t, ns) && IsPath(t, pre) && Sub(t, pre).Node? && Child(Sub(t, pre), s).Node?
    ensures Child(Sub(t, pre), s).key < |ns| && ns[Child(Sub(t, pre), s).key].parent.Some?
    ensures IsPath(Abs(t, ns), pre) && Sub(Abs(t, ns), pre).Node? && Child(Sub(Abs(t, ns), pre), s).Node?
    ensures Abs(RotateAt(t, pre, s), Rotated(ns, Child(Sub(t, pre), s).key)) == RotateAt(Abs(t, ns), pre, s)
  {
    ParentOf(t, pre, s, ns);
    var ns' := Rotated(ns, Child(Sub(t, pre), s).key);
    RotatedValues(ns, Child(Sub(t, pre), s).key);
    AbsAgree(RotateAt(t, pre, s), ns, ns');
    AbsRotate(t, ns, pre, s);
  }
}
