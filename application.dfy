/** The tree logic of the Application driver: building the starting tree,
    unbalanced insertion, the click that rotates a node, and validation. The
    canvas, the DOM and the random draws are not part of this model; the
    values to insert and the node under the mouse are parameters. */
module Application {
  import opened Wrappers
  import opened Trees
  import opened SearchTrees
  import opened TreeNode
  import opened NodeLinks

  /** What validateNode throws: the value of the node whose child on `side`
      is out of order. */
  datatype Violation = Violation(value: int, side: Side)

  /** validateNode, following the links of the records from `node`; the shape
      `t` those links encode only bounds the recursion. Checks the left child,
      then the left subtree, then the right child, then the right subtree. */
  function ValidateNode(ns: seq<NodeRec>, node: NodeId, ghost t: Tree<NodeId>): (r: Result<(), Violation>)
    requires Linked(t, ns) && t.Node? && t.key == node
    ensures r.Failure? ==> r.error.value in Elems(Abs(t, ns))
    decreases t
  {
    var n := ns[node];
    if n.left.Some? && ns[n.left.value].value > n.value then
      Failure(Violation(n.value, Left))
    else
      var l := if n.left.Some? then ValidateNode(ns, n.left.value, t.left) else Success(());
      if l.Failure? then l
      else if n.right.Some? && ns[n.right.value].value < n.value then
        Failure(Violation(n.value, Right))
      else if n.right.Some? then ValidateNode(ns, n.right.value, t.right)
      else Success(())
  }

  /** validateNode succeeds exactly when every node passes the check with both
      its direct children. */
  lemma {:induction false} ValidateNodeCorrect(t: Tree<NodeId>, ns: seq<NodeRec>)
    requires Linked(t, ns) && t.Node?
    ensures ValidateNode(ns, t.key, t).Success? <==> PairsOrdered(Abs(t, ns))
  {
    PairsOrderedNode(Abs(t, ns));
    ChecksAreViolations(t, ns);
    if t.left.Node? {
      ValidateNodeCorrect(t.left, ns);
    }
    if t.right.Node? {
      ValidateNodeCorrect(t.right, ns);
    }
  }

  /** The two comparisons validateNode makes at a node are the two ways its
      children can break the check. */
  lemma ChecksAreViolations(t: Tree<NodeId>, ns: seq<NodeRec>)
    requires Linked(t, ns) && t.Node?
    ensures var n := ns[t.key];
      Abs(t, ns).Node? &&
      (Violates(Abs(t, ns), Left) <==> n.left.Some? && ns[n.left.value].value > n.value) &&
      (Violates(Abs(t, ns), Right) <==> n.right.Some? && ns[n.right.value].value < n.value)
  {
  }

  /** A failure names a node of the tree and a side on which its child breaks
      the check. */
  lemma {:induction false} ValidateNodeReports(t: Tree<NodeId>, ns: seq<NodeRec>) returns (p: seq<Side>)
    requires Linked(t, ns) && t.Node? && ValidateNode(ns, t.key, t).Failure?
    ensures IsPath(Abs(t, ns), p) && Sub(Abs(t, ns), p).Node?
    ensures Sub(Abs(t, ns), p).key == ValidateNode(ns, t.key, t).error.value
    ensures Violates(Sub(Abs(t, ns), p), ValidateNode(ns, t.key, t).error.side)
  {
    var n := ns[t.key];
    if n.left.Some? && ns[n.left.value].value > n.value {
      p := [];
    } else if n.left.Some? && ValidateNode(ns, n.left.value, t.left).Failure? {
      var q := ValidateNodeReports(t.left, ns);
      p := [Left] + q;
      assert p[1..] == q;
    } else if n.right.Some? && ns[n.right.value].value < n.value {
      p := [];
    } else {
      var q := ValidateNodeReports(t.right, ns);
      p := [Right] + q;
      assert p[1..] == q;
    }
  }

  /** validateNode succeeds exactly when none of the comparisons it makes fails. */
  lemma ValidateNodeAllPass(t: Tree<NodeId>, ns: seq<NodeRec>)
    requires Linked(t, ns) && t.Node?
    ensures ValidateNode(ns, t.key, t).Success? <==> AllPass(Abs(t, ns))
  {
    ValidateNodeCorrect(t, ns);
    AllPassPairsOrdered(Abs(t, ns));
  }

  /** A failure reports the first failing comparison in the order validateNode
      makes them: the parent's value and the side of the child. */
  lemma {:induction false} ValidateNodeFirst(t: Tree<NodeId>, ns: seq<NodeRec>) returns (k: nat)
    requires Linked(t, ns) && t.Node? && ValidateNode(ns, t.key, t).Failure?
    ensures FirstFailure(Abs(t, ns), k)
    ensures ValidateNode(ns, t.key, t).error == Violation(Checks(Abs(t, ns))[k].parent, Checks(Abs(t, ns))[k].side)
  {
    var A := Abs(t, ns);
    var n := ns[t.key];
    ChecksAreViolations(t, ns);
    assert A.left == Abs(t.left, ns) && A.right == Abs(t.right, ns);
    if n.left.Some? && ns[n.left.value].value > n.value {
      FirstAtLeft(A);
      k := 0;
    } else if n.left.Some? && ValidateNode(ns, n.left.value, t.left).Failure? {
      var k' := ValidateNodeFirst(t.left, ns);
      FirstInLeft(A, k');
      k := 1 + k';
    } else {
      if n.left.Some? {
        ValidateNodeAllPass(t.left, ns);
      }
      if n.right.Some? && ns[n.right.value].value < n.value {
        FirstAtRight(A);
        k := LeftChecks(A);
      } else {
        var k' := ValidateNodeFirst(t.right, ns);
        FirstInRight(A, k');
        k := LeftChecks(A) + 1 + k';
      }
    }
  }

  /** The driver's state: the arena of all nodes created, the current root, and
      the click flag. `shape` is the tree the links encode from the root. */
  class Application {
    const arena: NodeArena
    var treeRoot: NodeId
    var clickedThisFrame: bool
    ghost var shape: Tree<NodeId>

    /** The records encode a tree rooted at `treeRoot` (so it is the only
        parentless node of the tree), whose values are in order. */
    ghost predicate Valid()
      reads this, arena
    {
      Encodes(shape, arena.nodes) && treeRoot == shape.key && Ordered(Abs(shape, arena.nodes))
    }

    /** The values of the tree, in its shape. */
    ghost function Contents(): Tree<int>
      reads this, arena
    {
      Abs(shape, arena.nodes)
    }

    /** Startup: build the first tree from the 20 values drawn for it. */
    constructor (draws: seq<int>)
      requires |draws| == 20
      ensures Valid() && fresh(arena) && !clickedThisFrame
      ensures Contents() == InsertAll(Node(Leaf, 50, Leaf), draws)
    {
      arena := new NodeArena();
      clickedThisFrame := false;
      new;
      BuildBadTree(draws);
    }

    /** buildBadTree: a fresh root holding 50, then 20 insertions; nodes of the
        previous tree stay in the arena, unreachable. */
    method BuildBadTree(values: seq<int>)
      requires arena.Valid() && |values| == 20
      modifies this, arena
      ensures Valid() && clickedThisFrame == old(clickedThisFrame)
      ensures Contents() == InsertAll(Node(Leaf, 50, Leaf), values)
    {
      var root := arena.NewNode(50);
      treeRoot := root;
      shape := Node(Leaf, root, Leaf);
      SingleNodeEncodes(arena.nodes, root);
      for x := 0 to 20
        invariant Valid() && clickedThisFrame == old(clickedThisFrame)
        invariant InsertAll(Contents(), values[x..]) == InsertAll(Node(Leaf, 50, Leaf), values)
      {
        ghost var at, side := BadInsertIntoTree(values[x]);
        assert values[x..][1..] == values[x + 1..];
      }
    }

    /** badInsertIntoTree: descend from the root, left when `data` is smaller
        than the node's value and right otherwise, and hang a new node in the
        first empty slot. The out-parameters name the position of the node the
        new one hangs from and the side. */
    method BadInsertIntoTree(data: int) returns (ghost path: seq<Side>, ghost side: Side)
      requires Valid()
      modifies this, arena
      ensures Valid() && treeRoot == old(treeRoot) && clickedThisFrame == old(clickedThisFrame)
      ensures Contents() == Insert(old(Contents()), data)
      ensures IsPath(old(shape), path) && Sub(old(shape), path).Node?
      ensures Sub(old(shape), path).key < |old(arena.nodes)|
      ensures side == if data < old(arena.nodes)[Sub(old(shape), path).key].value then Left else Right
      ensures Child(Sub(old(shape), path), side).Leaf?
      ensures shape == ReplaceAt(old(shape), path, WithChild(Sub(old(shape), path), side, Node(Leaf, |old(arena.nodes)|, Leaf)))
      ensures arena.nodes ==
        Attach(old(arena.nodes) + [NodeRec(data, None, None, None)], Sub(old(shape), path).key, side, Some(|old(arena.nodes)|))
    {
      var myNode := treeRoot;
      path := [];
      ghost var A := Contents();
      while true
        invariant unchanged(this) && unchanged(arena)
        invariant IsPath(shape, path) && Sub(shape, path).Node? && Sub(shape, path).key == myNode
        invariant IsPath(A, path) && Insert(A, data) == ReplaceAt(A, path, Insert(Sub(A, path), data))
        decreases Size(Sub(shape, path))
      {
        LinkedSub(shape, path, arena.nodes);
        AbsSub(shape, arena.nodes, path);
        var n := arena.nodes[myNode];
        var s := if data < n.value then Left else Right;
        InsertStep(A, path, s, data);
        SubSnoc(shape, path, s);
        AbsSub(shape, arena.nodes, path + [s]);
        match Slot(n, s)
        case Some(next) =>
          myNode := next;
          path := path + [s];
        case None =>
          ghost var hang := Node(Leaf, |arena.nodes|, Leaf);
          NewNodeKeepsEncoding(shape, arena.nodes, data);
          var added := arena.NewNode(data);
          SetChildKeepsEncoding(shape, arena.nodes, path, s, hang);
          SetChildValues(shape, arena.nodes, path, s, hang);
          InsertOrdered(A, data);
          ReplaceSnoc(shape, path, s, hang);
          arena.SetChild(myNode, s, Some(added));
          shape := ReplaceAt(shape, path + [s], hang);
          side := s;
          return;
      }
    }

    /** The click handling in tick(): when a click arrived this frame and the
        node under the mouse is not the root, rotate it, and adopt it as the
        root when it has no parent afterwards. The flag is cleared either way. */
    method HandleClick(hovered: Option<NodeId>) returns (ghost rotated: bool, ghost pre: seq<Side>, ghost s: Side)
      requires Valid()
      requires hovered.Some? ==> hovered.value in Elems(shape)
      modifies this, arena
      ensures Valid() && !clickedThisFrame
      ensures InOrder(Contents()) == InOrder(old(Contents()))
      ensures rotated == (old(clickedThisFrame) && hovered.Some? && hovered.value != old(treeRoot))
      ensures rotated ==>
        IsPath(old(shape), pre) && Sub(old(shape), pre).Node? && Child(Sub(old(shape), pre), s).Node? &&
        Child(Sub(old(shape), pre), s).key == hovered.value &&
        hovered.value < |old(arena.nodes)| &&
        old(arena.nodes)[hovered.value].parent == Some(ParentData(Sub(old(shape), pre).key, s)) &&
        arena.nodes == Rotated(old(arena.nodes), hovered.value) &&
        shape == RotateAt(old(shape), pre, s) &&
        treeRoot == if pre == [] then hovered.value else old(treeRoot)
      ensures !rotated ==> arena.nodes == old(arena.nodes) && shape == old(shape) && treeRoot == old(treeRoot)
    {
      rotated := clickedThisFrame && hovered.Some? && hovered.value != treeRoot;
      pre, s := [], Left;
      if clickedThisFrame {
        if hovered.Some? && hovered.value != treeRoot {
          var h := hovered.value;
          var p := PathTo(shape, h);
          pre, s := p[..|p| - 1], p[|p| - 1];
          SplitLast(shape, p);
          RotateKeepsEncoding(shape, arena.nodes, pre, s);
          RotateValues(shape, arena.nodes, pre, s);
          RotateInOrder(Contents(), pre, s);
          RotateOrdered(Contents(), pre, s);
          ghost var newShape := RotateAt(shape, pre, s);
          arena.Rotate(h);
          shape := newShape;
          RotateElems(old(shape), pre, s);
          ParentlessIsRoot(shape, arena.nodes, h);
          if arena.nodes[h].parent.None? {
            treeRoot := h;
          }
        }
        clickedThisFrame := false;
      }
    }

    /** validateTree: run validateNode from the root. It always succeeds on a
        tree built by insertion and rotation. */
    method ValidateTree() returns (r: Result<(), Violation>)
      requires Valid()
      ensures r.Success?
    {
      ValidateNodeCorrect(shape, arena.nodes);
      OrderedPairsOrdered(Contents());
      r := ValidateNode(arena.nodes, treeRoot, shape);
    }
  }
}
