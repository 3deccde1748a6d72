/** The TreeNode objects of the program, held in an arena: a node is an index,
    and its record holds its value and its three links (`_left`, `_right`,
    `_parent`). The coupled setters, rotate() and removeFromTree() are methods
    of the arena, each specified by a function on the records; the lemmas
    relate those functions to the tree shape the links encode. */
module TreeNode {
  import opened Wrappers
  import opened Trees

  type NodeId = nat

  /** The `_parent` back-reference: the holding node and the side it holds us on. */
  datatype ParentData = ParentData(node: NodeId, mySide: Side)

  /** One TreeNode: its value (fixed at construction) and its links. */
  datatype NodeRec = NodeRec(value: int, left: Option<NodeId>, right: Option<NodeId>, parent: Option<ParentData>)

  function Slot(n: NodeRec, s: Side): Option<NodeId>
  {
    if s == Left then n.left else n.right
  }

  function WithSlot(n: NodeRec, s: Side, c: Option<NodeId>): NodeRec
  {
    if s == Left then n.(left := c) else n.(right := c)
  }

  predicate RefOk(o: Option<NodeId>, n: nat)
  {
    o.Some? ==> o.value < n
  }

  /** Every link in the arena names a node of the arena (references are never dangling). */
  predicate Closed(ns: seq<NodeRec>)
  {
    forall i :: 0 <= i < |ns| ==>
      RefOk(ns[i].left, |ns|) && RefOk(ns[i].right, |ns|) &&
      (ns[i].parent.Some? ==> ns[i].parent.value.node < |ns|)
  }

  /** The `left` / `right` setters: store `c` in slot `s` of `p` and, when `c`
      is a node, point its back-reference at (p, s). Clearing a slot leaves the
      former occupant's back-reference as it was. */
  function Attach(ns: seq<NodeRec>, p: NodeId, s: Side, c: Option<NodeId>): (r: seq<NodeRec>)
    requires p < |ns| && RefOk(c, |ns|)
    ensures |r| == |ns|
    ensures Slot(r[p], s) == c
    ensures c.Some? ==> r[c.value].parent == Some(ParentData(p, s))
    ensures forall i :: 0 <= i < |ns| ==> r[i].value == ns[i].value
    ensures forall i, side :: 0 <= i < |ns| && (i != p || side != s) ==> Slot(r[i], side) == Slot(ns[i], side)
    ensures forall i :: 0 <= i < |ns| && c != Some(i) ==> r[i].parent == ns[i].parent
    ensures Closed(ns) ==> Closed(r)
  {
    var held := ns[p := WithSlot(ns[p], s, c)];
    if c.Some? then held[c.value := held[c.value].(parent := Some(ParentData(p, s)))] else held
  }

  /** rotate() on the records: the pivot takes its parent's place (the
      grandparent's slot, or no parent at all), the old parent becomes the
      pivot's child on the opposite side, and the pivot's former opposite-side
      child moves into the old parent's slot that the pivot vacated. */
  function Rotated(ns: seq<NodeRec>, pivot: NodeId): seq<NodeRec>
    requires Closed(ns) && pivot < |ns| && ns[pivot].parent.Some?
  {
    var ParentData(root, side) := ns[pivot].parent.value;
    var ns1 :=
      if ns[root].parent.Some? then Attach(ns, ns[root].parent.value.node, ns[root].parent.value.mySide, Some(pivot))
      else ns[pivot := ns[pivot].(parent := None)];
    var opp := Opposite(side);
    var displaced := Slot(ns1[pivot], opp);
    var ns2 := Attach(ns1, pivot, opp, Some(root));
    Attach(ns2, root, side, displaced)
  }

  /** The four nodes rotate() touches — pivot, old parent `root`, grandparent
      and the displaced child — are different nodes (as they are in a tree). */
  predicate RotationRoles(ns: seq<NodeRec>, pivot: NodeId, root: NodeId, side: Side, displaced: Option<NodeId>)
  {
    Closed(ns) && pivot < |ns| && ns[pivot].parent == Some(ParentData(root, side)) &&
    displaced == Slot(ns[pivot], Opposite(side)) &&
    root != pivot && displaced != Some(pivot) && displaced != Some(root) &&
    (ns[root].parent.Some? ==>
      var gp := ns[root].parent.value.node; gp != pivot && gp != root && displaced != Some(gp))
  }

  /** What rotate() does to the records, node by node: `ns'` is `ns` with the
      pivot above its old parent `root`. */
  predicate RotationEffect(ns: seq<NodeRec>, ns': seq<NodeRec>, pivot: NodeId, root: NodeId, side: Side, displaced: Option<NodeId>)
  {
    |ns'| == |ns| && Closed(ns') && pivot < |ns| && root < |ns| &&
    (forall i :: 0 <= i < |ns| ==> ns'[i].value == ns[i].value) &&
    // the pivot holds the old parent on the opposite side and takes over its parent
    Slot(ns'[pivot], Opposite(side)) == Some(root) &&
    Slot(ns'[pivot], side) == Slot(ns[pivot], side) &&
    ns'[pivot].parent == ns[root].parent &&
    // the old parent holds the displaced node where the pivot was
    Slot(ns'[root], side) == displaced &&
    Slot(ns'[root], Opposite(side)) == Slot(ns[root], Opposite(side)) &&
    ns'[root].parent == Some(ParentData(pivot, Opposite(side))) &&
    // the grandparent's slot now holds the pivot
    (ns[root].parent.Some? ==>
      var ParentData(gp, gpSide) := ns[root].parent.value;
      gp < |ns| && Slot(ns'[gp], gpSide) == Some(pivot) &&
      Slot(ns'[gp], Opposite(gpSide)) == Slot(ns[gp], Opposite(gpSide)) &&
      ns'[gp].parent == ns[gp].parent) &&
    // the displaced node now names the old parent
    (displaced.Some? ==>
      displaced.value < |ns| && ns'[displaced.value].parent == Some(ParentData(root, side)) &&
      SameSlots(ns, ns', displaced.value)) &&
    // nothing else changes
    (forall i ::
      (0 <= i < |ns| && i != pivot && i != root && Some(i) != displaced &&
       (ns[root].parent.None? || i != ns[root].parent.value.node))
      ==> ns'[i] == ns[i])
  }

  /** rotate() on records whose four roles are distinct nodes has exactly that effect. */
  lemma RotatedFields(ns: seq<NodeRec>, pivot: NodeId, root: NodeId, side: Side, displaced: Option<NodeId>)
    requires RotationRoles(ns, pivot, root, side, displaced)
    ensures RotationEffect(ns, Rotated(ns, pivot), pivot, root, side, displaced)
  {
  }

  predicate SameSlots(ns: seq<NodeRec>, ns': seq<NodeRec>, i: NodeId)
  {
    i < |ns| && i < |ns'| && ns'[i].left == ns[i].left && ns'[i].right == ns[i].right
  }

  predicate SameParent(ns: seq<NodeRec>, ns': seq<NodeRec>, i: NodeId)
  {
    i < |ns| && i < |ns'| && ns'[i].parent == ns[i].parent
  }

  /** rotate() writes links only: no node's value changes. */
  lemma RotatedValues(ns: seq<NodeRec>, pivot: NodeId)
    requires Closed(ns) && pivot < |ns| && ns[pivot].parent.Some?
    ensures |Rotated(ns, pivot)| == |ns|
    ensures forall i :: 0 <= i < |ns| ==> Rotated(ns, pivot)[i].value == ns[i].value
  {
  }

  /** Clearing a slot (removeFromTree) changes that slot only: every other slot
      and every back-reference, the removed node's included, stay as they were. */
  lemma ClearSlotOnly(ns: seq<NodeRec>, p: NodeId, s: Side)
    requires Closed(ns) && p < |ns|
    ensures |Attach(ns, p, s, None)| == |ns| && Slot(Attach(ns, p, s, None)[p], s).None?
    ensures forall i :: 0 <= i < |ns| ==> Attach(ns, p, s, None)[i].parent == ns[i].parent
    ensures forall i :: 0 <= i < |ns| && i != p ==> Attach(ns, p, s, None)[i] == ns[i]
  {
    var r := Attach(ns, p, s, None);
    forall i | 0 <= i < |ns| && i != p ensures r[i] == ns[i] {
      assert Slot(r[i], Left) == Slot(ns[i], Left) && Slot(r[i], Right) == Slot(ns[i], Right);
    }
  }

  // ---------------------------------------------------------------------------
  // The TreeNode objects and their mutators

  /** Every TreeNode ever created, indexed by node id. */
  class NodeArena {
    var nodes: seq<NodeRec>

    ghost predicate Valid()
      reads this
    {
      Closed(nodes)
    }

    constructor ()
      ensures Valid() && nodes == []
    {
      nodes := [];
    }

    /** `new TreeNode(value)`: a node with no parent and no children. */
    method NewNode(value: int) returns (n: NodeId)
      requires Valid()
      modifies this
      ensures Valid()
      ensures n == |old(nodes)| && nodes == old(nodes) + [NodeRec(value, None, None, None)]
    {
      n := |nodes|;
      nodes := nodes + [NodeRec(value, None, None, None)];
    }

    /** The `left` / `right` setters: store `c` in slot `s` of `p` and, when `c`
        is a node, point its back-reference at (p, s). */
    method SetChild(p: NodeId, s: Side, c: Option<NodeId>)
      requires Valid() && p < |nodes| && RefOk(c, |nodes|)
      modifies this
      ensures Valid()
      ensures nodes == Attach(old(nodes), p, s, c)
    {
      nodes := nodes[p := WithSlot(nodes[p], s, c)];
      if c.Some? {
        nodes := nodes[c.value := nodes[c.value].(parent := Some(ParentData(p, s)))];
      }
    }

    /** rotate(), on the pivot `pivot`, which must have a parent. */
    method Rotate(pivot: NodeId)
      requires Valid() && pivot < |nodes| && nodes[pivot].parent.Some?
      modifies this
      ensures Valid()
      ensures nodes == Rotated(old(nodes), pivot)
    {
      var ParentData(root, mySideOfRoot) := nodes[pivot].parent.value;
      if nodes[root].parent.Some? {
        var ParentData(grand, rootSide) := nodes[root].parent.value;
        SetChild(grand, rootSide, Some(pivot));
      } else {
        nodes := nodes[pivot := nodes[pivot].(parent := None)];
      }
      var rootRelativeSide := Opposite(mySideOfRoot);
      var displaced := Slot(nodes[pivot], rootRelativeSide);
      SetChild(pivot, rootRelativeSide, Some(root));
      SetChild(root, mySideOfRoot, displaced);
    }

    /** removeFromTree(), on a node `n` that has a parent: clear the parent's
        slot that holds `n`. */
    method RemoveFromTree(n: NodeId)
      requires Valid() && n < |nodes| && nodes[n].parent.Some?
      modifies this
      ensures Valid()
      ensures nodes == Attach(old(nodes), old(nodes)[n].parent.value.node, old(nodes)[n].parent.value.mySide, None)
    {
      var ParentData(parentNode, mySide) := nodes[n].parent.value;
      SetChild(parentNode, mySide, None);
    }
  }
}
