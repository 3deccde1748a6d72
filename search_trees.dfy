/** The tree seen through its node values: the insertion the driver performs,
    the ordering it maintains, and the parent-child check that validation makes. */
module SearchTrees {
  import opened Trees

  predicate Sorted(s: seq<int>)
  {
    forall i, j :: 0 <= i < j < |s| ==> s[i] <= s[j]
  }

  /** The tree a value tree is meant to be: in-order values never decrease.
      This is the ordering validation accepts (equal values are allowed on
      either side of a node once rotations have moved them). */
  predicate Ordered(t: Tree<int>)
  {
    Sorted(InOrder(t))
  }

  /** badInsertIntoTree on values: descend left when `x` is smaller than the
      node's value and right otherwise (ties go right, duplicates are kept), and
      hang a new leaf in the first empty slot. */
  function Insert(t: Tree<int>, x: int): Tree<int>
  {
    match t
    case Leaf => Node(Leaf, x, Leaf)
    case Node(l, v, r) =>
      if x < v then Node(Insert(l, x), v, r) else Node(l, v, Insert(r, x))
  }

  /** The descent that Insert performs, as a path of sides. */
  function Descent(t: Tree<int>, x: int): (p: seq<Side>)
    ensures IsPath(t, p) && Sub(t, p).Leaf?
    ensures |p| <= Size(t)
  {
    match t
    case Leaf => []
    case Node(l, v, r) =>
      if x < v then [Left] + Descent(l, x) else [Right] + Descent(r, x)
  }

  /** The node at a position of the descent sends `x` left exactly when `x` is
      smaller than its value. */
  lemma {:induction false} DescentSteps(t: Tree<int>, x: int, k: nat)
    requires k < |Descent(t, x)|
    ensures IsPath(t, Descent(t, x)[..k]) && Sub(t, Descent(t, x)[..k]).Node?
    ensures Descent(t, x)[k] == if x < Sub(t, Descent(t, x)[..k]).key then Left else Right
  {
    var p := Descent(t, x);
    PrefixIsPath(t, p, k);
    if k > 0 {
      var c := if x < t.key then t.left else t.right;
      assert p[1..] == Descent(c, x);
      assert p[..k][1..] == p[1..][..k - 1];
      DescentSteps(c, x, k - 1);
    }
  }

  /** Insertion hangs one new leaf holding `x` at the end of the descent and
      changes nothing else. */
  lemma {:induction false} InsertAsLeaf(t: Tree<int>, x: int)
    ensures Insert(t, x) == ReplaceAt(t, Descent(t, x), Node(Leaf, x, Leaf))
  {
    match t
    case Leaf =>
    case Node(l, v, r) =>
      if x < v { InsertAsLeaf(l, x); } else { InsertAsLeaf(r, x); }
  }

  /** One iteration of the insertion loop: at the node at `path`, going to the
      side chosen by comparing `x` with its value leaves the result of the
      insertion unchanged. */
  lemma InsertStep(t: Tree<int>, path: seq<Side>, s: Side, x: int)
    requires IsPath(t, path) && Sub(t, path).Node?
    requires s == if x < Sub(t, path).key then Left else Right
    ensures IsPath(t, path + [s]) && Sub(t, path + [s]) == Child(Sub(t, path), s)
    ensures ReplaceAt(t, path, Insert(Sub(t, path), x)) == ReplaceAt(t, path + [s], Insert(Sub(t, path + [s]), x))
  {
    SubSnoc(t, path, s);
    ReplaceSnoc(t, path, s, Insert(Child(Sub(t, path), s), x));
  }

  /** Insertion of `xs` one after the other, as buildBadTree does. */
  function InsertAll(t: Tree<int>, xs: seq<int>): Tree<int>
    decreases |xs|
  {
    if xs == [] then t else InsertAll(Insert(t, xs[0]), xs[1..])
  }

  /** The successive insertions add exactly the inserted values. */
  lemma {:induction false} InsertAllMultiset(t: Tree<int>, xs: seq<int>)
    ensures multiset(InOrder(InsertAll(t, xs))) == multiset(InOrder(t)) + multiset(xs)
    decreases |xs|
  {
    if xs != [] {
      var u := Insert(t, xs[0]);
      calc {
        multiset(InOrder(InsertAll(t, xs)));
        multiset(InOrder(InsertAll(u, xs[1..])));
        { InsertAllMultiset(u, xs[1..]); }
        multiset(InOrder(u)) + multiset(xs[1..]);
        { InsertMultiset(t, xs[0]); }
        multiset(InOrder(t)) + multiset{xs[0]} + multiset(xs[1..]);
        { assert xs == [xs[0]] + xs[1..]; }
        multiset(InOrder(t)) + multiset(xs);
      }
    }
  }

  /** Insertions never replace the root. */
  lemma {:induction false} InsertAllRoot(t: Tree<int>, xs: seq<int>)
    requires t.Node?
    ensures InsertAll(t, xs).Node? && InsertAll(t, xs).key == t.key
    decreases |xs|
  {
    if xs != [] {
      InsertAllRoot(Insert(t, xs[0]), xs[1..]);
    }
  }

  /** Insertions keep the values in order. */
  lemma {:induction false} InsertAllOrdered(t: Tree<int>, xs: seq<int>)
    requires Ordered(t)
    ensures Ordered(InsertAll(t, xs))
    decreases |xs|
  {
    if xs != [] {
      InsertOrdered(t, xs[0]);
      InsertAllOrdered(Insert(t, xs[0]), xs[1..]);
    }
  }

  /** The tree buildBadTree builds from 20 values: 21 values in order, the
      drawn ones and 50, with 50 at the root. */
  lemma BadTreeFacts(values: seq<int>)
    requires |values| == 20
    ensures var t := InsertAll(Node(Leaf, 50, Leaf), values);
      t.Node? && t.key == 50 && Ordered(t) &&
      multiset(InOrder(t)) == multiset{50} + multiset(values) && |InOrder(t)| == 21
  {
    var t := InsertAll(Node(Leaf, 50, Leaf), values);
    InsertAllMultiset(Node(Leaf, 50, Leaf), values);
    InsertAllRoot(Node(Leaf, 50, Leaf), values);
    InsertAllOrdered(Node(Leaf, 50, Leaf), values);
    assert |multiset(InOrder(t))| == |InOrder(t)|;
  }

  /** Insertion adds exactly `x` to the values: duplicates are never rejected. */
  lemma {:induction false} InsertMultiset(t: Tree<int>, x: int)
    ensures multiset(InOrder(Insert(t, x))) == multiset(InOrder(t)) + multiset{x}
    ensures |InOrder(Insert(t, x))| == |InOrder(t)| + 1
  {
    match t
    case Leaf =>
    case Node(l, v, r) =>
      if x < v { InsertMultiset(l, x); } else { InsertMultiset(r, x); }
  }

  predicate AtMost(s: seq<int>, v: int)
  {
    forall y :: y in s ==> y <= v
  }

  predicate AtLeast(s: seq<int>, v: int)
  {
    forall y :: y in s ==> v <= y
  }

  lemma SortedJoin(a: seq<int>, v: int, b: seq<int>)
    requires Sorted(a) && Sorted(b) && AtMost(a, v) && AtLeast(b, v)
    ensures Sorted(a + [v] + b)
  {
    var s := a + [v] + b;
    forall i, j | 0 <= i < j < |s| ensures s[i] <= s[j] {
      if j < |a| {
        assert s[i] == a[i] && s[j] == a[j];
      } else if i > |a| {
        assert s[i] == b[i - |a| - 1] && s[j] == b[j - |a| - 1];
      } else {
        assert i < |a| ==> s[i] == a[i] && a[i] in a;
        assert j > |a| ==> s[j] == b[j - |a| - 1] && b[j - |a| - 1] in b;
      }
    }
  }

  lemma SortedParts(a: seq<int>, v: int, b: seq<int>)
    requires Sorted(a + [v] + b)
    ensures Sorted(a) && Sorted(b) && AtMost(a, v) && AtLeast(b, v)
  {
    var s := a + [v] + b;
    assert forall i :: 0 <= i < |a| ==> s[i] == a[i];
    assert forall i :: 0 <= i < |b| ==> s[|a| + 1 + i] == b[i];
    assert s[|a|] == v;
    forall y | y in a ensures y <= v {
      var i :| 0 <= i < |a| && a[i] == y;
      assert s[i] == y;
    }
    forall y | y in b ensures v <= y {
      var i :| 0 <= i < |b| && b[i] == y;
      assert s[|a| + 1 + i] == y;
    }
  }

  lemma InsertAtMost(t: Tree<int>, x: int, v: int)
    requires AtMost(InOrder(t), v) && x <= v
    ensures AtMost(InOrder(Insert(t, x)), v)
  {
    var s := InOrder(Insert(t, x));
    InsertMultiset(t, x);
    forall y | y in s ensures y <= v {
      assert y in multiset(s);
      assert y in InOrder(t) || y == x;
    }
  }

  lemma InsertAtLeast(t: Tree<int>, x: int, v: int)
    requires AtLeast(InOrder(t), v) && v <= x
    ensures AtLeast(InOrder(Insert(t, x)), v)
  {
    var s := InOrder(Insert(t, x));
    InsertMultiset(t, x);
    forall y | y in s ensures v <= y {
      assert y in multiset(s);
      assert y in InOrder(t) || y == x;
    }
  }

  /** Insertion keeps the in-order values sorted. */
  lemma {:induction false} InsertOrdered(t: Tree<int>, x: int)
    requires Ordered(t)
    ensures Ordered(Insert(t, x))
  {
    match t
    case Leaf =>
    case Node(l, v, r) =>
      SortedParts(InOrder(l), v, InOrder(r));
      if x < v {
        InsertOrdered(l, x);
        InsertAtMost(l, x, v);
        assert InOrder(Insert(t, x)) == InOrder(Insert(l, x)) + [v] + InOrder(r);
        SortedJoin(InOrder(Insert(l, x)), v, InOrder(r));
      } else {
        InsertOrdered(r, x);
        InsertAtLeast(r, x, v);
        assert InOrder(Insert(t, x)) == InOrder(l) + [v] + InOrder(Insert(r, x));
        SortedJoin(InOrder(l), v, InOrder(Insert(r, x)));
      }
  }

  /** A rotation keeps the in-order values, so it keeps them sorted. */
  lemma RotateOrdered(t: Tree<int>, pre: seq<Side>, s: Side)
    requires IsPath(t, pre) && Sub(t, pre).Node? && Child(Sub(t, pre), s).Node?
    ensures Ordered(RotateAt(t, pre, s)) <==> Ordered(t)
  {
    RotateInOrder(t, pre, s);
  }

  // ---------------------------------------------------------------------------
  // The parent-child check of validateNode

  /** The child on side `s` of the node `t` breaks the check: a left child with
      a greater value, or a right child with a smaller one. */
  predicate Violates(t: Tree<int>, s: Side)
    requires t.Node?
  {
    Child(t, s).Node? &&
    (if s == Left then Child(t, s).key > t.key else Child(t, s).key < t.key)
  }

  /** Every node of `t` passes the check with both its direct children. */
  ghost predicate PairsOrdered(t: Tree<int>)
  {
    forall p, s :: IsPath(t, p) && Sub(t, p).Node? ==> !Violates(Sub(t, p), s)
  }

  lemma PairsOrderedNode(t: Tree<int>)
    requires t.Node?
    ensures PairsOrdered(t) <==>
      !Violates(t, Left) && !Violates(t, Right) && PairsOrdered(t.left) && PairsOrdered(t.right)
  {
    if !Violates(t, Left) && !Violates(t, Right) && PairsOrdered(t.left) && PairsOrdered(t.right) {
      forall p, s | IsPath(t, p) && Sub(t, p).Node? ensures !Violates(Sub(t, p), s) {
        if |p| > 0 {
          assert Sub(t, p) == Sub(Child(t, p[0]), p[1..]);
        }
      }
    }
    if PairsOrdered(t) {
      forall p, s | IsPath(t.left, p) && Sub(t.left, p).Node? ensures !Violates(Sub(t.left, p), s) {
        assert ([Left] + p)[1..] == p;
        assert IsPath(t, [Left] + p) && Sub(t, [Left] + p) == Sub(t.left, p);
      }
      forall p, s | IsPath(t.right, p) && Sub(t.right, p).Node? ensures !Violates(Sub(t.right, p), s) {
        assert ([Right] + p)[1..] == p;
        assert IsPath(t, [Right] + p) && Sub(t, [Right] + p) == Sub(t.right, p);
      }
      assert IsPath(t, []) && Sub(t, []) == t;
    }
  }

  /** "Should always return true": a tree whose in-order values are sorted
      passes the parent-child check everywhere. */
  lemma {:induction false} OrderedPairsOrdered(t: Tree<int>)
    requires Ordered(t)
    ensures PairsOrdered(t)
  {
    match t
    case Leaf =>
    case Node(l, v, r) =>
      SortedParts(InOrder(l), v, InOrder(r));
      OrderedPairsOrdered(l);
      OrderedPairsOrdered(r);
      if l.Node? { assert l.key in InOrder(l); }
      if r.Node? { assert r.key in InOrder(r); }
      PairsOrderedNode(t);
  }

  /** The check looks at direct parent-child pairs only: a grandchild on the
      wrong side of its grandparent passes it although the values are not
      sorted. */
  lemma PairsOrderedIsLocal()
    ensures var t := Node(Node(Leaf, 10, Node(Leaf, 60, Leaf)), 50, Leaf);
      PairsOrdered(t) && !Ordered(t)
  {
    var t := Node(Node(Leaf, 10, Node(Leaf, 60, Leaf)), 50, Leaf);
    PairsOrderedNode(t);
    PairsOrderedNode(t.left);
    PairsOrderedNode(t.left.right);
    assert InOrder(t) == [10, 60, 50];
    assert InOrder(t)[1] > InOrder(t)[2];
  }

  /** One comparison validateNode makes: a node's value against the value of
      its child on `side`. */
  datatype Check = Check(parent: int, child: int, side: Side)

  /** The comparison fails: a left child greater than its parent, or a right
      child smaller than it. Equal values pass. */
  predicate Fails(c: Check)
  {
    if c.side == Left then c.child > c.parent else c.child < c.parent
  }

  /** The comparisons validateNode makes on `t`, in the order it makes them: at
      each node the left child, then the left subtree, then the right child,
      then the right subtree; an absent child is not compared. */
  function Checks(t: Tree<int>): seq<Check>
    decreases t, 0
  {
    match t
    case Leaf => []
    case Node(l, v, r) => ChildChecks(v, l, Left) + ChildChecks(v, r, Right)
  }

  /** The comparisons made for the child `c` on side `s` of a node holding `v`:
      the node against the child, then those made in the child's subtree. */
  function ChildChecks(v: int, c: Tree<int>, s: Side): seq<Check>
    decreases c, 1
  {
    if c.Leaf? then [] else [Check(v, c.key, s)] + Checks(c)
  }

  /** No comparison fails on `t`. */
  predicate AllPass(t: Tree<int>)
  {
    forall j :: 0 <= j < |Checks(t)| ==> !Fails(Checks(t)[j])
  }

  /** The `k`th comparison is the first one to fail on `t`. */
  predicate FirstFailure(t: Tree<int>, k: nat)
  {
    k < |Checks(t)| && Fails(Checks(t)[k]) && forall j :: 0 <= j < k ==> !Fails(Checks(t)[j])
  }

  /** The number of comparisons made at the root's left and in the left subtree. */
  function LeftChecks(t: Tree<int>): nat
    requires t.Node?
  {
    if t.left.Node? then 1 + |Checks(t.left)| else 0
  }

  /** Where the comparisons of each part of a node sit among its comparisons. */
  lemma ChecksParts(t: Tree<int>)
    requires t.Node?
    ensures var L := LeftChecks(t);
      L <= |Checks(t)| &&
      (t.left.Node? ==> Checks(t)[0] == Check(t.key, t.left.key, Left)) &&
      (forall j :: 0 <= j < |Checks(t.left)| ==> Checks(t)[1 + j] == Checks(t.left)[j]) &&
      (t.right.Node? ==> |Checks(t)| == L + 1 + |Checks(t.right)| && Checks(t)[L] == Check(t.key, t.right.key, Right)) &&
      (t.right.Leaf? ==> |Checks(t)| == L) &&
      (forall j :: 0 <= j < |Checks(t.right)| ==> Checks(t)[L + 1 + j] == Checks(t.right)[j])
  {
    ChecksLeft(t);
    ChecksRight(t);
  }

  /** The comparisons for the left child come first. */
  lemma ChecksLeft(t: Tree<int>)
    requires t.Node?
    ensures LeftChecks(t) <= |Checks(t)|
    ensures t.left.Node? ==> Checks(t)[0] == Check(t.key, t.left.key, Left)
    ensures forall j :: 0 <= j < |Checks(t.left)| ==> Checks(t)[1 + j] == Checks(t.left)[j]
  {
    var a := ChildChecks(t.key, t.left, Left);
    assert Checks(t) == a + ChildChecks(t.key, t.right, Right);
    if t.left.Node? {
      assert a == [Check(t.key, t.left.key, Left)] + Checks(t.left);
    } else {
      assert Checks(t.left) == [] && a == [];
    }
  }

  /** The comparisons for the right child follow those for the left child. */
  lemma ChecksRight(t: Tree<int>)
    requires t.Node?
    ensures t.right.Node? ==>
      |Checks(t)| == LeftChecks(t) + 1 + |Checks(t.right)| && Checks(t)[LeftChecks(t)] == Check(t.key, t.right.key, Right)
    ensures t.right.Leaf? ==> |Checks(t)| == LeftChecks(t)
    ensures forall j :: 0 <= j < |Checks(t.right)| ==> Checks(t)[LeftChecks(t) + 1 + j] == Checks(t.right)[j]
  {
    var a, b := ChildChecks(t.key, t.left, Left), ChildChecks(t.key, t.right, Right);
    assert Checks(t) == a + b;
    assert |a| == LeftChecks(t) by {
      if t.left.Leaf? { assert a == []; }
    }
    if t.right.Node? {
      assert b == [Check(t.key, t.right.key, Right)] + Checks(t.right);
    } else {
      assert Checks(t.right) == [] && b == [];
    }
  }

  /** The comparisons made on a node all pass exactly when both comparisons at
      the node and all comparisons in both subtrees pass. */
  lemma AllPassNode(t: Tree<int>)
    requires t.Node?
    ensures AllPass(t) <==> !Violates(t, Left) && AllPass(t.left) && !Violates(t, Right) && AllPass(t.right)
  {
    if !Violates(t, Left) && AllPass(t.left) && !Violates(t, Right) && AllPass(t.right) {
      PassFromParts(t);
    }
    if AllPass(t) {
      PassInParts(t);
    }
  }

  lemma PassFromParts(t: Tree<int>)
    requires t.Node? && !Violates(t, Left) && AllPass(t.left) && !Violates(t, Right) && AllPass(t.right)
    ensures AllPass(t)
  {
    var L := LeftChecks(t);
    ChecksParts(t);
    forall j | 0 <= j < |Checks(t)| ensures !Fails(Checks(t)[j]) {
      if 0 < j < L {
        assert Checks(t)[j] == Checks(t.left)[j - 1];
      } else if L < j {
        assert Checks(t)[j] == Checks(t.right)[j - L - 1];
      }
    }
  }

  lemma PassInParts(t: Tree<int>)
    requires t.Node? && AllPass(t)
    ensures !Violates(t, Left) && AllPass(t.left) && !Violates(t, Right) && AllPass(t.right)
  {
    var L := LeftChecks(t);
    assert !Violates(t, Left) && AllPass(t.left) by {
      ChecksLeft(t);
      forall j | 0 <= j < |Checks(t.left)| ensures !Fails(Checks(t.left)[j]) {
        assert !Fails(Checks(t)[1 + j]);
      }
      if t.left.Node? { assert !Fails(Checks(t)[0]); }
    }
    assert !Violates(t, Right) && AllPass(t.right) by {
      ChecksRight(t);
      forall j | 0 <= j < |Checks(t.right)| ensures !Fails(Checks(t.right)[j]) {
        assert !Fails(Checks(t)[L + 1 + j]);
      }
      if t.right.Node? { assert !Fails(Checks(t)[L]); }
    }
  }

  /** The comparisons validateNode makes all pass exactly when every node passes
      the check with both its direct children. */
  lemma {:induction false} AllPassPairsOrdered(t: Tree<int>)
    ensures AllPass(t) <==> PairsOrdered(t)
  {
    match t
    case Leaf =>
    case Node(l, _, r) =>
      AllPassPairsOrdered(l);
      AllPassPairsOrdered(r);
      AllPassNode(t);
      PairsOrderedNode(t);
  }

  /** A left child out of order is the first failure. */
  lemma FirstAtLeft(t: Tree<int>)
    requires t.Node? && Violates(t, Left)
    ensures FirstFailure(t, 0) && Checks(t)[0] == Check(t.key, t.left.key, Left)
  {
    ChecksParts(t);
  }

  /** With the left child in order, the first failure in the left subtree is
      the first failure of the tree. */
  lemma FirstInLeft(t: Tree<int>, k: nat)
    requires t.Node? && !Violates(t, Left) && FirstFailure(t.left, k)
    ensures FirstFailure(t, 1 + k) && Checks(t)[1 + k] == Checks(t.left)[k]
  {
    ChecksParts(t);
    forall j | 0 < j < 1 + k ensures !Fails(Checks(t)[j]) {
      assert Checks(t)[j] == Checks(t.left)[j - 1];
    }
  }

  /** After a passing left side, a right child out of order is the first failure. */
  lemma FirstAtRight(t: Tree<int>)
    requires t.Node? && !Violates(t, Left) && AllPass(t.left) && Violates(t, Right)
    ensures FirstFailure(t, LeftChecks(t)) && Checks(t)[LeftChecks(t)] == Check(t.key, t.right.key, Right)
  {
    ChecksParts(t);
    forall j | 0 < j < LeftChecks(t) ensures !Fails(Checks(t)[j]) {
      assert Checks(t)[j] == Checks(t.left)[j - 1];
    }
  }

  /** After a passing left side and right child, the first failure in the right
      subtree is the first failure of the tree. */
  lemma FirstInRight(t: Tree<int>, k: nat)
    requires t.Node? && !Violates(t, Left) && AllPass(t.left) && !Violates(t, Right)
    requires FirstFailure(t.right, k)
    ensures FirstFailure(t, LeftChecks(t) + 1 + k) && Checks(t)[LeftChecks(t) + 1 + k] == Checks(t.right)[k]
  {
    var L := LeftChecks(t);
    ChecksParts(t);
    forall j | 0 <= j < L + 1 + k ensures !Fails(Checks(t)[j]) {
      if 0 < j < L {
        assert Checks(t)[j] == Checks(t.left)[j - 1];
      } else if L < j {
        assert Checks(t)[j] == Checks(t.right)[j - L - 1];
      }
    }
  }

  /** The strict form of the ordering (left subtree values smaller than the
      node, right subtree values not smaller) that insertion produces. */
  predicate StrictlyOrdered(t: Tree<int>)
  {
    match t
    case Leaf => true
    case Node(l, v, r) =>
      StrictlyOrdered(l) && StrictlyOrdered(r) &&
      (forall y :: y in Elems(l) ==> y < v) && (forall y :: y in Elems(r) ==> v <= y)
  }

  /** Insertion keeps the strict form too. */
  lemma {:induction false} InsertStrictlyOrdered(t: Tree<int>, x: int)
    requires StrictlyOrdered(t)
    ensures StrictlyOrdered(Insert(t, x)) && Elems(Insert(t, x)) == Elems(t) + {x}
  {
    match t
    case Leaf =>
    case Node(l, v, r) =>
      if x < v { InsertStrictlyOrdered(l, x); } else { InsertStrictlyOrdered(r, x); }
  }

  /** Rotation does not keep the strict form once a value occurs twice, which
      insertion allows: rotating a right child equal to its parent leaves the
      old parent on the left of an equal value. */
  lemma RotateBreaksStrictOrder()
    ensures var t := Insert(Node(Leaf, 5, Leaf), 5);
      StrictlyOrdered(t) && !StrictlyOrdered(RotateAt(t, [], Right)) && Ordered(RotateAt(t, [], Right))
  {
    var t := Insert(Node(Leaf, 5, Leaf), 5);
    assert t == Node(Leaf, 5, Node(Leaf, 5, Leaf));
    assert RotateAt(t, [], Right) == Node(Node(Leaf, 5, Leaf), 5, Leaf);
    assert 5 in Elems(Node(Leaf, 5, Leaf));
  }

  // ---------------------------------------------------------------------------
  // Removing a subtree

  /** Cutting the subtree at `p` out of the tree (removeFromTree on the node
      there) drops exactly its values from the in-order sequence, which stays
      sorted if it was. */
  lemma RemoveOrdered(t: Tree<int>, p: seq<Side>)
    requires IsPath(t, p)
    ensures InOrder(t) == Before(t, p) + InOrder(Sub(t, p)) + After(t, p)
    ensures InOrder(ReplaceAt(t, p, Leaf)) == Before(t, p) + After(t, p)
    ensures Ordered(t) ==> Ordered(ReplaceAt(t, p, Leaf))
  {
    SplitInOrder(t, p);
    ReplaceInOrder(t, p, Leaf);
    assert Before(t, p) + InOrder(Leaf) + After(t, p) == Before(t, p) + After(t, p);
    if Ordered(t) {
      SortedDrop(Before(t, p), InOrder(Sub(t, p)), After(t, p));
    }
  }

  lemma SortedDrop(a: seq<int>, m: seq<int>, b: seq<int>)
    requires Sorted(a + m + b)
    ensures Sorted(a + b)
  {
    var s, u := a + m + b, a + b;
    forall i, j | 0 <= i < j < |u| ensures u[i] <= u[j] {
      var i' := if i < |a| then i else i + |m|;
      var j' := if j < |a| then j else j + |m|;
      assert u[i] == s[i'] && u[j] == s[j'];
    }
  }
}
