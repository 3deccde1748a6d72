/** Binary trees as values, positions in them (paths of sides from the root),
    and the two structural edits the program performs: replacing the subtree at
    a position, and the single rotation of rotate(). The trees are generic: the
    node arena instantiates them with node ids (the shape of the linked
    structure), the ordering lemmas with node values. */
module Trees {

  /** The "left" | "right" tag of the source. */
  datatype Side = Left | Right

  function Opposite(s: Side): (o: Side)
    ensures o != s
  {
    if s == Left then Right else Left
  }

  datatype Tree<T> = Leaf | Node(left: Tree<T>, key: T, right: Tree<T>)

  function Child<T>(t: Tree<T>, s: Side): Tree<T>
    requires t.Node?
  {
    if s == Left then t.left else t.right
  }

  function WithChild<T>(t: Tree<T>, s: Side, c: Tree<T>): Tree<T>
    requires t.Node?
  {
    if s == Left then Node(c, t.key, t.right) else Node(t.left, t.key, c)
  }

  function InOrder<T>(t: Tree<T>): seq<T>
  {
    match t
    case Leaf => []
    case Node(l, k, r) => InOrder(l) + [k] + InOrder(r)
  }

  function Elems<T>(t: Tree<T>): set<T>
  {
    match t
    case Leaf => {}
    case Node(l, k, r) => Elems(l) + {k} + Elems(r)
  }

  function Size<T>(t: Tree<T>): nat
  {
    match t
    case Leaf => 0
    case Node(l, _, r) => Size(l) + 1 + Size(r)
  }

  /** No key occurs twice: the nodes of a linked structure are distinct objects. */
  predicate Distinct<T(==)>(t: Tree<T>)
  {
    match t
    case Leaf => true
    case Node(l, k, r) =>
      Distinct(l) && Distinct(r) && k !in Elems(l) && k !in Elems(r) && Elems(l) !! Elems(r)
  }

  /** `p` leads from the root to a position of `t` (a node or an empty slot). */
  predicate IsPath<T>(t: Tree<T>, p: seq<Side>)
  {
    |p| == 0 || (t.Node? && IsPath(Child(t, p[0]), p[1..]))
  }

  /** The subtree at position `p`. */
  function Sub<T>(t: Tree<T>, p: seq<Side>): Tree<T>
    requires IsPath(t, p)
  {
    if |p| == 0 then t else Sub(Child(t, p[0]), p[1..])
  }

  /** `t` with the subtree at position `p` replaced by `x`. */
  function ReplaceAt<T>(t: Tree<T>, p: seq<Side>, x: Tree<T>): Tree<T>
    requires IsPath(t, p)
  {
    if |p| == 0 then x else WithChild(t, p[0], ReplaceAt(Child(t, p[0]), p[1..], x))
  }

  /** The single rotation of rotate(): the child on side `s` (the pivot) takes
      the place of `t`, `t` becomes the pivot's child on the opposite side, and
      the pivot's former opposite-side subtree (the displaced one) moves into
      the slot of `t` that the pivot vacated. */
  function RotateRoot<T>(t: Tree<T>, s: Side): Tree<T>
    requires t.Node? && Child(t, s).Node?
  {
    var pivot := Child(t, s);
    var opp := Opposite(s);
    WithChild(pivot, opp, WithChild(t, s, Child(pivot, opp)))
  }

  /** Rotation of the pivot that hangs on side `s` of the node at position `pre`. */
  function RotateAt<T>(t: Tree<T>, pre: seq<Side>, s: Side): Tree<T>
    requires IsPath(t, pre) && Sub(t, pre).Node? && Child(Sub(t, pre), s).Node?
  {
    ReplaceAt(t, pre, RotateRoot(Sub(t, pre), s))
  }

  /** The in-order sequence of `t` before the position `p`. */
  function Before<T>(t: Tree<T>, p: seq<Side>): seq<T>
    requires IsPath(t, p)
  {
    if |p| == 0 then []
    else if p[0] == Left then Before(t.left, p[1..])
    else InOrder(t.left) + [t.key] + Before(t.right, p[1..])
  }

  /** The in-order sequence of `t` after the position `p`. */
  function After<T>(t: Tree<T>, p: seq<Side>): seq<T>
    requires IsPath(t, p)
  {
    if |p| == 0 then []
    else if p[0] == Left then After(t.left, p[1..]) + [t.key] + InOrder(t.right)
    else After(t.right, p[1..])
  }

  /** The path from the root to the node holding `x`. */
  function PathTo<T(==)>(t: Tree<T>, x: T): (p: seq<Side>)
    requires x in Elems(t)
    ensures IsPath(t, p) && Sub(t, p).Node? && Sub(t, p).key == x
  {
    if t.key == x then []
    else if x in Elems(t.left) then [Left] + PathTo(t.left, x)
    else [Right] + PathTo(t.right, x)
  }

  // ---------------------------------------------------------------------------
  // Positions

  lemma {:induction false} SubSnoc<T>(t: Tree<T>, pre: seq<Side>, s: Side)
    requires IsPath(t, pre) && Sub(t, pre).Node?
    ensures IsPath(t, pre + [s]) && Sub(t, pre + [s]) == Child(Sub(t, pre), s)
  {
    if |pre| > 0 {
      assert (pre + [s])[1..] == pre[1..] + [s];
      SubSnoc(Child(t, pre[0]), pre[1..], s);
    }
  }

  lemma {:induction false} ReplaceSnoc<T>(t: Tree<T>, pre: seq<Side>, s: Side, x: Tree<T>)
    requires IsPath(t, pre) && Sub(t, pre).Node?
    ensures IsPath(t, pre + [s])
    ensures ReplaceAt(t, pre + [s], x) == ReplaceAt(t, pre, WithChild(Sub(t, pre), s, x))
  {
    SubSnoc(t, pre, s);
    if |pre| > 0 {
      assert (pre + [s])[1..] == pre[1..] + [s];
      ReplaceSnoc(Child(t, pre[0]), pre[1..], s, x);
    }
  }

  /** Splitting a path into its last step: the node at a non-empty path hangs
      on side `p[|p|-1]` of the node at the path's prefix. */
  lemma SplitLast<T>(t: Tree<T>, p: seq<Side>)
    requires IsPath(t, p) && |p| > 0
    ensures p == p[..|p| - 1] + [p[|p| - 1]]
    ensures IsPath(t, p[..|p| - 1]) && Sub(t, p[..|p| - 1]).Node?
    ensures Sub(t, p) == Child(Sub(t, p[..|p| - 1]), p[|p| - 1])
  {
    PrefixIsPath(t, p, |p| - 1);
    SubSnoc(t, p[..|p| - 1], p[|p| - 1]);
  }

  lemma {:induction false} PrefixIsPath<T>(t: Tree<T>, p: seq<Side>, k: nat)
    requires IsPath(t, p) && k < |p|
    ensures IsPath(t, p[..k]) && Sub(t, p[..k]).Node?
  {
    if k > 0 {
      assert p[..k][1..] == p[1..][..k - 1];
      PrefixIsPath(Child(t, p[0]), p[1..], k - 1);
    }
  }

  lemma {:induction false} SubElems<T>(t: Tree<T>, p: seq<Side>)
    requires IsPath(t, p)
    ensures Elems(Sub(t, p)) <= Elems(t)
    ensures |p| > 0 ==> Elems(Sub(t, p)) <= Elems(Child(t, p[0]))
    ensures |p| > 0 && Distinct(t) ==> t.key !in Elems(Sub(t, p))
  {
    if |p| > 0 {
      SubElems(Child(t, p[0]), p[1..]);
    }
  }

  lemma {:induction false} DistinctSub<T>(t: Tree<T>, p: seq<Side>)
    requires IsPath(t, p) && Distinct(t)
    ensures Distinct(Sub(t, p))
  {
    if |p| > 0 {
      DistinctSub(Child(t, p[0]), p[1..]);
    }
  }

  lemma {:induction false} ReplaceSelf<T>(t: Tree<T>, p: seq<Side>)
    requires IsPath(t, p)
    ensures ReplaceAt(t, p, Sub(t, p)) == t
  {
    if |p| > 0 {
      ReplaceSelf(Child(t, p[0]), p[1..]);
    }
  }

  /** Replacing a subtree keeps the rest of the tree and the keys outside it. */
  lemma {:induction false} ReplaceElems<T>(t: Tree<T>, p: seq<Side>, x: Tree<T>)
    requires IsPath(t, p) && Distinct(t) && Distinct(x)
    requires Elems(x) !! (Elems(t) - Elems(Sub(t, p)))
    ensures Elems(ReplaceAt(t, p, x)) == (Elems(t) - Elems(Sub(t, p))) + Elems(x)
    ensures Distinct(ReplaceAt(t, p, x))
  {
    if |p| > 0 {
      var c := Child(t, p[0]);
      SubElems(t, p);
      ReplaceElems(c, p[1..], x);
    }
  }

  // ---------------------------------------------------------------------------
  // In-order sequences

  /** The in-order sequence of a tree with its subtree at `p` replaced by `x`
      is the same context around the in-order sequence of `x`. */
  lemma {:induction false} ReplaceInOrder<T>(t: Tree<T>, p: seq<Side>, x: Tree<T>)
    requires IsPath(t, p)
    ensures InOrder(ReplaceAt(t, p, x)) == Before(t, p) + InOrder(x) + After(t, p)
  {
    if |p| > 0 {
      ReplaceInOrder(Child(t, p[0]), p[1..], x);
    }
  }

  lemma SplitInOrder<T>(t: Tree<T>, p: seq<Side>)
    requires IsPath(t, p)
    ensures InOrder(t) == Before(t, p) + InOrder(Sub(t, p)) + After(t, p)
  {
    ReplaceSelf(t, p);
    ReplaceInOrder(t, p, Sub(t, p));
  }

  lemma RotateRootInOrder<T>(t: Tree<T>, s: Side)
    requires t.Node? && Child(t, s).Node?
    ensures InOrder(RotateRoot(t, s)) == InOrder(t)
    ensures Elems(RotateRoot(t, s)) == Elems(t)
    ensures Distinct(t) ==> Distinct(RotateRoot(t, s))
  {
    if s == Left {
      var Node(Node(a, x, b), y, c) := t;
      assert RotateRoot(t, s) == Node(a, x, Node(b, y, c));
      if Distinct(t) {
        assert t.left == Node(a, x, b);
        assert Distinct(t.left);
        assert Distinct(a) && Distinct(b);
        assert Distinct(Node(b, y, c));
      }
    } else {
      var Node(c, y, Node(a, x, b)) := t;
      assert RotateRoot(t, s) == Node(Node(c, y, a), x, b);
      if Distinct(t) {
        assert t.right == Node(a, x, b);
        assert Distinct(t.right);
        assert Distinct(a) && Distinct(b);
        assert Distinct(Node(c, y, a));
      }
    }
  }

  /** Rules 1 and 3 of rotate(): the order of values is preserved, and the pivot
      takes the place of its old parent. */
  lemma RotateInOrder<T>(t: Tree<T>, pre: seq<Side>, s: Side)
    requires IsPath(t, pre) && Sub(t, pre).Node? && Child(Sub(t, pre), s).Node?
    ensures InOrder(RotateAt(t, pre, s)) == InOrder(t)
    ensures IsPath(RotateAt(t, pre, s), pre)
    ensures Sub(RotateAt(t, pre, s), pre).Node?
    ensures Sub(RotateAt(t, pre, s), pre).key == Child(Sub(t, pre), s).key
  {
    RotateRootInOrder(Sub(t, pre), s);
    ReplaceInOrder(t, pre, RotateRoot(Sub(t, pre), s));
    SplitInOrder(t, pre);
    ReplaceSub(t, pre, RotateRoot(Sub(t, pre), s));
  }

  lemma {:induction false} ReplaceSub<T>(t: Tree<T>, p: seq<Side>, x: Tree<T>)
    requires IsPath(t, p)
    ensures IsPath(ReplaceAt(t, p, x), p) && Sub(ReplaceAt(t, p, x), p) == x
  {
    if |p| > 0 {
      ReplaceSub(Child(t, p[0]), p[1..], x);
    }
  }

  lemma RotateElems<T>(t: Tree<T>, pre: seq<Side>, s: Side)
    requires IsPath(t, pre) && Sub(t, pre).Node? && Child(Sub(t, pre), s).Node?
    requires Distinct(t)
    ensures Elems(RotateAt(t, pre, s)) == Elems(t) && Distinct(RotateAt(t, pre, s))
  {
    var x := Sub(t, pre);
    DistinctSub(t, pre);
    RotateRootInOrder(x, s);
    SubElems(t, pre);
    ReplaceElems(t, pre, RotateRoot(x, s));
  }
}
