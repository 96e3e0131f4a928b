/** What rotations do to pictures of AVL trees, balance factors included.

    In this module the tag of a node is its balance factor, the height of its right subtree minus
    the height of its left one.
 */
module AvlBalance {
  import opened TreeShape

  /** The documented invariant, balance part: exact factors within -1 .. 1 everywhere. */
  ghost predicate Avl<N>(t: Tree<N>) {
    match t
    case Nil => true
    case Bin(l, _, b, r) => b == Height(r) - Height(l) && -1 <= b <= 1 && Avl(l) && Avl(r)
  }

  /** An exact root over two AVL trees, possibly out of balance itself. */
  ghost predicate Skewed<N>(t: Tree<N>) {
    t.Bin? && t.tag == Height(t.right) - Height(t.left) && Avl(t.left) && Avl(t.right)
  }

  /** Every frame of the path is an AVL node when the hole holds an AVL tree of height `h`. */
  ghost predicate AvlPath<N>(path: Path<N>, h: int) {
    path == [] ||
    var f := path[|path| - 1];
    && f.tag == (if f.dir == LEFT then Height(f.sibling) - h else h - Height(f.sibling))
    && -1 <= f.tag <= 1 && Avl(f.sibling)
    && AvlPath(path[..|path| - 1], 1 + Max(h, Height(f.sibling)))
  }

  lemma {:induction false} AvlIsBalanced<N>(t: Tree<N>)
    requires Avl(t)
    ensures Balanced(t)
  {
    if t.Bin? {
      AvlIsBalanced(t.left);
      AvlIsBalanced(t.right);
    }
  }

  lemma {:induction false} AvlPlug<N>(path: Path<N>, t: Tree<N>)
    ensures Avl(Plug(path, t)) <==> Avl(t) && AvlPath(path, Height(t))
    decreases |path|
  {
    hide Avl, Height, Wrap;
    if path != [] {
      var f, init := path[|path| - 1], path[..|path| - 1];
      AvlPlug(init, Wrap(f, t));
      AvlWrap(f, t);
    }
  }

  lemma {:induction false} AvlWrap<N>(f: Frame<N>, t: Tree<N>)
    ensures Height(Wrap(f, t)) == 1 + Max(Height(t), Height(f.sibling))
    ensures Avl(Wrap(f, t)) <==>
      && f.tag == (if f.dir == LEFT then Height(f.sibling) - Height(t) else Height(t) - Height(f.sibling))
      && -1 <= f.tag <= 1 && Avl(f.sibling) && Avl(t)
  {
  }

  // -------------------------------------------------------------- rotations

  /** A right rotation with the closed-form update of the two balance factors. */
  ghost function RotatedRight<N>(t: Tree<N>): Tree<N>
    requires t.Bin? && t.left.Bin?
  {
    var b := t.tag + 1 - Min(t.left.tag, 0);
    Bin(t.left.left, t.left.node, t.left.tag + 1 + Max(b, 0), Bin(t.left.right, t.node, b, t.right))
  }

  /** A left rotation with the closed-form update of the two balance factors. */
  ghost function RotatedLeft<N>(t: Tree<N>): Tree<N>
    requires t.Bin? && t.right.Bin?
  {
    var b := t.tag - 1 - Max(t.right.tag, 0);
    Bin(Bin(t.left, t.node, b, t.right.left), t.right.node, t.right.tag - 1 + Min(b, 0), t.right.right)
  }

  /** The order, the nodes and their distinctness do not notice a change from `t` to `u`. */
  ghost predicate SameNodes<N>(t: Tree<N>, u: Tree<N>) {
    InOrder(u) == InOrder(t) && Nodes(u) == Nodes(t) && (Distinct(t) ==> Distinct(u))
  }

  lemma {:induction false} RotatedRightKeeps<N>(t: Tree<N>)
    requires t.Bin? && t.left.Bin?
    ensures SameNodes(t, RotatedRight(t))
  {
    var u, v := t.left, RotatedRight(t).right;
    assert InOrder(u) == InOrder(u.left) + [u.node] + InOrder(u.right);
    assert InOrder(v) == InOrder(u.right) + [t.node] + InOrder(t.right);
    assert Nodes(u) == Nodes(u.left) + {u.node} + Nodes(u.right);
    assert Nodes(v) == Nodes(u.right) + {t.node} + Nodes(t.right);
    if Distinct(t) {
      assert Distinct(u) && Distinct(v);
    }
  }

  lemma {:induction false} RotatedLeftKeeps<N>(t: Tree<N>)
    requires t.Bin? && t.right.Bin?
    ensures SameNodes(t, RotatedLeft(t))
  {
    var u, v := t.right, RotatedLeft(t).left;
    assert InOrder(u) == InOrder(u.left) + [u.node] + InOrder(u.right);
    assert InOrder(v) == InOrder(t.left) + [t.node] + InOrder(u.left);
    assert Nodes(u) == Nodes(u.left) + {u.node} + Nodes(u.right);
    assert Nodes(v) == Nodes(t.left) + {t.node} + Nodes(u.left);
    if Distinct(t) {
      assert Distinct(u) && Distinct(v);
    }
  }

  lemma {:induction false} SameNodesInside<N>(t: Tree<N>, u: Tree<N>)
    requires t.Bin? && u.Bin? && t.node == u.node
    requires SameNodes(t.left, u.left) && SameNodes(t.right, u.right)
    ensures SameNodes(t, u)
  {
  }

  /** The closed-form updates are exact whatever the heights are. */
  lemma {:induction false} RotationsExact<N>(a: Tree<N>, n: N, b: Tree<N>, m: N, c: Tree<N>)
    ensures var h := 1 + Max(Height(a), Height(b));
      var u := RotatedRight(Bin(Bin(a, n, Height(b) - Height(a), b), m, Height(c) - h, c));
      u.tag == Height(u.right) - Height(u.left) && u.right.tag == Height(c) - Height(b)
    ensures var h := 1 + Max(Height(b), Height(c));
      var u := RotatedLeft(Bin(a, n, h - Height(a), Bin(b, m, Height(c) - Height(b), c)));
      u.tag == Height(u.right) - Height(u.left) && u.left.tag == Height(b) - Height(a)
  {
  }

  /** The repair of a node that is too high on its left: a double rotation when its left child
      leans right, a single one otherwise. */
  ghost function RepairedLeft<N>(t: Tree<N>): Tree<N>
    requires Skewed(t) && t.tag == -2
  {
    if t.left.tag > 0 then RotatedRight(t.(left := RotatedLeft(t.left))) else RotatedRight(t)
  }

  ghost function RepairedRight<N>(t: Tree<N>): Tree<N>
    requires Skewed(t) && t.tag == 2
  {
    if t.right.tag < 0 then RotatedLeft(t.(right := RotatedRight(t.right))) else RotatedLeft(t)
  }

  lemma {:induction false} SingleRight<N>(t: Tree<N>)
    requires Skewed(t) && t.tag == -2 && t.left.tag <= 0
    ensures Avl(RotatedRight(t))
    ensures Height(RotatedRight(t)) == Height(t) - (if t.left.tag == 0 then 0 else 1)
  {
    assert Avl(RotatedRight(t).right);
  }

  lemma {:induction false} SingleLeft<N>(t: Tree<N>)
    requires Skewed(t) && t.tag == 2 && t.right.tag >= 0
    ensures Avl(RotatedLeft(t))
    ensures Height(RotatedLeft(t)) == Height(t) - (if t.right.tag == 0 then 0 else 1)
  {
    assert Avl(RotatedLeft(t).left);
  }

  /** The inner rotation of a double one leaves a child that is two off at most. */
  lemma {:induction false} InnerLeft<N>(t: Tree<N>)
    requires Avl(t) && t.Bin? && t.tag == 1
    ensures var l := RotatedLeft(t);
      && Height(l) == Height(t) && -2 <= l.tag <= -1
      && l.tag == Height(l.right) - Height(l.left)
      && Avl(l.left) && Avl(l.right)
  {
    assert Avl(t.right);
  }

  lemma {:induction false} InnerRight<N>(t: Tree<N>)
    requires Avl(t) && t.Bin? && t.tag == -1
    ensures var r := RotatedRight(t);
      && Height(r) == Height(t) && 1 <= r.tag <= 2
      && r.tag == Height(r.right) - Height(r.left)
      && Avl(r.left) && Avl(r.right)
  {
    assert Avl(t.left);
  }

  lemma {:induction false} OuterRight<N>(t: Tree<N>)
    requires t.Bin? && t.left.Bin? && Avl(t.right)
    requires t.tag == -2 == Height(t.right) - Height(t.left)
    requires -2 <= t.left.tag <= -1 && t.left.tag == Height(t.left.right) - Height(t.left.left)
    requires Avl(t.left.left) && Avl(t.left.right)
    ensures Avl(RotatedRight(t)) && Height(RotatedRight(t)) == Height(t) - 1
  {
    assert Avl(RotatedRight(t).right);
  }

  lemma {:induction false} OuterLeft<N>(t: Tree<N>)
    requires t.Bin? && t.right.Bin? && Avl(t.left)
    requires t.tag == 2 == Height(t.right) - Height(t.left)
    requires 1 <= t.right.tag <= 2 && t.right.tag == Height(t.right.right) - Height(t.right.left)
    requires Avl(t.right.left) && Avl(t.right.right)
    ensures Avl(RotatedLeft(t)) && Height(RotatedLeft(t)) == Height(t) - 1
  {
    assert Avl(RotatedLeft(t).left);
  }

  /** A repair yields an AVL tree; it is one lower unless the high child was even. */
  lemma {:induction false} RepairedLeftIsAvl<N>(t: Tree<N>)
    requires Skewed(t) && t.tag == -2
    ensures Avl(RepairedLeft(t))
    ensures Height(RepairedLeft(t)) == Height(t) - (if t.left.tag == 0 then 0 else 1)
  {
    if t.left.tag > 0 {
      InnerLeft(t.left);
      OuterRight(t.(left := RotatedLeft(t.left)));
    } else {
      SingleRight(t);
    }
  }

  lemma {:induction false} RepairedRightIsAvl<N>(t: Tree<N>)
    requires Skewed(t) && t.tag == 2
    ensures Avl(RepairedRight(t))
    ensures Height(RepairedRight(t)) == Height(t) - (if t.right.tag == 0 then 0 else 1)
  {
    if t.right.tag < 0 {
      InnerRight(t.right);
      OuterLeft(t.(right := RotatedRight(t.right)));
    } else {
      SingleLeft(t);
    }
  }

  /** A repair keeps the nodes and their order. */
  lemma {:induction false} RepairedLeftKeeps<N>(t: Tree<N>)
    requires Skewed(t) && t.tag == -2
    ensures SameNodes(t, RepairedLeft(t))
  {
    if t.left.tag > 0 {
      var m := t.(left := RotatedLeft(t.left));
      RotatedLeftKeeps(t.left);
      SameNodesInside(t, m);
      RotatedRightKeeps(m);
    } else {
      RotatedRightKeeps(t);
    }
  }

  lemma {:induction false} RepairedRightKeeps<N>(t: Tree<N>)
    requires Skewed(t) && t.tag == 2
    ensures SameNodes(t, RepairedRight(t))
  {
    if t.right.tag < 0 {
      var m := t.(right := RotatedRight(t.right));
      RotatedRightKeeps(t.right);
      SameNodesInside(t, m);
      RotatedLeftKeeps(m);
    } else {
      RotatedLeftKeeps(t);
    }
  }
}
