/** Snapshots of the nodes of an AVL tree, and what pointer moves do to them.

    A `View` holds the root pointer and the fields of the nodes in hand.  `Realises(v, path, t)`
    says that in `v` the nodes are linked as the picture `t` put in the hole of `path`, and carry
    the balance factors of that picture.  Every assignment and rotation of the C++ code is a
    function on views, and a lemma says what it does to the picture.
 */
module AvlView {
  import opened TreeShape
  import opened AvlBalance

  /** An item of the tree, compared by its key. */
  datatype Item = Item(key: int, value: int)

  /** Balance factors are signed bytes. */
  type balance_t = b: int | -128 <= b < 128

  class Node {
    var left: Node?
    var right: Node?
    var bal: balance_t
    var data: Item

    constructor (item: Item)
      ensures left == null && right == null && bal == 0 && data == item
    {
      left, right, bal, data := null, null, 0, item;
    }
  }

  datatype Entry = Entry(node: Node, dir: Dir)

  const MAX_HEIGHT := 32

  /** The stack of visited nodes has a fixed capacity: a push on a full stack is an error. */
  type Stack = s: seq<Entry> | |s| <= MAX_HEIGHT

  // ------------------------------------------------------------------ views

  datatype Rec = Rec(left: Node?, right: Node?, bal: int)

  datatype View = View(root: Node?, mem: map<Node, Rec>)

  ghost function Top(t: Tree<Node>): Node? { if t.Nil? then null else t.node }

  /** The nodes of `t` have the children and the balance factors of the picture. */
  ghost predicate Real(t: Tree<Node>, m: map<Node, Rec>) {
    match t
    case Nil => true
    case Bin(l, n, b, r) => n in m && m[n] == Rec(Top(l), Top(r), b) && Real(l, m) && Real(r, m)
  }

  /** The nodes of the path agree with it when the hole holds the node `top`. */
  ghost predicate RealPath(path: Path<Node>, top: Node?, m: map<Node, Rec>) {
    path == [] ||
    var f, init := path[|path| - 1], path[..|path| - 1];
    && f.node in m
    && m[f.node] == (if f.dir == LEFT then Rec(top, Top(f.sibling), f.tag) else Rec(Top(f.sibling), top, f.tag))
    && Real(f.sibling, m)
    && RealPath(init, f.node, m)
  }

  ghost predicate Realises(v: View, path: Path<Node>, t: Tree<Node>) {
    && Real(t, v.mem) && RealPath(path, Top(t), v.mem)
    && v.root == (if path == [] then Top(t) else path[0].node)
  }

  ghost predicate Separate(path: Path<Node>, t: Tree<Node>) {
    Distinct(t) && DistinctPath(path) && Nodes(t) !! PathNodes(path)
  }

  ghost function StackOf(path: Path<Node>): (s: seq<Entry>)
    ensures |s| == |path|
  {
    seq(|path|, i requires 0 <= i < |path| => Entry(path[i].node, path[i].dir))
  }

  /** Moving the hole one frame up or down is only a change of point of view. */
  lemma {:induction false} RealisesUp(v: View, path: Path<Node>, f: Frame<Node>, t: Tree<Node>)
    ensures Realises(v, path + [f], t) <==> Realises(v, path, Wrap(f, t))
  {
    assert (path + [f])[..|path|] == path;
  }

  lemma {:induction false} RealisesPlug(v: View, path: Path<Node>, t: Tree<Node>)
    ensures Realises(v, path, t) <==> Realises(v, [], Plug(path, t))
    decreases |path|
  {
    if path != [] {
      var f, init := path[|path| - 1], path[..|path| - 1];
      assert path == init + [f];
      RealisesUp(v, init, f, t);
      RealisesPlug(v, init, Wrap(f, t));
    }
  }

  lemma {:induction false} RealFrame(t: Tree<Node>, m: map<Node, Rec>, m': map<Node, Rec>)
    requires Real(t, m)
    requires forall n :: n in Nodes(t) && n in m ==> n in m' && m'[n] == m[n]
    ensures Real(t, m')
  {
    if t.Bin? {
      RealFrame(t.left, m, m');
      RealFrame(t.right, m, m');
    }
  }

  lemma {:induction false} RealPathFrame(path: Path<Node>, top: Node?, m: map<Node, Rec>, m': map<Node, Rec>)
    requires RealPath(path, top, m)
    requires forall n :: n in PathNodes(path) && n in m ==> n in m' && m'[n] == m[n]
    ensures RealPath(path, top, m')
    decreases |path|
  {
    if path != [] {
      var f, init := path[|path| - 1], path[..|path| - 1];
      RealPathFrame(init, f.node, m, m');
      RealFrame(f.sibling, m, m');
    }
  }

  // ---------------------------------------------- pointer moves, on views

  /** `*link(s) = n` */
  ghost function Relinked(v: View, s: seq<Entry>, n: Node?): View
    requires s != [] ==> s[|s| - 1].node in v.mem
  {
    if s == [] then v.(root := n)
    else
      var e := s[|s| - 1];
      v.(mem := v.mem[e.node := if e.dir == LEFT then v.mem[e.node].(left := n) else v.mem[e.node].(right := n)])
  }

  ghost function Rebalanced(v: View, n: Node, b: int): View
    requires n in v.mem
  {
    v.(mem := v.mem[n := v.mem[n].(bal := b)])
  }

  /** Filling the hole with another tree. */
  lemma {:induction false} RelinkRealises(v: View, path: Path<Node>, t: Tree<Node>, u: Tree<Node>)
    requires RealPath(path, Top(t), v.mem) && (path != [] ==> v.root == path[0].node)
    requires Real(u, v.mem) && DistinctPath(path) && Nodes(u) !! PathNodes(path)
    requires path != [] ==> StackOf(path)[|path| - 1].node in v.mem
    ensures Realises(Relinked(v, StackOf(path), Top(u)), path, u)
  {
    if path != [] {
      var f, init := path[|path| - 1], path[..|path| - 1];
      var v' := Relinked(v, StackOf(path), Top(u));
      RealFrame(u, v.mem, v'.mem);
      RealFrame(f.sibling, v.mem, v'.mem);
      RealPathFrame(init, f.node, v.mem, v'.mem);
    }
  }

  /** The relinking part of `rotateRight`: `nr` replaces its parent `r`, which goes below it. */
  ghost function RightTurned(v: View, s: seq<Entry>, r: Node, nr: Node): View
    requires s != [] ==> s[|s| - 1].node in v.mem
    requires r in v.mem && nr in v.mem
  {
    var v1 := Relinked(v, s, nr);
    var m1 := v1.mem[r := v1.mem[r].(left := v1.mem[nr].right)];
    v1.(mem := m1[nr := m1[nr].(right := r)])
  }

  /** The relinking part of `rotateLeft`. */
  ghost function LeftTurned(v: View, s: seq<Entry>, r: Node, nr: Node): View
    requires s != [] ==> s[|s| - 1].node in v.mem
    requires r in v.mem && nr in v.mem
  {
    var v1 := Relinked(v, s, nr);
    var m1 := v1.mem[r := v1.mem[r].(right := v1.mem[nr].left)];
    v1.(mem := m1[nr := m1[nr].(left := r)])
  }

  lemma {:induction false} TurnedKeys(v: View, s: seq<Entry>, r: Node, nr: Node)
    requires s != [] ==> s[|s| - 1].node in v.mem
    requires r in v.mem && nr in v.mem
    ensures RightTurned(v, s, r, nr).mem.Keys == v.mem.Keys && LeftTurned(v, s, r, nr).mem.Keys == v.mem.Keys
  {
  }

  /** Two new balance factors. */
  ghost function Reweighed(v: View, r: Node, b: int, nr: Node, nb: int): View
    requires r in v.mem && nr in v.mem
  {
    Rebalanced(Rebalanced(v, r, b), nr, nb)
  }

  ghost function RightRotated(v: View, s: seq<Entry>, r: Node, nr: Node): View
    requires s != [] ==> s[|s| - 1].node in v.mem
    requires r in v.mem && nr in v.mem
  {
    var b := v.mem[r].bal + 1 - Min(v.mem[nr].bal, 0);
    Reweighed(RightTurned(v, s, r, nr), r, b, nr, v.mem[nr].bal + 1 + Max(b, 0))
  }

  ghost function LeftRotated(v: View, s: seq<Entry>, r: Node, nr: Node): View
    requires s != [] ==> s[|s| - 1].node in v.mem
    requires r in v.mem && nr in v.mem
  {
    var b := v.mem[r].bal - 1 - Max(v.mem[nr].bal, 0);
    Reweighed(LeftTurned(v, s, r, nr), r, b, nr, v.mem[nr].bal - 1 + Min(b, 0))
  }

  /** A view that differs from `v` only at the nodes of `t` and in the link to `t`. */
  lemma {:induction false} LocalChange(v: View, v': View, path: Path<Node>, t: Tree<Node>, u: Tree<Node>)
    requires Realises(v, path, t) && Separate(path, t) && Nodes(u) <= Nodes(t)
    requires path != [] ==> StackOf(path)[|path| - 1].node in v.mem
    requires v'.root == Relinked(v, StackOf(path), Top(u)).root
    requires forall n :: n in v.mem && n !in Nodes(t) ==>
      n in v'.mem && v'.mem[n] == Relinked(v, StackOf(path), Top(u)).mem[n]
    requires Real(u, v'.mem)
    ensures Realises(v', path, u)
  {
    if path != [] {
      var f, init := path[|path| - 1], path[..|path| - 1];
      RealFrame(f.sibling, v.mem, v'.mem);
      RealPathFrame(init, f.node, v.mem, v'.mem);
    }
  }

  lemma {:induction false} RightRotationRealises(v: View, path: Path<Node>, t: Tree<Node>)
    requires t.Bin? && t.left.Bin? && Realises(v, path, t) && Separate(path, t)
    requires t.node in v.mem && t.left.node in v.mem
    requires path != [] ==> StackOf(path)[|path| - 1].node in v.mem
    ensures Realises(RightRotated(v, StackOf(path), t.node, t.left.node), path, RotatedRight(t))
  {
    var v' := RightRotated(v, StackOf(path), t.node, t.left.node);
    var u := RotatedRight(t);
    assert Real(t.left, v.mem) && Distinct(t.left);
    RotatedRightKeeps(t);
    RealFrame(t.left.left, v.mem, v'.mem);
    RealFrame(t.left.right, v.mem, v'.mem);
    RealFrame(t.right, v.mem, v'.mem);
    assert Real(u.right, v'.mem);
    LocalChange(v, v', path, t, u);
  }

  lemma {:induction false} LeftRotationRealises(v: View, path: Path<Node>, t: Tree<Node>)
    requires t.Bin? && t.right.Bin? && Realises(v, path, t) && Separate(path, t)
    requires t.node in v.mem && t.right.node in v.mem
    requires path != [] ==> StackOf(path)[|path| - 1].node in v.mem
    ensures Realises(LeftRotated(v, StackOf(path), t.node, t.right.node), path, RotatedLeft(t))
  {
    var v' := LeftRotated(v, StackOf(path), t.node, t.right.node);
    var u := RotatedLeft(t);
    assert Real(t.right, v.mem) && Distinct(t.right);
    RotatedLeftKeeps(t);
    RealFrame(t.right.left, v.mem, v'.mem);
    RealFrame(t.right.right, v.mem, v'.mem);
    RealFrame(t.left, v.mem, v'.mem);
    assert Real(u.left, v'.mem);
    LocalChange(v, v', path, t, u);
  }

  /** Changing the balance factor of the node above the hole, then taking it out of the path. */
  lemma {:induction false} RebalanceRealises(v: View, path: Path<Node>, f: Frame<Node>, t: Tree<Node>, b: int)
    requires Realises(v, path + [f], t) && Separate(path + [f], t)
    requires f.node in v.mem && (path != [] ==> StackOf(path)[|path| - 1].node in v.mem)
    ensures Realises(Rebalanced(v, f.node, b), path, Wrap(f.(tag := b), t))
    ensures Separate(path, Wrap(f.(tag := b), t))
  {
    hide Nodes, PathNodes, Distinct, DistinctPath;
    var v', u := Rebalanced(v, f.node, b), Wrap(f, t);
    assert (path + [f])[..|path|] == path;
    RealisesUp(v, path, f, t);
    SeparateUp(path, f, t);
    RetaggedSeparate(path, f, t, b);
    RealFrame(t, v.mem, v'.mem);
    RealFrame(f.sibling, v.mem, v'.mem);
    assert Real(u, v.mem);
    assert Real(Wrap(f.(tag := b), t), v'.mem);
    LocalChange(v, v', path, u, Wrap(f.(tag := b), t));
  }

  lemma {:induction false} RetaggedSeparate(path: Path<Node>, f: Frame<Node>, t: Tree<Node>, b: int)
    ensures Separate(path, Wrap(f.(tag := b), t)) <==> Separate(path, Wrap(f, t))
    ensures Nodes(Wrap(f.(tag := b), t)) == Nodes(Wrap(f, t)) && f.node in Nodes(Wrap(f, t))
    ensures Distinct(Wrap(f, t)) ==> f.node !in Nodes(t) && f.node !in Nodes(f.sibling)
  {
  }

  lemma {:induction false} SeparateUp(path: Path<Node>, f: Frame<Node>, t: Tree<Node>)
    ensures Separate(path + [f], t) <==> Separate(path, Wrap(f, t))
  {
    assert (path + [f])[..|path|] == path;
  }

  /** The fields of the root of a tree in hand. */
  lemma {:induction false} RealRoot(t: Tree<Node>, m: map<Node, Rec>)
    requires t.Bin? && Real(t, m) && Distinct(t)
    ensures t.node in m && m[t.node] == Rec(Top(t.left), Top(t.right), t.tag)
    ensures Real(t.left, m) && Real(t.right, m) && Distinct(t.left) && Distinct(t.right)
    ensures t.left.Bin? ==> t.left.node in m && t.left.node != t.node
    ensures t.right.Bin? ==> t.right.node in m && t.right.node != t.node
  {
    assert Real(t.left, m) && Real(t.right, m);
  }

  /** The node above the hole is in hand. */
  lemma {:induction false} RealLast(path: Path<Node>, top: Node?, m: map<Node, Rec>)
    requires RealPath(path, top, m)
    ensures path != [] ==> StackOf(path)[|path| - 1].node in m
  {
  }

  /** A node and its child can be rotated. */
  ghost predicate Rotatable(m: map<Node, Rec>, r: Node, nr: Node?) {
    && r in m && nr != null && nr in m && nr != r
    && -2 <= m[r].bal <= 2 && -2 <= m[nr].bal <= 2
  }

  lemma {:induction false} InnerLeftRotatable(v: View, path: Path<Node>, u: Tree<Node>)
    requires Realises(v, path, u) && Separate(path, u) && Skewed(u) && u.tag == -2 && u.left.tag == 1
    ensures u.node in v.mem && v.mem[u.node].left == u.left.node && u.left.right.Bin?
    ensures Rotatable(v.mem, u.left.node, u.left.right.node) && v.mem[u.left.node].right == u.left.right.node
    ensures u.Bin? && u.left.Bin? && u.left.right.Bin?
    ensures u.left.node in v.mem && u.left.right.node in v.mem && u.node in v.mem
    ensures path != [] ==> StackOf(path)[|path| - 1].node in v.mem
  {
    RealLast(path, u.node, v.mem);
    assert Avl(u.left) && Avl(u.left.right);
    RealRoot(u, v.mem);
    RealRoot(u.left, v.mem);
    RealRoot(u.left.right, v.mem);
  }

  /** The inner rotation of a double one, seen from the node above it. */
  lemma {:induction false} InnerLeftRealises(v: View, path: Path<Node>, u: Tree<Node>)
    requires Realises(v, path, u) && Separate(path, u)
    requires u.Bin? && u.left.Bin? && u.left.right.Bin?
    requires u.node in v.mem && u.left.node in v.mem && u.left.right.node in v.mem
    ensures var m := u.(left := RotatedLeft(u.left));
      var v' := LeftRotated(v, StackOf(path) + [Entry(u.node, LEFT)], u.left.node, u.left.right.node);
      && Realises(v', path, m) && Separate(path, m) && v'.mem.Keys == v.mem.Keys
  {
    var f := Frame(u.node, u.tag, LEFT, u.right);
    assert StackOf(path + [f]) == StackOf(path) + [Entry(u.node, LEFT)];
    RealisesUp(v, path, f, u.left);
    SeparateUp(path, f, u.left);
    LeftRotationRealises(v, path + [f], u.left);
    RealisesUp(LeftRotated(v, StackOf(path + [f]), u.left.node, u.left.right.node), path, f, RotatedLeft(u.left));
    RotatedLeftKeeps(u.left);
    SeparateUp(path, f, RotatedLeft(u.left));
  }

  lemma {:induction false} OuterRightRotatable(v: View, path: Path<Node>, u: Tree<Node>)
    requires Skewed(u) && u.tag == -2 && u.left.tag == 1
    requires var m := u.(left := RotatedLeft(u.left)); Realises(v, path, m) && Separate(path, m)
    ensures var m := u.(left := RotatedLeft(u.left));
      Rotatable(v.mem, m.node, m.left.node) && v.mem[m.node].left == m.left.node
    ensures u.node in v.mem && u.left.right.node in v.mem
    ensures RightRotated(v, StackOf(path), u.node, u.left.right.node).mem.Keys == v.mem.Keys
  {
    RealLast(path, u.node, v.mem);
    assert Avl(u.left) && Avl(u.left.right);
    RealRoot(u.(left := RotatedLeft(u.left)), v.mem);
    RealRoot(RotatedLeft(u.left), v.mem);
  }

  lemma {:induction false} InnerRightRotatable(v: View, path: Path<Node>, u: Tree<Node>)
    requires Realises(v, path, u) && Separate(path, u) && Skewed(u) && u.tag == 2 && u.right.tag == -1
    ensures u.node in v.mem && v.mem[u.node].right == u.right.node && u.right.left.Bin?
    ensures Rotatable(v.mem, u.right.node, u.right.left.node) && v.mem[u.right.node].left == u.right.left.node
    ensures u.Bin? && u.right.Bin? && u.right.left.Bin?
    ensures u.right.node in v.mem && u.right.left.node in v.mem && u.node in v.mem
    ensures path != [] ==> StackOf(path)[|path| - 1].node in v.mem
  {
    RealLast(path, u.node, v.mem);
    assert Avl(u.right) && Avl(u.right.left);
    RealRoot(u, v.mem);
    RealRoot(u.right, v.mem);
    RealRoot(u.right.left, v.mem);
  }

  /** The inner rotation of a double one, seen from the node above it. */
  lemma {:induction false} InnerRightRealises(v: View, path: Path<Node>, u: Tree<Node>)
    requires Realises(v, path, u) && Separate(path, u)
    requires u.Bin? && u.right.Bin? && u.right.left.Bin?
    requires u.node in v.mem && u.right.node in v.mem && u.right.left.node in v.mem
    ensures var m := u.(right := RotatedRight(u.right));
      var v' := RightRotated(v, StackOf(path) + [Entry(u.node, RIGHT)], u.right.node, u.right.left.node);
      && Realises(v', path, m) && Separate(path, m) && v'.mem.Keys == v.mem.Keys
  {
    var f := Frame(u.node, u.tag, RIGHT, u.left);
    assert StackOf(path + [f]) == StackOf(path) + [Entry(u.node, RIGHT)];
    RealisesUp(v, path, f, u.right);
    SeparateUp(path, f, u.right);
    RightRotationRealises(v, path + [f], u.right);
    RealisesUp(RightRotated(v, StackOf(path + [f]), u.right.node, u.right.left.node), path, f, RotatedRight(u.right));
    RotatedRightKeeps(u.right);
    SeparateUp(path, f, RotatedRight(u.right));
  }

  lemma {:induction false} OuterLeftRotatable(v: View, path: Path<Node>, u: Tree<Node>)
    requires Skewed(u) && u.tag == 2 && u.right.tag == -1
    requires var m := u.(right := RotatedRight(u.right)); Realises(v, path, m) && Separate(path, m)
    ensures var m := u.(right := RotatedRight(u.right));
      Rotatable(v.mem, m.node, m.right.node) && v.mem[m.node].right == m.right.node
    ensures u.node in v.mem && u.right.left.node in v.mem
    ensures LeftRotated(v, StackOf(path), u.node, u.right.left.node).mem.Keys == v.mem.Keys
  {
    RealLast(path, u.node, v.mem);
    assert Avl(u.right) && Avl(u.right.left);
    RealRoot(u.(right := RotatedRight(u.right)), v.mem);
    RealRoot(RotatedRight(u.right), v.mem);
  }

  lemma {:induction false} TopRotatable(v: View, path: Path<Node>, u: Tree<Node>)
    requires Realises(v, path, u) && Separate(path, u) && Skewed(u) && u.tag in {-2, 2}
    ensures path != [] ==> StackOf(path)[|path| - 1].node in v.mem
    ensures u.node in v.mem
    ensures u.tag == -2 ==>
      && u.left.Bin? && v.mem[u.node].left == u.left.node
      && Rotatable(v.mem, u.node, u.left.node) && v.mem[u.left.node].bal == u.left.tag <= 1
    ensures u.tag == 2 ==>
      && u.right.Bin? && v.mem[u.node].right == u.right.node
      && Rotatable(v.mem, u.node, u.right.node) && v.mem[u.right.node].bal == u.right.tag >= -1
  {
    RealRoot(u, v.mem);
    if u.tag == -2 {
      RealRoot(u.left, v.mem);
    } else {
      RealRoot(u.right, v.mem);
    }
    if path != [] {
      RealLast(path, u.node, v.mem);
    }
  }

  /** The same nodes in the same order, whatever is in the hole. */
  ghost predicate SameInPlace(p: Path<Node>, t: Tree<Node>, q: Path<Node>, u: Tree<Node>) {
    InOrder(Plug(q, u)) == InOrder(Plug(p, t)) && Nodes(Plug(q, u)) == Nodes(Plug(p, t))
  }

  /** The same shape, whatever is in the hole. */
  ghost predicate SameShape(p: Path<Node>, t: Tree<Node>, q: Path<Node>, u: Tree<Node>) {
    Bare(Plug(q, u)) == Bare(Plug(p, t))
  }

  lemma {:induction false} PlugSame(path: Path<Node>, t: Tree<Node>, u: Tree<Node>)
    requires SameNodes(t, u)
    ensures SameInPlace(path, t, path, u)
  {
    InOrderPlug(path, t);
    InOrderPlug(path, u);
    NodesPlug(path, t);
    NodesPlug(path, u);
  }

  /** Directions on a path are left or right. */
  ghost predicate Directed(path: Path<Node>) {
    forall i :: 0 <= i < |path| ==> path[i].dir != NONE
  }

  // -------------------------------------------------------------- insertion

  /** The tree is as it should be, seen from a hole on the way. */
  ghost predicate Settled(v: View, path: Path<Node>, t: Tree<Node>) {
    Realises(v, path, t) && Separate(path, t) && Avl(t) && AvlPath(path, Height(t))
  }

  lemma {:induction false} SettledPlug(v: View, path: Path<Node>, t: Tree<Node>)
    ensures Settled(v, path, t) <==> Settled(v, [], Plug(path, t))
  {
    RealisesPlug(v, path, t);
    DistinctPlug(path, t);
    AvlPlug(path, t);
  }

  /** During an insertion: a hole made for height `h` holds a tree that is one higher. */
  ghost predicate Growing(v: View, path: Path<Node>, t: Tree<Node>, h: int) {
    && Realises(v, path, t) && Separate(path, t) && AvlPath(path, h)
    && t.Bin? && Avl(t) && Height(t) == h + 1 && (t.tag == 0 ==> h == 0)
  }

  /** The height of the tree made of `f` around a hole of height `h`. */
  ghost function Above(f: Frame<Node>, h: int): int { 1 + Max(h, Height(f.sibling)) }

  ghost function Grown(f: Frame<Node>): Frame<Node> {
    f.(tag := if f.dir == LEFT then f.tag - 1 else f.tag + 1)
  }

  /** A tree that only its root keeps from being settled; the hole was made for one level less. */
  ghost predicate Overgrown(v: View, path: Path<Node>, u: Tree<Node>) {
    && Realises(v, path, u) && Separate(path, u) && AvlPath(path, Height(u) - 1)
    && Skewed(u) && (u.tag == -2 ==> u.left.tag != 0) && (u.tag == 2 ==> u.right.tag != 0)
  }

  lemma {:induction false} AvlPathSnoc(path: Path<Node>, f: Frame<Node>, h: int)
    ensures AvlPath(path + [f], h) <==>
      && f.tag == (if f.dir == LEFT then Height(f.sibling) - h else h - Height(f.sibling))
      && -1 <= f.tag <= 1 && Avl(f.sibling) && AvlPath(path, Above(f, h))
  {
    hide Height, Avl;
    assert (path + [f])[..|path|] == path;
    assert (path + [f])[|path|] == f;
  }

  /** The balance side of one step up of an insertion. */
  lemma {:induction false} GrownBalance(path: Path<Node>, f: Frame<Node>, t: Tree<Node>, h: int)
    requires t.Bin? && Avl(t) && Height(t) == h + 1 && (t.tag == 0 ==> h == 0) && AvlPath(path + [f], h)
    ensures var u := Wrap(Grown(f), t);
      && -1 <= f.tag <= 1 && AvlPath(path, Above(f, h)) && Skewed(u)
      && Height(u) == (if u.tag == 0 then Above(f, h) else Above(f, h) + 1)
      && (u.tag == -2 ==> f.dir == LEFT && t.tag != 0 && h > 0)
      && (u.tag == 2 ==> f.dir != LEFT && t.tag != 0 && h > 0)
  {
    hide AvlPath, Avl;
    AvlPathSnoc(path, f, h);
    WrapHeight(Grown(f), t);
  }

  lemma {:induction false} WrapHeight(f: Frame<Node>, t: Tree<Node>)
    ensures Height(Wrap(f, t)) == 1 + Max(Height(t), Height(f.sibling)) && Height(t) >= 0 && Height(f.sibling) >= 0
  {
  }

  lemma {:induction false} TopFrame(v: View, path: Path<Node>, f: Frame<Node>, t: Tree<Node>)
    requires Realises(v, path + [f], t)
    ensures f.node in v.mem && v.mem[f.node].bal == f.tag
    ensures path != [] ==> StackOf(path)[|path| - 1].node in v.mem
  {
    assert (path + [f])[..|path|] == path;
    assert (path + [f])[|path|] == f;
    RealLast(path, f.node, v.mem);
  }

  lemma {:induction false} RetaggedInPlace(path: Path<Node>, f: Frame<Node>, t: Tree<Node>, b: int)
    ensures SameInPlace(path + [f], t, path, Wrap(f.(tag := b), t))
    ensures SameShape(path + [f], t, path, Wrap(f.(tag := b), t))
  {
    assert (path + [f])[..|path|] == path;
    PlugSame(path, Wrap(f, t), Wrap(f.(tag := b), t));
    BarePlug(path, Wrap(f, t), Wrap(f.(tag := b), t));
  }

  /** One step up of an insertion: the node above the hole gets its exact balance factor. */
  lemma {:induction false} GrowStep(v: View, path: Path<Node>, f: Frame<Node>, t: Tree<Node>, h: int)
    requires Growing(v, path + [f], t, h)
    ensures f.node in v.mem && v.mem[f.node].bal == f.tag && -1 <= f.tag <= 1
    ensures var u := Wrap(Grown(f), t);
      var v' := Rebalanced(v, f.node, Grown(f).tag);
      && u.Bin? && u.node == f.node && u.tag == Grown(f).tag && SameInPlace(path + [f], t, path, u)
      && (u.tag == 0 ==> Settled(v', path, u))
      && (u.tag in {-1, 1} ==> Growing(v', path, u, Above(f, h)))
      && (u.tag in {-2, 2} ==> Overgrown(v', path, u) && Skewed(u) && h > 0)
      && (u.tag == -2 ==> f.dir == LEFT) && (u.tag == 2 ==> f.dir != LEFT)
      && SameShape(path + [f], t, path, u) && (u.tag in {-2, 2} ==> !Balanced(Plug(path, u)))
  {
    hide Realises, AvlPath, Plug, Nodes, InOrder, Height, Bare, Balanced, SameShape;
    GrownBalance(path, f, t, h);
    TopFrame(v, path, f, t);
    RebalanceRealises(v, path, f, t, Grown(f).tag);
    RetaggedInPlace(path, f, t, Grown(f).tag);
    NeedsRepair(path, Wrap(Grown(f), t));
  }

  /** The same step, seen from where the insertion began: what is in the tree and its shape have not
      changed since, and a repair is due only if that shape is not balanced. */
  lemma {:induction false} GrowTurn(v: View, path: Path<Node>, leaf: Tree<Node>, init: Path<Node>, f: Frame<Node>,
                                    t: Tree<Node>, h: int)
    requires Growing(v, init + [f], t, h)
    requires SameInPlace(path, leaf, init + [f], t) && SameShape(path, leaf, init + [f], t)
    ensures var u := Wrap(Grown(f), t);
      && SameInPlace(path, leaf, init, u) && SameShape(path, leaf, init, u)
      && (u.tag in {-2, 2} ==> !Balanced(Plug(path, leaf)))
  {
    hide Growing, Plug, Bare, InOrder, Nodes, Balanced;
    GrowStep(v, init, f, t, h);
    BareBalanced(Plug(path, leaf));
    BareBalanced(Plug(init, Wrap(Grown(f), t)));
  }

  lemma {:induction false} SameStart(path: Path<Node>, leaf: Tree<Node>)
    ensures SameInPlace(path, leaf, path, leaf) && SameShape(path, leaf, path, leaf)
  {
  }

  lemma {:induction false} SameThrough(path: Path<Node>, leaf: Tree<Node>, p: Path<Node>, u: Tree<Node>, t: Tree<Node>)
    requires SameInPlace(path, leaf, p, u) && SameInPlace(p, u, p, t)
    ensures SameInPlace(path, leaf, p, t)
  {
    hide Plug, InOrder, Nodes;
  }

  /** A tree is repaired only if it is not balanced. */
  lemma {:induction false} NeedsRepair(path: Path<Node>, u: Tree<Node>)
    requires Skewed(u)
    ensures u.tag in {-2, 2} ==> !Balanced(Plug(path, u))
  {
    hide Plug, Height;
    if Balanced(Plug(path, u)) {
      BalancedPlug(path, u);
    }
  }

  lemma {:induction false} RepairedLeftSettles(v: View, v': View, path: Path<Node>, u: Tree<Node>)
    requires Overgrown(v, path, u) && u.tag == -2 && Realises(v', path, RepairedLeft(u))
    ensures Settled(v', path, RepairedLeft(u)) && SameInPlace(path, u, path, RepairedLeft(u))
  {
    hide Plug, InOrder, Nodes, PathNodes, Distinct, DistinctPath, Real, RealPath, Avl, AvlPath, Height;
    RepairedLeftIsAvl(u);
    RepairedLeftKeeps(u);
    PlugSame(path, u, RepairedLeft(u));
  }

  lemma {:induction false} RepairedRightSettles(v: View, v': View, path: Path<Node>, u: Tree<Node>)
    requires Overgrown(v, path, u) && u.tag == 2 && Realises(v', path, RepairedRight(u))
    ensures Settled(v', path, RepairedRight(u)) && SameInPlace(path, u, path, RepairedRight(u))
  {
    hide Plug, InOrder, Nodes, PathNodes, Distinct, DistinctPath, Real, RealPath, Avl, AvlPath, Height;
    RepairedRightIsAvl(u);
    RepairedRightKeeps(u);
    PlugSame(path, u, RepairedRight(u));
  }

  lemma {:induction false} GrownAtRoot(v: View, t: Tree<Node>, h: int)
    requires Growing(v, [], t, h)
    ensures Settled(v, [], t)
  {
  }

  ghost function Leaf(n: Node): Tree<Node> { Bin(Nil, n, 0, Nil) }

  lemma {:induction false} LeafInPlace(path: Path<Node>, n: Node)
    ensures InOrder(Plug(path, Leaf(n))) == Before(path) + [n] + After(path)
    ensures |InOrder(Plug(path, Leaf(n)))| == |InOrder(Plug(path, Nil))| + 1
    ensures Nodes(Plug(path, Leaf(n))) == Nodes(Plug(path, Nil)) + {n}
  {
    InOrderPlug(path, Nil);
    InOrderPlug(path, Leaf(n));
    NodesPlug(path, Nil);
    NodesPlug(path, Leaf(n));
  }

  /** The view just after the new node has been linked. */
  ghost function Planted(v: View, s: seq<Entry>, n: Node): View
    requires s != [] ==> s[|s| - 1].node in v.mem
  {
    Relinked(v.(mem := v.mem[n := Rec(null, null, 0)]), s, n)
  }

  lemma {:induction false} PlantRealises(v: View, path: Path<Node>, n: Node)
    requires Settled(v, [], Plug(path, Nil)) && n !in Nodes(Plug(path, Nil))
    ensures v.root == null ==> path == []
    ensures path != [] ==> StackOf(path)[|path| - 1].node in v.mem
    ensures Growing(Planted(v, StackOf(path), n), path, Leaf(n), 0)
  {
    SettledPlug(v, path, Nil);
    NodesPlug(path, Nil);
    if path != [] {
      RealLast(path, null, v.mem);
    }
    var v' := v.(mem := v.mem[n := Rec(null, null, 0)]);
    RealPathFrame(path, null, v.mem, v'.mem);
    RelinkRealises(v', path, Nil, Leaf(n));
  }

  // ---------------------------------------------------------------- removal

  /** During a removal: a hole made for height `h` holds a tree that is one lower. */
  ghost predicate Shrinking(v: View, path: Path<Node>, t: Tree<Node>, h: int) {
    && Realises(v, path, t) && Separate(path, t) && AvlPath(path, h)
    && Avl(t) && Height(t) + 1 == h
  }

  ghost function Shrunk(f: Frame<Node>): Frame<Node> {
    f.(tag := if f.dir == LEFT then f.tag + 1 else f.tag - 1)
  }

  /** When the hole of this frame loses a level, the repair is a double rotation. */
  ghost predicate RepairsTwice(f: Frame<Node>) {
    f.sibling.Bin? && if f.dir == LEFT then f.tag == 1 && f.sibling.tag == -1 else f.tag == -1 && f.sibling.tag == 1
  }

  lemma {:induction false} RepairsTwiceIs(f: Frame<Node>, t: Tree<Node>)
    ensures var u := Wrap(Shrunk(f), t);
      && (f.dir == LEFT && u.tag == 2 && u.right.Bin? && u.right.tag == -1 ==> RepairsTwice(f))
      && (f.dir == RIGHT && u.tag == -2 && u.left.Bin? && u.left.tag == 1 ==> RepairsTwice(f))
  {
  }

  /** The stack has room for what a removal at the end of the path pushes: a double rotation of the
      last frame takes one entry more than the path. */
  ghost predicate Roomy(path: Path<Node>) {
    |path| < MAX_HEIGHT || (|path| == MAX_HEIGHT && !RepairsTwice(path[|path| - 1]))
  }

  /** A tree that only its root keeps from being settled, in a hole made for its height. */
  ghost predicate Lopsided(v: View, path: Path<Node>, u: Tree<Node>) {
    Realises(v, path, u) && Separate(path, u) && AvlPath(path, Height(u)) && Skewed(u)
  }

  /** The balance side of one step up of a removal. */
  lemma {:induction false} ShrunkBalance(path: Path<Node>, f: Frame<Node>, t: Tree<Node>, h: int)
    requires Avl(t) && Height(t) + 1 == h && AvlPath(path + [f], h)
    ensures var u := Wrap(Shrunk(f), t);
      && -1 <= f.tag <= 1 && AvlPath(path, Above(f, h)) && Skewed(u)
      && Height(u) == (if u.tag == 0 then Above(f, h) - 1 else Above(f, h))
  {
    hide AvlPath, Avl;
    AvlPathSnoc(path, f, h);
    WrapHeight(Shrunk(f), t);
  }

  /** One step up of a removal. */
  lemma {:induction false} ShrinkStep(v: View, path: Path<Node>, f: Frame<Node>, t: Tree<Node>, h: int)
    requires Shrinking(v, path + [f], t, h)
    ensures f.node in v.mem && v.mem[f.node].bal == f.tag && -1 <= f.tag <= 1
    ensures var u := Wrap(Shrunk(f), t);
      var v' := Rebalanced(v, f.node, Shrunk(f).tag);
      && u.Bin? && u.node == f.node && u.tag == Shrunk(f).tag && SameInPlace(path + [f], t, path, u)
      && (u.tag == 0 ==> Shrinking(v', path, u, Above(f, h)))
      && (u.tag in {-1, 1} ==> Settled(v', path, u))
      && (u.tag in {-2, 2} ==> Lopsided(v', path, u) && Height(u) == Above(f, h))
  {
    hide Realises, AvlPath, Plug, Nodes, InOrder, Height;
    ShrunkBalance(path, f, t, h);
    TopFrame(v, path, f, t);
    RebalanceRealises(v, path, f, t, Shrunk(f).tag);
    RetaggedInPlace(path, f, t, Shrunk(f).tag);
  }

  /** What is needed to rotate at a lopsided node, and what a single rotation does. */
  lemma {:induction false} LopsidedTop(v: View, path: Path<Node>, u: Tree<Node>)
    requires Lopsided(v, path, u) && u.tag in {-2, 2}
    ensures Realises(v, path, u) && Separate(path, u) && Skewed(u)
    ensures path != [] ==> StackOf(path)[|path| - 1].node in v.mem
    ensures u.tag == 2 ==>
      && u.right.Bin? && u.node in v.mem && v.mem[u.node].right == u.right.node && -1 <= u.right.tag <= 1
      && Rotatable(v.mem, u.node, u.right.node) && v.mem[u.right.node].bal == u.right.tag
      && (u.right.tag >= 0 ==> Realises(LeftRotated(v, StackOf(path), u.node, u.right.node), path, RepairedRight(u)))
    ensures u.tag == -2 ==>
      && u.left.Bin? && u.node in v.mem && v.mem[u.node].left == u.left.node && -1 <= u.left.tag <= 1
      && Rotatable(v.mem, u.node, u.left.node) && v.mem[u.left.node].bal == u.left.tag
      && (u.left.tag <= 0 ==> Realises(RightRotated(v, StackOf(path), u.node, u.left.node), path, RepairedLeft(u)))
  {
    TopRotatable(v, path, u);
    if u.tag == 2 {
      LeftRotationRealises(v, path, u);
    } else {
      RightRotationRealises(v, path, u);
    }
  }

  lemma {:induction false} RepairedLeftShrinks(v: View, v': View, path: Path<Node>, u: Tree<Node>)
    requires Lopsided(v, path, u) && u.tag == -2 && Realises(v', path, RepairedLeft(u))
    ensures SameInPlace(path, u, path, RepairedLeft(u))
    ensures u.left.tag == 0 ==> Settled(v', path, RepairedLeft(u))
    ensures u.left.tag != 0 ==> Shrinking(v', path, RepairedLeft(u), Height(u))
  {
    hide Plug, InOrder, Nodes, PathNodes, Distinct, DistinctPath, Real, RealPath, Avl, AvlPath, Height;
    RepairedLeftIsAvl(u);
    RepairedLeftKeeps(u);
    PlugSame(path, u, RepairedLeft(u));
  }

  lemma {:induction false} RepairedRightShrinks(v: View, v': View, path: Path<Node>, u: Tree<Node>)
    requires Lopsided(v, path, u) && u.tag == 2 && Realises(v', path, RepairedRight(u))
    ensures SameInPlace(path, u, path, RepairedRight(u))
    ensures u.right.tag == 0 ==> Settled(v', path, RepairedRight(u))
    ensures u.right.tag != 0 ==> Shrinking(v', path, RepairedRight(u), Height(u))
  {
    hide Plug, InOrder, Nodes, PathNodes, Distinct, DistinctPath, Real, RealPath, Avl, AvlPath, Height;
    RepairedRightIsAvl(u);
    RepairedRightKeeps(u);
    PlugSame(path, u, RepairedRight(u));
  }

  lemma {:induction false} ShrunkAtRoot(v: View, t: Tree<Node>, h: int)
    requires Shrinking(v, [], t, h)
    ensures Settled(v, [], t)
  {
  }

  /** The view just after a node with at most one child has been bypassed. */
  ghost function Bypassed(v: View, s: seq<Entry>, x: Node, n: Node?): View
    requires s != [] ==> s[|s| - 1].node in v.mem
  {
    var v' := Relinked(v, s, n);
    v'.(mem := v'.mem - {x})
  }

  ghost function OnlyChild(t: Tree<Node>): Tree<Node>
    requires t.Bin? && (t.left.Nil? || t.right.Nil?)
  {
    if t.left.Nil? then t.right else t.left
  }

  lemma {:induction false} BypassRealises(v: View, path: Path<Node>, t: Tree<Node>)
    requires Settled(v, [], Plug(path, t)) && t.Bin? && (t.left.Nil? || t.right.Nil?)
    ensures path != [] ==> StackOf(path)[|path| - 1].node in v.mem
    ensures Shrinking(Bypassed(v, StackOf(path), t.node, Top(OnlyChild(t))), path, OnlyChild(t), Height(t))
  {
    SettledPlug(v, path, t);
    var c := OnlyChild(t);
    RealLast(path, t.node, v.mem);
    assert Real(c, v.mem);
    RelinkRealises(v, path, t, c);
    var v1 := Relinked(v, StackOf(path), Top(c));
    var v2 := v1.(mem := v1.mem - {t.node});
    RealFrame(c, v1.mem, v2.mem);
    RealPathFrame(path, Top(c), v1.mem, v2.mem);
  }

  lemma {:induction false} OnlyChildInPlace(path: Path<Node>, t: Tree<Node>)
    requires t.Bin? && (t.left.Nil? || t.right.Nil?) && Distinct(Plug(path, t))
    ensures InOrder(Plug(path, t)) == Before(path) + InOrder(t) + After(path)
    ensures InOrder(Plug(path, OnlyChild(t))) == Before(path) + InOrder(OnlyChild(t)) + After(path)
    ensures |InOrder(Plug(path, OnlyChild(t)))| == |InOrder(Plug(path, t))| - 1
    ensures Nodes(Plug(path, OnlyChild(t))) == Nodes(Plug(path, t)) - {t.node}
  {
    InOrderPlug(path, t);
    InOrderPlug(path, OnlyChild(t));
    NodesPlug(path, t);
    NodesPlug(path, OnlyChild(t));
    DistinctPlug(path, t);
  }
}
