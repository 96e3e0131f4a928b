/** Heap-free pictures of binary trees, their zippers, and the AVL height bound.

    A `Tree<N>` records which node hangs where and the number each node stores: its balance factor
    in `AvlGenTree`, its height in `AvlTree`.  Both implementations keep such a picture as a ghost
    field that their mutable nodes realise; what depends only on the picture is stated here.
 */
module TreeShape {

  datatype Tree<N> = Nil | Bin(left: Tree<N>, node: N, tag: int, right: Tree<N>)

  datatype Dir = LEFT | NONE | RIGHT

  /** One step of a root-to-hole path: the node, its number, the side of the hole, and the subtree
      on the other side.  As in the code, every direction but LEFT means the right side. */
  datatype Frame<N> = Frame(node: N, tag: int, dir: Dir, sibling: Tree<N>)

  /** A root-to-hole path; the first frame is the root, the last one is just above the hole. */
  type Path<N> = seq<Frame<N>>

  function Max(a: int, b: int): int { if a > b then a else b }

  function Min(a: int, b: int): int { if a < b then a else b }

  // ------------------------------------------------------------------ trees

  ghost function Height<N>(t: Tree<N>): nat {
    match t
    case Nil => 0
    case Bin(l, _, _, r) => 1 + Max(Height(l), Height(r))
  }

  ghost function InOrder<N>(t: Tree<N>): seq<N> {
    match t
    case Nil => []
    case Bin(l, n, _, r) => InOrder(l) + [n] + InOrder(r)
  }

  ghost function Nodes<N>(t: Tree<N>): set<N> {
    match t
    case Nil => {}
    case Bin(l, n, _, r) => Nodes(l) + {n} + Nodes(r)
  }

  /** No node occurs twice. */
  ghost predicate Distinct<N>(t: Tree<N>) {
    match t
    case Nil => true
    case Bin(l, n, _, r) =>
      n !in Nodes(l) && n !in Nodes(r) && Nodes(l) !! Nodes(r) && Distinct(l) && Distinct(r)
  }

  /** Heights of siblings differ by at most one, everywhere. */
  ghost predicate Balanced<N>(t: Tree<N>) {
    match t
    case Nil => true
    case Bin(l, _, _, r) => -1 <= Height(r) - Height(l) <= 1 && Balanced(l) && Balanced(r)
  }

  // ---------------------------------------------------------------- zippers

  ghost function Wrap<N>(f: Frame<N>, t: Tree<N>): Tree<N> {
    if f.dir == LEFT then Bin(t, f.node, f.tag, f.sibling) else Bin(f.sibling, f.node, f.tag, t)
  }

  /** The whole tree: `t` put into the hole at the end of `path`. */
  ghost function Plug<N>(path: Path<N>, t: Tree<N>): Tree<N> {
    if path == [] then t else Plug(path[..|path| - 1], Wrap(path[|path| - 1], t))
  }

  ghost function Before<N>(path: Path<N>): seq<N> {
    if path == [] then []
    else
      var f := path[|path| - 1];
      Before(path[..|path| - 1]) + (if f.dir == LEFT then [] else InOrder(f.sibling) + [f.node])
  }

  ghost function After<N>(path: Path<N>): seq<N> {
    if path == [] then []
    else
      var f := path[|path| - 1];
      (if f.dir == LEFT then [f.node] + InOrder(f.sibling) else []) + After(path[..|path| - 1])
  }

  ghost function PathNodes<N>(path: Path<N>): set<N> {
    if path == [] then {}
    else
      var f := path[|path| - 1];
      PathNodes(path[..|path| - 1]) + {f.node} + Nodes(f.sibling)
  }

  ghost predicate DistinctPath<N>(path: Path<N>) {
    path == [] ||
    var f, init := path[|path| - 1], path[..|path| - 1];
    && DistinctPath(init)
    && f.node !in PathNodes(init) && f.node !in Nodes(f.sibling)
    && Nodes(f.sibling) !! PathNodes(init)
    && Distinct(f.sibling)
  }

  lemma {:induction false} InOrderWrap<N>(f: Frame<N>, t: Tree<N>, p: seq<N>, q: seq<N>)
    ensures p + InOrder(Wrap(f, t)) + q ==
            (p + (if f.dir == LEFT then [] else InOrder(f.sibling) + [f.node])) + InOrder(t)
            + ((if f.dir == LEFT then [f.node] + InOrder(f.sibling) else []) + q)
  {
  }

  lemma {:induction false} InOrderPlug<N>(path: Path<N>, t: Tree<N>)
    ensures InOrder(Plug(path, t)) == Before(path) + InOrder(t) + After(path)
    decreases |path|
  {
    if path != [] {
      var f, init := path[|path| - 1], path[..|path| - 1];
      InOrderPlug(init, Wrap(f, t));
      InOrderWrap(f, t, Before(init), After(init));
    }
  }

  lemma {:induction false} NodesPlug<N>(path: Path<N>, t: Tree<N>)
    ensures Nodes(Plug(path, t)) == PathNodes(path) + Nodes(t)
    decreases |path|
  {
    if path != [] {
      NodesPlug(path[..|path| - 1], Wrap(path[|path| - 1], t));
    }
  }

  lemma {:induction false} DistinctPlug<N>(path: Path<N>, t: Tree<N>)
    ensures Distinct(Plug(path, t)) <==>
            Distinct(t) && DistinctPath(path) && Nodes(t) !! PathNodes(path)
    decreases |path|
  {
    if path != [] {
      DistinctPlug(path[..|path| - 1], Wrap(path[|path| - 1], t));
    }
  }

  /** A path is no longer than the tree is high. */
  lemma {:induction false} PathWithinHeight<N>(path: Path<N>, t: Tree<N>)
    ensures |path| + Height(t) <= Height(Plug(path, t))
    decreases |path|
  {
    if path != [] {
      PathWithinHeight(path[..|path| - 1], Wrap(path[|path| - 1], t));
    }
  }

  // -------------------------------------------------------------- bare shapes

  /** The tree without the numbers that its nodes store. */
  function Bare<N>(t: Tree<N>): Tree<N> {
    match t
    case Nil => Nil
    case Bin(l, n, _, r) => Bin(Bare(l), n, 0, Bare(r))
  }

  lemma {:induction false} BareBalanced<N>(t: Tree<N>)
    ensures Height(Bare(t)) == Height(t) && (Balanced(Bare(t)) <==> Balanced(t)) && InOrder(Bare(t)) == InOrder(t)
  {
    match t
    case Nil =>
    case Bin(l, _, _, r) =>
      BareBalanced(l);
      BareBalanced(r);
  }

  /** Only the shape of what is in the hole matters. */
  lemma {:induction false} BarePlug<N>(path: Path<N>, t: Tree<N>, u: Tree<N>)
    requires Bare(t) == Bare(u)
    ensures Bare(Plug(path, t)) == Bare(Plug(path, u))
    decreases |path|
  {
    if path != [] {
      BarePlug(path[..|path| - 1], Wrap(path[|path| - 1], t), Wrap(path[|path| - 1], u));
    }
  }

  lemma {:induction false} BalancedPlug<N>(path: Path<N>, t: Tree<N>)
    requires Balanced(Plug(path, t))
    ensures Balanced(t)
    decreases |path|
  {
    if path != [] {
      BalancedPlug(path[..|path| - 1], Wrap(path[|path| - 1], t));
    }
  }

  // ----------------------------------------------------------- height bound

  /** The least number of nodes of a balanced tree of height `h`. */
  function MinNodes(h: nat): nat {
    if h == 0 then 0 else if h == 1 then 1 else 1 + MinNodes(h - 1) + MinNodes(h - 2)
  }

  function Pow2(k: nat): nat { if k == 0 then 1 else 2 * Pow2(k - 1) }

  lemma {:induction false} MinNodesMonotone(a: nat, b: nat)
    requires a <= b
    ensures MinNodes(a) <= MinNodes(b)
    decreases b
  {
    if a < b {
      MinNodesMonotone(a, b - 1);
    }
  }

  lemma {:induction false} MinNodesGrows(h: nat)
    ensures Pow2(h / 2) <= MinNodes(h) + 1
  {
    if h >= 2 {
      MinNodesGrows(h - 2);
      MinNodesMonotone(h - 2, h - 1);
      assert h / 2 == (h - 2) / 2 + 1;
    }
  }

  lemma {:induction false} BalancedHasMinNodes<N>(t: Tree<N>)
    requires Balanced(t)
    ensures MinNodes(Height(t)) <= |InOrder(t)|
  {
    match t
    case Nil =>
    case Bin(l, _, _, r) =>
      BalancedHasMinNodes(l);
      BalancedHasMinNodes(r);
      var h := Height(t);
      if h >= 2 {
        MinNodesMonotone(h - 2, Height(l));
        MinNodesMonotone(h - 2, Height(r));
      }
  }

  /** The height of a balanced tree is logarithmic in its number of nodes. */
  lemma {:induction false} BalancedIsShallow<N>(t: Tree<N>)
    requires Balanced(t)
    ensures Pow2(Height(t) / 2) <= |InOrder(t)| + 1
  {
    BalancedHasMinNodes(t);
    MinNodesGrows(Height(t));
  }

  lemma {:induction false} FourMore(h: nat, a: nat, b: nat)
    requires MinNodes(h) == a && MinNodes(h + 1) == b
    ensures MinNodes(h + 4) == 4 + 2 * a + 3 * b && MinNodes(h + 5) == 7 + 3 * a + 5 * b
  {
    assert MinNodes(h + 2) == 1 + a + b;
    assert MinNodes(h + 3) == 2 + a + 2 * b;
  }

  lemma {:induction false} MinNodesOf33()
    ensures MinNodes(32) == 5702886 && MinNodes(33) == 9227464
  {
    hide MinNodes;
    FirstMinNodes();
    FourMore(0, 0, 1);
    FourMore(4, 7, 12);
    FourMore(8, 54, 88);
    FourMore(12, 376, 609);
    FourMore(16, 2583, 4180);
    FourMore(20, 17710, 28656);
    FourMore(24, 121392, 196417);
    FourMore(28, 832039, 1346268);
  }

  lemma {:induction false} FirstMinNodes()
    ensures MinNodes(0) == 0 && MinNodes(1) == 1
  {
  }

  /** No balanced tree of fewer than 9227464 nodes is higher than 32, and none of fewer than 5702886 is
      higher than 31. */
  lemma {:induction false} HeightAtMost32<N>(t: Tree<N>)
    requires Balanced(t)
    ensures |InOrder(t)| < 9227464 ==> Height(t) <= 32
    ensures |InOrder(t)| < 5702886 ==> Height(t) <= 31
  {
    BalancedHasMinNodes(t);
    MinNodesOf33();
    if Height(t) > 32 {
      MinNodesMonotone(33, Height(t));
    }
    if Height(t) > 31 {
      MinNodesMonotone(32, Height(t));
    }
  }
}
