/** `GenTree::Iter`: a walk through the tree with a stack of nodes that has the size of the stack of the
    other operations. */
module AvlIter {
  import opened TreeShape
  import opened AvlBalance
  import opened AvlView
  import opened AvlOrder
  import opened AvlGenTree

  /** The nodes above the current one, and the current one twice. */
  type VisitStack = s: seq<Node> | |s| <= MAX_HEIGHT

  ghost function NodesOf(path: Path<Node>): (s: seq<Node>)
    ensures |s| == |path|
  {
    seq(|path|, i requires 0 <= i < |path| => path[i].node)
  }

  /** The nodes of a path, and the node at its end once or twice. */
  ghost function Stacked(path: Path<Node>, n: Node, twice: bool): seq<Node> {
    if twice then NodesOf(path) + [n] + [n] else NodesOf(path) + [n]
  }

  lemma {:induction false} PopStacked(path: Path<Node>, n: Node, twice: bool)
    ensures var s := Stacked(path, n, twice);
      && s != [] && s[|s| - 1] == n && |s| == |path| + (if twice then 2 else 1)
      && s[..|s| - 1] == (if twice then Stacked(path, n, false) else NodesOf(path))
      && (twice ==> s == Stacked(path, n, false) + [n])
    ensures Stacked(path, n, false) == NodesOf(path) + [n]
  {
    hide NodesOf;
  }

  lemma {:induction false} NodesOfSnoc(path: Path<Node>, f: Frame<Node>)
    ensures NodesOf(path + [f]) == NodesOf(path) + [f.node]
  {
  }

  /** What the walk has behind it has left room in the stack. */
  ghost predicate LowPath(path: Path<Node>) {
    path == [] ||
    var f, init := path[|path| - 1], path[..|path| - 1];
    (f.dir != LEFT ==> |path| + Height(f.sibling) < MAX_HEIGHT) && LowPath(init)
  }

  ghost predicate Low(path: Path<Node>, t: Tree<Node>) {
    LowPath(path) && |path| + Height(t) < MAX_HEIGHT
  }

  lemma {:induction false} LowLeft(path: Path<Node>, t: Tree<Node>)
    requires t.Bin? && LowPath(path)
    ensures LowPath(path + [Down(t, LEFT)])
  {
    assert (path + [Down(t, LEFT)])[..|path|] == path;
  }

  lemma {:induction false} LowRight(path: Path<Node>, t: Tree<Node>)
    requires t.Bin? && Low(path + [Down(t, LEFT)], t.left)
    ensures LowPath(path + [Down(t, RIGHT)])
  {
    assert (path + [Down(t, LEFT)])[..|path|] == path;
    assert (path + [Down(t, RIGHT)])[..|path|] == path;
  }

  class Iter {
    var s: VisitStack
    ghost const tree: GenTree
    /** The path to the current node, and the subtree there; no subtree when the walk has ended. */
    ghost var path: Path<Node>
    ghost var at: Tree<Node>

    ghost predicate Valid()
      reads this, tree, tree.mem.Keys
    {
      tree.Linked() && if at.Nil? then s == [] && Height(tree.shape) < MAX_HEIGHT else On()
    }

    /** The walk is on a node. */
    ghost predicate On()
      reads this, tree`shape
    {
      && at.Bin? && Plug(path, at) == tree.shape && s == Stacked(path, at.node, true)
      && Low(path + [Down(at, LEFT)], at.left)
    }

    /** The nodes from the current one on, in the order of the tree. */
    ghost function Todo(): seq<Node>
      reads `path, `at
    {
      if at.Nil? then [] else [at.node] + InOrder(at.right) + After(path)
    }

    constructor (ghost tree: GenTree)
      ensures this.tree == tree && s == [] && path == []
    {
      s := [];
      this.tree := tree;
      path, at := [], Nil;
    }

    /** A push on a full stack is an error. */
    method Push(n: Node) returns (ok: bool)
      modifies `s
      ensures ok == (old(|s|) < MAX_HEIGHT) && s == if ok then old(s) + [n] else old(s)
    {
      ok := |s| < MAX_HEIGHT;
      if ok {
        s := s + [n];
      }
    }

    /** Go to the leftmost node of a subtree. */
    method Visit(node: Node, ghost p: Path<Node>, ghost t: Tree<Node>) returns (ok: bool)
      requires tree.Linked() && Plug(p, t) == tree.shape && t.Bin? && node == t.node
      requires s == NodesOf(p) && LowPath(p)
      modifies `s, `path, `at
      ensures ok <==> |p + LeftSpine(t)| + 2 <= MAX_HEIGHT
      ensures ok ==> Valid() && at.Bin? && Todo() == InOrder(t) + After(p)
      ensures !ok ==> Height(tree.shape) >= MAX_HEIGHT
    {
      hide GenTree.Linked, Plug, After, InOrder, LeftSpine, LowPath, NodesOf, Low, Height, Valid;
      path, at := p, t;
      tree.NodeAt(path, at);
      VisitStep(path, at);
      ok := Push(node);
      while ok && s[|s| - 1].left != null
        invariant Plug(path, at) == tree.shape && at.Bin? && path + LeftSpine(at) == p + LeftSpine(t)
        invariant |path| <= MAX_HEIGHT && LowPath(path) && ok == (|path| < MAX_HEIGHT)
        invariant ok ==> s == NodesOf(path) + [at.node]
        invariant InOrder(at) + After(path) == InOrder(t) + After(p)
        decreases Height(at), ok
      {
        ok := Left();
      }
      tree.NodeAt(path, at);
      if ok {
        ok := Twice();
      }
    }

    /** Push the left child of the top node. */
    method Left() returns (ok: bool)
      requires tree.Linked() && Plug(path, at) == tree.shape && at.Bin? && at.node.left != null
      requires s == NodesOf(path) + [at.node] && LowPath(path)
      modifies `s, `path, `at
      ensures Plug(path, at) == tree.shape && at.Bin? && LowPath(path) && |path| == old(|path|) + 1
      ensures path + LeftSpine(at) == old(path + LeftSpine(at)) && Height(at) < old(Height(at))
      ensures InOrder(at) + After(path) == old(InOrder(at) + After(path))
      ensures ok == (|path| < MAX_HEIGHT) && (ok ==> s == NodesOf(path) + [at.node])
    {
      hide GenTree.Linked, Plug, After, InOrder, LeftSpine, LowPath, NodesOf, Low, Height;
      tree.NodeAt(path, at);
      VisitStep(path, at);
      ok := Push(s[|s| - 1].left);
      path, at := path + [Down(at, LEFT)], at.left;
    }

    /** Push the leftmost node again. */
    method Twice() returns (ok: bool)
      requires tree.Linked() && Plug(path, at) == tree.shape && at.Bin? && at.left.Nil?
      requires s == NodesOf(path) + [at.node] && LowPath(path)
      modifies `s
      ensures ok <==> |path| + 2 <= MAX_HEIGHT
      ensures ok ==> Valid() && Todo() == InOrder(at) + After(path)
      ensures path + LeftSpine(at) == path
    {
      hide GenTree.Linked, Plug, After, InOrder, LeftSpine, LowPath, NodesOf, Low;
      VisitStep(path, at);
      ok := Push(s[|s| - 1]);
    }

    /** The first node, if any. */
    method Begin(of: GenTree) returns (ok: bool)
      requires of == tree && tree.Linked() && s == [] && path == []
      modifies `s, `path, `at
      ensures ok ==> Valid() && Todo() == InOrder(tree.shape)
      ensures !ok ==> Height(tree.shape) >= MAX_HEIGHT
    {
      hide After, InOrder;
      AtTop(tree);
      ok, at := true, Nil;
      if of.root != null {
        ok := Visit(of.root, [], tree.shape);
      }
    }

    method Ended() returns (r: bool)
      requires Valid()
      ensures r <==> Todo() == []
      ensures r ==> Height(tree.shape) < MAX_HEIGHT
    {
      return s == [];
    }

    method Current() returns (item: Item)
      requires tree.Valid() && Valid() && Todo() != []
      ensures Todo()[0] in tree.dat && item == tree.dat[Todo()[0]]
    {
      hide SortedNodes, Plug;
      tree.NodeAt(path, at);
      return s[|s| - 1].data;
    }

    /** Go to the next node.  The walk ends only in a tree that is lower than the stack is deep, and fails
        only in one that is not. */
    method Next() returns (ok: bool)
      requires Valid() && Todo() != []
      modifies `s, `path, `at
      ensures ok ==> Valid() && Todo() == old(Todo())[1..]
      ensures !ok ==> Height(tree.shape) >= MAX_HEIGHT
    {
      hide GenTree.Linked, Plug, After, InOrder, Low, LowPath, NodesOf, Height, Stacked;
      ghost var todo, twice := Todo(), true;
      while true
        invariant at.Bin? && Plug(path, at) == tree.shape
        invariant s == Stacked(path, at.node, twice)
        invariant twice ==> Low(path + [Down(at, LEFT)], at.left) && Todo() == todo
        invariant !twice ==> Low(path, at) && After(path) == todo[1..]
        decreases |s|
      {
        PopStacked(path, at.node, twice);
        if twice {
          StepRight(tree, path, at);
        } else {
          StepUp(tree, path, at);
        }
        var last := s[|s| - 1];
        s := s[..|s| - 1];
        if s == [] {
          at := Nil;
          return true;
        }
        var top := s[|s| - 1];
        if last == top.left {
          path, at := path[..|path| - 1], Wrap(path[|path| - 1], at);
          PopStacked(path, at.node, true);
          ok := Push(top);
          return;
        } else if last == top && top.right != null {
          ok := Visit(top.right, path + [Down(at, RIGHT)], at.right);
          return;
        } else if twice {
          twice := false;
        } else {
          path, at := path[..|path| - 1], Wrap(path[|path| - 1], at);
          PopStacked(path, at.node, false);
        }
      }
    }
  }

  lemma {:induction false} AtTop(tree: GenTree)
    requires tree.Linked()
    ensures Plug([], tree.shape) == tree.shape && tree.root == Top(tree.shape) && NodesOf([]) == [] && LowPath([])
    ensures tree.shape.Nil? ==> InOrder(tree.shape) == [] && Height(tree.shape) == 0
    ensures InOrder(tree.shape) + After([]) == InOrder(tree.shape)
  {
  }

  /** From a node whose left subtree is done. */
  lemma {:induction false} StepRight(tree: GenTree, path: Path<Node>, t: Tree<Node>)
    requires tree.Linked() && Plug(path, t) == tree.shape && t.Bin?
    ensures t.node.right == Top(t.right) && t.node.left != t.node
    ensures var q := path + [Down(t, RIGHT)];
      && Plug(q, t.right) == tree.shape && NodesOf(q) == NodesOf(path) + [t.node]
      && (Low(path + [Down(t, LEFT)], t.left) ==> LowPath(q) && (t.right.Nil? ==> Low(path, t)))
      && ([t.node] + InOrder(t.right) + After(path))[1..] == InOrder(t.right) + After(q)
      && (t.right.Nil? ==> InOrder(t.right) + After(q) == After(path))
  {
    hide Plug, Before, NodesOf, GenTree.Linked, LowPath, InOrder, After, Low;
    Rest(t.node, InOrder(t.right), After(path));
    tree.NodeAt(path, t);
    OwnNode(tree, path, t);
    StepDown(path, t, RIGHT);
    NodesOfSnoc(path, Down(t, RIGHT));
    if t.right.Nil? {
      EmptyOrder(t.right, After(path));
    }
    if Low(path + [Down(t, LEFT)], t.left) {
      LowRight(path, t);
      LowAlone(path, t);
    }
  }

  lemma {:induction false} Rest(n: Node, a: seq<Node>, b: seq<Node>)
    ensures ([n] + a + b)[1..] == a + b
  {
  }

  lemma {:induction false} EmptyOrder(t: Tree<Node>, b: seq<Node>)
    requires t.Nil?
    ensures InOrder(t) + b == b
  {
  }

  lemma {:induction false} LowAlone(path: Path<Node>, t: Tree<Node>)
    requires t.Bin? && Low(path + [Down(t, LEFT)], t.left)
    ensures t.right.Nil? ==> Low(path, t)
  {
    assert (path + [Down(t, LEFT)])[..|path|] == path;
  }

  lemma {:induction false} OwnNode(tree: GenTree, path: Path<Node>, t: Tree<Node>)
    requires tree.Linked() && Plug(path, t) == tree.shape && t.Bin?
    ensures Top(t.left) != t.node && Top(t.right) != t.node
    ensures t.left.Bin? && t.right.Bin? ==> t.left.node != t.right.node
  {
    hide Plug;
    SettledPlug(tree.Current(), path, t);
  }

  /** From a subtree that is done. */
  lemma {:induction false} StepUp(tree: GenTree, path: Path<Node>, t: Tree<Node>)
    requires tree.Linked() && Plug(path, t) == tree.shape && t.Bin? && Low(path, t)
    ensures path == [] ==> NodesOf(path) == [] && Height(tree.shape) < MAX_HEIGHT && After(path) == []
    ensures path != [] ==>
      var f, init := path[|path| - 1], path[..|path| - 1];
      var u := Wrap(f, t);
      && Plug(init, u) == tree.shape && NodesOf(path) == NodesOf(init) + [f.node] && f.node != t.node
      && (f.node.left == t.node <==> f.dir == LEFT) && |path| < MAX_HEIGHT
      && if f.dir == LEFT
         then Low(init + [Down(u, LEFT)], u.left) && [u.node] + InOrder(u.right) + After(init) == After(path)
         else Low(init, u) && After(init) == After(path)
  {
    hide InOrder, NodesOf, GenTree.Linked, Low, After, Height;
    if path != [] {
      var f, init := path[|path| - 1], path[..|path| - 1];
      assert path == init + [f];
      NodesOfSnoc(init, f);
      LowUp(init, f, t);
      AfterUp(init, f, t);
      assert (init + [f])[..|init|] == init;
      tree.NodeAt(init, Wrap(f, t));
      OwnNode(tree, init, Wrap(f, t));
    } else {
      TopIsLow(t);
    }
  }

  lemma {:induction false} TopIsLow(t: Tree<Node>)
    requires Low([], t)
    ensures Height(t) < MAX_HEIGHT && NodesOf([]) == [] && After<Node>([]) == [] && Plug([], t) == t
  {
  }

  lemma {:induction false} LowUp(init: Path<Node>, f: Frame<Node>, t: Tree<Node>)
    requires Low(init + [f], t)
    ensures |init| + 1 < MAX_HEIGHT
    ensures var u := Wrap(f, t); if f.dir == LEFT then Low(init + [Down(u, LEFT)], u.left) else Low(init, u)
  {
    assert (init + [f])[..|init|] == init;
    WrapHeight(f, t);
    if f.dir == LEFT {
      assert (init + [Down(Wrap(f, t), LEFT)])[..|init|] == init;
    }
  }

  lemma {:induction false} AfterUp(init: Path<Node>, f: Frame<Node>, t: Tree<Node>)
    ensures After(init + [f]) ==
      if f.dir == LEFT then [f.node] + InOrder(f.sibling) + After(init) else After(init)
  {
    hide InOrder;
    assert (init + [f])[..|init|] == init;
  }

  /** One step to the left. */
  lemma {:induction false} VisitStep(path: Path<Node>, t: Tree<Node>)
    requires t.Bin? && LowPath(path)
    ensures var q := path + [Down(t, LEFT)];
      && Plug(q, t.left) == Plug(path, t) && LowPath(q) && NodesOf(q) == NodesOf(path) + [t.node]
      && InOrder(t.left) + After(q) == InOrder(t) + After(path)
      && (t.left.Bin? ==> path + LeftSpine(t) == q + LeftSpine(t.left))
      && (t.left.Nil? ==>
            path + LeftSpine(t) == path && InOrder(t) + After(path) == [t.node] + InOrder(t.right) + After(path))
      && (Low(q, t.left) <==> |q| + Height(t.left) < MAX_HEIGHT)
  {
    hide Plug, Before, LeftSpine, LowPath, NodesOf;
    SpineStep(path, t);
    StepDown(path, t, LEFT);
    LowLeft(path, t);
    NodesOfSnoc(path, Down(t, LEFT));
  }

  /** One turn of such a loop. */
  method OneItem(iter: Iter, tree: GenTree) returns (item: Item, ok: bool, ended: bool)
    requires tree.Valid() && iter.tree == tree && iter.Valid() && iter.Todo() != []
    modifies iter
    ensures var n := old(iter.Todo())[0]; n in tree.dat && item == tree.dat[n]
    ensures ok ==> iter.Valid() && iter.Todo() == old(iter.Todo())[1..] && (ended <==> iter.Todo() == [])
    ensures if ok then ended ==> Height(tree.shape) < MAX_HEIGHT else Height(tree.shape) >= MAX_HEIGHT
  {
    hide Height, InOrder, GenTree.Linked, SortedNodes, Iter.Valid, Iter.Todo;
    item := iter.Current();
    ok := iter.Next();
    ended := false;
    if ok {
      ended := iter.Ended();
    }
  }

  /** A whole walk, as a loop over the tree makes it.  It reaches its end exactly if the tree is lower than
      the stack is deep, and has then met every item once, in the order of the keys. */
  method Walk(tree: GenTree) returns (ok: bool, items: seq<Item>)
    requires tree.Valid()
    ensures ok <==> Height(tree.shape) < MAX_HEIGHT
    ensures ok ==> items == Items(InOrder(tree.shape), tree.dat)
  {
    hide Height, InOrder, GenTree.Linked, Items, SortedNodes, Iter.Valid, Iter.Todo, GenTree.Valid;
    var iter := new Iter(tree);
    ghost var all, d := InOrder(tree.shape), tree.dat;
    items := [];
    ValidParts(tree);
    NoItems(all, d);
    ok := iter.Begin(tree);
    var ended := true;
    if ok {
      ended := iter.Ended();
    }
    while ok && !ended
      invariant tree.Valid() && iter.tree == tree
      invariant |items| <= |all| && items == Items(all[..|items|], d)
      invariant ok ==> iter.Valid() && iter.Todo() == all[|items|..] && (ended <==> iter.Todo() == [])
      invariant ok && ended ==> Height(tree.shape) < MAX_HEIGHT
      invariant !ok ==> Height(tree.shape) >= MAX_HEIGHT
      decreases |all| - |items|, ok
      modifies iter
    {
      NextItem(all, d, |items|);
      var item;
      item, ok, ended := OneItem(iter, tree);
      items := items + [item];
    }
    if ok {
      assert all[|items|..] == [] && all[..|items|] == all;
    }
  }

  lemma {:induction false} ValidParts(tree: GenTree)
    requires tree.Valid()
    ensures tree.Linked() && SortedNodes(InOrder(tree.shape), tree.dat)
  {
  }

  lemma {:induction false} NoItems(all: seq<Node>, d: map<Node, Item>)
    requires SortedNodes(all, d)
    ensures forall i :: 0 <= i < |all| ==> all[i] in d
    ensures all[..0] == [] && Items([], d) == [] && all[0..] == all
  {
  }

  lemma {:induction false} NextItem(all: seq<Node>, d: map<Node, Item>, k: nat)
    requires (forall i :: 0 <= i < |all| ==> all[i] in d) && k < |all|
    ensures all[k] in d && all[k..][0] == all[k] && all[k..][1..] == all[k + 1..]
    ensures Items(all[..k + 1], d) == Items(all[..k], d) + [d[all[k]]]
  {
    assert all[..k + 1][..k] == all[..k];
  }
}
