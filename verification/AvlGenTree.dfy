/** The iterative AVL tree over mutable nodes (`elm::avl::AbstractTree` and `elm::avl::GenTree`).

    Nodes are objects, relinked in place while an explicit stack of (node, direction) pairs is
    unwound.  The ghost field `mem` mirrors the fields of the nodes, so that the lemmas of `AvlView`
    apply; `shape` is the picture of the whole tree.
 */
module AvlGenTree {
  import opened Common
  import opened TreeShape
  import opened AvlBalance
  import opened AvlView
  import opened AvlOrder
  import opened SearchShapes

  /** The least number of nodes of a balanced tree that is higher than the stack is deep. */
  const MAX_NODES := 9227464

  class GenTree {
    var root: Node?
    var cnt: int
    /** The picture of the tree. */
    ghost var shape: Tree<Node>
    /** The links and balance factors of all nodes in hand. */
    ghost var mem: map<Node, Rec>
    /** Their items. */
    ghost var dat: map<Node, Item>

    constructor ()
      ensures Valid() && Contents() == map[] && cnt == 0 && mem == map[]
    {
      root, cnt := null, 0;
      shape, mem, dat := Nil, map[], map[];
    }

    /** The invariant of the documentation: balanced, with exact factors, and sorted. */
    ghost predicate Valid()
      reads this, mem.Keys
    {
      && Linked()
      && dat.Keys == mem.Keys && (forall n :: n in dat ==> dat[n] == n.data)
      && SortedNodes(InOrder(shape), dat)
    }

    /** The map from keys to items held by the tree. */
    ghost function Contents(): map<int, Item>
      requires SortedNodes(InOrder(shape), dat)
      reads `shape, `dat
    {
      AvlOrder.Contents(shape, dat)
    }

    /** The keys as they hang in the tree. */
    ghost function KeyShape(): Tree<int>
      reads `shape, `dat
    {
      Keyed(shape, dat)
    }

    ghost predicate Synced()
      reads `mem, mem.Keys`left, mem.Keys`right, mem.Keys`bal
    {
      forall n :: n in mem ==> mem[n] == Rec(n.left, n.right, n.bal)
    }

    ghost function Current(): View
      reads `root, `mem
    {
      View(root, mem)
    }

    // Field assignments, recorded in `mem`.

    method SetLeft(n: Node, x: Node?)
      requires Synced() && n in mem
      modifies n`left, `mem
      ensures Synced() && mem == old(mem)[n := old(mem)[n].(left := x)]
    {
      n.left := x;
      mem := mem[n := mem[n].(left := x)];
    }

    method SetRight(n: Node, x: Node?)
      requires Synced() && n in mem
      modifies n`right, `mem
      ensures Synced() && mem == old(mem)[n := old(mem)[n].(right := x)]
    {
      n.right := x;
      mem := mem[n := mem[n].(right := x)];
    }

    method SetBal(n: Node, b: balance_t)
      requires Synced() && n in mem
      modifies n`bal, `mem
      ensures Synced() && Current() == Rebalanced(old(Current()), n, b)
    {
      n.bal := b;
      mem := mem[n := mem[n].(bal := b)];
    }

    /** Assign through `link`. */
    method Relink(s: Stack, n: Node?)
      requires Synced() && (s != [] ==> s[|s| - 1].node in mem)
      modifies `root, `mem, mem.Keys`left, mem.Keys`right
      ensures Synced() && Current() == Relinked(old(Current()), s, n)
    {
      if s == [] {
        root := n;
      } else if s[|s| - 1].dir == LEFT {
        SetLeft(s[|s| - 1].node, n);
      } else {
        SetRight(s[|s| - 1].node, n);
      }
    }

    // ---------------------------------------------------------- rotations

    /** Put `nr` in the place of its parent `r`, and `r` on its right. */
    method TurnRight(s: Stack, r: Node, nr: Node)
      requires Synced() && r in mem && nr in mem && r != nr && (s != [] ==> s[|s| - 1].node in mem)
      modifies `root, `mem, mem.Keys`left, mem.Keys`right
      ensures Synced() && Current() == RightTurned(old(Current()), s, r, nr)
      ensures r.bal == old(r.bal) && nr.bal == old(nr.bal)
    {
      Relink(s, nr);
      SetLeft(r, nr.right);
      SetRight(nr, r);
    }

    /** Put `nr` in the place of its parent `r`, and `r` on its left. */
    method TurnLeft(s: Stack, r: Node, nr: Node)
      requires Synced() && r in mem && nr in mem && r != nr && (s != [] ==> s[|s| - 1].node in mem)
      modifies `root, `mem, mem.Keys`left, mem.Keys`right
      ensures Synced() && Current() == LeftTurned(old(Current()), s, r, nr)
      ensures r.bal == old(r.bal) && nr.bal == old(nr.bal)
    {
      Relink(s, nr);
      SetRight(r, nr.left);
      SetLeft(nr, r);
    }

    /** Rotate the top node of the stack with its left child, and pop it. */
    method RotateRight(s: Stack) returns (s': Stack)
      requires Synced() && s != [] && (|s| > 1 ==> s[|s| - 2].node in mem)
      requires Rotatable(mem, s[|s| - 1].node, s[|s| - 1].node.left)
      modifies `root, `mem, mem.Keys`left, mem.Keys`right, mem.Keys`bal
      ensures Synced() && s' == s[..|s| - 1]
      ensures Current() == RightRotated(old(Current()), s', s[|s| - 1].node, old(s[|s| - 1].node.left))
    {
      hide RightTurned, Reweighed;
      var r := s[|s| - 1].node;
      s' := s[..|s| - 1];
      var nr := r.left;

      TurnedKeys(Current(), s', r, nr);
      TurnRight(s', r, nr);
      WeighRight(r, nr);
    }

    /** The balance factors of a right rotation. */
    method WeighRight(r: Node, nr: Node)
      requires Synced() && r in mem && nr in mem && r != nr && -2 <= r.bal <= 2 && -2 <= nr.bal <= 2
      modifies `mem, r`bal, nr`bal
      ensures Synced()
      ensures var b := old(r.bal) + 1 - Min(old(nr.bal), 0);
        Current() == Reweighed(old(Current()), r, b, nr, old(nr.bal) + 1 + Max(b, 0))
    {
      SetBal(r, r.bal + 1 - Min(nr.bal, 0));
      SetBal(nr, nr.bal + 1 + Max(r.bal, 0));
    }

    /** Rotate the top node of the stack with its right child, and pop it. */
    method RotateLeft(s: Stack) returns (s': Stack)
      requires Synced() && s != [] && (|s| > 1 ==> s[|s| - 2].node in mem)
      requires Rotatable(mem, s[|s| - 1].node, s[|s| - 1].node.right)
      modifies `root, `mem, mem.Keys`left, mem.Keys`right, mem.Keys`bal
      ensures Synced() && s' == s[..|s| - 1]
      ensures Current() == LeftRotated(old(Current()), s', s[|s| - 1].node, old(s[|s| - 1].node.right))
    {
      hide LeftTurned, Reweighed;
      var r := s[|s| - 1].node;
      s' := s[..|s| - 1];
      var nr := r.right;

      TurnedKeys(Current(), s', r, nr);
      TurnLeft(s', r, nr);
      WeighLeft(r, nr);
    }

    /** The balance factors of a left rotation. */
    method WeighLeft(r: Node, nr: Node)
      requires Synced() && r in mem && nr in mem && r != nr && -2 <= r.bal <= 2 && -2 <= nr.bal <= 2
      modifies `mem, r`bal, nr`bal
      ensures Synced()
      ensures var b := old(r.bal) - 1 - Max(old(nr.bal), 0);
        Current() == Reweighed(old(Current()), r, b, nr, old(nr.bal) - 1 + Min(b, 0))
    {
      SetBal(r, r.bal - 1 - Max(nr.bal, 0));
      SetBal(nr, nr.bal - 1 + Min(r.bal, 0));
    }

    /** A left rotation of the left child, then a right rotation of the top node. */
    method DoubleRight(s: Stack, d: Dir, ghost path: Path<Node>, ghost u: Tree<Node>) returns (s': Stack)
      requires Synced() && Realises(Current(), path, u) && Separate(path, u)
      requires Skewed(u) && u.tag == -2 && u.left.tag == 1
      requires s == StackOf(path) + [Entry(u.node, LEFT)] && |s| < MAX_HEIGHT
      modifies `root, `mem, mem.Keys`left, mem.Keys`right, mem.Keys`bal
      ensures Synced() && mem.Keys == old(mem.Keys) && s' == StackOf(path)
      ensures Realises(Current(), path, RepairedLeft(u))
    {
      hide Realises, Separate, Skewed, Avl, Height, Real, RealPath, Rotatable, LeftRotated, RightRotated;
      InnerLeftRotatable(Current(), path, u);
      ghost var m := u.(left := RotatedLeft(u.left));
      InnerLeftRealises(Current(), path, u);

      s' := s + [Entry(s[|s| - 1].node.left, d)];
      s' := RotateLeft(s');

      OuterRightRotatable(Current(), path, u);
      RightRotationRealises(Current(), path, m);
      s' := RotateRight(s');
    }

    /** A right rotation of the right child, then a left rotation of the top node. */
    method DoubleLeft(s: Stack, d: Dir, ghost path: Path<Node>, ghost u: Tree<Node>) returns (s': Stack)
      requires Synced() && Realises(Current(), path, u) && Separate(path, u)
      requires Skewed(u) && u.tag == 2 && u.right.tag == -1
      requires s == StackOf(path) + [Entry(u.node, RIGHT)] && |s| < MAX_HEIGHT
      modifies `root, `mem, mem.Keys`right, mem.Keys`left, mem.Keys`bal
      ensures Synced() && mem.Keys == old(mem.Keys) && s' == StackOf(path)
      ensures Realises(Current(), path, RepairedRight(u))
    {
      hide Realises, Separate, Skewed, Avl, Height, Real, RealPath, Rotatable, LeftRotated, RightRotated;
      InnerRightRotatable(Current(), path, u);
      ghost var m := u.(right := RotatedRight(u.right));
      InnerRightRealises(Current(), path, u);

      s' := s + [Entry(s[|s| - 1].node.right, d)];
      s' := RotateRight(s');

      OuterLeftRotatable(Current(), path, u);
      LeftRotationRealises(Current(), path, m);
      s' := RotateLeft(s');
    }

    /** Repair the top node, too high on its left. */
    method RepairLeft(s: Stack, ghost path: Path<Node>, ghost u: Tree<Node>) returns (s': Stack)
      requires Synced() && Overgrown(Current(), path, u) && u.tag == -2
      requires s == StackOf(path) + [Entry(u.node, LEFT)] && |s| < MAX_HEIGHT
      modifies `root, `mem, mem.Keys`left, mem.Keys`right, mem.Keys`bal
      ensures Synced() && mem.Keys == old(mem.Keys) && s' == StackOf(path)
      ensures Settled(Current(), path, RepairedLeft(u)) && SameInPlace(path, u, path, RepairedLeft(u))
    {
      hide Realises, Separate, AvlPath, Avl, Height, Settled, SameInPlace, Plug, InOrder, Nodes;
      TopRotatable(Current(), path, u);
      if s[|s| - 1].node.left.bal > 0 {
        s' := DoubleRight(s, LEFT, path, u);
      } else {
        RightRotationRealises(Current(), path, u);
        s' := RotateRight(s);
      }
      RepairedLeftSettles(old(Current()), Current(), path, u);
    }

    /** Repair the top node, too high on its right. */
    method RepairRight(s: Stack, ghost path: Path<Node>, ghost u: Tree<Node>) returns (s': Stack)
      requires Synced() && Overgrown(Current(), path, u) && u.tag == 2
      requires s == StackOf(path) + [Entry(u.node, RIGHT)] && |s| < MAX_HEIGHT
      modifies `root, `mem, mem.Keys`left, mem.Keys`right, mem.Keys`bal
      ensures Synced() && mem.Keys == old(mem.Keys) && s' == StackOf(path)
      ensures Settled(Current(), path, RepairedRight(u)) && SameInPlace(path, u, path, RepairedRight(u))
    {
      hide Realises, Separate, AvlPath, Avl, Height, Settled, SameInPlace, Plug, InOrder, Nodes;
      TopRotatable(Current(), path, u);
      if s[|s| - 1].node.right.bal < 0 {
        s' := DoubleLeft(s, RIGHT, path, u);
      } else {
        LeftRotationRealises(Current(), path, u);
        s' := RotateLeft(s);
      }
      RepairedRightSettles(old(Current()), Current(), path, u);
    }

    /** Repair the top node, too high on one side. */
    method Repair(s: Stack, ghost path: Path<Node>, ghost u: Tree<Node>) returns (s': Stack, ghost t: Tree<Node>)
      requires Synced() && Overgrown(Current(), path, u) && u.tag in {-2, 2} && u.node.bal == u.tag
      requires s == StackOf(path) + [Entry(u.node, if u.tag == -2 then LEFT else RIGHT)] && |s| < MAX_HEIGHT
      modifies `root, `mem, mem.Keys`left, mem.Keys`right, mem.Keys`bal
      ensures Synced() && mem.Keys == old(mem.Keys) && s' == StackOf(path)
      ensures Settled(Current(), path, t) && SameInPlace(path, u, path, t)
    {
      hide Settled, SameInPlace, Realises, Separate, AvlPath, Avl, Height, StackOf;
      var n := s[|s| - 1].node;
      if n.bal < -1 {
        s' := RepairLeft(s, path, u);
        t := RepairedLeft(u);
      } else {
        s' := RepairRight(s, path, u);
        t := RepairedRight(u);
      }
    }

    // ---------------------------------------------------------- insertion

    /** The structure invariant: the nodes are linked as the picture, which is an AVL tree. */
    ghost predicate Linked()
      reads `root, `cnt, `shape, `mem, mem.Keys`left, mem.Keys`right, mem.Keys`bal
    {
      Synced() && mem.Keys == Nodes(shape) && Settled(Current(), [], shape) && cnt == |InOrder(shape)|
    }

    /** After the new node has been linked: update the balance factors up to the unbalancing point
        and rotate there.  The rebalanced tree is back to the height it had before. */
    method Grow(s: Stack, ghost path: Path<Node>, ghost leaf: Tree<Node>)
        returns (ghost p: Path<Node>, ghost t: Tree<Node>)
      requires Synced() && s == StackOf(path) && Directed(path) && Growing(Current(), path, leaf, 0)
      modifies `root, `mem, mem.Keys`left, mem.Keys`right, mem.Keys`bal
      ensures Synced() && mem.Keys == old(mem.Keys)
      ensures Settled(Current(), p, t) && SameInPlace(path, leaf, p, t)
      ensures Balanced(Plug(path, leaf)) ==> SameShape(path, leaf, p, t)
    {
      hide Settled, Growing, Overgrown, Skewed, Wrap, Plug, InOrder, Nodes, Balanced, Bare;
      hide SameInPlace, SameShape;
      var s' := s;
      ghost var h := 0;
      p, t := path, leaf;
      SameStart(path, leaf);
      while s' != []
        invariant Synced() && mem.Keys == old(mem.Keys)
        invariant Growing(Current(), p, t, h) && s' == StackOf(p) && Directed(p)
        invariant |p| <= |path| && (|p| == |path| ==> h == 0)
        invariant SameInPlace(path, leaf, p, t) && SameShape(path, leaf, p, t)
      {
        ghost var f, init := p[|p| - 1], p[..|p| - 1];
        ghost var u := Wrap(Grown(f), t);
        assert p == init + [f];
        GrowStep(Current(), init, f, t, h);
        GrowTurn(Current(), path, leaf, init, f, t, h);

        var dir, n := s'[|s'| - 1].dir, s'[|s'| - 1].node;
        SetBal(n, if dir == LEFT then n.bal - 1 else n.bal + 1);

        if n.bal == 0 {
          p, t := init, u;
          return;
        } else if n.bal < -1 || 1 < n.bal {
          s', t := Repair(s', init, u);
          SameThrough(path, leaf, init, u, t);
          p := init;
          return;
        }

        // propagate the growth
        s' := s'[..|s'| - 1];
        p, t, h := init, u, Above(f, h);
      }
      GrownAtRoot(Current(), t, h);
    }

    /** Count the new node and link it at the end of the path. */
    method Plant(s: Stack, node: Node, ghost path: Path<Node>)
      requires Linked() && s == StackOf(path) && Plug(path, Nil) == shape
      requires node !in Nodes(shape) && node.left == null && node.right == null && node.bal == 0
      modifies `root, `cnt, `mem, mem.Keys`left, mem.Keys`right, node`left, node`right
      ensures Synced() && mem.Keys == old(mem.Keys) + {node} && cnt == old(cnt) + 1
      ensures Growing(Current(), path, Leaf(node), 0)
    {
      hide Settled, Growing, Realises, Separate, Avl, AvlPath, Plug, Nodes, InOrder;
      PlantRealises(Current(), path, node);
      mem := mem[node := Rec(null, null, 0)];
      cnt := cnt + 1;
      if root == null {
        root := node;
        return;
      }
      Relink(s, node);
    }

    /** `node` becomes the subtree at the end of the path, and the nodes above it are rebalanced. */
    method Insert(s: Stack, node: Node, ghost path: Path<Node>)
      requires Linked() && s == StackOf(path) && Directed(path) && Plug(path, Nil) == shape
      requires node !in Nodes(shape) && node.left == null && node.right == null && node.bal == 0
      modifies `root, `cnt, `mem, `shape, mem.Keys`left, mem.Keys`right, mem.Keys`bal, node`left, node`right, node`bal
      ensures Linked() && mem.Keys == old(mem.Keys) + {node}
      ensures InOrder(shape) == Before(path) + [node] + After(path)
      ensures Balanced(Plug(path, Leaf(node))) ==> Bare(shape) == Bare(Plug(path, Leaf(node)))
    {
      hide Settled, Growing, Realises, Separate, Avl, AvlPath, Plug, Nodes, InOrder, Before, After, Balanced, Bare;
      LeafInPlace(path, node);
      Plant(s, node, path);
      ghost var p, t := Grow(s, path, Leaf(node));
      SettledPlug(Current(), p, t);
      shape := Plug(p, t);
    }

    // ------------------------------------------------------------ removal

    /** The top node is too high on its right since its left subtree has lost a level: rotate.
        Nothing is left to do above when its right child was even. */
    method LowerRight(s: Stack, ghost path: Path<Node>, ghost u: Tree<Node>) returns (done: bool, s': Stack)
      requires Synced() && Lopsided(Current(), path, u) && u.tag == 2
      requires s == StackOf(path) + [Entry(u.node, LEFT)] && (u.right.Bin? && u.right.tag == -1 ==> |s| < MAX_HEIGHT)
      modifies `root, `mem, mem.Keys`left, mem.Keys`right, mem.Keys`bal
      ensures Synced() && mem.Keys == old(mem.Keys) && Skewed(u) && s' == StackOf(path)
      ensures SameInPlace(path, u, path, RepairedRight(u))
      ensures done ==> Settled(Current(), path, RepairedRight(u))
      ensures !done ==> Shrinking(Current(), path, RepairedRight(u), Height(u))
    {
      hide Shrinking, Settled, Lopsided, Realises, Separate, Skewed, Plug, InOrder, Nodes, Rotatable, Height;
      LopsidedTop(Current(), path, u);
      var p := s[|s| - 1].node;
      done := p.right.bal == 0;
      if p.right.bal == 0 {
        s' := RotateLeft(s);
      } else if p.right.bal == 1 {
        s' := RotateLeft(s);
      } else {
        s' := s[..|s| - 1] + [Entry(p, RIGHT)];
        s' := DoubleLeft(s', NONE, path, u);
      }
      RepairedRightShrinks(old(Current()), Current(), path, u);
    }

    /** The left subtree of the top node has lost one level. */
    method RemovedOnLeft(s: Stack, ghost path: Path<Node>, ghost f: Frame<Node>, ghost t: Tree<Node>, ghost h: int)
        returns (done: bool, s': Stack, ghost u: Tree<Node>)
      requires Synced() && Shrinking(Current(), path + [f], t, h) && s == StackOf(path + [f])
      requires f.dir == LEFT && (RepairsTwice(f) ==> |s| < MAX_HEIGHT)
      modifies `root, `mem, mem.Keys`left, mem.Keys`right, mem.Keys`bal
      ensures Synced() && mem.Keys == old(mem.Keys) && SameInPlace(path + [f], t, path, u)
      ensures done ==> Settled(Current(), path, u)
      ensures !done ==> s' == StackOf(path) && Shrinking(Current(), path, u, Above(f, h))
    {
      hide Shrinking, Settled, Lopsided, Skewed, Realises, Separate, Wrap, Plug, InOrder, Nodes;
      ShrinkStep(Current(), path, f, t, h);
      RepairsTwiceIs(f, t);
      u := Wrap(Shrunk(f), t);
      var p := s[|s| - 1].node;
      SetBal(p, p.bal + 1);

      if p.bal == 0 {
        // height reduction
        done, s' := false, s[..|s| - 1];
      } else if p.bal == 1 {
        // no height reduction
        done, s' := true, s;
      } else {
        done, s' := LowerRight(s, path, u);
        u := RepairedRight(u);
      }
    }

    /** The top node is too high on its left since its right subtree has lost a level: rotate.
        Nothing is left to do above when its left child was even. */
    method LowerLeft(s: Stack, ghost path: Path<Node>, ghost u: Tree<Node>) returns (done: bool, s': Stack)
      requires Synced() && Lopsided(Current(), path, u) && u.tag == -2
      requires s == StackOf(path) + [Entry(u.node, RIGHT)] && (u.left.Bin? && u.left.tag == 1 ==> |s| < MAX_HEIGHT)
      modifies `root, `mem, mem.Keys`right, mem.Keys`left, mem.Keys`bal
      ensures Synced() && mem.Keys == old(mem.Keys) && Skewed(u) && s' == StackOf(path)
      ensures SameInPlace(path, u, path, RepairedLeft(u))
      ensures done ==> Settled(Current(), path, RepairedLeft(u))
      ensures !done ==> Shrinking(Current(), path, RepairedLeft(u), Height(u))
    {
      hide Shrinking, Settled, Lopsided, Realises, Separate, Skewed, Plug, InOrder, Nodes, Rotatable, Height;
      LopsidedTop(Current(), path, u);
      var p := s[|s| - 1].node;
      done := p.left.bal == 0;
      if p.left.bal == 0 {
        s' := RotateRight(s);
      } else if p.left.bal == -1 {
        s' := RotateRight(s);
      } else {
        s' := s[..|s| - 1] + [Entry(p, LEFT)];
        s' := DoubleRight(s', NONE, path, u);
      }
      RepairedLeftShrinks(old(Current()), Current(), path, u);
    }

    /** The right subtree of the top node has lost one level. */
    method RemovedOnRight(s: Stack, ghost path: Path<Node>, ghost f: Frame<Node>, ghost t: Tree<Node>, ghost h: int)
        returns (done: bool, s': Stack, ghost u: Tree<Node>)
      requires Synced() && Shrinking(Current(), path + [f], t, h) && s == StackOf(path + [f])
      requires f.dir == RIGHT && (RepairsTwice(f) ==> |s| < MAX_HEIGHT)
      modifies `root, `mem, mem.Keys`right, mem.Keys`left, mem.Keys`bal
      ensures Synced() && mem.Keys == old(mem.Keys) && SameInPlace(path + [f], t, path, u)
      ensures done ==> Settled(Current(), path, u)
      ensures !done ==> s' == StackOf(path) && Shrinking(Current(), path, u, Above(f, h))
    {
      hide Shrinking, Settled, Lopsided, Skewed, Realises, Separate, Wrap, Plug, InOrder, Nodes;
      ShrinkStep(Current(), path, f, t, h);
      RepairsTwiceIs(f, t);
      u := Wrap(Shrunk(f), t);
      var p := s[|s| - 1].node;
      SetBal(p, p.bal - 1);

      if p.bal == 0 {
        // height reduction
        done, s' := false, s[..|s| - 1];
      } else if p.bal == -1 {
        // no height reduction
        done, s' := true, s;
      } else {
        done, s' := LowerLeft(s, path, u);
        u := RepairedLeft(u);
      }
    }

    /** Forget the removed node and link its only child in its place. */
    method Bypass(s: Stack, n: Node?, ghost path: Path<Node>, ghost x: Tree<Node>)
      requires Linked() && s == StackOf(path) && Plug(path, x) == shape
      requires x.Bin? && (x.left.Nil? || x.right.Nil?) && n == Top(OnlyChild(x))
      modifies `root, `cnt, `mem, mem.Keys`left, mem.Keys`right
      ensures Synced() && mem.Keys == old(mem.Keys) - {x.node} && cnt == old(cnt) - 1
      ensures Shrinking(Current(), path, OnlyChild(x), Height(x))
    {
      hide Shrinking, Settled, Realises, Plug, Nodes, InOrder, Height;
      BypassRealises(Current(), path, x);
      cnt := cnt - 1;
      Relink(s, n);
      mem := mem - {x.node};
    }

    /** Propagate the loss of a level from the end of the path up. */
    method Shrink(s: Stack, ghost path: Path<Node>, ghost c: Tree<Node>, ghost h0: int)
        returns (ghost p: Path<Node>, ghost t: Tree<Node>)
      requires Synced() && s == StackOf(path) && Directed(path) && Roomy(path)
      requires Shrinking(Current(), path, c, h0)
      modifies `root, `mem, mem.Keys`left, mem.Keys`right, mem.Keys`bal
      ensures Synced() && mem.Keys == old(mem.Keys)
      ensures Settled(Current(), p, t) && SameInPlace(path, c, p, t)
    {
      hide Shrinking, Settled, Realises, Plug, Nodes, InOrder, Height;
      var s' := s;
      ghost var h := h0;
      p, t := path, c;
      while s' != []
        invariant Synced() && mem.Keys == old(mem.Keys)
        invariant Shrinking(Current(), p, t, h) && s' == StackOf(p) && Directed(p) && Roomy(p)
        invariant SameInPlace(path, c, p, t)
        decreases |s'|
      {
        ghost var f, init := p[|p| - 1], p[..|p| - 1];
        assert p == init + [f];
        ghost var t0, h1 := t, Above(f, h);
        var done: bool;
        if s'[|s'| - 1].dir == LEFT {
          done, s', t := RemovedOnLeft(s', init, f, t0, h);
        } else {
          done, s', t := RemovedOnRight(s', init, f, t0, h);
        }
        p, h := init, h1;
        if done {
          return;
        }
      }
      ShrunkAtRoot(Current(), t, h);
    }

    /** Unlink the node `x.node`, found at the end of the path, that has at most one child `n`. */
    method Remove(s: Stack, n: Node?, ghost path: Path<Node>, ghost x: Tree<Node>)
      requires Linked() && s == StackOf(path) && Directed(path) && Roomy(path)
      requires Plug(path, x) == shape && x.Bin? && (x.left.Nil? || x.right.Nil?) && n == Top(OnlyChild(x))
      modifies `root, `cnt, `mem, `shape, mem.Keys`left, mem.Keys`right, mem.Keys`bal
      ensures Linked() && mem.Keys == old(mem.Keys) - {x.node}
      ensures old(InOrder(shape)) == Before(path) + InOrder(x) + After(path)
      ensures InOrder(shape) == Before(path) + InOrder(OnlyChild(x)) + After(path)
    {
      hide Shrinking, Realises, Plug, Nodes, InOrder, Before, After;
      OnlyChildInPlace(path, x);
      Bypass(s, n, path, x);
      ghost var p, t := Shrink(s, path, OnlyChild(x), Height(x));
      SettledPlug(Current(), p, t);
      shape := Plug(p, t);
    }

    // ---------------------------------------------------- lookup, add, remove

    /** The path that a lookup follows. */
    ghost function LookupPath(key: int): Path<Node>
      reads `shape, `dat
    {
      Descent(shape, dat, key)
    }

    ghost function LookupEnd(key: int): Tree<Node>
      reads `shape, `dat
    {
      Reached(shape, dat, key)
    }

    /** The stack has room for the lookup of a key and for the removal of what is found. */
    ghost predicate RemovalFits(key: int)
      reads `shape, `dat
    {
      && |LookupPath(key)| <= MAX_HEIGHT
      && (LookupEnd(key).Bin? ==> Roomy(RemovedPath(LookupPath(key), LookupEnd(key))))
    }

    /** Descend to the node with a key, or to the place where it belongs.  A push on a full stack is an
        error, so that the nodes on the way must fit in. */
    method Lookup(key: int) returns (n: Node?, s: Stack, ghost path: Path<Node>, ghost t: Tree<Node>)
      requires Valid() && |LookupPath(key)| <= MAX_HEIGHT
      ensures Plug(path, t) == shape && path == LookupPath(key) && t == LookupEnd(key) && s == StackOf(path)
          && Directed(path)
      ensures n == Top(t) && Between(path, dat, key)
      ensures n != null ==> n in dat && n.data.key == key
    {
      hide Linked, Plug, Between, SortedNodes, InOrder, Nodes, StackOf, Descent, Reached;
      n, s := root, [];
      path, t := [], shape;
      LookupStart(key);
      while n != null
        invariant Plug(path, t) == shape && s == StackOf(path) && Directed(path)
        invariant path + Descent(t, dat, key) == LookupPath(key) && Reached(t, dat, key) == LookupEnd(key)
        invariant n == Top(t) && Between(path, dat, key)
        decreases Height(t)
      {
        LookupStep(path, t, key);
        DescentStep(path, t, dat, key);
        if key == n.data.key {
          break;
        } else if key < n.data.key {
          s := s + [Entry(n, LEFT)];
          path, t := path + [Down(t, LEFT)], t.left;
          n := n.left;
        } else {
          s := s + [Entry(n, RIGHT)];
          path, t := path + [Down(t, RIGHT)], t.right;
          n := n.right;
        }
      }
      DescentEnd(t, dat, key);
      assert path + [] == path;
    }

    lemma {:induction false} LookupStart(key: int)
      requires Valid()
      ensures Plug([], shape) == shape && root == Top(shape) && Between([], dat, key) && StackOf([]) == []
      ensures [] + LookupPath(key) == LookupPath(key)
    {
    }

    /** With fewer items than `MAX_NODES`, the tree is never higher than the stack is deep. */
    lemma {:induction false} TreeFits()
      requires Valid() && cnt < MAX_NODES
      ensures Height(shape) <= MAX_HEIGHT
    {
      AvlIsBalanced(shape);
      HeightAtMost32(shape);
    }

    /** In a tree that is no higher than the stack is deep, every lookup and every removal has room. */
    lemma {:induction false} AllFits(key: int)
      requires Valid() && Height(shape) <= MAX_HEIGHT
      ensures |LookupPath(key)| <= MAX_HEIGHT && RemovalFits(key)
    {
      DescentShort(shape, dat, key);
      if LookupEnd(key).Bin? {
        RemovedPathShort(LookupPath(key), LookupEnd(key));
      }
    }

    /** The height is logarithmic in the number of items, after any run of operations. */
    lemma {:induction false} Shallow()
      requires Valid()
      ensures Pow2(Height(shape) / 2) <= cnt + 1
    {
      AvlIsBalanced(shape);
      BalancedIsShallow(shape);
    }

    /** One step of a descent. */
    lemma {:induction false} LookupStep(path: Path<Node>, t: Tree<Node>, key: int)
      requires Valid() && Plug(path, t) == shape && t.Bin? && Between(path, dat, key)
      ensures |path| + Height(t) <= Height(shape)
      ensures t.node in dat && t.node.data == dat[t.node] && t.node.left == Top(t.left) && t.node.right == Top(t.right)
      ensures forall d :: d in {LEFT, RIGHT} ==>
        var p := path + [Down(t, d)];
        Plug(p, Child(t, d)) == shape && StackOf(p) == StackOf(path) + [Entry(t.node, d)]
        && (Directed(path) ==> Directed(p))
      ensures key < t.node.data.key ==> Between(path + [Down(t, LEFT)], dat, key)
      ensures key > t.node.data.key ==> Between(path + [Down(t, RIGHT)], dat, key)
    {
      PathWithinHeight(path, t);
      SettledPlug(Current(), path, t);
      RealRoot(t, mem);
      Narrow(path, t, dat, key);
      StepDown(path, t, LEFT);
      StepDown(path, t, RIGHT);
    }

    lemma {:induction false} KeyFound(path: Path<Node>, t: Tree<Node>)
      requires Valid() && Plug(path, t) == shape && t.Bin?
      ensures t.node in dat && t.node.data == dat[t.node]
      ensures dat[t.node].key in Contents() && Contents()[dat[t.node].key] == dat[t.node]
    {
      hide Plug, Linked, Items, ToMap, InOrder;
      ContentsFound(path, t, dat);
    }

    lemma {:induction false} KeyMissed(path: Path<Node>, key: int)
      requires Valid() && Plug(path, Nil) == shape && Between(path, dat, key)
      ensures key !in Contents()
    {
      hide Plug, Linked, Items, ToMap, InOrder, Between;
      ContentsMissed(path, dat, key);
    }

    /** The item with a key, if any. */
    method Get(key: int) returns (r: Option<Item>)
      requires Valid()
      ensures r == if key in Contents() then Some(Contents()[key]) else None
    {
      hide Linked, Plug, Between, SortedNodes, InOrder, Contents, AvlOrder.Contents, Items, ToMap, Nodes, StackOf;
      var p := root;
      ghost var path, t := [], shape;
      AtRoot(key);
      while p != null
        invariant Plug(path, t) == shape && p == Top(t) && Between(path, dat, key)
        decreases Height(t)
      {
        LookupStep(path, t, key);
        KeyFound(path, t);
        if key < p.data.key {
          path, t := path + [Down(t, LEFT)], t.left;
          p := p.left;
        } else if p.data.key < key {
          path, t := path + [Down(t, RIGHT)], t.right;
          p := p.right;
        } else {
          return Some(p.data);
        }
      }
      KeyMissed(path, key);
      return None;
    }

    lemma {:induction false} AtRoot(key: int)
      requires Valid()
      ensures Plug([], shape) == shape && root == Top(shape) && Between([], dat, key)
    {
    }

    lemma {:induction false} CountIsSize()
      requires Valid()
      ensures cnt == |Contents()|
    {
      ToMapSize(Items(InOrder(shape), dat));
    }

    /** Insert a new node where its key belongs. */
    method AddNode(node: Node, s: Stack, ghost path: Path<Node>)
      requires Valid() && s == StackOf(path) && Directed(path) && Plug(path, Nil) == shape
      requires Between(path, dat, node.data.key)
      requires node !in mem && node.left == null && node.right == null && node.bal == 0
      modifies this, mem.Keys`left, mem.Keys`right, mem.Keys`bal, node`left, node`right, node`bal
      ensures Valid() && mem.Keys == old(mem.Keys) + {node}
      ensures node.data.key !in old(Contents())
      ensures Contents() == old(Contents())[node.data.key := node.data]
      ensures var u := Inserted(old(KeyShape()), node.data.key); Balanced(u) ==> KeyShape() == u
    {
      hide Plug, SortedNodes, InOrder, Before, After, Nodes, Between, ToMap, Items, Height;
      hide Keyed, Bare, Balanced, Inserted;
      AddedContents(path, node, dat, node.data);
      LeafIsInserted(path, node, dat, node.data);
      dat := dat[node := node.data];
      Insert(s, node, path);
      KeyedBare(Plug(path, Leaf(node)), dat);
      KeyedBare(shape, dat);
    }

    /** Add an item, unless its key is already there: the tree then keeps the item it has.  Nothing is
        rotated when the plain insertion leaves the tree balanced. */
    method Add(item: Item)
      requires Valid() && |LookupPath(item.key)| <= MAX_HEIGHT
      modifies this, mem.Keys
      ensures Valid() && fresh(mem.Keys - old(mem.Keys)) && cnt == |Contents()|
      ensures Contents() == if item.key in old(Contents()) then old(Contents()) else old(Contents())[item.key := item]
      ensures var u := Inserted(old(KeyShape()), item.key); Balanced(u) ==> KeyShape() == u
    {
      hide Linked, Plug, SortedNodes, InOrder, Contents, AvlOrder.Contents, Nodes, Between, ToMap, Items;
      hide StackOf, Directed;
      hide Descent, Keyed, Balanced, Inserted, Height;
      var n, s, path, t := Lookup(item.key);
      if n == null {
        var node := new Node(item);
        AddNode(node, s, path);
      } else {
        KeyFound(path, t);
        FoundIsInserted(path, t, dat, item.key);
      }
      CountIsSize();
    }

    /** The pointers of a node in the picture. */
    lemma {:induction false} NodeAt(path: Path<Node>, t: Tree<Node>)
      requires Linked() && Plug(path, t) == shape && t.Bin?
      ensures t.node in mem && t.node.left == Top(t.left) && t.node.right == Top(t.right)
      ensures |path| + Height(t) <= Height(shape)
      ensures Height(t) == 1 + Max(Height(t.left), Height(t.right))
    {
      PathWithinHeight(path, t);
      SettledPlug(Current(), path, t);
      RealRoot(t, mem);
    }

    /** Go down to the leftmost node of a subtree. */
    method LeftMost(s: Stack, n: Node, ghost path: Path<Node>, ghost t: Tree<Node>)
        returns (p: Node, s': Stack, ghost q: Path<Node>, ghost x: Tree<Node>)
      requires Linked() && Plug(path, t) == shape && t.Bin? && n == t.node
      requires s == StackOf(path) && Directed(path) && |path + LeftSpine(t)| <= MAX_HEIGHT
      ensures Plug(q, x) == shape && x.Bin? && x.left.Nil? && p == x.node
      ensures q == path + LeftSpine(t) && s' == StackOf(q) && Directed(q) && Before(q) == Before(path)
    {
      hide Linked, Plug, Before, After, InOrder, Nodes, StackOf, LeftSpine;
      p, s' := n, s;
      q, x := path, t;
      NodeAt(q, x);
      while p.left != null
        invariant Plug(q, x) == shape && x.Bin? && p == x.node
        invariant p.left == Top(x.left) && q + LeftSpine(x) == path + LeftSpine(t)
        invariant s' == StackOf(q) && Directed(q) && Before(q) == Before(path)
        decreases Height(x)
      {
        StepDown(q, x, LEFT);
        SpineStep(q, x);
        NodeAt(q, x);
        s' := s' + [Entry(p, LEFT)];
        p := p.left;
        q, x := q + [Down(x, LEFT)], x.left;
        NodeAt(q, x);
      }
      SpineStep(q, x);
    }

    /** Remove a node that has at most one child. */
    method RemoveSimple(s: Stack, n: Node, c: Node?, ghost path: Path<Node>, ghost t: Tree<Node>)
      requires Valid() && Plug(path, t) == shape && t.Bin? && n == t.node && (t.left.Nil? || t.right.Nil?)
      requires c == Top(OnlyChild(t)) && s == StackOf(path) && Directed(path) && Roomy(path)
      modifies this, mem.Keys`left, mem.Keys`right, mem.Keys`bal
      ensures Valid() && mem.Keys == old(mem.Keys) - {n}
      ensures n.data.key in old(Contents()) && Contents() == old(Contents()) - {n.data.key}
    {
      hide Plug, SortedNodes, Nodes, InOrder, Before, After, ToMap, Items;
      KeyFound(path, t);
      BypassedContents(path, t, dat);
      Remove(s, c, path, t);
      dat := dat - {n};
    }

    /** `GenTree::remove`: a node with two children gets the item of its successor, which goes away and
        is freed.  A node with less children goes away itself, and is not freed. */
    method RemoveNode(s: Stack, n: Node, ghost path: Path<Node>, ghost t: Tree<Node>) returns (freed: Node?)
      requires Valid() && Plug(path, t) == shape && t.Bin? && n == t.node && n in dat
      requires s == StackOf(path) && Directed(path) && Roomy(RemovedPath(path, t))
      modifies this, mem.Keys
      ensures Valid() && (freed != null <==> t.left.Bin? && t.right.Bin?)
      ensures freed != null ==> freed in old(mem) && freed != n && mem.Keys == old(mem.Keys) - {freed}
      ensures freed == null ==> mem.Keys == old(mem.Keys) - {n}
      ensures old(n.data.key) in old(Contents()) && Contents() == old(Contents()) - {old(n.data.key)}
    {
      hide Plug, SortedNodes, Nodes, InOrder, Before, After, ToMap, Items;
      NodeAt(path, t);
      freed := null;
      if n.left == null {
        RemoveSimple(s, n, n.right, path, t);
      } else if n.right == null {
        RemoveSimple(s, n, n.left, path, t);
      } else {
        freed := RemoveInner(s, n, path, t);
      }
    }

    method RemoveInner(s: Stack, n: Node, ghost path: Path<Node>, ghost t: Tree<Node>) returns (p: Node)
      requires Valid() && Plug(path, t) == shape && t.Bin? && t.left.Bin? && t.right.Bin? && n == t.node && n in dat
      requires s == StackOf(path) && Directed(path) && Roomy(RemovedPath(path, t))
      modifies this, mem.Keys
      ensures Valid() && p in old(mem) && p != n && mem.Keys == old(mem.Keys) - {p}
      ensures old(n.data.key) in old(Contents()) && Contents() == old(Contents()) - {old(n.data.key)}
    {
      hide Linked, Plug, SortedNodes, Nodes, InOrder, Before, After, ToMap, Items;
      NodeAt(path, t);
      KeyFound(path, t);
      StepDown(path, t, RIGHT);
      var s' := s + [Entry(n, RIGHT)];
      var s2;
      ghost var q, x;
      p, s2, q, x := LeftMost(s', n.right, path + [Down(t, RIGHT)], t.right);
      NodeAt(q, x);
      SuccessorContents(path, t, q, x, dat);
      Replace(s2, p, n, q, x);
    }

    /** The node `n` gets the item of `p`, which is unlinked. */
    method Replace(s: Stack, p: Node, n: Node, ghost q: Path<Node>, ghost x: Tree<Node>)
      requires Linked() && dat.Keys == mem.Keys && (forall m :: m in dat ==> dat[m] == m.data)
      requires n in dat && p in dat && n != p && Plug(q, x) == shape && x.Bin? && x.left.Nil? && p == x.node
      requires p.right == Top(x.right) && s == StackOf(q) && Directed(q) && Roomy(q)
      requires SortedNodes(Before(q) + InOrder(OnlyChild(x)) + After(q), dat[n := dat[p]][p := dat[n]] - {p})
      modifies this, mem.Keys
      ensures Valid() && mem.Keys == old(mem.Keys) - {p} && dat == old(dat)[n := old(dat)[p]][p := old(dat)[n]] - {p}
      ensures InOrder(shape) == Before(q) + InOrder(OnlyChild(x)) + After(q)
    {
      hide Linked, Plug, SortedNodes, Nodes, InOrder, Before, After, StackOf, Roomy;
      Exchange(p, n);
      Remove(s, p.right, q, x);
      dat := dat - {p};
    }

    /** Exchange the items of two nodes. */
    method Exchange(n: Node, p: Node)
      requires dat.Keys == mem.Keys && n in dat && p in dat && n != p
      requires forall m :: m in dat ==> dat[m] == m.data
      modifies `dat, n`data, p`data
      ensures dat == old(dat)[p := old(dat)[n]][n := old(dat)[p]]
      ensures dat.Keys == mem.Keys && forall m :: m in dat ==> dat[m] == m.data
    {
      var t := p.data;
      p.data := n.data;
      n.data := t;
      dat := dat[p := dat[n]][n := dat[p]];
    }

    /** Remove the item with a key, if there is one.  A node that leaves the tree is freed only if it is
        not the one with the key. */
    method RemoveByKey(key: int) returns (freed: Node?)
      requires Valid() && RemovalFits(key)
      modifies this, mem.Keys
      ensures Valid() && cnt == |Contents()|
      ensures Contents() == old(Contents()) - {key}
      ensures var x := old(LookupEnd(key)); freed != null <==> x.Bin? && x.left.Bin? && x.right.Bin?
      ensures freed != null ==> freed in old(mem) && mem.Keys == old(mem.Keys) - {freed}
      ensures var x := old(LookupEnd(key));
        freed == null ==> mem.Keys == if x.Nil? then old(mem.Keys) else old(mem.Keys) - {x.node}
    {
      hide Linked, Plug, SortedNodes, InOrder, Contents, AvlOrder.Contents, Nodes, Between, ToMap, Items;
      hide StackOf, Directed;
      hide Descent, RemovedPath;
      var n, s, path, t := Lookup(key);
      freed := null;
      if n == null {
        KeyMissed(path, key);
        CountIsSize();
        return;
      }
      freed := RemoveNode(s, n, path, t);
      CountIsSize();
    }
  }
}
