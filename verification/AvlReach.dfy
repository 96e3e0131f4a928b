/** Which trees runs of `add` reach: all balanced search trees that the stack allows, and a tree that is
    too high for the stack once there are `MAX_NODES` items. */
module AvlReach {
  import opened TreeShape
  import opened AvlBalance
  import opened AvlView
  import opened AvlOrder
  import opened SearchShapes
  import opened AvlGenTree
  import opened AvlIter

  /** Adding the keys of a balanced search tree level by level, from the root down, gives that tree. */
  method Build(goal: Tree<int>, lo: int, hi: int, levels: nat) returns (tree: GenTree)
    requires Search(goal, lo, hi) && Balanced(goal) && lo <= hi && levels <= MAX_HEIGHT
    ensures fresh(tree) && fresh(tree.mem.Keys) && tree.Valid()
    ensures tree.KeyShape() == Part(goal, levels, lo)
    ensures Height(goal) <= levels ==> tree.KeyShape() == Bare(goal)
  {
    hide GenTree.Linked, SortedNodes, GenTree.Contents, Keyed, Part, Search, Balanced, Height;
    tree := new GenTree();
    PartNext(goal, 0, lo, hi, lo, hi);
    EmptyShape(tree);
    for d := 0 to levels
      invariant fresh(tree) && fresh(tree.mem.Keys) && tree.Valid()
      invariant tree.KeyShape() == Part(goal, d, lo)
    {
      for key := lo to hi
        invariant fresh(tree) && fresh(tree.mem.Keys) && tree.Valid()
        invariant tree.KeyShape() == Part(goal, d, key)
      {
        PartStep(goal, d, key, lo, hi);
        PartBalanced(goal, d, key + 1);
        PartHeight(goal, d, key);
        KeyedBare(tree.shape, tree.dat);
        if OnLevel(goal, d, key) {
          tree.AllFits(key);
          tree.Add(Item(key, 0));
        }
      }
      PartNext(goal, d, lo, hi, lo, hi);
    }
    if Height(goal) <= levels {
      PartWhole(goal, levels, lo);
    }
  }

  lemma {:induction false} EmptyShape(tree: GenTree)
    requires tree.Valid() && tree.mem == map[]
    ensures tree.KeyShape() == Nil
  {
  }

  /** The bound `MAX_NODES` is tight: some run of `add` from the empty tree ends with as many items and
      a tree of height 33, in which the lookup of some key passes 33 nodes. */
  method SparsestTree(lo: int) returns (tree: GenTree)
    ensures tree.Valid() && tree.cnt == MAX_NODES && tree.KeyShape() == Bare(Sparsest(33, lo))
    ensures Height(tree.shape) == 33 > MAX_HEIGHT
    ensures |tree.LookupPath(lo - 1)| == 33 && tree.LookupEnd(lo - 1).Nil?
  {
    hide GenTree.Linked, SortedNodes, GenTree.Contents, Keyed, Part, Search, Balanced, Height, Avl, InOrder;
    hide MinNodes, Sparsest, Inserted, Bare, GenTree.Valid;
    var goal, hi := Sparsest(33, lo), lo + MAX_NODES;
    MinNodesOf33();
    SparsestGoal(33, lo);
    tree := Build(goal, lo, hi, 32);
    KeyedBare(tree.shape, tree.dat);
    tree.AllFits(lo);
    tree.Add(Item(lo, 0));
    KeyedBare(tree.shape, tree.dat);
    KeyedSize(tree.shape, tree.dat);
    Counted(tree);
    DescentDepth(tree.shape, tree.dat, lo - 1);
    DescentShort(tree.shape, tree.dat, lo - 1);
    SparsestDepth(33, lo);
    EmptyEnd(tree.LookupEnd(lo - 1));
  }

  lemma {:induction false} EmptyEnd(t: Tree<Node>)
    requires Height(t) == 0
    ensures t.Nil?
  {
  }

  /** A walk needs one entry more: some run of `add` ends with 5702886 items, and the walk fails. */
  method FailingWalk(lo: int) returns (tree: GenTree)
    ensures tree.Valid() && tree.cnt == 5702886 && tree.KeyShape() == Bare(Sparsest(32, lo))
    ensures Height(tree.shape) == 32
  {
    hide GenTree.Linked, SortedNodes, GenTree.Contents, Keyed, Part, Search, Balanced, Height, Avl, InOrder;
    hide MinNodes, Sparsest, Inserted, Bare, GenTree.Valid;
    var goal, hi := Sparsest(32, lo), lo + 5702886;
    MinNodesOf33();
    SparsestGoal(32, lo);
    BareBalanced(goal);
    tree := Build(goal, lo, hi, 32);
    KeyedBare(tree.shape, tree.dat);
    KeyedSize(tree.shape, tree.dat);
    Counted(tree);
    var ok, items := Walk(tree);
    assert !ok;
  }

  /** The last key of the sparsest tree, added level by level, is its least one. */
  lemma {:induction false} SparsestGoal(h: nat, lo: int)
    requires h >= 1
    ensures var t := Sparsest(h, lo);
      && Search(t, lo, lo + MinNodes(h)) && Balanced(t)
      && Height(Part(t, h - 1, lo)) <= h - 1 && Inserted(Part(t, h - 1, lo), lo) == Bare(t)
      && Balanced(Bare(t)) && Height(Bare(t)) == h && |InOrder(Bare(t))| == MinNodes(h)
  {
    hide Part, Search, Balanced, Height, Avl, InOrder, MinNodes, Sparsest, Inserted, Bare, OnLevel;
    var t, hi := Sparsest(h, lo), lo + MinNodes(h);
    SparsestIsAvl(h, lo);
    AvlIsBalanced(t);
    BareBalanced(t);
    PartStep(t, h - 1, lo, lo, hi);
    SparsestBottom(h, lo);
    LevelsBefore(t, h - 1, lo, hi);
  }

  /** The levels above `d` make a tree that is no higher than `d`. */
  lemma {:induction false} LevelsBefore(t: Tree<int>, d: nat, lo: int, hi: int)
    requires Search(t, lo, hi)
    ensures Height(Part(t, d, lo)) <= d
  {
    PartNext(t, d, lo, hi, lo, hi);
    if d > 0 {
      PartNext(t, d - 1, lo, hi, lo, hi);
      PartHeight(t, d - 1, hi);
    }
  }

  lemma {:induction false} Counted(tree: GenTree)
    requires tree.Valid()
    ensures tree.cnt == |InOrder(tree.shape)|
  {
  }
}
