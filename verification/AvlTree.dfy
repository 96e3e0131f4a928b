/** `elm::avl::Tree`: an AVL tree whose nodes store their heights, with recursive insertion. */
module AvlTree {
  import opened TreeShape
  import opened HeightTree

  /** The nodes below `cur` make the picture `t`, stored heights included. */
  ghost predicate Real(cur: Node?, t: Shape)
    reads Nodes(t)
    decreases t
  {
    match t
    case Nil => cur == null
    case Bin(l, n, h, r) => cur == n && n.h == h && Real(n.left, l) && Real(n.right, r)
  }

  class AvlTree {
    var root: Node?
    ghost var shape: Shape

    /** The tree is sorted, its stored heights are exact and siblings differ by less than 2. */
    ghost predicate Valid()
      reads this, Nodes(shape)
    {
      Real(root, shape) && Distinct(shape) && Good(shape) && Sorted(InOrder(shape))
    }

    constructor ()
      ensures Valid() && InOrder(shape) == []
    {
      root, shape := null, Nil;
    }

    /** Get the node whose key is that of `node`, if any. */
    method Get(node: Node) returns (cur: Node?)
      requires Valid()
      ensures cur == null <==> !Has(InOrder(shape), node.key)
      ensures cur != null ==> cur in InOrder(shape) && cur.key == node.key
    {
      hide Sorted, InOrder;
      cur := root;
      ghost var t := shape;
      while cur != null && cur.key != node.key
        invariant Real(cur, t) && Sorted(InOrder(t))
        invariant Has(InOrder(t), node.key) <==> Has(InOrder(shape), node.key)
        invariant forall m :: m in InOrder(t) ==> m in InOrder(shape)
        decreases t
      {
        Descent(t, node.key);
        if node.key < cur.key {
          cur, t := cur.left, t.left;
        } else {
          cur, t := cur.right, t.right;
        }
      }
      Arrival(t, node.key);
    }

    /** Add a node, unless the tree has one with an equal key. */
    method Insert(node: Node)
      requires Valid() && node !in Nodes(shape) && node.left == null && node.right == null
      modifies this, Nodes(shape), node
      ensures Valid() && InOrder(shape) == Added(old(InOrder(shape)), node)
      ensures old(Height(shape)) <= Height(shape) <= old(Height(shape)) + 1
    {
      hide Inserted, Good, Sorted, Distinct;
      InsertedIsGood(shape, node);
      InsertedInOrder(shape, node);
      AddedSorted(InOrder(shape), node);
      InsertedNodes(shape, node);
      root := InsertIn(root, node, shape);
      shape := Inserted(shape, node);
    }

    lemma {:induction false} IsShallow()
      requires Valid()
      ensures Pow2(Height(shape) / 2) <= |InOrder(shape)| + 1
    {
      GoodIsBalanced(shape);
      BalancedIsShallow(shape);
    }

    // ---------------------------------------------------------------- recursion

    function StoredHeight(node: Node?): int
      reads node
    {
      if node == null then 0 else node.h
    }

    method ComputeHeight(node: Node, ghost t: Shape)
      requires t.Bin? && Real(node, t.(tag := node.h)) && Distinct(t)
      modifies node`h
      ensures Real(node, Computed(t))
    {
      var hleft, hright := StoredHeight(node.left), StoredHeight(node.right);
      if hleft > hright {
        node.h := hleft + 1;
      } else {
        node.h := hright + 1;
      }
    }

    method RotateSingleLeft(root: Node, ghost t: Shape) returns (new_root: Node)
      requires Real(root, t) && Distinct(t) && t.Bin? && t.left.Bin?
      modifies root, t.left.node
      ensures Real(new_root, SingleLeft(t))
    {
      hide Distinct;
      Exist(t);
      LeftParts(t);
      new_root := root.left;
      assert Real(new_root, t.left);
      assert Real(new_root.left, t.left.left) && Real(new_root.right, t.left.right) && Real(root.right, t.right);
      root.left := new_root.right;
      new_root.right := root;
      ghost var down := Bin(t.left.right, t.node, t.tag, t.right);
      ComputeHeight(root, down);
      ComputeHeight(new_root, Bin(t.left.left, t.left.node, t.left.tag, Computed(down)));
    }

    method RotateSingleRight(root: Node, ghost t: Shape) returns (new_root: Node)
      requires Real(root, t) && Distinct(t) && t.Bin? && t.right.Bin?
      modifies root, t.right.node
      ensures Real(new_root, SingleRight(t))
    {
      hide Distinct;
      Exist(t);
      RightParts(t);
      new_root := root.right;
      assert Real(new_root, t.right);
      assert Real(new_root.left, t.right.left) && Real(new_root.right, t.right.right) && Real(root.left, t.left);
      root.right := new_root.left;
      new_root.left := root;
      ghost var down := Bin(t.left, t.node, t.tag, t.right.left);
      ComputeHeight(root, down);
      ComputeHeight(new_root, Bin(Computed(down), t.right.node, t.right.tag, t.right.right));
    }

    method RotateDoubleLeft(root: Node, ghost t: Shape) returns (new_root: Node)
      requires Real(root, t) && Distinct(t) && t.Bin? && t.left.Bin? && t.left.right.Bin?
      modifies root, t.left.node, t.left.right.node
      ensures Real(new_root, DoubleLeft(t))
    {
      hide Distinct;
      Exist(t);
      DistinctBin(t);
      LeftParts(t);
      RightParts(t.left);
      SinglesNodes(t.left);
      ghost var u := t.(left := SingleRight(t.left));
      DistinctBin(u);
      root.left := RotateSingleRight(root.left, t.left);
      new_root := RotateSingleLeft(root, u);
    }

    method RotateDoubleRight(root: Node, ghost t: Shape) returns (new_root: Node)
      requires Real(root, t) && Distinct(t) && t.Bin? && t.right.Bin? && t.right.left.Bin?
      modifies root, t.right.node, t.right.left.node
      ensures Real(new_root, DoubleRight(t))
    {
      hide Distinct;
      Exist(t);
      DistinctBin(t);
      RightParts(t);
      LeftParts(t.right);
      SinglesNodes(t.right);
      ghost var u := t.(right := SingleLeft(t.right));
      DistinctBin(u);
      root.right := RotateSingleLeft(root.right, t.right);
      new_root := RotateSingleRight(root, u);
    }

    method InsertIn(cur: Node?, node: Node, ghost t: Shape) returns (r: Node)
      requires Real(cur, t) && Distinct(t) && Good(t)
      requires node !in Nodes(t) && node.left == null && node.right == null
      modifies Nodes(t), node
      ensures Real(r, Inserted(t, node))
      decreases t, 1
    {
      hide SingleLeft, SingleRight, DoubleLeft, DoubleRight;
      if cur == null {
        node.h := 1;
        return node;
      }
      if cur.key > node.key {
        r := InsertLeft(cur, node, t);
      } else if cur.key < node.key {
        r := InsertRight(cur, node, t);
      } else {
        return cur;
      }
    }

    lemma {:induction false} RealStored(cur: Node, u: Shape)
      requires Real(cur, u)
      ensures StoredHeight(cur.left) == Stored(u.left) && StoredHeight(cur.right) == Stored(u.right)
      ensures u.left.Bin? ==> cur.left == u.left.node
      ensures u.right.Bin? ==> cur.right == u.right.node
    {
    }

    /** The rotation that the insertion on the left asks for, if any. */
    method RepairLeft(cur: Node, node: Node, ghost u: Shape) returns (r: Node)
      requires u.Bin? && Real(cur, u) && Distinct(u)
      requires Stored(u.left) - Stored(u.right) >= 2 ==>
          u.left.Bin? && (u.left.node.key <= node.key ==> u.left.right.Bin?)
      modifies Nodes(u)
      ensures Real(r, LeftRepaired(u, node))
    {
      hide SingleLeft, DoubleLeft, Distinct;
      r := cur;
      RealStored(cur, u);
      TopNodes(u);
      if StoredHeight(cur.left) - StoredHeight(cur.right) >= 2 {
        if cur.left.key > node.key {
          r := RotateSingleLeft(cur, u);
        } else {
          r := RotateDoubleLeft(cur, u);
        }
      }
    }

    method FinishLeft(cur: Node, node: Node, ghost u: Shape) returns (r: Node)
      requires u.Bin? && Real(cur, u) && Distinct(u)
      requires Stored(u.left) - Stored(u.right) >= 2 ==>
          u.left.Bin? && (u.left.node.key <= node.key ==> u.left.right.Bin?)
      modifies Nodes(u)
      ensures Real(r, Computed(LeftRepaired(u, node)))
    {
      hide Real, LeftRepaired, Distinct, Computed;
      RepairsNodes(u, node);
      r := RepairLeft(cur, node, u);
      RealTag(r, LeftRepaired(u, node));
      TopNodes(LeftRepaired(u, node));
      RealBin(r, LeftRepaired(u, node));
      ComputeHeight(r, LeftRepaired(u, node));
    }

    method InsertLeft(cur: Node, node: Node, ghost t: Shape) returns (r: Node)
      requires t.Bin? && Real(cur, t) && Distinct(t) && Good(t) && cur.key > node.key
      requires node !in Nodes(t) && node.left == null && node.right == null
      modifies Nodes(t), node
      ensures Real(r, Inserted(t, node))
      decreases t, 0
    {
      hide Real, LeftRepaired, Distinct, Inserted, Computed, Good;
      ghost var k := Inserted(t.left, node);
      Exist(t);
      DistinctBin(t);
      GoodBin(t);
      RealBin(cur, t);
      InsertedNodes(t.left, node);
      InsertedIsGood(t.left, node);
      cur.left := InsertIn(cur.left, node, t.left);
      ghost var u := t.(left := k);
      DistinctBin(u);
      InsertedStep(t, node);
      RealBin(cur, u);
      if Stored(k) - Stored(t.right) >= 2 {
        LeftNeedsDouble(t.left, k, t.right, node);
      }
      r := FinishLeft(cur, node, u);
    }

    /** The rotation that the insertion on the right asks for, if any. */
    method RepairRight(cur: Node, node: Node, ghost u: Shape) returns (r: Node)
      requires u.Bin? && Real(cur, u) && Distinct(u)
      requires Stored(u.right) - Stored(u.left) >= 2 ==>
          u.right.Bin? && (u.right.node.key >= node.key ==> u.right.left.Bin?)
      modifies Nodes(u)
      ensures Real(r, RightRepaired(u, node))
    {
      hide SingleRight, DoubleRight, Distinct;
      r := cur;
      RealStored(cur, u);
      TopNodes(u);
      if StoredHeight(cur.right) - StoredHeight(cur.left) >= 2 {
        if cur.right.key < node.key {
          r := RotateSingleRight(cur, u);
        } else {
          r := RotateDoubleRight(cur, u);
        }
      }
    }

    method FinishRight(cur: Node, node: Node, ghost u: Shape) returns (r: Node)
      requires u.Bin? && Real(cur, u) && Distinct(u)
      requires Stored(u.right) - Stored(u.left) >= 2 ==>
          u.right.Bin? && (u.right.node.key >= node.key ==> u.right.left.Bin?)
      modifies Nodes(u)
      ensures Real(r, Computed(RightRepaired(u, node)))
    {
      hide Real, RightRepaired, Distinct, Computed;
      RepairsNodes(u, node);
      r := RepairRight(cur, node, u);
      RealTag(r, RightRepaired(u, node));
      TopNodes(RightRepaired(u, node));
      RealBin(r, RightRepaired(u, node));
      ComputeHeight(r, RightRepaired(u, node));
    }

    method InsertRight(cur: Node, node: Node, ghost t: Shape) returns (r: Node)
      requires t.Bin? && Real(cur, t) && Distinct(t) && Good(t) && cur.key < node.key
      requires node !in Nodes(t) && node.left == null && node.right == null
      modifies Nodes(t), node
      ensures Real(r, Inserted(t, node))
      decreases t, 0
    {
      hide Real, RightRepaired, Distinct, Inserted, Computed, Good;
      ghost var k := Inserted(t.right, node);
      Exist(t);
      DistinctBin(t);
      GoodBin(t);
      RealBin(cur, t);
      InsertedNodes(t.right, node);
      InsertedIsGood(t.right, node);
      cur.right := InsertIn(cur.right, node, t.right);
      ghost var u := t.(right := k);
      DistinctBin(u);
      InsertedStep(t, node);
      RealBin(cur, u);
      if Stored(k) - Stored(t.left) >= 2 {
        RightNeedsDouble(t.left, t.right, k, node);
      }
      r := FinishRight(cur, node, u);
    }
  }

  lemma {:induction false} RealBin(cur: Node, t: Shape)
    requires t.Bin?
    ensures Real(cur, t) <==> cur == t.node && cur.h == t.tag && Real(cur.left, t.left) && Real(cur.right, t.right)
  {
  }

  lemma {:induction false} RealTag(cur: Node, t: Shape)
    requires Real(cur, t)
    ensures t.Bin? && Real(cur, t.(tag := cur.h))
  {
  }

  lemma {:induction false} GoodBin(t: Shape)
    requires Good(t) && t.Bin?
    ensures Good(t.left) && Good(t.right) && -1 <= Height(t.right) - Height(t.left) <= 1
  {
  }

  lemma {:induction false} InsertedStep(t: Shape, n: Node)
    requires t.Bin?
    ensures t.node.key > n.key ==> Inserted(t, n) == Computed(LeftRepaired(t.(left := Inserted(t.left, n)), n))
    ensures t.node.key < n.key ==> Inserted(t, n) == Computed(RightRepaired(t.(right := Inserted(t.right, n)), n))
  {
  }

  lemma {:induction false} DistinctBin(t: Shape)
    requires t.Bin?
    ensures Distinct(t) <==>
      Distinct(t.left) && Distinct(t.right) && t.node !in Nodes(t.left) + Nodes(t.right)
          && Nodes(t.left) !! Nodes(t.right)
    ensures Nodes(t) == Nodes(t.left) + {t.node} + Nodes(t.right)
  {
  }

  lemma {:induction false} TopNodes(t: Shape)
    ensures t.Bin? ==> t.node in Nodes(t)
    ensures t.Bin? && t.left.Bin? ==> t.left.node in Nodes(t)
    ensures t.Bin? && t.right.Bin? ==> t.right.node in Nodes(t)
    ensures t.Bin? && t.left.Bin? && t.left.right.Bin? ==> t.left.right.node in Nodes(t)
    ensures t.Bin? && t.right.Bin? && t.right.left.Bin? ==> t.right.left.node in Nodes(t)
  {
    assert t.Bin? && t.left.Bin? ==> Nodes(t.left) == Nodes(t.left.left) + {t.left.node} + Nodes(t.left.right);
    assert t.Bin? && t.right.Bin? ==> Nodes(t.right) == Nodes(t.right.left) + {t.right.node} + Nodes(t.right.right);
  }

  /** The nodes of a picture exist, so that what does not modify them does not change what they are. */
  lemma {:induction false} Exist(t: Shape)
    ensures forall n :: n in Nodes(t) ==> allocated(n)
  {
    if t.Bin? {
      Exist(t.left);
      Exist(t.right);
    }
  }

  /** The parts that a rotation moves are separate. */
  lemma {:induction false} LeftParts(t: Shape)
    requires t.Bin? && t.left.Bin? && Distinct(t)
    ensures var a, b, c := t.left.left, t.left.right, t.right;
      && t.node != t.left.node && t.node !in Nodes(a) + Nodes(b) + Nodes(c)
          && t.left.node !in Nodes(a) + Nodes(b) + Nodes(c)
      && Nodes(a) !! Nodes(b) && Nodes(a) !! Nodes(c) && Nodes(b) !! Nodes(c)
    ensures t.left.node in Nodes(t) && t.node in Nodes(t)
    ensures forall h :: Distinct(Bin(t.left.right, t.node, h, t.right))
    ensures forall h, k :: Distinct(Bin(t.left.left, t.left.node, k, Bin(t.left.right, t.node, h, t.right)))
  {
    DistinctBin(t);
    DistinctBin(t.left);
  }

  lemma {:induction false} RightParts(t: Shape)
    requires t.Bin? && t.right.Bin? && Distinct(t)
    ensures var a, b, c := t.left, t.right.left, t.right.right;
      && t.node != t.right.node && t.node !in Nodes(a) + Nodes(b) + Nodes(c)
          && t.right.node !in Nodes(a) + Nodes(b) + Nodes(c)
      && Nodes(a) !! Nodes(b) && Nodes(a) !! Nodes(c) && Nodes(b) !! Nodes(c)
    ensures t.right.node in Nodes(t) && t.node in Nodes(t)
    ensures forall h :: Distinct(Bin(t.left, t.node, h, t.right.left))
    ensures forall h, k :: Distinct(Bin(Bin(t.left, t.node, h, t.right.left), t.right.node, k, t.right.right))
  {
    DistinctBin(t);
    DistinctBin(t.right);
  }

  /** One step of the search in a sorted tree. */
  lemma {:induction false} Descent(t: Shape, key: int)
    requires t.Bin? && t.node.key != key && Sorted(InOrder(t))
    ensures var s := if key < t.node.key then t.left else t.right;
      && Sorted(InOrder(s)) && (Has(InOrder(s), key) <==> Has(InOrder(t), key))
      && forall m :: m in InOrder(s) ==> m in InOrder(t)
  {
    hide Sorted;
    var a, b := InOrder(t.left), InOrder(t.right);
    SortedParts(a, t.node, b);
    HasParts(a, t.node, b, key);
    assert forall i :: 0 <= i < |a| ==> a[i] in a;
    assert forall i :: 0 <= i < |b| ==> b[i] in b;
  }

  lemma {:induction false} HasParts(a: seq<Node>, x: Node, b: seq<Node>, key: int)
    ensures Has(a + [x] + b, key) <==> Has(a, key) || x.key == key || Has(b, key)
  {
    var s := a + [x] + b;
    if Has(a, key) {
      var i :| 0 <= i < |a| && a[i].key == key;
      assert s[i].key == key;
    }
    if Has(b, key) {
      var i :| 0 <= i < |b| && b[i].key == key;
      assert s[|a| + 1 + i].key == key;
    }
    assert s[|a|] == x;
  }

  lemma {:induction false} Arrival(t: Shape, key: int)
    requires t.Bin? ==> t.node.key == key
    ensures Has(InOrder(t), key) <==> t.Bin?
    ensures t.Bin? ==> t.node in InOrder(t)
  {
    if t.Bin? {
      HasParts(InOrder(t.left), t.node, InOrder(t.right), key);
    }
  }
}
