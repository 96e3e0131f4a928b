/** Search trees over integer keys, seen as shapes: insertion without rotation, trees cut off at a level,
    and the sparsest AVL trees. */
module SearchShapes {
  import opened TreeShape
  import opened AvlBalance

  /** A search tree of keys from `lo` to `hi`, `hi` excluded. */
  ghost predicate Search(t: Tree<int>, lo: int, hi: int) {
    match t
    case Nil => true
    case Bin(l, k, _, r) => lo <= k < hi && Search(l, lo, k) && Search(r, k + 1, hi)
  }

  lemma {:induction false} SearchRange(t: Tree<int>, lo: int, hi: int)
    requires Search(t, lo, hi)
    ensures forall k :: k in Nodes(t) ==> lo <= k < hi
  {
    if t.Bin? {
      SearchRange(t.left, lo, t.node);
      SearchRange(t.right, t.node + 1, hi);
    }
  }

  lemma {:induction false} SearchDistinct(t: Tree<int>, lo: int, hi: int)
    requires Search(t, lo, hi)
    ensures Distinct(t)
  {
    if t.Bin? {
      SearchDistinct(t.left, lo, t.node);
      SearchDistinct(t.right, t.node + 1, hi);
      SearchRange(t.left, lo, t.node);
      SearchRange(t.right, t.node + 1, hi);
      forall k | k in Nodes(t.left) ensures k !in Nodes(t.right) {
        assert k < t.node;
      }
    }
  }

  /** Insertion into a search tree, without any rotation. */
  function Inserted(t: Tree<int>, key: int): Tree<int> {
    match t
    case Nil => Bin(Nil, key, 0, Nil)
    case Bin(l, k, b, r) =>
      if key < k then Bin(Inserted(l, key), k, b, r)
      else if key > k then Bin(l, k, b, Inserted(r, key))
      else t
  }

  /** The number of nodes that a descent for a key passes before it stops. */
  function Depth(t: Tree<int>, key: int): nat {
    match t
    case Nil => 0
    case Bin(l, k, _, r) => if key < k then 1 + Depth(l, key) else if key > k then 1 + Depth(r, key) else 0
  }

  /** The keys along the path lead to the place of `key`. */
  ghost predicate LeadsTo(path: Path<int>, key: int) {
    forall i :: 0 <= i < |path| ==> if path[i].dir == LEFT then key < path[i].node else key > path[i].node
  }

  lemma {:induction false} InsertedPlug(path: Path<int>, t: Tree<int>, key: int)
    requires LeadsTo(path, key)
    ensures Inserted(Plug(path, t), key) == Plug(path, Inserted(t, key))
    decreases |path|
  {
    if path != [] {
      InsertedPlug(path[..|path| - 1], Wrap(path[|path| - 1], t), key);
    }
  }

  // ---------------------------------------------------------- level by level

  /** The key is on the level `d`, the root being on the level 0. */
  predicate OnLevel(t: Tree<int>, d: nat, key: int) {
    match t
    case Nil => false
    case Bin(l, k, _, r) => if d == 0 then k == key else OnLevel(l, d - 1, key) || OnLevel(r, d - 1, key)
  }

  /** The levels above `d`, and on the level `d` the keys below `key`. */
  ghost function Part(t: Tree<int>, d: nat, key: int): Tree<int> {
    match t
    case Nil => Nil
    case Bin(l, k, _, r) =>
      if d > 0 then Bin(Part(l, d - 1, key), k, 0, Part(r, d - 1, key))
      else if k < key then Bin(Nil, k, 0, Nil)
      else Nil
  }

  lemma {:induction false} LevelInRange(t: Tree<int>, d: nat, key: int, lo: int, hi: int)
    requires Search(t, lo, hi)
    ensures OnLevel(t, d, key) ==> lo <= key < hi
  {
    if t.Bin? && d > 0 {
      LevelInRange(t.left, d - 1, key, lo, t.node);
      LevelInRange(t.right, d - 1, key, t.node + 1, hi);
    }
  }

  /** One more key of a level: exactly if it is on the level, it is inserted. */
  lemma {:induction false} PartStep(t: Tree<int>, d: nat, key: int, lo: int, hi: int)
    requires Search(t, lo, hi)
    ensures Part(t, d, key + 1) == if OnLevel(t, d, key) then Inserted(Part(t, d, key), key) else Part(t, d, key)
  {
    if t.Bin? && d > 0 {
      PartStep(t.left, d - 1, key, lo, t.node);
      PartStep(t.right, d - 1, key, t.node + 1, hi);
      LevelInRange(t.left, d - 1, key, lo, t.node);
      LevelInRange(t.right, d - 1, key, t.node + 1, hi);
    }
  }

  /** A complete level is where the next one begins. */
  lemma {:induction false} PartNext(t: Tree<int>, d: nat, lo: int, hi: int, a: int, b: int)
    requires Search(t, lo, hi) && a <= lo && hi <= b
    ensures Part(t, d, b) == Part(t, d + 1, a) && Part(t, 0, a) == Nil
  {
    if t.Bin? {
      PartNext(t.left, if d > 0 then d - 1 else 0, lo, t.node, a, b);
      PartNext(t.right, if d > 0 then d - 1 else 0, t.node + 1, hi, a, b);
    }
  }

  lemma {:induction false} PartWhole(t: Tree<int>, d: nat, key: int)
    requires Height(t) <= d
    ensures Part(t, d, key) == Bare(t)
  {
    if t.Bin? {
      PartWhole(t.left, d - 1, key);
      PartWhole(t.right, d - 1, key);
    }
  }

  /** What is cut off a balanced tree at a level is balanced. */
  lemma {:induction false} PartBalanced(t: Tree<int>, d: nat, key: int)
    requires Balanced(t)
    ensures Balanced(Part(t, d, key))
  {
    hide Height;
    if t.Bin? && d > 0 {
      PartBalanced(t.left, d - 1, key);
      PartBalanced(t.right, d - 1, key);
      PartHeight(t.left, d - 1, key);
      PartHeight(t.right, d - 1, key);
    } else if t.Bin? {
      LeafBalanced(t.node);
    }
  }

  lemma {:induction false} LeafBalanced(key: int)
    ensures Balanced(Bin(Nil, key, 0, Nil))
  {
  }

  lemma {:induction false} PartHeight(t: Tree<int>, d: nat, key: int)
    ensures Min(Height(t), d) <= Height(Part(t, d, key)) <= Min(Height(t), d + 1)
  {
    if t.Bin? && d > 0 {
      PartHeight(t.left, d - 1, key);
      PartHeight(t.right, d - 1, key);
    }
  }

  // --------------------------------------------------------- the sparsest tree

  /** The sparsest AVL tree of a height, over the keys from `lo` on. */
  function Sparsest(h: nat, lo: int): Tree<int> {
    if h == 0 then Nil
    else if h == 1 then Bin(Nil, lo, 0, Nil)
    else Bin(Sparsest(h - 1, lo), lo + MinNodes(h - 1), -1, Sparsest(h - 2, lo + MinNodes(h - 1) + 1))
  }

  ghost function Keys(lo: int, n: nat): (s: seq<int>)
    ensures |s| == n
  {
    seq(n, i => lo + i)
  }

  lemma {:induction false} KeysSplit(lo: int, a: nat, b: nat)
    ensures Keys(lo, a) + [lo + a] + Keys(lo + a + 1, b) == Keys(lo, 1 + a + b)
  {
  }

  lemma {:induction false} SparseLeaf(lo: int)
    ensures IsSparse(Bin(Nil, lo, 0, Nil), 1, lo, 1) && IsSparse(Nil, 0, lo, 0)
  {
  }

  ghost predicate IsSparse(t: Tree<int>, h: nat, lo: int, n: nat) {
    Avl(t) && Height(t) == h && Search(t, lo, lo + n) && InOrder(t) == Keys(lo, n) && |InOrder(t)| == n
  }

  lemma {:induction false} SparseNode(l: Tree<int>, r: Tree<int>, h: nat, lo: int, a: nat, b: nat)
    requires IsSparse(l, h + 1, lo, a) && IsSparse(r, h, lo + a + 1, b)
    ensures IsSparse(Bin(l, lo + a, -1, r), h + 2, lo, 1 + a + b)
  {
    hide Keys;
    KeysSplit(lo, a, b);
    assert InOrder(Bin(l, lo + a, -1, r)) == InOrder(l) + [lo + a] + InOrder(r);
  }

  /** It is an AVL tree of that height over as many successive keys as the lower bound `MinNodes` tells,
      which no balanced tree of the height can go below. */
  lemma {:induction false} SparsestIsAvl(h: nat, lo: int)
    ensures var t := Sparsest(h, lo);
      && Avl(t) && Height(t) == h && Search(t, lo, lo + MinNodes(h))
      && InOrder(t) == Keys(lo, MinNodes(h)) && |InOrder(t)| == MinNodes(h) && Distinct(t)
  {
    hide MinNodes;
    SparsestIsSparse(h, lo);
    SearchDistinct(Sparsest(h, lo), lo, lo + MinNodes(h));
  }

  lemma {:induction false} SparsestIsSparse(h: nat, lo: int)
    ensures IsSparse(Sparsest(h, lo), h, lo, MinNodes(h))
  {
    hide IsSparse;
    if h >= 2 {
      SparsestIsSparse(h - 1, lo);
      SparsestIsSparse(h - 2, lo + MinNodes(h - 1) + 1);
      SparseNode(Sparsest(h - 1, lo), Sparsest(h - 2, lo + MinNodes(h - 1) + 1), h - 2, lo, MinNodes(h - 1),
          MinNodes(h - 2));
    } else {
      SparseLeaf(lo);
    }
  }

  /** A descent for a smaller key passes a node on every level. */
  lemma {:induction false} SparsestDepth(h: nat, lo: int)
    ensures Depth(Bare(Sparsest(h, lo)), lo - 1) == h
  {
    if h >= 2 {
      SparsestDepth(h - 1, lo);
    }
  }

  /** Its lowest level has one key, the least one. */
  lemma {:induction false} SparsestBottom(h: nat, lo: int)
    requires h >= 1
    ensures OnLevel(Sparsest(h, lo), h - 1, lo)
    ensures Part(Sparsest(h, lo), h - 1, lo + 1) == Bare(Sparsest(h, lo))
  {
    if h >= 2 {
      SparsestBottom(h - 1, lo);
      SparsestIsAvl(h - 2, lo + MinNodes(h - 1) + 1);
      PartWhole(Sparsest(h - 2, lo + MinNodes(h - 1) + 1), h - 2, lo + 1);
    }
  }
}
