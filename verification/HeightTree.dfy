/** Insertion in `elm::avl::Tree` on pictures: the tag of a node is the height it stores. */
module HeightTree {
  import opened TreeShape

  /** What the comparison of the tree sees of a node. */
  class Node {
    const key: int
    var left: Node?
    var right: Node?
    var h: int

    constructor (key: int)
      ensures this.key == key && left == null && right == null
    {
      this.key := key;
      left, right, h := null, null, 0;
    }
  }

  type Shape = Tree<Node>

  // ------------------------------------------------------- the code, on pictures

  /** `height`: what the root stores. */
  ghost function Stored(t: Shape): int {
    if t.Nil? then 0 else t.tag
  }

  /** `computeHeight`. */
  ghost function Computed(t: Shape): Shape {
    if t.Nil? then t else t.(tag := 1 + Max(Stored(t.left), Stored(t.right)))
  }

  ghost function SingleLeft(t: Shape): Shape {
    if t.Nil? || t.left.Nil? then t
    else Computed(Bin(t.left.left, t.left.node, t.left.tag, Computed(Bin(t.left.right, t.node, t.tag, t.right))))
  }

  ghost function SingleRight(t: Shape): Shape {
    if t.Nil? || t.right.Nil? then t
    else Computed(Bin(Computed(Bin(t.left, t.node, t.tag, t.right.left)), t.right.node, t.right.tag, t.right.right))
  }

  ghost function DoubleLeft(t: Shape): Shape {
    if t.Nil? then t else SingleLeft(t.(left := SingleRight(t.left)))
  }

  ghost function DoubleRight(t: Shape): Shape {
    if t.Nil? then t else SingleRight(t.(right := SingleLeft(t.right)))
  }

  ghost function LeftRepaired(t: Shape, n: Node): Shape
    requires t.Bin?
  {
    if Stored(t.left) - Stored(t.right) >= 2 then
      if t.left.Bin? && t.left.node.key > n.key then SingleLeft(t) else DoubleLeft(t)
    else t
  }

  ghost function RightRepaired(t: Shape, n: Node): Shape
    requires t.Bin?
  {
    if Stored(t.right) - Stored(t.left) >= 2 then
      if t.right.Bin? && t.right.node.key < n.key then SingleRight(t) else DoubleRight(t)
    else t
  }

  ghost function Inserted(t: Shape, n: Node): Shape {
    match t
    case Nil => Bin(Nil, n, 1, Nil)
    case Bin(l, m, _, r) =>
      if m.key > n.key then Computed(LeftRepaired(t.(left := Inserted(l, n)), n))
      else if m.key < n.key then Computed(RightRepaired(t.(right := Inserted(r, n)), n))
      else t
  }

  // ------------------------------------------------------------------ balance

  /** Stored heights are exact, and heights of siblings differ by less than 2. */
  ghost predicate Good(t: Shape) {
    match t
    case Nil => true
    case Bin(l, _, h, r) => h == Height(t) && -1 <= Height(r) - Height(l) <= 1 && Good(l) && Good(r)
  }

  lemma {:induction false} GoodIs(t: Shape)
    requires Good(t)
    ensures Stored(t) == Height(t)
    ensures t.Bin? ==> Height(t) == 1 + Max(Height(t.left), Height(t.right))
  {
  }

  lemma {:induction false} GoodIsBalanced(t: Shape)
    requires Good(t)
    ensures Balanced(t)
  {
    if t.Bin? {
      GoodIsBalanced(t.left);
      GoodIsBalanced(t.right);
    }
  }

  lemma {:induction false} JoinedGood(l: Shape, n: Node, h: int, r: Shape)
    requires Good(l) && Good(r) && -1 <= Height(r) - Height(l) <= 1
    ensures Good(Computed(Bin(l, n, h, r)))
    ensures Height(Computed(Bin(l, n, h, r))) == 1 + Max(Height(l), Height(r))
  {
  }

  /** The subtree has grown, on the side where the node was added. */
  ghost predicate GrownAt(t: Shape, n: Node) {
    t.Bin? && (t.node.key > n.key ==> Height(t.left) == Height(t.right) + 1)
           && (t.node.key < n.key ==> Height(t.right) == Height(t.left) + 1)
           && t.node.key != n.key
  }

  lemma {:induction false} SingleLeftGood(l: Shape, n: Node, h: int, r: Shape)
    requires Good(l) && Good(r) && l.Bin? && Height(l) == Height(r) + 2 && Height(l.left) == Height(l.right) + 1
    ensures Good(SingleLeft(Bin(l, n, h, r))) && Height(SingleLeft(Bin(l, n, h, r))) == Height(l)
  {
    JoinedGood(l.right, n, h, r);
    JoinedGood(l.left, l.node, l.tag, Computed(Bin(l.right, n, h, r)));
  }

  lemma {:induction false} SingleRightGood(l: Shape, n: Node, h: int, r: Shape)
    requires Good(l) && Good(r) && r.Bin? && Height(r) == Height(l) + 2 && Height(r.right) == Height(r.left) + 1
    ensures Good(SingleRight(Bin(l, n, h, r))) && Height(SingleRight(Bin(l, n, h, r))) == Height(r)
  {
    JoinedGood(l, n, h, r.left);
    JoinedGood(Computed(Bin(l, n, h, r.left)), r.node, r.tag, r.right);
  }

  lemma {:induction false} DoubleLeftGood(l: Shape, n: Node, h: int, r: Shape)
    requires Good(l) && Good(r) && l.Bin? && Height(l) == Height(r) + 2 && Height(l.right) == Height(l.left) + 1
    ensures Good(DoubleLeft(Bin(l, n, h, r))) && Height(DoubleLeft(Bin(l, n, h, r))) == Height(l)
    ensures l.right.Bin?
  {
    var m := l.right;
    JoinedGood(l.left, l.node, l.tag, m.left);
    JoinedGood(m.right, n, h, r);
    JoinedGood(Computed(Bin(l.left, l.node, l.tag, m.left)), m.node, m.tag, Computed(Bin(m.right, n, h, r)));
  }

  lemma {:induction false} DoubleRightGood(l: Shape, n: Node, h: int, r: Shape)
    requires Good(l) && Good(r) && r.Bin? && Height(r) == Height(l) + 2 && Height(r.left) == Height(r.right) + 1
    ensures Good(DoubleRight(Bin(l, n, h, r))) && Height(DoubleRight(Bin(l, n, h, r))) == Height(r)
    ensures r.left.Bin?
  {
    var m := r.left;
    JoinedGood(m.right, r.node, r.tag, r.right);
    JoinedGood(l, n, h, m.left);
    JoinedGood(Computed(Bin(l, n, h, m.left)), m.node, m.tag, Computed(Bin(m.right, r.node, r.tag, r.right)));
  }

  lemma {:induction false} ComputedGood(t: Shape)
    requires Good(t)
    ensures Computed(t) == t
  {
    if t.Bin? {
      GoodIs(t.left);
      GoodIs(t.right);
    }
  }

  /** The left subtree has become `k`. */
  lemma {:induction false} LeftGrowth(l: Shape, k: Shape, m: Node, h: int, r: Shape, n: Node)
    requires Good(l) && Good(k) && Good(r) && -1 <= Height(r) - Height(l) <= 1 && m.key > n.key
    requires Height(l) <= Height(k) <= Height(l) + 1 && (l.Bin? && Height(k) > Height(l) ==> GrownAt(k, n))
    ensures var t, u := Bin(l, m, h, r), Computed(LeftRepaired(Bin(k, m, h, r), n));
      Good(u) && Height(t) <= Height(u) <= Height(t) + 1 && (Height(u) > Height(t) ==> GrownAt(u, n))
  {
    hide SingleLeft, DoubleLeft, Computed;
    GoodIs(k);
    GoodIs(r);
    if Height(k) == Height(r) + 2 {
      if k.node.key > n.key {
        SingleLeftGood(k, m, h, r);
        ComputedGood(SingleLeft(Bin(k, m, h, r)));
      } else {
        DoubleLeftGood(k, m, h, r);
        ComputedGood(DoubleLeft(Bin(k, m, h, r)));
      }
    } else {
      JoinedGood(k, m, h, r);
      ComputedIs(Bin(k, m, h, r));
    }
  }

  /** When the code asks for a double rotation, there is a node to bring up. */
  lemma {:induction false} LeftNeedsDouble(l: Shape, k: Shape, r: Shape, n: Node)
    requires Good(l) && Good(k) && Good(r) && -1 <= Height(r) - Height(l) <= 1
    requires Height(l) <= Height(k) <= Height(l) + 1 && (l.Bin? && Height(k) > Height(l) ==> GrownAt(k, n))
    requires Stored(k) - Stored(r) >= 2
    ensures k.Bin? && (k.node.key <= n.key ==> k.right.Bin?)
  {
    GoodIs(k);
    GoodIs(r);
  }

  lemma {:induction false} RightNeedsDouble(l: Shape, r: Shape, k: Shape, n: Node)
    requires Good(l) && Good(r) && Good(k) && -1 <= Height(r) - Height(l) <= 1
    requires Height(r) <= Height(k) <= Height(r) + 1 && (r.Bin? && Height(k) > Height(r) ==> GrownAt(k, n))
    requires Stored(k) - Stored(l) >= 2
    ensures k.Bin? && (k.node.key >= n.key ==> k.left.Bin?)
  {
    GoodIs(k);
    GoodIs(l);
  }

  lemma {:induction false} ComputedIs(t: Shape)
    requires t.Bin?
    ensures Computed(t).Bin? && Computed(t).left == t.left && Computed(t).node == t.node && Computed(t).right == t.right
  {
  }

  /** The right subtree has become `k`. */
  lemma {:induction false} RightGrowth(l: Shape, m: Node, h: int, r: Shape, k: Shape, n: Node)
    requires Good(l) && Good(r) && Good(k) && -1 <= Height(r) - Height(l) <= 1 && m.key < n.key
    requires Height(r) <= Height(k) <= Height(r) + 1 && (r.Bin? && Height(k) > Height(r) ==> GrownAt(k, n))
    ensures var t, u := Bin(l, m, h, r), Computed(RightRepaired(Bin(l, m, h, k), n));
      Good(u) && Height(t) <= Height(u) <= Height(t) + 1 && (Height(u) > Height(t) ==> GrownAt(u, n))
  {
    hide SingleRight, DoubleRight, Computed;
    GoodIs(k);
    GoodIs(l);
    if Height(k) == Height(l) + 2 {
      if k.node.key < n.key {
        SingleRightGood(l, m, h, k);
        ComputedGood(SingleRight(Bin(l, m, h, k)));
      } else {
        DoubleRightGood(l, m, h, k);
        ComputedGood(DoubleRight(Bin(l, m, h, k)));
      }
    } else {
      JoinedGood(l, m, h, k);
      ComputedIs(Bin(l, m, h, k));
    }
  }

  /** Insertion keeps stored heights exact and siblings balanced, and the height grows by at most
      one; the two comparisons of the code choose the rotation that the growth asks for. */
  lemma {:induction false} InsertedIsGood(t: Shape, n: Node)
    requires Good(t)
    ensures var u := Inserted(t, n);
      && Good(u) && Height(t) <= Height(u) <= Height(t) + 1
      && (t.Bin? && Height(u) > Height(t) ==> GrownAt(u, n))
  {
    hide SingleLeft, SingleRight, DoubleLeft, DoubleRight;
    match t
    case Nil =>
    case Bin(l, m, h, r) =>
      if m.key > n.key {
        InsertedIsGood(l, n);
        LeftGrowth(l, Inserted(l, n), m, h, r, n);
      } else if m.key < n.key {
        InsertedIsGood(r, n);
        RightGrowth(l, m, h, r, Inserted(r, n), n);
      }
  }

  // -------------------------------------------------------------------- order

  ghost predicate Sorted(s: seq<Node>) {
    forall i, j :: 0 <= i < j < |s| ==> s[i].key < s[j].key
  }

  /** Insertion in a sorted sequence: the reference. */
  ghost function Added(s: seq<Node>, n: Node): seq<Node> {
    if s == [] || n.key < s[0].key then [n] + s
    else if n.key == s[0].key then s
    else [s[0]] + Added(s[1..], n)
  }

  ghost predicate Has(s: seq<Node>, key: int) {
    exists i :: 0 <= i < |s| && s[i].key == key
  }

  lemma {:induction false} AddedSorted(s: seq<Node>, n: Node)
    requires Sorted(s)
    ensures Sorted(Added(s, n))
    ensures forall m :: m in Added(s, n) ==> m in s || m == n
  {
    if s != [] && n.key > s[0].key {
      AddedSorted(s[1..], n);
      var r := Added(s[1..], n);
      forall i | 0 <= i < |r| ensures s[0].key < r[i].key {
        assert r[i] in r;
      }
    }
  }

  /** What the reference does: the set of nodes gets n, unless it has one with an equal key. */
  lemma {:induction false} AddedIs(s: seq<Node>, n: Node)
    requires Sorted(s)
    ensures Has(s, n.key) ==> Added(s, n) == s
    ensures !Has(s, n.key) ==> forall m :: m in Added(s, n) <==> m in s || m == n
  {
    if s != [] && n.key > s[0].key {
      AddedIs(s[1..], n);
      assert s == [s[0]] + s[1..];
      if Has(s, n.key) {
        var i :| 0 <= i < |s| && s[i].key == n.key;
        assert s[1..][i - 1].key == n.key;
      }
    }
  }

  lemma {:induction false} SortedParts(a: seq<Node>, x: Node, b: seq<Node>)
    requires Sorted(a + [x] + b)
    ensures Sorted(a) && Sorted(b)
    ensures forall m :: m in a ==> m.key < x.key
    ensures forall m :: m in b ==> x.key < m.key
  {
    var s := a + [x] + b;
    assert s[|a|] == x;
    forall i | 0 <= i < |a| ensures a[i].key < x.key {
      assert s[i] == a[i];
    }
    forall i | 0 <= i < |b| ensures x.key < b[i].key {
      assert s[|a| + 1 + i] == b[i];
    }
    forall i, j | 0 <= i < j < |a| ensures a[i].key < a[j].key {
      assert s[i] == a[i] && s[j] == a[j];
    }
    forall i, j | 0 <= i < j < |b| ensures b[i].key < b[j].key {
      assert s[|a| + 1 + i] == b[i] && s[|a| + 1 + j] == b[j];
    }
  }

  lemma {:induction false} AddedLeft(a: seq<Node>, x: Node, b: seq<Node>, n: Node)
    requires n.key < x.key
    ensures Added(a + [x] + b, n) == Added(a, n) + [x] + b
  {
    var s := a + [x] + b;
    if a != [] {
      assert s[1..] == a[1..] + [x] + b;
      AddedLeft(a[1..], x, b, n);
    }
  }

  lemma {:induction false} AddedRight(a: seq<Node>, x: Node, b: seq<Node>, n: Node)
    requires x.key <= n.key && forall m :: m in a ==> m.key < x.key
    ensures Added(a + [x] + b, n) == a + if x.key == n.key then [x] + b else [x] + Added(b, n)
  {
    var s := a + [x] + b;
    if a != [] {
      assert s[1..] == a[1..] + [x] + b;
      assert a[0] in a;
      AddedRight(a[1..], x, b, n);
    } else {
      assert s == [x] + b;
    }
  }

  lemma {:induction false} SinglesInOrder(t: Shape)
    ensures InOrder(SingleLeft(t)) == InOrder(t) && InOrder(SingleRight(t)) == InOrder(t)
  {
    if t.Bin? && t.left.Bin? {
      var a, b, c := InOrder(t.left.left) + [t.left.node], InOrder(t.left.right), [t.node] + InOrder(t.right);
      assert a + (b + c) == (a + b) + c;
      assert b + [t.node] + InOrder(t.right) == b + c;
      assert (a + b) + [t.node] + InOrder(t.right) == (a + b) + c;
    }
    if t.Bin? && t.right.Bin? {
      var a, b, c := InOrder(t.left) + [t.node], InOrder(t.right.left), [t.right.node] + InOrder(t.right.right);
      assert a + (b + c) == (a + b) + c;
      assert b + [t.right.node] + InOrder(t.right.right) == b + c;
      assert (a + b) + [t.right.node] + InOrder(t.right.right) == (a + b) + c;
    }
  }

  lemma {:induction false} RepairsInOrder(t: Shape, n: Node)
    requires t.Bin?
    ensures InOrder(Computed(LeftRepaired(t, n))) == InOrder(t)
    ensures InOrder(Computed(RightRepaired(t, n))) == InOrder(t)
  {
    hide SingleLeft, SingleRight;
    SinglesInOrder(t);
    SinglesInOrder(t.left);
    SinglesInOrder(t.right);
    SinglesInOrder(t.(left := SingleRight(t.left)));
    SinglesInOrder(t.(right := SingleLeft(t.right)));
  }

  lemma {:induction false} InOrderOfBin(t: Shape)
    requires t.Bin?
    ensures InOrder(t) == InOrder(t.left) + [t.node] + InOrder(t.right)
    ensures InOrder(t) == InOrder(t.left) + ([t.node] + InOrder(t.right))
  {
  }

  lemma {:induction false} InOrderOfLeaf(n: Node)
    ensures InOrder<Node>(Nil) == [] && InOrder(Bin(Nil, n, 1, Nil)) == [n] == Added([], n)
  {
  }

  /** Insertion in the tree is insertion in the sorted sequence of its nodes. */
  lemma {:induction false} InsertedInOrder(t: Shape, n: Node)
    requires Sorted(InOrder(t))
    ensures InOrder(Inserted(t, n)) == Added(InOrder(t), n)
  {
    hide LeftRepaired, RightRepaired, Computed, Added, InOrder, Sorted;
    match t
    case Nil => InOrderOfLeaf(n);
    case Bin(l, m, h, r) =>
      InOrderOfBin(t);
      SortedParts(InOrder(l), m, InOrder(r));
      InOrderOfBin(t.(left := Inserted(l, n)));
      InOrderOfBin(t.(right := Inserted(r, n)));
      if m.key > n.key {
        InsertedInOrder(l, n);
        RepairsInOrder(t.(left := Inserted(l, n)), n);
        AddedLeft(InOrder(l), m, InOrder(r), n);
      } else {
        AddedRight(InOrder(l), m, InOrder(r), n);
        if m.key < n.key {
          InsertedInOrder(r, n);
          RepairsInOrder(t.(right := Inserted(r, n)), n);
        }
      }
  }

  // -------------------------------------------------------------------- nodes

  lemma {:induction false} SinglesNodes(t: Shape)
    ensures Nodes(SingleLeft(t)) == Nodes(t) && Nodes(SingleRight(t)) == Nodes(t)
    ensures Distinct(t) ==> Distinct(SingleLeft(t)) && Distinct(SingleRight(t))
  {
    if t.Bin? && t.left.Bin? {
      var u := SingleLeft(t);
      assert Nodes(u.right) == Nodes(t.left.right) + {t.node} + Nodes(t.right);
      assert Nodes(t.left) == Nodes(t.left.left) + {t.left.node} + Nodes(t.left.right);
      assert Distinct(t) ==> Distinct(t.left) && Distinct(u.right);
    }
    if t.Bin? && t.right.Bin? {
      var u := SingleRight(t);
      assert Nodes(u.left) == Nodes(t.left) + {t.node} + Nodes(t.right.left);
      assert Nodes(t.right) == Nodes(t.right.left) + {t.right.node} + Nodes(t.right.right);
      assert Distinct(t) ==> Distinct(t.right) && Distinct(u.left);
    }
  }

  lemma {:induction false} RepairsNodes(t: Shape, n: Node)
    requires t.Bin?
    ensures Nodes(LeftRepaired(t, n)) == Nodes(t) && Nodes(RightRepaired(t, n)) == Nodes(t)
    ensures Distinct(t) ==> Distinct(LeftRepaired(t, n)) && Distinct(RightRepaired(t, n))
  {
    hide SingleLeft, SingleRight, Computed;
    SinglesNodes(t);
    SinglesNodes(t.left);
    SinglesNodes(t.right);
    SinglesNodes(t.(left := SingleRight(t.left)));
    SinglesNodes(t.(right := SingleLeft(t.right)));
  }

  lemma {:induction false} InsertedNodes(t: Shape, n: Node)
    requires Distinct(t) && n !in Nodes(t)
    ensures Distinct(Inserted(t, n)) && Nodes(Inserted(t, n)) <= Nodes(t) + {n}
  {
    hide LeftRepaired, RightRepaired;
    match t
    case Nil =>
    case Bin(l, m, h, r) =>
      if m.key > n.key {
        InsertedNodes(l, n);
        RepairsNodes(t.(left := Inserted(l, n)), n);
      } else if m.key < n.key {
        InsertedNodes(r, n);
        RepairsNodes(t.(right := Inserted(r, n)), n);
      }
  }
}
