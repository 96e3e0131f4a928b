/** Keys along the in-order sequence of a search tree, and the finite map it stands for. */
module AvlOrder {
  import opened TreeShape
  import opened AvlView
  import opened SearchShapes

  /** The items of a sequence of nodes. */
  ghost function Items(ns: seq<Node>, d: map<Node, Item>): (s: seq<Item>)
    requires forall i :: 0 <= i < |ns| ==> ns[i] in d
    ensures |s| == |ns| && forall i :: 0 <= i < |ns| ==> s[i] == d[ns[i]]
  {
    if ns == [] then [] else Items(ns[..|ns| - 1], d) + [d[ns[|ns| - 1]]]
  }

  ghost predicate Sorted(s: seq<Item>) {
    forall i, j :: 0 <= i < j < |s| ==> s[i].key < s[j].key
  }

  /** The map from keys to items that a sequence of items stands for. */
  ghost function ToMap(s: seq<Item>): map<int, Item> {
    if s == [] then map[] else ToMap(s[..|s| - 1])[s[|s| - 1].key := s[|s| - 1]]
  }

  lemma {:induction false} ToMapHas(s: seq<Item>, i: nat)
    requires Sorted(s) && i < |s|
    ensures s[i].key in ToMap(s) && ToMap(s)[s[i].key] == s[i]
  {
    if i < |s| - 1 {
      ToMapHas(s[..|s| - 1], i);
    }
  }

  lemma {:induction false} ToMapFrom(s: seq<Item>, k: int) returns (i: nat)
    requires k in ToMap(s)
    ensures i < |s| && s[i].key == k
  {
    if s[|s| - 1].key == k {
      i := |s| - 1;
    } else {
      i := ToMapFrom(s[..|s| - 1], k);
    }
  }

  lemma {:induction false} ToMapSize(s: seq<Item>)
    requires Sorted(s)
    ensures |ToMap(s)| == |s|
  {
    if s != [] {
      var init, x := s[..|s| - 1], s[|s| - 1];
      ToMapSize(init);
      if x.key in ToMap(init) {
        var i := ToMapFrom(init, x.key);
        assert false;
      }
    }
  }

  lemma {:induction false} SortedInsert(a: seq<Item>, x: Item, b: seq<Item>)
    requires Sorted(a + b)
    requires forall i :: 0 <= i < |a| ==> a[i].key < x.key
    requires forall i :: 0 <= i < |b| ==> x.key < b[i].key
    ensures Sorted(a + [x] + b)
  {
    var s, t := a + [x] + b, a + b;
    forall i, j | 0 <= i < j < |s|
      ensures s[i].key < s[j].key
    {
      assert i < |a| ==> s[i] == a[i] == t[i];
      assert j > |a| ==> s[j] == b[j - |a| - 1] == t[j - 1];
      assert i > |a| ==> s[i] == t[i - 1];
      assert j < |a| ==> s[j] == t[j];
    }
  }

  lemma {:induction false} SortedDrop(a: seq<Item>, x: Item, b: seq<Item>)
    requires Sorted(a + [x] + b)
    ensures Sorted(a + b)
    ensures forall i :: 0 <= i < |a| ==> a[i].key < x.key
    ensures forall i :: 0 <= i < |b| ==> x.key < b[i].key
  {
    var s, t := a + [x] + b, a + b;
    assert s[|a|] == x;
    forall i | 0 <= i < |a|
      ensures a[i].key < x.key
    {
      assert s[i] == a[i];
    }
    forall i | 0 <= i < |b|
      ensures x.key < b[i].key
    {
      assert s[|a| + 1 + i] == b[i];
    }
    forall i, j | 0 <= i < j < |t|
      ensures t[i].key < t[j].key
    {
      assert t[i] == s[if i < |a| then i else i + 1];
      assert t[j] == s[if j < |a| then j else j + 1];
    }
  }

  /** A new item between smaller and greater ones. */
  lemma {:induction false} ToMapInsert(a: seq<Item>, x: Item, b: seq<Item>)
    requires Sorted(a + b)
    requires forall i :: 0 <= i < |a| ==> a[i].key < x.key
    requires forall i :: 0 <= i < |b| ==> x.key < b[i].key
    ensures Sorted(a + [x] + b) && x.key !in ToMap(a + b)
    ensures ToMap(a + [x] + b) == ToMap(a + b)[x.key := x]
  {
    SortedInsert(a, x, b);
    var s, s' := a + b, a + [x] + b;
    if x.key in ToMap(s) {
      var i := ToMapFrom(s, x.key);
      assert false;
    }
    forall k | k in ToMap(s')
      ensures k in ToMap(s)[x.key := x] && ToMap(s')[k] == ToMap(s)[x.key := x][k]
    {
      var i := ToMapFrom(s', k);
      ToMapHas(s', i);
      if i != |a| {
        var j := if i < |a| then i else i - 1;
        assert s[j] == s'[i];
        ToMapHas(s, j);
      }
    }
    forall k | k in ToMap(s)
      ensures k in ToMap(s')
    {
      var i := ToMapFrom(s, k);
      var j := if i < |a| then i else i + 1;
      assert s'[j] == s[i];
      ToMapHas(s', j);
    }
    assert s'[|a|] == x;
    ToMapHas(s', |a|);
  }

  /** Dropping an item. */
  lemma {:induction false} ToMapDrop(a: seq<Item>, x: Item, b: seq<Item>)
    requires Sorted(a + [x] + b)
    ensures Sorted(a + b) && x.key in ToMap(a + [x] + b)
    ensures ToMap(a + b) == ToMap(a + [x] + b) - {x.key}
  {
    SortedDrop(a, x, b);
    ToMapInsert(a, x, b);
    assert ToMap(a + b)[x.key := x] - {x.key} == ToMap(a + b);
  }

  // ------------------------------------------------------------ descending

  /** All keys before the hole are smaller than `key`, all keys after it are greater. */
  ghost predicate Between(path: Path<Node>, d: map<Node, Item>, key: int) {
    && (forall n :: n in Before(path) ==> n in d && d[n].key < key)
    && (forall n :: n in After(path) ==> n in d && key < d[n].key)
  }

  ghost predicate SortedNodes(ns: seq<Node>, d: map<Node, Item>) {
    && (forall i :: 0 <= i < |ns| ==> ns[i] in d)
    && (forall i, j :: 0 <= i < j < |ns| ==> d[ns[i]].key < d[ns[j]].key)
  }

  lemma {:induction false} SortedParts(a: seq<Node>, n: Node, b: seq<Node>, d: map<Node, Item>)
    requires SortedNodes(a + [n] + b, d)
    ensures n in d
    ensures forall m :: m in a ==> m in d && d[m].key < d[n].key
    ensures forall m :: m in b ==> m in d && d[n].key < d[m].key
  {
    var s := a + [n] + b;
    assert s[|a|] == n;
    forall m | m in a
      ensures m in d && d[m].key < d[n].key
    {
      var i :| 0 <= i < |a| && a[i] == m;
      assert s[i] == m;
    }
    forall m | m in b
      ensures m in d && d[n].key < d[m].key
    {
      var i :| 0 <= i < |b| && b[i] == m;
      assert s[|a| + 1 + i] == m;
    }
  }

  /** The frame of a step down from the root of `t`. */
  ghost function Down(t: Tree<Node>, dir: Dir): Frame<Node>
    requires t.Bin?
  {
    Frame(t.node, t.tag, dir, if dir == LEFT then t.right else t.left)
  }

  ghost function Child(t: Tree<Node>, dir: Dir): Tree<Node>
    requires t.Bin?
  {
    if dir == LEFT then t.left else t.right
  }

  lemma {:induction false} StepDown(path: Path<Node>, t: Tree<Node>, dir: Dir)
    requires t.Bin? && dir != NONE
    ensures var p := path + [Down(t, dir)];
      && Plug(p, Child(t, dir)) == Plug(path, t)
      && StackOf(p) == StackOf(path) + [Entry(t.node, dir)]
      && (Directed(path) ==> Directed(p))
      && Before(p) == (if dir == LEFT then Before(path) else Before(path) + InOrder(t.left) + [t.node])
      && After(p) == (if dir == LEFT then [t.node] + InOrder(t.right) + After(path) else After(path))
  {
    assert (path + [Down(t, dir)])[..|path|] == path;
  }

  // ------------------------------------------------- what a descent pushes

  ghost function KeyOf(n: Node, d: map<Node, Item>): int {
    if n in d then d[n].key else 0
  }

  /** The path from the root of `t` to the node with a key, or to where it may be inserted. */
  ghost function Descent(t: Tree<Node>, d: map<Node, Item>, key: int): Path<Node> {
    match t
    case Nil => []
    case Bin(l, n, _, r) =>
      if key < KeyOf(n, d) then [Down(t, LEFT)] + Descent(l, d, key)
      else if key > KeyOf(n, d) then [Down(t, RIGHT)] + Descent(r, d, key)
      else []
  }

  /** Where it ends. */
  ghost function Reached(t: Tree<Node>, d: map<Node, Item>, key: int): Tree<Node> {
    match t
    case Nil => Nil
    case Bin(l, n, _, r) =>
      if key < KeyOf(n, d) then Reached(l, d, key) else if key > KeyOf(n, d) then Reached(r, d, key) else t
  }

  /** The path from the root of `t` to its leftmost node. */
  ghost function LeftSpine(t: Tree<Node>): Path<Node> {
    if t.Nil? || t.left.Nil? then [] else [Down(t, LEFT)] + LeftSpine(t.left)
  }

  /** The path to the node that leaves when the root of `t` is removed. */
  ghost function RemovedPath(path: Path<Node>, t: Tree<Node>): Path<Node>
    requires t.Bin?
  {
    if t.left.Nil? || t.right.Nil? then path else path + [Down(t, RIGHT)] + LeftSpine(t.right)
  }

  lemma {:induction false} DescentStep(path: Path<Node>, t: Tree<Node>, d: map<Node, Item>, key: int)
    requires t.Bin? && t.node in d
    ensures key < d[t.node].key ==>
      path + Descent(t, d, key) == path + [Down(t, LEFT)] + Descent(t.left, d, key)
      && Reached(t, d, key) == Reached(t.left, d, key)
    ensures key > d[t.node].key ==>
      path + Descent(t, d, key) == path + [Down(t, RIGHT)] + Descent(t.right, d, key)
      && Reached(t, d, key) == Reached(t.right, d, key)
  {
  }

  lemma {:induction false} DescentEnd(t: Tree<Node>, d: map<Node, Item>, key: int)
    requires t.Bin? ==> t.node in d && d[t.node].key == key
    ensures Descent(t, d, key) == [] && Reached(t, d, key) == t
  {
  }

  lemma {:induction false} SpineStep(path: Path<Node>, t: Tree<Node>)
    requires t.Bin?
    ensures t.left.Bin? ==> path + LeftSpine(t) == path + [Down(t, LEFT)] + LeftSpine(t.left)
    ensures t.left.Nil? ==> path + LeftSpine(t) == path
  {
  }

  lemma {:induction false} DescentShort(t: Tree<Node>, d: map<Node, Item>, key: int)
    ensures |Descent(t, d, key)| + Height(Reached(t, d, key)) <= Height(t)
  {
    if t.Bin? {
      DescentShort(t.left, d, key);
      DescentShort(t.right, d, key);
    }
  }

  lemma {:induction false} SpineShort(t: Tree<Node>)
    requires t.Bin?
    ensures |LeftSpine(t)| < Height(t)
  {
    if t.left.Bin? {
      SpineShort(t.left);
    }
  }

  lemma {:induction false} RemovedPathShort(path: Path<Node>, t: Tree<Node>)
    requires t.Bin?
    ensures |path| <= |RemovedPath(path, t)| < |path| + Height(t)
  {
    if t.right.Bin? {
      SpineShort(t.right);
    }
  }

  lemma {:induction false} InOrderAround(path: Path<Node>, t: Tree<Node>)
    requires t.Bin?
    ensures InOrder(Plug(path, t)) ==
            Before(path) + InOrder(t.left) + [t.node] + (InOrder(t.right) + After(path))
  {
    InOrderPlug(path, t);
  }

  /** Where a key may still be found. */
  lemma {:induction false} Narrow(path: Path<Node>, t: Tree<Node>, d: map<Node, Item>, key: int)
    requires t.Bin? && SortedNodes(InOrder(Plug(path, t)), d) && Between(path, d, key)
    ensures t.node in d
    ensures key < d[t.node].key ==> Between(path + [Down(t, LEFT)], d, key)
    ensures key > d[t.node].key ==> Between(path + [Down(t, RIGHT)], d, key)
  {
    hide Plug, Before, After, InOrder, Nodes, StackOf;
    var a, b := Before(path) + InOrder(t.left), InOrder(t.right) + After(path);
    InOrderAround(path, t);
    SortedParts(a, t.node, b, d);
    StepDown(path, t, LEFT);
    StepDown(path, t, RIGHT);
    assert [t.node] + InOrder(t.right) + After(path) == [t.node] + b;
  }

  // --------------------------------------------------------------- contents

  /** The map that the tree stands for. */
  ghost function Contents(t: Tree<Node>, d: map<Node, Item>): map<int, Item>
    requires SortedNodes(InOrder(t), d)
  {
    ToMap(Items(InOrder(t), d))
  }

  lemma {:induction false} ContentsFound(path: Path<Node>, t: Tree<Node>, d: map<Node, Item>)
    requires t.Bin? && SortedNodes(InOrder(Plug(path, t)), d)
    ensures t.node in d && d[t.node].key in Contents(Plug(path, t), d)
    ensures Contents(Plug(path, t), d)[d[t.node].key] == d[t.node]
  {
    hide Plug, InOrder, Before, After;
    InOrderAround(path, t);
    var ns, a := InOrder(Plug(path, t)), Before(path) + InOrder(t.left);
    assert ns[|a|] == t.node;
    ToMapHas(Items(ns, d), |a|);
  }

  lemma {:induction false} ContentsMissed(path: Path<Node>, d: map<Node, Item>, key: int)
    requires SortedNodes(InOrder(Plug(path, Nil)), d) && Between(path, d, key)
    ensures key !in Contents(Plug(path, Nil), d)
  {
    hide Plug, InOrder, Before, After, ToMap;
    InOrderAtHole(path);
    var ns := InOrder(Plug(path, Nil));
    if key in ToMap(Items(ns, d)) {
      var i := ToMapFrom(Items(ns, d), key);
      assert false;
    }
  }

  lemma {:induction false} InOrderAtHole(path: Path<Node>)
    ensures InOrder(Plug<Node>(path, Nil)) == Before(path) + After(path)
  {
    InOrderPlug(path, Nil);
  }

  lemma {:induction false} ItemsAround(a: seq<Node>, n: Node, b: seq<Node>, d: map<Node, Item>)
    requires forall m :: m in a + [n] + b ==> m in d
    ensures forall m :: m in a + b ==> m in d
    ensures (forall m :: m in a ==> m in d) && n in d && (forall m :: m in b ==> m in d)
    ensures Items(a + [n] + b, d) == Items(a, d) + [d[n]] + Items(b, d)
    ensures Items(a + b, d) == Items(a, d) + Items(b, d)
  {
    hide Items;
    InParts([], n, b, a);
    InParts(a, n, [], b);
    assert a + [n] + b == a + ([n] + b) == (a + [n] + []) + b && [] + [n] + b == [n] + b;
    ItemsConcat(a, b, d);
    ItemsConcat(a, [n], d);
    ItemsConcat(a + [n], b, d);
    assert Items([n], d) == [d[n]];
  }

  lemma {:induction false} ItemsConcat(a: seq<Node>, b: seq<Node>, d: map<Node, Item>)
    requires (forall m :: m in a ==> m in d) && (forall m :: m in b ==> m in d)
    ensures forall m :: m in a + b ==> m in d
    ensures Items(a + b, d) == Items(a, d) + Items(b, d)
  {
    hide Items;
  }

  lemma {:induction false} SortedItems(ns: seq<Node>, d: map<Node, Item>)
    requires forall m :: m in ns ==> m in d
    ensures SortedNodes(ns, d) <==> Sorted(Items(ns, d))
  {
    var s := Items(ns, d);
    if Sorted(s) {
      forall i, j | 0 <= i < j < |ns|
        ensures d[ns[i]].key < d[ns[j]].key
      {
        assert s[i].key < s[j].key;
      }
    }
  }

  /** Adding a node where its key belongs. */
  lemma {:induction false} ContentsAdded(a: seq<Node>, n: Node, b: seq<Node>, d: map<Node, Item>)
    requires n in d && SortedNodes(a + b, d)
    requires forall m :: m in a ==> m in d && d[m].key < d[n].key
    requires forall m :: m in b ==> m in d && d[n].key < d[m].key
    ensures SortedNodes(a + [n] + b, d)
    ensures ToMap(Items(a + [n] + b, d)) == ToMap(Items(a + b, d))[d[n].key := d[n]]
  {
    hide ToMap;
    ItemsAround(a, n, b, d);
    SortedItems(a + b, d);
    SortedItems(a + [n] + b, d);
    ToMapInsert(Items(a, d), d[n], Items(b, d));
  }

  /** Dropping a node. */
  lemma {:induction false} ContentsDropped(a: seq<Node>, n: Node, b: seq<Node>, d: map<Node, Item>)
    requires SortedNodes(a + [n] + b, d)
    ensures SortedNodes(a + b, d) && n in d
    ensures ToMap(Items(a + b, d)) == ToMap(Items(a + [n] + b, d)) - {d[n].key}
  {
    hide ToMap, Sorted;
    ItemsAround(a, n, b, d);
    SortedItems(a + [n] + b, d);
    SortedItems(a + b, d);
    ToMapDrop(Items(a, d), d[n], Items(b, d));
  }

  lemma {:induction false} SortedNodesExtended(ns: seq<Node>, d: map<Node, Item>, d': map<Node, Item>)
    requires SortedNodes(ns, d) && forall n :: n in d && n in ns ==> n in d' && d'[n] == d[n]
    ensures SortedNodes(ns, d') && Items(ns, d') == Items(ns, d)
  {
  }

  lemma {:induction false} AddedContents(path: Path<Node>, n: Node, d: map<Node, Item>, item: Item)
    requires SortedNodes(InOrder(Plug(path, Nil)), d) && Between(path, d, item.key) && n !in d
    ensures item.key !in Contents(Plug(path, Nil), d)
    ensures var ns, d' := Before(path) + [n] + After(path), d[n := item];
      && SortedNodes(ns, d')
      && ToMap(Items(ns, d')) == Contents(Plug(path, Nil), d)[item.key := item]
  {
    hide Plug, InOrder, Before, After, ToMap;
    var a, b, d' := Before(path), After(path), d[n := item];
    ContentsMissed(path, d, item.key);
    InOrderAtHole(path);
    SortedNodesExtended(a + b, d, d');
    ContentsAdded(a, n, b, d');
  }

  lemma {:induction false} SortedAreDistinct(a: seq<Node>, n: Node, b: seq<Node>, d: map<Node, Item>)
    requires SortedNodes(a + [n] + b, d)
    ensures n !in a + b
  {
    SortedParts(a, n, b, d);
  }

  /** A node is dropped from the sequence and forgotten. */
  lemma {:induction false} ContentsForgotten(a: seq<Node>, n: Node, b: seq<Node>, d: map<Node, Item>)
    requires SortedNodes(a + [n] + b, d)
    ensures n in d && SortedNodes(a + b, d - {n})
    ensures ToMap(Items(a + b, d - {n})) == ToMap(Items(a + [n] + b, d)) - {d[n].key}
  {
    hide Items, ToMap;
    ContentsDropped(a, n, b, d);
    SortedAreDistinct(a, n, b, d);
    SortedNodesExtended(a + b, d, d - {n});
  }

  /** A node takes over the item of its successor, which is forgotten. */
  lemma {:induction false} ContentsExchanged(a: seq<Node>, n: Node, p: Node, b: seq<Node>, d: map<Node, Item>)
    requires SortedNodes(a + [n] + ([p] + b), d)
    ensures n in d && p in d && n != p
    ensures var d' := d[n := d[p]][p := d[n]] - {p};
      && SortedNodes(a + [n] + b, d')
      && ToMap(Items(a + [n] + b, d')) == ToMap(Items(a + [n] + ([p] + b), d)) - {d[n].key}
  {
    hide Items, ToMap;
    ContentsDropped(a, n, [p] + b, d);
    SortedAreDistinct(a, n, [p] + b, d);
    assert a + [n] + ([p] + b) == (a + [n]) + [p] + b;
    SortedAreDistinct(a + [n], p, b, d);
    assert (a + ([p] + b))[|a|] == p;
    assert n in a + [n] + b && p in [p] + b;
    var d' := d[n := d[p]][p := d[n]] - {p};
    var s, t := a + [n] + b, a + ([p] + b);
    forall i | 0 <= i < |s|
      ensures s[i] in d' && d'[s[i]] == d[t[i]]
    {
      if i == |a| {
        assert s[i] == n;
      } else {
        assert s[i] == t[i] && s[i] in (a + [n]) + b && s[i] in a + ([p] + b);
      }
    }
    assert Items(s, d') == Items(t, d);
  }

  /** The contents once a node with at most one child is bypassed. */
  lemma {:induction false} BypassedContents(path: Path<Node>, t: Tree<Node>, d: map<Node, Item>)
    requires t.Bin? && (t.left.Nil? || t.right.Nil?) && SortedNodes(InOrder(Plug(path, t)), d)
    ensures t.node in d
    ensures var ns := Before(path) + InOrder(OnlyChild(t)) + After(path);
      && SortedNodes(ns, d - {t.node})
      && ToMap(Items(ns, d - {t.node})) == Contents(Plug(path, t), d) - {d[t.node].key}
  {
    hide Plug, Before, After, ToMap, Items, SortedNodes;
    InOrderAround(path, t);
    var a, b := Before(path) + InOrder(t.left), InOrder(t.right) + After(path);
    ContentsForgotten(a, t.node, b, d);
    assert a + b == Before(path) + InOrder(OnlyChild(t)) + After(path);
  }

  /** The contents once a node has taken the item of its successor `x.node`, which is bypassed. */
  lemma {:induction false} SuccessorContents(path: Path<Node>, t: Tree<Node>, q: Path<Node>, x: Tree<Node>,
      d: map<Node, Item>)
    requires t.Bin? && x.Bin? && x.left.Nil? && Plug(q, x) == Plug(path, t)
    requires Before(q) == Before(path + [Down(t, RIGHT)]) && SortedNodes(InOrder(Plug(path, t)), d)
    ensures t.node in d && x.node in d && t.node != x.node
    ensures var ns := Before(q) + InOrder(OnlyChild(x)) + After(q);
      var d' := d[t.node := d[x.node]][x.node := d[t.node]] - {x.node};
      && SortedNodes(ns, d')
      && ToMap(Items(ns, d')) == Contents(Plug(path, t), d) - {d[t.node].key}
  {
    hide Plug, Before, After, ToMap, Items, SortedNodes;
    StepDown(path, t, RIGHT);
    InOrderAround(q, x);
    var a, b := Before(path) + InOrder(t.left), InOrder(x.right) + After(q);
    assert InOrder(Plug(q, x)) == a + [t.node] + ([x.node] + b);
    ContentsExchanged(a, t.node, x.node, b, d);
    assert a + [t.node] + b == Before(q) + InOrder(OnlyChild(x)) + After(q);
  }

  // ------------------------------------------------------------------ shapes

  /** The tree as a shape of keys. */
  ghost function Keyed(t: Tree<Node>, d: map<Node, Item>): Tree<int> {
    match t
    case Nil => Nil
    case Bin(l, n, _, r) => Bin(Keyed(l, d), KeyOf(n, d), 0, Keyed(r, d))
  }

  ghost function KeyedPath(path: Path<Node>, d: map<Node, Item>): Path<int> {
    if path == [] then []
    else
      var f := path[|path| - 1];
      KeyedPath(path[..|path| - 1], d) + [Frame(KeyOf(f.node, d), 0, f.dir, Keyed(f.sibling, d))]
  }

  lemma {:induction false} KeyedBare(t: Tree<Node>, d: map<Node, Item>)
    ensures Keyed(Bare(t), d) == Keyed(t, d) && Height(Keyed(t, d)) == Height(t)
    ensures Balanced(Keyed(t, d)) <==> Balanced(t)
  {
    match t
    case Nil =>
    case Bin(l, _, _, r) =>
      KeyedBare(l, d);
      KeyedBare(r, d);
  }

  lemma {:induction false} KeyedSize(t: Tree<Node>, d: map<Node, Item>)
    ensures |InOrder(Keyed(t, d))| == |InOrder(t)|
  {
    match t
    case Nil =>
    case Bin(l, _, _, r) =>
      KeyedSize(l, d);
      KeyedSize(r, d);
  }

  lemma {:induction false} KeyedPlug(path: Path<Node>, t: Tree<Node>, d: map<Node, Item>)
    ensures Keyed(Plug(path, t), d) == Plug(KeyedPath(path, d), Keyed(t, d))
    decreases |path|
  {
    if path != [] {
      KeyedPlug(path[..|path| - 1], Wrap(path[|path| - 1], t), d);
    }
  }

  lemma {:induction false} KeyedFrame(t: Tree<Node>, d: map<Node, Item>, n: Node, item: Item)
    requires n !in Nodes(t)
    ensures Keyed(t, d[n := item]) == Keyed(t, d)
  {
    if t.Bin? {
      KeyedFrame(t.left, d, n, item);
      KeyedFrame(t.right, d, n, item);
    }
  }

  lemma {:induction false} KeyedPathFrame(path: Path<Node>, d: map<Node, Item>, n: Node, item: Item)
    requires n !in PathNodes(path)
    ensures KeyedPath(path, d[n := item]) == KeyedPath(path, d)
    decreases |path|
  {
    if path != [] {
      KeyedPathFrame(path[..|path| - 1], d, n, item);
      KeyedFrame(path[|path| - 1].sibling, d, n, item);
    }
  }

  /** The keys of the path lead to the hole. */
  lemma {:induction false} BetweenLeads(path: Path<Node>, d: map<Node, Item>, key: int)
    requires Between(path, d, key)
    ensures LeadsTo(KeyedPath(path, d), key) && |KeyedPath(path, d)| == |path|
    decreases |path|
  {
    if path != [] {
      var f, init := path[|path| - 1], path[..|path| - 1];
      BetweenInit(path, d, key);
      BetweenLeads(init, d, key);
    }
  }

  lemma {:induction false} BetweenInit(path: Path<Node>, d: map<Node, Item>, key: int)
    requires Between(path, d, key) && path != []
    ensures Between(path[..|path| - 1], d, key)
    ensures var f := path[|path| - 1];
      if f.dir == LEFT then key < KeyOf(f.node, d) else KeyOf(f.node, d) < key
  {
    hide InOrder, Before, After;
    var f, init := path[|path| - 1], path[..|path| - 1];
    LastFrame(path);
    forall n | n in Before(init) ensures n in Before(path) {
    }
    forall n | n in After(init) ensures n in After(path) {
    }
  }

  lemma {:induction false} LastFrame(path: Path<Node>)
    requires path != []
    ensures var f, init := path[|path| - 1], path[..|path| - 1];
      if f.dir == LEFT then
        f.node in After(path) && Before(path) == Before(init) && (forall n :: n in After(init) ==> n in After(path))
      else
        f.node in Before(path) && After(path) == After(init) && (forall n :: n in Before(init) ==> n in Before(path))
  {
    hide InOrder, Before, After;
    var f, init := path[|path| - 1], path[..|path| - 1];
    FramesOf(path);
    if f.dir == LEFT {
      InParts([], f.node, InOrder(f.sibling), After(init));
    } else {
      InParts(InOrder(f.sibling), f.node, [], Before(init));
    }
  }

  lemma {:induction false} FramesOf(path: Path<Node>)
    requires path != []
    ensures var f, init := path[|path| - 1], path[..|path| - 1];
      if f.dir == LEFT then
        After(path) == ([] + [f.node] + InOrder(f.sibling)) + After(init) && Before(path) == Before(init)
      else Before(path) == Before(init) + (InOrder(f.sibling) + [f.node] + []) && After(path) == After(init)
  {
    hide InOrder;
  }

  lemma {:induction false} InParts(a: seq<Node>, n: Node, b: seq<Node>, c: seq<Node>)
    ensures n in (a + [n] + b) + c && n in c + (a + [n] + b)
    ensures forall m :: m in c ==> m in (a + [n] + b) + c && m in c + (a + [n] + b)
  {
  }

  /** A new leaf at the end of the path is an insertion without rotation. */
  lemma {:induction false} LeafIsInserted(path: Path<Node>, n: Node, d: map<Node, Item>, item: Item)
    requires Between(path, d, item.key) && n !in Nodes(Plug(path, Nil))
    ensures Keyed(Plug(path, Leaf(n)), d[n := item]) == Inserted(Keyed(Plug(path, Nil), d), item.key)
  {
    hide Between, PathNodes, LeadsTo;
    var d' := d[n := item];
    NodesPlug(path, Nil);
    KeyedPathFrame(path, d, n, item);
    KeyedPlug(path, Leaf(n), d');
    KeyedPlug(path, Nil, d);
    BetweenLeads(path, d, item.key);
    InsertedPlug(KeyedPath(path, d), Nil, item.key);
    KeyedLeaf(n, d, item);
  }

  lemma {:induction false} KeyedLeaf(n: Node, d: map<Node, Item>, item: Item)
    ensures Keyed(Leaf(n), d[n := item]) == Inserted(Nil, item.key)
  {
  }

  lemma {:induction false} DescentDepth(t: Tree<Node>, d: map<Node, Item>, key: int)
    ensures |Descent(t, d, key)| == Depth(Keyed(t, d), key)
  {
    if t.Bin? {
      DescentDepth(t.left, d, key);
      DescentDepth(t.right, d, key);
    }
  }

  /** Nothing is inserted when the key is found. */
  lemma {:induction false} FoundIsInserted(path: Path<Node>, t: Tree<Node>, d: map<Node, Item>, key: int)
    requires Between(path, d, key) && t.Bin? && t.node in d && d[t.node].key == key
    ensures Inserted(Keyed(Plug(path, t), d), key) == Keyed(Plug(path, t), d)
  {
    hide Between, LeadsTo;
    KeyedPlug(path, t, d);
    BetweenLeads(path, d, key);
    InsertedPlug(KeyedPath(path, d), Keyed(t, d), key);
  }
}
