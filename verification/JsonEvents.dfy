/** What a `Maker` can know: the parser tells it where a container begins and never where one ends.
    Here, which values its calls determine. */
module JsonEvents {
  import opened Common
  import opened JsonText
  import opened JsonGrammar
  import opened JsonRuns

  /** A value with arrays and objects alike: the items of an object have names. */
  datatype Tree = Leaf(event: Event) | Node(obj: bool, kids: seq<Kid>)

  datatype Kid = Kid(key: Option<Chars>, tree: Tree)

  ghost predicate WellFormed(t: Tree) {
    match t
    case Leaf(e) => !e.BeginObject? && !e.BeginArray? && !e.OnField?
    case Node(obj, kids) => forall i :: 0 <= i < |kids| ==> kids[i].key.Some? == obj && WellFormed(kids[i].tree)
  }

  ghost predicate WellFormedKids(ks: seq<Kid>, obj: bool) {
    forall i :: 0 <= i < |ks| ==> ks[i].key.Some? == obj && WellFormed(ks[i].tree)
  }

  // ------------------------------------------------------- the same as values

  ghost function TreeOf(v: Value): Tree
    decreases v, 1
  {
    match v
    case Null => Leaf(OnNull)
    case Bool(b) => Leaf(OnBool(b))
    case Int(n) => Leaf(OnInt(n))
    case Str(s) => Leaf(OnString(s))
    case Array(vs, _) => Node(false, ItemKids(vs))
    case Object(fs, _) => Node(true, FieldKids(fs))
  }

  ghost function ItemKids(vs: seq<Value>): seq<Kid>
    decreases vs, 0
  {
    if vs == [] then [] else [Kid(None, TreeOf(vs[0]))] + ItemKids(vs[1..])
  }

  ghost function FieldKids(fs: seq<Field>): seq<Kid>
    decreases fs, 0
  {
    if fs == [] then [] else [Kid(Some(fs[0].key), TreeOf(fs[0].value))] + FieldKids(fs[1..])
  }

  ghost function ValueOf(t: Tree): Value
    decreases t, 1
  {
    match t
    case Leaf(OnBool(b)) => Bool(b)
    case Leaf(OnInt(n)) => Int(n)
    case Leaf(OnString(s)) => Str(s)
    case Leaf(_) => Null
    case Node(obj, kids) => if obj then Object(KidFields(kids), false) else Array(KidItems(kids), false)
  }

  ghost function KidItems(ks: seq<Kid>): seq<Value>
    decreases ks, 0
  {
    if ks == [] then [] else [KidField(ks[0]).value] + KidItems(ks[1..])
  }

  ghost function KidFields(ks: seq<Kid>): seq<Field>
    decreases ks, 0
  {
    if ks == [] then [] else [KidField(ks[0])] + KidFields(ks[1..])
  }

  ghost function KidField(k: Kid): Field
    decreases k, 0
  {
    Field(if k.key.Some? then k.key.value else [], ValueOf(k.tree))
  }

  lemma {:induction false} KidsCons(k: Kid, ks: seq<Kid>, obj: bool)
    ensures WellFormedKids([k] + ks, obj) <==> k.key.Some? == obj && WellFormed(k.tree) && WellFormedKids(ks, obj)
  {
    var all := [k] + ks;
    if WellFormedKids(all, obj) {
      assert all[0] == k;
      forall i | 0 <= i < |ks| ensures ks[i].key.Some? == obj && WellFormed(ks[i].tree) {
        assert all[i + 1] == ks[i];
      }
    }
  }

  lemma {:induction false} TreeIsWellFormed(v: Value)
    ensures WellFormed(TreeOf(v))
    decreases v, 1
  {
    match v
    case Array(vs, _) => ItemKidsWellFormed(vs);
    case Object(fs, _) => FieldKidsWellFormed(fs);
    case _ =>
  }

  lemma {:induction false} ItemKidsWellFormed(vs: seq<Value>)
    ensures WellFormedKids(ItemKids(vs), false)
    decreases vs, 0
  {
    hide WellFormed, TreeOf;
    if vs != [] {
      TreeIsWellFormed(vs[0]);
      ItemKidsWellFormed(vs[1..]);
      KidsCons(Kid(None, TreeOf(vs[0])), ItemKids(vs[1..]), false);
    }
  }

  lemma {:induction false} FieldKidsWellFormed(fs: seq<Field>)
    ensures WellFormedKids(FieldKids(fs), true)
    decreases fs, 0
  {
    hide WellFormed, TreeOf;
    if fs != [] {
      TreeIsWellFormed(fs[0].value);
      FieldKidsWellFormed(fs[1..]);
      KidsCons(Kid(Some(fs[0].key), TreeOf(fs[0].value)), FieldKids(fs[1..]), true);
    }
  }

  /** A plain value and its tree determine each other. */
  lemma {:induction false} ValueOfTree(v: Value)
    requires Plain(v)
    ensures ValueOf(TreeOf(v)) == v
    decreases v, 1
  {
    hide ItemKids, FieldKids, KidItems, KidFields;
    match v
    case Array(vs, _) => ItemsOfKids(vs);
    case Object(fs, _) => FieldsOfKids(fs);
    case _ =>
  }

  lemma {:induction false} ItemsOfKids(vs: seq<Value>)
    requires PlainItems(vs)
    ensures KidItems(ItemKids(vs)) == vs
    decreases vs, 0
  {
    hide ValueOf, TreeOf, Plain;
    if vs != [] {
      ValueOfTree(vs[0]);
      ItemsOfKids(vs[1..]);
    }
  }

  lemma {:induction false} FieldsOfKids(fs: seq<Field>)
    requires PlainFields(fs)
    ensures KidFields(FieldKids(fs)) == fs
    decreases fs, 0
  {
    hide ValueOf, TreeOf, Plain;
    if fs != [] {
      ValueOfTree(fs[0].value);
      FieldsOfKids(fs[1..]);
    }
  }

  lemma {:induction false} TreeOfValue(t: Tree)
    requires WellFormed(t)
    ensures Plain(ValueOf(t)) && TreeOf(ValueOf(t)) == t
    decreases t, 1
  {
    hide ItemKids, FieldKids, KidItems, KidFields, PlainItems, PlainFields;
    match t
    case Leaf(_) =>
    case Node(obj, kids) =>
      if obj {
        KidsOfFields(kids);
      } else {
        KidsOfItems(kids);
      }
  }

  lemma {:induction false} KidsOfItems(ks: seq<Kid>)
    requires WellFormedKids(ks, false)
    ensures PlainItems(KidItems(ks)) && ItemKids(KidItems(ks)) == ks
    decreases ks, 0
  {
    hide ValueOf, TreeOf, Plain, WellFormed;
    if ks != [] {
      assert ks decreases to ks[0];
      TreeOfValue(ks[0].tree);
      KidsOfItems(ks[1..]);
      assert KidItems(ks)[1..] == KidItems(ks[1..]);
      assert ks[0] == Kid(None, ks[0].tree);
    }
  }

  lemma {:induction false} KidsOfFields(ks: seq<Kid>)
    requires WellFormedKids(ks, true)
    ensures PlainFields(KidFields(ks)) && FieldKids(KidFields(ks)) == ks
    decreases ks, 0
  {
    hide ValueOf, TreeOf, Plain, WellFormed;
    if ks != [] {
      assert ks decreases to ks[0];
      TreeOfValue(ks[0].tree);
      KidsOfFields(ks[1..]);
      assert KidFields(ks)[1..] == KidFields(ks[1..]);
      assert ks[0] == Kid(Some(ks[0].key.value), ks[0].tree);
    }
  }

  // --------------------------------------------------------------- the events

  function Begin(obj: bool): Event { if obj then BeginObject else BeginArray }

  ghost function TreeEvents(t: Tree): seq<Event>
    decreases t, 1
  {
    match t
    case Leaf(e) => [e]
    case Node(obj, kids) => [Begin(obj)] + KidsEvents(kids)
  }

  ghost function KeyEvents(key: Option<Chars>): seq<Event> {
    if key.Some? then [OnField(key.value)] else []
  }

  ghost function KidsEvents(ks: seq<Kid>): seq<Event>
    decreases ks, 0
  {
    if ks == [] then [] else KidEvents(ks[0]) + KidsEvents(ks[1..])
  }

  ghost function KidEvents(k: Kid): seq<Event>
    decreases k, 0
  {
    KeyEvents(k.key) + TreeEvents(k.tree)
  }

  lemma {:induction false} EventsOfTree(v: Value)
    ensures TreeEvents(TreeOf(v)) == Events(v)
    decreases v, 1
  {
    hide ItemKids, FieldKids, KidsEvents, ItemEvents, FieldEvents;
    match v
    case Array(vs, _) => EventsOfItems(vs);
    case Object(fs, _) => EventsOfFields(fs);
    case _ =>
  }

  lemma {:induction false} EventsOfItems(vs: seq<Value>)
    ensures KidsEvents(ItemKids(vs)) == ItemEvents(vs)
    decreases vs, 0
  {
    hide TreeOf, TreeEvents, Events;
    if vs != [] {
      EventsOfTree(vs[0]);
      EventsOfItems(vs[1..]);
      assert ItemKids(vs)[1..] == ItemKids(vs[1..]);
    }
  }

  lemma {:induction false} EventsOfFields(fs: seq<Field>)
    ensures KidsEvents(FieldKids(fs)) == FieldEvents(fs)
    decreases fs, 0
  {
    hide TreeOf, TreeEvents, Events;
    if fs != [] {
      EventsOfTree(fs[0].value);
      EventsOfFields(fs[1..]);
      assert FieldKids(fs)[1..] == FieldKids(fs[1..]);
    }
  }

  lemma {:induction false} KidsEventsConcat(a: seq<Kid>, b: seq<Kid>)
    ensures KidsEvents(a + b) == KidsEvents(a) + KidsEvents(b)
    decreases |a|
  {
    hide TreeEvents, KeyEvents;
    if a == [] {
      assert a + b == b;
    } else {
      assert (a + b)[1..] == a[1..] + b;
      KidsEventsConcat(a[1..], b);
    }
  }

  lemma {:induction false} OneKidEvents(k: Kid)
    ensures KidsEvents([k]) == KidEvents(k)
  {
    hide TreeEvents, KeyEvents;
    var ks := [k];
    assert ks[1..] == [];
    assert KidsEvents([]) == [];
  }

  // ------------------------------------------------------------ the condition

  /** The last items of the tree, down to the bottom: a container of this kind is among them.  Their
      ends are all at the end of the tree. */
  ghost predicate EndsIn(t: Tree, obj: bool) {
    t.Node? && (t.obj == obj || (t.kids != [] && EndsIn(t.kids[|t.kids| - 1].tree, obj)))
  }

  /** The same with a container that is not empty. */
  ghost predicate EndsFull(t: Tree, obj: bool) {
    t.Node? && t.kids != [] && (t.obj == obj || EndsFull(t.kids[|t.kids| - 1].tree, obj))
  }

  /** An item of some container ends in a container of the same kind that could as well have the item
      that follows, or that has an item that could as well follow it. */
  ghost predicate Ambiguous(t: Tree) {
    t.Node? && exists i :: 0 <= i < |t.kids| && AmbiguousAt(t, i)
  }

  ghost predicate AmbiguousAt(t: Tree, i: nat)
    requires t.Node? && i < |t.kids|
    decreases t, 0
  {
    var kid := t.kids[i].tree;
    (i + 1 < |t.kids| && EndsIn(kid, t.obj)) || EndsFull(kid, t.obj) || Ambiguous(kid)
  }

  // --------------------------------------- an ambiguous value has a double

  /** The tree with one more item in the outermost of the containers of this kind in which it ends. */
  ghost function Appended(t: Tree, obj: bool, k: Kid): Tree
    requires EndsIn(t, obj)
  {
    if t.obj == obj then Node(obj, t.kids + [k])
    else
      var n, last := |t.kids| - 1, t.kids[|t.kids| - 1];
      Node(t.obj, t.kids[..n] + [Kid(last.key, Appended(last.tree, obj, k))])
  }

  /** The tree without the last item of the outermost of the containers of this kind in which it ends. */
  ghost function Chopped(t: Tree, obj: bool): Tree
    requires EndsFull(t, obj)
  {
    var n, last := |t.kids| - 1, t.kids[|t.kids| - 1];
    if t.obj == obj then Node(obj, t.kids[..n])
    else Node(t.obj, t.kids[..n] + [Kid(last.key, Chopped(last.tree, obj))])
  }

  ghost function LastOf(t: Tree, obj: bool): Kid
    requires EndsFull(t, obj)
  {
    var last := t.kids[|t.kids| - 1];
    if t.obj == obj then last else LastOf(last.tree, obj)
  }

  lemma {:induction false} NodeParts(obj: bool, a: seq<Kid>, b: seq<Kid>)
    ensures TreeEvents(Node(obj, a + b)) == [Begin(obj)] + KidsEvents(a) + KidsEvents(b)
    ensures WellFormed(Node(obj, a + b)) <==> WellFormedKids(a, obj) && WellFormedKids(b, obj)
  {
    hide KidsEvents;
    KidsEventsConcat(a, b);
    WellFormedConcat(a, b, obj);
  }

  lemma {:induction false} WellFormedConcat(a: seq<Kid>, b: seq<Kid>, obj: bool)
    ensures WellFormed(Node(obj, a + b)) <==> WellFormedKids(a + b, obj)
    ensures WellFormedKids(a + b, obj) <==> WellFormedKids(a, obj) && WellFormedKids(b, obj)
  {
    var all := a + b;
    if WellFormedKids(all, obj) {
      forall i | 0 <= i < |a| ensures a[i].key.Some? == obj && WellFormed(a[i].tree) {
        assert all[i] == a[i];
      }
      forall i | 0 <= i < |b| ensures b[i].key.Some? == obj && WellFormed(b[i].tree) {
        assert all[|a| + i] == b[i];
      }
    }
  }

  lemma {:induction false} OneKid(k: Kid, obj: bool)
    ensures WellFormedKids([k], obj) <==> k.key.Some? == obj && WellFormed(k.tree)
    ensures KidsEvents([k]) == KidEvents(k)
  {
    hide WellFormed;
    assert [k][0] == k;
    OneKidEvents(k);
  }

  lemma {:induction false} AppendedKeeps(t: Tree, obj: bool, k: Kid)
    requires EndsIn(t, obj) && WellFormed(t) && k.key.Some? == obj && WellFormed(k.tree)
    ensures WellFormed(Appended(t, obj, k))
    ensures TreeEvents(Appended(t, obj, k)) == TreeEvents(t) + KidEvents(k)
  {
    hide WellFormed, TreeEvents, KidsEvents;
    OneKid(k, obj);
    if t.obj == obj {
      NodeParts(obj, t.kids, [k]);
      NodeParts(obj, t.kids, []);
      assert t.kids + [] == t.kids && KidsEvents([]) == [] by { NoKids(); }
    } else {
      var n, last := |t.kids| - 1, t.kids[|t.kids| - 1];
      assert t.kids[..n] + [last] == t.kids;
      NodeParts(t.obj, t.kids[..n], [last]);
      OneKid(last, t.obj);
      AppendedKeeps(last.tree, obj, k);
      var more := Kid(last.key, Appended(last.tree, obj, k));
      OneKid(more, t.obj);
      NodeParts(t.obj, t.kids[..n], [more]);
      Regrouped([Begin(t.obj)] + KidsEvents(t.kids[..n]), KeyEvents(last.key), TreeEvents(last.tree), KidEvents(k));
    }
  }

  lemma {:induction false} NoKids()
    ensures KidsEvents([]) == []
  {
  }

  lemma {:induction false} Regrouped(a: seq<Event>, b: seq<Event>, c: seq<Event>, d: seq<Event>)
    ensures a + (b + (c + d)) == (a + (b + c)) + d
  {
  }

  lemma {:induction false} ChoppedKeeps(t: Tree, obj: bool)
    requires EndsFull(t, obj) && WellFormed(t)
    ensures WellFormed(Chopped(t, obj)) && LastOf(t, obj).key.Some? == obj && WellFormed(LastOf(t, obj).tree)
    ensures TreeEvents(t) == TreeEvents(Chopped(t, obj)) + KidEvents(LastOf(t, obj))
  {
    hide WellFormed, TreeEvents, KidsEvents;
    var n, last := |t.kids| - 1, t.kids[|t.kids| - 1];
    assert t.kids[..n] + [last] == t.kids;
    NodeParts(t.obj, t.kids[..n], [last]);
    OneKid(last, t.obj);
    if t.obj == obj {
      NodeParts(obj, t.kids[..n], []);
      NoKids();
      assert t.kids[..n] + [] == t.kids[..n];
    } else {
      ChoppedKeeps(last.tree, obj);
      var less := Kid(last.key, Chopped(last.tree, obj));
      OneKid(less, t.obj);
      NodeParts(t.obj, t.kids[..n], [less]);
      Regrouped([Begin(t.obj)] + KidsEvents(t.kids[..n]), KeyEvents(last.key), TreeEvents(less.tree),
          KidEvents(LastOf(t, obj)));
    }
  }

  /** Some items of a node, in the middle, and others with the same events in their place. */
  lemma {:induction false} Replaced(t: Tree, i: nat, j: nat, mid: seq<Kid>)
    requires t.Node? && WellFormed(t) && i <= j <= |t.kids| && WellFormedKids(mid, t.obj)
    requires KidsEvents(mid) == KidsEvents(t.kids[i..j])
    ensures var u := Node(t.obj, t.kids[..i] + mid + t.kids[j..]);
      WellFormed(u) && TreeEvents(u) == TreeEvents(t)
  {
    hide WellFormed, TreeEvents, KidsEvents;
    var a, m, b := t.kids[..i], t.kids[i..j], t.kids[j..];
    assert t.kids == (a + m) + b && t == Node(t.obj, (a + m) + b);
    NodeParts(t.obj, a + m, b);
    NodeParts(t.obj, a + mid, b);
    WellFormedConcat(a, m, t.obj);
    WellFormedConcat(a, mid, t.obj);
    KidsEventsConcat(a, m);
    KidsEventsConcat(a, mid);
  }

  /** An ambiguous tree is not alone with its events. */
  lemma {:induction false} Double(t: Tree) returns (u: Tree)
    requires WellFormed(t) && Ambiguous(t)
    ensures u != t && WellFormed(u) && TreeEvents(u) == TreeEvents(t)
  {
    hide WellFormed, TreeEvents, KidsEvents, EndsIn, EndsFull, KidEvents, Ambiguous, WellFormedKids;
    var i := AmbiguousKid(t);
    var kid := t.kids[i];
    KidWellFormed(t, i);
    assert t.kids[i..i + 1] == [kid];
    OneKid(kid, t.obj);
    if i + 1 < |t.kids| && EndsIn(kid.tree, t.obj) {
      u := DoubleByAppend(t, i);
    } else if EndsFull(kid.tree, t.obj) {
      u := DoubleByChop(t, i);
    } else {
      var other := Double(kid.tree);
      var mid := [Kid(kid.key, other)];
      OneKid(mid[0], t.obj);
      SameKid(kid, other);
      Replaced(t, i, i + 1, mid);
      u := Node(t.obj, t.kids[..i] + mid + t.kids[i + 1..]);
      assert u.kids[i] == mid[0];
    }
  }

  lemma {:induction false} AmbiguousKid(t: Tree) returns (i: nat)
    requires Ambiguous(t)
    ensures t.Node? && i < |t.kids|
    ensures (i + 1 < |t.kids| && EndsIn(t.kids[i].tree, t.obj)) || EndsFull(t.kids[i].tree, t.obj)
        || Ambiguous(t.kids[i].tree)
    ensures t decreases to t.kids[i].tree
  {
    i :| 0 <= i < |t.kids| && AmbiguousAt(t, i);
    assert t.kids decreases to t.kids[i];
  }

  lemma {:induction false} KidWellFormed(t: Tree, i: nat)
    requires t.Node? && WellFormed(t) && i < |t.kids|
    ensures t.kids[i].key.Some? == t.obj && WellFormed(t.kids[i].tree)
  {
  }

  lemma {:induction false} SameKid(k: Kid, other: Tree)
    requires TreeEvents(other) == TreeEvents(k.tree)
    ensures KidEvents(Kid(k.key, other)) == KidEvents(k)
  {
  }

  /** The next item goes into the item. */
  lemma {:induction false} DoubleByAppend(t: Tree, i: nat) returns (u: Tree)
    requires t.Node? && WellFormed(t) && i + 1 < |t.kids| && EndsIn(t.kids[i].tree, t.obj)
    ensures u != t && WellFormed(u) && TreeEvents(u) == TreeEvents(t)
  {
    hide WellFormed, TreeEvents, KidsEvents, EndsIn, WellFormedKids;
    var kid, next := t.kids[i], t.kids[i + 1];
    KidWellFormed(t, i);
    KidWellFormed(t, i + 1);
    AppendedKeeps(kid.tree, t.obj, next);
    var more := Kid(kid.key, Appended(kid.tree, t.obj, next));
    OneKid(more, t.obj);
    TwoKids(kid, next);
    assert t.kids[i..i + 2] == [kid] + [next];
    assert KidEvents(more) == KidEvents(kid) + KidEvents(next);
    Replaced(t, i, i + 2, [more]);
    u := Node(t.obj, t.kids[..i] + [more] + t.kids[i + 2..]);
    assert |u.kids| == |t.kids| - 1;
  }

  lemma {:induction false} TwoKids(a: Kid, b: Kid)
    ensures KidsEvents([a] + [b]) == KidEvents(a) + KidEvents(b)
  {
    hide KidEvents, KidsEvents;
    OneKidEvents(a);
    OneKidEvents(b);
    KidsEventsConcat([a], [b]);
  }

  /** The last item goes out of the item. */
  lemma {:induction false} DoubleByChop(t: Tree, i: nat) returns (u: Tree)
    requires t.Node? && WellFormed(t) && i < |t.kids| && EndsFull(t.kids[i].tree, t.obj)
    ensures u != t && WellFormed(u) && TreeEvents(u) == TreeEvents(t)
  {
    hide WellFormed, TreeEvents, KidsEvents, EndsFull, WellFormedKids;
    var kid := t.kids[i];
    KidWellFormed(t, i);
    ChoppedKeeps(kid.tree, t.obj);
    var less, last := Kid(kid.key, Chopped(kid.tree, t.obj)), LastOf(kid.tree, t.obj);
    OneKid(kid, t.obj);
    OneKid(less, t.obj);
    OneKid(last, t.obj);
    TwoKids(less, last);
    WellFormedConcat([less], [last], t.obj);
    assert t.kids[i..i + 1] == [kid];
    assert KidEvents(less) + KidEvents(last) == KidEvents(kid);
    Replaced(t, i, i + 1, [less] + [last]);
    u := Node(t.obj, t.kids[..i] + ([less] + [last]) + t.kids[i + 1..]);
    assert |u.kids| == |t.kids| + 1;
  }

  // -------------------------------------- a value without a double, step by step

  /** An open container, with the items that are still to come. */
  datatype Level = Level(obj: bool, todo: seq<Kid>)

  /** The events to come when these containers are open, the innermost one last. */
  ghost function ToCome(ls: seq<Level>): seq<Event> {
    if ls == [] then [] else KidsEvents(ls[|ls| - 1].todo) + ToCome(ls[..|ls| - 1])
  }

  /** The next item is the first one of the level `j`. */
  ghost predicate NextAt(ls: seq<Level>, j: nat) {
    j < |ls| && ls[j].todo != [] && forall r :: j < r < |ls| ==> ls[r].todo == []
  }

  ghost function Opened(k: Kid): seq<Level> {
    if k.tree.Node? then [Level(k.tree.obj, k.tree.kids)] else []
  }

  /** What is open after the first events of that item. */
  ghost function After(ls: seq<Level>, j: nat): seq<Level>
    requires NextAt(ls, j)
  {
    ls[..j] + [Level(ls[j].obj, ls[j].todo[1..])] + Opened(ls[j].todo[0])
  }

  function Root(t: Tree): Event {
    if t.Leaf? then t.event else Begin(t.obj)
  }

  /** The first events of an item. */
  ghost function Head(k: Kid): seq<Event> {
    KeyEvents(k.key) + [Root(k.tree)]
  }

  ghost predicate WellFormedLevels(ls: seq<Level>) {
    forall r :: 0 <= r < |ls| ==> WellFormedKids(ls[r].todo, ls[r].obj)
  }

  lemma {:induction false} ToComeConcat(a: seq<Level>, b: seq<Level>)
    ensures ToCome(a + b) == ToCome(b) + ToCome(a)
    decreases |b|
  {
    hide KidsEvents;
    if b == [] {
      assert a + b == a;
    } else {
      var n := |b| - 1;
      assert (a + b)[..|a + b| - 1] == a + b[..n];
      ToComeConcat(a, b[..n]);
      assert KidsEvents(b[n].todo) + (ToCome(b[..n]) + ToCome(a))
          == (KidsEvents(b[n].todo) + ToCome(b[..n])) + ToCome(a);
    }
  }

  lemma {:induction false} NothingToCome(ls: seq<Level>)
    requires forall r :: 0 <= r < |ls| ==> ls[r].todo == []
    ensures ToCome(ls) == []
  {
    if ls != [] {
      NothingToCome(ls[..|ls| - 1]);
    }
  }

  lemma {:induction false} OneLevel(l: Level)
    ensures ToCome([l]) == KidsEvents(l.todo)
  {
    hide KidsEvents;
    assert [l][..0] == [];
    assert ToCome([]) == [];
  }

  lemma {:induction false} HeadOpens(k: Kid)
    ensures KidEvents(k) == Head(k) + ToCome(Opened(k))
  {
    hide KidsEvents, KeyEvents, ToCome;
    if k.tree.Node? {
      OneLevel(Level(k.tree.obj, k.tree.kids));
      assert KeyEvents(k.key) + ([Root(k.tree)] + KidsEvents(k.tree.kids))
          == (KeyEvents(k.key) + [Root(k.tree)]) + KidsEvents(k.tree.kids);
    } else {
      NothingToCome([]);
    }
  }

  /** The first events of the next item come first. */
  lemma {:induction false} StepEvents(ls: seq<Level>, j: nat)
    requires NextAt(ls, j)
    ensures ToCome(ls) == Head(ls[j].todo[0]) + ToCome(After(ls, j))
  {
    hide ToCome, KidsEvents, KidEvents, Head, Opened;
    var l, k, rest := ls[j], ls[j].todo[0], ls[j].todo[1..];
    assert ls == (ls[..j] + [l]) + ls[j + 1..];
    ToComeConcat(ls[..j] + [l], ls[j + 1..]);
    NothingToCome(ls[j + 1..]);
    ToComeConcat(ls[..j], [l]);
    OneLevel(l);
    KidsCut(l.todo);
    HeadOpens(k);
    ToComeConcat(ls[..j] + [Level(l.obj, rest)], Opened(k));
    ToComeConcat(ls[..j], [Level(l.obj, rest)]);
    OneLevel(Level(l.obj, rest));
    FourParts(Head(k), ToCome(Opened(k)), KidsEvents(rest), ToCome(ls[..j]));
  }

  lemma {:induction false} KidsCut(ks: seq<Kid>)
    requires ks != []
    ensures KidsEvents(ks) == KidEvents(ks[0]) + KidsEvents(ks[1..])
  {
  }

  lemma {:induction false} FourParts(a: seq<Event>, b: seq<Event>, c: seq<Event>, d: seq<Event>)
    ensures ((a + b) + c) + d == a + (b + (c + d))
    ensures [] + (a + d) == a + d
  {
  }

  /** The next item, if something is to come. */
  lemma {:induction false} Next(ls: seq<Level>) returns (j: nat)
    requires ToCome(ls) != []
    ensures NextAt(ls, j)
  {
    j := |ls| - 1;
    if ls[j].todo == [] {
      j := Next(ls[..|ls| - 1]);
    }
  }

  lemma {:induction false} NothingLeft(ls: seq<Level>)
    requires ToCome(ls) == []
    ensures forall r :: 0 <= r < |ls| ==> ls[r].todo == []
  {
    hide KidEvents;
    if ls != [] {
      var l := ls[|ls| - 1];
      if l.todo != [] {
        HeadOpens(l.todo[0]);
        KidsCut(l.todo);
      }
      NothingLeft(ls[..|ls| - 1]);
    }
  }

  /** The first events tell the kind of the level, the name and the root of the item. */
  lemma {:induction false} SameHead(k: Kid, x: seq<Event>, l: Kid, y: seq<Event>)
    requires WellFormed(k.tree) && WellFormed(l.tree) && Head(k) + x == Head(l) + y
    ensures k.key == l.key && Root(k.tree) == Root(l.tree) && x == y
    ensures k.tree.Leaf? || l.tree.Leaf? ==> k.tree == l.tree
    ensures k.tree.Node? && l.tree.Node? ==> k.tree.obj == l.tree.obj
  {
    var s, t := Head(k) + x, Head(l) + y;
    assert s[0] == t[0] && s[0] == Head(k)[0] && t[0] == Head(l)[0];
    assert x == s[|Head(k)|..] && y == t[|Head(l)|..];
    if k.key.Some? {
      assert s[1] == t[1] && s[1] == Head(k)[1] && t[1] == Head(l)[1];
    }
  }

  // ------------------------------------------- levels of an unambiguous value

  ghost predicate GoodKids(ks: seq<Kid>, obj: bool) {
    forall i :: 0 <= i < |ks| ==> !AmbiguousAt(Node(obj, ks), i)
  }

  ghost predicate AllEmpty(ls: seq<Level>, a: nat, b: nat)
    requires b <= |ls|
  {
    forall m :: a < m < b ==> ls[m].todo == []
  }

  /** Two open levels: nothing that is to come to one of them could as well come to the other. */
  ghost predicate Apart(low: Level, high: Level) {
    && (low.obj == high.obj ==> low.todo == [] && high.todo == [])
    && (high.todo != [] ==>
          var last := high.todo[|high.todo| - 1].tree;
          (EndsIn(last, low.obj) ==> low.todo == []) && !EndsFull(last, low.obj))
  }

  ghost predicate Safe(ls: seq<Level>) {
    && (forall r :: 0 <= r < |ls| ==> GoodKids(ls[r].todo, ls[r].obj))
    && (forall a, b :: 0 <= a < b < |ls| && AllEmpty(ls, a, b) ==> Apart(ls[a], ls[b]))
  }

  lemma {:induction false} GoodRest(ks: seq<Kid>, obj: bool)
    requires GoodKids(ks, obj) && ks != []
    ensures GoodKids(ks[1..], obj)
  {
    hide EndsIn, EndsFull, Ambiguous;
    forall i | 0 <= i < |ks| - 1 ensures !AmbiguousAt(Node(obj, ks[1..]), i) {
      assert !AmbiguousAt(Node(obj, ks), i + 1);
    }
  }

  lemma {:induction false} GoodNode(t: Tree)
    requires t.Node?
    ensures !Ambiguous(t) <==> GoodKids(t.kids, t.obj)
  {
    hide AmbiguousAt;
    assert t == Node(t.obj, t.kids);
  }

  /** The kids of an item of an unambiguous list are unambiguous themselves. */
  lemma {:induction false} GoodFirst(ks: seq<Kid>, obj: bool)
    requires GoodKids(ks, obj) && ks != []
    ensures ks[0].tree.Node? ==> GoodKids(ks[0].tree.kids, ks[0].tree.obj)
    ensures !EndsFull(ks[0].tree, obj) && (EndsIn(ks[0].tree, obj) ==> |ks| == 1)
  {
    hide EndsIn, EndsFull;
    assert !AmbiguousAt(Node(obj, ks), 0);
    if ks[0].tree.Node? {
      GoodNode(ks[0].tree);
    }
  }

  /** A container that opens as the last item of a level. */
  lemma {:induction false} OpenedApart(low: Level, k: Kid)
    requires k.tree.Node? && !EndsFull(k.tree, low.obj) && (EndsIn(k.tree, low.obj) ==> low.todo == [])
    ensures Apart(low, Level(k.tree.obj, k.tree.kids))
  {
  }

  lemma {:induction false} PoppedApart(low: Level, high: Level)
    requires high.todo != [] && Apart(low, high)
    ensures Apart(low, Level(high.obj, high.todo[1..]))
    ensures |high.todo| == 1 ==> !EndsFull(high.todo[0].tree, low.obj)
    ensures |high.todo| == 1 && EndsIn(high.todo[0].tree, low.obj) ==> low.todo == []
  {
    hide EndsIn, EndsFull;
  }

  lemma {:induction false} SafePop(ls: seq<Level>, j: nat)
    requires Safe(ls) && NextAt(ls, j)
    ensures Safe(ls[..j] + [Level(ls[j].obj, ls[j].todo[1..])])
  {
    hide Apart, GoodKids;
    var ms := ls[..j] + [Level(ls[j].obj, ls[j].todo[1..])];
    GoodRest(ls[j].todo, ls[j].obj);
    forall a, b | 0 <= a < b < |ms| && AllEmpty(ms, a, b) ensures Apart(ms[a], ms[b]) {
      assert forall m :: a < m < b ==> ls[m] == ms[m];
      assert AllEmpty(ls, a, b);
      if b == j {
        PoppedApart(ls[a], ls[j]);
      }
    }
  }

  /** The levels remain safe from one item to the next. */
  lemma {:induction false} SafeStep(ls: seq<Level>, j: nat)
    requires Safe(ls) && NextAt(ls, j)
    ensures Safe(After(ls, j))
  {
    hide Apart, GoodKids, EndsIn, EndsFull;
    SafePop(ls, j);
    var ms, ns := ls[..j] + [Level(ls[j].obj, ls[j].todo[1..])], After(ls, j);
    var k := ls[j].todo[0];
    if k.tree.Leaf? {
      assert ns == ms;
    } else {
      GoodFirst(ls[j].todo, ls[j].obj);
      forall a, b | 0 <= a < b < |ns| && AllEmpty(ns, a, b) ensures Apart(ns[a], ns[b]) {
        assert forall m :: 0 <= m <= j ==> ms[m] == ns[m];
        if b <= j {
          assert AllEmpty(ms, a, b);
        } else {
          if a < j {
            assert ns[j].todo == [] && |ls[j].todo| == 1;
            assert forall m :: a < m < j ==> ls[m] == ns[m];
            assert AllEmpty(ls, a, j);
            PoppedApart(ls[a], ls[j]);
          }
          OpenedApart(ns[a], k);
        }
      }
    }
  }

  // ---------------------------------------------------- two readings at once

  /** The levels of a reading, among those of another one. */
  ghost predicate Embeds(f: seq<nat>, ws: seq<Level>, vs: seq<Level>) {
    && |f| == |ws| && (forall q :: 0 <= q < |f| ==> f[q] < |vs| && vs[f[q]].obj == ws[q].obj)
    && (forall q, r :: 0 <= q < r < |f| ==> f[q] < f[r])
  }

  /** They have the same items to come, and the other levels have none. */
  ghost predicate Matched(f: seq<nat>, ws: seq<Level>, vs: seq<Level>)
    requires Embeds(f, ws, vs)
  {
    && (forall q :: 0 <= q < |f| ==> vs[f[q]].todo == ws[q].todo)
    && (forall r :: 0 <= r < |vs| && r !in f ==> vs[r].todo == [])
  }

  lemma {:induction false} WellFormedStep(ls: seq<Level>, j: nat)
    requires WellFormedLevels(ls) && NextAt(ls, j)
    ensures WellFormedLevels(After(ls, j)) && WellFormed(ls[j].todo[0].tree) && ls[j].todo[0].key.Some? == ls[j].obj
  {
    hide WellFormed;
    var k := ls[j].todo[0];
    var ms := After(ls, j);
    OpenedWellFormed(k);
    forall r | 0 <= r < |ms| ensures WellFormedKids(ms[r].todo, ms[r].obj) {
      assert r < j ==> ms[r] == ls[r];
      assert r == j ==> forall i :: 0 <= i < |ms[r].todo| ==> ms[r].todo[i] == ls[j].todo[i + 1];
      assert r > j ==> ms[r] == Opened(k)[0];
    }
  }

  lemma {:induction false} OpenedWellFormed(k: Kid)
    requires WellFormed(k.tree)
    ensures WellFormedLevels(Opened(k))
  {
  }

  /** The embedding after the next item of both. */
  ghost function Follow(f: seq<nat>, p: nat, j: nat, k: Kid): seq<nat>
    requires p < |f|
  {
    f[..p + 1] + if k.tree.Node? then [j + 1] else []
  }

  lemma {:induction false} EmbedsStep(f: seq<nat>, ws: seq<Level>, p: nat, vs: seq<Level>, j: nat)
    requires Embeds(f, ws, vs) && NextAt(ws, p) && NextAt(vs, j) && f[p] <= j
    requires var k, l := ws[p].todo[0].tree, vs[j].todo[0].tree;
      k.Node? == l.Node? && (k.Node? ==> k.obj == l.obj)
    ensures Embeds(Follow(f, p, j, ws[p].todo[0]), After(ws, p), After(vs, j))
  {
    var g, ms, ns := Follow(f, p, j, ws[p].todo[0]), After(ws, p), After(vs, j);
    forall q | 0 <= q < |g| ensures g[q] < |ns| && ns[g[q]].obj == ms[q].obj {
      assert q <= p ==> g[q] == f[q] && f[q] <= f[p] && ms[q].obj == ws[q].obj;
    }
    forall q, r | 0 <= q < r < |g| ensures g[q] < g[r] {
      assert q <= p ==> f[q] <= f[p];
    }
  }

  /** Two levels of a kind, and nothing to come between them: nothing is to come to them either. */
  lemma {:induction false} NotBoth(ls: seq<Level>, a: nat, b: nat)
    requires Safe(ls) && a < b < |ls| && AllEmpty(ls, a, b) && ls[a].obj == ls[b].obj
    ensures ls[a].todo == [] && ls[b].todo == []
  {
    hide GoodKids, EndsIn, EndsFull;
  }

  /** The other reading cannot put the next item into an outer level. */
  lemma {:induction false} NotOuter(f: seq<nat>, ws: seq<Level>, p: nat, vs: seq<Level>, j: nat)
    requires Safe(vs) && Embeds(f, ws, vs) && NextAt(ws, p) && NextAt(vs, j) && f[p] <= j && ws[p].obj == vs[j].obj
    requires var g := Follow(f, p, j, ws[p].todo[0]);
      Embeds(g, After(ws, p), After(vs, j)) && Matched(g, After(ws, p), After(vs, j))
    ensures f[p] == j
  {
    hide Safe;
    if f[p] < j {
      var g, ns := Follow(f, p, j, ws[p].todo[0]), After(vs, j);
      forall m | f[p] < m < j ensures vs[m].todo == [] {
        assert forall q :: 0 <= q < |g| ==> g[q] <= f[p] || g[q] > j;
        assert ns[m] == vs[m];
      }
      NotBoth(vs, f[p], j);
    }
  }

  lemma {:induction false} MatchedStep(f: seq<nat>, ws: seq<Level>, p: nat, vs: seq<Level>, j: nat)
    requires Embeds(f, ws, vs) && NextAt(ws, p) && NextAt(vs, j) && f[p] == j
    requires var k, l := ws[p].todo[0], vs[j].todo[0];
      && k.key == l.key && k.tree.Node? == l.tree.Node?
      && (if k.tree.Node? then k.tree.obj == l.tree.obj else k.tree == l.tree)
    requires var g := Follow(f, p, j, ws[p].todo[0]);
      Embeds(g, After(ws, p), After(vs, j)) && Matched(g, After(ws, p), After(vs, j))
    ensures Matched(f, ws, vs)
  {
    var g, ms, ns := Follow(f, p, j, ws[p].todo[0]), After(ws, p), After(vs, j);
    var k, l := ws[p].todo[0], vs[j].todo[0];
    assert g[p] == j && ms[p].todo == ws[p].todo[1..] && ns[j].todo == vs[j].todo[1..];
    if k.tree.Node? {
      assert g[p + 1] == j + 1 && ms[p + 1].todo == k.tree.kids && ns[j + 1].todo == l.tree.kids;
    }
    assert k == l;
    assert ws[p].todo == [k] + ws[p].todo[1..] && vs[j].todo == [l] + vs[j].todo[1..];
    forall q | 0 <= q < |f| ensures vs[f[q]].todo == ws[q].todo {
      if q < p {
        assert g[q] == f[q] && f[q] < f[p] && ns[f[q]] == vs[f[q]] && ms[q] == ws[q];
      } else if q > p {
        assert f[p] < f[q];
      }
    }
    forall r | 0 <= r < |vs| && r !in f ensures vs[r].todo == [] {
      assert j in f;
      if r < j {
        assert r !in g;
        assert ns[r] == vs[r];
      }
    }
  }

  /** Two readings of the same events, the first of them unambiguous: they have the same items. */
  lemma {:induction false} OneReading(f: seq<nat>, ws: seq<Level>, vs: seq<Level>)
    requires Safe(vs) && WellFormedLevels(vs) && WellFormedLevels(ws) && Embeds(f, ws, vs) && ToCome(ws) == ToCome(vs)
    ensures Matched(f, ws, vs)
    decreases |ToCome(vs)|
  {
    hide Safe, WellFormedLevels, ToCome, After, Head, WellFormed, Follow, Embeds, Matched, NextAt;
    if ToCome(vs) == [] {
      NothingMatched(f, ws, vs);
    } else {
      var p := Next(ws);
      var j := Next(vs);
      var k, l, g := BothStep(f, ws, p, vs, j);
      OneReading(g, After(ws, p), After(vs, j));
      NotOuter(f, ws, p, vs, j);
      MatchedStep(f, ws, p, vs, j);
    }
  }

  lemma {:induction false} NothingMatched(f: seq<nat>, ws: seq<Level>, vs: seq<Level>)
    requires Embeds(f, ws, vs) && ToCome(ws) == ToCome(vs) == []
    ensures Matched(f, ws, vs)
  {
    NothingLeft(ws);
    NothingLeft(vs);
  }

  lemma {:induction false} BothStep(f: seq<nat>, ws: seq<Level>, p: nat, vs: seq<Level>, j: nat)
    returns (k: Kid, l: Kid, g: seq<nat>)
    requires Safe(vs) && WellFormedLevels(vs) && WellFormedLevels(ws) && Embeds(f, ws, vs) && ToCome(ws) == ToCome(vs)
    requires NextAt(ws, p) && NextAt(vs, j)
    ensures k == ws[p].todo[0] && l == vs[j].todo[0] && p < |f| && f[p] <= j && g == Follow(f, p, j, k)
    ensures k.key == l.key && k.tree.Node? == l.tree.Node? && ws[p].obj == vs[j].obj
    ensures if k.tree.Node? then k.tree.obj == l.tree.obj else k.tree == l.tree
    ensures Safe(After(vs, j)) && WellFormedLevels(After(vs, j)) && WellFormedLevels(After(ws, p))
    ensures Embeds(g, After(ws, p), After(vs, j)) && ToCome(After(ws, p)) == ToCome(After(vs, j))
    ensures |ToCome(After(vs, j))| < |ToCome(vs)|
  {
    hide Safe, WellFormedLevels, ToCome, After, WellFormed, Follow;
    k, l := ws[p].todo[0], vs[j].todo[0];
    StepEvents(ws, p);
    StepEvents(vs, j);
    WellFormedStep(ws, p);
    WellFormedStep(vs, j);
    SameHead(k, ToCome(After(ws, p)), l, ToCome(After(vs, j)));
    if f[p] > j {
      NotBoth(vs, j, f[p]);
    }
    g := Follow(f, p, j, k);
    EmbedsStep(f, ws, p, vs, j);
    SafeStep(vs, j);
  }

  /** A tree that is not ambiguous is alone with its events. */
  lemma {:induction false} Alone(t: Tree, u: Tree)
    requires WellFormed(t) && WellFormed(u) && TreeEvents(t) == TreeEvents(u) && !Ambiguous(t)
    ensures t == u
  {
    hide KidsEvents, Ambiguous;
    assert TreeEvents(t)[0] == TreeEvents(u)[0];
    if t.Node? {
      var vs, ws := [Level(t.obj, t.kids)], [Level(u.obj, u.kids)];
      assert TreeEvents(t)[1..] == KidsEvents(t.kids) && TreeEvents(u)[1..] == KidsEvents(u.kids);
      OneLevel(vs[0]);
      OneLevel(ws[0]);
      GoodNode(t);
      FirstLevel(vs[0]);
      assert WellFormedKids(t.kids, t.obj) && WellFormedKids(u.kids, u.obj);
      OneReading([0], ws, vs);
      assert ws[0].todo == vs[0].todo;
    }
  }

  lemma {:induction false} FirstLevel(l: Level)
    requires GoodKids(l.todo, l.obj)
    ensures Safe([l])
  {
    hide GoodKids, Apart;
  }

  /** The calls of the parser determine the value exactly if no item of a container ends in a container
      of the same kind that could as well have the item that follows, or give away its own last one. */
  lemma {:induction false} EventsDetermine(v: Value)
    requires Plain(v)
    ensures (exists w :: Plain(w) && w != v && Events(w) == Events(v)) <==> Ambiguous(TreeOf(v))
  {
    hide Plain, Events, TreeEvents, WellFormed, Ambiguous, ValueOf, TreeOf;
    var t := TreeOf(v);
    TreeIsWellFormed(v);
    EventsOfTree(v);
    ValueOfTree(v);
    if Ambiguous(t) {
      var u := Double(t);
      TreeOfValue(u);
      EventsOfTree(ValueOf(u));
    } else {
      forall w | Plain(w) && Events(w) == Events(v) ensures w == v {
        TreeIsWellFormed(w);
        EventsOfTree(w);
        ValueOfTree(w);
        Alone(t, TreeOf(w));
      }
    }
  }
}
