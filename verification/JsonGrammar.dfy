/** The language of `elm::json::Parser`: a reference parser on token positions, proved equivalent to
    the grammar of `JsonText.Tokens`. */
module JsonGrammar {
  import opened JsonText

  /** The calls that the parser makes to its `Maker`. */
  datatype Event =
    | BeginObject | BeginArray | OnField(name: Chars)
    | OnNull | OnBool(b: bool) | OnInt(n: int) | OnString(s: Chars)

  /** The events of a value, in pre-order: the parser never calls `endObject` nor `endArray`. */
  ghost function Events(v: Value): seq<Event>
    decreases v, 1
  {
    match v
    case Null => [OnNull]
    case Bool(b) => [OnBool(b)]
    case Int(n) => [OnInt(n)]
    case Str(s) => [OnString(s)]
    case Array(vs, _) => [BeginArray] + ItemEvents(vs)
    case Object(fs, _) => [BeginObject] + FieldEvents(fs)
  }

  ghost function ItemEvents(vs: seq<Value>): seq<Event>
    decreases vs, 0
  {
    if vs == [] then [] else Events(vs[0]) + ItemEvents(vs[1..])
  }

  ghost function FieldEvents(fs: seq<Field>): seq<Event>
    decreases fs, 0
  {
    if fs == [] then [] else [OnField(fs[0].key)] + Events(fs[0].value) + FieldEvents(fs[1..])
  }

  /** The comma that may end a container comes after an item. */
  ghost predicate Canonical(v: Value)
    decreases v, 1
  {
    match v
    case Array(vs, tr) => (tr ==> vs != []) && CanonicalItems(vs)
    case Object(fs, tr) => (tr ==> fs != []) && CanonicalFields(fs)
    case _ => true
  }

  ghost predicate CanonicalItems(vs: seq<Value>)
    decreases vs, 0
  {
    vs == [] || (Canonical(vs[0]) && CanonicalItems(vs[1..]))
  }

  ghost predicate CanonicalFields(fs: seq<Field>)
    decreases fs, 0
  {
    fs == [] || (Canonical(fs[0].value) && CanonicalFields(fs[1..]))
  }

  // ------------------------------------------------------ the reference parser

  datatype Parsed<T> = Failed | Parsed(result: T, end: nat)

  datatype Listed<T> = Listed(elems: seq<T>, trailing: bool)

  ghost function ParseValue(ts: seq<Token>, i: nat): (r: Parsed<Value>)
    ensures r.Parsed? ==> i < r.end <= |ts|
    decreases |ts| - i, 0
  {
    if i >= |ts| then Failed
    else
      match ts[i]
      case LBRACE =>
        (match ParseFields(ts, i + 1)
         case Failed => Failed
         case Parsed(l, j) => Parsed(Object(l.elems, l.trailing), j))
      case LBRACK =>
        (match ParseItems(ts, i + 1)
         case Failed => Failed
         case Parsed(l, j) => Parsed(Array(l.elems, l.trailing), j))
      case NULL_TOKEN => Parsed(Null, i + 1)
      case TRUE => Parsed(Bool(true), i + 1)
      case FALSE => Parsed(Bool(false), i + 1)
      case INT(n) => Parsed(Int(n), i + 1)
      case STRING(s) => Parsed(Str(s), i + 1)
      case _ => Failed
  }

  /** From the bracket or a comma to the closing bracket. */
  ghost function ParseItems(ts: seq<Token>, i: nat): (r: Parsed<Listed<Value>>)
    ensures r.Parsed? ==> i < r.end <= |ts|
    ensures r.Parsed? && r.result.trailing ==> r.result.elems != []
    decreases |ts| - i, 1
  {
    if i >= |ts| then Failed
    else if ts[i] == RBRACK then Parsed(Listed([], false), i + 1)
    else
      match ParseValue(ts, i)
      case Failed => Failed
      case Parsed(v, j) => MoreItems(ts, v, j)
  }

  ghost function MoreItems(ts: seq<Token>, v: Value, j: nat): (r: Parsed<Listed<Value>>)
    ensures r.Parsed? ==> j < r.end <= |ts|
    ensures r.Parsed? && r.result.trailing ==> r.result.elems != []
    decreases |ts| - j
  {
    if j >= |ts| then Failed
    else if ts[j] == COMMA then Consed(v, ParseItems(ts, j + 1))
    else if ts[j] == RBRACK then Parsed(Listed([v], false), j + 1)
    else Failed
  }

  ghost function Consed<T>(x: T, r: Parsed<Listed<T>>): Parsed<Listed<T>> {
    if r.Failed? then Failed
    else Parsed(Listed([x] + r.result.elems, r.result.elems == [] || r.result.trailing), r.end)
  }

  ghost function ParseFields(ts: seq<Token>, i: nat): (r: Parsed<Listed<Field>>)
    ensures r.Parsed? ==> i < r.end <= |ts|
    ensures r.Parsed? && r.result.trailing ==> r.result.elems != []
    decreases |ts| - i, 1
  {
    if i >= |ts| then Failed
    else if ts[i] == RBRACE then Parsed(Listed([], false), i + 1)
    else
      match ParseField(ts, i)
      case Failed => Failed
      case Parsed(f, j) => MoreFields(ts, f, j)
  }

  ghost function ParseField(ts: seq<Token>, i: nat): (r: Parsed<Field>)
    requires i < |ts|
    ensures r.Parsed? ==> i < r.end <= |ts|
    decreases |ts| - i, 0
  {
    if !ts[i].STRING? || i + 1 >= |ts| || ts[i + 1] != COLON then Failed
    else
      match ParseValue(ts, i + 2)
      case Failed => Failed
      case Parsed(v, j) => Parsed(Field(ts[i].s, v), j)
  }

  ghost function MoreFields(ts: seq<Token>, f: Field, j: nat): (r: Parsed<Listed<Field>>)
    ensures r.Parsed? ==> j < r.end <= |ts|
    ensures r.Parsed? && r.result.trailing ==> r.result.elems != []
    decreases |ts| - j
  {
    if j >= |ts| then Failed
    else if ts[j] == COMMA then Consed(f, ParseFields(ts, j + 1))
    else if ts[j] == RBRACE then Parsed(Listed([f], false), j + 1)
    else Failed
  }

  // ------------------------------------------------ what is read is the grammar

  ghost predicate ReadsItems(ts: seq<Token>, i: nat, l: Listed<Value>, j: nat) {
    && i <= j <= |ts| && (l.trailing ==> l.elems != []) && CanonicalItems(l.elems)
    && ts[i..j] == Items(l.elems) + Comma(l.trailing) + [RBRACK]
  }

  ghost predicate ReadsFields(ts: seq<Token>, i: nat, l: Listed<Field>, j: nat) {
    && i <= j <= |ts| && (l.trailing ==> l.elems != []) && CanonicalFields(l.elems)
    && ts[i..j] == Fields(l.elems) + Comma(l.trailing) + [RBRACE]
  }

  ghost predicate ReadsValue(ts: seq<Token>, i: nat, v: Value, j: nat) {
    i <= j <= |ts| && Canonical(v) && ts[i..j] == Tokens(v)
  }

  lemma {:induction false} SliceSplit<T>(ts: seq<T>, i: nat, k: nat, j: nat)
    requires i <= k <= j <= |ts|
    ensures ts[i..j] == ts[i..k] + ts[k..j]
  {
  }

  lemma {:induction false} SliceFirst<T>(ts: seq<T>, i: nat, j: nat, x: T, rest: seq<T>)
    requires i <= j <= |ts| && ts[i..j] == [x] + rest
    ensures i < j && ts[i] == x && ts[i + 1..j] == rest && |rest| == j - i - 1
  {
    assert ts[i..j][0] == x;
    assert ts[i..j][1..] == rest;
  }

  lemma {:induction false} SliceParts<T>(ts: seq<T>, i: nat, j: nat, a: seq<T>, b: seq<T>)
    requires i <= j <= |ts| && ts[i..j] == a + b
    ensures i + |a| <= j && ts[i..i + |a|] == a && ts[i + |a|..j] == b
  {
    assert ts[i..j][..|a|] == a && ts[i..j][|a|..] == b;
  }

  lemma {:induction false} Regroup<T>(a: seq<T>, b: seq<T>, c: seq<T>, d: seq<T>)
    ensures a + b + c + d == a + (b + c + d)
  {
  }

  lemma {:induction false} ContainerTokens(v: Value)
    requires Canonical(v)
    ensures v.Array? ==> Tokens(v) == [LBRACK] + (Items(v.items) + Comma(v.trailing) + [RBRACK])
    ensures v.Object? ==> Tokens(v) == [LBRACE] + (Fields(v.fields) + Comma(v.trailing) + [RBRACE])
  {
    hide Items, Fields, CanonicalItems, CanonicalFields, Comma;
    match v
    case Array(vs, tr) => Regroup([LBRACK], Items(vs), Comma(tr), [RBRACK]);
    case Object(fs, tr) => Regroup([LBRACE], Fields(fs), Comma(tr), [RBRACE]);
    case _ =>
  }

  lemma {:induction false} ValueIsRead(ts: seq<Token>, i: nat)
    requires ParseValue(ts, i).Parsed?
    ensures ReadsValue(ts, i, ParseValue(ts, i).result, ParseValue(ts, i).end)
    decreases |ts| - i, 0
  {
    hide Items, Fields, CanonicalItems, CanonicalFields, ParseItems, ParseFields, Comma;
    var r := ParseValue(ts, i);
    if ts[i] == LBRACK {
      ItemsAreRead(ts, i + 1);
      SliceSplit(ts, i, i + 1, r.end);
      ContainerTokens(r.result);
    } else if ts[i] == LBRACE {
      FieldsAreRead(ts, i + 1);
      SliceSplit(ts, i, i + 1, r.end);
      ContainerTokens(r.result);
    }
  }

  lemma {:induction false} FieldIsRead(ts: seq<Token>, i: nat)
    requires i < |ts| && ParseField(ts, i).Parsed?
    ensures var r := ParseField(ts, i); Canonical(r.result.value) && ts[i..r.end] == FieldTokens(r.result)
    decreases |ts| - i, 0
  {
    hide ParseValue, Tokens, Canonical;
    ValueIsRead(ts, i + 2);
    SliceSplit(ts, i, i + 2, ParseField(ts, i).end);
    assert ts[i..i + 2] == [ts[i], ts[i + 1]];
  }

  /** What a value begins with does not end a list. */
  lemma {:induction false} FirstToken(v: Value)
    ensures Tokens(v)[0] !in {RBRACK, RBRACE, COMMA, COLON}
  {
    hide Items, Fields, Comma;
  }

  lemma {:induction false} ReadsIsParsed(ts: seq<Token>, i: nat, v: Value, j: nat)
    requires ReadsValue(ts, i, v, j)
    ensures i < j && ts[i] !in {RBRACK, RBRACE, COMMA, COLON} && ParseValue(ts, i) == Parsed(v, j)
    decreases v, 1
  {
    hide Items, Fields, CanonicalItems, CanonicalFields, ParseItems, ParseFields, Comma;
    FirstToken(v);
    assert ts[i..j][0] == ts[i];
    ContainerTokens(v);
    match v
    case Array(vs, tr) =>
      SliceFirst(ts, i, j, LBRACK, Items(vs) + Comma(tr) + [RBRACK]);
      ItemsParsed(ts, i + 1, Listed(vs, tr), j);
    case Object(fs, tr) =>
      SliceFirst(ts, i, j, LBRACE, Fields(fs) + Comma(tr) + [RBRACE]);
      FieldsParsed(ts, i + 1, Listed(fs, tr), j);
    case _ =>
  }

  lemma {:induction false} FieldParsed(ts: seq<Token>, i: nat, f: Field, j: nat)
    requires i <= j <= |ts| && Canonical(f.value) && ts[i..j] == FieldTokens(f)
    ensures i < j && ParseField(ts, i) == Parsed(f, j) && ts[i] == STRING(f.key)
    decreases f, 0
  {
    hide Tokens, Canonical, ParseValue;
    SliceParts(ts, i, j, [STRING(f.key), COLON], Tokens(f.value));
    assert ts[i..i + 2][0] == ts[i] && ts[i..i + 2][1] == ts[i + 1];
    ReadsIsParsed(ts, i + 2, f.value, j);
  }

  // ---- values of an array

  /** What follows the first of the values of an array in the text of a list. */
  ghost function AfterItems(l: Listed<Value>): seq<Token> {
    if l.elems == [] then Comma(l.trailing) + [RBRACK]
    else [COMMA] + (Items(l.elems) + Comma(l.trailing) + [RBRACK])
  }

  lemma {:induction false} ItemsFirst(v: Value, l: Listed<Value>)
    ensures Items([v] + l.elems) + Comma(l.trailing) + [RBRACK] == Tokens(v) + AfterItems(l)
    ensures CanonicalItems([v] + l.elems) <==> Canonical(v) && CanonicalItems(l.elems)
  {
    hide Tokens, Canonical, Comma;
    assert ([v] + l.elems)[1..] == l.elems;
  }

  lemma {:induction false} ParseItemsSteps(ts: seq<Token>, i: nat)
    ensures i < |ts| && ts[i] == RBRACK ==> ParseItems(ts, i) == Parsed(Listed([], false), i + 1)
    ensures i < |ts| && ts[i] != RBRACK ==>
      ParseItems(ts, i) == (var r := ParseValue(ts, i); if r.Failed? then Failed else MoreItems(ts, r.result, r.end))
    ensures i >= |ts| ==> ParseItems(ts, i).Failed?
    ensures Items([]) == [] && CanonicalItems([])
  {
    hide ParseValue, MoreItems;
  }

  lemma {:induction false} ItemsAreRead(ts: seq<Token>, i: nat)
    requires ParseItems(ts, i).Parsed?
    ensures ReadsItems(ts, i, ParseItems(ts, i).result, ParseItems(ts, i).end)
    decreases |ts| - i, 1
  {
    hide ParseValue, Tokens, Canonical, CanonicalItems, Items, ParseItems, MoreItems, AfterItems;
    ParseItemsSteps(ts, i);
    if ts[i] != RBRACK {
      ValueIsRead(ts, i);
      var r := ParseValue(ts, i);
      MoreItemsAreRead(ts, r.result, r.end);
      var m := MoreItems(ts, r.result, r.end);
      var l := Listed(m.result.elems[1..], m.result.trailing);
      assert m.result.elems == [r.result] + l.elems;
      SliceSplit(ts, i, r.end, m.end);
      ItemsFirst(r.result, l);
    }
  }

  lemma {:induction false} MoreItemsAreRead(ts: seq<Token>, v: Value, k: nat)
    requires MoreItems(ts, v, k).Parsed?
    ensures var r := MoreItems(ts, v, k);
      && r.result.elems != [] && r.result.elems[0] == v && CanonicalItems(r.result.elems[1..])
      && ts[k..r.end] == AfterItems(Listed(r.result.elems[1..], r.result.trailing))
    decreases |ts| - k, 2
  {
    hide ParseItems, Items, CanonicalItems, Comma, AfterItems;
    ParseItemsSteps(ts, k + 1);
    AfterItemsIs(Listed([], false));
    if ts[k] == COMMA {
      ItemsAreRead(ts, k + 1);
      var q := ParseItems(ts, k + 1);
      assert [v] + q.result.elems == MoreItems(ts, v, k).result.elems;
      AfterItemsIs(q.result);
      SliceSplit(ts, k, k + 1, q.end);
      assert ([v] + q.result.elems)[1..] == q.result.elems;
    } else {
      assert [v][1..] == [];
    }
  }

  lemma {:induction false} AfterItemsIs(l: Listed<Value>)
    requires l.trailing ==> l.elems != []
    ensures l.elems == [] ==>
        AfterItems(Listed(l.elems, true)) == [COMMA] + (Items(l.elems) + Comma(l.trailing) + [RBRACK])
    ensures l.elems != [] ==> AfterItems(l) == [COMMA] + (Items(l.elems) + Comma(l.trailing) + [RBRACK])
    ensures AfterItems(Listed([], false)) == [RBRACK]
  {
    if l.elems == [] {
      assert Items(l.elems) + Comma(false) + [RBRACK] == [RBRACK];
    }
  }

  lemma {:induction false} ItemsParsed(ts: seq<Token>, i: nat, l: Listed<Value>, j: nat)
    requires ReadsItems(ts, i, l, j)
    ensures ParseItems(ts, i) == Parsed(l, j)
    decreases l.elems, 0
  {
    hide ParseValue, Tokens, Canonical, CanonicalItems, Items, ParseItems, MoreItems, AfterItems;
    ParseItemsSteps(ts, i);
    if l.elems == [] {
      SliceFirst(ts, i, j, RBRACK, []);
    } else {
      var v, m := l.elems[0], Listed(l.elems[1..], l.trailing);
      assert l.elems == [v] + m.elems;
      ItemsFirst(v, m);
      SliceParts(ts, i, j, Tokens(v), AfterItems(m));
      var k := i + |Tokens(v)|;
      ReadsIsParsed(ts, i, v, k);
      MoreItemsParsed(ts, k, v, m, j);
    }
  }

  lemma {:induction false} MoreItemsParsed(ts: seq<Token>, k: nat, v: Value, l: Listed<Value>, j: nat)
    requires k <= j <= |ts| && ts[k..j] == AfterItems(l) && CanonicalItems(l.elems)
    ensures MoreItems(ts, v, k) == Parsed(Listed([v] + l.elems, l.trailing), j)
    decreases l.elems, 1
  {
    hide ParseItems, Items, CanonicalItems;
    if l.elems != [] {
      SliceFirst(ts, k, j, COMMA, Items(l.elems) + Comma(l.trailing) + [RBRACK]);
      ItemsParsed(ts, k + 1, l, j);
    } else if l.trailing {
      assert l == Listed([], true);
      SliceFirst(ts, k, j, COMMA, [RBRACK]);
      SliceFirst(ts, k + 1, j, RBRACK, []);
      ParseItemsSteps(ts, k + 1);
    } else {
      SliceFirst(ts, k, j, RBRACK, []);
      assert [v] + l.elems == [v];
    }
  }

  // ---- fields of an object

  /** What follows the first of the fields of an object in the text of a list. */
  ghost function AfterFields(l: Listed<Field>): seq<Token> {
    if l.elems == [] then Comma(l.trailing) + [RBRACE]
    else [COMMA] + (Fields(l.elems) + Comma(l.trailing) + [RBRACE])
  }

  lemma {:induction false} FieldsFirst(f: Field, l: Listed<Field>)
    ensures Fields([f] + l.elems) + Comma(l.trailing) + [RBRACE] == FieldTokens(f) + AfterFields(l)
    ensures CanonicalFields([f] + l.elems) <==> Canonical(f.value) && CanonicalFields(l.elems)
  {
    hide FieldTokens, Canonical, Comma;
    assert ([f] + l.elems)[1..] == l.elems;
  }

  lemma {:induction false} ParseFieldsSteps(ts: seq<Token>, i: nat)
    ensures i < |ts| && ts[i] == RBRACE ==> ParseFields(ts, i) == Parsed(Listed([], false), i + 1)
    ensures i < |ts| && ts[i] != RBRACE ==>
      ParseFields(ts, i) == (var r := ParseField(ts, i); if r.Failed? then Failed else MoreFields(ts, r.result, r.end))
    ensures i >= |ts| ==> ParseFields(ts, i).Failed?
    ensures Fields([]) == [] && CanonicalFields([])
  {
    hide ParseField, MoreFields;
  }

  lemma {:induction false} FieldsAreRead(ts: seq<Token>, i: nat)
    requires ParseFields(ts, i).Parsed?
    ensures ReadsFields(ts, i, ParseFields(ts, i).result, ParseFields(ts, i).end)
    decreases |ts| - i, 1
  {
    hide ParseField, FieldTokens, Canonical, CanonicalFields, Fields, ParseFields, MoreFields, AfterFields;
    ParseFieldsSteps(ts, i);
    if ts[i] != RBRACE {
      FieldIsRead(ts, i);
      var r := ParseField(ts, i);
      MoreFieldsAreRead(ts, r.result, r.end);
      var m := MoreFields(ts, r.result, r.end);
      var l := Listed(m.result.elems[1..], m.result.trailing);
      assert m.result.elems == [r.result] + l.elems;
      SliceSplit(ts, i, r.end, m.end);
      FieldsFirst(r.result, l);
    }
  }

  lemma {:induction false} MoreFieldsAreRead(ts: seq<Token>, f: Field, k: nat)
    requires MoreFields(ts, f, k).Parsed?
    ensures var r := MoreFields(ts, f, k);
      && r.result.elems != [] && r.result.elems[0] == f && CanonicalFields(r.result.elems[1..])
      && ts[k..r.end] == AfterFields(Listed(r.result.elems[1..], r.result.trailing))
    decreases |ts| - k, 2
  {
    hide ParseFields, Fields, CanonicalFields, Comma, AfterFields;
    ParseFieldsSteps(ts, k + 1);
    AfterFieldsIs(Listed([], false));
    if ts[k] == COMMA {
      FieldsAreRead(ts, k + 1);
      var q := ParseFields(ts, k + 1);
      assert [f] + q.result.elems == MoreFields(ts, f, k).result.elems;
      AfterFieldsIs(q.result);
      SliceSplit(ts, k, k + 1, q.end);
      assert ([f] + q.result.elems)[1..] == q.result.elems;
    } else {
      assert [f][1..] == [];
    }
  }

  lemma {:induction false} AfterFieldsIs(l: Listed<Field>)
    requires l.trailing ==> l.elems != []
    ensures l.elems == [] ==>
        AfterFields(Listed(l.elems, true)) == [COMMA] + (Fields(l.elems) + Comma(l.trailing) + [RBRACE])
    ensures l.elems != [] ==> AfterFields(l) == [COMMA] + (Fields(l.elems) + Comma(l.trailing) + [RBRACE])
    ensures AfterFields(Listed([], false)) == [RBRACE]
  {
    if l.elems == [] {
      assert Fields(l.elems) + Comma(false) + [RBRACE] == [RBRACE];
    }
  }

  lemma {:induction false} FieldsParsed(ts: seq<Token>, i: nat, l: Listed<Field>, j: nat)
    requires ReadsFields(ts, i, l, j)
    ensures ParseFields(ts, i) == Parsed(l, j)
    decreases l.elems, 0
  {
    hide ParseField, FieldTokens, Canonical, CanonicalFields, Fields, ParseFields, MoreFields, AfterFields;
    ParseFieldsSteps(ts, i);
    if l.elems == [] {
      SliceFirst(ts, i, j, RBRACE, []);
    } else {
      var f, m := l.elems[0], Listed(l.elems[1..], l.trailing);
      assert l.elems == [f] + m.elems;
      FieldsFirst(f, m);
      SliceParts(ts, i, j, FieldTokens(f), AfterFields(m));
      var k := i + |FieldTokens(f)|;
      FieldParsed(ts, i, f, k);
      MoreFieldsParsed(ts, k, f, m, j);
    }
  }

  lemma {:induction false} MoreFieldsParsed(ts: seq<Token>, k: nat, f: Field, l: Listed<Field>, j: nat)
    requires k <= j <= |ts| && ts[k..j] == AfterFields(l) && CanonicalFields(l.elems)
    ensures MoreFields(ts, f, k) == Parsed(Listed([f] + l.elems, l.trailing), j)
    decreases l.elems, 1
  {
    hide ParseFields, Fields, CanonicalFields;
    if l.elems != [] {
      SliceFirst(ts, k, j, COMMA, Fields(l.elems) + Comma(l.trailing) + [RBRACE]);
      FieldsParsed(ts, k + 1, l, j);
    } else if l.trailing {
      assert l == Listed([], true);
      SliceFirst(ts, k, j, COMMA, [RBRACE]);
      SliceFirst(ts, k + 1, j, RBRACE, []);
      ParseFieldsSteps(ts, k + 1);
    } else {
      SliceFirst(ts, k, j, RBRACE, []);
      assert [f] + l.elems == [f];
    }
  }

  /** The parser reads exactly the grammar; the grammar is not ambiguous, and no text of it is the
      beginning of another one. */
  lemma {:induction false} ParsesExactly(ts: seq<Token>, i: nat, v: Value, j: nat)
    ensures ParseValue(ts, i) == Parsed(v, j) <==> ReadsValue(ts, i, v, j)
  {
    if ParseValue(ts, i) == Parsed(v, j) {
      ValueIsRead(ts, i);
    }
    if ReadsValue(ts, i, v, j) {
      ReadsIsParsed(ts, i, v, j);
    }
  }

  lemma {:induction false} Unambiguous(v: Value, w: Value, rest: seq<Token>)
    requires Canonical(v) && Canonical(w) && Tokens(v) == Tokens(w) + rest
    ensures v == w && rest == []
  {
    var ts := Tokens(v);
    assert ts[0..|ts|] == Tokens(v) && ts[0..|Tokens(w)|] == Tokens(w);
    ReadsIsParsed(ts, 0, v, |ts|);
    ReadsIsParsed(ts, 0, w, |Tokens(w)|);
  }
}
