/** `elm::json::Parser`: recursive descent over the tokens, calling a `Maker` as it goes. */
module JsonParser {
  import opened Common
  import opened JsonText
  import opened JsonGrammar
  import opened JsonDoc
  import opened JsonRuns
  import opened JsonCommas

  class Parser {
    /** The tokens of the text, up to its end or to the first lexical error. */
    const tokens: seq<Token>
    var pos: nat
    /** The calls made to the `Maker`. */
    var events: seq<Event>

    ghost predicate Valid()
      reads `pos
    {
      pos <= |tokens|
    }

    constructor (tokens: seq<Token>)
      ensures Valid() && pos == 0 && events == [] && this.tokens == tokens
    {
      this.tokens := tokens;
      pos, events := 0, [];
    }

    /** No token is left: the code raises an exception, here `ok` is false. */
    method Next() returns (ok: bool, t: Token)
      requires Valid()
      modifies `pos
      ensures Valid() && ok == (old(pos) < |tokens|)
      ensures ok ==> t == tokens[old(pos)] && pos == old(pos) + 1
      ensures !ok ==> pos == old(pos)
    {
      ok, t := pos < |tokens|, NULL_TOKEN;
      if ok {
        t := tokens[pos];
        pos := pos + 1;
      }
    }

    /** The whole text: what follows the first value is not read. */
    method DoParsing() returns (ok: bool)
      requires Valid() && pos == 0 && events == []
      modifies `pos, `events
      ensures ok <==> exists v, n :: ReadsValue(tokens, 0, v, n)
      ensures ok ==> forall v, n :: ReadsValue(tokens, 0, v, n) ==> pos == n && events == Events(v)
    {
      hide JsonGrammar.ParseValue, ReadsValue, Events;
      var t;
      ok, t := Next();
      if ok {
        ok := ParseValue(t);
      }
      ghost var r := JsonGrammar.ParseValue(tokens, 0);
      if ok {
        ParsesExactly(tokens, 0, r.result, r.end);
      }
      forall v, n ensures ReadsValue(tokens, 0, v, n) ==> r == Parsed(v, n) {
        ParsesExactly(tokens, 0, v, n);
      }
    }

    method ParseValue(t: Token) returns (ok: bool)
      requires 0 < pos <= |tokens| && t == tokens[pos - 1]
      modifies `pos, `events
      ensures old(pos) <= pos <= |tokens|
      ensures ok == JsonGrammar.ParseValue(tokens, old(pos) - 1).Parsed?
      ensures ok ==> var r := JsonGrammar.ParseValue(tokens, old(pos) - 1);
        pos == r.end && events == old(events) + Events(r.result)
      decreases |tokens| - pos, 1
    {
      hide ParseItems, ParseFields, ItemEvents, FieldEvents;
      ok := true;
      match t
      case LBRACE =>
        events := events + [BeginObject];
        ok := ParseObject();
      case LBRACK =>
        events := events + [BeginArray];
        ok := ParseArray();
      case NULL_TOKEN => events := events + [OnNull];
      case TRUE => events := events + [OnBool(true)];
      case FALSE => events := events + [OnBool(false)];
      case INT(i) => events := events + [OnInt(i)];
      case STRING(s) => events := events + [OnString(s)];
      case _ => ok := false;
    }

    method ParseArray() returns (ok: bool)
      requires Valid()
      modifies `pos, `events
      ensures old(pos) <= pos <= |tokens|
      ensures ok == ParseItems(tokens, old(pos)).Parsed?
      ensures ok ==> var r := ParseItems(tokens, old(pos));
        pos == r.end && events == old(events) + ItemEvents(r.result.elems)
      decreases |tokens| - pos, 0
    {
      hide ItemEvents, ParseItems, JsonGrammar.ParseValue, MoreItems, Events, Joined;
      ghost var start := pos;
      ParseItemsSteps(tokens, start);
      ItemsBegin(ParseItems(tokens, start));
      var t;
      ok, t := Next();
      if !ok { return; }
      ghost var done: seq<Value>, comma := [], false;
      while t != RBRACK
        invariant start < pos <= |tokens| && t == tokens[pos - 1]
        invariant ParseItems(tokens, start) == Joined(done, comma, ParseItems(tokens, pos - 1))
        invariant events == old(events) + ItemEvents(done)
        decreases |tokens| - pos
      {
        ghost var i := pos - 1;
        ItemsStep(tokens, done, comma, i);
        ok := ParseValue(t);
        if !ok { return; }
        ghost var v := JsonGrammar.ParseValue(tokens, i).result;
        ok, t := Next();
        if !ok { return; }
        ItemsDone(done, v);
        done, comma := done + [v], t == COMMA;
        if t == COMMA {
          ParseItemsSteps(tokens, pos);
          JoinedEnd(done, comma, pos);
          ok, t := Next();
          if !ok { return; }
        } else if t != RBRACK {
          return false;
        }
      }
      ParseItemsSteps(tokens, pos - 1);
      JoinedEnd(done, comma, pos);
      ok := true;
    }

    /** A name, a colon and a value. */
    method ParseField(t: Token) returns (ok: bool)
      requires 0 < pos <= |tokens| && t == tokens[pos - 1]
      modifies `pos, `events
      ensures old(pos) <= pos <= |tokens|
      ensures ok == JsonGrammar.ParseField(tokens, old(pos) - 1).Parsed?
      ensures ok ==> var r := JsonGrammar.ParseField(tokens, old(pos) - 1);
        pos == r.end && events == old(events) + ([OnField(r.result.key)] + Events(r.result.value))
      decreases |tokens| - pos, 2
    {
      hide JsonGrammar.ParseValue, Events;
      if !t.STRING? { return false; }
      events := events + [OnField(t.s)];
      var colon;
      ok, colon := Next();
      if !ok { return; }
      if colon != COLON { return false; }
      var first;
      ok, first := Next();
      if !ok { return; }
      ok := ParseValue(first);
    }

    method ParseObject() returns (ok: bool)
      requires Valid()
      modifies `pos, `events
      ensures old(pos) <= pos <= |tokens|
      ensures ok == ParseFields(tokens, old(pos)).Parsed?
      ensures ok ==> var r := ParseFields(tokens, old(pos));
        pos == r.end && events == old(events) + FieldEvents(r.result.elems)
      decreases |tokens| - pos, 0
    {
      hide FieldEvents, ParseFields, JsonGrammar.ParseField, MoreFields, Events, Joined;
      ghost var start := pos;
      ParseFieldsSteps(tokens, start);
      FieldsBegin(ParseFields(tokens, start));
      var t;
      ok, t := Next();
      if !ok { return; }
      ghost var done: seq<Field>, comma := [], false;
      while t != RBRACE
        invariant start < pos <= |tokens| && t == tokens[pos - 1]
        invariant ParseFields(tokens, start) == Joined(done, comma, ParseFields(tokens, pos - 1))
        invariant events == old(events) + FieldEvents(done)
        decreases |tokens| - pos
      {
        ghost var i := pos - 1;
        FieldsStep(tokens, done, comma, i);
        ok := ParseField(t);
        if !ok { return; }
        ghost var f := JsonGrammar.ParseField(tokens, i).result;
        ok, t := Next();
        if !ok { return; }
        FieldsDone(done, f);
        done, comma := done + [f], t == COMMA;
        if t == COMMA {
          ParseFieldsSteps(tokens, pos);
          JoinedEnd(done, comma, pos);
          ok, t := Next();
          if !ok { return; }
        } else if t != RBRACE {
          return false;
        }
      }
      ParseFieldsSteps(tokens, pos - 1);
      JoinedEnd(done, comma, pos);
      ok := true;
    }
  }

  // ------------------------------------------------------------ the loops

  /** What has been read before, and what remains to be read; `comma` tells that a comma was last. */
  ghost function Joined<T>(done: seq<T>, comma: bool, r: Parsed<Listed<T>>): Parsed<Listed<T>> {
    if r.Failed? then Failed
    else Parsed(Listed(done + r.result.elems, if r.result.elems == [] then comma else r.result.trailing), r.end)
  }

  lemma {:induction false} JoinedEnd<T>(done: seq<T>, comma: bool, j: nat)
    ensures Joined(done, comma, Parsed(Listed([], false), j)) == Parsed(Listed(done, comma), j)
    ensures Joined(done, comma, Failed).Failed?
  {
    assert done + [] == done;
  }

  lemma {:induction false} JoinedCons<T>(done: seq<T>, comma: bool, x: T, r: Parsed<Listed<T>>)
    ensures Joined(done, comma, Consed(x, r)) == Joined(done + [x], true, r)
  {
    if r.Parsed? {
      assert done + ([x] + r.result.elems) == (done + [x]) + r.result.elems;
    }
  }

  lemma {:induction false} ItemsBegin(r: Parsed<Listed<Value>>)
    requires r.Parsed? && r.result.trailing ==> r.result.elems != []
    ensures Joined([], false, r) == r && ItemEvents([]) == []
  {
    if r.Parsed? {
      assert [] + r.result.elems == r.result.elems;
    }
  }

  lemma {:induction false} ItemsDone(done: seq<Value>, v: Value)
    ensures ItemEvents(done + [v]) == ItemEvents(done) + (Events(v))
  {
    hide Events;
    if done == [] {
      assert done + [v] == [v];
    } else {
      assert (done + [v])[1..] == done[1..] + [v];
      ItemsDone(done[1..], v);
    }
  }

  /** One turn of the loop over the values of an array. */
  lemma {:induction false} ItemsStep(ts: seq<Token>, done: seq<Value>, comma: bool, i: nat)
    requires i < |ts| && ts[i] != RBRACK
    ensures var all, r := Joined(done, comma, ParseItems(ts, i)), JsonGrammar.ParseValue(ts, i);
      if r.Failed? || r.end >= |ts| || (ts[r.end] != COMMA && ts[r.end] != RBRACK) then all.Failed?
      else all == Joined(done + [r.result], ts[r.end] == COMMA,
          ParseItems(ts, r.end + if ts[r.end] == COMMA then 1 else 0))
  {
    hide JsonGrammar.ParseValue, ParseItems;
    ParseItemsSteps(ts, i);
    var r := JsonGrammar.ParseValue(ts, i);
    if r.Parsed? && r.end < |ts| {
      ParseItemsSteps(ts, r.end);
      if ts[r.end] == COMMA {
        JoinedCons(done, comma, r.result, ParseItems(ts, r.end + 1));
      } else if ts[r.end] == RBRACK {
        assert done + [r.result] + [] == done + [r.result];
      }
    }
  }

  lemma {:induction false} FieldsBegin(r: Parsed<Listed<Field>>)
    requires r.Parsed? && r.result.trailing ==> r.result.elems != []
    ensures Joined([], false, r) == r && FieldEvents([]) == []
  {
    if r.Parsed? {
      assert [] + r.result.elems == r.result.elems;
    }
  }

  lemma {:induction false} FieldsDone(done: seq<Field>, f: Field)
    ensures FieldEvents(done + [f]) == FieldEvents(done) + ([OnField(f.key)] + Events(f.value))
  {
    hide Events;
    if done == [] {
      assert done + [f] == [f];
    } else {
      assert (done + [f])[1..] == done[1..] + [f];
      FieldsDone(done[1..], f);
    }
  }

  /** One turn of the loop over the fields of an object. */
  lemma {:induction false} FieldsStep(ts: seq<Token>, done: seq<Field>, comma: bool, i: nat)
    requires i < |ts| && ts[i] != RBRACE
    ensures var all, r := Joined(done, comma, ParseFields(ts, i)), JsonGrammar.ParseField(ts, i);
      if r.Failed? || r.end >= |ts| || (ts[r.end] != COMMA && ts[r.end] != RBRACE) then all.Failed?
      else all == Joined(done + [r.result], ts[r.end] == COMMA,
          ParseFields(ts, r.end + if ts[r.end] == COMMA then 1 else 0))
  {
    hide JsonGrammar.ParseField, ParseFields;
    ParseFieldsSteps(ts, i);
    var r := JsonGrammar.ParseField(ts, i);
    if r.Parsed? && r.end < |ts| {
      ParseFieldsSteps(ts, r.end);
      if ts[r.end] == COMMA {
        JoinedCons(done, comma, r.result, ParseFields(ts, r.end + 1));
      } else if ts[r.end] == RBRACE {
        assert done + [r.result] + [] == done + [r.result];
      }
    }
  }

  // ------------------------------------------------------------ round trip

  /** Whatever calls led the `Saver` to its END, the parser reads its tokens back, to the last one,
      as the saved value. */
  lemma {:induction false} SavedIsReadBack(calls: seq<Call>, v: Value)
    requires Run(Start, calls) == Some(Finished(v))
    ensures JsonGrammar.ParseValue(DocTokens(Finished(v)), 0) == Parsed(v, |DocTokens(Finished(v))|)
  {
    hide Run, Plain, Canonical, Tokens, JsonGrammar.ParseValue;
    CompleteTexts(calls, v);
    PlainIsCanonical(v);
    var ts := Tokens(v);
    assert ts[0..|ts|] == ts;
    ParsesExactly(ts, 0, v, |ts|);
  }

  /** Because the code never calls `endArray` nor `endObject`, a `Maker` cannot tell some texts apart:
      here `[[null], null]` and `[[null, null]]`. */
  lemma {:induction false} EventsAreAmbiguous()
    ensures exists v, w :: v != w && Plain(v) && Plain(w) && Events(v) == Events(w)
  {
    var v := Array([Array([Null], false), Null], false);
    var w := Array([Array([Null, Null], false)], false);
    var a, b := [Null], [Null, Null];
    assert a[1..] == [] && b[1..] == a;
    var vs, ws := v.items, w.items;
    assert vs[1..] == a && ws[1..] == [];
    assert ItemEvents([]) == [];
    assert Events(Null) == [OnNull];
    assert ItemEvents(a) == [OnNull];
    assert ItemEvents(b) == [OnNull] + [OnNull];
    assert ItemEvents(vs) == Events(vs[0]) + [OnNull];
    assert ItemEvents(ws) == Events(ws[0]) + [];
    assert Events(vs[0]) == [BeginArray] + [OnNull];
    assert Events(ws[0]) == [BeginArray] + ([OnNull] + [OnNull]);
    assert Events(v) == Events(w);
    assert PlainItems([]) && Plain(Null) && PlainItems(a) && PlainItems(b);
    assert Plain(vs[0]) && Plain(ws[0]) && PlainItems(vs) && PlainItems(ws);
    assert v != w by { assert |vs| != |ws|; }
  }
}
