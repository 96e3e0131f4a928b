/** Which of the texts that `elm::json::Parser` accepts are JSON: those without a comma just before a
    closing bracket. */
module JsonCommas {
  import opened JsonText
  import opened JsonGrammar
  import opened JsonRuns

  predicate Closes(t: Token) {
    t == RBRACK || t == RBRACE
  }

  /** No comma stands directly before a closing bracket. */
  ghost predicate NoTrailing(ts: seq<Token>) {
    forall i, k :: 0 <= i < k < |ts| && k == i + 1 && ts[i] == COMMA ==> !Closes(ts[k])
  }

  /** Two texts side by side. */
  lemma {:induction false} NoTrailingConcat(a: seq<Token>, b: seq<Token>)
    requires a != [] && b != []
    ensures NoTrailing(a + b) <==>
              NoTrailing(a) && NoTrailing(b) && !(a[|a| - 1] == COMMA && Closes(b[0]))
  {
    var ts := a + b;
    if NoTrailing(ts) {
      forall i, k | 0 <= i < k < |a| && k == i + 1 && a[i] == COMMA ensures !Closes(a[k]) {
        assert ts[i] == a[i] && ts[k] == a[k];
      }
      forall i, k | 0 <= i < k < |b| && k == i + 1 && b[i] == COMMA ensures !Closes(b[k]) {
        assert ts[|a| + i] == b[i] && ts[|a| + k] == b[k];
      }
      assert ts[|a| - 1] == a[|a| - 1] && ts[|a|] == b[0];
    }
  }

  /** A text that begins and ends like a value. */
  ghost predicate Whole(ts: seq<Token>) {
    ts != [] && !Closes(ts[0]) && ts[|ts| - 1] != COMMA
  }

  /** A bracketed text. */
  lemma {:induction false} Bracketed(open: Token, ts: seq<Token>, comma: bool, close: Token)
    requires open != COMMA && !Closes(open) && Closes(close) && close != COMMA
    requires if ts == [] then !comma else Whole(ts)
    ensures var all := [open] + (ts + Comma(comma) + [close]);
      Whole(all) && (NoTrailing(all) <==> !comma && NoTrailing(ts))
  {
    hide NoTrailing;
    Short(open);
    Short(close);
    Short(COMMA);
    if ts == [] {
      assert ts + Comma(comma) + [close] == [close];
      NoTrailingConcat([open], [close]);
      NoneEmpty();
    } else {
      var inner := ts + Comma(comma);
      if comma {
        NoTrailingConcat(inner, [close]);
      } else {
        assert inner == ts;
        NoTrailingConcat(ts, [close]);
      }
      NoTrailingConcat([open], inner + [close]);
    }
  }

  lemma {:induction false} Short(t: Token)
    ensures NoTrailing([t])
  {
  }

  lemma {:induction false} NoneEmpty()
    ensures NoTrailing([])
  {
  }

  lemma {:induction false} Separated(a: seq<Token>, b: seq<Token>)
    requires Whole(a) && Whole(b)
    ensures Whole(a + [COMMA] + b) && (NoTrailing(a + [COMMA] + b) <==> NoTrailing(a) && NoTrailing(b))
  {
    hide NoTrailing;
    Short(COMMA);
    NoTrailingConcat(a, [COMMA]);
    NoTrailingConcat(a + [COMMA], b);
  }

  lemma {:induction false} ValueCommas(v: Value)
    requires Canonical(v)
    ensures Whole(Tokens(v)) && (Plain(v) <==> NoTrailing(Tokens(v)))
    decreases v, 1
  {
    hide Items, Fields, NoTrailing, Whole, Comma, PlainItems, PlainFields, CanonicalItems, CanonicalFields;
    ContainerTokens(v);
    match v
    case Array(vs, tr) =>
      ItemCommas(vs);
      Bracketed(LBRACK, Items(vs), tr, RBRACK);
    case Object(fs, tr) =>
      FieldCommas(fs);
      Bracketed(LBRACE, Fields(fs), tr, RBRACE);
    case _ =>
      LeafCommas(v);
  }

  lemma {:induction false} LeafCommas(v: Value)
    requires !v.Array? && !v.Object?
    ensures Whole(Tokens(v)) && Plain(v) && NoTrailing(Tokens(v))
  {
  }

  lemma {:induction false} ItemCommas(vs: seq<Value>)
    requires CanonicalItems(vs)
    ensures if vs == [] then Items(vs) == [] else Items(vs) != [] && Whole(Items(vs))
    ensures PlainItems(vs) <==> NoTrailing(Items(vs))
    decreases vs, 0
  {
    hide Tokens, NoTrailing, Whole, Canonical, Plain;
    if vs == [] {
      NoneEmpty();
    } else {
      ValueCommas(vs[0]);
      ItemCommas(vs[1..]);
      if |vs| > 1 {
        Separated(Tokens(vs[0]), Items(vs[1..]));
      }
    }
  }

  lemma {:induction false} MemberCommas(f: Field)
    requires Canonical(f.value)
    ensures FieldTokens(f) != [] && Whole(FieldTokens(f)) && (Plain(f.value) <==> NoTrailing(FieldTokens(f)))
    decreases f, 0
  {
    hide Tokens, NoTrailing, Canonical, Plain;
    ValueCommas(f.value);
    Short(STRING(f.key));
    Short(COLON);
    NoTrailingConcat([STRING(f.key)], [COLON]);
    assert [STRING(f.key)] + [COLON] == [STRING(f.key), COLON];
    NoTrailingConcat([STRING(f.key), COLON], Tokens(f.value));
  }

  lemma {:induction false} FieldCommas(fs: seq<Field>)
    requires CanonicalFields(fs)
    ensures if fs == [] then Fields(fs) == [] else Fields(fs) != [] && Whole(Fields(fs))
    ensures PlainFields(fs) <==> NoTrailing(Fields(fs))
    decreases fs, 0
  {
    hide FieldTokens, NoTrailing, Whole, Canonical, Plain;
    if fs == [] {
      NoneEmpty();
    } else {
      MemberCommas(fs[0]);
      FieldCommas(fs[1..]);
      if |fs| > 1 {
        Separated(FieldTokens(fs[0]), Fields(fs[1..]));
      }
    }
  }

  lemma {:induction false} PlainIsCanonical(v: Value)
    requires Plain(v)
    ensures Canonical(v)
    decreases v, 1
  {
    match v
    case Array(vs, _) => PlainItemsAreCanonical(vs);
    case Object(fs, _) => PlainFieldsAreCanonical(fs);
    case _ =>
  }

  lemma {:induction false} PlainItemsAreCanonical(vs: seq<Value>)
    requires PlainItems(vs)
    ensures CanonicalItems(vs)
    decreases vs, 0
  {
    if vs != [] {
      PlainIsCanonical(vs[0]);
      PlainItemsAreCanonical(vs[1..]);
    }
  }

  lemma {:induction false} PlainFieldsAreCanonical(fs: seq<Field>)
    requires PlainFields(fs)
    ensures CanonicalFields(fs)
    decreases fs, 0
  {
    if fs != [] {
      PlainIsCanonical(fs[0].value);
      PlainFieldsAreCanonical(fs[1..]);
    }
  }

  /** A text that the parser accepts is the text of a JSON value exactly if no comma stands directly
      before a closing bracket, at any depth, in arrays and in objects. */
  lemma {:induction false} AcceptedIsStandard(ts: seq<Token>, i: nat)
    requires ParseValue(ts, i).Parsed?
    ensures var read := ts[i..ParseValue(ts, i).end];
      (exists w :: Plain(w) && Tokens(w) == read) <==> NoTrailing(read)
  {
    hide ParseValue, NoTrailing, Plain, Tokens, Canonical;
    var v, j := ParseValue(ts, i).result, ParseValue(ts, i).end;
    ParsesExactly(ts, i, v, j);
    ValueCommas(v);
    forall w | Plain(w) && Tokens(w) == ts[i..j] ensures w == v {
      PlainIsCanonical(w);
      assert Tokens(w) == Tokens(v) + [];
      Unambiguous(w, v, []);
    }
  }

  /** Such a comma is read, after the items of any array and after the fields of any object. */
  lemma {:induction false} TrailingCommaIsRead(v: Value)
    requires Plain(v) && ((v.Array? && v.items != []) || (v.Object? && v.fields != []))
    ensures var w := v.(trailing := true);
      && Tokens(w) == Tokens(v)[..|Tokens(v)| - 1] + [COMMA] + Tokens(v)[|Tokens(v)| - 1..]
      && ParseValue(Tokens(w), 0) == Parsed(w, |Tokens(w)|)
      && forall u :: Plain(u) ==> Tokens(u) != Tokens(w)
  {
    hide ParseValue, Items, Fields, PlainItems, PlainFields, CanonicalItems, CanonicalFields;
    PlainIsCanonical(v);
    var w := v.(trailing := true);
    var ts := Tokens(w);
    assert ts[0..|ts|] == ts;
    ParsesExactly(ts, 0, w, |ts|);
    forall u | Plain(u) ensures Tokens(u) != ts {
      PlainIsCanonical(u);
      if Tokens(u) == ts {
        assert Tokens(u) == ts + [];
        Unambiguous(u, w, []);
      }
    }
  }
}
