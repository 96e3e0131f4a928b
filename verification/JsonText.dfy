/** JSON values and the tokens that write them (RFC 8259, sections 2 to 5). */
module JsonText {

  /** The content of a string: Unicode code points. */
  type Chars = seq<nat>

  datatype Token =
    | LBRACE | RBRACE | LBRACK | RBRACK | COMMA | COLON
    | NULL_TOKEN | TRUE | FALSE | INT(n: int) | STRING(s: Chars)

  /** A value.  `trailing` marks a comma after the last item, which JSON does not allow but the
      parser accepts. */
  datatype Value =
    | Null | Bool(b: bool) | Int(n: int) | Str(s: Chars)
    | Array(items: seq<Value>, trailing: bool)
    | Object(fields: seq<Field>, trailing: bool)

  datatype Field = Field(key: Chars, value: Value)

  ghost function Comma(b: bool): seq<Token> { if b then [COMMA] else [] }

  /** The tokens of a value. */
  ghost function Tokens(v: Value): (ts: seq<Token>)
    ensures ts != []
    decreases v, 1
  {
    match v
    case Null => [NULL_TOKEN]
    case Bool(b) => [if b then TRUE else FALSE]
    case Int(n) => [INT(n)]
    case Str(s) => [STRING(s)]
    case Array(vs, tr) => [LBRACK] + Items(vs) + Comma(tr && vs != []) + [RBRACK]
    case Object(fs, tr) => [LBRACE] + Fields(fs) + Comma(tr && fs != []) + [RBRACE]
  }

  /** Values separated by commas. */
  ghost function Items(vs: seq<Value>): seq<Token>
    decreases vs, 0
  {
    if vs == [] then []
    else if |vs| == 1 then Tokens(vs[0])
    else Tokens(vs[0]) + [COMMA] + Items(vs[1..])
  }

  ghost function FieldTokens(f: Field): seq<Token>
    decreases f, 0
  {
    [STRING(f.key), COLON] + Tokens(f.value)
  }

  /** Fields separated by commas. */
  ghost function Fields(fs: seq<Field>): seq<Token>
    decreases fs, 0
  {
    if fs == [] then []
    else if |fs| == 1 then FieldTokens(fs[0])
    else FieldTokens(fs[0]) + [COMMA] + Fields(fs[1..])
  }

  lemma {:induction false} ItemsSnoc(vs: seq<Value>, v: Value)
    ensures Items(vs + [v]) == Items(vs) + Comma(vs != []) + Tokens(v)
  {
    if vs == [] {
      assert vs + [v] == [v];
    } else {
      assert (vs + [v])[1..] == vs[1..] + [v];
      ItemsSnoc(vs[1..], v);
    }
  }

  lemma {:induction false} FieldsSnoc(fs: seq<Field>, f: Field)
    ensures Fields(fs + [f]) == Fields(fs) + Comma(fs != []) + FieldTokens(f)
  {
    if fs == [] {
      assert fs + [f] == [f];
    } else {
      assert (fs + [f])[1..] == fs[1..] + [f];
      FieldsSnoc(fs[1..], f);
    }
  }
}
