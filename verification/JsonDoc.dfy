/** A JSON text under construction: the containers that are open, and what they hold so far.

    `After` says which calls of the `Saver` are accepted and what they mean, with no state machine:
    it is the reference that the pushdown automaton of `JsonSaver` is proved against.
 */
module JsonDoc {
  import opened Common
  import opened JsonText

  /** An open container; `InField` is an object whose last key still waits for its value. */
  datatype Open = InArray(vs: seq<Value>) | InObject(fs: seq<Field>) | InField(fs: seq<Field>, key: Chars)

  /** The open containers, the innermost one last. */
  datatype Doc = Start | Within(opens: seq<Open>) | Finished(v: Value)

  datatype Call =
    | BeginMap | EndMap | BeginList | EndList
    | Key(key: Chars)
    | PutNull | WriteBool(b: bool) | WriteInt(n: int) | WriteString(s: Chars)

  /** Only the innermost container may be between two fields, and the outermost one is an object. */
  ghost predicate WellFormed(doc: Doc) {
    doc.Within? ==>
      && doc.opens != [] && !doc.opens[0].InArray?
      && forall i :: 0 <= i < |doc.opens| - 1 ==> !doc.opens[i].InObject?
  }

  function Last(os: seq<Open>): Open
    requires os != []
  {
    os[|os| - 1]
  }

  function Init(os: seq<Open>): seq<Open>
    requires os != []
  {
    os[..|os| - 1]
  }

  /** A value may begin here. */
  predicate Expects(doc: Doc) {
    doc.Within? && doc.opens != [] && !Last(doc.opens).InObject?
  }

  /** A value has been completed inside the open containers. */
  function Complete(os: seq<Open>, v: Value): Doc
    requires os != [] ==> !Last(os).InObject?
  {
    if os == [] then Finished(v)
    else
      match Last(os)
      case InArray(vs) => Within(Init(os) + [InArray(vs + [v])])
      case InField(fs, k) => Within(Init(os) + [InObject(fs + [Field(k, v)])])
  }

  /** The effect of a call, if it is accepted. */
  function After(doc: Doc, call: Call): Option<Doc> {
    match call
    case BeginMap =>
      if doc.Start? then Some(Within([InObject([])]))
      else if Expects(doc) then Some(Within(doc.opens + [InObject([])])) else None
    case EndMap =>
      if doc.Within? && doc.opens != [] && Last(doc.opens).InObject? && Closable(doc.opens)
      then Some(Complete(Init(doc.opens), Object(Last(doc.opens).fs, false))) else None
    case BeginList => if Expects(doc) then Some(Within(doc.opens + [InArray([])])) else None
    case EndList =>
      if doc.Within? && doc.opens != [] && Last(doc.opens).InArray? && Closable(doc.opens)
      then Some(Complete(Init(doc.opens), Array(Last(doc.opens).vs, false))) else None
    case Key(k) =>
      if doc.Within? && doc.opens != [] && Last(doc.opens).InObject?
      then Some(Within(Init(doc.opens) + [InField(Last(doc.opens).fs, k)])) else None
    case PutNull => if Expects(doc) then Some(Complete(doc.opens, Null)) else None
    case WriteBool(b) => if Expects(doc) then Some(Complete(doc.opens, Bool(b))) else None
    case WriteString(s) => if Expects(doc) then Some(Complete(doc.opens, Str(s))) else None
    case WriteInt(n) =>
      if doc.Start? then Some(Finished(Int(n)))
      else if Expects(doc) then Some(Complete(doc.opens, Int(n))) else None
  }

  /** The container around the innermost one, if any, waits for it. */
  predicate Closable(os: seq<Open>)
    requires os != []
  {
    |os| > 1 ==> !os[|os| - 2].InObject?
  }

  lemma {:induction false} AfterWellFormed(doc: Doc, call: Call)
    requires WellFormed(doc)
    ensures After(doc, call).Some? ==> WellFormed(After(doc, call).value)
  {
  }

  // ----------------------------------------------------------------- tokens

  /** What has been written of a container when a value begins in it. */
  ghost function OuterTokens(o: Open): seq<Token> {
    match o
    case InArray(vs) => [LBRACK] + Items(vs) + Comma(vs != [])
    case InObject(fs) => [LBRACE] + Fields(fs) + Comma(fs != [])
    case InField(fs, k) => [LBRACE] + Fields(fs) + Comma(fs != []) + [STRING(k), COLON]
  }

  ghost function InnerTokens(o: Open): seq<Token> {
    match o
    case InArray(vs) => [LBRACK] + Items(vs)
    case InObject(fs) => [LBRACE] + Fields(fs)
    case InField(_, _) => OuterTokens(o)
  }

  ghost function Outer(os: seq<Open>): seq<Token> {
    if os == [] then [] else Outer(Init(os)) + OuterTokens(Last(os))
  }

  /** The tokens of the text so far. */
  ghost function DocTokens(doc: Doc): seq<Token> {
    match doc
    case Start => []
    case Within(os) => if os == [] then [] else Outer(Init(os)) + InnerTokens(Last(os))
    case Finished(v) => Tokens(v)
  }

  lemma {:induction false} OuterSnoc(os: seq<Open>, o: Open)
    ensures Outer(os + [o]) == Outer(os) + OuterTokens(o)
    ensures DocTokens(Within(os + [o])) == Outer(os) + InnerTokens(o)
  {
    assert Init(os + [o]) == os;
  }

  lemma {:induction false} ItemTokens(vs: seq<Value>, v: Value)
    ensures InnerTokens(InArray(vs + [v])) == OuterTokens(InArray(vs)) + Tokens(v)
  {
    hide Items, Tokens, Comma;
    ItemsSnoc(vs, v);
    var a, b := Items(vs) + Comma(vs != []), Tokens(v);
    assert [LBRACK] + (a + b) == ([LBRACK] + a) + b;
  }

  lemma {:induction false} MemberTokens(fs: seq<Field>, k: Chars, v: Value)
    ensures InnerTokens(InObject(fs + [Field(k, v)])) == OuterTokens(InField(fs, k)) + Tokens(v)
  {
    hide Fields, Tokens, Comma;
    FieldsSnoc(fs, Field(k, v));
    var a, b := [LBRACE] + Fields(fs) + Comma(fs != []), [STRING(k), COLON];
    assert [LBRACE] + (Fields(fs) + Comma(fs != []) + (b + Tokens(v))) == a + (b + Tokens(v)) == (a + b) + Tokens(v);
  }

  /** A value completed is a value written where it was expected. */
  lemma {:induction false} CompleteTokens(os: seq<Open>, v: Value)
    requires os != [] ==> !Last(os).InObject?
    ensures DocTokens(Complete(os, v)) == Outer(os) + Tokens(v)
  {
    hide OuterTokens, InnerTokens, Tokens;
    if os != [] {
      var a, b := Outer(Init(os)), OuterTokens(Last(os));
      assert a + (b + Tokens(v)) == (a + b) + Tokens(v);
      match Last(os) {
        case InArray(vs) =>
          OuterSnoc(Init(os), InArray(vs + [v]));
          ItemTokens(vs, v);
        case InField(fs, k) =>
          OuterSnoc(Init(os), InObject(fs + [Field(k, v)]));
          MemberTokens(fs, k, v);
      }
    }
  }
}
