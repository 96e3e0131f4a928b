/** `elm::json::Saver`: a pushdown automaton that emits a text, call by call. */
module JsonSaver {
  import opened Common
  import opened JsonText
  import opened JsonDoc

  datatype State = BEGIN | OBJECT | IN_OBJECT | FIELD | ARRAY | IN_ARRAY | END

  /** What is written: tokens, and blanks between them. */
  datatype Piece = Tok(token: Token) | Blank(text: string)

  ghost predicate IsBlank(s: string) {
    forall i :: 0 <= i < |s| ==> s[i] in {' ', '\t', '\n', '\r'}
  }

  /** The tokens of an output. */
  ghost function Bare(out: seq<Piece>): seq<Token> {
    if out == [] then []
    else Bare(out[..|out| - 1]) + match out[|out| - 1] case Tok(t) => [t] case Blank(_) => []
  }

  ghost predicate BlanksOnly(out: seq<Piece>) {
    forall i :: 0 <= i < |out| && out[i].Blank? ==> IsBlank(out[i].text)
  }

  lemma {:induction false} BareSnoc(out: seq<Piece>, p: Piece)
    ensures Bare(out + [p]) == Bare(out) + match p case Tok(t) => [t] case Blank(_) => []
    ensures BlanksOnly(out) && (p.Blank? ==> IsBlank(p.text)) ==> BlanksOnly(out + [p])
  {
    assert (out + [p])[..|out|] == out;
    BlanksSnoc(out, p);
  }

  lemma {:induction false} BlanksSnoc(out: seq<Piece>, p: Piece)
    ensures BlanksOnly(out) && (p.Blank? ==> IsBlank(p.text)) ==> BlanksOnly(out + [p])
  {
    hide IsBlank;
  }

  function Next(s: State): State {
    if s == OBJECT then IN_OBJECT else if s == ARRAY then IN_ARRAY else s
  }

  predicate IsObject(s: State) { s == OBJECT || s == IN_OBJECT }

  predicate IsArray(s: State) { s == ARRAY || s == IN_ARRAY }

  // --------------------------------------------- the automaton, as a document

  /** The state in which a container is left when another one is opened inside. */
  ghost function Suspended(o: Open): State {
    match o
    case InArray(vs) => if vs == [] then ARRAY else IN_ARRAY
    case InObject(fs) => if fs == [] then OBJECT else IN_OBJECT
    case InField(fs, _) => if fs == [] then OBJECT else IN_OBJECT
  }

  ghost function StateOf(doc: Doc): State {
    match doc
    case Start => BEGIN
    case Finished(_) => END
    case Within(os) => if os == [] then BEGIN else if Last(os).InField? then FIELD else Suspended(Last(os))
  }

  ghost function Suspensions(os: seq<Open>): (s: seq<State>)
    ensures |s| == |os|
  {
    seq(|os|, i requires 0 <= i < |os| => Suspended(os[i]))
  }

  /** The stack holds exactly the enclosing containers, and the object that waits for a value. */
  ghost function StackOf(doc: Doc): seq<State> {
    if !doc.Within? || doc.opens == [] then []
    else if Last(doc.opens).InField? then Suspensions(doc.opens)
    else Suspensions(Init(doc.opens))
  }

  ghost function Opens(doc: Doc): seq<Open> {
    if doc.Within? then doc.opens else []
  }

  /** Where the automaton accepts a value, the document expects one, and the comma it writes is the
      one that separates the value from the previous item. */
  lemma {:induction false} ReadyForValue(doc: Doc)
    requires WellFormed(doc) && StateOf(doc) != END && !IsObject(StateOf(doc))
    ensures doc.Start? || Expects(doc)
    ensures doc.Start? <==> StateOf(doc) == BEGIN
    ensures Opens(doc) != [] ==> !Last(Opens(doc)).InObject?
    ensures DocTokens(doc) + Comma(StateOf(doc) == IN_ARRAY || StateOf(doc) == IN_OBJECT) == Outer(Opens(doc))
    ensures StateOf(doc) == FIELD || IsArray(StateOf(doc)) ==> Opens(doc) != []
    ensures StateOf(doc) == FIELD ==> Last(Opens(doc)).InField? && StackOf(doc) == Suspensions(Opens(doc))
    ensures IsArray(StateOf(doc)) ==>
      && Last(Opens(doc)).InArray?
      && StateOf(doc) == Suspended(Last(Opens(doc))) && StackOf(doc) == Suspensions(Init(Opens(doc)))
    ensures StateOf(doc) == BEGIN ==> StackOf(doc) == []
  {
    hide Fields, Items;
  }

  lemma {:induction false} SuspensionsSnoc(os: seq<Open>)
    requires os != []
    ensures Suspensions(os) == Suspensions(Init(os)) + [Suspended(Last(os))]
    ensures Suspensions(os)[..|os| - 1] == Suspensions(Init(os)) && Suspensions(os)[|os| - 1] == Suspended(Last(os))
  {
  }

  /** A container has just been opened. */
  lemma {:induction false} Opened(os: seq<Open>, o: Open)
    requires WellFormed(Within(os + [o])) && (o == InObject([]) || o == InArray([]))
    ensures StateOf(Within(os + [o])) == (if o.InObject? then OBJECT else ARRAY)
    ensures StackOf(Within(os + [o])) == Suspensions(os)
    ensures DocTokens(Within(os + [o])) == Outer(os) + [if o.InObject? then LBRACE else LBRACK]
  {
    OuterSnoc(os, o);
    assert Init(os + [o]) == os && Last(os + [o]) == o;
  }

  /** A value has just been completed. */
  lemma {:induction false} Completed(os: seq<Open>, v: Value)
    requires os != [] ==> !Last(os).InObject?
    ensures StateOf(Complete(os, v)) == if os == [] then END else Next(Suspended(Last(os)))
    ensures StackOf(Complete(os, v)) == if os == [] then [] else Suspensions(Init(os))
    ensures DocTokens(Complete(os, v)) == Outer(os) + Tokens(v)
  {
    hide Tokens, Outer, DocTokens;
    CompleteTokens(os, v);
    if os != [] {
      var d := Complete(os, v);
      assert d.opens == Init(os) + [Last(d.opens)];
      assert Init(d.opens) == Init(os);
    }
  }

  /** A leaf is written: how the automaton moves. */
  lemma {:induction false} LeafWritten(doc: Doc, v: Value)
    requires WellFormed(doc) && (StateOf(doc) == FIELD || IsArray(StateOf(doc)))
    ensures Expects(doc) && Opens(doc) == doc.opens && !Last(doc.opens).InObject?
    ensures var s, stack, d := StateOf(doc), StackOf(doc), Complete(Opens(doc), v);
      && (s == FIELD ==> stack != [])
      && StateOf(d) == Next(if s == FIELD then stack[|stack| - 1] else s)
      && StackOf(d) == (if s == FIELD then stack[..|stack| - 1] else stack)
      && DocTokens(d) == DocTokens(doc) + Comma(s == IN_ARRAY || s == IN_OBJECT) + Tokens(v)
  {
    hide DocTokens, Outer, StackOf, StateOf, Suspensions, Suspended, Tokens, Complete, WellFormed;
    ReadyForValue(doc);
    Completed(Opens(doc), v);
    SuspensionsSnoc(Opens(doc));
  }

  /** The states of an object. */
  lemma {:induction false} InsideObject(doc: Doc)
    requires WellFormed(doc) && IsObject(StateOf(doc))
    ensures doc.Within? && doc.opens != [] && Last(doc.opens).InObject? && StateOf(doc) == Suspended(Last(doc.opens))
    ensures (StateOf(doc) == IN_OBJECT) == (Last(doc.opens).fs != [])
    ensures StackOf(doc) == Suspensions(Init(doc.opens))
  {
  }

  lemma {:induction false} InsideArray(doc: Doc)
    requires WellFormed(doc) && IsArray(StateOf(doc))
    ensures doc.Within? && Last(doc.opens).InArray? && |doc.opens| > 1
  {
  }

  /** A key has just been written. */
  lemma {:induction false} Keyed(doc: Doc, key: Chars)
    requires WellFormed(doc) && doc.Within? && Last(doc.opens).InObject?
    ensures var d := Within(Init(doc.opens) + [InField(Last(doc.opens).fs, key)]);
      && After(doc, Key(key)) == Some(d) && WellFormed(d) && StateOf(d) == FIELD
      && StackOf(d) == Suspensions(Init(doc.opens)) + [Suspended(Last(doc.opens))]
      && DocTokens(d) == DocTokens(doc) + Comma(Last(doc.opens).fs != []) + [STRING(key), COLON]
  {
    hide Fields, DocTokens, Outer;
    var os, o := Init(doc.opens), InField(Last(doc.opens).fs, key);
    assert Init(os + [o]) == os && Last(os + [o]) == o;
    KeyTokens(doc, key);
  }

  lemma {:induction false} KeyTokens(doc: Doc, key: Chars)
    requires doc.Within? && doc.opens != [] && Last(doc.opens).InObject?
    ensures DocTokens(Within(Init(doc.opens) + [InField(Last(doc.opens).fs, key)]))
         == DocTokens(doc) + Comma(Last(doc.opens).fs != []) + [STRING(key), COLON]
  {
    hide Fields, Outer;
    var os, fs := Init(doc.opens), Last(doc.opens).fs;
    OuterSnoc(os, InField(fs, key));
    var a, b, c, d := Outer(os), [LBRACE] + Fields(fs), Comma(fs != []), [STRING(key), COLON];
    assert a + (b + c + d) == a + b + c + d;
  }

  /** The innermost container is closed. */
  lemma {:induction false} Closing(doc: Doc)
    requires WellFormed(doc) && doc.Within? && !Last(doc.opens).InField?
    ensures StackOf(doc) == Suspensions(Init(doc.opens)) && Closable(doc.opens)
    ensures Init(doc.opens) != [] ==> !Last(Init(doc.opens)).InObject?
    ensures Last(doc.opens).InObject? ==>
      DocTokens(doc) + [RBRACE] == Outer(Init(doc.opens)) + Tokens(Object(Last(doc.opens).fs, false))
    ensures Last(doc.opens).InArray? ==>
      DocTokens(doc) + [RBRACK] == Outer(Init(doc.opens)) + Tokens(Array(Last(doc.opens).vs, false))
  {
    hide Fields, Items;
  }

  /** A container is opened: how the automaton moves. */
  lemma {:induction false} Begun(doc: Doc, call: Call, o: Open)
    requires WellFormed(doc) && StateOf(doc) != END && !IsObject(StateOf(doc))
    requires (call.BeginMap? && o == InObject([])) || (call.BeginList? && o == InArray([]) && StateOf(doc) != BEGIN)
    ensures var s, d := StateOf(doc), Within(Opens(doc) + [o]);
      && After(doc, call) == Some(d) && WellFormed(d) && StateOf(d) == (if o.InObject? then OBJECT else ARRAY)
      && StackOf(d) == (if IsArray(s) then StackOf(doc) + [s] else StackOf(doc))
      && DocTokens(d)
         == DocTokens(doc) + Comma(s == IN_ARRAY || s == IN_OBJECT) + [if o.InObject? then LBRACE else LBRACK]
  {
    hide DocTokens, Outer, StackOf, StateOf, Suspensions, Suspended, WellFormed, Expects;
    ReadyForValue(doc);
    assert [] + [o] == [o];
    AfterWellFormed(doc, call);
    Opened(Opens(doc), o);
    if Opens(doc) != [] {
      SuspensionsSnoc(Opens(doc));
    } else {
      NoSuspensions();
    }
  }

  lemma {:induction false} NoField(o: Open)
    ensures Next(Suspended(o)) != FIELD
  {
  }

  lemma {:induction false} NoSuspensions()
    ensures Suspensions([]) == []
  {
  }

  /** The innermost container is closed: how the automaton moves. */
  lemma {:induction false} Ended(doc: Doc, call: Call)
    requires WellFormed(doc)
    requires (call.EndMap? && IsObject(StateOf(doc))) || (call.EndList? && IsArray(StateOf(doc)))
    ensures call.EndList? ==> StackOf(doc) != []
    ensures After(doc, call).Some?
    ensures var d, stack := After(doc, call).value, StackOf(doc);
      && WellFormed(d) && StateOf(d) == (if stack == [] then END else Next(stack[|stack| - 1])) && StateOf(d) != FIELD
      && StackOf(d) == (if stack == [] then [] else stack[..|stack| - 1])
      && DocTokens(d) == DocTokens(doc) + [if call.EndMap? then RBRACE else RBRACK]
  {
    hide DocTokens, Outer, StackOf, StateOf, Suspensions, Suspended, Tokens, Complete, WellFormed;
    if call.EndMap? {
      InsideObject(doc);
    } else {
      ReadyForValue(doc);
      InsideArray(doc);
    }
    Closing(doc);
    AfterWellFormed(doc, call);
    var o := Last(doc.opens);
    Completed(Init(doc.opens), if o.InObject? then Object(o.fs, false) else Array(o.vs, false));
    if Init(doc.opens) != [] {
      SuspensionsSnoc(Init(doc.opens));
      NoField(Last(Init(doc.opens)));
    } else {
      NoSuspensions();
    }
  }

  /** An integer is written: how the automaton moves. */
  lemma {:induction false} IntWritten(doc: Doc, x: int)
    requires WellFormed(doc) && StateOf(doc) != END && !IsObject(StateOf(doc))
    ensures var s, stack, d := StateOf(doc), StackOf(doc), Complete(Opens(doc), Int(x));
      && After(doc, Call.WriteInt(x)) == Some(d) && WellFormed(d) && (s == FIELD ==> stack != [])
      && StateOf(d) == (match s case BEGIN => END case FIELD => IN_OBJECT case _ => IN_ARRAY)
      && StackOf(d) == (if s == FIELD then stack[..|stack| - 1] else stack)
      && DocTokens(d) == DocTokens(doc) + Comma(s == IN_ARRAY || s == IN_OBJECT) + [INT(x)]
  {
    hide DocTokens, Outer, StackOf, StateOf, Suspensions, Suspended, Tokens, After, Complete, WellFormed, Expects;
    LeafTokens(Int(x));
    ReadyForValue(doc);
    IntegerAnywhere(doc, x);
    AfterWellFormed(doc, Call.WriteInt(x));
    Completed(Opens(doc), Int(x));
    if Opens(doc) != [] {
      SuspensionsSnoc(Opens(doc));
      NextOfSuspended(Last(Opens(doc)));
    }
  }

  ghost function Blanks(n: nat, s: string): (ps: seq<Piece>)
    ensures |ps| == n && forall i :: 0 <= i < n ==> ps[i] == Blank(s)
  {
    seq(n, i => Blank(s))
  }

  lemma {:induction false} LeadThenLine(out: seq<Piece>, lead: seq<Piece>, line: seq<Piece>)
    ensures out + lead + line == out + (lead + line)
    ensures out + [] == out && out + lead + [] == out + lead && [] + line == line
  {
  }

  lemma {:induction false} LineIsBlank()
    ensures IsBlank("\n")
  {
  }

  lemma {:induction false} NoBlanks(start: seq<Piece>, s: string)
    ensures start + ([Blank("\n")] + Blanks(0, s)) == start + [Blank("\n")]
  {
    assert Blanks(0, s) == [];
  }

  lemma {:induction false} MoreBlanks(start: seq<Piece>, n: nat, s: string)
    ensures start + ([Blank("\n")] + Blanks(n + 1, s)) == start + ([Blank("\n")] + Blanks(n, s)) + [Blank(s)]
  {
    assert Blanks(n + 1, s) == Blanks(n, s) + [Blank(s)];
  }

  ghost function Lead(comma: bool): seq<Piece> { if comma then [Tok(COMMA)] else [] }

  class Saver {
    var state: State
    var stack: seq<State>
    var readable: bool
    var indent: string
    var out: seq<Piece>
    ghost var doc: Doc

    ghost predicate Valid()
      reads this
    {
      && WellFormed(doc) && state == StateOf(doc) && stack == StackOf(doc)
      && Bare(out) == DocTokens(doc)
      && BlanksOnly(out) && IsBlank(indent)
    }

    /** The indentation must be made of JSON blanks, as the documentation asks. */
    constructor (readable: bool, indent: string)
      requires IsBlank(indent)
      ensures Valid() && doc == Start && out == []
    {
      state, stack := BEGIN, [];
      this.readable, this.indent := readable, indent;
      out, doc := [], Start;
    }

    method Emit(t: Token)
      modifies `out
      ensures Bare(out) == Bare(old(out)) + [t] && (old(BlanksOnly(out)) ==> BlanksOnly(out))
      ensures out == old(out) + [Tok(t)]
    {
      hide Bare, BlanksOnly;
      BareSnoc(out, Tok(t));
      out := out + [Tok(t)];
    }

    method EmitBlank(s: string)
      requires IsBlank(s)
      modifies `out
      ensures Bare(out) == Bare(old(out)) && (old(BlanksOnly(out)) ==> BlanksOnly(out))
      ensures out == old(out) + [Blank(s)]
    {
      hide Bare, BlanksOnly;
      BareSnoc(out, Blank(s));
      out := out + [Blank(s)];
    }

    /** A comma after a previous item; then, in readable mode and unless a field waits for its value, a
        new line indented once for each enclosing container.  In compact mode nothing blank is written. */
    method DoIndent(close: bool)
      requires IsBlank(indent)
      modifies `out
      ensures Bare(out) == Bare(old(out)) + Comma(!close && (state == IN_ARRAY || state == IN_OBJECT))
      ensures old(BlanksOnly(out)) ==> BlanksOnly(out)
      ensures out == old(out) + if close then NewLine() else Before()
    {
      hide Bare, BlanksOnly, IsBlank, Blanks;
      LeadThenLine(out, Lead(!close && (state == IN_ARRAY || state == IN_OBJECT)), NewLine());
      if !close && (state == IN_ARRAY || state == IN_OBJECT) {
        Emit(COMMA);
      }
      if readable && state != FIELD {
        StartLine();
      }
    }

    method StartLine()
      requires IsBlank(indent)
      modifies `out
      ensures Bare(out) == Bare(old(out)) && (old(BlanksOnly(out)) ==> BlanksOnly(out))
      ensures out == old(out) + ([Blank("\n")] + Blanks(|stack|, indent))
    {
      hide Bare, BlanksOnly, IsBlank, Blanks;
      LineIsBlank();
      ghost var start := out;
      EmitBlank("\n");
      NoBlanks(start, indent);
      for i := 0 to |stack|
        invariant Bare(out) == Bare(start) && (BlanksOnly(start) ==> BlanksOnly(out))
        invariant out == start + ([Blank("\n")] + Blanks(i, indent))
      {
        MoreBlanks(start, i, indent);
        EmitBlank(indent);
      }
    }

    /** What is written before a key or a value. */
    ghost function Before(): seq<Piece>
      reads `readable, `state, `stack, `indent
    {
      Lead(state == IN_ARRAY || state == IN_OBJECT) + NewLine()
    }

    ghost function NewLine(): seq<Piece>
      reads `readable, `state, `stack, `indent
    {
      if readable && state != FIELD then [Blank("\n")] + Blanks(|stack|, indent) else []
    }

    method BeginMap()
      requires Valid() && state != END && !IsObject(state)
      modifies this
      ensures Valid() && After(old(doc), Call.BeginMap) == Some(doc)
      ensures readable == old(readable) && indent == old(indent) && out == old(out + Before()) + [Tok(LBRACE)]
    {
      hide DocTokens, Outer, StackOf, StateOf, Suspensions, Suspended, Bare, BlanksOnly, IsBlank, Tokens,
        After, Complete, WellFormed, Expects, Before, NewLine;
      Begun(doc, Call.BeginMap, InObject([]));
      DoIndent(false);
      Emit(LBRACE);
      if IsArray(state) {
        stack := stack + [state];
      }
      state := OBJECT;
      doc := Within(Opens(doc) + [InObject([])]);
    }

    method EndMap()
      requires Valid() && IsObject(state)
      modifies this
      ensures Valid() && After(old(doc), Call.EndMap) == Some(doc)
      ensures readable == old(readable) && indent == old(indent) && out == old(out) + NewLine() + [Tok(RBRACE)]
    {
      hide DocTokens, Outer, StackOf, StateOf, Suspensions, Suspended, Bare, BlanksOnly, IsBlank, Tokens,
        After, Complete, WellFormed, Expects, Before, NewLine;
      InsideObject(doc);
      Ended(doc, Call.EndMap);
      if stack == [] {
        state := END;
      } else {
        state := Next(stack[|stack| - 1]);
        stack := stack[..|stack| - 1];
      }
      DoIndent(true);
      Emit(RBRACE);
      doc := After(doc, Call.EndMap).value;
    }

    method BeginList()
      requires Valid() && state != END && (state == FIELD || IsArray(state))
      modifies this
      ensures Valid() && After(old(doc), Call.BeginList) == Some(doc)
      ensures readable == old(readable) && indent == old(indent) && out == old(out + Before()) + [Tok(LBRACK)]
    {
      hide DocTokens, Outer, StackOf, StateOf, Suspensions, Suspended, Bare, BlanksOnly, IsBlank, Tokens,
        After, Complete, WellFormed, Expects, Before, NewLine;
      Begun(doc, Call.BeginList, InArray([]));
      DoIndent(false);
      Emit(LBRACK);
      if state != FIELD {
        stack := stack + [state];
      }
      state := ARRAY;
      doc := Within(Opens(doc) + [InArray([])]);
    }

    method EndList()
      requires Valid() && IsArray(state)
      modifies this
      ensures Valid() && After(old(doc), Call.EndList) == Some(doc)
      ensures readable == old(readable) && indent == old(indent) && out == old(out) + NewLine() + [Tok(RBRACK)]
    {
      hide DocTokens, Outer, StackOf, StateOf, Suspensions, Suspended, Bare, BlanksOnly, IsBlank, Tokens,
        After, Complete, WellFormed, Expects, Before;
      Ended(doc, Call.EndList);
      var new_state := Next(stack[|stack| - 1]);
      stack := stack[..|stack| - 1];
      state := ARRAY;
      DoIndent(true);
      Emit(RBRACK);
      state := new_state;
      doc := After(doc, Call.EndList).value;
    }

    method Key(id: Chars)
      requires Valid() && IsObject(state)
      modifies this
      ensures Valid() && After(old(doc), Call.Key(id)) == Some(doc)
      ensures readable == old(readable) && indent == old(indent)
      ensures out == old(out + Before()) + [Tok(STRING(id)), Tok(COLON)] + if readable then [Blank(" ")] else []
    {
      hide DocTokens, Outer, StackOf, StateOf, Suspensions, Suspended, Bare, BlanksOnly, IsBlank, Tokens,
        After, Complete, WellFormed, Expects, Before, NewLine;
      InsideObject(doc);
      Keyed(doc, id);
      DoIndent(false);
      Emit(STRING(id));
      Emit(COLON);
      if readable {
        SpaceIsBlank();
        EmitBlank(" ");
      }
      stack := stack + [state];
      state := FIELD;
      doc := After(doc, Call.Key(id)).value;
    }

    /** What `put(void)` and the `write` functions of booleans and strings do, with the token to write. */
    method Put(t: Token, ghost v: Value, ghost call: Call)
      requires Valid() && (state == FIELD || IsArray(state))
      requires Tokens(v) == [t]
      requires Expects(doc) ==> After(doc, call) == Some(Complete(doc.opens, v))
      modifies this
      ensures Valid() && After(old(doc), call) == Some(doc)
      ensures readable == old(readable) && indent == old(indent) && out == old(out + Before()) + [Tok(t)]
    {
      hide DocTokens, Outer, StackOf, StateOf, Suspensions, Suspended, Bare, BlanksOnly, IsBlank, Tokens,
        After, Complete, WellFormed, Expects, Before, NewLine;
      LeafWritten(doc, v);
      AfterWellFormed(doc, call);
      DoIndent(false);
      Emit(t);
      if state == FIELD {
        state := stack[|stack| - 1];
        stack := stack[..|stack| - 1];
      }
      state := Next(state);
      doc := Complete(Opens(doc), v);
    }

    method PutNull()
      requires Valid() && (state == FIELD || IsArray(state))
      modifies this
      ensures Valid() && After(old(doc), Call.PutNull) == Some(doc)
      ensures readable == old(readable) && indent == old(indent) && out == old(out + Before()) + [Tok(NULL_TOKEN)]
    {
      hide Valid, Complete;
      LeafTokens(Null);
      Put(NULL_TOKEN, Null, Call.PutNull);
    }

    method WriteBool(val: bool)
      requires Valid() && (state == FIELD || IsArray(state))
      modifies this
      ensures Valid() && After(old(doc), Call.WriteBool(val)) == Some(doc)
      ensures readable == old(readable) && indent == old(indent)
      ensures out == old(out + Before()) + [Tok(if val then TRUE else FALSE)]
    {
      hide Valid, Complete;
      LeafTokens(Bool(val));
      Put(if val then TRUE else FALSE, Bool(val), Call.WriteBool(val));
    }

    method WriteString(val: Chars)
      requires Valid() && (state == FIELD || IsArray(state))
      modifies this
      ensures Valid() && After(old(doc), Call.WriteString(val)) == Some(doc)
      ensures readable == old(readable) && indent == old(indent) && out == old(out + Before()) + [Tok(STRING(val))]
    {
      hide Valid, Complete;
      LeafTokens(Str(val));
      Put(STRING(val), Str(val), Call.WriteString(val));
    }

    /** The state once a value of a number type has been announced. */
    method NextByValue()
      requires state != OBJECT && state != IN_OBJECT && state != END && (state == FIELD ==> stack != [])
      modifies `state, `stack
      ensures state == (match old(state)
                        case BEGIN => END
                        case FIELD => IN_OBJECT
                        case _ => IN_ARRAY)
      ensures stack == if old(state) == FIELD then old(stack)[..|old(stack)| - 1] else old(stack)
    {
      match state
      case BEGIN => state := END;
      case FIELD => stack := stack[..|stack| - 1]; state := IN_OBJECT;
      case ARRAY => state := IN_ARRAY;
      case IN_ARRAY =>
    }

    method WriteInt(x: int)
      requires Valid() && state != OBJECT && state != IN_OBJECT && state != END
      modifies this
      ensures Valid() && After(old(doc), Call.WriteInt(x)) == Some(doc)
      ensures readable == old(readable) && indent == old(indent) && out == old(out + Before()) + [Tok(INT(x))]
    {
      hide DocTokens, Outer, StackOf, StateOf, Suspensions, Suspended, Bare, BlanksOnly, IsBlank, Tokens,
        After, Complete, WellFormed, Expects, Before, NewLine;
      IntWritten(doc, x);
      DoIndent(false);
      NextByValue();
      Emit(INT(x));
      doc := After(doc, Call.WriteInt(x)).value;
    }
  }

  /** Unlike the other leaves, an integer may be the whole text. */
  lemma {:induction false} IntegerAnywhere(doc: Doc, x: int)
    requires doc.Start? || Expects(doc)
    ensures (Opens(doc) != [] ==> !Last(Opens(doc)).InObject?)
        && After(doc, Call.WriteInt(x)) == Some(Complete(Opens(doc), Int(x)))
  {
  }

  lemma {:induction false} LeafTokens(v: Value)
    ensures v.Null? ==> Tokens(v) == [NULL_TOKEN]
    ensures v.Bool? ==> Tokens(v) == [if v.b then TRUE else FALSE]
    ensures v.Int? ==> Tokens(v) == [INT(v.n)]
    ensures v.Str? ==> Tokens(v) == [STRING(v.s)]
  {
  }

  lemma {:induction false} NextOfSuspended(o: Open)
    ensures Next(Suspended(o)) == if o.InArray? then IN_ARRAY else IN_OBJECT
  {
  }

  lemma {:induction false} SpaceIsBlank()
    ensures IsBlank(" ")
  {
  }
}
