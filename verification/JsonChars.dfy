/** The characters of a saved text, and a reference reader that splits characters into tokens (RFC 8259,
    sections 2, 3, 6 and 7). */
module JsonChars {
  import opened Common
  import opened JsonText
  import opened JsonGrammar
  import opened JsonDoc
  import opened JsonSaver
  import opened JsonRuns
  import opened JsonCommas
  import opened IntegerText
  import opened JsonEscape
  import IO = IntegerIO

  // ------------------------------------------------------------ what is written

  const NULL_TEXT := [110, 117, 108, 108]
  const TRUE_TEXT := [116, 114, 117, 101]
  const FALSE_TEXT := [102, 97, 108, 115, 101]

  ghost function TokenText(t: Token): (s: seq<Code>)
    ensures s != []
  {
    match t
    case LBRACE => [123]
    case RBRACE => [125]
    case LBRACK => [91]
    case RBRACK => [93]
    case COMMA => [44]
    case COLON => [58]
    case NULL_TOKEN => NULL_TEXT
    case TRUE => TRUE_TEXT
    case FALSE => FALSE_TEXT
    case INT(n) => SignedIsText(n); IO.SignedText(n)
    case STRING(s) => [QUOTE] + EscapedAll(s) + [QUOTE]
  }

  /** The characters of tokens, of escapes, and of blanks, as such. */
  lemma {:induction false} TokenCharacters()
    ensures TokenText(LBRACE) == CodesOf("{") && TokenText(RBRACE) == CodesOf("}")
    ensures TokenText(LBRACK) == CodesOf("[") && TokenText(RBRACK) == CodesOf("]")
    ensures TokenText(COMMA) == CodesOf(",") && TokenText(COLON) == CodesOf(":")
    ensures TokenText(NULL_TOKEN) == CodesOf("null") && TokenText(TRUE) == CodesOf("true")
    ensures TokenText(FALSE) == CodesOf("false")
    ensures [QUOTE] == CodesOf("\"") && [BACKSLASH, LETTER_U] == CodesOf("\\u")
    ensures forall s :: TokenText(STRING(s)) == CodesOf("\"") + EscapedAll(s) + CodesOf("\"")
    ensures forall n :: TokenText(INT(n)) == IO.SignedText(n)
  {
    hide EscapedAll, Text;
    assert CodesOf("\"") == [QUOTE];
    forall n ensures TokenText(INT(n)) == IO.SignedText(n) {
      SignedIsText(n);
    }
  }

  lemma {:induction false} EscapeCharacters()
    ensures Escaped(34) == CodesOf("\\\"") && Escaped(92) == CodesOf("\\\\")
    ensures Escaped(8) == CodesOf("\\b") && Escaped(12) == CodesOf("\\f") && Escaped(10) == CodesOf("\\n")
    ensures Escaped(13) == CodesOf("\\r") && Escaped(9) == CodesOf("\\t")
    ensures Escaped(0xbeef) == CodesOf("\\ubeef") && ShortMeaning('/' as int) == Some('/' as int)
  {
    TextExamples();
    assert Hex(0xbeef) == [] + CodesOf("beef");
    assert CodesOf("\\ubeef") == CodesOf("\\u") + CodesOf("beef");
  }

  lemma {:induction false} SignedIsText(n: int)
    ensures IO.SignedText(n) != []
  {
    TextIsRead(if n < 0 then -n else n, 10, LOWER);
  }

  /** The characters of an output. */
  ghost function Written(out: seq<Piece>): seq<Code> {
    if out == [] then []
    else (match out[0] case Tok(t) => TokenText(t) case Blank(s) => CodesOf(s)) + Written(out[1..])
  }

  // ---------------------------------------------------------------- the reader

  predicate IsBlankCode(c: Code) {
    c == 32 || c == 9 || c == 10 || c == 13
  }

  lemma {:induction false} BlanksAre(c: Code)
    ensures IsBlankCode(c) <==> c in CodesOf(" \t\n\r")
  {
    var b := CodesOf(" \t\n\r");
    assert b[0] == 32 && b[1] == 9 && b[2] == 10 && b[3] == 13;
  }

  predicate IsDigit(c: Code) {
    ZERO <= c <= ZERO + 9
  }

  /** How many digits the text begins with. */
  function DigitCount(s: seq<Code>): (k: nat)
    ensures k <= |s|
  {
    if s == [] || !IsDigit(s[0]) then 0 else 1 + DigitCount(s[1..])
  }

  /** The length of the content of a string, up to its closing quote. */
  function ContentLength(s: seq<Code>): (k: Option<nat>)
    ensures k.Some? ==> k.value < |s|
  {
    if s == [] then None
    else if s[0] == QUOTE then Some(0)
    else if s[0] != BACKSLASH then Longer(1, ContentLength(s[1..]))
    else if |s| >= 2 then Longer(2, ContentLength(s[2..]))
    else None
  }

  function Longer(n: nat, k: Option<nat>): Option<nat> {
    if k.None? then None else Some(n + k.value)
  }

  datatype Lexed = NoToken | Lexed(token: Token, rest: seq<Code>)

  /** A number without a sign; a leading zero stands alone. */
  ghost function LexNumber(s: seq<Code>, sign: int): Lexed {
    var k := DigitCount(s);
    if k == 0 || (k > 1 && s[0] == ZERO) then NoToken else Lexed(INT(sign * ValueFrom(0, s[..k], 10)), s[k..])
  }

  ghost function LexString(s: seq<Code>): Lexed {
    match ContentLength(s)
    case None => NoToken
    case Some(k) => if Meaning(s[..k]).None? then NoToken else Lexed(STRING(Meaning(s[..k]).value), s[k + 1..])
  }

  function LexWord(s: seq<Code>, word: seq<Code>, t: Token): Lexed {
    if word <= s then Lexed(t, s[|word|..]) else NoToken
  }

  /** The first token of a text, and what follows it.  The content of a string is in UTF-16 units. */
  ghost function Lex(s: seq<Code>): Lexed
    requires s != []
  {
    match s[0]
    case 123 => Lexed(LBRACE, s[1..])
    case 125 => Lexed(RBRACE, s[1..])
    case 91 => Lexed(LBRACK, s[1..])
    case 93 => Lexed(RBRACK, s[1..])
    case 44 => Lexed(COMMA, s[1..])
    case 58 => Lexed(COLON, s[1..])
    case 110 => LexWord(s, NULL_TEXT, NULL_TOKEN)
    case 116 => LexWord(s, TRUE_TEXT, TRUE)
    case 102 => LexWord(s, FALSE_TEXT, FALSE)
    case 34 => LexString(s[1..])
    case 45 => LexNumber(s[1..], -1)
    case _ => LexNumber(s, 1)
  }

  lemma {:induction false} LexShrinks(s: seq<Code>)
    requires s != [] && Lex(s).Lexed?
    ensures |Lex(s).rest| < |s|
  {
    hide Meaning, ValueFrom, DigitCount, ContentLength;
  }

  /** All the tokens of a text, or None if it is not made of tokens and blanks. */
  ghost function Split(s: seq<Code>): Option<seq<Token>>
    decreases |s|
  {
    if s == [] then Some([])
    else if IsBlankCode(s[0]) then Split(s[1..])
    else
      match Lex(s)
      case NoToken => None
      case Lexed(t, rest) =>
        LexShrinks(s);
        Then(t, Split(rest))
  }

  // ----------------------------------------------------------------- one token

  /** The token that is read of a written one. */
  ghost function Reading(t: Token): Token {
    if t.STRING? && Meaning(EscapedAll(t.s)).Some? then STRING(Meaning(EscapedAll(t.s)).value) else t
  }

  ghost predicate NoDigit(s: seq<Code>) {
    s == [] || !IsDigit(s[0])
  }

  lemma {:induction false} DigitsCounted(d: seq<Code>, rest: seq<Code>)
    requires AllDigits(d, 10) && NoDigit(rest)
    ensures DigitCount(d + rest) == |d|
  {
    if d == [] {
      assert d + rest == rest;
    } else {
      assert TestBase(d[0], 10) >= 0;
      assert (d + rest)[1..] == d[1..] + rest;
      DigitsCounted(d[1..], rest);
    }
  }

  lemma {:induction false} NumberIsRead(n: nat, sign: int, rest: seq<Code>)
    requires NoDigit(rest)
    ensures LexNumber(Text(n, 10, LOWER) + rest, sign) == Lexed(INT(sign * n), rest)
    ensures Text(n, 10, LOWER) != [] && IsDigit(Text(n, 10, LOWER)[0])
  {
    hide Digits, ValueFrom, DigitCount;
    var d := Text(n, 10, LOWER);
    TextIsRead(n, 10, LOWER);
    DigitsCounted(d, rest);
    assert TestBase(d[0], 10) >= 0;
    assert (d + rest)[..|d|] == d && (d + rest)[|d|..] == rest;
    if n > 0 {
      NoLeadingZero(n, 10, LOWER);
    }
  }

  /** Characters that neither end a string nor escape the next one. */
  lemma {:induction false} PlainSkipped(d: seq<Code>, u: seq<Code>)
    requires HexDigits(d)
    ensures ContentLength(d + u) == Longer(|d|, ContentLength(u))
  {
    if d == [] {
      assert d + u == u;
    } else {
      assert TestBase(d[0], 16) >= 0;
      assert (d + u)[1..] == d[1..] + u;
      PlainSkipped(d[1..], u);
    }
  }

  lemma {:induction false} EscapedSkipped(c: nat, u: seq<Code>)
    ensures ContentLength(Escaped(c) + u) == Longer(|Escaped(c)|, ContentLength(u))
  {
    hide Hex;
    var s := Escaped(c) + u;
    if ShortEscape(c).Some? {
      assert s[2..] == u;
    } else if 32 <= c < 128 {
      assert s[1..] == u;
    } else {
      HexSkipped(c, u);
    }
  }

  lemma {:induction false} HexSkipped(c: nat, u: seq<Code>)
    ensures ContentLength([BACKSLASH, LETTER_U] + Hex(c) + u) == Longer(2 + |Hex(c)|, ContentLength(u))
  {
    hide Hex;
    var s := [BACKSLASH, LETTER_U] + Hex(c) + u;
    HexIs(c);
    PlainSkipped(Hex(c), u);
    assert s[2..] == Hex(c) + u;
  }

  lemma {:induction false} ContentSkipped(s: seq<nat>, u: seq<Code>)
    ensures ContentLength(EscapedAll(s) + u) == Longer(|EscapedAll(s)|, ContentLength(u))
  {
    hide Escaped, ContentLength;
    if s == [] {
      assert EscapedAll(s) + u == u;
    } else {
      ContentSkipped(s[1..], u);
      EscapedSkipped(s[0], EscapedAll(s[1..]) + u);
      assert EscapedAll(s) + u == Escaped(s[0]) + (EscapedAll(s[1..]) + u);
    }
  }

  lemma {:induction false} StringIsRead(s: seq<nat>, rest: seq<Code>)
    ensures Meaning(EscapedAll(s)).Some?
    ensures LexString(EscapedAll(s) + [QUOTE] + rest) == Lexed(STRING(Meaning(EscapedAll(s)).value), rest)
  {
    hide EscapedAll, Meaning;
    EscapingIsFaithful(s);
    var e, u := EscapedAll(s), [QUOTE] + rest;
    ContentSkipped(s, u);
    assert e + [QUOTE] + rest == e + u;
    assert (e + u)[..|e|] == e && (e + u)[|e| + 1..] == rest;
  }

  lemma {:induction false} SignedIsRead(n: int, rest: seq<Code>)
    requires NoDigit(rest)
    ensures var s := IO.SignedText(n) + rest; !IsBlankCode(s[0]) && Lex(s) == Lexed(INT(n), rest)
  {
    hide Text, LexNumber, LexString;
    var s := IO.SignedText(n) + rest;
    if n < 0 {
      NumberIsRead(-n, -1, rest);
      assert s[1..] == Text(-n, 10, LOWER) + rest;
    } else {
      NumberIsRead(n, 1, rest);
      assert s == Text(n, 10, LOWER) + rest && s[0] == Text(n, 10, LOWER)[0];
    }
  }

  lemma {:induction false} SignIsRead(t: Token, rest: seq<Code>)
    requires !t.INT? && !t.STRING?
    ensures var s := TokenText(t) + rest; !IsBlankCode(s[0]) && Lex(s) == Lexed(t, rest)
  {
    hide LexNumber, LexString;
    var s := TokenText(t) + rest;
    assert s[|TokenText(t)|..] == rest && TokenText(t) <= s;
  }

  /** A written token is read, whatever follows; after a number, no digit may follow. */
  lemma {:induction false} TokenIsRead(t: Token, rest: seq<Code>)
    requires t.INT? ==> NoDigit(rest)
    ensures var s := TokenText(t) + rest; !IsBlankCode(s[0]) && Lex(s) == Lexed(Reading(t), rest)
  {
    hide Text, EscapedAll, Meaning, LexNumber, LexString, NoDigit, LexWord;
    if t.STRING? {
      StringIsRead(t.s, rest);
      assert (TokenText(t) + rest)[1..] == EscapedAll(t.s) + [QUOTE] + rest;
    } else if t.INT? {
      SignedIsRead(t.n, rest);
    } else {
      SignIsRead(t, rest);
    }
  }

  // ------------------------------------------------------------- whole outputs

  ghost function Readings(ts: seq<Token>): (rs: seq<Token>)
    ensures |rs| == |ts| && forall i :: 0 <= i < |ts| ==> rs[i] == Reading(ts[i])
  {
    seq(|ts|, i requires 0 <= i < |ts| => Reading(ts[i]))
  }

  /** No number directly follows another one. */
  ghost predicate Spaced(ts: seq<Token>) {
    forall i, k :: 0 <= i < k < |ts| && k == i + 1 && ts[i].INT? ==> !ts[k].INT?
  }

  lemma {:induction false} BareCons(out: seq<Piece>)
    requires out != []
    ensures Bare(out) == (match out[0] case Tok(t) => [t] case Blank(_) => []) + Bare(out[1..])
  {
    if |out| > 1 {
      var init, p := out[..|out| - 1], out[|out| - 1];
      BareCons(init);
      assert init[1..] == out[1..][..|out| - 2] && out[1..][|out| - 2] == p;
    } else {
      assert out[..0] == [] && out[1..] == [];
    }
  }

  lemma {:induction false} BlanksSkipped(s: string, u: seq<Code>)
    requires IsBlank(s)
    ensures Split(CodesOf(s) + u) == Split(u)
  {
    hide Lex;
    if s == [] {
      assert CodesOf(s) + u == u;
    } else {
      assert (CodesOf(s) + u)[1..] == CodesOf(s[1..]) + u;
      assert s[0] in {' ', '\t', '\n', '\r'};
      BlanksSkipped(s[1..], u);
    }
  }

  /** What follows a number does not begin with a digit. */
  lemma {:induction false} NoDigitFollows(out: seq<Piece>)
    requires BlanksOnly(out) && (Bare(out) != [] ==> !Bare(out)[0].INT?)
    ensures NoDigit(Written(out))
  {
    hide Bare, EscapedAll;
    if out != [] {
      BareCons(out);
      match out[0] {
        case Tok(t) =>
          FirstNoDigit(t);
        case Blank(s) =>
          NoDigitFollows(out[1..]);
          assert IsBlank(s);
          assert s != [] ==> s[0] in {' ', '\t', '\n', '\r'};
          assert s == [] ==> Written(out) == Written(out[1..]);
      }
    }
  }

  lemma {:induction false} FirstNoDigit(t: Token)
    requires !t.INT?
    ensures !IsDigit(TokenText(t)[0])
  {
    hide EscapedAll;
  }

  lemma {:induction false} SpacedRest(t: Token, ts: seq<Token>)
    requires Spaced([t] + ts)
    ensures Spaced(ts) && (t.INT? && ts != [] ==> !ts[0].INT?)
  {
    var all := [t] + ts;
    assert ts != [] ==> all[0] == t && all[1] == ts[0];
    forall i, k | 0 <= i < k < |ts| && k == i + 1 && ts[i].INT? ensures !ts[k].INT? {
      assert all[i + 1] == ts[i] && all[k + 1] == ts[k];
    }
  }

  /** An output splits back into the readings of its tokens. */
  lemma {:induction false} OutputIsSplit(out: seq<Piece>)
    requires BlanksOnly(out) && Spaced(Bare(out))
    ensures Split(Written(out)) == Some(Readings(Bare(out)))
  {
    hide Bare, Lex, TokenText, Spaced, Reading, CodesOf;
    if out == [] {
      NoPieces();
    } else {
      var rest := out[1..];
      BareCons(out);
      match out[0] {
        case Tok(t) =>
          SpacedRest(t, Bare(rest));
          OutputIsSplit(rest);
          if t.INT? {
            NoDigitFollows(rest);
          }
          TokenIsRead(t, Written(rest));
          assert Readings([t] + Bare(rest)) == [Reading(t)] + Readings(Bare(rest));
        case Blank(s) =>
          assert [] + Bare(rest) == Bare(rest);
          OutputIsSplit(rest);
          BlanksSkipped(s, Written(rest));
      }
    }
  }

  lemma {:induction false} NoPieces()
    ensures Bare([]) == [] && Written([]) == [] && Split([]) == Some([]) && Readings([]) == []
  {
  }

  // -------------------------------------------------------------- whole values

  lemma {:induction false} SpacedConcat(a: seq<Token>, b: seq<Token>)
    requires a != [] && b != []
    ensures Spaced(a + b) <==> Spaced(a) && Spaced(b) && !(a[|a| - 1].INT? && b[0].INT?)
  {
    var ts := a + b;
    if Spaced(ts) {
      forall i, k | 0 <= i < k < |a| && k == i + 1 && a[i].INT? ensures !a[k].INT? {
        assert ts[i] == a[i] && ts[k] == a[k];
      }
      forall i, k | 0 <= i < k < |b| && k == i + 1 && b[i].INT? ensures !b[k].INT? {
        assert ts[|a| + i] == b[i] && ts[|a| + k] == b[k];
      }
      assert ts[|a| - 1] == a[|a| - 1] && ts[|a|] == b[0];
    }
  }

  lemma {:induction false} SpacedOne(t: Token)
    ensures Spaced([t]) && Spaced([])
  {
  }

  /** Some tokens between two that are no numbers. */
  lemma {:induction false} SpacedBetween(a: Token, ts: seq<Token>, b: Token)
    requires Spaced(ts) && !a.INT? && !b.INT?
    ensures Spaced([a] + ts + [b])
  {
    hide Spaced;
    SpacedOne(a);
    SpacedOne(b);
    if ts != [] {
      SpacedConcat([a], ts);
      SpacedConcat([a] + ts, [b]);
    } else {
      SpacedConcat([a], [b]);
      assert [a] + ts + [b] == [a] + [b];
    }
  }

  lemma {:induction false} SpacedComma(a: seq<Token>, b: seq<Token>)
    requires a != [] && Spaced(a) && Spaced(b)
    ensures Spaced(a + [COMMA] + b)
  {
    hide Spaced;
    SpacedOne(COMMA);
    SpacedConcat(a, [COMMA]);
    if b != [] {
      SpacedConcat(a + [COMMA], b);
    } else {
      assert a + [COMMA] + b == a + [COMMA];
    }
  }

  lemma {:induction false} ValueSpaced(v: Value)
    requires Canonical(v)
    ensures Spaced(Tokens(v))
    decreases v, 1
  {
    hide Items, Fields, Spaced, Comma, CanonicalItems, CanonicalFields, Tokens;
    ContainerTokens(v);
    match v
    case Array(vs, tr) =>
      ItemsSpaced(vs);
      BracketsSpaced(LBRACK, Items(vs), tr, RBRACK);
    case Object(fs, tr) =>
      FieldsSpaced(fs);
      BracketsSpaced(LBRACE, Fields(fs), tr, RBRACE);
    case _ =>
      LeafSpaced(v);
  }

  lemma {:induction false} LeafSpaced(v: Value)
    requires !v.Array? && !v.Object?
    ensures Spaced(Tokens(v))
  {
    hide Spaced;
    SpacedOne(Tokens(v)[0]);
  }

  lemma {:induction false} BracketsSpaced(a: Token, ts: seq<Token>, comma: bool, b: Token)
    requires Spaced(ts) && !a.INT? && !b.INT?
    ensures Spaced([a] + (ts + Comma(comma) + [b]))
  {
    hide Spaced, Comma;
    ListSpaced(ts, comma);
    SpacedBetween(a, ts + Comma(comma), b);
    assert [a] + (ts + Comma(comma)) + [b] == [a] + (ts + Comma(comma) + [b]);
  }

  lemma {:induction false} ListSpaced(ts: seq<Token>, comma: bool)
    requires Spaced(ts)
    ensures Spaced(ts + Comma(comma))
  {
    hide Spaced;
    SpacedOne(COMMA);
    if comma && ts != [] {
      SpacedConcat(ts, [COMMA]);
    } else if comma {
      assert ts + [COMMA] == [COMMA];
    } else {
      assert ts + [] == ts;
    }
  }

  lemma {:induction false} ItemsSpaced(vs: seq<Value>)
    requires CanonicalItems(vs)
    ensures Spaced(Items(vs))
    decreases vs, 0
  {
    hide Tokens, Canonical, Spaced;
    SpacedOne(COMMA);
    if vs != [] {
      ValueSpaced(vs[0]);
      ItemsSpaced(vs[1..]);
      if |vs| > 1 {
        SpacedComma(Tokens(vs[0]), Items(vs[1..]));
      }
    }
  }

  lemma {:induction false} FieldSpaced(f: Field)
    requires Canonical(f.value)
    ensures FieldTokens(f) != [] && Spaced(FieldTokens(f))
    decreases f, 0
  {
    hide Tokens, Canonical, Spaced;
    ValueSpaced(f.value);
    SpacedOne(STRING(f.key));
    SpacedOne(COLON);
    SpacedConcat([STRING(f.key)], [COLON]);
    assert [STRING(f.key)] + [COLON] == [STRING(f.key), COLON];
    SpacedConcat([STRING(f.key), COLON], Tokens(f.value));
  }

  lemma {:induction false} FieldsSpaced(fs: seq<Field>)
    requires CanonicalFields(fs)
    ensures Spaced(Fields(fs))
    decreases fs, 0
  {
    hide FieldTokens, Canonical, Spaced;
    SpacedOne(COMMA);
    if fs != [] {
      FieldSpaced(fs[0]);
      FieldsSpaced(fs[1..]);
      if |fs| > 1 {
        SpacedComma(FieldTokens(fs[0]), Fields(fs[1..]));
      }
    }
  }

  /** The tokens with their strings in UTF-16. */
  ghost function Utf16Tokens(ts: seq<Token>): (us: seq<Token>)
    ensures |us| == |ts| && forall i :: 0 <= i < |ts| ==> us[i] == Utf16Token(ts[i])
  {
    seq(|ts|, i requires 0 <= i < |ts| => Utf16Token(ts[i]))
  }

  ghost function Utf16Token(t: Token): Token {
    if t.STRING? then STRING(Utf16(t.s)) else t
  }

  /** No string has a character beyond 16 bits. */
  ghost predicate ShortStrings(ts: seq<Token>) {
    forall i :: 0 <= i < |ts| && ts[i].STRING? ==> AllBelow(ts[i].s, 0x1_0000)
  }

  lemma {:induction false} ReadingIsFaithful(t: Token)
    ensures Reading(t) == Utf16Token(t) <==> (t.STRING? ==> AllBelow(t.s, 0x1_0000))
  {
    hide EscapedAll, Meaning, Utf16;
    if t.STRING? {
      EscapingIsFaithful(t.s);
    }
  }

  /** The characters of a complete text, with any blanks between its tokens, always split into tokens.
      These are the tokens of the value, with strings in UTF-16, exactly if no string has a character
      beyond 16 bits; then the parser reads the value. */
  lemma {:induction false} TextSplitsBack(out: seq<Piece>, v: Value)
    requires BlanksOnly(out) && Canonical(v) && Bare(out) == Tokens(v)
    ensures Split(Written(out)).Some?
    ensures Split(Written(out)) == Some(Utf16Tokens(Tokens(v))) <==> ShortStrings(Tokens(v))
    ensures ShortStrings(Tokens(v)) ==>
      Split(Written(out)) == Some(Tokens(v)) && ParseValue(Tokens(v), 0) == Parsed(v, |Tokens(v)|)
  {
    hide Tokens, Canonical, Written, Split, Bare, Spaced, Reading, Utf16Token, ParseValue, BlanksOnly;
    var ts := Tokens(v);
    ValueSpaced(v);
    OutputIsSplit(out);
    forall i | 0 <= i < |ts|
      ensures Readings(ts)[i] == Utf16Tokens(ts)[i] <==> (ts[i].STRING? ==> AllBelow(ts[i].s, 0x1_0000))
    {
      ReadingIsFaithful(ts[i]);
    }
    SameTokens(Readings(ts), Utf16Tokens(ts));
    assert ts[0..|ts|] == ts;
    ParsesExactly(ts, 0, v, |ts|);
    if ShortStrings(ts) {
      forall i | 0 <= i < |ts| ensures Utf16Token(ts[i]) == ts[i] {
        ShortToken(ts[i]);
      }
      assert Utf16Tokens(ts) == ts;
    }
  }

  /** Whatever calls led the `Saver` to its END. */
  lemma {:induction false} SavedTextIsRead(calls: seq<Call>, v: Value, out: seq<Piece>)
    requires Run(Start, calls) == Some(Finished(v))
    requires Bare(out) == DocTokens(Finished(v)) && BlanksOnly(out)
    ensures Split(Written(out)).Some?
    ensures Split(Written(out)) == Some(Utf16Tokens(Tokens(v))) <==> ShortStrings(Tokens(v))
    ensures ShortStrings(Tokens(v)) ==>
      Split(Written(out)) == Some(Tokens(v)) && ParseValue(Tokens(v), 0) == Parsed(v, |Tokens(v)|)
  {
    hide Run, Plain, Canonical, Tokens, ParseValue, Bare, BlanksOnly, Split, Written;
    CompleteTexts(calls, v);
    PlainIsCanonical(v);
    TextSplitsBack(out, v);
  }

  lemma {:induction false} SameTokens(a: seq<Token>, b: seq<Token>)
    requires |a| == |b|
    ensures a == b <==> forall i :: 0 <= i < |a| ==> a[i] == b[i]
  {
  }

  lemma {:induction false} ShortToken(t: Token)
    requires t.STRING? ==> AllBelow(t.s, 0x1_0000)
    ensures Utf16Token(t) == t
  {
    if t.STRING? {
      ShortIsUtf16(t.s);
    }
  }
}
