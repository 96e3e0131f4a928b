/** Whole sequences of calls to the `Saver`: which ones are accepted, and what they write. */
module JsonRuns {
  import opened Common
  import opened JsonText
  import opened JsonDoc
  import opened JsonSaver

  /** The assertion that guards each call in the code. */
  predicate Allowed(s: State, call: Call) {
    match call
    case BeginMap => s != END && !IsObject(s)
    case EndMap => IsObject(s)
    case BeginList => s != END && (s == FIELD || IsArray(s))
    case EndList => IsArray(s)
    case Key(_) => IsObject(s)
    case WriteInt(_) => s != OBJECT && s != IN_OBJECT && s != END
    case _ => s == FIELD || IsArray(s)
  }

  /** The assertions of the automaton accept exactly the calls that make sense. */
  lemma {:induction false} AcceptedExactly(doc: Doc, call: Call)
    requires WellFormed(doc)
    ensures Allowed(StateOf(doc), call) <==> After(doc, call).Some?
  {
  }

  function Run(doc: Doc, calls: seq<Call>): Option<Doc>
    decreases |calls|
  {
    if calls == [] then Some(doc)
    else match After(doc, calls[0])
         case None => None
         case Some(d) => Run(d, calls[1..])
  }

  /** Values without the parser's extension. */
  ghost predicate Plain(v: Value)
    decreases v, 1
  {
    match v
    case Array(vs, tr) => !tr && PlainItems(vs)
    case Object(fs, tr) => !tr && PlainFields(fs)
    case _ => true
  }

  ghost predicate PlainItems(vs: seq<Value>)
    decreases vs, 0
  {
    vs == [] || (Plain(vs[0]) && PlainItems(vs[1..]))
  }

  ghost predicate PlainFields(fs: seq<Field>)
    decreases fs, 0
  {
    fs == [] || (Plain(fs[0].value) && PlainFields(fs[1..]))
  }

  /** The calls that save a value. */
  ghost function CallsOf(v: Value): (cs: seq<Call>)
    ensures cs != []
    decreases v, 1
  {
    match v
    case Null => [PutNull]
    case Bool(b) => [WriteBool(b)]
    case Int(n) => [WriteInt(n)]
    case Str(s) => [WriteString(s)]
    case Array(vs, _) => [BeginList] + ItemCalls(vs) + [EndList]
    case Object(fs, _) => [BeginMap] + FieldCalls(fs) + [EndMap]
  }

  ghost function ItemCalls(vs: seq<Value>): seq<Call>
    decreases vs, 0
  {
    if vs == [] then [] else CallsOf(vs[0]) + ItemCalls(vs[1..])
  }

  ghost function FieldCalls(fs: seq<Field>): seq<Call>
    decreases fs, 0
  {
    if fs == [] then []
    else [Key(fs[0].key)] + CallsOf(fs[0].value) + FieldCalls(fs[1..])
  }

  // ------------------------------------------------------ every value is saved

  lemma {:induction false} RunConcat(doc: Doc, a: seq<Call>, b: seq<Call>)
    ensures Run(doc, a).None? ==> Run(doc, a + b).None?
    ensures Run(doc, a).Some? ==> Run(doc, a + b) == Run(Run(doc, a).value, b)
    decreases |a|
  {
    if a == [] {
      assert a + b == b;
    } else {
      assert (a + b)[1..] == a[1..] + b;
      if After(doc, a[0]).Some? {
        RunConcat(After(doc, a[0]).value, a[1..], b);
      }
    }
  }

  /** Inside a container that expects a value, the calls of a value complete it. */
  lemma {:induction false} SavesValue(os: seq<Open>, v: Value)
    requires Expects(Within(os)) && Plain(v)
    ensures Run(Within(os), CallsOf(v)) == Some(Complete(os, v))
    decreases v, 1
  {
    hide CallsOf, ItemCalls, FieldCalls, Plain, PlainItems, PlainFields;
    if v.Array? || v.Object? {
      ContainerCalls(v);
    } else {
      LeafCalls(v);
    }
    match v
    case Array(vs, _) =>
      var d := Within(os + [InArray([])]);
      SavesItems(os, [], vs);
      assert [] + vs == vs;
      RunConcat(d, ItemCalls(vs), [EndList]);
      Closes(os, InArray(vs), EndList, v);
      RunConcat(Within(os), [BeginList], ItemCalls(vs) + [EndList]);
      assert CallsOf(v) == [BeginList] + (ItemCalls(vs) + [EndList]);
      assert Run(Within(os), [BeginList]) == Some(d);
    case Object(fs, _) =>
      var d := Within(os + [InObject([])]);
      SavesFields(os, [], fs);
      assert [] + fs == fs;
      RunConcat(d, FieldCalls(fs), [EndMap]);
      Closes(os, InObject(fs), EndMap, v);
      RunConcat(Within(os), [BeginMap], FieldCalls(fs) + [EndMap]);
      assert CallsOf(v) == [BeginMap] + (FieldCalls(fs) + [EndMap]);
      assert Run(Within(os), [BeginMap]) == Some(d);
    case _ =>
  }

  lemma {:induction false} Closes(os: seq<Open>, o: Open, call: Call, v: Value)
    requires os != [] ==> !Last(os).InObject?
    requires (call == EndList && o.InArray? && v == Array(o.vs, false))
        || (call == EndMap && o.InObject? && v == Object(o.fs, false))
    ensures Run(Within(os + [o]), [call]) == Some(Complete(os, v))
  {
    assert Init(os + [o]) == os && Last(os + [o]) == o;
  }

  lemma {:induction false} SavesItems(os: seq<Open>, done: seq<Value>, vs: seq<Value>)
    requires PlainItems(vs)
    ensures Run(Within(os + [InArray(done)]), ItemCalls(vs)) == Some(Within(os + [InArray(done + vs)]))
    decreases vs, 0
  {
    if vs == [] {
      assert done + vs == done;
    } else {
      var o := InArray(done);
      assert Init(os + [o]) == os && Last(os + [o]) == o;
      SavesValue(os + [o], vs[0]);
      SavesItems(os, done + [vs[0]], vs[1..]);
      assert done + [vs[0]] + vs[1..] == done + vs;
      RunConcat(Within(os + [o]), CallsOf(vs[0]), ItemCalls(vs[1..]));
    }
  }

  lemma {:induction false} KeyIsNext(os: seq<Open>, done: seq<Field>, key: Chars)
    ensures Run(Within(os + [InObject(done)]), [Key(key)]) == Some(Within(os + [InField(done, key)]))
    ensures Expects(Within(os + [InField(done, key)]))
  {
    var o, k := InObject(done), InField(done, key);
    assert Init(os + [o]) == os && Last(os + [o]) == o && Last(os + [k]) == k;
    assert [Key(key)][1..] == [];
  }

  lemma {:induction false} KeyIsDone(os: seq<Open>, done: seq<Field>, f: Field)
    ensures Complete(os + [InField(done, f.key)], f.value) == Within(os + [InObject(done + [f])])
  {
    var k := InField(done, f.key);
    assert Init(os + [k]) == os && Last(os + [k]) == k;
  }

  lemma {:induction false} SavesFields(os: seq<Open>, done: seq<Field>, fs: seq<Field>)
    requires PlainFields(fs)
    ensures Run(Within(os + [InObject(done)]), FieldCalls(fs)) == Some(Within(os + [InObject(done + fs)]))
    decreases fs, 0
  {
    hide Plain, CallsOf, After, Complete, Expects;
    if fs == [] {
      assert done + fs == done;
    } else {
      var f := fs[0];
      var o, k := InObject(done), InField(done, f.key);
      KeyIsNext(os, done, f.key);
      KeyIsDone(os, done, f);
      SavesValue(os + [k], f.value);
      SavesFields(os, done + [f], fs[1..]);
      assert done + [f] + fs[1..] == done + fs;
      RunConcat(Within(os + [k]), CallsOf(f.value), FieldCalls(fs[1..]));
      RunConcat(Within(os + [o]), [Key(f.key)], CallsOf(f.value) + FieldCalls(fs[1..]));
      assert FieldCalls(fs) == [Key(f.key)] + (CallsOf(f.value) + FieldCalls(fs[1..]));
    }
  }

  /** From the beginning, an object or an integer is accepted as the whole text. */
  lemma {:induction false} SavesText(v: Value)
    requires Plain(v) && (v.Object? || v.Int?)
    ensures Run(Start, CallsOf(v)) == Some(Finished(v))
  {
    if v.Object? {
      SavesObject(v.fields);
      ContainerCalls(v);
      assert v == Object(v.fields, false);
    }
  }

  lemma {:induction false} SavesObject(fs: seq<Field>)
    requires PlainFields(fs)
    ensures Run(Start, [BeginMap] + FieldCalls(fs) + [EndMap]) == Some(Finished(Object(fs, false)))
  {
    hide FieldCalls, PlainFields, Run, After, Complete;
    var v, cs, o, os := Object(fs, false), FieldCalls(fs), InObject([]), InObject(fs);
    assert [] + fs == fs && [] + [o] == [o] && [] + [os] == [os];
    SavesFields([], [], fs);
    Closes([], os, EndMap, v);
    RunConcat(Within([o]), cs, [EndMap]);
    RunConcat(Start, [BeginMap], cs + [EndMap]);
    assert [BeginMap] + cs + [EndMap] == [BeginMap] + (cs + [EndMap]);
    RunBegin();
  }

  lemma {:induction false} RunBegin()
    ensures Run(Start, [BeginMap]) == Some(Within([InObject([])]))
    ensures forall v :: Complete([], v) == Finished(v)
  {
  }

  // --------------------------------------------- every text tells its calls

  ghost function OpenCalls(o: Open): seq<Call> {
    match o
    case InArray(vs) => [BeginList] + ItemCalls(vs)
    case InObject(fs) => [BeginMap] + FieldCalls(fs)
    case InField(fs, k) => [BeginMap] + FieldCalls(fs) + [Key(k)]
  }

  ghost function AllCalls(os: seq<Open>): seq<Call> {
    if os == [] then [] else AllCalls(Init(os)) + OpenCalls(Last(os))
  }

  /** The calls that have led to a document. */
  ghost function DocCalls(doc: Doc): seq<Call> {
    match doc
    case Start => []
    case Within(os) => AllCalls(os)
    case Finished(v) => CallsOf(v)
  }

  lemma {:induction false} AllCallsSnoc(os: seq<Open>, o: Open)
    ensures AllCalls(os + [o]) == AllCalls(os) + OpenCalls(o)
  {
    assert Init(os + [o]) == os;
  }

  lemma {:induction false} ItemCallsSnoc(vs: seq<Value>, v: Value)
    ensures ItemCalls(vs + [v]) == ItemCalls(vs) + CallsOf(v)
    ensures PlainItems(vs + [v]) <==> PlainItems(vs) && Plain(v)
  {
    hide CallsOf, Plain;
    if vs == [] {
      assert vs + [v] == [v];
    } else {
      assert (vs + [v])[1..] == vs[1..] + [v];
      ItemCallsSnoc(vs[1..], v);
      var a, b, c := CallsOf(vs[0]), ItemCalls(vs[1..]), CallsOf(v);
      assert a + (b + c) == (a + b) + c;
    }
  }

  lemma {:induction false} FieldCallsSnoc(fs: seq<Field>, f: Field)
    ensures FieldCalls(fs + [f]) == FieldCalls(fs) + ([Key(f.key)] + CallsOf(f.value))
    ensures PlainFields(fs + [f]) <==> PlainFields(fs) && Plain(f.value)
  {
    hide CallsOf, Plain;
    if fs == [] {
      assert fs + [f] == [f];
    } else {
      assert (fs + [f])[1..] == fs[1..] + [f];
      FieldCallsSnoc(fs[1..], f);
      var a, b, c := [Key(fs[0].key)] + CallsOf(fs[0].value), FieldCalls(fs[1..]), [Key(f.key)] + CallsOf(f.value);
      assert a + (b + c) == (a + b) + c;
    }
  }

  ghost predicate PlainOpen(o: Open) {
    match o
    case InArray(vs) => PlainItems(vs)
    case InObject(fs) => PlainFields(fs)
    case InField(fs, _) => PlainFields(fs)
  }

  ghost predicate PlainDoc(doc: Doc) {
    match doc
    case Start => true
    case Within(os) => forall i :: 0 <= i < |os| ==> PlainOpen(os[i])
    case Finished(v) => Plain(v) && (v.Object? || v.Int?)
  }

  lemma {:induction false} ItemOpenCalls(vs: seq<Value>, v: Value)
    ensures OpenCalls(InArray(vs + [v])) == OpenCalls(InArray(vs)) + CallsOf(v)
    ensures PlainOpen(InArray(vs + [v])) <==> PlainOpen(InArray(vs)) && Plain(v)
  {
    hide ItemCalls, CallsOf, Plain, PlainItems;
    ItemCallsSnoc(vs, v);
    assert [BeginList] + (ItemCalls(vs) + CallsOf(v)) == [BeginList] + ItemCalls(vs) + CallsOf(v);
  }

  lemma {:induction false} MemberOpenCalls(fs: seq<Field>, k: Chars, v: Value)
    ensures OpenCalls(InObject(fs + [Field(k, v)])) == OpenCalls(InField(fs, k)) + CallsOf(v)
    ensures PlainOpen(InObject(fs + [Field(k, v)])) <==> PlainOpen(InField(fs, k)) && Plain(v)
  {
    hide FieldCalls, CallsOf, Plain, PlainFields;
    FieldCallsSnoc(fs, Field(k, v));
    var a, b := [BeginMap] + FieldCalls(fs), [Key(k)];
    assert [BeginMap] + (FieldCalls(fs) + (b + CallsOf(v))) == a + (b + CallsOf(v)) == (a + b) + CallsOf(v);
  }

  lemma {:induction false} CompleteCalls(os: seq<Open>, v: Value)
    requires os != [] ==> !Last(os).InObject?
    requires PlainDoc(Within(os)) && Plain(v) && (os == [] ==> v.Object? || v.Int?)
    ensures DocCalls(Complete(os, v)) == AllCalls(os) + CallsOf(v)
    ensures PlainDoc(Complete(os, v))
  {
    hide CallsOf, OpenCalls, PlainOpen, Plain;
    if os != [] {
      var a, b := AllCalls(Init(os)), OpenCalls(Last(os));
      assert a + (b + CallsOf(v)) == (a + b) + CallsOf(v);
      match Last(os) {
        case InArray(vs) =>
          AllCallsSnoc(Init(os), InArray(vs + [v]));
          ItemOpenCalls(vs, v);
        case InField(fs, k) =>
          AllCallsSnoc(Init(os), InObject(fs + [Field(k, v)]));
          MemberOpenCalls(fs, k, v);
      }
    }
  }

  lemma {:induction false} CloseCalls(doc: Doc, call: Call)
    requires WellFormed(doc) && PlainDoc(doc) && After(doc, call).Some? && (call.EndMap? || call.EndList?)
    ensures DocCalls(After(doc, call).value) == DocCalls(doc) + [call]
    ensures PlainDoc(After(doc, call).value)
  {
    hide CallsOf, ItemCalls, FieldCalls, Plain, PlainItems, PlainFields, AllCalls, Complete;
    var os, o := Init(doc.opens), Last(doc.opens);
    assert doc.opens == os + [o];
    var v := if o.InArray? then Array(o.vs, false) else Object(o.fs, false);
    AllCallsSnoc(os, o);
    ContainerCalls(v);
    CompleteCalls(os, v);
    assert AllCalls(os) + (OpenCalls(o) + [call]) == (AllCalls(os) + OpenCalls(o)) + [call];
  }

  lemma {:induction false} OpenedCalls(doc: Doc, call: Call)
    requires WellFormed(doc) && PlainDoc(doc) && After(doc, call).Some?
        && (call.BeginMap? || call.BeginList? || call.Key?)
    ensures DocCalls(After(doc, call).value) == DocCalls(doc) + [call]
    ensures PlainDoc(After(doc, call).value)
  {
    hide CallsOf, ItemCalls, FieldCalls, Plain, PlainItems, PlainFields, AllCalls;
    NoCalls();
    match call
    case BeginMap =>
      AllCallsSnoc(Opens(doc), InObject([]));
      assert doc.Start? ==> Opens(doc) + [InObject([])] == [InObject([])];
    case BeginList =>
      AllCallsSnoc(Opens(doc), InArray([]));
    case Key(k) =>
      var fs, os := Last(doc.opens).fs, Init(doc.opens);
      assert doc.opens == os + [InObject(fs)];
      KeyCalls(os, fs, k);
  }

  lemma {:induction false} KeyCalls(os: seq<Open>, fs: seq<Field>, k: Chars)
    ensures AllCalls(os + [InField(fs, k)]) == AllCalls(os + [InObject(fs)]) + [Key(k)]
  {
    hide AllCalls, FieldCalls;
    AllCallsSnoc(os, InObject(fs));
    AllCallsSnoc(os, InField(fs, k));
    var a, b := AllCalls(os), [BeginMap] + FieldCalls(fs);
    assert a + (b + [Key(k)]) == (a + b) + [Key(k)];
  }

  lemma {:induction false} AfterCalls(doc: Doc, call: Call)
    requires WellFormed(doc) && PlainDoc(doc) && After(doc, call).Some?
    ensures DocCalls(After(doc, call).value) == DocCalls(doc) + [call]
    ensures PlainDoc(After(doc, call).value)
  {
    hide CallsOf, Plain, PlainOpen, OpenCalls, AllCalls, Complete;
    match call
    case BeginMap => OpenedCalls(doc, call);
    case BeginList => OpenedCalls(doc, call);
    case Key(_) => OpenedCalls(doc, call);
    case EndMap => CloseCalls(doc, call);
    case EndList => CloseCalls(doc, call);
    case PutNull => LeafCalls(Null); CompleteCalls(doc.opens, Null);
    case WriteBool(b) => LeafCalls(Bool(b)); CompleteCalls(doc.opens, Bool(b));
    case WriteString(s) => LeafCalls(Str(s)); CompleteCalls(doc.opens, Str(s));
    case WriteInt(n) =>
      LeafCalls(Int(n));
      if doc.Within? {
        CompleteCalls(doc.opens, Int(n));
      }
  }

  lemma {:induction false} NoCalls()
    ensures ItemCalls([]) == [] && FieldCalls([]) == [] && AllCalls([]) == []
    ensures PlainItems([]) && PlainFields([])
  {
  }

  lemma {:induction false} ContainerCalls(v: Value)
    ensures v.Array? ==>
        CallsOf(v) == [BeginList] + ItemCalls(v.items) + [EndList]
            && (Plain(v) <==> !v.trailing && PlainItems(v.items))
    ensures v.Object? ==>
        CallsOf(v) == [BeginMap] + FieldCalls(v.fields) + [EndMap]
            && (Plain(v) <==> !v.trailing && PlainFields(v.fields))
  {
  }

  lemma {:induction false} LeafCalls(v: Value)
    requires !v.Array? && !v.Object?
    ensures Plain(v)
    ensures CallsOf(v) == match v
      case Null => [PutNull]
      case Bool(b) => [WriteBool(b)]
      case Int(n) => [WriteInt(n)]
      case Str(s) => [WriteString(s)]
      case _ => []
  {
  }

  lemma {:induction false} RunCalls(doc: Doc, calls: seq<Call>)
    requires WellFormed(doc) && PlainDoc(doc) && Run(doc, calls).Some?
    ensures WellFormed(Run(doc, calls).value) && PlainDoc(Run(doc, calls).value)
    ensures DocCalls(Run(doc, calls).value) == DocCalls(doc) + calls
    decreases |calls|
  {
    hide DocCalls, PlainDoc, After, WellFormed;
    if calls != [] {
      AfterWellFormed(doc, calls[0]);
      AfterCalls(doc, calls[0]);
      RunCalls(After(doc, calls[0]).value, calls[1..]);
      assert DocCalls(doc) + [calls[0]] + calls[1..] == DocCalls(doc) + calls;
    }
  }

  /** A sequence of calls goes from BEGIN to END exactly when it saves one value, an object or an
      integer; `Saver.Valid` then says that the text is made of the tokens of that value. */
  lemma {:induction false} CompleteTexts(calls: seq<Call>, v: Value)
    ensures Run(Start, calls) == Some(Finished(v)) <==>
            calls == CallsOf(v) && Plain(v) && (v.Object? || v.Int?)
  {
    hide After, CallsOf, Plain;
    if Run(Start, calls) == Some(Finished(v)) {
      RunCalls(Start, calls);
      assert DocCalls(Start) + calls == calls;
    }
    if calls == CallsOf(v) && Plain(v) && (v.Object? || v.Int?) {
      SavesText(v);
    }
  }
}
