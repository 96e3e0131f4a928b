/** UTF-8: `elm::utf16::Char::toUTF8`, which encodes 16-bit code units, and `elm::utf8::Iter`, which
    decodes a text (the 1 to 3 byte forms of RFC 3629, section 3). */
module Utf8 {
  import opened Streams

  type unit = x: int | 0 <= x < 0x1_0000

  /** `toUTF8`. */
  function Encoded(c: unit): (s: seq<byte>)
    ensures 1 <= |s| <= 3
  {
    if c <= 0x7F then [c]
    else if c <= 0x7FF then [0xC0 + c / 64, 0x80 + c % 64]
    else [0xE0 + c / 4096, 0x80 + c / 64 % 64, 0x80 + c % 64]
  }

  function EncodedAll(us: seq<unit>): seq<byte> {
    if us == [] then [] else Encoded(us[0]) + EncodedAll(us[1..])
  }

  // ------------------------------------------------------------------ decoding

  /** The result of reading one character: its code and its length, or the reason of a failure. */
  datatype Decoded = End | Bad | Short | Char(c: nat, length: nat)

  /** The number of continuation bytes that a first byte announces; 4 if it announces too many. */
  function Following(b: byte): nat {
    if b < 0xE0 then 1 else if b < 0xF0 then 2 else if b < 0xF8 then 3 else 4
  }

  /** The first byte has its data below this power of two. */
  function Mask(following: nat): int {
    if following == 1 then 32 else if following == 2 then 16 else 8
  }

  ghost function Decode(s: seq<byte>): (d: Decoded)
    ensures d.Char? ==> 0 < d.length <= |s|
    ensures d.End? <==> s == []
  {
    if s == [] then End
    else if s[0] < 0x80 then Char(s[0], 1)
    else if s[0] < 0xC0 || Following(s[0]) == 4 then Bad
    else Continued(s, 1, s[0] % Mask(Following(s[0])), Following(s[0]))
  }

  /** Read l more bytes from position k. */
  ghost function Continued(s: seq<byte>, k: nat, c: nat, l: nat): (d: Decoded)
    requires 0 < k <= |s|
    ensures d.Char? ==> d.length == k + l <= |s|
    ensures !d.End?
    decreases l
  {
    if l == 0 then Char(c, k)
    else if k == |s| then Short
    else if s[k] / 64 != 2 then Bad
    else Continued(s, k + 1, Join(c, s[k]), l - 1)
  }

  class Iter {
    const s: seq<byte>
    var p: nat
    var c: nat

    /** The constructor of the code also reads the first character; a caller does it next here. */
    constructor (s: seq<byte>)
      ensures this.s == s && p == 0 && c == 0
    {
      this.s := s;
      p, c := 0, 0;
    }

    predicate Ended()
      reads `c
    {
      c == 0
    }

    /** Read a character; false when the code raises an exception. */
    method Parse() returns (ok: bool)
      requires p <= |s|
      modifies `p, `c
      ensures p <= |s|
      ensures match Decode(s[old(p)..])
        case End => ok && c == 0 && p == old(p)
        case Char(code, n) => ok && c == code && p == old(p) + n
        case _ => !ok
    {
      hide Continued, Following, Power2, Mask;
      ghost var t := s[p..];
      c := 0;
      if p == |s| {
        return true;
      }
      var cc := s[p];
      p := p + 1;
      if cc / 128 % 2 == 0 {
        c := cc;
        return true;
      }
      if cc / 64 % 2 == 0 {
        return false;
      }
      var l := Count(cc);
      if l == 4 {
        return false;
      }
      c := cc % Power2(6 - l);
      ok := Follow(t, l);
    }

    /** How many bytes follow: the bits that are set after the first two, up to the third. */
    static method Count(cc: byte) returns (l: nat)
      requires cc >= 0xC0
      ensures l == Following(cc) && 1 <= l <= 4
      ensures l < 4 ==> Power2(6 - l) == Mask(l) > 0
    {
      hide Power2;
      Powers();
      l := 1;
      while l <= 3 && cc / Power2(6 - l) % 2 != 0
        invariant 1 <= l <= 4 && l <= Following(cc)
      {
        l := l + 1;
      }
    }

    /** Read the l bytes that follow the first one of t. */
    method Follow(ghost t: seq<byte>, l: nat) returns (ok: bool)
      requires 0 < p <= |s| && t == s[p - 1..]
      modifies `p, `c
      ensures old(p) <= p <= |s|
      ensures match Continued(t, 1, old(c), l)
        case Char(code, n) => ok && c == code && p == old(p) - 1 + n
        case _ => !ok
    {
      ghost var start := p - 1;
      for i := 0 to l
        invariant start < p <= |s| && p == start + 1 + i
        invariant Continued(t, 1, old(c), l) == Continued(t, 1 + i, c, l - i)
      {
        if p == |s| {
          return false;
        }
        var cc := s[p];
        p := p + 1;
        if cc / 64 != 2 {
          return false;
        }
        c := Join(c, cc);
      }
      return true;
    }
  }

  function Power2(k: nat): nat { if k == 0 then 1 else 2 * Power2(k - 1) }

  lemma {:induction false} Powers()
    ensures Power2(5) == 32 && Power2(4) == 16 && Power2(3) == 8
  {
  }

  // ---------------------------------------------------------------- round trip

  /** Six more bits. */
  function Join(c: nat, b: byte): nat { c * 64 + b % 64 }

  lemma {:induction false} TwoBytes(s: seq<byte>)
    requires |s| >= 2 && 0xC0 <= s[0] < 0xE0
    ensures Decode(s) == if s[1] / 64 == 2 then Char(Join(s[0] - 0xC0, s[1]), 2) else Bad
  {
    var c := Join(s[0] - 0xC0, s[1]);
    assert Continued(s, 2, c, 0) == Char(c, 2);
  }

  lemma {:induction false} ThreeBytes(s: seq<byte>)
    requires |s| >= 3 && 0xE0 <= s[0] < 0xF0
    ensures Decode(s) ==
      if s[1] / 64 == 2 && s[2] / 64 == 2 then Char(Join(Join(s[0] - 0xE0, s[1]), s[2]), 3) else Bad
  {
    var b := Join(s[0] - 0xE0, s[1]);
    var c := Join(b, s[2]);
    assert Continued(s, 3, c, 0) == Char(c, 3);
    assert Continued(s, 2, b, 1) == if s[2] / 64 == 2 then Char(c, 3) else Bad;
  }

  /** What is encoded is decoded, whatever follows. */
  lemma {:induction false} DecodesOne(c: unit, t: seq<byte>)
    ensures Decode(Encoded(c) + t) == Char(c, |Encoded(c)|)
  {
    hide Continued, Join;
    var s := Encoded(c) + t;
    if c > 0x7FF {
      ThreeBytes(s);
      ThreeJoined(c / 4096, c / 64 % 64, c % 64);
      SixBits(c);
    } else if c > 0x7F {
      TwoBytes(s);
      JoinIs(c / 64, c % 64);
    }
  }

  lemma {:induction false} SixBits(c: nat)
    ensures c == (c / 4096 * 64 + c / 64 % 64) * 64 + c % 64
  {
    assert c / 4096 == c / 64 / 64;
  }

  lemma {:induction false} JoinIs(a: nat, b: nat)
    requires b < 64
    ensures (0x80 + b) / 64 == 2 && Join(a, 0x80 + b) == a * 64 + b
  {
  }

  lemma {:induction false} ThreeJoined(a: nat, b: nat, c: nat)
    requires b < 64 && c < 64
    ensures (0x80 + b) / 64 == 2 && (0x80 + c) / 64 == 2
    ensures Join(Join(a, 0x80 + b), 0x80 + c) == (a * 64 + b) * 64 + c
  {
    hide Join;
    JoinIs(a, b);
    JoinIs(Join(a, 0x80 + b), c);
  }

  lemma {:induction false} FourBytes(s: seq<byte>)
    requires |s| >= 4 && 0xF0 <= s[0] < 0xF8
    ensures Decode(s) ==
      if s[1] / 64 == 2 && s[2] / 64 == 2 && s[3] / 64 == 2
      then Char(Join(Join(Join(s[0] - 0xF0, s[1]), s[2]), s[3]), 4) else Bad
  {
    var a := Join(s[0] - 0xF0, s[1]);
    var b := Join(a, s[2]);
    assert Continued(s, 4, Join(b, s[3]), 0) == Char(Join(b, s[3]), 4);
    assert Continued(s, 3, b, 1) == if s[3] / 64 == 2 then Char(Join(b, s[3]), 4) else Bad;
    assert Continued(s, 2, a, 2) == if s[2] / 64 == 2 then Continued(s, 3, b, 1) else Bad;
  }

  /** The least number of bytes for a character (RFC 3629, section 3). */
  function Width(c: nat): nat {
    if c < 0x80 then 1 else if c < 0x800 then 2 else if c < 0x1_0000 then 3 else 4
  }

  /** The first two bytes do not begin a form that is longer than need be. */
  predicate ShortForm(s: seq<byte>)
    requires s != []
  {
    && s[0] != 0xC0 && s[0] != 0xC1
    && (s[0] == 0xE0 && |s| > 1 ==> s[1] >= 0xA0) && (s[0] == 0xF0 && |s| > 1 ==> s[1] >= 0x90)
  }

  /** The first two bytes tell whether a character is read from the fewest bytes. */
  lemma {:induction false} FirstBytesTell(s: seq<byte>)
    requires Decode(s).Char?
    ensures ShortForm(s) <==> Decode(s).length == Width(Decode(s).c)
  {
    hide Continued, Join;
    if s[0] >= 0x80 {
      FollowingCounts(s);
      if Following(s[0]) == 1 {
        TwoBytes(s);
        JoinedBits(s[0] - 0xC0, s[1]);
      } else if Following(s[0]) == 2 {
        ThreeBytes(s);
        JoinedBits(s[0] - 0xE0, s[1]);
        JoinedBits(Join(s[0] - 0xE0, s[1]), s[2]);
      } else {
        FourBytes(s);
        JoinedBits(s[0] - 0xF0, s[1]);
        JoinedBits(Join(s[0] - 0xF0, s[1]), s[2]);
        JoinedBits(Join(Join(s[0] - 0xF0, s[1]), s[2]), s[3]);
      }
    }
  }

  lemma {:induction false} JoinedBits(c: nat, b: byte)
    ensures c * 64 <= Join(c, b) < (c + 1) * 64
    ensures b / 64 == 2 ==> Join(c, b) == c * 64 + b - 0x80
  {
  }

  /** The other way, a code unit is encoded as it was read exactly if its first two bytes begin the
      shortest form; the decoder also accepts longer ones, which RFC 3629 forbids. */
  lemma {:induction false} EncodesWhatIsRead(s: seq<byte>)
    requires Decode(s).Char? && Decode(s).c < 0x1_0000
    ensures Encoded(Decode(s).c) == s[..Decode(s).length] <==> ShortForm(s)
  {
    hide Continued, ShortForm;
    var d := Decode(s);
    FirstBytesTell(s);
    if d.length == |Encoded(d.c)| {
      Shortest(s, d);
    }
  }

  lemma {:induction false} Shortest(s: seq<byte>, d: Decoded)
    requires d == Decode(s) && d.Char? && d.c < 0x1_0000 && d.length == |Encoded(d.c)|
    ensures Encoded(d.c) == s[..d.length]
  {
    hide Continued, Encoded, Join;
    if s[0] >= 0x80 {
      FollowingCounts(s);
      if d.length == 2 {
        TwoBytes(s);
        ShortTwo(s[0] - 0xC0, s[1]);
        assert s[..2] == [s[0], s[1]];
      } else if d.length == 3 {
        ThreeBytes(s);
        ShortThree(s[0] - 0xE0, s[1], s[2]);
        assert s[..3] == [s[0], s[1], s[2]];
      }
    } else {
      ShortOne(s[0]);
      assert s[..1] == [s[0]];
    }
  }

  lemma {:induction false} FollowingCounts(s: seq<byte>)
    requires Decode(s).Char? && s[0] >= 0x80
    ensures s[0] >= 0xC0 && Decode(s).length == 1 + Following(s[0]) >= 2
  {
  }

  lemma {:induction false} ShortOne(b: byte)
    requires b < 0x80
    ensures Encoded(b) == [b]
  {
  }

  lemma {:induction false} ShortTwo(a: nat, b: byte)
    requires a < 32 && b / 64 == 2 && |Encoded(Join(a, b))| == 2
    ensures Encoded(Join(a, b)) == [0xC0 + a, b]
  {
  }

  lemma {:induction false} ShortThree(a: nat, b: byte, c: byte)
    requires a < 16 && b / 64 == 2 && c / 64 == 2
    requires Join(Join(a, b), c) < 0x1_0000 && |Encoded(Join(Join(a, b), c))| == 3
    ensures Encoded(Join(Join(a, b), c)) == [0xE0 + a, b, c]
  {
    hide Join;
    var v := Join(Join(a, b), c);
    Unjoined(a, b);
    Unjoined(Join(a, b), c);
    SixtyFours(v);
  }

  lemma {:induction false} SixtyFours(c: nat)
    ensures c / 4096 == c / 64 / 64
  {
  }

  /** The form of RFC 3629, section 3, of a character. */
  function Standard(c: nat): (s: seq<byte>)
    requires c < 0x20_0000
    ensures |s| == Width(c)
  {
    if c < 0x1_0000 then Encoded(c)
    else [0xF0 + c / 262144, 0x80 + c / 4096 % 64, 0x80 + c / 64 % 64, 0x80 + c % 64]
  }

  /** The characters of RFC 3629: no surrogate, and nothing beyond 10FFFF. */
  predicate Scalar(c: nat) {
    c < 0xD800 || 0xE000 <= c < 0x11_0000
  }

  /** The first two bytes begin a form of RFC 3629. */
  predicate StandardForm(s: seq<byte>)
    requires s != []
  {
    && ShortForm(s) && s[0] < 0xF5
    && (s[0] == 0xED && |s| > 1 ==> s[1] < 0xA0) && (s[0] == 0xF4 && |s| > 1 ==> s[1] < 0x90)
  }

  /** Of the forms that the code accepts, RFC 3629 allows exactly those whose first two bytes begin one
      of its own: not C0, C1 or F5 to F7 first, not less than A0 after E0 or 90 after F0, not more than
      9F after ED or 8F after F4. */
  lemma {:induction false} AllowedExactly(s: seq<byte>)
    requires Decode(s).Char?
    ensures Decode(s).c < 0x20_0000
    ensures var d := Decode(s); StandardForm(s) <==> Scalar(d.c) && s[..d.length] == Standard(d.c)
  {
    hide Continued, ShortForm, Standard, Decode;
    var d := Decode(s);
    FirstBytesTell(s);
    SecondByteTells(s);
    if d.length == Width(d.c) {
      StandardRead(s);
    }
  }

  lemma {:induction false} SecondByteTells(s: seq<byte>)
    requires Decode(s).Char?
    ensures Decode(s).c < 0x20_0000
    ensures ShortForm(s) ==> (StandardForm(s) <==> Scalar(Decode(s).c))
  {
    hide Continued, Join;
    if s[0] >= 0x80 {
      FollowingCounts(s);
      if Following(s[0]) == 1 {
        TwoBytes(s);
        JoinedBits(s[0] - 0xC0, s[1]);
      } else if Following(s[0]) == 2 {
        ThreeBytes(s);
        JoinedBits(s[0] - 0xE0, s[1]);
        JoinedBits(Join(s[0] - 0xE0, s[1]), s[2]);
      } else {
        FourBytes(s);
        JoinedBits(s[0] - 0xF0, s[1]);
        JoinedBits(Join(s[0] - 0xF0, s[1]), s[2]);
        JoinedBits(Join(Join(s[0] - 0xF0, s[1]), s[2]), s[3]);
      }
    }
  }

  lemma {:induction false} StandardRead(s: seq<byte>)
    requires Decode(s).Char? && Decode(s).c < 0x20_0000 && Decode(s).length == Width(Decode(s).c)
    ensures s[..Decode(s).length] == Standard(Decode(s).c)
  {
    hide Continued, Encoded, Join;
    var d := Decode(s);
    if d.c < 0x1_0000 {
      EncodedWidth(d.c);
      Shortest(s, d);
    } else {
      FollowingCounts(s);
      FourBytes(s);
      ShortFour(s[0] - 0xF0, s[1], s[2], s[3]);
      assert s[..4] == [s[0], s[1], s[2], s[3]];
    }
  }

  lemma {:induction false} EncodedWidth(c: unit)
    ensures |Encoded(c)| == Width(c)
  {
  }

  lemma {:induction false} ShortFour(a: nat, b: byte, c: byte, d: byte)
    requires a < 8 && b / 64 == 2 && c / 64 == 2 && d / 64 == 2 && Join(Join(Join(a, b), c), d) >= 0x1_0000
    ensures Join(Join(Join(a, b), c), d) < 0x20_0000
    ensures Standard(Join(Join(Join(a, b), c), d)) == [0xF0 + a, b, c, d]
  {
    hide Join, Encoded;
    var v := Join(Join(Join(a, b), c), d);
    JoinedBits(a, b);
    JoinedBits(Join(a, b), c);
    JoinedBits(Join(Join(a, b), c), d);
    Unjoined(a, b);
    Unjoined(Join(a, b), c);
    Unjoined(Join(Join(a, b), c), d);
    FourSixths(v);
    FourSixths(v / 64);
  }

  /** Every character of RFC 3629 is read back from its form, whatever follows. */
  lemma {:induction false} StandardIsRead(c: nat, t: seq<byte>)
    requires c < 0x20_0000
    ensures Decode(Standard(c) + t) == Char(c, Width(c))
  {
    hide Continued, Join;
    if c < 0x1_0000 {
      EncodedWidth(c);
      DecodesOne(c, t);
    } else {
      FourBytes(Standard(c) + t);
      FourJoined(c);
    }
  }

  lemma {:induction false} FourJoined(c: nat)
    requires 0x1_0000 <= c < 0x20_0000
    ensures var s := Standard(c);
      && s[1] / 64 == 2 && s[2] / 64 == 2 && s[3] / 64 == 2
      && Join(Join(Join(s[0] - 0xF0, s[1]), s[2]), s[3]) == c
  {
    hide Join;
    ThreeJoined(c / 262144, c / 4096 % 64, c / 64 % 64);
    JoinIs((c / 262144 * 64 + c / 4096 % 64) * 64 + c / 64 % 64, c % 64);
    SixBits(c / 64);
    FourSixths(c);
  }

  lemma {:induction false} FourSixths(c: nat)
    ensures c / 64 / 4096 == c / 262144 && c / 64 / 64 == c / 4096 && c == c / 64 * 64 + c % 64
  {
  }

  lemma {:induction false} Unjoined(a: nat, b: byte)
    requires b / 64 == 2
    ensures Join(a, b) / 64 == a && 0x80 + Join(a, b) % 64 == b
  {
  }

  /** The null character may be written with two bytes. */
  lemma {:induction false} OverlongIsRead()
    ensures Decode([0xC0, 0x80]) == Char(0, 2) && Encoded(0) == [0]
  {
    hide Continued;
    TwoBytes([0xC0, 0x80]);
  }

  // ------------------------------------------------------------- whole texts

  /** What an iteration gives: the characters before the end, a null character or a bad one. */
  datatype Reading = Reading(cs: seq<nat>, ok: bool)

  ghost function ReadFrom(s: seq<byte>): Reading
    decreases |s|
  {
    match Decode(s)
    case End => Reading([], true)
    case Char(c, n) =>
      if c == 0 then Reading([], true)
      else var r := ReadFrom(s[n..]); Reading([c] + r.cs, r.ok)
    case _ => Reading([], false)
  }

  /** The units before the first null one. */
  ghost function BeforeNull(us: seq<unit>): seq<nat> {
    if us == [] || us[0] == 0 then [] else [us[0]] + BeforeNull(us[1..])
  }

  /** The usual loop over a text. */
  method ReadAll(text: seq<byte>) returns (cs: seq<nat>, ok: bool)
    ensures Reading(cs, ok) == ReadFrom(text)
  {
    hide Decode;
    var i := new Iter(text);
    cs := [];
    assert text[0..] == text;
    ghost var start := 0;
    ok := i.Parse();
    if !ok { return; }
    while !i.Ended()
      invariant i.s == text && start <= i.p <= |text|
      invariant match Decode(text[start..])
        case End => i.c == 0 && i.p == start
        case Char(code, n) => i.c == code && i.p == start + n
        case _ => false
      invariant ReadFrom(text) == Reading(cs + ReadFrom(text[start..]).cs, ReadFrom(text[start..]).ok)
      decreases |text| - start
    {
      assert text[start..][i.p - start..] == text[i.p..];
      assert cs + ([i.c] + ReadFrom(text[i.p..]).cs) == (cs + [i.c]) + ReadFrom(text[i.p..]).cs;
      cs := cs + [i.c];
      start := i.p;
      ok := i.Parse();
      if !ok {
        assert cs + [] == cs;
        return;
      }
    }
    assert cs + [] == cs;
  }

  lemma {:induction false} BeforeNullIsAll(us: seq<unit>)
    ensures 0 !in us <==> BeforeNull(us) == us
  {
    if us != [] {
      BeforeNullIsAll(us[1..]);
      assert us == [us[0]] + us[1..];
      if BeforeNull(us) == us {
        assert BeforeNull(us)[1..] == us[1..];
      }
    }
  }

  /** An encoded text is read without an exception, up to its first null unit; so it comes back
      whole, to its end, exactly if it has none. */
  lemma {:induction false} TextIsReadBack(us: seq<unit>)
    ensures ReadFrom(EncodedAll(us)) == Reading(BeforeNull(us), true)
    ensures ReadFrom(EncodedAll(us)).cs == us <==> 0 !in us
  {
    hide Decode, Encoded;
    BeforeNullIsAll(us);
    if us != [] {
      var t := EncodedAll(us[1..]);
      DecodesOne(us[0], t);
      assert (Encoded(us[0]) + t)[|Encoded(us[0])|..] == t;
      TextIsReadBack(us[1..]);
    } else {
      EmptyEnds();
    }
  }

  lemma {:induction false} EmptyEnds()
    ensures Decode([]) == End
  {
  }

  // ------------------------------------------------------------ where it stops

  ghost predicate Follows(s: seq<byte>, k: nat) {
    forall i :: 1 <= i < |s| && i <= k ==> 0x80 <= s[i] < 0xC0
  }

  /** How many bytes come after a first byte from C0 to F7. */
  function Rest(b: byte): nat {
    if b < 0xE0 then 1 else if b < 0xF0 then 2 else 3
  }

  /** What is read at the beginning of a text: a character, exactly if the bytes that its first one
      announces are there and are all from 80 to BF; a cut one, if those that are there are. */
  lemma {:induction false} DecodedAs(s: seq<byte>)
    ensures Decode(s).Char? <==>
      s != [] && (s[0] < 0x80 || (0xC0 <= s[0] < 0xF8 && |s| > Rest(s[0]) && Follows(s, Rest(s[0]))))
    ensures Decode(s).Short? <==>
      s != [] && 0xC0 <= s[0] < 0xF8 && |s| <= Rest(s[0]) && Follows(s, Rest(s[0]))
  {
    hide Continued, Mask;
    if s != [] && 0xC0 <= s[0] < 0xF8 {
      MaskPositive(s[0]);
      ContinuedAs(s, 1, s[0] % Mask(Following(s[0])), Following(s[0]));
    }
  }

  lemma {:induction false} MaskPositive(b: byte)
    requires 0xC0 <= b < 0xF8
    ensures Mask(Following(b)) > 0 && Following(b) == Rest(b) && b % Mask(Following(b)) >= 0
  {
  }

  lemma {:induction false} ContinuedAs(s: seq<byte>, k: nat, c: nat, l: nat)
    requires 0 < k <= |s|
    ensures Continued(s, k, c, l).Char? <==>
      |s| >= k + l && forall i :: k <= i < k + l ==> 0x80 <= s[i] < 0xC0
    ensures Continued(s, k, c, l).Short? <==>
      |s| < k + l && forall i :: k <= i < |s| ==> 0x80 <= s[i] < 0xC0
    decreases l
  {
    hide Join;
    if l > 0 && k < |s| && s[k] / 64 == 2 {
      ContinuedAs(s, k + 1, Join(c, s[k]), l - 1);
    }
  }

  /** The first n bytes are read as the characters `cs`, none of them null. */
  ghost predicate Steps(s: seq<byte>, n: nat, cs: seq<nat>)
    decreases |cs|
  {
    if cs == [] then n == 0
    else
      var d := Decode(s);
      d.Char? && d.c == cs[0] != 0 && d.length <= n && Steps(s[d.length..], n - d.length, cs[1..])
  }

  /** The loop reads characters as long as there are any.  It succeeds exactly if it stops at the end or
      at a null character, and fails exactly if the text goes on with a bad or a cut one. */
  lemma {:induction false} StopsWhere(s: seq<byte>) returns (n: nat)
    ensures n <= |s| && Steps(s, n, ReadFrom(s).cs)
    ensures ReadFrom(s).ok <==> Decode(s[n..]).End? || (Decode(s[n..]).Char? && Decode(s[n..]).c == 0)
    ensures !ReadFrom(s).ok <==> Decode(s[n..]).Bad? || Decode(s[n..]).Short?
    decreases |s|
  {
    hide Decode;
    var d := Decode(s);
    assert s[0..] == s;
    if d.Char? && d.c != 0 {
      var m := StopsWhere(s[d.length..]);
      n := d.length + m;
      assert s[n..] == s[d.length..][m..];
      assert ReadFrom(s).cs[1..] == ReadFrom(s[d.length..]).cs;
    } else {
      n := 0;
    }
  }

  /** The forms of RFC 3629 of some characters. */
  function StandardAll(cs: seq<nat>): seq<byte>
    requires forall i :: 0 <= i < |cs| ==> cs[i] < 0x20_0000
  {
    if cs == [] then [] else Standard(cs[0]) + StandardAll(cs[1..])
  }

  /** Characters other than null are read back, whatever follows, and the reading goes on from there. */
  lemma {:induction false} StandardIsReadBack(cs: seq<nat>, t: seq<byte>)
    requires forall i :: 0 <= i < |cs| ==> 0 < cs[i] < 0x20_0000
    ensures ReadFrom(StandardAll(cs) + t) == Reading(cs + ReadFrom(t).cs, ReadFrom(t).ok)
    decreases |cs|
  {
    hide Decode, Standard, ReadFrom, StandardAll;
    StandardSplits(cs, t);
    if cs == [] {
      assert StandardAll(cs) + t == t && [] + ReadFrom(t).cs == ReadFrom(t).cs;
    } else {
      var f, u := Standard(cs[0]), StandardAll(cs[1..]) + t;
      StandardIsReadBack(cs[1..], t);
      OneIsRead(cs[0], u);
      assert [cs[0]] + (cs[1..] + ReadFrom(t).cs) == cs + ReadFrom(t).cs;
    }
  }

  lemma {:induction false} StandardSplits(cs: seq<nat>, t: seq<byte>)
    requires forall i :: 0 <= i < |cs| ==> 0 < cs[i] < 0x20_0000
    ensures cs == [] ==> StandardAll(cs) == []
    ensures cs != [] ==> StandardAll(cs) + t == Standard(cs[0]) + (StandardAll(cs[1..]) + t)
  {
    hide Standard;
    if cs != [] {
      assert (Standard(cs[0]) + StandardAll(cs[1..])) + t == Standard(cs[0]) + (StandardAll(cs[1..]) + t);
    }
  }

  lemma {:induction false} OneIsRead(c: nat, u: seq<byte>)
    requires 0 < c < 0x20_0000
    ensures ReadFrom(Standard(c) + u) == Reading([c] + ReadFrom(u).cs, ReadFrom(u).ok)
  {
    hide Decode, Standard;
    StandardIsRead(c, u);
    assert (Standard(c) + u)[|Standard(c)|..] == u;
  }

  /** So the reading ends well at the end of the text, and fails at a bad or a cut character. */
  lemma {:induction false} StandardStops(cs: seq<nat>, t: seq<byte>)
    requires forall i :: 0 <= i < |cs| ==> 0 < cs[i] < 0x20_0000
    ensures ReadFrom(StandardAll(cs)) == Reading(cs, true)
    ensures Decode(t).Bad? || Decode(t).Short? ==> ReadFrom(StandardAll(cs) + t) == Reading(cs, false)
  {
    hide Decode;
    StandardIsReadBack(cs, t);
    StandardIsReadBack(cs, []);
    EmptyEnds();
    assert cs + [] == cs && StandardAll(cs) + [] == StandardAll(cs);
  }
}
