/** The characters of a JSON string: what `Saver::escape` writes, and what it means (RFC 8259,
    section 7). */
module JsonEscape {
  import opened Common
  import opened IntegerText

  const QUOTE := 34
  const BACKSLASH := 92
  const LETTER_U := 117

  /** The letter of a short escape. */
  function ShortEscape(c: nat): Option<Code> {
    match c
    case 34 => Some(34)
    case 92 => Some(92)
    case 8 => Some(98)
    case 12 => Some(102)
    case 10 => Some(110)
    case 13 => Some(114)
    case 9 => Some(116)
    case _ => None
  }

  /** Hexadecimal digits, padded with zeros up to a width of four. */
  ghost function Hex(c: nat): seq<Code> {
    var d := Text(c, 16, LOWER);
    seq(if |d| < 4 then 4 - |d| else 0, i => ZERO) + d
  }

  ghost function Escaped(c: nat): (s: seq<Code>)
    ensures s != []
  {
    if ShortEscape(c).Some? then [BACKSLASH, ShortEscape(c).value]
    else if 32 <= c < 128 then [c]
    else [BACKSLASH, LETTER_U] + Hex(c)
  }

  ghost function EscapedAll(s: seq<nat>): seq<Code> {
    if s == [] then [] else Escaped(s[0]) + EscapedAll(s[1..])
  }

  // ------------------------------------------------------------ the reference

  /** The character of a short escape; a slash may be escaped too. */
  function ShortMeaning(letter: Code): Option<nat> {
    match letter
    case 34 => Some(34)
    case 92 => Some(92)
    case 47 => Some(47)
    case 98 => Some(8)
    case 102 => Some(12)
    case 110 => Some(10)
    case 114 => Some(13)
    case 116 => Some(9)
    case _ => None
  }

  ghost predicate HexDigits(s: seq<Code>) {
    forall i :: 0 <= i < |s| ==> TestBase(s[i], 16) >= 0
  }

  function Then<T>(x: T, r: Option<seq<T>>): Option<seq<T>> {
    if r.None? then None else Some([x] + r.value)
  }

  /** The meaning of what is between the quotes of a JSON string, as 16-bit units; None if it is not
      allowed there. */
  ghost function Meaning(t: seq<Code>): Option<seq<nat>> {
    if t == [] then Some([])
    else if t[0] < 32 || t[0] == QUOTE then None
    else if t[0] != BACKSLASH then Then(t[0], Meaning(t[1..]))
    else if |t| >= 2 && ShortMeaning(t[1]).Some? then Then(ShortMeaning(t[1]).value, Meaning(t[2..]))
    else if |t| >= 6 && t[1] == LETTER_U && HexDigits(t[2..6]) then Then(ValueFrom(0, t[2..6], 16), Meaning(t[6..]))
    else None
  }

  // ------------------------------------------------------------------- proofs

  lemma {:induction false} HexIs(c: nat)
    ensures |Hex(c)| >= 4 && HexDigits(Hex(c)) && ValueFrom(0, Hex(c), 16) == c
    ensures |Hex(c)| == 4 <==> c < 0x1_0000
  {
    hide Digits, ValueFrom;
    var d := Text(c, 16, LOWER);
    TextIsRead(c, 16, LOWER);
    if c < 0x1_0000 {
      Power16();
      FewDigits(c, 16, LOWER, 4);
    } else if |d| <= 4 {
      FourHexDigits(d);
    }
    LeadingZeros(|Hex(c)| - |d|, d);
    assert Hex(c) == seq(|Hex(c)| - |d|, i => ZERO) + d;
  }

  lemma {:induction false} Power16()
    ensures Power(16, 4) == 0x1_0000
  {
  }

  lemma {:induction false} LeadingZeros(k: nat, d: seq<Code>)
    ensures ValueFrom(0, seq(k, i => ZERO) + d, 16) == ValueFrom(0, d, 16)
  {
    var z := seq(k, i => ZERO);
    if d != [] {
      var init := d[..|d| - 1];
      LeadingZeros(k, init);
      assert (z + d)[..|z + d| - 1] == z + init;
    } else if k > 0 {
      LeadingZeros(k - 1, []);
      assert z[..k - 1] == seq(k - 1, i => ZERO) == seq(k - 1, i => ZERO) + [];
      assert z + [] == z;
    }
  }

  /** Plain hexadecimal digits mean themselves. */
  lemma {:induction false} PlainDigits(d: seq<Code>, t: seq<Code>)
    requires HexDigits(d)
    ensures Meaning(t).Some? ==> Meaning(d + t).Some?
  {
    if d == [] {
      assert d + t == t;
    } else {
      assert (d + t)[1..] == d[1..] + t;
      PlainDigits(d[1..], t);
    }
  }

  /** The long escape, before any string. */
  lemma {:induction false} HexMeans(c: nat, d: seq<Code>, t: seq<Code>)
    requires |d| >= 4 && HexDigits(d)
    ensures Meaning([BACKSLASH, LETTER_U] + d + t) == Then(ValueFrom(0, d[..4], 16), Meaning(d[4..] + t))
    ensures Meaning(t).Some? ==> Meaning(d[4..] + t).Some?
  {
    hide ValueFrom;
    var s := [BACKSLASH, LETTER_U] + d + t;
    assert s[2..6] == d[..4] && s[6..] == d[4..] + t;
    PlainDigits(d[4..], t);
  }

  /** One escaped character, before any string. */
  lemma {:induction false} EscapedMeans(c: nat, t: seq<Code>)
    ensures c < 0x1_0000 ==> Meaning(Escaped(c) + t) == Then(c, Meaning(t))
    ensures Meaning(t).Some? ==> Meaning(Escaped(c) + t).Some?
  {
    if ShortEscape(c).Some? || 32 <= c < 128 {
      PlainMeans(c, t);
    } else {
      hide Hex, ValueFrom, Meaning, HexDigits;
      HexIs(c);
      HexMeans(c, Hex(c), t);
      if c < 0x1_0000 {
        assert Hex(c)[..4] == Hex(c) && Hex(c)[4..] + t == t;
      }
    }
  }

  lemma {:induction false} PlainMeans(c: nat, t: seq<Code>)
    requires ShortEscape(c).Some? || 32 <= c < 128
    ensures Meaning(Escaped(c) + t) == Then(c, Meaning(t))
  {
    var s := Escaped(c) + t;
    if ShortEscape(c).Some? {
      assert s[2..] == t;
    } else {
      assert s[1..] == t;
    }
  }

  ghost predicate AllBelow(s: seq<nat>, bound: nat) {
    forall i :: 0 <= i < |s| ==> s[i] < bound
  }

  lemma {:induction false} FourHexDigits(d: seq<Code>)
    requires |d| <= 4
    ensures ValueFrom(0, d, 16) < Power(16, |d|) <= 0x1_0000
  {
    Power16();
    if d != [] {
      FourHexDigits(d[..|d| - 1]);
    }
  }

  /** The text in UTF-16: a character beyond 16 bits is a pair of surrogates (RFC 8259, section 7). */
  function Utf16(s: seq<nat>): seq<nat> {
    if s == [] then [] else Units(s[0]) + Utf16(s[1..])
  }

  function Units(c: nat): seq<nat> {
    if c < 0x1_0000 then [c] else [0xD800 + (c - 0x1_0000) / 0x400, 0xDC00 + (c - 0x1_0000) % 0x400]
  }

  /** Whatever the characters, an escaped text is allowed in a JSON string; it means the text exactly
      if no character is beyond 16 bits: of those the code writes five or six digits, and JSON reads
      four. */
  lemma {:induction false} EscapingIsFaithful(s: seq<nat>)
    ensures Meaning(EscapedAll(s)).Some?
    ensures Meaning(EscapedAll(s)) == Some(Utf16(s)) <==> AllBelow(s, 0x1_0000)
  {
    hide Escaped, Meaning;
    if s == [] {
      EmptyMeaning();
    } else {
      EscapingIsFaithful(s[1..]);
      EscapedMeans(s[0], EscapedAll(s[1..]));
      if s[0] < 0x1_0000 {
        ThenIs(s[0], Meaning(EscapedAll(s[1..])), Utf16(s[1..]));
        assert AllBelow(s, 0x1_0000) <==> AllBelow(s[1..], 0x1_0000);
      } else {
        TooManyDigits(s[0], EscapedAll(s[1..]));
        var m := Meaning(EscapedAll(s));
        assert |m.value| >= 2 && m.value[1] < 128 && Utf16(s)[1] >= 0xDC00;
      }
    }
  }

  lemma {:induction false} ThenIs(x: nat, r: Option<seq<nat>>, u: seq<nat>)
    ensures Then(x, r) == Some([x] + u) <==> r == Some(u)
  {
    if r.Some? {
      assert ([x] + r.value)[1..] == r.value;
      assert ([x] + u)[1..] == u;
    }
  }

  /** The fifth digit is read as a character of its own. */
  lemma {:induction false} TooManyDigits(c: nat, t: seq<Code>)
    requires c >= 0x1_0000
    ensures var m := Meaning(Escaped(c) + t); m.Some? ==> |m.value| >= 2 && m.value[1] < 128
  {
    hide Hex, ValueFrom, Meaning;
    HexIs(c);
    var d := Hex(c);
    HexMeans(c, d, t);
    FifthDigit(d, t);
  }

  lemma {:induction false} FifthDigit(d: seq<Code>, t: seq<Code>)
    requires |d| > 4 && HexDigits(d)
    ensures Meaning(d[4..] + t) == Then(d[4], Meaning(d[5..] + t)) && d[4] < 128
  {
    assert TestBase(d[4], 16) >= 0;
    assert (d[4..] + t)[1..] == d[5..] + t;
  }

  lemma {:induction false} EmptyMeaning()
    ensures Meaning([]) == Some([])
  {
  }

  lemma {:induction false} ShortIsUtf16(s: seq<nat>)
    requires AllBelow(s, 0x1_0000)
    ensures Utf16(s) == s
  {
    if s != [] {
      ShortIsUtf16(s[1..]);
    }
  }

  lemma {:induction false} Utf16IsShort(s: seq<nat>)
    requires AllBelow(s, 0x11_0000)
    ensures AllBelow(Utf16(s), 0x1_0000)
  {
    if s != [] {
      Utf16IsShort(s[1..]);
    }
  }

  /** The same escape, given the UTF-16 units instead of the characters, always means the text. */
  lemma {:induction false} PairsAreFaithful(s: seq<nat>)
    requires AllBelow(s, 0x11_0000)
    ensures Meaning(EscapedAll(Utf16(s))) == Some(Utf16(s))
  {
    Utf16IsShort(s);
    EscapingIsFaithful(Utf16(s));
    ShortIsUtf16(Utf16(s));
  }

  ghost predicate Scalar(c: nat) {
    c < 0xD800 || 0xE000 <= c < 0x11_0000
  }

  /** UTF-16 tells texts of Unicode scalar values apart. */
  lemma {:induction false} Utf16IsInjective(s: seq<nat>, r: seq<nat>)
    requires forall i :: 0 <= i < |s| ==> Scalar(s[i])
    requires forall i :: 0 <= i < |r| ==> Scalar(r[i])
    requires Utf16(s) == Utf16(r)
    ensures s == r
  {
    if s != [] && r != [] {
      FirstScalar(s[0], Utf16(s[1..]), r[0], Utf16(r[1..]));
      Utf16IsInjective(s[1..], r[1..]);
      assert s == [s[0]] + s[1..] && r == [r[0]] + r[1..];
    }
  }

  lemma {:induction false} FirstScalar(a: nat, u: seq<nat>, b: nat, w: seq<nat>)
    requires Scalar(a) && Scalar(b) && Units(a) + u == Units(b) + w
    ensures a == b && u == w
  {
    var x, y := Units(a) + u, Units(b) + w;
    assert x[0] == y[0];
    assert u == x[|Units(a)|..] && w == y[|Units(b)|..];
    if a >= 0x1_0000 {
      assert x[1] == y[1] && x[1] == Units(a)[1] && y[1] == Units(b)[1];
    }
  }
}
