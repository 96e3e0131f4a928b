/** Integers as characters: what `elm::io::Output` writes and what `elm::io::Input` makes of it. */
module IntegerText {
  import opened Arith

  /** A character code; -1 stands for the end of the stream. */
  type Code = int

  const ZERO := 48
  const LOWER := 97
  const UPPER := 65
  const TWO64 := 0x1_0000_0000_0000_0000

  /** The value of a character as a digit, or -1. */
  function TestBase(chr: Code, base: int): int {
    if base < 10 then
      if ZERO <= chr < ZERO + base then chr - ZERO else -1
    else if ZERO <= chr <= ZERO + 9 then chr - ZERO
    else if LOWER <= chr < LOWER + base - 10 then chr - LOWER + 10
    else if UPPER <= chr < UPPER + base - 10 then chr - UPPER + 10
    else -1
  }

  /** The character of a digit; `enc` is that of ten. */
  function DigitChar(digit: int, enc: Code): Code {
    if digit < 10 then ZERO + digit else enc + digit - 10
  }

  lemma {:induction false} DigitIsRead(digit: int, base: int, enc: Code)
    requires 2 <= base <= 36 && 0 <= digit < base && (enc == LOWER || enc == UPPER)
    ensures TestBase(DigitChar(digit, enc), base) == digit
  {
  }

  // ---------------------------------------------------------------- characters

  /** The codes of some characters. */
  function CodesOf(s: string): (c: seq<Code>)
    ensures |c| == |s| && forall i :: 0 <= i < |s| ==> c[i] == s[i] as int
  {
    seq(|s|, i requires 0 <= i < |s| => s[i] as int)
  }

  /** The digits are the characters 0 to 9, and then the letters in their order. */
  lemma {:induction false} DigitsAreCharacters(digit: nat)
    requires digit < 36
    ensures DigitChar(digit, LOWER) == CodesOf("0123456789abcdefghijklmnopqrstuvwxyz")[digit]
    ensures DigitChar(digit, UPPER) == CodesOf("0123456789ABCDEFGHIJKLMNOPQRSTUVWXYZ")[digit]
  {
    LowerDigits(digit);
    UpperDigits(digit);
  }

  /** A character is a digit of a base exactly if it is one of these, small or capital, and it is then the
      digit that it stands for. */
  lemma {:induction false} TestBaseIs(chr: Code, base: nat, digit: nat)
    requires base <= 36 && digit < 36
    ensures TestBase(chr, base) == digit <==>
      digit < base && (chr == CodesOf("0123456789abcdefghijklmnopqrstuvwxyz")[digit]
                       || chr == CodesOf("0123456789ABCDEFGHIJKLMNOPQRSTUVWXYZ")[digit])
    ensures -1 <= TestBase(chr, base) < 36
  {
    DigitsAreCharacters(digit);
    TestBaseChars(chr, base, digit);
  }

  lemma {:induction false} TestBaseChars(chr: Code, base: nat, digit: nat)
    requires base <= 36 && digit < 36
    ensures TestBase(chr, base) == digit <==>
      digit < base && (chr == DigitChar(digit, LOWER) || chr == DigitChar(digit, UPPER))
    ensures -1 <= TestBase(chr, base) < 36
  {
  }

  /** The words have 32 and 64 bits. */
  lemma {:induction false} WordSizes()
    ensures TWO32 == Power(2, 32) && TWO64 == Power(2, 64)
  {
    assert Power(2, 5) == 32;
    assert Power(2, 10) == 1024;
    assert Power(2, 15) == 32768;
    assert Power(2, 20) == 1048576;
    assert Power(2, 25) == 33554432;
    assert Power(2, 30) == 1073741824;
    assert Power(2, 35) == 34359738368;
    assert Power(2, 40) == 1099511627776;
    assert Power(2, 45) == 35184372088832;
    assert Power(2, 50) == 1125899906842624;
    assert Power(2, 55) == 36028797018963968;
    assert Power(2, 60) == 1152921504606846976;
  }

  lemma {:induction false} LowerDigits(digit: nat)
    requires digit < 36
    ensures DigitChar(digit, LOWER) == "0123456789abcdefghijklmnopqrstuvwxyz"[digit] as int
  {
  }

  lemma {:induction false} UpperDigits(digit: nat)
    requires digit < 36
    ensures DigitChar(digit, UPPER) == "0123456789ABCDEFGHIJKLMNOPQRSTUVWXYZ"[digit] as int
  {
  }

  // ------------------------------------------------------------------ printing

  /** The digits of a number, without leading zeros: none for 0. */
  ghost function Digits(val: nat, base: int, enc: Code): seq<Code>
    requires base >= 2
  {
    if val == 0 then []
    else
      Shrinks(val, base);
      Digits(Div(val, base), base, enc) + [DigitChar(val % base, enc)]
  }

  lemma {:induction false} Shrinks(val: nat, base: int)
    requires base >= 2 && val > 0
    ensures 0 <= Div(val, base) < val
  {
    hide Mul, Div;
    DivParts(val, base);
    MulTwo(Div(val, base), base);
  }

  lemma {:induction false} MulTwo(a: int, b: int)
    requires b >= 2 && a >= 0
    ensures Mul(a, b) >= 2 * a
  {
  }

  /** What is printed of a number. */
  ghost function Text(val: nat, base: int, enc: Code): seq<Code>
    requires base >= 2
  {
    if val == 0 then [ZERO] else Digits(val, base, enc)
  }

  lemma {:induction false} OneMoreDigit(val: nat, base: int, enc: Code, digit: nat)
    requires base >= 2 && digit < base && val * base + digit > 0
    ensures Digits(val * base + digit, base, enc) == Digits(val, base, enc) + [DigitChar(digit, enc)]
  {
    hide Mul, Div;
    DivOf(val, base, digit);
  }

  lemma {:induction false} DivOf(val: nat, base: int, digit: nat)
    requires 0 <= digit < base
    ensures Div(val * base + digit, base) == val && (val * base + digit) % base == digit
  {
    hide Div;
    assert val * base == Mul(val, base);
    DivIs(val * base + digit, base, val, digit);
    DivParts(val * base + digit, base);
  }

  /** Examples, character by character. */
  lemma {:induction false} TextExamples()
    ensures Text(0, 10, LOWER) == CodesOf("0")
    ensures Text(1234567890, 10, LOWER) == CodesOf("1234567890")
    ensures Text(0xbeef, 16, LOWER) == CodesOf("beef") && Text(0xbeef, 16, UPPER) == CodesOf("BEEF")
  {
    hide Digits, Div;
    assert Digits(0, 10, LOWER) == Digits(0, 16, LOWER) == Digits(0, 16, UPPER) == [] by { NoDigits(); }
    OneMoreDigit(0, 10, LOWER, 1);
    OneMoreDigit(1, 10, LOWER, 2);
    OneMoreDigit(12, 10, LOWER, 3);
    OneMoreDigit(123, 10, LOWER, 4);
    OneMoreDigit(1234, 10, LOWER, 5);
    OneMoreDigit(12345, 10, LOWER, 6);
    OneMoreDigit(123456, 10, LOWER, 7);
    OneMoreDigit(1234567, 10, LOWER, 8);
    OneMoreDigit(12345678, 10, LOWER, 9);
    OneMoreDigit(123456789, 10, LOWER, 0);
    assert CodesOf("1234567890") == [49, 50, 51, 52, 53, 54, 55, 56, 57, 48];
    HexExample(LOWER);
    HexExample(UPPER);
  }

  lemma {:induction false} NoDigits()
    ensures Digits(0, 10, LOWER) == [] && Digits(0, 16, LOWER) == [] && Digits(0, 16, UPPER) == []
  {
  }

  lemma {:induction false} HexExample(enc: Code)
    ensures Digits(0xbeef, 16, enc) == [enc + 1, enc + 4, enc + 4, enc + 5]
  {
    hide Digits, Div;
    assert Digits(0, 16, enc) == [] by { NoHexDigits(enc); }
    OneMoreDigit(0, 16, enc, 0xb);
    OneMoreDigit(0xb, 16, enc, 0xe);
    OneMoreDigit(0xbe, 16, enc, 0xe);
    OneMoreDigit(0xbee, 16, enc, 0xf);
  }

  lemma {:induction false} NoHexDigits(enc: Code)
    ensures Digits(0, 16, enc) == []
  {
  }

  /** A number below base^n has at most n digits. */
  lemma {:induction false} FewDigits(val: nat, base: int, enc: Code, n: nat)
    requires base >= 2 && val < Power(base, n)
    ensures |Digits(val, base, enc)| <= n
    decreases n
  {
    hide Mul, Div;
    if n > 0 && val > 0 {
      Shrinks(val, base);
      DivParts(val, base);
      MulOrder(Power(base, n - 1), Div(val, base), base);
      FewDigits(Div(val, base), base, enc, n - 1);
    }
  }

  function Power(base: int, n: nat): int {
    if n == 0 then 1 else Mul(Power(base, n - 1), base)
  }

  /** Ten digits are enough for 32 bits, and twenty for 64. */
  lemma {:induction false} DecimalWidth(val: nat)
    ensures val < TWO32 ==> |Text(val, 10, LOWER)| <= 10
    ensures val < TWO64 ==> |Text(val, 10, LOWER)| <= 20
  {
    assert Power(10, 5) == 100000;
    assert Power(10, 10) == 10000000000;
    assert Power(10, 15) == 1000000000000000;
    assert Power(10, 20) == 100000000000000000000;
    if val < TWO32 {
      FewDigits(val, 10, LOWER, 10);
    }
    if val < TWO64 {
      FewDigits(val, 10, LOWER, 20);
    }
  }

  // ------------------------------------------------------------------ scanning

  /** The number that digits make after a number. */
  ghost function ValueFrom(v: nat, s: seq<Code>, base: nat): nat
  {
    if s == [] then v
    else Mul(ValueFrom(v, s[..|s| - 1], base), base) + Max0(TestBase(s[|s| - 1], base))
  }

  function Max0(x: int): (r: nat) { if x < 0 then 0 else x }

  /** The result of scanning digits: what remains to be read, and whether an overflow was seen. */
  datatype Scan = Scan(val: nat, rest: seq<Code>, overflow: bool)

  /** The loop of the scanning functions, on a word of `limit` values.  Both compare the new value with
      the 32 low bits of the previous one. */
  ghost function Scanned(s: seq<Code>, val: nat, base: nat, limit: nat): Scan
    requires limit > 0
  {
    if s == [] || TestBase(s[0], base) < 0 then Scan(val, s, false)
    else
      var next := (Mul(val, base) + TestBase(s[0], base)) % limit;
      if next < val % TWO32 then Scan(0, s[1..], true)
      else Scanned(s[1..], next, base, limit)
  }

  ghost predicate AllDigits(s: seq<Code>, base: nat) {
    forall i :: 0 <= i < |s| ==> TestBase(s[i], base) >= 0
  }

  /** The text does not go on with a digit. */
  ghost predicate Stops(t: seq<Code>, base: nat) {
    t == [] || TestBase(t[0], base) < 0
  }

  lemma {:induction false} ValueCons(v: nat, s: seq<Code>, base: nat)
    requires s != []
    ensures ValueFrom(v, s, base) == ValueFrom(Mul(v, base) + Max0(TestBase(s[0], base)), s[1..], base)
  {
    hide Mul;
    if |s| > 1 {
      var init := s[..|s| - 1];
      ValueCons(v, init, base);
      assert s[1..][..|s| - 2] == init[1..];
    } else {
      assert s[..0] == [] && s[1..] == [];
      assert ValueFrom(v, [], base) == v;
    }
  }

  lemma {:induction false} ValueGrows(v: nat, s: seq<Code>, base: nat)
    requires base >= 1
    ensures ValueFrom(v, s, base) >= v
  {
    if s != [] {
      ValueGrows(v, s[..|s| - 1], base);
      TimesGrows(ValueFrom(v, s[..|s| - 1], base), base);
    }
  }

  lemma {:induction false} TimesGrows(v: nat, base: nat)
    requires base >= 1
    ensures Mul(v, base) >= v
  {
  }

  /** As long as the value fits in the word, the scan computes it: the overflow test does not fail. */
  lemma {:induction false} ScannedPrefix(s: seq<Code>, t: seq<Code>, val: nat, base: nat, limit: nat)
    requires base >= 1 && AllDigits(s, base) && ValueFrom(val, s, base) < limit
    ensures Scanned(s + t, val, base, limit) == Scanned(t, ValueFrom(val, s, base), base, limit)
    decreases |s|
  {
    hide Mul, Stops;
    if s == [] {
      assert s + t == t;
    } else {
      TimesGrows(val, base);
      var next := Mul(val, base) + TestBase(s[0], base);
      ValueCons(val, s, base);
      ValueGrows(next, s[1..], base);
      assert (s + t)[1..] == s[1..] + t;
      Fits(next, limit, val);
      ScannedPrefix(s[1..], t, next, base, limit);
    }
  }

  /** Digits whose value fits in the word are read exactly, up to the first character that is not a
      digit. */
  lemma {:induction false} ScannedExactly(s: seq<Code>, t: seq<Code>, val: nat, base: nat, limit: nat)
    requires base >= 1 && AllDigits(s, base) && Stops(t, base) && ValueFrom(val, s, base) < limit
    ensures Scanned(s + t, val, base, limit) == Scan(ValueFrom(val, s, base), t, false)
  {
    ScannedPrefix(s, t, val, base, limit);
    StopsHere(t, ValueFrom(val, s, base), base, limit);
  }

  lemma {:induction false} Fits(next: nat, limit: nat, val: nat)
    requires val <= next < limit
    ensures next % limit == next && next >= val % TWO32
  {
  }

  lemma {:induction false} StopsHere(t: seq<Code>, val: nat, base: nat, limit: nat)
    requires limit > 0 && Stops(t, base)
    ensures Scanned(t, val, base, limit) == Scan(val, t, false)
  {
  }

  // --------------------------------------------------------------- round trip

  /** Scanning the digits of a number gives the number back. */
  lemma {:induction false} DigitsAreRead(val: nat, base: nat, enc: Code)
    requires 2 <= base <= 36 && (enc == LOWER || enc == UPPER)
    ensures AllDigits(Digits(val, base, enc), base) && ValueFrom(0, Digits(val, base, enc), base) == val
  {
    hide Mul, Div, TestBase, DigitChar;
    if val > 0 {
      Shrinks(val, base);
      DivParts(val, base);
      DigitIsRead(val % base, base, enc);
      DigitsAreRead(Div(val, base), base, enc);
      var d := Digits(Div(val, base), base, enc);
      assert Digits(val, base, enc)[..|d|] == d;
    }
  }

  lemma {:induction false} TextIsRead(val: nat, base: nat, enc: Code)
    requires 2 <= base <= 36 && (enc == LOWER || enc == UPPER)
    ensures Text(val, base, enc) != []
    ensures AllDigits(Text(val, base, enc), base) && ValueFrom(0, Text(val, base, enc), base) == val
  {
    if val > 0 {
      DigitsAreRead(val, base, enc);
    } else {
      assert [ZERO][..0] == [];
    }
  }

  /** A printed number does not start with a zero, unless it is 0. */
  lemma {:induction false} NoLeadingZero(val: nat, base: nat, enc: Code)
    requires 2 <= base <= 36 && (enc == LOWER || enc == UPPER) && val > 0
    ensures Digits(val, base, enc) != [] && Digits(val, base, enc)[0] != ZERO
  {
    hide Mul, Div;
    Shrinks(val, base);
    DivParts(val, base);
    if Div(val, base) > 0 {
      NoLeadingZero(Div(val, base), base, enc);
    } else {
      MulOrder(0, 0, base);
      assert Digits(0, base, enc) == [];
    }
  }

  /** Printing and scanning: every value of the word comes back, and the scan stops just after it. */
  lemma {:induction false} RoundTrip(val: nat, base: nat, enc: Code, t: seq<Code>, limit: nat)
    requires 2 <= base <= 36 && (enc == LOWER || enc == UPPER) && val < limit && Stops(t, base)
    ensures Scanned(Text(val, base, enc) + t, 0, base, limit) == Scan(val, t, false)
  {
    TextIsRead(val, base, enc);
    ScannedExactly(Text(val, base, enc), t, 0, base, limit);
  }

  // ---------------------------------------------------- the overflow test

  /** The digit `i` makes the overflow test fail: the number so far, reduced to the word, gets smaller
      than its 32 low bits. */
  ghost predicate SeenAt(s: seq<Code>, i: nat, base: nat, limit: nat)
    requires i < |s| && limit > 0
  {
    var v := ValueFrom(0, s[..i], base) % limit;
    (Mul(v, base) + Max0(TestBase(s[i], base))) % limit < v % TWO32
  }

  lemma {:induction false} ValueSnoc(s: seq<Code>, i: nat, base: nat, limit: nat)
    requires i < |s| && limit > 0
    ensures ValueFrom(0, s[..i + 1], base) % limit
            == (Mul(ValueFrom(0, s[..i], base) % limit, base) + Max0(TestBase(s[i], base))) % limit
  {
    hide Mul, TestBase;
    assert s[..i + 1][..i] == s[..i];
    ModStepMul(ValueFrom(0, s[..i], base), base, Max0(TestBase(s[i], base)), limit);
  }

  /** The first digit, from `i` on, that makes the test fail; |s| if there is none. */
  ghost function FirstSeen(s: seq<Code>, i: nat, base: nat, limit: nat): (k: nat)
    requires i <= |s| && limit > 0
    ensures i <= k <= |s| && (k < |s| ==> SeenAt(s, k, base, limit))
    ensures forall j :: i <= j < k ==> !SeenAt(s, j, base, limit)
    decreases |s| - i
  {
    if i == |s| || SeenAt(s, i, base, limit) then i else FirstSeen(s, i + 1, base, limit)
  }

  /** What the scan makes of digits up to a character that is none. */
  ghost function Outcome(s: seq<Code>, t: seq<Code>, i: nat, base: nat, limit: nat): Scan
    requires i <= |s| && limit > 0
  {
    var k := FirstSeen(s, i, base, limit);
    if k < |s| then Scan(0, s[k + 1..] + t, true) else Scan(ValueFrom(0, s, base) % limit, t, false)
  }

  lemma {:induction false} ScannedFrom(s: seq<Code>, t: seq<Code>, i: nat, base: nat, limit: nat)
    requires limit > 0 && AllDigits(s, base) && Stops(t, base) && i <= |s|
    ensures Scanned(s[i..] + t, ValueFrom(0, s[..i], base) % limit, base, limit) == Outcome(s, t, i, base, limit)
    decreases |s| - i
  {
    hide Mul, ValueFrom, Stops, TestBase, Outcome, SeenAt, AllDigits, Scanned;
    var v := ValueFrom(0, s[..i], base) % limit;
    if i == |s| {
      assert s[..i] == s && s[i..] + t == t;
      StopsHere(t, v, base, limit);
      OutcomeStep(s, t, i, base, limit);
    } else {
      assert s[i..] + t == [s[i]] + (s[i + 1..] + t);
      ValueSnoc(s, i, base, limit);
      DigitScanned(s, i, s[i + 1..] + t, base, limit);
      OutcomeStep(s, t, i, base, limit);
      if !SeenAt(s, i, base, limit) {
        ScannedFrom(s, t, i + 1, base, limit);
      }
    }
  }

  lemma {:induction false} OutcomeStep(s: seq<Code>, t: seq<Code>, i: nat, base: nat, limit: nat)
    requires limit > 0 && i <= |s|
    ensures Outcome(s, t, i, base, limit) ==
      if i == |s| then Scan(ValueFrom(0, s, base) % limit, t, false)
      else if SeenAt(s, i, base, limit) then Scan(0, s[i + 1..] + t, true)
      else Outcome(s, t, i + 1, base, limit)
  {
    hide SeenAt, ValueFrom;
  }

  lemma {:induction false} DigitScanned(s: seq<Code>, i: nat, u: seq<Code>, base: nat, limit: nat)
    requires limit > 0 && i < |s| && AllDigits(s, base)
    ensures var v := ValueFrom(0, s[..i], base) % limit;
      Scanned([s[i]] + u, v, base, limit) ==
        if SeenAt(s, i, base, limit) then Scan(0, u, true)
        else Scanned(u, (Mul(v, base) + Max0(TestBase(s[i], base))) % limit, base, limit)
  {
    hide Mul, ValueFrom, TestBase;
    assert ([s[i]] + u)[1..] == u;
  }

  /** Which numbers are read as they are, in any base and any size of word: those that fit in the word,
      and no other. */
  lemma {:induction false} ReadExactly(s: seq<Code>, t: seq<Code>, base: nat, limit: nat)
    requires limit > 0 && AllDigits(s, base) && Stops(t, base)
    ensures Scanned(s + t, 0, base, limit) == Scan(ValueFrom(0, s, base), t, false) <==> ValueFrom(0, s, base) < limit
  {
    hide Mul, Stops, Scanned;
    if ValueFrom(0, s, base) < limit {
      if base == 0 {
        assert |s| > 0 ==> TestBase(s[0], 0) < 0;
        assert s == [] && s + t == t;
        StopsHere(t, 0, base, limit);
      } else {
        ScannedExactly(s, t, 0, base, limit);
      }
    } else {
      ScansAll(s, t, base, limit);
    }
  }

  lemma {:induction false} ScansAll(s: seq<Code>, t: seq<Code>, base: nat, limit: nat)
    requires limit > 0 && AllDigits(s, base) && Stops(t, base)
    ensures Scanned(s + t, 0, base, limit) == Outcome(s, t, 0, base, limit)
  {
    hide Mul, Stops, Scanned, TestBase, SeenAt, Outcome;
    ScannedFrom(s, t, 0, base, limit);
    assert s[..0] == [] && s[0..] == s;
    ZeroFits(limit);
  }

  lemma {:induction false} ZeroFits(limit: nat)
    requires limit > 0
    ensures 0 % limit == 0
  {
  }

  /** When an overflow is seen: as soon as a digit makes the number, reduced to the word, smaller than
      its 32 low bits were.  Without such a digit, a number that does not fit in the word is read
      as another one, as if all were well. */
  lemma {:induction false} OverflowSeen(s: seq<Code>, t: seq<Code>, base: nat, limit: nat)
    requires limit > 0 && AllDigits(s, base) && Stops(t, base)
    ensures Scanned(s + t, 0, base, limit).overflow <==>
              exists i :: 0 <= i < |s| && SeenAt(s, i, base, limit)
    ensures Scanned(s + t, 0, base, limit) == Outcome(s, t, 0, base, limit)
  {
    hide Mul, Stops, Scanned, TestBase, SeenAt, ValueFrom;
    ScansAll(s, t, base, limit);
  }

  /** Overflows that are not seen: 6 * 10^9 in 32 bits and 2 * 10^19 in 64 are read as other numbers. */
  lemma {:induction false} OverflowMissed()
    ensures var s := DigitAndZeros(6, 9);
      && AllDigits(s, 10) && ValueFrom(0, s, 10) == 6000000000 >= TWO32
      && Scanned(s, 0, 10, TWO32) == Scan(6000000000 - TWO32, [], false)
    ensures var s := DigitAndZeros(2, 19);
      && AllDigits(s, 10) && ValueFrom(0, s, 10) == 20000000000000000000 >= TWO64
      && Scanned(s, 0, 10, TWO64) == Scan(20000000000000000000 - TWO64, [], false)
  {
    hide Power, Mul, Scanned;
    TenTo19();
    MissedAtLast(6, 8, TWO32);
    MissedAtLast(2, 18, TWO64);
  }

  /** The last zero makes the value pass the word, and the value that is left is not below the 32 low
      bits of the previous one. */
  lemma {:induction false} MissedAtLast(d: nat, k: nat, limit: nat)
    requires d < 10 && 0 < d * Power(10, k) < limit
    requires var v := d * Power(10, k); limit <= 10 * v < 2 * limit && 10 * v - limit >= v % TWO32
    ensures var s := DigitAndZeros(d, k + 1);
      && AllDigits(s, 10) && ValueFrom(0, s, 10) == 10 * (d * Power(10, k))
      && Scanned(s, 0, 10, limit) == Scan(10 * (d * Power(10, k)) - limit, [], false)
  {
    hide Power, Mul, Scanned;
    var s, t := DigitAndZeros(d, k), [ZERO];
    ValueOfZeros(d, k);
    ValueOfZeros(d, k + 1);
    PowerNext(d, k);
    ScannedPrefix(s, t, 0, 10, limit);
    assert s + t == DigitAndZeros(d, k + 1);
    LastZero(d * Power(10, k), limit);
  }

  lemma {:induction false} PowerNext(d: nat, k: nat)
    ensures d * Power(10, k + 1) == 10 * (d * Power(10, k))
  {
  }

  lemma {:induction false} LastZero(v: nat, limit: nat)
    requires v < limit <= 10 * v < 2 * limit && 10 * v - limit >= v % TWO32
    ensures Scanned([ZERO], v, 10, limit) == Scan(10 * v - limit, [], false)
  {
    hide AllDigits, Div;
    assert 10 * v == Mul(v, 10) && Mul(1, limit) == limit;
    MulOrder(1, 1, limit);
    DivIs(10 * v, limit, 1, 10 * v - limit);
    DivParts(10 * v, limit);
    StopsHere([], 10 * v - limit, 10, limit);
    assert [ZERO][1..] == [];
  }

  lemma {:induction false} TenTo19()
    ensures Power(10, 8) == 100000000 && Power(10, 18) == 1000000000000000000
  {
    assert Power(10, 6) == 1000000;
    assert Power(10, 12) == 1000000000000;
  }

  ghost function DigitAndZeros(d: nat, k: nat): (s: seq<Code>)
    ensures |s| == k + 1
  {
    [ZERO + d] + seq(k, i => ZERO)
  }

  lemma {:induction false} ValueOfZeros(d: nat, k: nat)
    requires d < 10
    ensures AllDigits(DigitAndZeros(d, k), 10) && ValueFrom(0, DigitAndZeros(d, k), 10) == d * Power(10, k)
  {
    if k > 0 {
      ValueOfZeros(d, k - 1);
      assert DigitAndZeros(d, k)[..k] == DigitAndZeros(d, k - 1);
    } else {
      assert DigitAndZeros(d, 0) == [ZERO + d] && [ZERO + d][..0] == [];
    }
  }
}
