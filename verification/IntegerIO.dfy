/** Printing of integers by `elm::io::Output`, scanning of integers by `elm::io::Input`. */
module IntegerIO {
  import opened Arith
  import opened IntegerText

  const MINUS := 45
  const PLUS := 43

  /** What is printed of a signed number. */
  ghost function SignedText(val: int): seq<Code> {
    (if val < 0 then [MINUS] else []) + Text(if val < 0 then -val else val, 10, LOWER)
  }

  /** Examples, character by character. */
  lemma {:induction false} SignedExamples()
    ensures SignedText(-1234567890) == CodesOf("-1234567890") && SignedText(1234567890) == CodesOf("1234567890")
  {
    hide Text;
    TextExamples();
    assert CodesOf("-1234567890") == CodesOf("-") + CodesOf("1234567890");
  }

  class Output {
    /** What has been written. */
    var out: seq<Code>

    constructor ()
      ensures out == []
    {
      out := [];
    }

    /** Write the digits of a number before position p; returns the position of the first one. */
    static method Horner(buffer: array<int>, p0: nat, val0: nat, base: int, enc: Code) returns (p: nat)
      requires base >= 2 && p0 <= buffer.Length && |Text(val0, base, enc)| <= p0
      modifies buffer
      ensures p == p0 - |Text(val0, base, enc)| && buffer[p..p0] == Text(val0, base, enc)
      ensures buffer[p0..] == old(buffer[p0..])
    {
      hide Div, Digits, DigitChar;
      var val := val0;
      p := p0;
      DigitsOfZero(base, enc);
      if val == 0 {
        p := p - 1;
        buffer[p] := ZERO;
      } else {
        assert buffer[p..p0] == [] && Digits(val, base, enc) + [] == Digits(val, base, enc);
        while val != 0
          invariant p <= p0 && val >= 0 && buffer[p0..] == old(buffer[p0..])
          invariant Digits(val0, base, enc) == Digits(val, base, enc) + buffer[p..p0]
          decreases val
        {
          Shrinks(val, base);
          DigitsStep(val, base, enc, buffer[p..p0]);
          var digit := val % base;
          val := Div(val, base);
          p := PutDigit(buffer, p, p0, digit, enc);
        }
      }
    }

    static method PutDigit(buffer: array<int>, p0: nat, end: nat, digit: int, enc: Code) returns (p: nat)
      requires 0 < p0 <= end <= buffer.Length
      modifies buffer
      ensures p == p0 - 1 && buffer[p..end] == [DigitChar(digit, enc)] + old(buffer[p0..end])
      ensures buffer[end..] == old(buffer[end..])
    {
      p := p0 - 1;
      buffer[p] := if digit < 10 then ZERO + digit else enc + digit - 10;
    }

    /** The unsigned printing functions, for words of `limit` values and a buffer of `size` characters. */
    method PrintUnsigned(value: nat, limit: nat, size: nat)
      requires (limit == TWO32 && size == 16) || (limit == TWO64 && size == 32)
      requires value < limit
      modifies `out
      ensures out == old(out) + Text(value, 10, LOWER)
    {
      hide Text;
      DecimalWidth(value);
      var buffer := new int[size](i => 0);
      var p := Horner(buffer, size, value, 10, LOWER);
      out := out + buffer[p..size];
    }

    /** The signed ones.  The opposite of the least value is itself in its type, and is right once
        it is unsigned. */
    method PrintSigned(value: int, limit: nat, size: nat)
      requires (limit == TWO32 && size == 16) || (limit == TWO64 && size == 64)
      requires -(limit / 2) <= value < limit / 2
      modifies `out
      ensures out == old(out) + SignedText(value)
    {
      hide Text;
      var neg, uval := value < 0, value;
      if neg {
        uval := -value % limit;
      }
      DecimalWidth(uval);
      var buffer := new int[size](i => 0);
      var p := Horner(buffer, size, uval, 10, LOWER);
      ghost var digits := buffer[p..size];
      if neg {
        p := p - 1;
        buffer[p] := MINUS;
        assert buffer[p..size] == [MINUS] + digits;
      } else {
        assert [] + digits == digits;
      }
      out := out + buffer[p..size];
    }
  }

  lemma {:induction false} DigitsOfZero(base: int, enc: Code)
    requires base >= 2
    ensures Digits(0, base, enc) == []
  {
  }

  lemma {:induction false} DigitsStep(val: nat, base: int, enc: Code, written: seq<Code>)
    requires base >= 2 && val > 0
    ensures Div(val, base) >= 0 && Digits(val, base, enc) != []
    ensures Digits(val, base, enc) + written
      == Digits(Div(val, base), base, enc) + ([DigitChar(val % base, enc)] + written)
  {
    hide Div;
    Shrinks(val, base);
  }

  // ------------------------------------------------------------------ scanning

  predicate IsSpace(c: Code) {
    c == 32 || 9 <= c <= 13
  }

  ghost function Skipped(s: seq<Code>): seq<Code> {
    if s != [] && IsSpace(s[0]) then Skipped(s[1..]) else s
  }

  /** The base that a prefix gives, and whether the prefix is itself a digit. */
  datatype Prefix = Prefix(base: nat, rest: seq<Code>, one: bool)

  ghost function Prefixed(s: seq<Code>, base: nat): Prefix {
    if base != 0 then Prefix(base, s, false)
    else if s == [] || s[0] != ZERO then Prefix(10, s, false)
    else if |s| > 1 && (s[1] == 120 || s[1] == 88) then Prefix(16, s[2..], false)
    else if |s| > 1 && (s[1] == 98 || s[1] == 66) then Prefix(2, s[2..], false)
    else Prefix(8, s[1..], true)
  }

  datatype Result = Result(val: int, rest: seq<Code>, failed: bool)

  /** The prefixes, the signs and the spaces, character by character. */
  lemma {:induction false} PrefixCharacters(t: seq<Code>)
    ensures Prefixed(CodesOf("0x") + t, 0) == Prefixed(CodesOf("0X") + t, 0) == Prefix(16, t, false)
    ensures Prefixed(CodesOf("0b") + t, 0) == Prefixed(CodesOf("0B") + t, 0) == Prefix(2, t, false)
    ensures t == [] || t[0] !in CodesOf("xXbB") ==> Prefixed(CodesOf("0") + t, 0) == Prefix(8, t, true)
    ensures t == [] || t[0] !in CodesOf("0") ==> Prefixed(t, 0) == Prefix(10, t, false)
  {
    Dropped("0x", t);
    Dropped("0X", t);
    Dropped("0b", t);
    Dropped("0B", t);
    Dropped("0", t);
    var letters := CodesOf("xXbB");
    assert letters[0] == 120 && letters[1] == 88 && letters[2] == 98 && letters[3] == 66;
    assert CodesOf("0")[0] == ZERO;
  }

  lemma {:induction false} Dropped(s: string, t: seq<Code>)
    ensures (CodesOf(s) + t)[|s|..] == t && forall i :: 0 <= i < |s| ==> (CodesOf(s) + t)[i] == s[i] as int
  {
  }

  lemma {:induction false} SignsAndSpaces(c: Code)
    ensures MINUS == '-' as int && PLUS == '+' as int
    ensures IsSpace(c) <==> c in [' ' as int, '\t' as int, '\n' as int, 11, 12, '\r' as int]
  {
  }

  ghost function ScanUnsignedOf(s: seq<Code>, base: nat, limit: nat): Result
    requires limit > 0
  {
    var p := Prefixed(Skipped(s), base);
    var r := Scanned(p.rest, 0, p.base, limit);
    var none := !p.one && r.rest == p.rest;
    Result(r.val, r.rest, r.overflow || none)
  }

  ghost function ScanSignedOf(s: seq<Code>, base: nat, limit: nat): Result
    requires limit > 0
  {
    var u := Skipped(s);
    if u == [] then Result(0, [], true)
    else
      var r := ScanUnsignedOf(if u[0] == MINUS || u[0] == PLUS then u[1..] else u, base, limit);
      if r.val >= limit / 2 then Result(0, r.rest, true)
      else Result(if u[0] == MINUS then -r.val else r.val, r.rest, r.failed)
  }

  class Input {
    /** What the stream has still to deliver. */
    var rest: seq<Code>
    /** A pushed back character, or -1. */
    var buf: Code
    var ended: bool
    var failed: bool

    ghost predicate Valid()
      reads `rest, `buf
    {
      (forall i :: 0 <= i < |rest| ==> 0 <= rest[i] < 256) && -1 <= buf < 256
    }

    /** What remains to be read. */
    ghost function Pending(): seq<Code>
      reads `rest, `buf
    {
      if buf >= 0 then [buf] + rest else rest
    }

    constructor (text: seq<Code>)
      requires forall i :: 0 <= i < |text| ==> 0 <= text[i] < 256
      ensures Valid() && Pending() == text && !failed && !ended
    {
      rest, buf, ended, failed := text, -1, false, false;
    }

    /** The next character, or -1. */
    method Get() returns (res: Code)
      requires Valid()
      modifies `rest, `buf, `ended
      ensures Valid() && buf == -1
      ensures old(Pending()) == [] ==> res == -1 && Pending() == [] && ended
      ensures old(Pending()) != [] ==> res >= 0 && old(Pending()) == [res] + Pending() && ended == old(ended)
      ensures res < 256
    {
      if buf >= 0 {
        res := buf;
        buf := -1;
      } else if rest == [] {
        res := -1;
        ended := true;
      } else {
        res := rest[0];
        rest := rest[1..];
      }
    }

    method Back(chr: Code)
      requires Valid() && buf < 0 && 0 <= chr < 256
      modifies `buf
      ensures Valid() && Pending() == [chr] + old(Pending())
    {
      buf := chr;
    }

    /** A character has been got; it is -1 at the end only. */
    ghost predicate Got(c: Code)
      reads `rest, `buf
    {
      Valid() && buf == -1 && -1 <= c < 256 && (c == -1 ==> Pending() == [])
    }

    /** The text of a character that has been got, and of what follows. */
    ghost function From(c: Code): seq<Code>
      reads `rest, `buf
    {
      if c >= 0 then [c] + Pending() else []
    }

    /** The first character that is not a space. */
    method Skip() returns (c: Code)
      requires Valid()
      modifies `rest, `buf, `ended
      ensures Got(c) && From(c) == Skipped(old(Pending()))
    {
      c := Get();
      while IsSpace(c)
        invariant Got(c)
        invariant Skipped(From(c)) == Skipped(old(Pending()))
        decreases |From(c)|
      {
        assert From(c)[1..] == Pending();
        c := Get();
      }
    }

    /** `scanULong` and `scanULLong`, with words of `limit` values. */
    method ScanUnsigned(base0: nat, limit: nat) returns (val: nat)
      requires Valid() && (limit == TWO32 || limit == TWO64) && base0 <= 36
      modifies this
      ensures Valid()
      ensures var r := ScanUnsignedOf(old(Pending()), base0, limit);
        val == r.val && Pending() == r.rest && failed == (old(failed) || r.failed)
    {
      hide Scanned;
      var base, one := base0, false;
      var chr := Skip();
      ghost var text := From(chr);
      if base == 0 {
        base, one, chr := ScanPrefix(chr);
      }
      ghost var p := Prefixed(text, base0);
      assert From(chr) == p.rest && base == p.base && one == p.one;
      var some, overflow;
      val, some, overflow := ScanDigits(chr, base, limit);
      if overflow {
        failed := true;
        return 0;
      }
      one := one || some;
      if !one {
        failed := true;
      }
    }

    /** The loop that reads the digits, and pushes back what follows them. */
    method ScanDigits(c: Code, base: nat, limit: nat) returns (val: nat, some: bool, overflow: bool)
      requires Got(c) && (limit == TWO32 || limit == TWO64) && base <= 36
      modifies `rest, `buf, `ended
      ensures Valid()
      ensures var r := Scanned(old(From(c)), 0, base, limit);
        val == r.val && Pending() == r.rest && overflow == r.overflow && some == (r.rest != old(From(c)))
      ensures overflow ==> val == 0
    {
      hide Scanned, Mul;
      val, some, overflow := 0, false, false;
      var chr := c;
      ghost var text := From(c);
      var digit := TestBase(chr, base);
      while digit >= 0
        invariant Got(chr) && digit == TestBase(chr, base)
        invariant Scanned(From(chr), val, base, limit) == Scanned(text, 0, base, limit)
        invariant some == (|From(chr)| < |text|) && |From(chr)| <= |text| && (!some ==> From(chr) == text)
        decreases |From(chr)|
      {
        NoDigitAtEnd(base);
        ScannedStep(From(chr), val, base, limit);
        assert From(chr)[1..] == Pending();
        var previous := val % TWO32;
        val := (Mul(val, base) + digit) % limit;
        some := true;
        if val < previous {
          overflow := true;
          return 0, true, true;
        }
        chr := Get();
        digit := TestBase(chr, base);
      }
      ScannedStep(From(chr), val, base, limit);
      if chr >= 0 {
        Back(chr);
      }
    }

    /** The base of a number that is not given one: hexadecimal, binary, octal or decimal. */
    method ScanPrefix(c: Code) returns (base: nat, one: bool, chr: Code)
      requires Got(c)
      modifies `rest, `buf, `ended
      ensures Got(chr)
      ensures Prefixed(old(From(c)), 0) == Prefix(base, From(chr), one)
    {
      one, chr := false, c;
      if chr == ZERO {
        ghost var text := From(c);
        chr := Get();
        assert text == [ZERO] + From(chr);
        if chr == 120 || chr == 88 {
          base := 16;
          assert text[2..] == Pending();
          chr := Get();
        } else if chr == 98 || chr == 66 {
          base := 2;
          assert text[2..] == Pending();
          chr := Get();
        } else {
          one := true;
          base := 8;
          assert text[1..] == From(chr);
        }
      } else {
        base := 10;
      }
    }

    /** `scanLong` and `scanLLong`. */
    method ScanSigned(base: nat, limit: nat) returns (val: int)
      requires Valid() && (limit == TWO32 || limit == TWO64) && base <= 36
      modifies this
      ensures Valid()
      ensures var r := ScanSignedOf(old(Pending()), base, limit);
        val == r.val && Pending() == r.rest && failed == (old(failed) || r.failed)
    {
      hide Scanned, ScanUnsignedOf, Skipped;
      var neg := false;
      var chr := Skip();
      ghost var text := From(chr);
      if chr == MINUS {
        neg := true;
      } else if chr != PLUS {
        if chr < 0 {
          failed := true;
          return 0;
        }
        Back(chr);
      }
      assert text == [chr] + text[1..];
      assert Pending() == if text[0] == MINUS || text[0] == PLUS then text[1..] else text;
      var u := ScanUnsigned(base, limit);
      if u >= limit / 2 {
        failed := true;
        return 0;
      }
      val := if neg then -u else u;
    }
  }

  lemma {:induction false} NoDigitAtEnd(base: nat)
    requires base <= 36
    ensures TestBase(-1, base) < 0
  {
  }

  lemma {:induction false} ScannedStep(s: seq<Code>, val: nat, base: nat, limit: nat)
    requires limit > 0
    ensures s == [] || TestBase(s[0], base) < 0 ==> Scanned(s, val, base, limit) == Scan(val, s, false)
    ensures s != [] && TestBase(s[0], base) >= 0 ==>
      var next := (Mul(val, base) + TestBase(s[0], base)) % limit;
      Scanned(s, val, base, limit) ==
        if next < val % TWO32 then Scan(0, s[1..], true) else Scanned(s[1..], next, base, limit)
  {
    hide Mul;
  }

  // --------------------------------------------------------------- round trip

  /** What may follow a printed number: no digit and, if the base is to be found, no letter that
      would make a prefix of a printed 0. */
  ghost predicate Follows(t: seq<Code>, val: nat, base: nat, printed: nat) {
    && Stops(t, printed)
    && (base == 0 && val == 0 ==> t == [] || (t[0] != 120 && t[0] != 88 && t[0] != 98 && t[0] != 66))
  }

  /** Scanning undoes printing, for every value of the word; the base may be left out if it is ten. */
  lemma {:induction false} UnsignedRoundTrip(val: nat, base: nat, printed: nat, enc: Code, t: seq<Code>, limit: nat)
    requires 2 <= printed <= 36 && (enc == LOWER || enc == UPPER) && val < limit && limit > 0
    requires base == printed || (base == 0 && printed == 10)
    requires Follows(t, val, base, printed)
    ensures ScanUnsignedOf(Text(val, printed, enc) + t, base, limit) == Result(val, t, false)
  {
    hide Mul, Scanned, Digits;
    var text := Text(val, printed, enc);
    TextIsRead(val, printed, enc);
    DigitIsNoSpace(text[0], printed);
    assert Skipped(text + t) == text + t;
    if base == 0 && val == 0 {
      assert (text + t)[1..] == t;
      StopsAfterZero(t, limit);
    } else {
      if base == 0 {
        NoLeadingZero(val, printed, enc);
      }
      assert Prefixed(text + t, base) == Prefix(printed, text + t, false);
      RoundTrip(val, printed, enc, t, limit);
      assert |text + t| > |t|;
    }
  }

  lemma {:induction false} DigitIsNoSpace(c: Code, base: nat)
    requires 2 <= base <= 36 && TestBase(c, base) >= 0
    ensures !IsSpace(c) && c != MINUS && c != PLUS
  {
  }

  lemma {:induction false} StopsAfterZero(t: seq<Code>, limit: nat)
    requires Stops(t, 10) && limit > 0
    ensures Scanned(t, 0, 8, limit) == Scan(0, t, false)
  {
    StopsHere(t, 0, 8, limit);
  }

  /** Signed numbers, in decimal: every value comes back but the least one of the type, which is
      printed right and then refused by the scan. */
  lemma {:induction false} SignedRoundTrip(val: int, base: nat, t: seq<Code>, limit: nat)
    requires (limit == TWO32 || limit == TWO64) && -(limit / 2) <= val < limit / 2 && (base == 10 || base == 0)
    requires Follows(t, if val < 0 then -val else val, base, 10)
    ensures ScanSignedOf(SignedText(val) + t, base, limit) == Result(val, t, false) <==> val != -(limit / 2)
    ensures val == -(limit / 2) ==> ScanSignedOf(SignedText(val) + t, base, limit) == Result(0, t, true)
  {
    hide Digits, Text, ScanUnsignedOf;
    var u := if val < 0 then -val else val;
    var digits := Text(u, 10, LOWER);
    var text := SignedText(val) + t;
    TextIsRead(u, 10, LOWER);
    DigitIsNoSpace(digits[0], 10);
    UnsignedRoundTrip(u, base, 10, LOWER, t, limit);
    if val < 0 {
      assert text[1..] == digits + t && text[0] == MINUS;
    } else {
      assert text == digits + t;
    }
    assert Skipped(text) == text;
  }

  /** The two classes together. */
  method PrintAndScan(val: int, limit: nat) returns (back: int, failed: bool)
    requires (limit == TWO32 || limit == TWO64) && -(limit / 2) <= val < limit / 2
    ensures !failed && back == val <==> val != -(limit / 2)
  {
    hide ScanSignedOf, SignedText;
    var output := new Output();
    output.PrintSigned(val, limit, if limit == TWO32 then 16 else 64);
    assert [] + SignedText(val) == SignedText(val) == SignedText(val) + [];
    TextIsAscii(val);
    var input := new Input(output.out);
    SignedRoundTrip(val, 0, [], limit);
    back := input.ScanSigned(0, limit);
    failed := input.failed;
  }

  lemma {:induction false} TextIsAscii(val: int)
    ensures forall i :: 0 <= i < |SignedText(val)| ==> 0 <= SignedText(val)[i] < 256
  {
    hide Text, Digits;
    var digits := Text(if val < 0 then -val else val, 10, LOWER);
    TextIsRead(if val < 0 then -val else val, 10, LOWER);
    forall i | 0 <= i < |digits| ensures 0 <= digits[i] < 256 {
      assert TestBase(digits[i], 10) >= 0;
    }
    if val < 0 {
      assert forall i :: 0 < i < |SignedText(val)| ==> SignedText(val)[i] == digits[i - 1];
    } else {
      assert SignedText(val) == digits;
    }
  }
}
