/** The buffering and the padding of `elm::checksum::MD5`, for any block function: the 64 rounds of
    `encode` are a parameter. */
module MD5 {
  import opened Arith
  import opened Streams

  const BUFFER := 1024

  type word = x: int | 0 <= x < TWO32

  datatype Regs = Regs(A: word, B: word, C: word, D: word)

  /** The block function. */
  type Rounds = (Regs, seq<byte>) -> Regs

  function Initial(): Regs { Regs(0x67452301, 0xefcdab89, 0x98badcfe, 0x10325476) }

  /** RFC 1321, section 3.3: the words A, B, C and D, the low byte of each one first. */
  lemma {:induction false} InitialBytes()
    ensures LittleEndian(Initial().A, 4) == [0x01, 0x23, 0x45, 0x67]
    ensures LittleEndian(Initial().B, 4) == [0x89, 0xab, 0xcd, 0xef]
    ensures LittleEndian(Initial().C, 4) == [0xfe, 0xdc, 0xba, 0x98]
    ensures LittleEndian(Initial().D, 4) == [0x76, 0x54, 0x32, 0x10]
  {
    hide LittleEndian;
    FourBytes(Initial().A);
    FourBytes(Initial().B);
    FourBytes(Initial().C);
    FourBytes(Initial().D);
  }

  /** All the blocks of a message of whole blocks, in order. */
  ghost function Fold(f: Rounds, s: seq<byte>): Regs
    requires |s| % 64 == 0
  {
    if s == [] then Initial() else f(Fold(f, s[..|s| - 64]), s[|s| - 64..])
  }

  lemma {:induction false} FoldSnoc(f: Rounds, s: seq<byte>, b: seq<byte>)
    requires |s| % 64 == 0 && |b| == 64
    ensures |s + b| % 64 == 0 && Fold(f, s + b) == f(Fold(f, s), b)
  {
    assert (s + b)[..|s + b| - 64] == s && (s + b)[|s + b| - 64..] == b;
  }

  // ------------------------------------------------------------------ padding

  function Zeros(n: nat): (z: seq<byte>)
    ensures |z| == n && forall i :: 0 <= i < n ==> z[i] == 0
  {
    seq(n, i => 0)
  }

  /** `n` bytes of a number, the lowest first. */
  function LittleEndian(x: nat, n: nat): (s: seq<byte>)
    ensures |s| == n
  {
    if n == 0 then [] else [x % 256] + LittleEndian(x / 256, n - 1)
  }

  /** The number of zeros after the first padding byte. */
  function Gap(n: nat): (k: nat)
    ensures k < 64 && (n + 1 + k) % 64 == 56
  {
    (55 - n) % 64
  }

  /** Padding of RFC 1321, sections 3.1 and 3.2: a byte 0x80, the fewest zeros that leave 8 bytes in
      the last block, and there the length. */
  function PaddedWith(m: seq<byte>, length: seq<byte>): (s: seq<byte>)
    requires |length| == 8
    ensures |s| == |m| + Gap(|m|) + 9 && |s| % 64 == 0
  {
    m + [0x80] + Zeros(Gap(|m|)) + length
  }

  /** The length of the RFC, in bits modulo 2^64. */
  function LengthField(n: nat): (s: seq<byte>)
    ensures |s| == 8
  {
    LittleEndian(8 * n % (TWO32 * TWO32), 8)
  }

  /** The length the code writes, in bits modulo 2^32. */
  function CodeField(n: nat): (s: seq<byte>)
    ensures |s| == 8
  {
    LittleEndian(8 * n % TWO32, 4) + Zeros(4)
  }

  lemma {:induction false} LittleEndianSplit(x: nat, k: nat, n: nat)
    requires k <= n
    ensures LittleEndian(x, n) == LittleEndian(x, k) + LittleEndian(Shifted(x, k), n - k)
  {
    if k > 0 {
      LittleEndianSplit(x / 256, k - 1, n - 1);
      assert LittleEndian(x, n) == [x % 256] + (LittleEndian(x / 256, k - 1) + LittleEndian(Shifted(x, k), n - k));
    }
  }

  function Shifted(x: nat, k: nat): nat {
    if k == 0 then x else Shifted(x / 256, k - 1)
  }

  lemma {:induction false} LittleEndianAt(x: nat, n: nat, i: nat)
    requires i < n
    ensures LittleEndian(x, n)[i] == Shifted(x, i) % 256
  {
    if i > 0 {
      LittleEndianAt(x / 256, n - 1, i - 1);
    }
  }

  /** The digest of RFC 1321, section 3.5: the registers A to D, the low byte of each one first. */
  function Digest(r: Regs): (s: seq<byte>)
    ensures |s| == 16
  {
    LittleEndian(r.A, 4) + LittleEndian(r.B, 4) + LittleEndian(r.C, 4) + LittleEndian(r.D, 4)
  }

  lemma {:induction false} WordBytes(x: word, y: word)
    requires LittleEndian(x, 4) == LittleEndian(y, 4)
    ensures x == y
  {
    hide LittleEndian;
    FourBytes(x);
    FourBytes(y);
    var s, t := LittleEndian(x, 4), LittleEndian(y, 4);
    assert s[0] == t[0] && s[1] == t[1] && s[2] == t[2] && s[3] == t[3];
    Recomposed(x);
    Recomposed(y);
  }

  lemma {:induction false} Recomposed(x: word)
    ensures x == x % 256 + 256 * (x / 256 % 256 + 256 * (x / 256 / 256 % 256 + 256 * (x / 256 / 256 / 256 % 256)))
  {
  }

  /** The sixteen bytes of a digest, one by one. */
  lemma {:induction false} DigestBytes(r: Regs)
    ensures var d := Digest(r);
      && d[0] == r.A % 256 && d[1] == r.A / 256 % 256
      && d[2] == r.A / 256 / 256 % 256 && d[3] == r.A / 256 / 256 / 256 % 256
      && d[4] == r.B % 256 && d[5] == r.B / 256 % 256
      && d[6] == r.B / 256 / 256 % 256 && d[7] == r.B / 256 / 256 / 256 % 256
      && d[8] == r.C % 256 && d[9] == r.C / 256 % 256
      && d[10] == r.C / 256 / 256 % 256 && d[11] == r.C / 256 / 256 / 256 % 256
      && d[12] == r.D % 256 && d[13] == r.D / 256 % 256
      && d[14] == r.D / 256 / 256 % 256 && d[15] == r.D / 256 / 256 / 256 % 256
  {
    hide LittleEndian;
    FourBytes(r.A);
    FourBytes(r.B);
    FourBytes(r.C);
    FourBytes(r.D);
  }

  /** The digest tells all four registers. */
  lemma {:induction false} DigestTellsRegs(r: Regs, q: Regs)
    requires Digest(r) == Digest(q)
    ensures r == q
  {
    hide LittleEndian;
    var s, t := Digest(r), Digest(q);
    assert s[0..4] == LittleEndian(r.A, 4) && t[0..4] == LittleEndian(q.A, 4);
    assert s[4..8] == LittleEndian(r.B, 4) && t[4..8] == LittleEndian(q.B, 4);
    assert s[8..12] == LittleEndian(r.C, 4) && t[8..12] == LittleEndian(q.C, 4);
    assert s[12..] == LittleEndian(r.D, 4) && t[12..] == LittleEndian(q.D, 4);
    WordBytes(r.A, q.A);
    WordBytes(r.B, q.B);
    WordBytes(r.C, q.C);
    WordBytes(r.D, q.D);
  }

  lemma {:induction false} FourBytes(x: nat)
    ensures LittleEndian(x, 4) == [x % 256, x / 256 % 256, x / 256 / 256 % 256, x / 256 / 256 / 256 % 256]
  {
    var a, b, c := x / 256, x / 256 / 256, x / 256 / 256 / 256;
    assert LittleEndian(c, 1) == [c % 256] + LittleEndian(c / 256, 0);
    assert LittleEndian(b, 2) == [b % 256] + LittleEndian(c, 1);
    assert LittleEndian(a, 3) == [a % 256] + LittleEndian(b, 2);
    assert LittleEndian(x, 4) == [x % 256] + LittleEndian(a, 3);
  }

  lemma {:induction false} OneByte(low: nat, rest: nat)
    requires low < 256
    ensures (low + 256 * rest) / 256 == rest && (low + 256 * rest) % 256 == low
  {
  }

  /** A number by its bytes. */
  lemma {:induction false} BytesOf(x: nat)
    ensures var a, b, c := x / 256, x / 256 / 256, x / 256 / 256 / 256;
      && x == x % 256 + 256 * a && a == a % 256 + 256 * b && b == b % 256 + 256 * c && c == c % 256 + 256 * (c / 256)
  {
  }

  lemma {:induction false} LowWord(d: nat, r: nat)
    requires r < TWO32
    ensures (d * TWO32 + r) / TWO32 == d && (d * TWO32 + r) % TWO32 == r
  {
    assert (d * TWO32 + r) / TWO32 == d;
  }

  lemma {:induction false} Quarters(x: nat)
    ensures x / 256 / 256 / 256 / 256 == x / TWO32
    ensures x % TWO32 % 256 == x % 256 && x % TWO32 / 256 % 256 == x / 256 % 256
    ensures x % TWO32 / 256 / 256 % 256 == x / 256 / 256 % 256
    ensures x % TWO32 / 256 / 256 / 256 % 256 == x / 256 / 256 / 256 % 256
  {
    var x0, a0, b0, c0 := x % 256, x / 256 % 256, x / 256 / 256 % 256, x / 256 / 256 / 256 % 256;
    var d := x / 256 / 256 / 256 / 256;
    BytesOf(x);
    FourBytesLow(x0, a0, b0, c0, d);
  }

  lemma {:induction false} FourBytesLow(x0: nat, a0: nat, b0: nat, c0: nat, d: nat)
    requires x0 < 256 && a0 < 256 && b0 < 256 && c0 < 256
    ensures var r := x0 + 256 * (a0 + 256 * (b0 + 256 * c0));
      var x := x0 + 256 * (a0 + 256 * (b0 + 256 * (c0 + 256 * d)));
      && r < TWO32 && x / TWO32 == d && x % TWO32 == r && r % 256 == x0 && r / 256 % 256 == a0
      && r / 256 / 256 % 256 == b0 && r / 256 / 256 / 256 % 256 == c0
  {
    var r := x0 + 256 * (a0 + 256 * (b0 + 256 * c0));
    LowWord(d, r);
    OneByte(x0, a0 + 256 * (b0 + 256 * c0));
    OneByte(a0, b0 + 256 * c0);
    OneByte(b0, c0);
  }

  lemma {:induction false} FourLow(x: nat)
    ensures LittleEndian(x, 4) == LittleEndian(x % TWO32, 4)
    ensures Shifted(x, 4) == x / TWO32
  {
    hide LittleEndian;
    FourBytes(x);
    FourBytes(x % TWO32);
    Quarters(x);
    assert Shifted(x / 256 / 256 / 256, 1) == Shifted(x / 256 / 256 / 256 / 256, 0);
    assert Shifted(x / 256 / 256, 2) == Shifted(x / 256 / 256 / 256, 1);
  }

  lemma {:induction false} FourZeros(x: nat)
    requires x < TWO32
    ensures LittleEndian(x, 4) == Zeros(4) <==> x == 0
  {
    hide LittleEndian;
    FourBytes(x);
    if LittleEndian(x, 4) == Zeros(4) {
      assert LittleEndian(x, 4)[0] == LittleEndian(x, 4)[1] == LittleEndian(x, 4)[2] == LittleEndian(x, 4)[3] == 0;
    }
  }

  lemma {:induction false} SamePrefix(a: seq<byte>, b: seq<byte>, c: seq<byte>)
    ensures a + b == a + c <==> b == c
  {
    assert (a + b)[|a|..] == b && (a + c)[|a|..] == c;
  }

  lemma {:induction false} LowPart(y: nat)
    ensures y % (TWO32 * TWO32) % TWO32 == y % TWO32
    ensures y % (TWO32 * TWO32) / TWO32 < TWO32
    ensures y % (TWO32 * TWO32) / TWO32 == 0 <==> y % (TWO32 * TWO32) < TWO32
  {
  }

  lemma {:induction false} FieldIsStandard(n: nat)
    ensures CodeField(n) == LengthField(n) <==> 8 * n % (TWO32 * TWO32) < TWO32
  {
    hide Zeros, LittleEndian, Shifted;
    var x := 8 * n % (TWO32 * TWO32);
    LowPart(8 * n);
    LittleEndianSplit(x, 4, 8);
    FourLow(x);
    FourZeros(x / TWO32);
    SamePrefix(LittleEndian(x, 4), LittleEndian(x / TWO32, 4), Zeros(4));
  }

  /** The code pads as the RFC asks exactly when the length in bits, modulo 2^64, is below 2^32; so
      for every message of less than 2^29 bytes. */
  lemma {:induction false} PaddingIsStandard(m: seq<byte>)
    ensures PaddedWith(m, CodeField(|m|)) == PaddedWith(m, LengthField(|m|)) <==> 8 * |m| % (TWO32 * TWO32) < TWO32
    ensures |m| < 0x2000_0000 ==> PaddedWith(m, CodeField(|m|)) == PaddedWith(m, LengthField(|m|))
  {
    hide CodeField, LengthField;
    FieldIsStandard(|m|);
    var k := |m| + 1 + Gap(|m|);
    assert PaddedWith(m, CodeField(|m|))[k..] == CodeField(|m|);
    assert PaddedWith(m, LengthField(|m|))[k..] == LengthField(|m|);
  }

  // ---------------------------------------------------------------- the sum

  class MD5 {
    const encode: Rounds
    const buf: array<byte>
    var size: nat
    /** Length of the message in bytes, modulo 2^32. */
    var bits: nat
    var regs: Regs
    var finalized: bool
    const digest: array<byte>
    /** The message so far, and how much of it has been encoded. */
    ghost var message: seq<byte>
    ghost var done: nat

    ghost predicate Valid()
      reads this, buf
    {
      && buf.Length == BUFFER && size <= BUFFER && digest.Length == 16
      && done + size == |message| && done % 64 == 0 && message[done..] == buf[..size]
      && !finalized && regs == Fold(encode, message[..done]) && bits == done % TWO32
    }

    constructor (encode: Rounds)
      ensures Valid() && message == [] && size == 0 && fresh(buf) && fresh(digest)
      ensures this.encode == encode
    {
      this.encode := encode;
      buf := new byte[BUFFER](i => 0);
      digest := new byte[16](i => 0);
      size, bits, regs, finalized := 0, 0, Initial(), false;
      message, done := [], 0;
    }

    /** What has been encoded, when the buffer is processed up to i. */
    ghost predicate Encoded(i: nat)
      reads this, buf
    {
      && buf.Length == BUFFER && i <= size <= BUFFER && !finalized && digest.Length == 16
      && done + (size - i) == |message| && done % 64 == 0 && message[done..] == buf[i..size]
      && regs == Fold(encode, message[..done]) && bits == done % TWO32
    }

    /** Encode the whole blocks of the buffer, and keep the rest: less than one block. */
    method Update()
      requires Valid()
      modifies this, buf
      ensures Valid() && size < 64 && message == old(message)
    {
      hide Fold;
      var i := 0;
      assert buf[0..size] == buf[..size];
      while size - i > 63
        invariant 0 <= i <= size && Encoded(i)
        decreases size - i
        modifies `bits, `regs, `done
      {
        EncodeBlock(i);
        i := i + 64;
      }
      ghost var rest := buf[i..size];
      forall j | 0 <= j < size - i {
        buf[j] := buf[i + j];
      }
      size := size - i;
      assert buf[..size] == rest;
    }

    method EncodeBlock(i: nat)
      requires Encoded(i) && size - i > 63
      modifies `bits, `regs, `done
      ensures Encoded(i + 64)
    {
      hide Fold;
      var block := buf[i..i + 64];
      assert buf[i..size][..64] == block && buf[i..size][64..] == buf[i + 64..size];
      NextBlock(message, done, buf[i..size]);
      FoldSnoc(encode, message[..done], block);
      regs := encode(regs, block);
      Wraps(done, 64);
      bits := (bits + 64) % TWO32;
      done := done + 64;
    }

    /** Put a whole stream; false exactly if a read fails, which is then the last one.  How the stream
        splits its data does not matter. */
    method Put(stream: InStream) returns (ok: bool)
      requires Valid() && size < 64
      modifies this, buf, stream
      ensures Valid() && size < 64
      ensures stream.errors == old(stream.errors) + if ok then 0 else 1
      ensures ok ==> message == old(message) + old(stream.rest) && stream.rest == []
      ensures old(message) <= message
    {
      hide Fold;
      ghost var data := stream.rest;
      ghost var before := message;
      while true
        invariant Valid() && size < 64
        invariant message + stream.rest == before + data && before <= message
        invariant stream.errors == old(stream.errors)
        decreases |stream.rest|
      {
        label L:
        var r := stream.Read(buf, size, BUFFER - size);
        if r < 0 {
          assert buf[..size] == old@L(buf[..])[..size];
          return false;
        }
        message := message + old@L(stream.rest)[..r];
        Appended(old@L(message), old@L(stream.rest), r, done);
        size := size + r;
        Update();
        if r == 0 {
          return true;
        }
      }
    }

    /** Write the length at the end of the last block; `oldlen` is a 32-bit number of bytes. */
    method AddSize(m: array<byte>, oldlen: nat, ghost length: nat)
      requires m.Length == 64 && oldlen == length % TWO32
      modifies m
      ensures m[..56] == old(m[..56]) && m[56..] == CodeField(length)
    {
      hide LittleEndian;
      var index := 56;
      m[index] := oldlen * 8 % TWO32 % 256;
      m[index + 1] := oldlen / 32 % 256;
      m[index + 2] := oldlen / 8192 % 256;
      m[index + 3] := oldlen / 2097152 % 256;
      m[index + 4], m[index + 5], m[index + 6], m[index + 7] := 0, 0, 0, 0;
      SizeBytes(length);
      assert m[56..] == m[56..60] + m[60..];
      assert m[60..] == Zeros(4);
    }

    /** Encode the padding.  The state is then that of the whole padded message, and the digest holds
        its bytes. */
    method Finalize()
      requires Valid() && size < 64
      modifies `regs, `bits, `size, `finalized, digest
      ensures finalized && regs == Fold(encode, PaddedWith(message, CodeField(|message|)))
      ensures digest[..] == Digest(regs)
    {
      hide Fold, CodeField, PaddedWith;
      var buffer := new byte[64](i => 0);
      if size + 1 > 56 {
        FinishTwo(buffer);
      } else {
        FinishOne(buffer);
      }
      PutDigest();
      finalized := true;
    }

    method PutDigest()
      requires digest.Length == 16
      modifies digest
      ensures digest[..] == Digest(regs)
    {
      hide LittleEndian;
      PutReg(0, regs.A);
      PutReg(4, regs.B);
      PutReg(8, regs.C);
      PutReg(12, regs.D);
      assert digest[..] == digest[..16];
      assert digest[..0] + LittleEndian(regs.A, 4) == LittleEndian(regs.A, 4);
    }

    /** The bytes of a register, the lowest first. */
    method PutReg(at: nat, x: word)
      requires at + 4 <= digest.Length
      modifies digest
      ensures digest[..at + 4] == old(digest[..at]) + LittleEndian(x, 4)
      ensures digest[at + 4..] == old(digest[at + 4..])
    {
      for i := 0 to 4
        invariant forall j :: 0 <= j < i ==> digest[at + j] == Shifted(x, j) % 256
        invariant forall j :: 0 <= j < digest.Length && (j < at || j >= at + i) ==> digest[j] == old(digest[j])
      {
        digest[at + i] := Shifted(x, i) % 256;
      }
      forall j | 0 <= j < 4 ensures digest[at..at + 4][j] == LittleEndian(x, 4)[j] {
        LittleEndianAt(x, 4, j);
      }
      assert digest[at..at + 4] == LittleEndian(x, 4);
      assert digest[..at + 4] == digest[..at] + digest[at..at + 4];
    }

    /** Copy the pending bytes and the padding up to `end`. */
    method Fill(buffer: array<byte>, end: nat)
      requires buf.Length == BUFFER && size < end <= 64 && buffer.Length == 64 && buffer != buf
      modifies buffer
      ensures buffer[..end] == buf[..size] + Mark(end - size)
    {
      forall i | 0 <= i < end { buffer[i] := if i < size then buf[i] else MD5_PADDING(i - size); }
    }

    /** There is no room for the length in the current block. */
    method FinishTwo(buffer: array<byte>)
      requires Valid() && 56 <= size < 64 && buffer.Length == 64 && buffer != buf
      modifies `regs, `bits, `size, buffer
      ensures regs == Fold(encode, PaddedWith(message, CodeField(|message|)))
    {
      hide Fold, CodeField, PaddedWith, Mark, Zeros;
      ghost var head, pending, length := message[..done], buf[..size], CodeField(|message|);
      assert message == head + pending;
      Fill(buffer, 64);
      ghost var first := buffer[..64];
      assert buffer[..] == first;
      FoldSnoc(encode, head, first);
      TwoBlocks(head, pending, length);
      regs := encode(regs, buffer[..]);
      Wraps(done, size);
      bits := (bits + size) % TWO32;
      size := 0;
      ClearStart(buffer);
      AddSize(buffer, bits, |message|);
      assert buffer[..] == buffer[..56] + buffer[56..];
      FoldSnoc(encode, head + first, buffer[..]);
      regs := encode(regs, buffer[..]);
    }

    method ClearStart(buffer: array<byte>)
      requires buffer.Length == 64
      modifies buffer
      ensures buffer[..56] == Zeros(56)
    {
      forall i | 0 <= i < 56 { buffer[i] := 0; }
    }

    method FinishOne(buffer: array<byte>)
      requires Valid() && size < 56 && buffer.Length == 64 && buffer != buf
      modifies `regs, `bits, buffer
      ensures regs == Fold(encode, PaddedWith(message, CodeField(|message|)))
    {
      hide Fold, CodeField, PaddedWith, Mark, Zeros;
      ghost var head, pending, length := message[..done], buf[..size], CodeField(|message|);
      assert message == head + pending;
      Wraps(done, size);
      bits := (bits + size) % TWO32;
      Fill(buffer, 56);
      AddSize(buffer, bits, |message|);
      assert buffer[..] == buffer[..56] + buffer[56..];
      OneBlock(head, pending, length);
      FoldSnoc(encode, head, buffer[..]);
      regs := encode(regs, buffer[..]);
    }
  }

  lemma {:induction false} Wraps(a: nat, b: nat)
    ensures (a % TWO32 + b) % TWO32 == (a + b) % TWO32
  {
  }

  /** The first k bytes of the padding. */
  ghost function Mark(k: nat): (s: seq<byte>)
    requires k > 0
    ensures |s| == k
  {
    [0x80] + Zeros(k - 1)
  }

  function MD5_PADDING(i: nat): byte { if i == 0 then 0x80 else 0 }

  lemma {:induction false} OneBlock(head: seq<byte>, pending: seq<byte>, length: seq<byte>)
    requires |head| % 64 == 0 && |pending| <= 55 && |length| == 8
    ensures PaddedWith(head + pending, length) == head + (pending + Mark(56 - |pending|) + length)
  {
    assert Gap(|head + pending|) == 55 - |pending|;
  }

  lemma {:induction false} TwoBlocks(head: seq<byte>, pending: seq<byte>, length: seq<byte>)
    requires |head| % 64 == 0 && 56 <= |pending| < 64 && |length| == 8
    ensures PaddedWith(head + pending, length) == head + (pending + Mark(64 - |pending|)) + (Zeros(56) + length)
  {
    assert Gap(|head + pending|) == 119 - |pending|;
    assert Zeros(119 - |pending|) == Zeros(63 - |pending|) + Zeros(56);
  }

  /** The shifts of the code pick the bytes of the length in bits. */
  lemma {:induction false} SizeBytes(length: nat)
    ensures var o := length % TWO32;
      CodeField(length) == [o * 8 % TWO32 % 256, o / 32 % 256, o / 8192 % 256, o / 2097152 % 256] + Zeros(4)
  {
    hide LittleEndian;
    FourBytes(8 * length % TWO32);
    Shifts(length);
  }

  lemma {:induction false} Shifts(length: nat)
    ensures var o, x := length % TWO32, 8 * length % TWO32;
      && x % 256 == o * 8 % TWO32 % 256 && x / 256 % 256 == o / 32 % 256
      && x / 256 / 256 % 256 == o / 8192 % 256 && x / 256 / 256 / 256 % 256 == o / 2097152 % 256
  {
    var o := length % TWO32;
    var q, p := o / 0x2000_0000, o % 0x2000_0000;
    EightTimes(length);
    LowBytes(q, p);
  }

  lemma {:induction false} EightTimes(length: nat)
    ensures 8 * length % TWO32 == 8 * (length % TWO32 % 0x2000_0000)
  {
    SmallerPower(length);
    EightTimesLow(length / 0x2000_0000, length % 0x2000_0000);
  }

  lemma {:induction false} SmallerPower(length: nat)
    ensures length % TWO32 % 0x2000_0000 == length % 0x2000_0000
  {
  }

  lemma {:induction false} EightTimesLow(q: nat, p: nat)
    requires p < 0x2000_0000
    ensures 8 * (q * 0x2000_0000 + p) % TWO32 == 8 * p
  {
    assert 8 * (q * 0x2000_0000 + p) == q * TWO32 + 8 * p;
  }

  lemma {:induction false} LowBytes(q: nat, p: nat)
    requires p < 0x2000_0000
    ensures var o := q * 0x2000_0000 + p;
      && 8 * p % 256 == o * 8 % TWO32 % 256 && 8 * p / 256 % 256 == o / 32 % 256
      && 8 * p / 256 / 256 % 256 == o / 8192 % 256 && 8 * p / 256 / 256 / 256 % 256 == o / 2097152 % 256
  {
    var o := q * 0x2000_0000 + p;
    Carry(q * 0x100_0000, p, 32);
    Carry(q * 0x1_0000, p, 8192);
    Carry(q * 0x100, p, 2097152);
    Drop(q * 0x1_0000, p / 32);
    Drop(q * 0x100, p / 8192);
    Drop(q, p / 2097152);
    EighthOfByte(p);
    LowByte(q, p);
  }

  lemma {:induction false} Carry(a: nat, p: nat, d: nat)
    requires d in {32, 8192, 2097152}
    ensures (a * d + p) / d == a + p / d
  {
  }

  lemma {:induction false} Drop(a: nat, b: nat)
    ensures (a * 256 + b) % 256 == b % 256
  {
  }

  lemma {:induction false} EighthOfByte(p: nat)
    ensures 8 * p / 256 == p / 32 && 8 * p / 256 / 256 == p / 8192 && 8 * p / 256 / 256 / 256 == p / 2097152
  {
  }

  lemma {:induction false} LowByte(q: nat, p: nat)
    requires p < 0x2000_0000
    ensures 8 * p % 256 == (q * 0x2000_0000 + p) * 8 % TWO32 % 256
  {
    assert (q * 0x2000_0000 + p) * 8 == q * TWO32 + 8 * p;
  }

  lemma {:induction false} NextBlock(m: seq<byte>, done: nat, rest: seq<byte>)
    requires done <= |m| && m[done..] == rest && |rest| >= 64
    ensures m[..done + 64] == m[..done] + rest[..64] && m[done + 64..] == rest[64..]
  {
    assert m == m[..done] + rest;
  }

  lemma {:induction false} Appended(m: seq<byte>, data: seq<byte>, r: nat, done: nat)
    requires r <= |data| && done <= |m|
    ensures (m + data[..r])[done..] == m[done..] + data[..r] && (m + data[..r])[..done] == m[..done]
    ensures m + data[..r] + data[r..] == m + data
  {
  }

  /** The sum of a whole stream: whatever its reads deliver, and up to 2^29 bytes, the blocks that
      are folded are those of RFC 1321; beyond, they are if the length in bits fits in its field. */
  method Sum(encode: Rounds, stream: InStream) returns (ok: bool, regs: Regs, digest: seq<byte>)
    modifies stream
    ensures stream.errors == old(stream.errors) + if ok then 0 else 1
    ensures ok ==>
      var data := old(stream.rest);
      && digest == Digest(regs)
      && regs == Fold(encode, PaddedWith(data, CodeField(|data|)))
      && (|data| < 0x2000_0000 || 8 * |data| % (TWO32 * TWO32) < TWO32 ==>
           regs == Fold(encode, PaddedWith(data, LengthField(|data|))))
  {
    hide Fold, CodeField, LengthField, PaddedWith;
    var md5 := new MD5(encode);
    ok := md5.Put(stream);
    regs, digest := md5.regs, [];
    if ok {
      assert md5.message == [] + old(stream.rest) == old(stream.rest);
      PaddingIsStandard(old(stream.rest));
      md5.Finalize();
      regs, digest := md5.regs, md5.digest[..];
    }
  }
}
