/** `elm::checksum::Fletcher`: the sums are reduced once every 360 bytes only. */
module Fletcher {
  import opened Arith
  import opened Streams

  const MOD := 0xFFFF

  /** The plain running sums, without any reduction. */
  ghost function Sum1(ws: seq<nat>): int {
    if ws == [] then MOD else Sum1(ws[..|ws| - 1]) + ws[|ws| - 1]
  }

  ghost function Sum2(ws: seq<nat>): int {
    if ws == [] then MOD else Sum2(ws[..|ws| - 1]) + Sum1(ws)
  }

  lemma {:induction false} SumsSnoc(ws: seq<nat>, w: nat)
    ensures Sum1(ws + [w]) == Sum1(ws) + w
    ensures Sum2(ws + [w]) == Sum2(ws) + (Sum1(ws) + w)
  {
    assert (ws + [w])[..|ws|] == ws;
  }

  /** Two bytes as a 16-bit word, on a machine that puts the lower one first. */
  function Word(low: byte, high: byte): nat {
    var l: int, h: int := low, high;
    l + 256 * h
  }

  /** The bytes of a word: the first one is its low half, and the second one its high half. */
  lemma {:induction false} WordIs(low: byte, high: byte)
    ensures Word(low, high) % 256 == low && Word(low, high) / 256 == high
    ensures PaddedWords([low, high]) == [Word(low, high)] && PaddedWords([low]) == [Word(low, 0)]
    ensures Word(0x34, 0x12) == 0x1234
  {
    var two := [low, high];
    assert two[2..] == [];
  }

  /** The words that the code makes of some bytes; `stale` is the second byte of the previous word. */
  ghost function WordsOf(data: seq<byte>, stale: byte): seq<nat> {
    if data == [] then []
    else if |data| == 1 then [Word(data[0], stale)]
    else [Word(data[0], data[1])] + WordsOf(data[2..], data[1])
  }

  /** The words of the algorithm: a last byte alone is completed with 0. */
  ghost function PaddedWords(data: seq<byte>): seq<nat> {
    if data == [] then []
    else if |data| == 1 then [Word(data[0], 0)]
    else [Word(data[0], data[1])] + PaddedWords(data[2..])
  }

  /** The code takes the words of the algorithm exactly if the length is even, or the byte that comes
      before the last one happens to be 0. */
  lemma {:induction false} OddLength(data: seq<byte>, stale: byte)
    ensures WordsOf(data, stale) == PaddedWords(data) <==>
      |data| % 2 == 0 || (if |data| == 1 then stale else data[|data| - 2]) == 0
  {
    if |data| >= 2 {
      OddLength(data[2..], data[1]);
      var a, b, x := WordsOf(data[2..], data[1]), PaddedWords(data[2..]), Word(data[0], data[1]);
      assert ([x] + a)[1..] == a && ([x] + b)[1..] == b;
    }
  }

  // --------------------------------------------------------------- reduction

  function Folded(x: nat): nat { x % 0x1_0000 + x / 0x1_0000 }

  /** A reduction keeps a sum modulo 65535, keeps it from being 0, and makes it small. */
  lemma {:induction false} FoldedIs(x: nat)
    requires x < TWO32
    ensures Folded(x) % MOD == x % MOD && Folded(x) <= 2 * MOD
    ensures x > 0 ==> Folded(x) > 0
  {
    assert x == Folded(x) + x / 0x1_0000 * MOD;
    ModShift(Folded(x), x / 0x1_0000, MOD);
  }

  /** `(high << 16) | low` in 32 bits, when both have at most 17 bits: the last bit of `low` meets the
      first one of `high`. */
  function Packed(high: nat, low: nat): (r: nat)
  {
    var h := high % 0x1_0000;
    (if low >= 0x1_0000 && h % 2 == 0 then h + 1 else h) * 0x1_0000 + low % 0x1_0000
  }

  /** The two halves of a checksum are the two sums modulo 65535. */
  predicate RightHalves(r: nat, s1: int, s2: int) {
    r % 0x1_0000 % MOD == s1 % MOD && r / 0x1_0000 % MOD == s2 % MOD
  }

  lemma {:induction false} Halves(high: nat, low: nat)
    requires high <= 2 * MOD && low <= 2 * MOD
    ensures Packed(high, low) % 0x1_0000 == low % 0x1_0000
    ensures low < 0x1_0000 ==> Packed(high, low) / 0x1_0000 == high % 0x1_0000
  {
  }

  lemma {:induction false} HalvesAre(high: nat, low: nat, s2: int, s1: int)
    requires high <= 2 * MOD && low <= 2 * MOD && low % MOD == s1 % MOD && high % MOD == s2 % MOD
    ensures RightHalves(Packed(high, low), s1, s2) <==> low < 0x1_0000 && high < 0x1_0000
  {
    hide Packed;
    Halves(high, low);
    OneLess(low);
    OneLess(high);
  }

  lemma {:induction false} OneLess(x: nat)
    requires x <= 2 * MOD
    ensures x % 0x1_0000 % MOD == x % MOD <==> x < 0x1_0000
  {
  }

  /** The two sums that the code keeps of some words: reduced after every 180 words. */
  datatype Pair = Pair(sum1: nat, sum2: nat)

  ghost function Kept(ws: seq<nat>): Pair {
    if ws == [] then Pair(MOD, MOD) else Next(Kept(ws[..|ws| - 1]), ws[|ws| - 1], |ws| % 180 == 0)
  }

  function Next(p: Pair, w: nat, reduced: bool): Pair {
    var sum1 := p.sum1 + w;
    var sum2 := p.sum2 + sum1;
    if reduced then Pair(Folded(sum1), Folded(sum2)) else Pair(sum1, sum2)
  }

  lemma {:induction false} KeptSnoc(ws: seq<nat>, w: nat)
    ensures Kept(ws + [w]) == Next(Kept(ws), w, (|ws| + 1) % 180 == 0)
  {
    assert (ws + [w])[..|ws|] == ws;
  }

  /** The checksum of some words. */
  ghost function Checksum(ws: seq<nat>): nat {
    Packed(Folded(Kept(ws).sum2), Folded(Kept(ws).sum1))
  }

  /** After the last reduction both sums fit in 16 bits. */
  ghost predicate FitsHalves(ws: seq<nat>) {
    Folded(Kept(ws).sum1) < 0x1_0000 && Folded(Kept(ws).sum2) < 0x1_0000
  }

  lemma {:induction false} LastWords(n: nat)
    ensures (n + 1) % 180 == if n % 180 == 179 then 0 else n % 180 + 1
  {
  }

  class Fletcher {
    var sum1: nat
    var sum2: nat
    var len: nat
    var size: nat
    const half: array<byte>
    /** The words so far. */
    ghost var words: seq<nat>

    ghost predicate Valid()
      reads this, half
    {
      half.Length == 2 && size == 0 && Accumulated()
    }

    /** Neither sum has wrapped, and both are right modulo 65535.  `len` counts the bytes since the last
        reduction, and bounds the sums; it is determined by the words, and so are they. */
    ghost predicate Accumulated()
      reads `sum1, `sum2, `len, `words
    {
      && len == 2 * (|words| % 180) && Kept(words) == Pair(sum1, sum2)
      && 0 < sum1 <= 2 * MOD + len / 2 * MOD
      && 0 < sum2 <= 2 * MOD + len / 2 * (182 * MOD)
      && sum1 % MOD == Sum1(words) % MOD && sum2 % MOD == Sum2(words) % MOD
    }

    constructor ()
      ensures Valid() && words == [] && fresh(half)
    {
      sum1, sum2, len, size := MOD, MOD, 0, 0;
      half := new byte[2];
      words := [];
    }

    method Shuffle()
      requires sum1 < TWO32 && sum2 < TWO32
      modifies `sum1, `sum2, `len
      ensures sum1 == Folded(old(sum1)) && sum2 == Folded(old(sum2)) && len == 0
    {
      sum1 := sum1 % 0x1_0000 + sum1 / 0x1_0000;
      sum2 := sum2 % 0x1_0000 + sum2 / 0x1_0000;
      len := 0;
    }

    /** Take one word in; the additions of the code are those of 32-bit words. */
    method Add()
      requires half.Length == 2 && Accumulated()
      modifies `sum1, `sum2, `len, `words
      ensures Accumulated() && words == old(words) + [Word(half[0], half[1])]
    {
      hide Sum1, Sum2, Folded, Word, Kept;
      var w := Word(half[0], half[1]);
      SumsSnoc(words, w);
      KeptSnoc(words, w);
      LastWords(|words|);
      WordFits(half[0], half[1]);
      Grows(sum1, sum2, len, Sum1(words), Sum2(words), w);
      sum1 := (sum1 + w) % TWO32;
      sum2 := (sum2 + sum1) % TWO32;
      len := len + 2;
      words := words + [w];
      if len == 360 {
        FoldedIs(sum1);
        FoldedIs(sum2);
        Shuffle();
      }
    }

    /** Read two bytes, or what remains of the stream, in as many reads as it takes. */
    method ReadHalf(stream: InStream) returns (ok: bool)
      requires half.Length == 2 && size == 0
      modifies `size, half, stream
      ensures stream.errors == old(stream.errors) + if ok then 0 else 1
      ensures ok ==> size <= 2 && half[..size] + stream.rest == old(stream.rest)
      ensures ok && size < 2 ==> stream.rest == [] && half[1] == old(half[1])
    {
      while size < 2
        invariant size <= 2 && half[..size] + stream.rest == old(stream.rest)
        invariant size < 2 ==> half[1] == old(half[1])
        invariant stream.errors == old(stream.errors)
        decreases 2 - size, |stream.rest|
      {
        label L:
        var result := stream.Read(half, size, 2 - size);
        if result < 0 {
          return false;
        }
        ReadMore(old@L(half[..]), half[..], size, result, old@L(stream.rest), stream.rest);
        if result == 0 {
          return true;
        }
        size := size + result;
      }
      return true;
    }

    /** Put a whole stream; false exactly if a read fails, which is then the last one.  How the stream
        splits its data does not matter. */
    method Put(stream: InStream) returns (ok: bool)
      requires Valid()
      modifies this, half, stream
      ensures stream.errors == old(stream.errors) + if ok then 0 else 1
      ensures ok ==> Valid() && words == old(words) + WordsOf(old(stream.rest), old(half[1])) && stream.rest == []
    {
      hide Sum1, Sum2, Word, WordsOf;
      ghost var all := words + WordsOf(stream.rest, half[1]);
      while true
        invariant Valid() && words + WordsOf(stream.rest, half[1]) == all
        invariant stream.errors == old(stream.errors)
        decreases |stream.rest|
      {
        ghost var rest, stale := stream.rest, half[1];
        ok := ReadHalf(stream);
        if !ok { return; }
        WordsStep(rest, stale, half[..size], stream.rest);
        if size == 0 {
          break;
        }
        size := 0;
        assert words + ([Word(half[0], half[1])] + WordsOf(stream.rest, half[1]))
            == (words + [Word(half[0], half[1])]) + WordsOf(stream.rest, half[1]);
        Add();
      }
      assert words + [] == words;
    }

    /** The checksum: one last reduction, and both sums in one word.  The sums are then right modulo
        65535, not 0, and below 2^17; the halves of the word are right exactly if the reduction makes
        both sums fit in 16 bits. */
    method Finish() returns (r: nat)
      requires Valid()
      modifies `sum1, `sum2, `len
      ensures r == Checksum(words)
      ensures sum1 == Folded(old(sum1)) && sum2 == Folded(old(sum2))
      ensures sum1 % MOD == Sum1(words) % MOD && sum2 % MOD == Sum2(words) % MOD
      ensures 0 < sum1 <= 2 * MOD && 0 < sum2 <= 2 * MOD
      ensures RightHalves(r, Sum1(words), Sum2(words)) <==>
                Folded(old(sum1)) < 0x1_0000 && Folded(old(sum2)) < 0x1_0000
    {
      hide Folded, Packed, Sum1, Sum2, RightHalves, Kept;
      FoldedIs(sum1);
      FoldedIs(sum2);
      Shuffle();
      HalvesAre(sum2, sum1, Sum2(words), Sum1(words));
      r := Packed(sum2, sum1);
    }
  }

  /** One read: what was read before and what is left make the data, and the byte behind is untouched. */
  lemma {:induction false} ReadMore(a: seq<byte>, b: seq<byte>, size: nat, r: nat, before: seq<byte>, after: seq<byte>)
    requires |a| == |b| == 2 && size + r <= 2 && r <= |before| && after == before[r..]
    requires b[..size + r] == a[..size] + before[..r] && b[size + r..] == a[size + r..]
    ensures b[..size + r] + after == a[..size] + before
    ensures size + r < 2 ==> b[1] == a[1]
  {
    assert before == before[..r] + after;
    assert (a[..size] + before[..r]) + after == a[..size] + (before[..r] + after);
    assert size + r < 2 ==> b[1] == b[size + r..][1 - size - r] == a[size + r..][1 - size - r];
  }

  lemma {:induction false} WordsStep(data: seq<byte>, stale: byte, head: seq<byte>, rest: seq<byte>)
    requires |head| <= 2 && head + rest == data && (|head| < 2 ==> rest == [])
    ensures |head| == 0 ==> data == [] && WordsOf(data, stale) == []
    ensures |head| == 1 ==> WordsOf(data, stale) == [Word(head[0], stale)] + WordsOf(rest, stale)
    ensures |head| == 2 ==> WordsOf(data, stale) == [Word(head[0], head[1])] + WordsOf(rest, head[1])
  {
    if |head| == 2 {
      assert data[2..] == rest;
    }
  }

  lemma {:induction false} WordFits(low: byte, high: byte)
    ensures 0 <= Word(low, high) <= MOD
  {
  }

  /** Between two reductions the sums stay below 2^32, so that the additions do not wrap. */
  lemma {:induction false} Grows(sum1: nat, sum2: nat, len: nat, s1: int, s2: int, w: nat)
    requires len % 2 == 0 && len < 360 && w <= MOD
    requires 0 < sum1 <= 2 * MOD + len / 2 * MOD && 0 < sum2 <= 2 * MOD + len / 2 * (182 * MOD)
    requires sum1 % MOD == s1 % MOD && sum2 % MOD == s2 % MOD
    ensures sum1 + w < TWO32 && (sum1 + w) % TWO32 == sum1 + w
    ensures sum2 + (sum1 + w) < TWO32 && (sum2 + (sum1 + w)) % TWO32 == sum2 + (sum1 + w)
    ensures sum1 + w <= 2 * MOD + (len + 2) / 2 * MOD && sum2 + (sum1 + w) <= 2 * MOD + (len + 2) / 2 * (182 * MOD)
    ensures (sum1 + w) % MOD == (s1 + w) % MOD && (sum2 + (sum1 + w)) % MOD == (s2 + (s1 + w)) % MOD
  {
    ModTwo(sum1, s1, w, w);
    ModTwo(sum2, s2, sum1 + w, s1 + w);
  }

  lemma {:induction false} ModTwo(a: int, b: int, c: int, d: int)
    requires a % MOD == b % MOD && c % MOD == d % MOD
    ensures (a + c) % MOD == (b + d) % MOD
  {
  }

  /** The checksum of a whole stream of any length.  Modulo 65535 its sums are the plain running sums,
      which are never reduced, of the words that the code takes, and if the length is even those are the
      words of the algorithm.  Its halves are these sums exactly if the last reduction makes them fit. */
  method Sums(stream: InStream) returns (ok: bool, sum1: nat, sum2: nat, r: nat)
    modifies stream
    ensures stream.errors == old(stream.errors) + if ok then 0 else 1
    ensures ok ==> 0 < sum1 <= 2 * MOD && 0 < sum2 <= 2 * MOD && r == Packed(sum2, sum1)
    ensures ok ==> exists stale :: IsSum(WordsOf(old(stream.rest), stale), sum1, sum2, r)
    ensures ok && old(|stream.rest|) % 2 == 0 ==> IsSum(PaddedWords(old(stream.rest)), sum1, sum2, r)
  {
    hide Sum1, Sum2, WordsOf, PaddedWords, Kept, Packed, Folded, RightHalves;
    var f := new Fletcher();
    ghost var data, stale := stream.rest, f.half[1];
    ok := f.Put(stream);
    sum1, sum2, r := f.sum1, f.sum2, 0;
    if ok {
      assert [] + WordsOf(data, stale) == WordsOf(data, stale);
      OddLength(data, stale);
      r := f.Finish();
      sum1, sum2 := f.sum1, f.sum2;
      assert IsSum(WordsOf(data, stale), sum1, sum2, r);
    }
  }

  ghost predicate IsSum(ws: seq<nat>, sum1: nat, sum2: nat, r: nat) {
    && r == Checksum(ws) && sum1 % MOD == Sum1(ws) % MOD && sum2 % MOD == Sum2(ws) % MOD
    && (RightHalves(r, Sum1(ws), Sum2(ws)) <==> FitsHalves(ws))
  }

  /** One reduction is not always enough: of the four bytes FF FF 01 00 the first sum becomes 2^16, and
      the lower half of the checksum is 0 instead of 1. */
  lemma {:induction false} ReductionTooShort()
    ensures var ws := PaddedWords([0xFF, 0xFF, 0x01, 0x00]);
      && Sum1(ws) % MOD == 1 && Checksum(ws) % 0x1_0000 == 0
      && !FitsHalves(ws) && !RightHalves(Checksum(ws), Sum1(ws), Sum2(ws))
  {
    hide PaddedWords, Sum1, Sum2, Word, Kept;
    FourBytesAreWords();
    TwoSums();
  }

  lemma {:induction false} FourBytesAreWords()
    ensures PaddedWords([0xFF, 0xFF, 0x01, 0x00]) == [0xFFFF, 1]
  {
    var data: seq<byte> := [0xFF, 0xFF, 0x01, 0x00];
    var rest := data[2..];
    assert rest == [0x01, 0x00] && rest[2..] == [];
    assert PaddedWords(rest) == [1] + PaddedWords([]);
  }

  lemma {:induction false} TwoSums()
    ensures Sum1([0xFFFF, 1]) == 131071 && Sum2([0xFFFF, 1]) == 327676
    ensures Kept([0xFFFF, 1]) == Pair(131071, 327676)
  {
    KeptSnoc([], 0xFFFF);
    KeptSnoc([0xFFFF], 1);
    SumsSnoc([], 0xFFFF);
    SumsSnoc([0xFFFF], 1);
    assert [] + [0xFFFF] == [0xFFFF] && [0xFFFF] + [1] == [0xFFFF, 1];
  }
}
