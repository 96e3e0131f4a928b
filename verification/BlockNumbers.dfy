/** The numbering of the blocks of `elm::AbstractBlockAllocatorWithGC`: blocks of one size are taken
    one after the other from chunks of memory, and are numbered across all the chunks. */
module BlockNumbers {

  import opened Arith

  datatype Layout = Layout(chunks: seq<int>, top: int, bsize: int, csize: int) {

    /** Chunks do not overlap, and `top` is where the next block of the last one will be. */
    ghost predicate Sound() {
      && 0 < bsize <= csize && chunks != []
      && (forall i :: 0 <= i < |chunks| ==> chunks[i] > 0)
      && (forall i, j :: 0 <= i < |chunks| && 0 <= j < |chunks| && i != j ==>
        chunks[i] + csize <= chunks[j] || chunks[j] + csize <= chunks[i])
      && Last() <= top <= Last() + csize && (top - Last()) % bsize == 0
    }

    function Last(): int
      requires chunks != []
    {
      chunks[|chunks| - 1]
    }

    /** Blocks of a full chunk. */
    function Per(): int
      requires bsize > 0
    {
      Div(csize, bsize)
    }

    function Total(): int
      requires bsize > 0 && chunks != []
    {
      Mul(|chunks| - 1, Per()) + Div(top - Last(), bsize)
    }

    /** The address the sweep computes for a number of chunk `chunk`. */
    function AddrOf(n: nat, chunk: nat): int
      requires bsize > 0 && chunk < |chunks|
    {
      chunks[chunk] + Mul(n - Mul(chunk, Per()), bsize)
    }

    /** The number `mark` computes for an address of chunk `chunk`. */
    function NumOf(p: int, chunk: nat): int
      requires bsize > 0 && chunk < |chunks|
    {
      Div(p - chunks[chunk], bsize) + Mul(chunk, Per())
    }

    /** The address is in the chunk. */
    predicate InChunk(p: int, i: nat)
      requires i < |chunks|
    {
      chunks[i] <= p < chunks[i] + csize
    }

    /** The address of the k-th block of chunk i, which has been taken. */
    ghost predicate BlockAt(p: int, i: nat, k: nat) {
      && i < |chunks| && bsize > 0 && k < Per() && p == chunks[i] + Mul(k, bsize)
      && (i == |chunks| - 1 ==> p < top)
    }

    ghost predicate IsBlock(p: int) {
      exists i: nat, k: nat :: BlockAt(p, i, k)
    }
  }

  // ---------------------------------------------------------------- bijection

  /** How many blocks of the last chunk have been taken, and how many a chunk may have. */
  lemma {:induction false} Counts(l: Layout) returns (m: int)
    requires l.Sound()
    ensures m == Div(l.top - l.Last(), l.bsize) && 0 <= m <= l.Per() && l.top == l.Last() + Mul(m, l.bsize)
    ensures l.Per() > 0 && Mul(l.Per(), l.bsize) <= l.csize < Mul(l.Per(), l.bsize) + l.bsize
    ensures l.Total() == Mul(|l.chunks| - 1, l.Per()) + m
    ensures m == l.Per() <==> l.top + l.bsize > l.Last() + l.csize
  {
    hide Mul, Div;
    m := Div(l.top - l.Last(), l.bsize);
    DivParts(l.top - l.Last(), l.bsize);
    DivParts(l.csize, l.bsize);
    MulOrder(l.Per(), m, l.bsize);
    MulOrder(m, l.Per(), l.bsize);
    MulOrder(l.Per(), 0, l.bsize);
  }

  /** A number below the total is the number of a block, the one at its address. */
  lemma {:induction false} NumberToBlock(l: Layout, n: nat) returns (i: nat, k: nat)
    requires l.Sound() && n < l.Total()
    ensures l.Per() > 0 && Div(n, l.Per()) == i && i < |l.chunks| && n == Mul(i, l.Per()) + k
    ensures l.BlockAt(l.AddrOf(n, i), i, k)
  {
    hide Mul, Div;
    var m := Counts(l);
    var last := |l.chunks| - 1;
    DivParts(n, l.Per());
    i := Div(n, l.Per());
    k := n - Mul(i, l.Per());
    MulOrder(last + 1, i, l.Per());
    MulOrder(last, last + 1, l.Per());
    MulOrder(k, m, l.bsize);
  }

  /** The number of a block is below the total, and leads back to the block. */
  lemma {:induction false} BlockToNumber(l: Layout, p: int, i: nat, k: nat)
    requires l.Sound() && l.BlockAt(p, i, k)
    ensures l.InChunk(p, i) && l.Per() > 0 && l.NumOf(p, i) == Mul(i, l.Per()) + k
    ensures 0 <= l.NumOf(p, i) < l.Total() && Div(l.NumOf(p, i), l.Per()) == i
    ensures l.AddrOf(l.NumOf(p, i), i) == p
  {
    hide Mul, Div;
    var m := Counts(l);
    MulOrder(0, k, l.bsize);
    MulOrder(k, l.Per(), l.bsize);
    DivIs(p - l.chunks[i], l.bsize, k, 0);
    DivIs(Mul(i, l.Per()) + k, l.Per(), i, k);
    MulOrder(m, k, l.bsize);
    MulOrder(i, |l.chunks| - 1, l.Per());
    MulOrder(0, i, l.Per());
  }

  /** A block is in one chunk only: the search of `mark` finds the right one. */
  lemma {:induction false} OneChunk(l: Layout, p: int, i: nat, j: nat)
    requires l.Sound() && i < |l.chunks| && j < |l.chunks| && l.InChunk(p, i) && l.InChunk(p, j)
    ensures i == j
  {
  }

  /** Numbers below the total and blocks correspond one to one, and `mark` and the sweep compute
      the two sides of the correspondence. */
  lemma {:induction false} NumberingIsBijection(l: Layout, n: nat, p: int)
    requires l.Sound()
    ensures l.Per() > 0
    ensures n < l.Total() ==> Div(n, l.Per()) < |l.chunks| && Div(n, l.Per()) >= 0
    ensures n < l.Total() && l.AddrOf(n, Div(n, l.Per())) == p <==>
            l.IsBlock(p) && exists i: nat :: i < |l.chunks| && l.InChunk(p, i) && l.NumOf(p, i) == n
  {
    hide Mul, Div;
    var m := Counts(l);
    if n < l.Total() {
      var i, k := NumberToBlock(l, n);
      if l.AddrOf(n, Div(n, l.Per())) == p {
        BlockToNumber(l, p, i, k);
      }
    }
    if l.IsBlock(p) {
      var i: nat, k: nat :| l.BlockAt(p, i, k);
      BlockToNumber(l, p, i, k);
      forall j: nat | j < |l.chunks| && l.InChunk(p, j) ensures i == j {
        OneChunk(l, p, i, j);
      }
    }
  }

  /** Two blocks do not overlap. */
  lemma {:induction false} BlocksApart(l: Layout, p: int, q: int)
    requires l.Sound() && l.IsBlock(p) && l.IsBlock(q) && p != q
    ensures p > 0 && (p + l.bsize <= q || q + l.bsize <= p)
  {
    hide Mul, Div;
    var i: nat, k: nat :| l.BlockAt(p, i, k);
    var j: nat, n: nat :| l.BlockAt(q, j, n);
    var m := Counts(l);
    MulOrder(0, k, l.bsize);
    MulOrder(0, n, l.bsize);
    MulOrder(k, l.Per(), l.bsize);
    MulOrder(n, l.Per(), l.bsize);
    MulOrder(k, n, l.bsize);
    MulOrder(n, k, l.bsize);
  }

  // ------------------------------------------------------------------- growth

  /** `r` has the blocks of `l` and one more, which has the last number. */
  ghost predicate Grown(l: Layout, r: Layout, p: int)
    requires l.bsize > 0 && r.bsize > 0 && l.chunks != [] && r.chunks != []
  {
    && r.Sound() && r.Total() == l.Total() + 1 && r.IsBlock(p) && !l.IsBlock(p)
    && forall q :: r.IsBlock(q) <==> l.IsBlock(q) || q == p
  }

  /** Taking a block from the last chunk. */
  lemma {:induction false} TakeFromLast(l: Layout)
    requires l.Sound() && l.top + l.bsize <= l.Last() + l.csize
    ensures Grown(l, l.(top := l.top + l.bsize), l.top)
  {
    hide Mul, Div;
    var r, last := l.(top := l.top + l.bsize), |l.chunks| - 1;
    var m := Counts(l);
    MulOrder(m, m + 1, l.bsize);
    ModStep(l.top - l.Last(), l.bsize);
    DivIs(r.top - r.Last(), r.bsize, m + 1, 0);
    assert r.BlockAt(l.top, last, m);
    forall p ensures r.IsBlock(p) <==> l.IsBlock(p) || p == l.top {
      OneMore(l, r, m, p);
    }
    TopIsFree(l);
  }

  lemma {:induction false} OneMore(l: Layout, r: Layout, m: nat, p: int)
    requires l.bsize > 0 && l.chunks != [] && r == l.(top := l.top + l.bsize)
    requires l.top == l.Last() + Mul(m, l.bsize) && m < l.Per()
    ensures r.IsBlock(p) <==> l.IsBlock(p) || p == l.top
  {
    hide Mul, Div;
    if r.IsBlock(p) {
      var i: nat, k: nat :| r.BlockAt(p, i, k);
      MulOrder(m, k, l.bsize);
      MulOrder(k, m, l.bsize);
      assert p == l.top || l.BlockAt(p, i, k);
    }
    if l.IsBlock(p) {
      var i: nat, k: nat :| l.BlockAt(p, i, k);
      assert r.BlockAt(p, i, k);
    }
    if p == l.top {
      assert r.BlockAt(p, |l.chunks| - 1, m);
    }
  }

  lemma {:induction false} TopIsFree(l: Layout)
    requires l.Sound() && l.top < l.Last() + l.csize
    ensures !l.IsBlock(l.top)
  {
    hide Mul, Div;
    forall i: nat, k: nat ensures !l.BlockAt(l.top, i, k) {
      if l.BlockAt(l.top, i, k) {
        BlockToNumber(l, l.top, i, k);
        OneChunk(l, l.top, i, |l.chunks| - 1);
      }
    }
  }

  ghost predicate Fresh(l: Layout, base: int) {
    base > 0 && forall i :: 0 <= i < |l.chunks| ==> base + l.csize <= l.chunks[i] || l.chunks[i] + l.csize <= base
  }

  /** Taking the first block of a new chunk, when the last one is full. */
  lemma {:induction false} TakeFromNew(l: Layout, base: int)
    requires l.Sound() && l.top + l.bsize > l.Last() + l.csize && Fresh(l, base)
    ensures Grown(l, l.(chunks := l.chunks + [base], top := base + l.bsize), base)
  {
    hide Mul, Div;
    var r, last := l.(chunks := l.chunks + [base], top := base + l.bsize), |l.chunks|;
    var m := Counts(l);
    MulOrder(0, 1, l.bsize);
    MulOrder(last - 1, last, l.Per());
    ModStep(0, l.bsize);
    DivIs(l.bsize, l.bsize, 1, 0);
    assert r.BlockAt(base, last, 0);
    forall p ensures r.IsBlock(p) <==> l.IsBlock(p) || p == base {
      if r.IsBlock(p) {
        var i: nat, k: nat :| r.BlockAt(p, i, k);
        MulOrder(1, k, l.bsize);
        MulOrder(k, m, l.bsize);
        assert i < last ==> l.BlockAt(p, i, k);
      }
      if l.IsBlock(p) {
        var i: nat, k: nat :| l.BlockAt(p, i, k);
        assert r.BlockAt(p, i, k);
      }
    }
    NewIsFree(l, base);
  }

  lemma {:induction false} NewIsFree(l: Layout, base: int)
    requires l.Sound() && Fresh(l, base)
    ensures !l.IsBlock(base)
  {
    hide Mul, Div;
    forall i: nat, k: nat ensures !l.BlockAt(base, i, k) {
      if l.BlockAt(base, i, k) {
        BlockToNumber(l, base, i, k);
      }
    }
  }
}
