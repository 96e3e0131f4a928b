/** Memory as the garbage collectors see it: blocks, chunks, and block headers that link free lists
    through the memory they manage. */
module GcBlocks {

  import opened Arith

  /** Size in bytes of a block header, which is also the allocation unit. */
  const UNIT := 16

  /** A contiguous range of memory. */
  datatype Block = Block(addr: int, size: int)

  /** The header written at the start of a free block. */
  datatype Header = Header(next: int, size: int)

  /** The least multiple of the unit that is not below `size`. */
  function Round(size: nat): (r: nat)
    ensures size <= r < size + UNIT && r % UNIT == 0
  {
    hide Mul, Div;
    DivParts(size + UNIT - 1, UNIT);
    MultipleIs(Div(size + UNIT - 1, UNIT), UNIT);
    Mul(Div(size + UNIT - 1, UNIT), UNIT)
  }

  lemma {:induction false} RoundIs(size: nat)
    ensures size <= Round(size) < size + 16 && exists k: nat :: Round(size) == 16 * k
    ensures Round(0) == 0 && Round(1) == Round(16) == 16 && Round(17) == 32
  {
    hide Round;
    assert Round(size) == 16 * (Round(size) / 16);
  }

  /** A size below a multiple of the unit is not rounded beyond it. */
  lemma {:induction false} RoundFits(size: nat, csize: int)
    requires 0 < size < csize && csize % UNIT == 0
    ensures 0 < Round(size) <= csize && Round(size) % UNIT == 0
  {
    hide Mul, Div, Round;
    DivParts(Round(size), UNIT);
    DivParts(csize, UNIT);
    MulOrder(Div(csize, UNIT), Div(Round(size), UNIT), UNIT);
  }

  ghost predicate Apart(a: Block, b: Block) {
    a.addr + a.size <= b.addr || b.addr + b.size <= a.addr
  }

  /** A non-empty range of whole units of the chunk at `base`. */
  ghost predicate Inside(b: Block, base: int, csize: int) {
    && base <= b.addr && b.addr + b.size <= base + csize
    && (b.addr - base) % UNIT == 0 && b.size % UNIT == 0 && b.size > 0
  }

  ghost predicate Placed(b: Block, chunks: seq<int>, csize: int) {
    exists i :: 0 <= i < |chunks| && Inside(b, chunks[i], csize)
  }

  ghost predicate AllPlaced(s: seq<Block>, chunks: seq<int>, csize: int) {
    forall i :: 0 <= i < |s| ==> Placed(s[i], chunks, csize)
  }

  ghost predicate AllApart(s: seq<Block>) {
    forall i, j :: 0 <= i < j < |s| ==> Apart(s[i], s[j])
  }

  /** Chunks are non-null and do not overlap. */
  ghost predicate ChunksApart(chunks: seq<int>, csize: int) {
    && (forall i :: 0 <= i < |chunks| ==> chunks[i] > 0)
    && (forall i, j :: 0 <= i < j < |chunks| ==> Apart(Block(chunks[i], csize), Block(chunks[j], csize)))
  }

  lemma {:induction false} ChunksApartAt(chunks: seq<int>, csize: int, i: nat, j: nat)
    requires ChunksApart(chunks, csize) && i < |chunks| && j < |chunks| && i != j
    ensures Apart(Block(chunks[i], csize), Block(chunks[j], csize))
  {
    assert i > j ==> Apart(Block(chunks[j], csize), Block(chunks[i], csize));
  }

  /** The headers in memory link the blocks of `runs`, in order, from `head`. */
  ghost predicate Chained(head: int, runs: seq<Block>, mem: map<int, Header>) {
    && head == AddrAt(runs, 0)
    && forall i :: 0 <= i < |runs| ==>
         runs[i].addr in mem && mem[runs[i].addr] == Header(AddrAt(runs, i + 1), runs[i].size)
  }

  ghost function AddrAt(runs: seq<Block>, i: nat): int {
    if i < |runs| then runs[i].addr else 0
  }

  /** A header written elsewhere. */
  lemma {:induction false} ChainedElsewhere(head: int, runs: seq<Block>, mem: map<int, Header>, a: int, x: Header)
    requires Chained(head, runs, mem) && forall i :: 0 <= i < |runs| ==> runs[i].addr != a
    ensures Chained(head, runs, mem[a := x])
  {
  }

  lemma {:induction false} PlacedSize(b: Block, chunks: seq<int>, csize: int)
    requires Placed(b, chunks, csize)
    ensures b.size > 0
  {
  }

  // -------------------------------------------------------------- first fit

  /** The position of the first block of at least `size` bytes. */
  ghost function FirstFit(runs: seq<Block>, size: int): (k: nat)
    ensures k <= |runs|
    ensures forall i :: 0 <= i < k ==> runs[i].size < size
    ensures k < |runs| ==> runs[k].size >= size
  {
    if runs == [] || runs[0].size >= size then 0 else 1 + FirstFit(runs[1..], size)
  }

  lemma {:induction false} FirstFitIs(runs: seq<Block>, size: int, k: nat)
    requires k <= |runs| && forall i :: 0 <= i < k ==> runs[i].size < size
    requires k < |runs| ==> runs[k].size >= size
    ensures FirstFit(runs, size) == k
  {
  }

  ghost function Dropped(runs: seq<Block>, k: nat): (out: seq<Block>)
    requires k < |runs|
    ensures |out| == |runs| - 1
    ensures forall i :: 0 <= i < |out| ==> out[i] == runs[if i < k then i else i + 1]
  {
    runs[..k] + runs[k + 1..]
  }

  /** The blocks left when `size` bytes are taken from the end of block `k`. */
  ghost function Carved(runs: seq<Block>, k: nat, size: int): seq<Block>
    requires k < |runs|
  {
    if runs[k].size == size then Dropped(runs, k)
    else runs[k := Block(runs[k].addr, runs[k].size - size)]
  }

  ghost function Tail(b: Block, size: int): Block { Block(b.addr + b.size - size, size) }

  /** Every part of `s` is a part of `t`. */
  ghost predicate Within(s: seq<Block>, t: seq<Block>) {
    forall i :: 0 <= i < |s| ==>
      exists j :: 0 <= j < |t| && t[j].addr <= s[i].addr && s[i].addr + s[i].size <= t[j].addr + t[j].size
  }

  lemma {:induction false} TailPlaced(b: Block, size: int, chunks: seq<int>, csize: int)
    requires Placed(b, chunks, csize) && 0 < size <= b.size && size % UNIT == 0
    ensures Placed(Tail(b, size), chunks, csize)
    ensures size < b.size ==> Placed(Block(b.addr, b.size - size), chunks, csize)
  {
    hide Inside, Tail;
    var i :| 0 <= i < |chunks| && Inside(b, chunks[i], csize);
    TailInside(b, size, chunks[i], csize);
  }

  lemma {:induction false} TailInside(b: Block, size: int, base: int, csize: int)
    requires Inside(b, base, csize) && 0 < size <= b.size && size % UNIT == 0
    ensures Inside(Tail(b, size), base, csize)
    ensures size < b.size ==> Inside(Block(b.addr, b.size - size), base, csize)
  {
    ModSum(b.size, size, UNIT);
    ModSum(b.addr - base, b.size - size, UNIT);
  }

  /** Carving keeps the free blocks placed and apart, and frees the carved part from them. */
  lemma {:induction false} CarvedSafe(runs: seq<Block>, k: nat, size: int, chunks: seq<int>, csize: int)
    requires AllPlaced(runs, chunks, csize) && AllApart(runs) && k < |runs|
    requires 0 < size <= runs[k].size && size % UNIT == 0
    ensures var out := Carved(runs, k, size);
      && AllPlaced(out, chunks, csize) && AllApart(out) && Within(out, runs)
      && (forall i :: 0 <= i < |out| ==> Apart(out[i], Tail(runs[k], size)))
  {
    var out := Carved(runs, k, size);
    TailPlaced(runs[k], size, chunks, csize);
    forall i | 0 <= i < |out|
      ensures Placed(out[i], chunks, csize) && Apart(out[i], Tail(runs[k], size))
      ensures exists j ::
        0 <= j < |runs| && runs[j].addr <= out[i].addr && out[i].addr + out[i].size <= runs[j].addr + runs[j].size
    {
      var j := if runs[k].size == size && i >= k then i + 1 else i;
      assert j != k ==> out[i] == runs[j];
      assert runs[j].addr <= out[i].addr && out[i].addr + out[i].size <= runs[j].addr + runs[j].size;
    }
  }

  /** What is apart from the old free blocks is apart from the new ones. */
  lemma {:induction false} WithinApart(s: seq<Block>, t: seq<Block>, b: Block)
    requires Within(s, t) && forall j :: 0 <= j < |t| ==> Apart(t[j], b)
    ensures forall i :: 0 <= i < |s| ==> Apart(s[i], b)
  {
  }

  /** Taking the end of block `k` is one header write. */
  lemma {:induction false} ShrunkChained(head: int, runs: seq<Block>, mem: map<int, Header>, k: nat, size: int)
    requires Chained(head, runs, mem) && AllApart(runs) && k < |runs| && 0 < size < runs[k].size
    requires forall i :: 0 <= i < |runs| ==> runs[i].size > 0
    ensures Chained(head, Carved(runs, k, size), mem[runs[k].addr := Header(AddrAt(runs, k + 1), runs[k].size - size)])
  {
    var out := Carved(runs, k, size);
    var m := mem[runs[k].addr := Header(AddrAt(runs, k + 1), runs[k].size - size)];
    assert forall i :: 0 <= i < |runs| ==> out[i].addr == runs[i].addr;
    forall i | 0 <= i < |out|
      ensures out[i].addr in m && m[out[i].addr] == Header(AddrAt(out, i + 1), out[i].size)
    {
      if i != k {
        DifferentAddresses(runs, i, k);
      }
      assert i != k ==> out[i] == runs[i] && mem[runs[i].addr] == Header(AddrAt(runs, i + 1), runs[i].size);
      assert i + 1 < |out| ==> out[i + 1].addr == runs[i + 1].addr;
    }
    assert out[0].addr == runs[0].addr;
  }

  lemma {:induction false} DroppedAddr(runs: seq<Block>, k: nat, i: nat)
    requires k < |runs|
    ensures AddrAt(Dropped(runs, k), i) == AddrAt(runs, if i < k then i else i + 1)
  {
  }

  /** Unlinking block `k` is a write to the pointer before it, whatever remains in its header. */
  lemma {:induction false} UnlinkedChained(head: int, runs: seq<Block>, mem: map<int, Header>, k: nat, h: Header)
    requires Chained(head, runs, mem) && AllApart(runs) && k < |runs|
    requires forall i :: 0 <= i < |runs| ==> runs[i].size > 0
    ensures var m, after := mem[runs[k].addr := h], AddrAt(runs, k + 1);
      Chained(if k == 0 then after else head, Dropped(runs, k),
              if k == 0 then m else m[runs[k - 1].addr := Header(after, runs[k - 1].size)])
  {
    hide AllApart, Dropped, AddrAt;
    var out, after := Dropped(runs, k), AddrAt(runs, k + 1);
    var m1 := mem[runs[k].addr := h];
    var m := if k == 0 then m1 else m1[runs[k - 1].addr := Header(after, runs[k - 1].size)];
    forall i | 0 <= i < |out|
      ensures out[i].addr in m && m[out[i].addr] == Header(AddrAt(out, i + 1), out[i].size)
    {
      var j := if i < k then i else i + 1;
      assert out[i] == runs[j];
      DifferentAddresses(runs, j, k);
      DroppedAddr(runs, k, i + 1);
      if i + 1 != k && k > 0 {
        DifferentAddresses(runs, j, k - 1);
      }
    }
    DroppedAddr(runs, k, 0);
  }

  lemma {:induction false} DifferentAddresses(runs: seq<Block>, i: nat, j: nat)
    requires AllApart(runs) && i < |runs| && j < |runs| && i != j
    requires runs[i].size > 0 && runs[j].size > 0
    ensures runs[i].addr != runs[j].addr
  {
    if i < j { assert Apart(runs[i], runs[j]); } else { assert Apart(runs[j], runs[i]); }
  }

  /** A block put in front of the list. */
  lemma {:induction false} PushChained(head: int, runs: seq<Block>, mem: map<int, Header>, b: Block)
    requires Chained(head, runs, mem)
    requires forall i :: 0 <= i < |runs| ==> runs[i].addr != b.addr
    ensures Chained(b.addr, [b] + runs, mem[b.addr := Header(head, b.size)])
  {
    var out := [b] + runs;
    assert forall i :: 0 < i < |out| ==> out[i] == runs[i - 1];
    assert forall i :: 0 < i <= |out| ==> AddrAt(out, i) == AddrAt(runs, i - 1);
  }
}
