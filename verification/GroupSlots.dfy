/** The memory of `elm::GroupedGC`: each chunk is divided in slots of one size class. */
module GroupSlots {
  import opened Arith
  import opened Threads
  import G = GcBlocks

  /** Number of size classes (the constant set in the constructor of the code). */
  const MAX := 8192

  /** Size in bytes of the blocks of a class. */
  function Size(index: int): int { G.UNIT * index }

  function Per(index: int, csize: int): int
    requires index > 0
  {
    Div(csize, Size(index))
  }

  class Chunk {
    const buffer: int
    const index: int
    /** What has not been allocated yet, in bytes, at the start of the chunk. */
    var size: int
    /** The chunk has never been full. */
    var init: bool
    var bits: set<int>
    /** The same in slots. */
    ghost var left: int

    constructor (buffer: int, index: int, size: int, ghost left: int)
      ensures this.buffer == buffer && this.index == index && this.size == size && this.left == left && init
    {
      this.buffer, this.index, this.size, this.left := buffer, index, size, left;
      init, bits := true, {};
    }
  }

  /** The k-th block of a chunk. */
  datatype Slot = Slot(chunk: Chunk, k: int)

  function Addr(b: Slot): int {
    b.chunk.buffer + Mul(b.k, Size(b.chunk.index))
  }

  /** Chunks do not overlap, and each can hold a block of its class. */
  ghost predicate Sound(chunks: seq<Chunk>, csize: int) {
    && csize > 0 && csize % G.UNIT == 0
    && (forall i :: 0 <= i < |chunks| ==> ChunkFits(chunks[i], csize))
    && (forall i, j :: 0 <= i < j < |chunks| ==> Disjoint(chunks[i], chunks[j], csize))
  }

  ghost predicate ChunkFits(c: Chunk, csize: int) {
    c.buffer > 0 && 0 < c.index < MAX && Size(c.index) <= csize
  }

  /** Some chunk is of this class. */
  ghost predicate HasClass(cs: seq<Chunk>, i: int) {
    exists k :: 0 <= k < |cs| && cs[k].index == i
  }

  lemma {:induction false} ClassAdded(c: Chunk, cs: seq<Chunk>)
    ensures forall i :: HasClass([c] + cs, i) <==> c.index == i || HasClass(cs, i)
  {
    var all := [c] + cs;
    forall i ensures HasClass(all, i) <==> c.index == i || HasClass(cs, i) {
      assert all[0] == c;
      if HasClass(cs, i) {
        var k :| 0 <= k < |cs| && cs[k].index == i;
        assert all[k + 1].index == i;
      }
      if HasClass(all, i) {
        var k :| 0 <= k < |all| && all[k].index == i;
        assert k > 0 ==> cs[k - 1].index == i;
      }
    }
  }

  ghost predicate Disjoint(c: Chunk, d: Chunk, csize: int) {
    c.buffer + csize <= d.buffer || d.buffer + csize <= c.buffer
  }

  ghost predicate IsSlot(b: Slot, chunks: seq<Chunk>, csize: int) {
    b.chunk in chunks && ChunkFits(b.chunk, csize) && 0 <= b.k < Per(b.chunk.index, csize)
  }

  lemma {:induction false} ChunkIs(chunks: seq<Chunk>, csize: int, c: Chunk)
    requires Sound(chunks, csize) && c in chunks
    ensures ChunkFits(c, csize)
    ensures forall d :: d in chunks && d != c ==> Disjoint(c, d, csize)
  {
    var i :| 0 <= i < |chunks| && chunks[i] == c;
    forall d | d in chunks && d != c ensures Disjoint(c, d, csize) {
      var j :| 0 <= j < |chunks| && chunks[j] == d;
      assert Disjoint(chunks[if i < j then i else j], chunks[if i < j then j else i], csize);
    }
  }

  /** A slot is inside its chunk. */
  lemma {:induction false} SlotInside(b: Slot, chunks: seq<Chunk>, csize: int)
    requires IsSlot(b, chunks, csize)
    ensures b.chunk.buffer <= Addr(b) && Addr(b) + Size(b.chunk.index) <= b.chunk.buffer + csize
    ensures Div(Addr(b) - b.chunk.buffer, Size(b.chunk.index)) == b.k
  {
    hide Mul, Div;
    var s := Size(b.chunk.index);
    MulOrder(0, b.k, s);
    MulOrder(b.k, Per(b.chunk.index, csize), s);
    DivParts(csize, s);
    DivIs(Addr(b) - b.chunk.buffer, s, b.k, 0);
  }

  /** Two slots do not overlap, whatever their classes. */
  lemma {:induction false} SlotsApart(a: Slot, b: Slot, chunks: seq<Chunk>, csize: int)
    requires Sound(chunks, csize) && IsSlot(a, chunks, csize) && IsSlot(b, chunks, csize) && a != b
    ensures Addr(a) + Size(a.chunk.index) <= Addr(b) || Addr(b) + Size(b.chunk.index) <= Addr(a)
    ensures Addr(a) > 0 && Addr(a) != Addr(b)
  {
    hide Mul, Div, Sound;
    SlotInside(a, chunks, csize);
    SlotInside(b, chunks, csize);
    ChunkIs(chunks, csize, a.chunk);
    if a.chunk == b.chunk {
      MulOrder(a.k, b.k, Size(a.chunk.index));
      MulOrder(b.k, a.k, Size(a.chunk.index));
    }
  }

  // ------------------------------------------------------------------ threads

  ghost function Addrs(s: seq<Slot>): (a: seq<int>)
    ensures |a| == |s| && forall i :: 0 <= i < |s| ==> a[i] == Addr(s[i])
  {
    seq(|s|, i requires 0 <= i < |s| => Addr(s[i]))
  }

  /** `s` is linked through `mem` from `head`. */
  ghost predicate SlotThread(head: int, s: seq<Slot>, mem: map<int, int>) {
    Thread(head, Addrs(s), 0, mem)
  }

  lemma {:induction false} SlotPush(head: int, s: seq<Slot>, mem: map<int, int>, b: Slot)
    requires SlotThread(head, s, mem) && forall x :: x in s ==> Addr(x) != Addr(b)
    ensures SlotThread(Addr(b), [b] + s, mem[Addr(b) := head])
  {
    hide Addr, Thread;
    AddrsIn(s, Addr(b));
    ThreadPush(head, Addrs(s), 0, mem, Addr(b));
    assert Addrs([b] + s) == [Addr(b)] + Addrs(s);
  }

  lemma {:induction false} SlotPop(head: int, s: seq<Slot>, mem: map<int, int>)
    requires SlotThread(head, s, mem) && s != []
    ensures head == Addr(s[0]) && head in mem && SlotThread(mem[head], s[1..], mem)
  {
    hide Addr, Thread;
    ThreadPop(head, Addrs(s), 0, mem);
    assert Addrs(s)[1..] == Addrs(s[1..]);
  }

  lemma {:induction false} SlotFrame(head: int, s: seq<Slot>, mem: map<int, int>, a: int, x: int)
    requires SlotThread(head, s, mem) && forall y :: y in s ==> Addr(y) != a
    ensures SlotThread(head, s, mem[a := x])
  {
    hide Addr, Thread;
    AddrsIn(s, a);
    ThreadFrame(head, Addrs(s), 0, mem, a, x);
  }

  lemma {:induction false} SlotHead(head: int, s: seq<Slot>, mem: map<int, int>)
    requires SlotThread(head, s, mem)
    ensures head == if s == [] then 0 else Addr(s[0])
  {
    hide Addr;
  }

  lemma {:induction false} AddrsIn(s: seq<Slot>, a: int)
    requires forall x :: x in s ==> Addr(x) != a
    ensures a !in Addrs(s)
  {
    hide Addr;
    forall i | 0 <= i < |s| ensures Addrs(s)[i] != a {
      assert s[i] in s;
    }
  }
}
