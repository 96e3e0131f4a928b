/** The cooperative mark-and-sweep allocator `elm::SimpleGC`.

    Blocks are cut from the end of the first free block that is large enough; a collection rebuilds
    the free list from the units that the client has not marked.  The free list is threaded through
    the free memory itself: `mem` maps addresses to the headers found there.  `runs` is the list it
    links, and `held` the blocks the client has obtained and not given up.
 */
module SimpleGC {
  import opened GcBlocks
  import opened GcMarks

  class SimpleGC {
    const csize: int
    var chunks: seq<int>
    var free_list: int
    var mem: map<int, Header>
    /** Marked units of each chunk, during a collection. */
    var bits: map<int, set<int>>
    ghost var runs: seq<Block>
    ghost var held: set<Block>

    ghost predicate Valid()
      reads this
    {
      && csize > 0 && csize % UNIT == 0 && ChunksApart(chunks, csize)
      && Chained(free_list, runs, mem)
      && AllPlaced(runs, chunks, csize) && AllApart(runs)
      && HeldSafe(held, runs)
    }

    /** Held blocks are placed, and overlap neither each other nor the free ones. */
    ghost predicate HeldSafe(bs: set<Block>, free: seq<Block>)
      reads `chunks
    {
      && (forall b :: b in bs ==> Placed(b, chunks, csize))
      && (forall a, b :: a in bs && b in bs && a != b ==> Apart(a, b))
      && (forall b, i :: b in bs && 0 <= i < |free| ==> Apart(free[i], b))
    }

    constructor (size: nat)
      requires size > 0
      ensures Valid() && csize == Round(size) && chunks == [] && held == {}
    {
      csize := Round(size);
      chunks, free_list, mem, bits := [], 0, map[], map[];
      runs, held := [], {};
    }

    /** Cut `size` bytes from the end of the first free block that has them; null if none has. */
    method AllocFromFreeList(size: int) returns (res: int)
      requires Valid() && size > 0 && size % UNIT == 0
      modifies `free_list, `mem, `runs
      ensures Valid()
      ensures var k := FirstFit(old(runs), size);
        if k == |old(runs)| then res == 0 && runs == old(runs) && mem == old(mem)
        else res == Tail(old(runs)[k], size).addr && res != 0 && runs == Carved(old(runs), k, size)
      ensures res != 0 ==> Block(res, size) !in held && HeldSafe(held + {Block(res, size)}, runs)
    {
      hide HeldSafe, AllPlaced, AllApart, ChunksApart, FirstFit, Carved;
      SizesPositive();
      var block, prev := free_list, 0;
      ghost var i := 0;
      while block != 0
        invariant 0 <= i <= |runs| && block == AddrAt(runs, i)
        invariant prev == (if i == 0 then 0 else runs[i - 1].addr)
        invariant forall j :: 0 <= j < i ==> runs[j].size < size
        decreases |runs| - i
      {
        if mem[block].size >= size {
          FirstFitIs(runs, size, i);
          TailSafe(i, size);
          res := block + mem[block].size - size;
          Carve(block, prev, size, i);
          return;
        }
        prev, block := block, mem[block].next;
        i := i + 1;
      }
      FirstFitIs(runs, size, i);
      return 0;
    }

    /** Take the end of a free block away, and unlink it when nothing is left. */
    method Carve(block: int, prev: int, size: int, ghost k: nat)
      requires Valid() && k < |runs| && 0 < size <= runs[k].size && size % UNIT == 0
      requires block in mem && mem[block] == Header(AddrAt(runs, k + 1), runs[k].size)
      requires k > 0 ==> runs[k - 1].addr in mem && mem[runs[k - 1].addr].size == runs[k - 1].size
      requires block == runs[k].addr && prev == (if k == 0 then 0 else runs[k - 1].addr)
      modifies `free_list, `mem, `runs
      ensures Valid() && runs == Carved(old(runs), k, size)
    {
      hide HeldSafe, AllPlaced, ChunksApart, Chained, AllApart;
      CarvedSafe(runs, k, size, chunks, csize);
      CarvedHeldSafe(k, size);
      SizesPositive();
      if k > 0 {
        DifferentAddresses(runs, k, k - 1);
      }
      if size < runs[k].size {
        ShrunkChained(free_list, runs, mem, k, size);
      } else {
        UnlinkedChained(free_list, runs, mem, k, Header(AddrAt(runs, k + 1), 0));
      }

      mem := mem[block := Header(mem[block].next, mem[block].size - size)];
      if mem[block].size == 0 {
        if prev == 0 {
          free_list := mem[block].next;
        } else {
          mem := mem[prev := Header(mem[block].next, mem[prev].size)];
        }
      }
      runs := Carved(runs, k, size);
    }

    lemma {:induction false} SizesPositive()
      requires Valid()
      ensures forall i :: 0 <= i < |runs| ==> runs[i].size > 0 && runs[i].addr > 0
    {
      forall i | 0 <= i < |runs|
        ensures runs[i].size > 0 && runs[i].addr > 0
      {
        assert Placed(runs[i], chunks, csize);
      }
    }

    /** The part taken may be handed out. */
    lemma {:induction false} TailSafe(k: nat, size: int)
      requires Valid() && k < |runs| && 0 < size <= runs[k].size && size % UNIT == 0
      ensures Tail(runs[k], size).addr > 0 && Tail(runs[k], size) !in held
      ensures HeldSafe(held + {Tail(runs[k], size)}, Carved(runs, k, size))
    {
      hide Placed, Apart, Chained, ChunksApart, Carved, AllApart;
      SizesPositive();
      CarvedSafe(runs, k, size, chunks, csize);
      CarvedHeldSafe(k, size);
      TailPlaced(runs[k], size, chunks, csize);
      var x := Tail(runs[k], size);
      forall b | b in held
        ensures Apart(b, x) && Apart(x, b) && b != x
      {
        assert Apart(runs[k], b) && Placed(b, chunks, csize);
        TailApart(runs[k], size, b);
      }
    }

    lemma {:induction false} TailApart(r: Block, size: int, b: Block)
      requires Apart(r, b) && Placed(b, chunks, csize) && 0 < size <= r.size
      ensures Apart(b, Tail(r, size)) && Apart(Tail(r, size), b) && b != Tail(r, size)
    {
    }

    lemma {:induction false} CarvedHeldSafe(k: nat, size: int)
      requires Valid() && k < |runs| && 0 < size <= runs[k].size && size % UNIT == 0
      ensures HeldSafe(held, Carved(runs, k, size))
    {
      CarvedSafe(runs, k, size, chunks, csize);
      forall b | b in held
        ensures forall i :: 0 <= i < |Carved(runs, k, size)| ==> Apart(Carved(runs, k, size)[i], b)
      {
        WithinApart(Carved(runs, k, size), runs, b);
      }
    }

    // --------------------------------------------------------- collection

    /** The chunk that holds an address, as the segment tree finds it. */
    static function ChunkOf(chunks: seq<int>, csize: int, a: int): (c: int)
      ensures (exists i :: 0 <= i < |chunks| && chunks[i] <= a < chunks[i] + csize) ==>
          c in chunks && c <= a < c + csize
    {
      if chunks == [] then 0
      else if chunks[0] <= a < chunks[0] + csize then chunks[0]
      else ChunkOf(chunks[1..], csize, a)
    }

    /** The mark call is about memory of this allocator. */
    ghost predicate Markable(b: Block)
      reads `chunks
    {
      exists i :: 0 <= i < |chunks| && MarkFits(b, chunks[i], csize)
    }

    /** Mark the units of a block; true if all of them were marked already. */
    method Mark(data: int, size: nat) returns (res: bool)
      requires ChunksApart(chunks, csize) && csize > 0 && Markable(Block(data, size))
      requires forall i :: 0 <= i < |chunks| ==> chunks[i] in bits
      modifies `bits
      ensures bits.Keys == old(bits).Keys
      ensures forall i :: 0 <= i < |chunks| ==>
        var c := chunks[i];
        bits[c] == old(bits)[c] + (if c <= data < c + csize then UnitsOf(Block(data, size), c) else {})
      ensures forall i :: 0 <= i < |chunks| && chunks[i] <= data < chunks[i] + csize ==>
        (res <==> UnitsOf(Block(data, size), chunks[i]) <= old(bits)[chunks[i]])
    {
      hide ChunksApart, Range;
      var c := ChunkOf(chunks, csize, data);
      var p := (data - c) / UNIT;
      var s := (size + UNIT - 1) / UNIT;
      res := true;
      for i := p to p + s
        invariant bits.Keys == old(bits).Keys
        invariant bits[c] == old(bits)[c] + Range(p, i)
        invariant forall d :: d in bits && d != c ==> bits[d] == old(bits)[d]
        invariant res <==> Range(p, i) <= old(bits)[c]
      {
        if i !in bits[c] {
          res := false;
          bits := bits[c := bits[c] + {i}];
        }
      }
      OnlyChunk(c, data);
    }

    lemma {:induction false} OnlyChunk(c: int, a: int)
      requires ChunksApart(chunks, csize) && c in chunks && c <= a < c + csize
      ensures forall i :: 0 <= i < |chunks| && chunks[i] <= a < chunks[i] + csize ==> chunks[i] == c
    {
      hide ChunksApart;
      var k :| 0 <= k < |chunks| && chunks[k] == c;
      forall i | 0 <= i < |chunks| && chunks[i] <= a < chunks[i] + csize
        ensures chunks[i] == c
      {
        if i != k {
          ChunksApartAt(chunks, csize, i, k);
        }
      }
    }

    /** Create the free block of units `b` up to `i`. */
    method PushGap(c: int, b: int, i: int, ghost i0: int)
      requires i0 <= b < i && i * UNIT <= csize
      requires Chained(free_list, runs, mem) && Clear(runs, Block(c + i0 * UNIT, csize - i0 * UNIT))
      modifies `free_list, `mem, `runs
      ensures runs == [GapBlock(Gap(b, i), c)] + old(runs) && Chained(free_list, runs, mem)
      ensures Clear(runs, Block(c + i * UNIT, csize - i * UNIT))
    {
      PushClear(runs, mem, free_list, c, csize, i0, Gap(b, i));
      var blk := c + b * UNIT;
      mem := mem[blk := Header(free_list, (i - b) * UNIT)];
      free_list := blk;
      runs := [GapBlock(Gap(b, i), c)] + runs;
    }

    /** Push the unmarked runs of a chunk on the free list. */
    method SweepChunk(c: int) returns (ghost gs: seq<Gap>)
      requires csize > 0 && csize % UNIT == 0 && c in bits
      requires Chained(free_list, runs, mem) && Clear(runs, Block(c, csize))
      modifies `free_list, `mem, `runs
      ensures GapsBelow(gs, bits[c], csize / UNIT, csize / UNIT)
      ensures runs == Pushed(gs, c, old(runs))
      ensures Chained(free_list, runs, mem) && AllApart(runs)
    {
      hide Chained, GapsBelow, Clear, AllApart, Pushed, GapBlock;
      gs := [];
      PushedNone(c, runs);
      ghost var m := bits[c];
      var i, cs := 0, csize / UNIT;
      NoGaps(m, cs);
      while i < cs
        invariant 0 <= i <= cs && (i == 0 || i == cs || i in m)
        invariant GapsBelow(gs, m, cs, i) && runs == Pushed(gs, c, old(runs))
        invariant Chained(free_list, runs, mem) && Clear(runs, Block(c + i * UNIT, csize - i * UNIT))
      {
        ghost var i0 := i;
        while i < cs && i in bits[c]
          invariant i0 <= i <= cs && forall u :: i0 <= u < i ==> u in m
        {
          i := i + 1;
        }
        if i < cs {
          var b := i;
          i := i + 1;
          while i < cs && i !in bits[c]
            invariant b < i <= cs && forall u :: b <= u < i ==> u !in m
          {
            i := i + 1;
          }

          ghost var g := Gap(b, i);
          GapsExtended(gs, m, cs, i0, g);
          PushedMore(gs, g, c, old(runs));
          PushGap(c, b, i, i0);
          gs := gs + [g];
        } else {
          GapsSkipped(gs, m, cs, i0, i);
          ClearLess(runs, c, csize, i0, i);
        }
      }
      ClearApart(runs, Block(c + i * UNIT, csize - i * UNIT));
    }

    method BeginGC()
      modifies `bits
      ensures bits.Keys == (set c | c in chunks) && forall c :: c in bits ==> bits[c] == {}
    {
      bits := map[];
      for k := 0 to |chunks|
        invariant bits.Keys == (set c | c in chunks[..k]) && forall c :: c in bits ==> bits[c] == {}
      {
        bits := bits[chunks[k] := {}];
      }
    }

    /** Rebuild the free list from the unmarked units. */
    method EndGC()
      requires csize > 0 && csize % UNIT == 0 && ChunksApart(chunks, csize)
      requires bits.Keys == set c | c in chunks
      modifies `free_list, `mem, `runs, `bits
      ensures Chained(free_list, runs, mem) && AllApart(runs)
      ensures Swept(runs, chunks, old(bits), csize) && InOrder(runs, chunks, old(bits), csize)
      ensures bits == map[]
    {
      hide AllApart, Chained, ChunksApart, FreeRun, InOrder;
      free_list, runs := 0, [];
      ghost var m := bits;
      NothingSwept(m);
      NoneInOrder(m, csize);
      assert chunks[..0] == [];
      for k := 0 to |chunks|
        invariant bits == m && Chained(free_list, runs, mem) && AllApart(runs)
        invariant Swept(runs, chunks[..k], m, csize) && InOrder(runs, chunks[..k], m, csize)
      {
        var c := chunks[k];
        SweptClear(k, m);
        ghost var runs0 := runs;
        ghost var gs := SweepChunk(c);
        SweptMore(runs0, chunks[..k], m, csize, c, gs);
        InOrderMore(runs0, chunks[..k], m, csize, c, gs);
        assert chunks[..k] + [c] == chunks[..k + 1];
      }
      assert chunks[..|chunks|] == chunks;
      bits := map[];
    }

    lemma {:induction false} NothingSwept(m: map<int, set<int>>)
      requires m.Keys == set c | c in chunks
      ensures Swept([], chunks[..0], m, csize) && AllApart([]) && Chained(0, [], mem)
    {
    }

    /** What has been swept in other chunks is apart from chunk `k`. */
    lemma {:induction false} SweptClear(k: nat, m: map<int, set<int>>)
      requires k < |chunks| && ChunksApart(chunks, csize) && csize % UNIT == 0 && AllApart(runs)
      requires (forall i :: 0 <= i < k ==> chunks[i] in m) && Swept(runs, chunks[..k], m, csize)
      ensures Clear(runs, Block(chunks[k], csize))
    {
      hide FreeRun;
      forall j | 0 <= j < |runs|
        ensures runs[j].size > 0 && Apart(runs[j], Block(chunks[k], csize))
      {
        assert runs[j] in runs;
        var i :| 0 <= i < k && FreeRun(runs[j], chunks[..k][i], m[chunks[..k][i]], csize);
        FreeRunInside(runs[j], chunks[i], m[chunks[i]], csize);
        assert Apart(Block(chunks[i], csize), Block(chunks[k], csize));
      }
    }

    /** The client marks its blocks, in any order and as often as it likes. */
    method Collect(marks: seq<Block>)
      requires ChunksApart(chunks, csize) && csize > 0
      requires bits.Keys == (set c | c in chunks) && forall c :: c in bits ==> bits[c] == {}
      requires forall k :: 0 <= k < |marks| ==> Markable(marks[k])
      modifies `bits
      ensures bits.Keys == set c | c in chunks
      ensures forall c :: c in bits ==> bits[c] == MarkedBy(marks, c, csize)
    {
      hide ChunksApart, Markable;
      for k := 0 to |marks|
        invariant bits.Keys == set c | c in chunks
        invariant forall c :: c in bits ==> bits[c] == MarkedBy(marks[..k], c, csize)
      {
        ghost var old_bits := bits;
        MarkSize(marks[k]);
        var seen := Mark(marks[k].addr, marks[k].size);
        assert marks[..k + 1][..k] == marks[..k];
        forall c | c in bits
          ensures bits[c] == MarkedBy(marks[..k + 1], c, csize)
        {
          var i :| 0 <= i < |chunks| && chunks[i] == c;
        }
      }
      assert marks[..|marks|] == marks;
    }

    lemma {:induction false} MarkSize(b: Block)
      requires Markable(b)
      ensures b.size >= 0
    {
    }

    /** The mark calls keep every block that the client holds. */
    ghost predicate KeepsHeld(marks: seq<Block>)
      reads `held
    {
      forall b :: b in held ==>
        exists k :: 0 <= k < |marks| && marks[k].addr == b.addr && marks[k].size >= 0 && Round(marks[k].size) == b.size
    }

    /** The units marked by a sequence of mark calls, chunk by chunk. */
    ghost function MarkMap(marks: seq<Block>): map<int, set<int>>
      reads `chunks
    {
      map c | c in chunks :: MarkedBy(marks, c, csize)
    }

    /** A full collection: the free list becomes exactly the maximal unmarked runs, whatever it was, from
        the last one of the last chunk to the first one of the first chunk. */
    method DoGC(marks: seq<Block>)
      requires Valid() && KeepsHeld(marks) && forall k :: 0 <= k < |marks| ==> Markable(marks[k])
      modifies `free_list, `mem, `runs, `bits
      ensures Valid() && Swept(runs, chunks, MarkMap(marks), csize) && InOrder(runs, chunks, MarkMap(marks), csize)
    {
      hide HeldSafe, Placed, AllPlaced, AllApart, Chained, ChunksApart, KeepsHeld, Markable, HeldMarked;
      hide Swept, InOrder, MarkedBy;
      BeginGC();
      Collect(marks);
      assert bits == MarkMap(marks);
      HeldKept(marks, MarkMap(marks));
      ghost var free := runs;
      EndGC();
      SweptSafe(free, MarkMap(marks));
    }

    /** All units of a held block are marked in its chunk. */
    ghost predicate HeldMarked(m: map<int, set<int>>)
      reads `held, `chunks
    {
      forall b, i :: b in held && 0 <= i < |chunks| && Inside(b, chunks[i], csize) ==>
        chunks[i] in m && UnitsOf(b, chunks[i]) <= m[chunks[i]]
    }

    lemma {:induction false} SameUnits(b: Block, mark: Block, base: int)
      requires mark.addr == b.addr && mark.size >= 0 && Round(mark.size) == b.size
      ensures UnitsOf(b, base) == UnitsOf(mark, base)
    {
    }

    lemma {:induction false} HeldKept(marks: seq<Block>, m: map<int, set<int>>)
      requires KeepsHeld(marks) && m == MarkMap(marks)
      ensures HeldMarked(m)
    {
      forall b, i | b in held && 0 <= i < |chunks| && Inside(b, chunks[i], csize)
        ensures chunks[i] in m && UnitsOf(b, chunks[i]) <= m[chunks[i]]
      {
        var k :| 0 <= k < |marks| && marks[k].addr == b.addr && marks[k].size >= 0 && Round(marks[k].size) == b.size;
        MarkedByCovers(marks, k, chunks[i], csize);
        SameUnits(b, marks[k], chunks[i]);
      }
    }

    lemma {:induction false} SweptSafe(free: seq<Block>, m: map<int, set<int>>)
      requires csize > 0 && csize % UNIT == 0 && ChunksApart(chunks, csize) && m.Keys == set c | c in chunks
      requires Swept(runs, chunks, m, csize) && HeldMarked(m)
      requires HeldSafe(held, free)
      ensures AllPlaced(runs, chunks, csize) && HeldSafe(held, runs)
    {
      hide FreeRun;
      forall j | 0 <= j < |runs|
        ensures Placed(runs[j], chunks, csize)
      {
        assert runs[j] in runs;
        var i :| 0 <= i < |chunks| && FreeRun(runs[j], chunks[i], m[chunks[i]], csize);
        FreeRunInside(runs[j], chunks[i], m[chunks[i]], csize);
      }
      forall b, j | b in held && 0 <= j < |runs|
        ensures Apart(runs[j], b)
      {
        assert runs[j] in runs;
        var i :| 0 <= i < |chunks| && FreeRun(runs[j], chunks[i], m[chunks[i]], csize);
        HeldApart(b, runs[j], i, m);
      }
    }

    lemma {:induction false} FreeRunGap(r: Block, c: int, m: set<int>, csize: int)
      requires FreeRun(r, c, m, csize)
      ensures var g := Gap((r.addr - c) / UNIT, (r.addr - c + r.size) / UNIT);
        r == GapBlock(g, c) && Maximal(g, m, csize / UNIT)
    {
    }

    lemma {:induction false} HeldApart(b: Block, r: Block, i: nat, m: map<int, set<int>>)
      requires csize > 0 && csize % UNIT == 0 && ChunksApart(chunks, csize) && i < |chunks| && chunks[i] in m
      requires FreeRun(r, chunks[i], m[chunks[i]], csize) && HeldMarked(m)
      requires b in held && Placed(b, chunks, csize)
      ensures Apart(r, b)
    {
      hide ChunksApart, Apart, FreeRun, Inside;
      var l :| 0 <= l < |chunks| && Inside(b, chunks[l], csize);
      FreeRunInside(r, chunks[i], m[chunks[i]], csize);
      if l == i {
        var g := Gap((r.addr - chunks[i]) / UNIT, (r.addr - chunks[i] + r.size) / UNIT);
        FreeRunGap(r, chunks[i], m[chunks[i]], csize);
        MarkedApart(b, chunks[i], csize, m[chunks[i]], csize / UNIT, g);
      } else {
        ChunksApartAt(chunks, csize, i, l);
        DifferentChunks(r, b, chunks[i], chunks[l], csize);
      }
    }

    // --------------------------------------------------------- allocation

    /** Add a chunk, at the address given by the system, as one free block. */
    method NewChunk(base: int)
      requires Valid() && base > 0
      requires forall i :: 0 <= i < |chunks| ==> Apart(Block(chunks[i], csize), Block(base, csize))
      modifies `chunks, `mem, `free_list, `runs
      ensures Valid() && chunks == [base] + old(chunks) && runs == [Block(base, csize)] + old(runs)
    {
      NewChunkSafe(base);
      chunks := [base] + chunks;
      mem := mem[base := Header(free_list, csize)];
      free_list := base;
      runs := [Block(base, csize)] + runs;
    }

    lemma {:induction false} NewChunkSafe(base: int)
      requires Valid() && base > 0
      requires forall i :: 0 <= i < |chunks| ==> Apart(Block(chunks[i], csize), Block(base, csize))
      ensures var b := Block(base, csize);
        && ChunksApart([base] + chunks, csize)
        && Chained(base, [b] + runs, mem[base := Header(free_list, csize)])
        && AllPlaced([b] + runs, [base] + chunks, csize) && AllApart([b] + runs)
        && (forall h :: h in held ==> Placed(h, [base] + chunks, csize) && Apart(b, h))
    {
      hide Chained, Placed;
      var b, chunks', runs' := Block(base, csize), [base] + chunks, [Block(base, csize)] + runs;
      assert forall i :: 0 < i < |chunks'| ==> chunks'[i] == chunks[i - 1];
      assert forall i :: 0 < i < |runs'| ==> runs'[i] == runs[i - 1];
      PlacedInNewChunk(base);
      forall i | 0 <= i < |runs|
        ensures Placed(runs[i], chunks', csize) && Apart(b, runs[i]) && runs[i].addr != base
      {
        PlacedElsewhere(base, runs[i]);
      }
      forall h | h in held
        ensures Placed(h, chunks', csize) && Apart(b, h)
      {
        PlacedElsewhere(base, h);
      }
      PushChained(free_list, runs, mem, b);
    }

    lemma {:induction false} PlacedInNewChunk(base: int)
      requires csize > 0 && csize % UNIT == 0
      ensures Placed(Block(base, csize), [base] + chunks, csize)
    {
      assert Inside(Block(base, csize), ([base] + chunks)[0], csize);
    }

    lemma {:induction false} PlacedElsewhere(base: int, x: Block)
      requires Placed(x, chunks, csize)
      requires forall i :: 0 <= i < |chunks| ==> Apart(Block(chunks[i], csize), Block(base, csize))
      ensures Placed(x, [base] + chunks, csize) && Apart(Block(base, csize), x) && x.addr != base
    {
      var i :| 0 <= i < |chunks| && Inside(x, chunks[i], csize);
      assert Inside(x, ([base] + chunks)[i + 1], csize);
    }

    /** A free list, and the block taken from it: the end of the first one that is large enough. */
    ghost predicate FirstFitTaken(free: seq<Block>, sz: int, res: int)
      reads `runs
    {
      && FirstFit(free, sz) < |free|
      && res == Tail(free[FirstFit(free, sz)], sz).addr && runs == Carved(free, FirstFit(free, sz), sz)
    }

    ghost predicate NoneFits(free: seq<Block>, sz: int) {
      forall i :: 0 <= i < |free| ==> free[i].size < sz
    }

    /** Allocate a block of at least `size` bytes.  `marks` are the mark calls the client makes if a
        collection is needed, and `base` is the address of the new chunk if one is needed.  First fit on
        the free list, or else on what a collection, and only then, finds free, or else in a new chunk. */
    method Allocate(size: nat, marks: seq<Block>, base: int) returns (res: int, ghost swept: seq<Block>)
      requires Valid() && 0 < size < csize
      requires KeepsHeld(marks) && forall k :: 0 <= k < |marks| ==> Markable(marks[k])
      requires base > 0 && forall i :: 0 <= i < |chunks| ==> Apart(Block(chunks[i], csize), Block(base, csize))
      modifies this
      ensures Valid() && res != 0
      ensures held == old(held) + {Block(res, Round(size))}
      ensures Placed(Block(res, Round(size)), chunks, csize)
      ensures forall b :: b in old(held) ==> Apart(b, Block(res, Round(size)))
      ensures !NoneFits(old(runs), Round(size)) ==>
        chunks == old(chunks) && FirstFitTaken(old(runs), Round(size), res)
      ensures NoneFits(old(runs), Round(size)) ==>
        && Swept(swept, old(chunks), old(MarkMap(marks)), csize)
        && InOrder(swept, old(chunks), old(MarkMap(marks)), csize)
        && if NoneFits(swept, Round(size))
           then chunks == [base] + old(chunks) && FirstFitTaken([Block(base, csize)] + swept, Round(size), res)
           else chunks == old(chunks) && FirstFitTaken(swept, Round(size), res)
    {
      hide Placed, Apart, AllPlaced, AllApart, Chained, ChunksApart, Carved, FirstFit, Swept, InOrder, Round;
      var sz := Round(size);
      RoundFits(size, csize);
      swept := [];
      res := AllocFromFreeList(sz);
      if res != 0 {
        Hand(res, sz);
        return;
      }
      DoGC(marks);
      swept := runs;
      res := AllocFromFreeList(sz);
      if res != 0 {
        Hand(res, sz);
        return;
      }
      NewChunk(base);
      FirstOfNewChunk(sz);
      res := AllocFromFreeList(sz);
      Hand(res, sz);
    }

    /** In terms of the marks: a collection that does not help is one after which every maximal unmarked
        run of every chunk is too small. */
    lemma {:induction false} NoRunFits(swept: seq<Block>, chunks: seq<int>, bits: map<int, set<int>>, sz: int)
      requires (forall i :: 0 <= i < |chunks| ==> chunks[i] in bits) && Swept(swept, chunks, bits, csize)
      ensures NoneFits(swept, sz) <==>
        forall i, r :: 0 <= i < |chunks| && FreeRun(r, chunks[i], bits[chunks[i]], csize) ==> r.size < sz
    {
      hide FreeRun;
      if NoneFits(swept, sz) {
        forall i, r | 0 <= i < |chunks| && FreeRun(r, chunks[i], bits[chunks[i]], csize) ensures r.size < sz {
          assert r in swept;
        }
      } else {
        var k :| 0 <= k < |swept| && swept[k].size >= sz;
        assert swept[k] in swept;
      }
    }

    lemma {:induction false} FirstOfNewChunk(size: int)
      requires runs != [] && size <= runs[0].size
      ensures FirstFit(runs, size) == 0 < |runs|
    {
    }

    /** The block is the client's. */
    ghost method Hand(res: int, size: int)
      requires Valid() && Block(res, size) !in held && HeldSafe(held + {Block(res, size)}, runs)
      modifies `held
      ensures Valid() && held == old(held) + {Block(res, size)}
      ensures Placed(Block(res, size), chunks, csize)
      ensures forall b :: b in old(held) ==> Apart(b, Block(res, size))
    {
      held := held + {Block(res, size)};
    }

    /** The client gives a block up, by not marking it any more. */
    ghost method GiveUp(b: Block)
      requires Valid()
      modifies `held
      ensures Valid() && held == old(held) - {b}
    {
      held := held - {b};
    }

    /** The client writes what it wants in a unit of a block it holds: no byte of a free block changes. */
    method Write(b: Block, a: int, x: Header)
      requires Valid() && b in held && b.addr <= a && a + UNIT <= b.addr + b.size && (a - b.addr) % UNIT == 0
      modifies `mem
      ensures Valid() && mem == old(mem)[a := x]
      ensures forall i :: 0 <= i < |runs| ==> Apart(Block(a, UNIT), runs[i])
    {
      hide Chained, Placed, ChunksApart;
      forall i | 0 <= i < |runs|
        ensures runs[i].addr != a && Apart(Block(a, UNIT), runs[i])
      {
        assert Apart(runs[i], b);
        PlacedSize(runs[i], chunks, csize);
      }
      ChainedElsewhere(free_list, runs, mem, a, x);
      mem := mem[a := x];
    }
  }
}
