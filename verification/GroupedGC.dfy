/** The allocator with size classes `elm::GroupedGC`.

    A block of a class is taken from the free list of the class, or else from the end of its current
    chunk; a full chunk is swept from its start by the next collection.  A collection is only
    recorded as needed, and is run when the client calls `DoGC`.
 */
module GroupedGC {
  import opened Arith
  import opened Common
  import opened GroupSlots
  import opened Threads

  class GroupedGC {
    const csize: int
    const free_list: array<int>
    const chunk_list: array<Chunk?>
    const chunk_init: array<bool>
    var chunks: seq<Chunk>
    var needGC: bool
    var mem: map<int, int>
    /** The free blocks of each class. */
    ghost var frees: seq<seq<Slot>>
    /** The blocks of the client. */
    ghost var held: set<Slot>

    ghost predicate Valid()
      reads `chunks, `frees, `mem, `held, chunks`size, chunks`left, chunks`init, free_list, chunk_list
    {
      Shaped() && Bumps() && Threads() && FreeSlots(frees) && HeldSlots(held, frees)
    }

    ghost predicate Shaped()
      reads `chunks, `frees
    {
      && Sound(chunks, csize)
      && free_list.Length == MAX && chunk_list.Length == MAX && chunk_init.Length == MAX && |frees| == MAX
    }

    /** What is left of a chunk is a number of slots; a chunk that is not full is the current chunk
        of its class. */
    ghost predicate Bumps()
      reads `chunks, chunks`size, chunks`left, chunks`init, chunk_list
    {
      && chunk_list.Length == MAX
      && (forall c :: c in chunks ==> Bump(c))
      && (forall i :: 0 <= i < MAX && chunk_list[i] != null ==>
        chunk_list[i] in chunks && chunk_list[i].index == i && chunk_list[i].init)
    }

    ghost predicate Bump(c: Chunk)
      requires chunk_list.Length == MAX
      reads c`size, c`left, c`init, chunk_list
    {
      && ChunkFits(c, csize)
      && 0 <= c.left <= Per(c.index, csize) && c.size == Mul(c.left, Size(c.index))
      && (c.init <==> c.left > 0) && (c.init <==> chunk_list[c.index] == c)
    }

    ghost predicate Threads()
      reads free_list, `mem, `frees
    {
      && free_list.Length == MAX && |frees| == MAX
      && forall i :: 0 <= i < MAX ==> SlotThread(free_list[i], frees[i], mem)
    }

    /** Free blocks are different blocks of full chunks of their class. */
    ghost predicate FreeSlots(fs: seq<seq<Slot>>)
      reads `chunks, chunks`init
    {
      forall i :: 0 <= i < |fs| ==> Distinct(fs[i]) && forall b :: b in fs[i] ==> b.chunk in chunks && FreeSlot(b, i)
    }

    ghost predicate FreeSlot(b: Slot, i: int)
      reads `chunks, b.chunk`init
    {
      IsSlot(b, chunks, csize) && b.chunk.index == i && !b.chunk.init
    }

    /** The blocks of the client have been taken from chunks, and are not free. */
    ghost predicate HeldSlots(hs: set<Slot>, fs: seq<seq<Slot>>)
      reads `chunks, chunks`left
    {
      forall b :: b in hs ==> b.chunk in chunks && HeldSlot(b, fs)
    }

    ghost predicate HeldSlot(b: Slot, fs: seq<seq<Slot>>)
      reads `chunks, b.chunk`left
    {
      IsSlot(b, chunks, csize) && b.chunk.left <= b.k && b.chunk.index < |fs| && b !in fs[b.chunk.index]
    }

    /** The flag of a class tells that it has never had a chunk. */
    ghost predicate Inits()
      reads `chunks, chunk_init
    {
      chunk_init.Length == MAX && forall i :: 0 <= i < MAX ==> (chunk_init[i] <==> !HasClass(chunks, i))
    }

    constructor (size: nat)
      requires size > 0
      ensures Valid() && Inits() && csize == G.Round(size) && chunks == [] && held == {} && !needGC
      ensures forall i :: 0 <= i < MAX ==> frees[i] == [] && chunk_list[i] == null
      ensures fresh(free_list) && fresh(chunk_list) && fresh(chunk_init)
    {
      csize := G.Round(size);
      free_list := new int[MAX](i => 0);
      chunk_list := new Chunk?[MAX](i => null);
      chunk_init := new bool[MAX](i => true);
      chunks, needGC, mem := [], false, map[];
      frees, held := seq(MAX, i => []), {};
    }

    /** Add a chunk for a class that has no current one, at address `base`.  The end that is not a
        whole block is dropped, so that blocks taken from the end of what is left are the blocks that
        the sweep finds from the start. */
    method NewChunk(index: int, base: int)
      requires Valid() && 0 < index < MAX && Size(index) <= csize && chunk_list[index] == null
      requires Fresh(base)
      modifies `chunks, chunk_list
      ensures Valid() && chunk_list[index] != null && fresh(chunk_list[index])
      ensures chunks == [chunk_list[index]] + old(chunks) && chunk_list[index].buffer == base
      ensures chunk_list[index].index == index && chunk_list[index].left == Per(index, csize) > 0
      ensures forall i :: 0 <= i < MAX && i != index ==> chunk_list[i] == old(chunk_list[i])
    {
      hide Sound, Threads, SlotThread, Distinct, IsSlot, ChunkFits, Mul, Div;
      DivParts(csize, Size(index));
      var offset := csize % Size(index);
      var c := new Chunk(base, index, csize - offset, Per(index, csize));
      ChunkAdded(c);
      chunks := [c] + chunks;
      chunk_list[index] := c;
    }

    ghost predicate Fresh(base: int)
      reads `chunks
    {
      base > 0 && forall i :: 0 <= i < |chunks| ==> chunks[i].buffer + csize <= base || base + csize <= chunks[i].buffer
    }

    lemma {:induction false} ChunkAdded(c: Chunk)
      requires Sound(chunks, csize) && Fresh(c.buffer) && 0 < c.index < MAX && Size(c.index) <= csize
      ensures Sound([c] + chunks, csize) && ChunkFits(c, csize) && Per(c.index, csize) > 0
      ensures forall b :: IsSlot(b, chunks, csize) ==> IsSlot(b, [c] + chunks, csize)
    {
      hide Mul, Div;
      DivParts(csize, Size(c.index));
      MulOrder(Per(c.index, csize), 0, Size(c.index));
      var all := [c] + chunks;
      forall i | 0 <= i < |all| ensures ChunkFits(all[i], csize) {
        assert i > 0 ==> all[i] == chunks[i - 1];
      }
      forall i, j | 0 <= i < j < |all| ensures Disjoint(all[i], all[j], csize) {
        assert all[j] == chunks[j - 1];
        assert i > 0 ==> all[i] == chunks[i - 1];
      }
    }

    /** Take the first free block of a class. */
    method TakeFree(index: int) returns (res: int, ghost b: Slot)
      requires Valid() && 0 < index < MAX && frees[index] != []
      modifies free_list, `frees, `held
      ensures Valid() && b == old(frees[index])[0] && res == Addr(b)
      ensures frees == old(frees)[index := old(frees[index])[1..]] && b !in old(held) && held == old(held) + {b}
    {
      hide Sound, Bumps, Bump, SlotThread, IsSlot, Addr, Distinct, HeldSlots, HeldSlot, FreeSlots;
      b := frees[index][0];
      SlotPop(free_list[index], frees[index], mem);
      FreeTaken(index);
      res := free_list[index];
      free_list[index] := mem[res];
      frees := frees[index := frees[index][1..]];
      held := held + {b};
    }

    lemma {:induction false} FreeTaken(index: int)
      requires Valid() && 0 < index < MAX && frees[index] != []
      ensures var b, fs := frees[index][0], frees[index := frees[index][1..]];
        FreeSlots(fs) && HeldSlots(held + {b}, fs) && b !in held
    {
      hide Sound, Bumps, SlotThread, Addr, Threads;
      var b, fs := frees[index][0], frees[index := frees[index][1..]];
      assert FreeSlot(b, index);
      assert forall x :: x in fs[index] ==> x in frees[index];
      assert b !in fs[index];
      BumpOf(b.chunk);
      SlotLow(b);
      forall x | x in held + {b} ensures x.chunk in chunks && HeldSlot(x, fs) {
        assert x in held ==> HeldSlot(x, frees);
        assert x != b ==> x in held;
      }
    }

    lemma {:induction false} BumpOf(c: Chunk)
      requires Valid() && c in chunks
      ensures Bump(c)
    {
      hide Sound, Threads, FreeSlots, HeldSlots, Bump;
    }

    lemma {:induction false} SlotLow(b: Slot)
      requires IsSlot(b, chunks, csize)
      ensures b.k >= 0
    {
    }

    /** Take the last of the blocks left in the current chunk of a class. */
    method TakeBump(size: int, index: int, currChunk: Chunk) returns (res: int, ghost b: Slot)
      requires Valid() && 0 < index < MAX && chunk_list[index] == currChunk && size == Size(index)
      modifies chunk_list, currChunk`size, currChunk`init, currChunk`left, `held
      ensures Valid() && old(currChunk.left) > 0 && currChunk.left == old(currChunk.left) - 1
      ensures b == Slot(currChunk, old(currChunk.left) - 1) && res == Addr(b)
      ensures IsSlot(b, chunks, csize) && b !in old(held) && held == old(held) + {b}
      ensures forall i :: 0 <= i < MAX && i != index ==> chunk_list[i] == old(chunk_list[i])
      ensures chunk_list[index] == if currChunk.left == 0 then null else currChunk
    {
      hide Sound, Threads, SlotThread, Distinct, Mul, Div;
      BumpOf(currChunk);
      MulOrder(0, currChunk.left - 1, size);
      MulOrder(1, currChunk.left - 1, size);
      MulOrder(currChunk.left - 1, 0, size);
      b := Slot(currChunk, currChunk.left - 1);
      NotHeldYet(currChunk);
      var newSize := currChunk.size - size;
      res := currChunk.buffer + newSize;
      currChunk.size := newSize;
      currChunk.left := currChunk.left - 1;
      if newSize < size {
        chunk_list[index] := null;
        currChunk.init := false;
      }
      held := held + {b};
    }

    /** The blocks left in a chunk are not held. */
    lemma {:induction false} NotHeldYet(c: Chunk)
      requires HeldSlots(held, frees)
      ensures forall k {:trigger Slot(c, k)} :: k < c.left ==> Slot(c, k) !in held
      ensures c.init && FreeSlots(frees) ==> forall i, b :: 0 <= i < |frees| && b in frees[i] ==> b.chunk != c
    {
    }

    // ------------------------------------------------------------- collection

    /** The client marks blocks of the allocator, at least all that it holds. */
    ghost predicate Marks(live: seq<int>)
      reads `chunks, `held
    {
      && (forall i :: 0 <= i < |live| ==> 
        exists c, k :: c in chunks && IsSlot(Slot(c, k), chunks, csize) && Addr(Slot(c, k)) == live[i])
      && (forall b :: b in held ==> Addr(b) in live)
    }

    /** The bits of the blocks at some addresses. */
    ghost function BitsOf(c: Chunk, live: set<int>): set<int>
      requires ChunkFits(c, csize)
    {
      set k | 0 <= k < Per(c.index, csize) && Addr(Slot(c, k)) in live
    }

    ghost predicate Collected(live: set<int>)
      requires Sound(chunks, csize)
      reads `chunks, chunks
    {
      forall c :: c in chunks ==> ChunkFits(c, csize) && c.bits == BitsOf(c, live)
    }

    method BeginGC()
      requires Sound(chunks, csize)
      modifies chunks`bits
      ensures Collected({})
    {
      hide Mul, Div, Addr;
      for j := 0 to |chunks|
        invariant forall i :: 0 <= i < j ==> chunks[i].bits == {}
      {
        chunks[j].bits := {};
      }
      forall c | c in chunks ensures ChunkFits(c, csize) && c.bits == BitsOf(c, {}) {
        var i :| 0 <= i < |chunks| && chunks[i] == c;
      }
    }

    /** Mark the block at `data`; true if it was marked before.  The choice of its chunk stands for
        the segment tree of the code. */
    method Mark(data: int, ghost b: Slot) returns (res: bool)
      requires Sound(chunks, csize) && IsSlot(b, chunks, csize) && Addr(b) == data
      modifies b.chunk`bits
      ensures b.chunk.bits == old(b.chunk.bits) + {b.k} && res == (b.k in old(b.chunk.bits))
    {
      hide Mul, Div, Addr, Sound;
      SlotInside(b, chunks, csize);
      ChunkIs(chunks, csize, b.chunk);
      var gcc :| gcc in chunks && gcc.buffer <= data < gcc.buffer + csize;
      var p := Div(data - gcc.buffer, Size(gcc.index));
      res := p in gcc.bits;
      if !res {
        gcc.bits := gcc.bits + {p};
      }
    }

    /** What the client does in a collection. */
    method Collect(live: seq<int>)
      requires Sound(chunks, csize) && Marks(live) && Collected({})
      modifies chunks`bits
      ensures Collected(Members(live))
    {
      hide Mul, Div, Addr, Sound, BitsOf;
      assert Members(live[..0]) == {};
      for k := 0 to |live|
        invariant Collected(Members(live[..k]))
      {
        ghost var d, n :| d in chunks && IsSlot(Slot(d, n), chunks, csize) && Addr(Slot(d, n)) == live[k];
        ghost var b := Slot(d, n);
        assert Members(live[..k + 1]) == Members(live[..k]) + {live[k]};
        ghost var seen := Members(live[..k]);
        forall c | c in chunks
          ensures BitsOf(c, seen + {live[k]}) == BitsOf(c, seen) + if c == b.chunk then {b.k} else {}
        {
          BitsSnoc(c, seen, b);
        }
        var r := Mark(live[k], b);
      }
      assert live[..|live|] == live;
    }

    lemma {:induction false} BitsSnoc(c: Chunk, live: set<int>, b: Slot)
      requires Sound(chunks, csize) && c in chunks && IsSlot(b, chunks, csize)
      ensures ChunkFits(c, csize)
      ensures BitsOf(c, live + {Addr(b)}) == BitsOf(c, live) + if c == b.chunk then {b.k} else {}
    {
      hide Mul, Div, Addr, Sound;
      ChunkIs(chunks, csize, c);
      forall k | 0 <= k < Per(c.index, csize) && Slot(c, k) != b
        ensures Addr(Slot(c, k)) != Addr(b)
      {
        SlotsApart(Slot(c, k), b, chunks, csize);
      }
    }

    /** Link a block in the free list of its class. */
    method Push(blk: int, index: int, ghost b: Slot)
      requires Shaped() && Threads() && FreeSlots(frees)
      requires 0 < index < MAX && b.chunk in chunks && FreeSlot(b, index) && b !in frees[index] && blk == Addr(b)
      modifies free_list, `mem, `frees
      ensures Shaped() && Threads() && FreeSlots(frees)
      ensures frees == old(frees)[index := [b] + old(frees[index])]
    {
      hide Sound, SlotThread, Addr, IsSlot;
      forall i | 0 <= i < MAX
        ensures SlotThread(free_list[i], frees[i], mem[blk := free_list[index]])
        ensures forall x :: x in frees[i] ==> Addr(x) != blk
      {
        forall x | x in frees[i] ensures Addr(x) != blk {
          assert FreeSlot(x, i);
          SlotsApart(x, b, chunks, csize);
        }
        SlotFrame(free_list[i], frees[i], mem, blk, free_list[index]);
      }
      SlotPush(free_list[index], frees[index], mem, b);
      mem := mem[blk := free_list[index]];
      free_list[index] := blk;
      frees := frees[index := [b] + frees[index]];
    }

    /** The first n blocks of a chunk that are not marked, the last one first. */
    ghost function Unmarked(c: Chunk, n: int, bits: set<int>): seq<Slot> {
      if n <= 0 then [] else (if n - 1 in bits then [] else [Slot(c, n - 1)]) + Unmarked(c, n - 1, bits)
    }

    /** The free list of a class: the unmarked blocks of its full chunks, the last chunk first. */
    ghost function ListOf(cs: seq<Chunk>, i: int, live: set<int>): seq<Slot>
      requires forall k :: 0 <= k < |cs| ==> ChunkFits(cs[k], csize)
      reads cs`init
    {
      if cs == [] then []
      else
        var c := cs[|cs| - 1];
        assert ChunkFits(c, csize);
        (if c.index == i && !c.init then Unmarked(c, Per(c.index, csize), BitsOf(c, live)) else [])
        + ListOf(cs[..|cs| - 1], i, live)
    }

    /** Link the unmarked blocks of a full chunk, from its start to its end. */
    method SweepChunk(c: Chunk)
      requires Shaped() && Threads() && FreeSlots(frees) && c in chunks && !c.init && ChunkFits(c, csize)
      requires forall b :: b in frees[c.index] ==> b.chunk != c
      modifies free_list, `mem, `frees
      ensures Shaped() && Threads() && FreeSlots(frees)
      ensures forall i :: 0 <= i < MAX && i != c.index ==> frees[i] == old(frees[i])
      ensures forall b :: b in frees[c.index] <==>
        b in old(frees[c.index]) || (b.chunk == c && 0 <= b.k < Per(c.index, csize) && b.k !in c.bits)
      ensures frees[c.index] == Unmarked(c, Per(c.index, csize), c.bits) + old(frees[c.index])
    {
      hide Sound, Mul, Div, Threads, FreeSlots, Unmarked, Addr, FreeSlot, IsSlot;
      var blockSize, currentSize, index, i := Size(c.index), 0, c.index, 0;
      var blockCount := Div(csize, blockSize);
      MulOrder(0, 0, blockSize);
      DivParts(csize, blockSize);
      UnmarkedStep(c, 0, c.bits);
      assert [] + frees[index] == frees[index];
      while i < blockCount
        invariant 0 <= i <= blockCount && currentSize == Mul(i, blockSize)
        invariant Shaped() && Threads() && FreeSlots(frees)
        invariant frees == old(frees)[index := Unmarked(c, i, c.bits) + old(frees[index])]
      {
        UnmarkedStep(c, i, c.bits);
        if i !in c.bits {
          UnmarkedAre(c, i, c.bits);
          SlotIsFree(c, i);
          Push(c.buffer + currentSize, index, Slot(c, i));
          assert [Slot(c, i)] + (Unmarked(c, i, c.bits) + old(frees[index])) ==
            ([Slot(c, i)] + Unmarked(c, i, c.bits)) + old(frees[index]);
        }
        MulOrder(i, i, blockSize);
        i := i + 1;
        currentSize := currentSize + blockSize;
      }
      UnmarkedAre(c, i, c.bits);
    }

    lemma {:induction false} SlotIsFree(c: Chunk, k: int)
      requires c in chunks && !c.init && ChunkFits(c, csize) && 0 <= k < Per(c.index, csize)
      ensures FreeSlot(Slot(c, k), c.index)
      ensures Addr(Slot(c, k)) == c.buffer + Mul(k, Size(c.index))
    {
    }

    lemma {:induction false} UnmarkedStep(c: Chunk, n: nat, bits: set<int>)
      ensures Unmarked(c, 0, bits) == []
      ensures Unmarked(c, n + 1, bits) == (if n in bits then [] else [Slot(c, n)]) + Unmarked(c, n, bits)
      ensures n in bits ==> Unmarked(c, n + 1, bits) == Unmarked(c, n, bits)
    {
    }

    lemma {:induction false} UnmarkedAre(c: Chunk, n: nat, bits: set<int>)
      ensures forall b :: b in Unmarked(c, n, bits) <==> b.chunk == c && 0 <= b.k < n && b.k !in bits
    {
      if n > 0 {
        UnmarkedAre(c, n - 1, bits);
        UnmarkedStep(c, n - 1, bits);
      }
    }

    /** The free blocks are those of full chunks, among the first j, that are not marked. */
    ghost predicate Swept(j: nat)
      requires j <= |chunks| && |frees| == MAX
      reads `chunks, chunks, `frees
    {
      SweptIn(frees, j)
    }

    method ResetLists()
      requires Shaped()
      modifies free_list, `frees
      ensures Shaped() && Threads() && FreeSlots(frees) && Swept(0)
      ensures forall i :: 0 <= i < MAX ==> frees[i] == []
    {
      hide Sound, Mul, Div, Addr, IsSlot;
      for i := 0 to MAX
        invariant forall j :: 0 <= j < i ==> free_list[j] == 0
      {
        free_list[i] := 0;
      }
      frees := seq(MAX, i => []);
      assert chunks[..0] == [];
    }

    /** Sweep all the full chunks. */
    method SweepChunks(ghost live: set<int>)
      requires Shaped() && Threads() && FreeSlots(frees) && Swept(0) && Collected(live)
      requires forall i :: 0 <= i < MAX ==> frees[i] == []
      modifies free_list, `mem, `frees
      ensures Shaped() && Threads() && FreeSlots(frees) && Swept(|chunks|)
      ensures ListsAre(|chunks|, live)
    {
      hide Sound, Threads, FreeSlots, Swept, ChunkFits, Unmarked, BitsOf, ListOf;
      NoLists(live);
      for j := 0 to |chunks|
        invariant Shaped() && Threads() && FreeSlots(frees) && Swept(j) && ListsAre(j, live)
      {
        var c := chunks[j];
        ghost var before := frees;
        ChunkIs(chunks, csize, c);
        SweptBefore(before, j);
        if !c.init {
          SweepChunk(c);
        }
        SweptStep(before, j);
        ListsStep(before, j, live);
      }
      assert chunks[..|chunks|] == chunks;
    }

    ghost predicate ListsAre(j: nat, live: set<int>)
      requires j <= |chunks| && |frees| == MAX
      reads `chunks, chunks`init, `frees
    {
      && (forall k :: 0 <= k < j ==> ChunkFits(chunks[k], csize))
      && forall i :: 0 <= i < MAX ==> frees[i] == ListOf(chunks[..j], i, live)
    }

    lemma {:induction false} NoLists(live: set<int>)
      requires |frees| == MAX && forall i :: 0 <= i < MAX ==> frees[i] == []
      ensures ListsAre(0, live)
    {
    }

    lemma {:induction false} ListsStep(before: seq<seq<Slot>>, j: nat, live: set<int>)
      requires j < |chunks| && |frees| == |before| == MAX && ChunkFits(chunks[j], csize)
      requires forall k :: 0 <= k < j ==> ChunkFits(chunks[k], csize)
      requires forall i :: 0 <= i < MAX ==> before[i] == ListOf(chunks[..j], i, live)
      requires chunks[j].bits == BitsOf(chunks[j], live)
      requires chunks[j].init ==> frees == before
      requires var c := chunks[j]; !c.init ==>
        && (forall i :: 0 <= i < MAX && i != c.index ==> frees[i] == before[i])
        && frees[c.index] == Unmarked(c, Per(c.index, csize), c.bits) + before[c.index]
      ensures ListsAre(j + 1, live)
    {
      hide Unmarked, BitsOf;
      var c, cs := chunks[j], chunks[..j + 1];
      assert cs[..j] == chunks[..j] && cs[j] == c;
      assert cs == chunks[..j] + [c];
      forall i | 0 <= i < MAX ensures frees[i] == ListOf(cs, i, live) {
        assert [] + before[i] == before[i];
      }
    }

    /** Rebuild the free lists from the marks, and drop the marks. */
    method EndGC(ghost live: set<int>)
      requires Shaped() && Bumps() && Collected(live)
      requires forall b :: b in held ==> b.chunk in chunks && HeldMarked(b, live)
      modifies free_list, `mem, `frees, chunks`bits
      ensures Valid()
      ensures forall i, b :: 0 <= i < MAX ==>
        (b in frees[i] <==> b.chunk in chunks && FreeSlot(b, i) && Addr(b) !in live)
      ensures ListsAre(|chunks|, live) && forall c :: c in chunks ==> c.bits == {}
    {
      hide Sound, Mul, Div, Addr, Swept, Collected, HeldSlot, IsSlot, SlotThread, Distinct, HeldMarked;
      ResetLists();
      SweepChunks(live);
      SweptAll(live);
      DropBits();
    }

    method DropBits()
      modifies chunks`bits
      ensures forall c :: c in chunks ==> c.bits == {}
    {
      for j := 0 to |chunks|
        invariant forall i :: 0 <= i < j ==> chunks[i].bits == {}
      {
        chunks[j].bits := {};
      }
    }

    ghost predicate HeldMarked(b: Slot, live: set<int>)
      reads `chunks, b.chunk`left
    {
      IsSlot(b, chunks, csize) && b.chunk.left <= b.k && Addr(b) in live
    }

    /** What is swept before chunk j, in terms of a copy of the free lists. */
    ghost predicate SweptIn(fs: seq<seq<Slot>>, j: nat)
      requires j <= |chunks| && |fs| == MAX
      reads `chunks, chunks
    {
      && (forall i, b :: 0 <= i < MAX && b in fs[i] ==>
        b.chunk in chunks[..j] && FreeSlot(b, i) && b.k !in b.chunk.bits)
      && (forall c, k :: c in chunks[..j] && FreeSlot(Slot(c, k), c.index) && k !in c.bits ==>
        Slot(c, k) in fs[c.index])
    }

    lemma {:induction false} SweptBefore(before: seq<seq<Slot>>, j: nat)
      requires j < |chunks| && |frees| == MAX && Sound(chunks, csize) && Swept(j) && before == frees
      ensures SweptIn(before, j)
      ensures forall i, b :: 0 <= i < MAX && b in frees[i] ==> b.chunk != chunks[j]
    {
      hide Mul, Div, Addr;
      forall i | 0 <= i < j ensures chunks[i] != chunks[j] {
        assert Disjoint(chunks[i], chunks[j], csize);
      }
    }

    lemma {:induction false} SweptStep(before: seq<seq<Slot>>, j: nat)
      requires j < |chunks| && Shaped() && |before| == MAX
      requires ChunkFits(chunks[j], csize) && SweptIn(before, j)
      requires chunks[j].init ==> frees == before
      requires var c := chunks[j]; !c.init ==>
        && (forall i :: 0 <= i < MAX && i != c.index ==> frees[i] == before[i])
        && (forall b :: b in frees[c.index] <==>
          b in before[c.index] || (b.chunk == c && 0 <= b.k < Per(c.index, csize) && b.k !in c.bits))
      ensures Swept(j + 1)
    {
      hide Sound, Mul, Div;
      assert chunks[..j + 1] == chunks[..j] + [chunks[j]];
    }

    lemma {:induction false} SweptAll(live: set<int>)
      requires Shaped() && Bumps() && Collected(live) && Swept(|chunks|)
      requires forall b :: b in held ==> b.chunk in chunks && HeldMarked(b, live)
      ensures HeldSlots(held, frees)
      ensures forall i, b :: 0 <= i < MAX ==>
        (b in frees[i] <==> b.chunk in chunks && FreeSlot(b, i) && Addr(b) !in live)
    {
      hide Sound, Mul, Div, Addr;
      assert chunks[..|chunks|] == chunks;
    }

    /** Run a collection if one is needed.  Then the free blocks of each class are exactly the blocks
        of its full chunks that the client has not marked. */
    method DoGC(live: seq<int>)
      requires Valid() && Marks(live)
      modifies `needGC, free_list, `mem, `frees, chunks`bits
      ensures Valid() && !needGC
      ensures !old(needGC) ==> frees == old(frees) && mem == old(mem)
      ensures old(needGC) ==> forall i, b :: 0 <= i < MAX ==>
        (b in frees[i] <==> b.chunk in chunks && FreeSlot(b, i) && Addr(b) !in Members(live))
      ensures old(needGC) ==> ListsAre(|chunks|, Members(live))
    {
      hide Sound, Mul, Div, Addr, Threads, FreeSlots, Collected, SlotThread, Distinct, IsSlot;
      hide HeldSlots, HeldMarked, Bumps, ListsAre;
      if !needGC {
        return;
      }
      needGC := false;
      BeginGC();
      Collect(live);
      HeldAreMarked(live);
      EndGC(Members(live));
    }

    lemma {:induction false} HeldAreMarked(live: seq<int>)
      requires HeldSlots(held, frees) && forall b :: b in held ==> Addr(b) in live
      ensures forall b :: b in held ==> b.chunk in chunks && HeldMarked(b, Members(live))
    {
      hide IsSlot, Addr;
      forall b | b in held ensures b.chunk in chunks && HeldMarked(b, Members(live)) {
        assert HeldSlot(b, frees);
      }
    }

    // ------------------------------------------------------------- allocation

    /** The client gets block b, at `res`, of class `index`. */
    ghost predicate Handed(b: Slot, res: int, index: int, before: set<Slot>)
      reads `chunks, `held
    {
      && IsSlot(b, chunks, csize) && b.chunk.index == index && Addr(b) == res && res > 0
      && b !in before && held == before + {b}
    }

    /** The last of the `left` blocks left in a chunk has been taken, and the chunk stays the current one
        of its class as long as some are left. */
    ghost predicate Bumped(c: Chunk, left: int, index: int, res: int)
      requires chunk_list.Length == MAX && 0 <= index < MAX
      reads c`left, chunk_list
    {
      && left > 0 && res == Addr(Slot(c, left - 1)) && c.left == left - 1
      && chunk_list[index] == if left == 1 then null else c
    }

    /** Take a block of class `index`: a free one, or else one of the current chunk; 0 if there is none. */
    method AllocFromFreeList(size: int, index: int) returns (res: int)
      requires Valid() && 0 < index < MAX && size == Size(index)
      modifies free_list, chunk_list, chunks`size, chunks`init, chunks`left, `frees, `held
      ensures Valid()
      ensures res == 0 <==> old(frees[index]) == [] && old(chunk_list[index]) == null
      ensures res == 0 ==> frees == old(frees) && held == old(held) && chunk_list[index] == null
      ensures res != 0 ==> exists b :: b in held && Handed(b, res, index, old(held))
      ensures old(frees[index]) != [] ==>
          res == Addr(old(frees[index])[0]) && frees == old(frees)[index := old(frees[index])[1..]]
      ensures old(frees[index]) == [] ==> frees == old(frees)
      ensures old(frees[index]) == [] && old(chunk_list[index]) != null ==>
        Bumped(old(chunk_list[index]), old(chunk_list[index].left), index, res)
      ensures forall c :: c in chunks && (c != old(chunk_list[index]) || old(frees[index]) != []) ==>
        c.left == old(c.left)
      ensures forall i :: 0 <= i < MAX && (i != index || old(frees[index]) != []) ==>
        chunk_list[i] == old(chunk_list[i])
    {
      hide Valid, Mul, Div, Sound, Addr, IsSlot;
      ghost var before := held;
      HeadIs(index);
      if free_list[index] != 0 {
        ghost var b;
        res, b := TakeFree(index);
        assert Handed(b, res, index, before);
        return;
      }
      if chunk_list[index] != null {
        var currChunk: Chunk := chunk_list[index];
        ghost var b;
        res, b := TakeBump(size, index, currChunk);
        SlotPositive(b);
        assert Handed(b, res, index, before);
        return;
      }
      return 0;
    }

    lemma {:induction false} HeadIs(index: int)
      requires Valid() && 0 < index < MAX
      ensures |frees| == MAX && free_list.Length == MAX && chunk_list.Length == MAX && chunk_init.Length == MAX
      ensures free_list[index] == 0 <==> frees[index] == []
      ensures chunk_list[index] != null ==> chunk_list[index] in chunks && chunk_list[index].index == index
      ensures frees[index] != [] ==>
        var b := frees[index][0]; IsSlot(b, chunks, csize) && b.chunk.index == index && Addr(b) > 0
    {
      hide Mul, Div, Sound, Addr, Distinct;
      assert SlotThread(free_list[index], frees[index], mem);
      if frees[index] != [] {
        assert FreeSlot(frees[index][0], index);
        SlotPositive(frees[index][0]);
      }
    }

    lemma {:induction false} SlotPositive(b: Slot)
      requires IsSlot(b, chunks, csize)
      ensures Addr(b) > 0
    {
      hide Mul, Div, Sound, Addr;
      SlotInside(b, chunks, csize);
    }

    /** Allocate a block: the first free one of its class, or else the last one left in the current chunk
        of the class, or else the last one of a new chunk at `base`.  A collection becomes needed exactly
        when a chunk is added to a class that has one.  The second attempt succeeds: the chunk that the
        code would then add is never added. */
    method Allocate(s: nat, base: int) returns (res: int)
      requires Valid() && Inits() && 0 < s < csize && G.Round(s) / G.UNIT < MAX && Fresh(base)
      modifies this, free_list, chunk_list, chunk_init, chunks
      ensures Valid() && Inits() && mem == old(mem)
      ensures exists b :: b in held && Handed(b, res, G.Round(s) / G.UNIT, old(held))
      ensures var i := G.Round(s) / G.UNIT;
        if old(frees[i]) != [] then
          && res == Addr(old(frees[i])[0]) && frees == old(frees)[i := old(frees[i])[1..]]
          && chunks == old(chunks) && needGC == old(needGC) && chunk_list[i] == old(chunk_list[i])
        else if old(chunk_list[i]) != null then
          && frees == old(frees) && chunks == old(chunks) && needGC == old(needGC)
          && Bumped(old(chunk_list[i]), old(chunk_list[i].left), i, res)
        else
          && frees == old(frees) && |chunks| == |old(chunks)| + 1 && chunks[1..] == old(chunks)
          && fresh(chunks[0]) && chunks[0].index == i && chunks[0].buffer == base
          && Bumped(chunks[0], Per(i, csize), i, res)
          && (needGC <==> old(needGC) || HasClass(old(chunks), i))
      ensures var i := G.Round(s) / G.UNIT;
        && (forall j :: 0 <= j < MAX && j != i ==> chunk_list[j] == old(chunk_list[j]))
        && (forall c :: c in old(chunks) && (c != old(chunk_list[i]) || old(frees[i]) != []) ==> c.left == old(c.left))
    {
      hide Valid, Sound, Addr, IsSlot, Mul, Div, Handed, Fresh, Bumped, HasClass;
      var size := G.Round(s);
      var index := size / G.UNIT;
      RoundClass(s);
      HeadIs(index);
      res := AllocFromFreeList(size, index);
      if res != 0 {
        return;
      }
      if chunk_init[index] {
        chunk_init[index] := false;
        NewChunk(index, base);
      } else {
        NewChunk(index, base);
        needGC := true;
      }
      ClassAdded(chunks[0], old(chunks));
      assert chunks == [chunks[0]] + old(chunks);
      HeadIs(index);
      res := AllocFromFreeList(size, index);
    }

    lemma {:induction false} RoundClass(s: nat)
      requires Valid() && 0 < s < csize
      ensures G.Round(s) == Size(G.Round(s) / G.UNIT) && 0 < G.Round(s) <= csize && G.Round(s) / G.UNIT > 0
    {
    }

    /** Blocks of the client never overlap, and never overlap a free block. */
    lemma {:induction false} HeldApart(b: Slot, x: Slot)
      requires Valid() && b in held && x != b
      requires x in held || (0 <= x.chunk.index < MAX && x in frees[x.chunk.index])
      ensures Addr(b) > 0 && b.chunk.buffer <= Addr(b) && Addr(b) + Size(b.chunk.index) <= b.chunk.buffer + csize
      ensures Addr(b) + Size(b.chunk.index) <= Addr(x) || Addr(x) + Size(x.chunk.index) <= Addr(b)
    {
      hide Mul, Div, Sound, Addr, Threads, Distinct;
      assert HeldSlot(b, frees);
      assert x in held ==> HeldSlot(x, frees);
      assert x !in held ==> FreeSlot(x, x.chunk.index);
      SlotInside(b, chunks, csize);
      SlotsApart(b, x, chunks, csize);
    }

    /** The client writes a word in a block it holds: no byte of a free block changes. */
    method Write(ghost b: Slot, a: int, x: int)
      requires Valid() && b in held && Addr(b) <= a && a + WORD <= Addr(b) + Size(b.chunk.index)
      modifies `mem
      ensures Valid() && mem == old(mem)[a := x]
      ensures forall i, y :: 0 <= i < MAX && y in frees[i] ==>
        a + WORD <= Addr(y) || Addr(y) + Size(y.chunk.index) <= a
    {
      hide Mul, Div, Sound, Addr, Distinct, Bumps, SlotThread;
      forall i, y | 0 <= i < MAX && y in frees[i]
        ensures Addr(y) != a && (a + WORD <= Addr(y) || Addr(y) + Size(y.chunk.index) <= a)
      {
        assert FreeSlot(y, i) && HeldSlot(b, frees);
        HeldApart(b, y);
        SizePositive(y);
      }
      forall i | 0 <= i < MAX ensures SlotThread(free_list[i], frees[i], mem[a := x]) {
        SlotFrame(free_list[i], frees[i], mem, a, x);
      }
      mem := mem[a := x];
    }

    lemma {:induction false} SizePositive(y: Slot)
      requires IsSlot(y, chunks, csize)
      ensures Size(y.chunk.index) > 0
    {
    }

    /** The client does not use a block any more. */
    ghost method GiveUp(b: Slot)
      requires Valid()
      modifies `held
      ensures Valid() && held == old(held) - {b}
    {
      hide Sound, Bumps, Threads, FreeSlots;
      held := held - {b};
    }
  }

  /** As many allocations of a size as a chunk has blocks of its class, and one more: the first ones need
      no collection, and the last one, which adds the second chunk of the class, asks for one. */
  method SecondChunk(size: nat, s: nat, base1: int, base2: int) returns (gc: GroupedGC, ghost early: bool)
    requires 0 < s < G.Round(size) && G.Round(s) / G.UNIT < MAX
    requires 0 < base1 && base1 + G.Round(size) <= base2
    ensures !early && gc.needGC && |gc.chunks| == 2 && gc.chunks[1].buffer == base1 && gc.chunks[0].buffer == base2
    ensures gc.chunks[0].index == gc.chunks[1].index == G.Round(s) / G.UNIT
  {
    hide GroupedGC.Valid, Sound, Addr, IsSlot, Mul, Div, GroupedGC.Handed, G.Round;
    gc := new GroupedGC(size);
    ghost var i := G.Round(s) / G.UNIT;
    gc.RoundClass(s);
    var n, k := Div(gc.csize, Size(G.Round(s) / G.UNIT)), 0;
    OneBlock(i, gc.csize);
    gc.HeadIs(i);
    while k < n
      invariant 0 <= k <= n && n == Per(i, gc.csize)
      invariant gc.Valid() && gc.Inits() && |gc.frees| == MAX && gc.chunk_list.Length == MAX && gc.frees[i] == []
      invariant !gc.needGC && fresh(gc) && fresh(gc.free_list) && fresh(gc.chunk_list) && fresh(gc.chunk_init)
      invariant k == 0 ==> gc.chunks == [] && gc.chunk_list[i] == null
      invariant k > 0 ==>
        && |gc.chunks| == 1 && fresh(gc.chunks[0]) && gc.chunks[0].buffer == base1 && gc.chunks[0].index == i
        && gc.chunks[0].left == n - k && gc.chunk_list[i] == if k == n then null else gc.chunks[0]
    {
      var r := gc.Allocate(s, if k == 0 then base1 else base2);
      gc.HeadIs(i);
      k := k + 1;
    }
    early := gc.needGC;
    assert gc.chunks[0].index == i;
    var r := gc.Allocate(s, base2);
  }

  lemma {:induction false} OneBlock(i: int, csize: int)
    requires 0 < i && Size(i) <= csize
    ensures Per(i, csize) > 0
  {
    hide Mul, Div;
    DivParts(csize, Size(i));
    MulOrder(Per(i, csize), 0, Size(i));
  }
}
