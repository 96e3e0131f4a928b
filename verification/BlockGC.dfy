/** The block allocator with garbage collection, `elm::AbstractBlockAllocatorWithGC`.

    Free blocks are linked through their first word, which `mem` gives.  A collection numbers all the
    blocks, marks the living ones and links the others.
 */
module BlockGC {
  import opened Arith
  import opened Common
  import opened BlockNumbers
  import opened Threads

  /** How many elements of `s`, from the first on, are in `live`. */
  ghost function FirstOut(s: seq<int>, live: seq<int>): (k: nat)
    ensures k <= |s| && (forall i :: 0 <= i < k ==> s[i] in live) && (k < |s| ==> s[k] !in live)
  {
    if s == [] || s[0] !in live then 0 else 1 + FirstOut(s[1..], live)
  }

  ghost predicate AllIn(s: seq<int>, live: seq<int>) {
    forall i :: 0 <= i < |s| ==> s[i] in live
  }

  lemma {:induction false} AllInIs(s: seq<int>, live: seq<int>)
    ensures AllIn(s, live) <==> FirstOut(s, live) == |s|
  {
    var k := FirstOut(s, live);
    if k < |s| {
      assert s[k] !in live;
    }
  }

  /** The sweep does not touch the free blocks before the first one that is not marked. */
  lemma {:induction false} OldKept(head: int, s: seq<int>, k: nat, was: map<int, int>, now: map<int, int>,
                                   destroyed: set<int>, live: set<int>)
    requires Thread(head, s, 0, was) && k <= |s|
    requires forall i :: 0 <= i < k ==> s[i] in live
    requires forall p :: p in s && p in live ==> p !in destroyed
    requires forall p :: p in was && p !in destroyed ==> p in now && now[p] == was[p]
    ensures forall i :: 0 <= i < k ==> s[i] in was && s[i] in now && now[s[i]] == was[s[i]]
  {
    forall i | 0 <= i < k ensures s[i] in was && s[i] in now && now[s[i]] == was[s[i]] {
      var p := s[i];
      assert p in was && p in live && p in s;
      assert p !in destroyed;
    }
  }

  ghost function Reversed(s: seq<int>): (r: seq<int>)
    ensures |r| == |s| && forall i :: 0 <= i < |s| ==> r[i] == s[|s| - 1 - i]
  {
    seq(|s|, i requires 0 <= i < |s| => s[|s| - 1 - i])
  }

  // ------------------------------------------------------------ what is swept

  /** The address of block n. */
  ghost function Addr(l: Layout, n: nat): int
    requires l.Sound() && n < l.Total()
  {
    NumberingIsBijection(l, n, 0);
    l.AddrOf(n, Div(n, l.Per()))
  }

  lemma {:induction false} AddrIsOfBlock(l: Layout, n: nat)
    requires l.Sound() && n < l.Total()
    ensures l.IsBlock(Addr(l, n)) && Addr(l, n) > 0
    ensures forall m: nat :: m < l.Total() && Addr(l, m) == Addr(l, n) ==> m == n
  {
    hide Mul, Div;
    var i, k := NumberToBlock(l, n);
    var p := Addr(l, n);
    BlockToNumber(l, p, i, k);
    forall m: nat | m < l.Total() && Addr(l, m) == p ensures m == n {
      var j, q := NumberToBlock(l, m);
      BlockToNumber(l, p, j, q);
      OneChunk(l, p, i, j);
    }
  }

  lemma {:induction false} BlockHasNumber(l: Layout, p: int) returns (n: nat)
    requires l.Sound() && l.IsBlock(p)
    ensures n < l.Total() && Addr(l, n) == p
  {
    hide Mul, Div;
    var i: nat, k: nat :| l.BlockAt(p, i, k);
    BlockToNumber(l, p, i, k);
    n := l.NumOf(p, i);
  }

  /** The first n blocks that are not alive, in the order of their numbers. */
  ghost function Dead(l: Layout, live: set<int>, n: nat): seq<int>
    requires l.Sound() && n <= l.Total()
  {
    if n == 0 then []
    else Dead(l, live, n - 1) + if Addr(l, n - 1) in live then [] else [Addr(l, n - 1)]
  }

  lemma {:induction false} DeadAre(l: Layout, live: set<int>, n: nat)
    requires l.Sound() && n <= l.Total()
    ensures forall p :: p in Dead(l, live, n) <==> p !in live && exists m: nat :: m < n && Addr(l, m) == p
    ensures Distinct(Dead(l, live, n))
  {
    hide Addr;
    if n > 0 {
      DeadAre(l, live, n - 1);
      AddrIsOfBlock(l, n - 1);
    }
  }

  /** The sweep finds every block that is not alive, once. */
  lemma {:induction false} DeadAreAll(l: Layout, live: set<int>)
    requires l.Sound() && l.Total() >= 0
    ensures forall p :: p in Dead(l, live, l.Total()) <==> l.IsBlock(p) && p !in live
    ensures Distinct(Dead(l, live, l.Total())) && 0 !in Dead(l, live, l.Total())
  {
    hide Addr, Mul, Div, Dead;
    DeadAre(l, live, l.Total());
    forall p ensures p in Dead(l, live, l.Total()) <==> l.IsBlock(p) && p !in live {
      if l.IsBlock(p) {
        var n := BlockHasNumber(l, p);
      }
      if p in Dead(l, live, l.Total()) {
        var m: nat :| m < l.Total() && Addr(l, m) == p;
        AddrIsOfBlock(l, m);
      }
    }
    if 0 in Dead(l, live, l.Total()) {
      var m: nat :| m < l.Total() && Addr(l, m) == 0;
      AddrIsOfBlock(l, m);
    }
  }

  /** Living and dead blocks make the total. */
  lemma {:induction false} DeadCount(l: Layout, live: set<int>, coll: set<int>, n: nat)
    requires l.Sound() && n <= l.Total()
    requires forall m :: m in coll ==> 0 <= m < n && Addr(l, m) in live
    requires forall m: nat :: m < n && Addr(l, m) in live ==> m in coll
    ensures |Dead(l, live, n)| + |coll| == n
  {
    hide Addr;
    if n == 0 {
      assert forall m :: m in coll ==> 0 <= m < n;
      assert coll == {};
    } else {
      DeadCount(l, live, coll - {n - 1}, n - 1);
    }
  }

  class BlockAllocator {
    const bsize: int
    const csize: int
    var chunks: seq<int>
    var top: int
    var free_list: int
    var free_cnt: int
    var sync: bool
    var need: bool
    /** Marked numbers, during a collection. */
    var coll: set<int>
    var mem: map<int, int>
    ghost var free: seq<int>
    ghost var held: set<int>

    function Blocks(): Layout
      reads `chunks, `top
    {
      Layout(chunks, top, bsize, csize)
    }

    ghost predicate Valid()
      reads this
    {
      && bsize >= WORD && Blocks().Sound() && Blocks().Total() >= 0
      && Thread(free_list, free, 0, mem) && free_cnt == |free|
      && FreeAndHeld(free, held)
      && (need ==> free == [])
    }

    /** Free blocks and blocks held by the client are different blocks. */
    ghost predicate FreeAndHeld(free: seq<int>, held: set<int>)
      requires Blocks().Sound()
      reads `chunks, `top
    {
      && Distinct(free) && (forall p :: p in free ==> Blocks().IsBlock(p))
      && (forall p :: p in held ==> Blocks().IsBlock(p) && p !in free)
    }

    /** The code asks that a block is smaller than a chunk, but forgets that a block is made large
        enough for a link: the allocator is sound exactly if the chunk can hold one too. */
    constructor (block_size: int, chunk_size: int, base: int)
      requires 0 <= block_size < chunk_size && base > 0
      ensures Valid() <==> chunk_size >= 8
      ensures bsize == (if block_size < 8 then 8 else block_size) && csize == chunk_size
      ensures chunks == [base] && top == base && free == [] && free_list == 0 && held == {} && !sync && !need
    {
      bsize, csize := if block_size < WORD then WORD else block_size, chunk_size;
      chunks, top := [base], base;
      free_list, free_cnt, sync, need, coll, mem := 0, 0, false, false, {}, map[];
      free, held := [], {};
    }

    /** Mark a living block during a collection; false if it was marked before. */
    method Mark(ptr: int) returns (r: bool)
      requires Blocks().Sound() && Blocks().IsBlock(ptr)
      modifies `coll
      ensures exists n: nat ::
          n < Blocks().Total() && Addr(Blocks(), n) == ptr && coll == old(coll) + {n} && r == (n !in old(coll))
    {
      hide Mul, Div;
      ghost var i0: nat, k0: nat :| Blocks().BlockAt(ptr, i0, k0);
      BlockToNumber(Blocks(), ptr, i0, k0);
      var chunk := -1;
      for i := 0 to |chunks|
        invariant i <= i0 && chunk == -1
      {
        if chunks[i] <= ptr < chunks[i] + csize {
          chunk := i;
          break;
        }
      }
      OneChunk(Blocks(), ptr, i0, chunk);
      var n := Div(ptr - chunks[chunk], bsize) + Mul(chunk, Div(csize, bsize));
      assert Addr(Blocks(), n) == ptr;
      r := n !in coll;
      coll := coll + {n};
    }

    /** What the client does in a collection: it marks the blocks that are alive. */
    method Collect(live: seq<int>)
      requires Blocks().Sound() && coll == {} && forall i :: 0 <= i < |live| ==> Blocks().IsBlock(live[i])
      modifies `coll
      ensures Collected(Blocks(), coll, Members(live))
    {
      hide Mul, Div, Addr;
      for k := 0 to |live|
        invariant Collected(Blocks(), coll, Members(live[..k]))
      {
        ghost var before := coll;
        var r := Mark(live[k]);
        ghost var n: nat :| n < Blocks().Total() && Addr(Blocks(), n) == live[k] && coll == before + {n};
        AddrIsOfBlock(Blocks(), n);
        assert Members(live[..k + 1]) == Members(live[..k]) + {live[k]};
      }
      assert live[..|live|] == live;
    }

    /** Link the blocks that are not marked, before what was in the free list. */
    method Sweep(ghost live: set<int>) returns (destroyed: seq<int>)
      requires Blocks().Sound() && Blocks().Total() >= 0 && Collected(Blocks(), coll, live)
      modifies `free_list, `free_cnt, `mem
      ensures destroyed == Dead(Blocks(), live, Blocks().Total()) && free_cnt == |destroyed|
      ensures Thread(free_list, Reversed(destroyed), old(free_list), mem)
      ensures forall p :: p in old(mem) && p !in destroyed ==> p in mem && mem[p] == old(mem)[p]
    {
      hide Mul, Div, Addr, Thread, Reversed;
      free_cnt := 0;
      destroyed := [];
      ThreadEmpty(free_list, mem);
      var total, per := Blocks().Total(), Div(csize, bsize);
      for n := 0 to total
        invariant destroyed == Dead(Blocks(), live, n) && free_cnt == |destroyed|
        invariant Thread(free_list, Reversed(destroyed), old(free_list), mem)
        invariant forall p :: p in old(mem) && p !in destroyed ==> p in mem && mem[p] == old(mem)[p]
      {
        if n !in coll {
          AddrIs(Blocks(), n);
          DeadAre(Blocks(), live, n);
          AddrIsOfBlock(Blocks(), n);
          var chunk := Div(n, per);
          var nfree := chunks[chunk] + Mul(n - Mul(chunk, per), bsize);
          ThreadPush(free_list, Reversed(destroyed), old(free_list), mem, nfree);
          ReversedSnoc(destroyed, nfree);
          destroyed := destroyed + [nfree];
          mem := mem[nfree := free_list];
          free_list := nfree;
          free_cnt := free_cnt + 1;
        }
      }
    }

    /** The client marks blocks, among them those it holds. */
    ghost predicate Marks(live: seq<int>)
      requires Blocks().Sound()
      reads this
    {
      && (forall i :: 0 <= i < |live| ==> Blocks().IsBlock(live[i]))
      && held <= Members(live)
    }

    /** A collection destroys exactly the blocks that are not alive, once each.  It leaves the allocator
        sound if and only if the free list was empty before.  Otherwise the list has no end as soon as
        one of its blocks is not marked, and if all are marked, their number is not counted. */
    method CollectGarbage(live: seq<int>) returns (destroyed: seq<int>)
      requires Valid() && Marks(live)
      modifies `coll, `free_list, `free_cnt, `mem, `need, `free
      ensures Blocks().Sound() && Blocks().Total() >= 0
      ensures destroyed == Dead(Blocks(), Members(live), Blocks().Total()) && free_cnt == |destroyed| && !need
      ensures Valid() <==> old(free) == []
      ensures old(free) == [] ==> free == Reversed(destroyed)
      ensures if AllIn(old(free), live) then Thread(free_list, Reversed(destroyed) + old(free), 0, mem)
              else forall s :: !Thread(free_list, s, 0, mem)
    {
      hide Mul, Div, Addr, Thread, Reversed, Dead, Layout.Sound, Layout.Total, Layout.IsBlock, Collected;
      coll := {};
      Collect(live);
      destroyed := Sweep(Members(live));
      need := false;
      SweptFree(destroyed, live);
      ghost var k := FirstOut(free, live);
      FreePositive();
      OldKept(old(free_list), free, k, old(mem), mem, Members(destroyed), Members(live));
      AllInIs(free, live);
      assert k < |free| ==> free[k] in free;
      ThreadHead(old(free_list), free, old(mem));
      ThreadBegin(old(free_list), free, k, old(mem), mem);
      ThreadJoin(free_list, Reversed(destroyed), old(free_list), free[..k], NextOf(free, k, 0), mem);
      if k < |free| {
        forall s ensures !Thread(free_list, s, 0, mem) {
          ThreadLoops(free_list, Reversed(destroyed) + free[..k], free[k], mem, s);
        }
      } else {
        assert free[..k] == free;
      }
      assert free == [] ==> Reversed(destroyed) + free == Reversed(destroyed);
      free := Reversed(destroyed) + free;
    }

    /** What the sweep has found is free, and nothing else. */
    lemma {:induction false} SweptFree(destroyed: seq<int>, live: seq<int>)
      requires Blocks().Sound() && Blocks().Total() >= 0 && FreeAndHeld(free, held) && Marks(live)
      requires destroyed == Dead(Blocks(), Members(live), Blocks().Total())
      ensures FreeAndHeld(Reversed(destroyed), held) && 0 !in Reversed(destroyed)
      ensures forall p :: p in Reversed(destroyed) <==> p in destroyed
      ensures forall p :: p in free ==> (p in destroyed <==> p !in live)
    {
      hide Mul, Div, Addr, Dead, Layout.Sound, Layout.Total, Layout.IsBlock;
      DeadAreAll(Blocks(), Members(live));
      forall p ensures p in Reversed(destroyed) <==> p in destroyed {
        ReversedSnoc(destroyed, p);
      }
    }

    lemma {:induction false} FreePositive()
      requires Blocks().Sound() && FreeAndHeld(free, held)
      ensures 0 !in free
    {
      hide Mul, Div, Layout.Total, Layout.IsBlock, Layout.Sound;
      if 0 in free {
        BlocksPositive(Blocks(), 0);
      }
    }

    /** Hand out the first free block. */
    method TakeFree() returns (r: int)
      requires Valid() && free_list != 0
      modifies `free_list, `free_cnt, `free, `held
      ensures Valid() && old(free) != [] && r == old(free)[0] && free == old(free)[1..]
      ensures r !in old(held) && held == old(held) + {r} && Blocks().IsBlock(r)
    {
      hide Mul, Div, Thread, Layout.Sound, Layout.Total, Layout.IsBlock;
      ThreadHead(free_list, free, mem);
      ThreadPop(free_list, free, 0, mem);
      HandedOut(free, held);
      r := free_list;
      free_list := mem[free_list];
      free_cnt := free_cnt - 1;
      held := held + {r};
      free := free[1..];
    }

    lemma {:induction false} HandedOut(free: seq<int>, held: set<int>)
      requires Blocks().Sound() && FreeAndHeld(free, held) && free != []
      ensures FreeAndHeld(free[1..], held + {free[0]}) && free[0] !in held && Blocks().IsBlock(free[0])
    {
      var rest := free[1..];
      assert free[0] in free && Blocks().IsBlock(free[0]);
      assert forall p :: p in rest ==> p in free;
      assert forall i :: 0 <= i < |rest| ==> rest[i] == free[i + 1] != free[0];
      assert Distinct(rest);
    }

    /** Hand out the next block of the last chunk. */
    method TakeTop() returns (r: int)
      requires Valid() && top + bsize <= Blocks().Last() + csize
      modifies `top, `held
      ensures Valid() && r == old(top) && top == old(top) + bsize
      ensures r !in old(held) && held == old(held) + {r} && Blocks().IsBlock(r)
    {
      hide Mul, Div, Thread, Layout.Sound, Layout.Total, Layout.IsBlock;
      TakeFromLast(Blocks());
      ghost var before := Blocks();
      r := top;
      top := top + bsize;
      Grows(before, r);
      held := held + {r};
    }

    /** The state that replaces `Valid()` when a chunk cannot hold a link, in synchronous mode. */
    ghost predicate Outgrown()
      reads this
    {
      && sync && bsize >= WORD && bsize > csize && chunks != [] && free_list == 0
      && top + bsize > Blocks().Last() + csize
    }

    /** Hand out the first block of a new chunk. */
    method TakeNew(base: int) returns (r: int)
      requires (Valid() && Fresh(Blocks(), base)) || Outgrown()
      requires chunks != [] && top + bsize > Blocks().Last() + csize
      modifies `chunks, `top, `held
      ensures r == base && chunks == old(chunks) + [base] && top == base + bsize && held == old(held) + {r}
      ensures old(Valid()) ==> Valid() && r !in old(held) && Blocks().IsBlock(r)
      ensures old(Outgrown()) ==> Outgrown()
    {
      hide Mul, Div, Thread, Layout.Sound, Layout.Total, Layout.IsBlock;
      ghost var before, valid := Blocks(), Valid();
      if valid {
        ValidFits();
        TakeFromNew(before, base);
      }
      chunks := chunks + [base];
      top := Blocks().Last() + bsize;
      r := Blocks().Last();
      if valid {
        Grows(before, r);
      }
      held := held + {r};
    }

    lemma {:induction false} ValidFits()
      requires Valid()
      ensures bsize <= csize && !Outgrown()
    {
      hide Thread, Layout.Total, Layout.IsBlock;
    }

    lemma {:induction false} Grows(before: Layout, r: int)
      requires before.Sound() && Blocks().Sound() && Grown(before, Blocks(), r) && Distinct(free)
      requires forall p :: p in free ==> before.IsBlock(p)
      requires forall p :: p in held ==> before.IsBlock(p) && p !in free
      ensures FreeAndHeld(free, held + {r}) && r !in held
    {
    }

    /** Allocate a block.  `live` is what the client marks if a collection is run, and `base` the new
        chunk if one is needed, which is so only if every block of the others is held or alive, or if
        collections have to be asked for.  When a chunk cannot hold a link, in synchronous mode, every
        block handed out ends past its chunk. */
    method Allocate(live: seq<int>, base: int) returns (r: int, destroyed: seq<int>)
      requires (Valid() && Marks(live) && Fresh(Blocks(), base)) || Outgrown()
      modifies this
      ensures sync == old(sync) && held == old(held) + {r}
      ensures old(Outgrown()) ==>
                Outgrown() && r == base && chunks == old(chunks) + [base] && r + bsize > base + csize && need
      ensures old(Valid()) ==> Valid() && Blocks().IsBlock(r) && r !in old(held)
      ensures old(Outgrown()) ==> top == base + bsize
      ensures old(Valid()) ==>
        var room := old(top) + bsize <= old(Blocks().Last()) + csize;
        var gc := old(free) == [] && !room && !sync;
        && destroyed == (if gc then Dead(old(Blocks()), Members(live), old(Blocks()).Total()) else [])
        && (!gc ==> mem == old(mem))
        && if old(free) != [] then
             r == old(free)[0] && free == old(free)[1..] && Blocks() == old(Blocks()) && need == old(need)
           else if room then
             r == old(top) && free == [] && Blocks() == old(Blocks()).(top := old(top) + bsize) && need == old(need)
           else if destroyed != [] then
             && r == destroyed[|destroyed| - 1] && free == Reversed(destroyed)[1..]
             && Blocks() == old(Blocks()) && !need
           else
             && r == base && free == [] && need == sync
             && Blocks() == old(Blocks()).(chunks := old(chunks) + [base], top := base + bsize)
    {
      hide Mul, Div, Thread, Layout.Sound, Layout.Total, Layout.IsBlock, Dead, Fresh, FreeAndHeld, Reversed, Marks;
      destroyed := [];
      if Valid() {
        ThreadHead(free_list, free, mem);
        FreeNonNull();
      }
      if free_list != 0 {
        r := TakeFree();
        return;
      }
      if top + bsize <= Blocks().Last() + csize {
        r := TakeTop();
        return;
      }
      if sync {
        need := true;
      } else {
        destroyed := CollectGarbage(live);
        ThreadHead(free_list, free, mem);
        FreeNonNull();
        ReversedFirst(destroyed);
        if free_list != 0 {
          r := TakeFree();
          return;
        }
      }
      r := TakeNew(base);
    }

    lemma {:induction false} FreeNonNull()
      requires Valid()
      ensures (free == [] <==> free_list == 0) && chunks != []
    {
      hide Mul, Div, Layout.Total, Layout.IsBlock;
      if free != [] {
        BlocksPositive(Blocks(), free[0]);
      }
    }

    /** Synchronous mode: collections are asked for with `need`, and it is then safe to run one. */
    method SetSync(on: bool)
      modifies `sync
      ensures (Valid() <==> old(Valid())) && sync == on
    {
      sync := on;
    }

    method NeedsCollect() returns (r: bool)
      requires Valid()
      ensures r == need && (r ==> free == [])
    {
      r := need;
    }

    /** The client writes a word in a block it holds, at any place of it. */
    method Write(b: int, a: int, x: int)
      requires Valid() && b in held && b <= a && a + WORD <= b + bsize
      modifies `mem
      ensures Valid() && mem == old(mem)[a := x]
    {
      hide Mul, Div, Thread, Layout.Sound, Layout.Total, Layout.IsBlock;
      forall p | p in free ensures p != a {
        BlocksApart(Blocks(), b, p);
      }
      ThreadFrame(free_list, free, 0, mem, a, x);
      mem := mem[a := x];
    }

    /** The client does not use a block any more. */
    ghost method GiveUp(b: int)
      requires Valid()
      modifies `held
      ensures Valid() && held == old(held) - {b}
    {
      hide Thread, Layout.Sound, Layout.Total, Layout.IsBlock;
      held := held - {b};
    }
  }

  lemma {:induction false} BlocksPositive(l: Layout, p: int)
    requires l.Sound() && l.IsBlock(p)
    ensures p > 0
  {
    hide Mul, Div;
    var i: nat, k: nat :| l.BlockAt(p, i, k);
    BlockToNumber(l, p, i, k);
  }

  lemma {:induction false} ReversedFirst(s: seq<int>)
    ensures s == [] <==> Reversed(s) == []
    ensures s != [] ==> Reversed(s)[0] == s[|s| - 1]
  {
  }

  /** The marked numbers are those of the living blocks. */
  ghost predicate Collected(l: Layout, coll: set<int>, live: set<int>)
    requires l.Sound()
  {
    && (forall n :: n in coll ==> 0 <= n < l.Total() && Addr(l, n) in live)
    && (forall n: nat :: n < l.Total() && Addr(l, n) in live ==> n in coll)
  }

  lemma {:induction false} ThreadEmpty(head: int, mem: map<int, int>)
    ensures Thread(head, Reversed([]), head, mem)
  {
  }

  lemma {:induction false} ReversedSnoc(s: seq<int>, x: int)
    ensures Reversed(s + [x]) == [x] + Reversed(s)
    ensures x in Reversed(s) <==> x in s
  {
    if x in s {
      var i :| 0 <= i < |s| && s[i] == x;
      assert Reversed(s)[|s| - 1 - i] == x;
    }
  }

  lemma {:induction false} AddrIs(l: Layout, n: nat)
    requires l.Sound() && n < l.Total()
    ensures l.Per() > 0 && 0 <= Div(n, l.Per()) < |l.chunks|
    ensures Addr(l, n) == l.chunks[Div(n, l.Per())] + Mul(n - Mul(Div(n, l.Per()), l.Per()), l.bsize)
  {
    hide Mul, Div;
    NumberingIsBijection(l, n, 0);
  }

  /** Two collections in a row are enough: the client allocates a block, gives it up, and collects
      twice.  The free list then has no end. */
  method CollectTwice() returns (gc: BlockAllocator)
    ensures fresh(gc) && gc.bsize == 8 && gc.csize == 64
    ensures forall s :: !Thread(gc.free_list, s, 0, gc.mem)
  {
    hide Mul, Div, Thread, Layout.Sound, Layout.Total, Layout.IsBlock, Dead, Reversed;
    gc := new BlockAllocator(8, 64, 1024);
    LiveNone(gc);
    var r, none := gc.Allocate([], 4096);
    gc.GiveUp(r);
    var first := gc.CollectGarbage([]);
    DeadAreAll(gc.Blocks(), Members([]));
    assert r in first;
    ReversedFirst(first);
    var second := gc.CollectGarbage([]);
  }

  lemma {:induction false} LiveNone(gc: BlockAllocator)
    requires gc.Valid() && gc.chunks == [1024] && gc.csize == 64
    ensures Fresh(gc.Blocks(), 4096) && Members<int>([]) == {}
  {
  }

  /** Every chunk too small for a link, which the assertion of the code lets pass: in synchronous mode
      the first block handed out ends past its chunk, and so does each of the next ones. */
  method OversizedBlocks(block_size: int, chunk_size: int, first: int, second: int, third: int)
    returns (gc: BlockAllocator, r: int, s: int)
    requires 0 <= block_size < chunk_size < WORD && first > 0
    ensures gc.chunks == [first, second, third] && gc.csize == chunk_size && gc.bsize == WORD
    ensures r == second && r + gc.bsize > second + gc.csize
    ensures s == third && s + gc.bsize > third + gc.csize
  {
    hide Mul, Div, Thread, Layout.Sound, Layout.Total, Layout.IsBlock, Dead, Reversed;
    gc := new BlockAllocator(block_size, chunk_size, first);
    gc.SetSync(true);
    var none;
    r, none := gc.Allocate([], second);
    s, none := gc.Allocate([], third);
  }
}
