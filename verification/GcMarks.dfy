/** Marked units of a chunk, and the maximal runs of unmarked ones. */
module GcMarks {
  import opened GcBlocks

  ghost function Range(p: int, q: int): (r: set<int>)
    ensures forall u :: u in r <==> p <= u < q
    decreases q - p
  {
    if p >= q then {} else Range(p, q - 1) + {q - 1}
  }

  /** The units that a mark call at `b` covers in the chunk at `base`. */
  ghost function UnitsOf(b: Block, base: int): set<int> {
    var p, s := (b.addr - base) / UNIT, (b.size + UNIT - 1) / UNIT;
    Range(p, p + s)
  }

  /** A request to mark makes sense: it lies in the chunk, whole units included. */
  ghost predicate MarkFits(b: Block, base: int, csize: int) {
    && base <= b.addr < base + csize && b.size >= 0
    && (b.addr - base) / UNIT + (b.size + UNIT - 1) / UNIT <= csize / UNIT
  }

  /** The units of a chunk covered by a sequence of mark calls. */
  ghost function MarkedBy(marks: seq<Block>, base: int, csize: int): set<int> {
    if marks == [] then {}
    else
      var b := marks[|marks| - 1];
      MarkedBy(marks[..|marks| - 1], base, csize)
      + (if base <= b.addr < base + csize then UnitsOf(b, base) else {})
  }

  lemma {:induction false} MarkedByCovers(marks: seq<Block>, k: nat, base: int, csize: int)
    requires k < |marks| && base <= marks[k].addr < base + csize
    ensures UnitsOf(marks[k], base) <= MarkedBy(marks, base, csize)
  {
    if k < |marks| - 1 {
      MarkedByCovers(marks[..|marks| - 1], k, base, csize);
    }
  }

  lemma {:induction false} MarkedByOnly(marks: seq<Block>, base: int, csize: int, u: int) returns (k: nat)
    requires u in MarkedBy(marks, base, csize)
    ensures k < |marks| && base <= marks[k].addr < base + csize && u in UnitsOf(marks[k], base)
  {
    var b := marks[|marks| - 1];
    if base <= b.addr < base + csize && u in UnitsOf(b, base) {
      k := |marks| - 1;
    } else {
      k := MarkedByOnly(marks[..|marks| - 1], base, csize, u);
    }
  }

  // ------------------------------------------------------------------- gaps

  /** Units from `lo` up to `hi`. */
  datatype Gap = Gap(lo: int, hi: int)

  /** A run of units not in `m` that can be extended neither way within `0 .. n`. */
  ghost predicate Maximal(g: Gap, m: set<int>, n: int) {
    && 0 <= g.lo < g.hi <= n
    && (forall u :: g.lo <= u < g.hi ==> u !in m)
    && (g.lo == 0 || g.lo - 1 in m) && (g.hi == n || g.hi in m)
  }

  /** `gs` are, in order, all maximal runs of units not in `m` that start below `i`. */
  ghost predicate GapsBelow(gs: seq<Gap>, m: set<int>, n: int, i: int) {
    && (forall j :: 0 <= j < |gs| ==> Maximal(gs[j], m, n) && gs[j].hi <= i)
    && (forall j, k :: 0 <= j < k < |gs| ==> gs[j].hi < gs[k].lo)
    && (forall u :: 0 <= u < i && u !in m ==> exists j :: 0 <= j < |gs| && gs[j].lo <= u < gs[j].hi)
  }

  lemma {:induction false} GapsExtended(gs: seq<Gap>, m: set<int>, n: int, i: int, g: Gap)
    requires GapsBelow(gs, m, n, i) && Maximal(g, m, n) && i <= g.lo
    requires forall u :: i <= u < g.lo ==> u in m
    ensures GapsBelow(gs + [g], m, n, g.hi)
  {
    var gs' := gs + [g];
    assert gs'[|gs|] == g;
    forall j, k | 0 <= j < k < |gs'|
      ensures gs'[j].hi < gs'[k].lo
    {
      if k == |gs| {
        // two maximal runs do not touch
        assert gs[j].hi == n || gs[j].hi in m;
      }
    }
    forall u | 0 <= u < g.hi && u !in m
      ensures exists j :: 0 <= j < |gs'| && gs'[j].lo <= u < gs'[j].hi
    {
      if u < i {
        var j :| 0 <= j < |gs| && gs[j].lo <= u < gs[j].hi;
        assert gs'[j] == gs[j];
      } else {
        assert gs'[|gs|].lo <= u < gs'[|gs|].hi;
      }
    }
  }

  /** How many units the gaps hold. */
  ghost function Units(gs: seq<Gap>): int {
    if gs == [] then 0 else Units(gs[..|gs| - 1]) + gs[|gs| - 1].hi - gs[|gs| - 1].lo
  }

  ghost function Below(m: set<int>, i: int): set<int> {
    set u | u in m && 0 <= u < i
  }

  lemma {:induction false} BelowGrows(m: set<int>, i: int, j: int)
    requires 0 <= i <= j
    ensures (forall u :: i <= u < j ==> u in m) ==> |Below(m, j)| == |Below(m, i)| + j - i
    ensures (forall u :: i <= u < j ==> u !in m) ==> |Below(m, j)| == |Below(m, i)|
    decreases j
  {
    if i < j {
      BelowGrows(m, i, j - 1);
      if j - 1 in m {
        assert Below(m, j) == Below(m, j - 1) + {j - 1};
      } else {
        assert Below(m, j) == Below(m, j - 1);
      }
    } else {
      assert Below(m, j) == Below(m, i);
    }
  }

  // ------------------------------------------------------ gaps as blocks

  ghost function GapBlock(g: Gap, base: int): Block {
    Block(base + g.lo * UNIT, (g.hi - g.lo) * UNIT)
  }

  /** The free list after the gaps of a chunk have been pushed on it in order. */
  ghost function Pushed(gs: seq<Gap>, base: int, runs: seq<Block>): seq<Block> {
    if gs == [] then runs else [GapBlock(gs[|gs| - 1], base)] + Pushed(gs[..|gs| - 1], base, runs)
  }

  lemma {:induction false} PushedNone(base: int, runs: seq<Block>)
    ensures Pushed([], base, runs) == runs
  {
  }

  lemma {:induction false} PushedMore(gs: seq<Gap>, g: Gap, base: int, runs: seq<Block>)
    ensures Pushed(gs + [g], base, runs) == [GapBlock(g, base)] + Pushed(gs, base, runs)
  {
    assert (gs + [g])[..|gs|] == gs;
  }

  ghost function Total(runs: seq<Block>): int {
    if runs == [] then 0 else runs[0].size + Total(runs[1..])
  }

  lemma {:induction false} PushedTotal(gs: seq<Gap>, base: int, runs: seq<Block>)
    ensures Total(Pushed(gs, base, runs)) == Total(runs) + Units(gs) * UNIT
  {
    if gs != [] {
      PushedTotal(gs[..|gs| - 1], base, runs);
    }
  }

  lemma {:induction false} PushedAre(gs: seq<Gap>, base: int, runs: seq<Block>)
    ensures forall b :: b in Pushed(gs, base, runs) <==>
        b in runs || exists j :: 0 <= j < |gs| && b == GapBlock(gs[j], base)
  {
    if gs != [] {
      var init, g := gs[..|gs| - 1], gs[|gs| - 1];
      PushedAre(init, base, runs);
      forall b
        ensures b in Pushed(gs, base, runs) <==> b in runs || exists j :: 0 <= j < |gs| && b == GapBlock(gs[j], base)
      {
        if b == GapBlock(g, base) {
          assert b == GapBlock(gs[|gs| - 1], base);
        }
        if j :| 0 <= j < |init| && b == GapBlock(init[j], base) {
          assert b == GapBlock(gs[j], base);
        }
        if j :| 0 <= j < |gs| && b == GapBlock(gs[j], base) {
          assert j < |init| ==> b == GapBlock(init[j], base);
        }
      }
    }
  }

  /** A block whose units are all marked is apart from every unmarked run of its chunk. */
  lemma {:induction false} MarkedApart(b: Block, base: int, csize: int, m: set<int>, n: int, g: Gap)
    requires Inside(b, base, csize) && UnitsOf(b, base) <= m && Maximal(g, m, n)
    ensures Apart(GapBlock(g, base), b)
  {
    var p, s := (b.addr - base) / UNIT, (b.size + UNIT - 1) / UNIT;
    assert b.addr == base + p * UNIT && b.size == s * UNIT;
    var u := if p > g.lo then p else g.lo;
    assert p <= u < p + s ==> u in UnitsOf(b, base);
  }

  lemma {:induction false} DifferentChunks(a: Block, b: Block, c: int, d: int, csize: int)
    requires Inside(a, c, csize) && Inside(b, d, csize) && Apart(Block(c, csize), Block(d, csize))
    ensures Apart(a, b)
  {
  }

  /** `r` is a maximal run of unmarked units of the chunk at `c`. */
  ghost predicate FreeRun(r: Block, c: int, m: set<int>, csize: int) {
    && (r.addr - c) % UNIT == 0 && r.size % UNIT == 0
    && Maximal(Gap((r.addr - c) / UNIT, (r.addr - c + r.size) / UNIT), m, csize / UNIT)
  }

  lemma {:induction false} GapIsFreeRun(g: Gap, c: int, m: set<int>, csize: int)
    ensures FreeRun(GapBlock(g, c), c, m, csize) <==> Maximal(g, m, csize / UNIT)
  {
  }

  /** Two maximal runs that share a unit are the same. */
  lemma {:induction false} MaximalUnique(g: Gap, h: Gap, m: set<int>, n: int)
    requires Maximal(g, m, n) && Maximal(h, m, n) && h.lo <= g.lo < h.hi
    ensures g == h
  {
    assert h.lo < g.lo ==> h.lo <= g.lo - 1 < h.hi;
    assert h.hi < g.hi ==> g.lo <= h.hi < g.hi;
    assert g.hi < h.hi ==> h.lo <= g.hi < h.hi;
  }

  lemma {:induction false} GapFound(g: Gap, m: set<int>, n: int, gs: seq<Gap>) returns (j: nat)
    requires Maximal(g, m, n) && GapsBelow(gs, m, n, n)
    ensures j < |gs| && g == gs[j]
  {
    assert 0 <= g.lo < n && g.lo !in m;
    j :| 0 <= j < |gs| && gs[j].lo <= g.lo < gs[j].hi;
    MaximalUnique(g, gs[j], m, n);
  }

  /** A maximal run is one of the gaps found. */
  lemma {:induction false} FreeRunIsGap(r: Block, c: int, m: set<int>, csize: int, gs: seq<Gap>) returns (j: nat)
    requires FreeRun(r, c, m, csize) && GapsBelow(gs, m, csize / UNIT, csize / UNIT)
    ensures j < |gs| && r == GapBlock(gs[j], c)
  {
    hide GapsBelow, Maximal;
    j := GapFound(Gap((r.addr - c) / UNIT, (r.addr - c + r.size) / UNIT), m, csize / UNIT, gs);
  }

  lemma {:induction false} FreeRunInside(r: Block, c: int, m: set<int>, csize: int)
    requires FreeRun(r, c, m, csize) && csize % UNIT == 0
    ensures Inside(r, c, csize)
  {
  }

  /** How many units of the first chunks are marked. */
  ghost function MarkedUnits(chunks: seq<int>, bits: map<int, set<int>>, csize: int): int
    requires forall i :: 0 <= i < |chunks| ==> chunks[i] in bits
  {
    if chunks == [] then 0
    else MarkedUnits(chunks[..|chunks| - 1], bits, csize) + |Below(bits[chunks[|chunks| - 1]], csize / UNIT)|
  }

  /** All free blocks found so far are apart from each other and from what is left of a chunk. */
  ghost predicate Clear(runs: seq<Block>, rest: Block) {
    && (forall i :: 0 <= i < |runs| ==> runs[i].size > 0 && Apart(runs[i], rest))
    && AllApart(runs)
  }

  lemma {:induction false} NoGaps(m: set<int>, n: int)
    ensures GapsBelow([], m, n, 0)
  {
  }

  lemma {:induction false} GapsSkipped(gs: seq<Gap>, m: set<int>, n: int, i: int, j: int)
    requires GapsBelow(gs, m, n, i) && i <= j && forall u :: i <= u < j ==> u in m
    ensures GapsBelow(gs, m, n, j)
  {
  }

  lemma {:induction false} ClearLess(runs: seq<Block>, c: int, csize: int, i: int, j: int)
    requires Clear(runs, Block(c + i * UNIT, csize - i * UNIT)) && i <= j && j * UNIT <= csize
    ensures Clear(runs, Block(c + j * UNIT, csize - j * UNIT))
  {
  }

  lemma {:induction false} ClearApart(runs: seq<Block>, rest: Block)
    requires Clear(runs, rest)
    ensures AllApart(runs)
  {
  }

  lemma {:induction false} PushClear(runs: seq<Block>, mem: map<int, Header>, head: int, c: int, csize: int, i: int,
      g: Gap)
    requires Chained(head, runs, mem) && Clear(runs, Block(c + i * UNIT, csize - i * UNIT))
    requires i <= g.lo < g.hi && g.hi * UNIT <= csize
    ensures var b := GapBlock(g, c);
      && Chained(b.addr, [b] + runs, mem[b.addr := Header(head, b.size)])
      && Clear([b] + runs, Block(c + g.hi * UNIT, csize - g.hi * UNIT))
  {
    hide Chained;
    var b := GapBlock(g, c);
    var out := [b] + runs;
    forall k | 0 <= k < |runs|
      ensures runs[k].addr != b.addr && Apart(b, runs[k])
      ensures Apart(runs[k], Block(c + g.hi * UNIT, csize - g.hi * UNIT))
    {
      assert Apart(runs[k], Block(c + i * UNIT, csize - i * UNIT));
    }
    PushChained(head, runs, mem, b);
    assert forall k :: 0 < k < |out| ==> out[k] == runs[k - 1];
  }

  /** The free blocks are exactly the maximal unmarked runs of the chunks, and account for all
      memory that is not marked. */
  ghost predicate Swept(runs: seq<Block>, chunks: seq<int>, bits: map<int, set<int>>, csize: int)
    requires forall i :: 0 <= i < |chunks| ==> chunks[i] in bits
  {
    && (forall r :: r in runs ==> exists i :: 0 <= i < |chunks| && FreeRun(r, chunks[i], bits[chunks[i]], csize))
    && (forall i, r :: 0 <= i < |chunks| && FreeRun(r, chunks[i], bits[chunks[i]], csize) ==> r in runs)
    && Total(runs) + MarkedUnits(chunks, bits, csize) * UNIT == |chunks| * csize
  }

  /** The gaps of each chunk, from the first chunk to the last, pushed one after the other. */
  ghost function PushedAll(gss: seq<seq<Gap>>, chunks: seq<int>): seq<Block>
    requires |gss| == |chunks|
  {
    if gss == [] then []
    else Pushed(gss[|gss| - 1], chunks[|chunks| - 1], PushedAll(gss[..|gss| - 1], chunks[..|chunks| - 1]))
  }

  /** In which order the sweep leaves the free blocks: the last chunk first, and in a chunk the last gap
      first. */
  ghost predicate InOrder(runs: seq<Block>, chunks: seq<int>, bits: map<int, set<int>>, csize: int)
    requires forall i :: 0 <= i < |chunks| ==> chunks[i] in bits
  {
    exists gss :: AllGaps(gss, chunks, bits, csize) && runs == PushedAll(gss, chunks)
  }

  ghost predicate AllGaps(gss: seq<seq<Gap>>, chunks: seq<int>, bits: map<int, set<int>>, csize: int)
    requires forall i :: 0 <= i < |chunks| ==> chunks[i] in bits
  {
    |gss| == |chunks| && forall i :: 0 <= i < |gss| ==> GapsBelow(gss[i], bits[chunks[i]], csize / UNIT, csize / UNIT)
  }

  lemma {:induction false} InOrderMore(runs: seq<Block>, chunks: seq<int>, bits: map<int, set<int>>, csize: int,
      c: int, gs: seq<Gap>)
    requires (forall i :: 0 <= i < |chunks| ==> chunks[i] in bits) && c in bits
    requires InOrder(runs, chunks, bits, csize) && GapsBelow(gs, bits[c], csize / UNIT, csize / UNIT)
    ensures InOrder(Pushed(gs, c, runs), chunks + [c], bits, csize)
  {
    hide GapsBelow, Pushed;
    var gss :| AllGaps(gss, chunks, bits, csize) && runs == PushedAll(gss, chunks);
    var all := gss + [gs];
    assert all[..|gss|] == gss && (chunks + [c])[..|chunks|] == chunks;
    assert AllGaps(all, chunks + [c], bits, csize);
  }

  lemma {:induction false} NoneInOrder(bits: map<int, set<int>>, csize: int)
    ensures InOrder([], [], bits, csize)
  {
    var none: seq<seq<Gap>> := [];
    assert AllGaps(none, [], bits, csize) && PushedAll(none, []) == [];
  }

  lemma {:induction false} SweptMore(runs: seq<Block>, chunks: seq<int>, bits: map<int, set<int>>, csize: int,
      c: int, gs: seq<Gap>)
    requires (forall i :: 0 <= i < |chunks| ==> chunks[i] in bits) && c in bits && csize > 0 && csize % UNIT == 0
    requires Swept(runs, chunks, bits, csize) && GapsBelow(gs, bits[c], csize / UNIT, csize / UNIT)
    ensures Swept(Pushed(gs, c, runs), chunks + [c], bits, csize)
  {
    hide GapsBelow, FreeRun, GapBlock, Pushed, Total, Units;
    var runs', chunks' := Pushed(gs, c, runs), chunks + [c];
    PushedAre(gs, c, runs);
    forall r | r in runs'
      ensures exists i :: 0 <= i < |chunks'| && FreeRun(r, chunks'[i], bits[chunks'[i]], csize)
    {
      if r in runs {
        var i :| 0 <= i < |chunks| && FreeRun(r, chunks[i], bits[chunks[i]], csize);
        assert chunks'[i] == chunks[i];
      } else {
        var j :| 0 <= j < |gs| && r == GapBlock(gs[j], c);
        GapOf(gs, bits[c], csize / UNIT, j);
        GapIsFreeRun(gs[j], c, bits[c], csize);
        assert chunks'[|chunks|] == c;
      }
    }
    forall i, r | 0 <= i < |chunks'| && FreeRun(r, chunks'[i], bits[chunks'[i]], csize)
      ensures r in runs'
    {
      if i == |chunks| {
        var j := FreeRunIsGap(r, c, bits[c], csize, gs);
      } else {
        assert chunks'[i] == chunks[i];
      }
    }
    PushedTotal(gs, c, runs);
    GapsTotal(gs, bits[c], csize / UNIT, csize / UNIT);
    assert chunks'[..|chunks|] == chunks;
  }

  lemma {:induction false} GapOf(gs: seq<Gap>, m: set<int>, n: int, j: nat)
    requires GapsBelow(gs, m, n, n) && j < |gs|
    ensures Maximal(gs[j], m, n)
  {
  }

  /** Without the last gap, the others are those below it. */
  lemma {:induction false} GapsShortened(gs: seq<Gap>, m: set<int>, n: int, i: int)
    requires GapsBelow(gs, m, n, i) && gs != []
    ensures var g := gs[|gs| - 1];
      && GapsBelow(gs[..|gs| - 1], m, n, g.lo) && 0 <= g.lo < g.hi <= i
      && (forall u :: g.lo <= u < g.hi ==> u !in m) && (forall u :: g.hi <= u < i ==> u in m)
  {
    var init, g := gs[..|gs| - 1], gs[|gs| - 1];
    assert forall j :: 0 <= j < |init| ==> init[j] == gs[j];
    GapsCover(gs, m, n, i);
  }

  lemma {:induction false} GapsCover(gs: seq<Gap>, m: set<int>, n: int, i: int)
    requires GapsBelow(gs, m, n, i) && gs != []
    ensures var init, g := gs[..|gs| - 1], gs[|gs| - 1];
      && (forall u :: 0 <= u < g.lo && u !in m ==> exists j :: 0 <= j < |init| && init[j].lo <= u < init[j].hi)
      && (forall u :: g.hi <= u < i ==> u in m)
  {
    hide GapsBelow;
    var init, g := gs[..|gs| - 1], gs[|gs| - 1];
    LastGap(gs, m, n, i);
    forall u | 0 <= u < g.lo && u !in m ensures exists j :: 0 <= j < |init| && init[j].lo <= u < init[j].hi {
      var j := CoveringGap(gs, m, n, i, u);
      assert init[j] == gs[j];
    }
    forall u | g.hi <= u < i ensures u in m {
      if u !in m {
        var j := CoveringGap(gs, m, n, i, u);
      }
    }
  }

  lemma {:induction false} LastGap(gs: seq<Gap>, m: set<int>, n: int, i: int)
    requires GapsBelow(gs, m, n, i) && gs != []
    ensures var g := gs[|gs| - 1]; 0 <= g.lo < g.hi <= i
  {
    assert Maximal(gs[|gs| - 1], m, n);
  }

  /** The gap of an unmarked unit; it is the last one only for the units of that. */
  lemma {:induction false} CoveringGap(gs: seq<Gap>, m: set<int>, n: int, i: int, u: int) returns (j: nat)
    requires GapsBelow(gs, m, n, i) && gs != [] && 0 <= u < i && u !in m
    ensures j < |gs| && gs[j].lo <= u < gs[j].hi
    ensures j < |gs| - 1 <==> u < gs[|gs| - 1].lo
  {
    j :| 0 <= j < |gs| && gs[j].lo <= u < gs[j].hi;
    assert Maximal(gs[|gs| - 1], m, n);
    hide Maximal;
  }

  /** Gaps and marked units make up the whole. */
  lemma {:induction false} GapsTotal(gs: seq<Gap>, m: set<int>, n: int, i: int)
    requires GapsBelow(gs, m, n, i) && 0 <= i
    ensures Units(gs) + |Below(m, i)| == i
  {
    if gs == [] {
      BelowGrows(m, 0, i);
      assert Below(m, 0) == {};
    } else {
      var g := gs[|gs| - 1];
      GapsShortened(gs, m, n, i);
      GapsTotal(gs[..|gs| - 1], m, n, g.lo);
      BelowGrows(m, g.lo, g.hi);
      BelowGrows(m, g.hi, i);
    }
  }
}
