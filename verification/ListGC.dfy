/** The garbage collector `elm::ListGC`: all its blocks are in one list, linked by their first word,
    whose lowest bit is the mark. */
module ListGC {
  import opened Common
  import opened Threads

  const TAG := 1

  function Block(data: int): int { data - WORD }

  function Data(block: int): int { block + WORD }

  function Marked(word: int): int { if word % 2 == 0 then word + TAG else word }

  function Unmarked(word: int): int { if word % 2 == 0 then word else word - TAG }

  predicate IsMarked(word: int) { word % 2 != 0 }

  // ------------------------------------------------------- what a sweep keeps

  /** The elements of a list that are in a set, in their order. */
  ghost function Kept(s: seq<int>, keep: set<int>): seq<int> {
    if s == [] then []
    else
      var init, x := Kept(s[..|s| - 1], keep), s[|s| - 1];
      if x in keep then init + [x] else init
  }

  /** The other ones. */
  ghost function Dropped(s: seq<int>, keep: set<int>): seq<int> {
    if s == [] then []
    else
      var init, x := Dropped(s[..|s| - 1], keep), s[|s| - 1];
      if x in keep then init else init + [x]
  }

  lemma {:induction false} KeptSnoc(s: seq<int>, k: nat, keep: set<int>)
    requires k < |s|
    ensures Kept(s[..k + 1], keep) == Kept(s[..k], keep) + if s[k] in keep then [s[k]] else []
    ensures Dropped(s[..k + 1], keep) == Dropped(s[..k], keep) + if s[k] in keep then [] else [s[k]]
  {
    assert s[..k + 1][..k] == s[..k];
  }

  /** Every element is on one side, once. */
  lemma {:induction false} KeptOrDropped(s: seq<int>, keep: set<int>)
    ensures forall x :: x in Kept(s, keep) <==> x in s && x in keep
    ensures forall x :: x in Dropped(s, keep) <==> x in s && x !in keep
    ensures |Kept(s, keep)| + |Dropped(s, keep)| == |s|
    ensures multiset(Kept(s, keep)) + multiset(Dropped(s, keep)) == multiset(s)
  {
    if s != [] {
      KeptOrDropped(s[..|s| - 1], keep);
      assert s == s[..|s| - 1] + [s[|s| - 1]];
    }
  }

  lemma {:induction false} KeptDistinct(s: seq<int>, keep: set<int>)
    requires Distinct(s)
    ensures Distinct(Kept(s, keep)) && Distinct(Dropped(s, keep))
  {
    if s != [] {
      KeptDistinct(s[..|s| - 1], keep);
      KeptOrDropped(s[..|s| - 1], keep);
    }
  }

  // ---------------------------------------------------------- the linked list

  /** The word of block `i` leads to the next one, and is tagged if the block is marked. */
  ghost predicate Link(list: seq<int>, mem: map<int, int>, marked: set<int>, i: nat)
    requires i < |list|
  {
    && list[i] > 0 && list[i] % 2 == 0 && list[i] in mem
    && mem[list[i]] == NextOf(list, i + 1, 0) + if list[i] in marked then TAG else 0
  }

  ghost predicate Linked(head: int, list: seq<int>, mem: map<int, int>, marked: set<int>) {
    && head == NextOf(list, 0, 0) && Distinct(list)
    && forall i :: 0 <= i < |list| ==> Link(list, mem, marked, i)
  }

  lemma {:induction false} LinkedAt(head: int, list: seq<int>, mem: map<int, int>, marked: set<int>, i: nat)
    requires Linked(head, list, mem, marked) && i < |list|
    ensures list[i] > 0 && list[i] % 2 == 0 && list[i] in mem
    ensures IsMarked(mem[list[i]]) <==> list[i] in marked
    ensures Unmarked(mem[list[i]]) == NextOf(list, i + 1, 0)
    ensures Marked(mem[list[i]]) == NextOf(list, i + 1, 0) + TAG
    ensures Distinct(list)
  {
    assert Link(list, mem, marked, i);
    assert i + 1 < |list| ==> Link(list, mem, marked, i + 1);
  }

  /** Only the word of block `i` changes. */
  lemma {:induction false} RetagLinked(head: int, list: seq<int>, mem: map<int, int>, marked: set<int>, i: nat,
      tag: bool)
    requires Linked(head, list, mem, marked) && i < |list|
    ensures var m := if tag then marked + {list[i]} else marked - {list[i]};
      Linked(head, list, mem[list[i] := NextOf(list, i + 1, 0) + if tag then TAG else 0], m)
  {
    var m := if tag then marked + {list[i]} else marked - {list[i]};
    var w := mem[list[i] := NextOf(list, i + 1, 0) + if tag then TAG else 0];
    forall j | 0 <= j < |list|
      ensures Link(list, w, m, j)
    {
      assert Link(list, mem, marked, j);
    }
  }

  lemma {:induction false} PushLinked(head: int, list: seq<int>, mem: map<int, int>, marked: set<int>, p: int)
    requires Linked(head, list, mem, marked) && p > 0 && p % 2 == 0 && p !in mem && p !in marked
    ensures Linked(p, [p] + list, mem[p := head], marked)
  {
    var l := [p] + list;
    forall j | 0 <= j < |l|
      ensures Link(l, mem[p := head], marked, j)
      ensures j > 0 ==> l[j] != p
    {
      assert j > 0 ==> Link(list, mem, marked, j - 1) && l[j] == list[j - 1];
    }
  }

  function Without(s: seq<int>, k: nat): seq<int>
    requires k < |s|
  {
    s[..k] + s[k + 1..]
  }

  /** Unlink block `k`: the head, or the word of the previous block, which is not marked, is changed
      to what the word of block `k` is. */
  lemma {:induction false} UnlinkFirst(head: int, list: seq<int>, mem: map<int, int>, marked: set<int>)
    requires Linked(head, list, mem, marked) && list != []
    ensures Linked(NextOf(list, 1, 0), Without(list, 0), mem - {list[0]}, marked)
  {
    var l, m := Without(list, 0), mem - {list[0]};
    forall i | 0 <= i < |l|
      ensures Link(l, m, marked, i)
    {
      assert Link(list, mem, marked, i + 1) && l[i] == list[i + 1] && NextOf(l, i + 1, 0) == NextOf(list, i + 2, 0);
    }
  }

  lemma {:induction false} UnlinkLater(head: int, list: seq<int>, mem: map<int, int>, marked: set<int>, k: nat)
    requires Linked(head, list, mem, marked) && 0 < k < |list| && list[k - 1] !in marked
    ensures Linked(head, Without(list, k), mem[list[k - 1] := NextOf(list, k + 1, 0)] - {list[k]}, marked)
  {
    var l, m := Without(list, k), mem[list[k - 1] := NextOf(list, k + 1, 0)] - {list[k]};
    forall i | 0 <= i < |l|
      ensures Link(l, m, marked, i)
    {
      var j := if i < k then i else i + 1;
      assert Link(list, mem, marked, j);
      assert l[i] == list[j] && list[j] != list[k];
      assert NextOf(l, i + 1, 0) == if i + 1 == k then NextOf(list, k + 1, 0) else NextOf(list, j + 1, 0);
    }
  }

  class ListGC {
    var head: int
    var mem: map<int, int>
    var cnt: int
    var lcnt: int
    var lim: int
    var dis: bool
    /** The blocks, in the order of the list. */
    ghost var list: seq<int>
    /** The marked ones: none outside of a collection. */
    ghost var marked: set<int>
    /** The blocks that the client still uses. */
    ghost var held: set<int>

    ghost predicate Inv()
      reads this
    {
      && Linked(head, list, mem, marked)
      && mem.Keys == Members(list)
      && cnt == |list| && lim >= 0
      && held <= Members(list) && marked <= Members(list)
    }

    /** Outside of a collection: an automatic collection is never overdue. */
    ghost predicate Valid()
      reads this
    {
      Inv() && marked == {} && 0 <= lcnt <= cnt && !GcNeeded()
    }

    predicate GcNeeded()
      reads `dis, `cnt, `lcnt, `lim
    {
      !dis && cnt - lcnt > lim
    }

    constructor (limit: nat)
      ensures Valid() && list == [] && held == {} && lim == limit && !dis
    {
      head, mem, cnt, lcnt, lim, dis := 0, map[], 0, 0, limit, false;
      list, marked, held := [], {}, {};
    }

    /** Tell, during a collection, that a block is alive; returns whether that was known. */
    method Mark(data: int) returns (r: bool)
      requires Inv() && Block(data) in list
      modifies `mem, `marked
      ensures Inv() && marked == old(marked) + {Block(data)} && r == (Block(data) in old(marked))
    {
      hide Linked;
      var b := Block(data);
      ghost var i :| 0 <= i < |list| && list[i] == b;
      LinkedAt(head, list, mem, marked, i);
      RetagLinked(head, list, mem, marked, i, true);
      r := IsMarked(mem[b]);
      mem := mem[b := Marked(mem[b])];
      marked := marked + {b};
    }

    /** What the manager does in a collection: mark the blocks it knows to be alive. */
    method Collect(live: seq<int>)
      requires Inv() && forall i :: 0 <= i < |live| ==> Block(live[i]) in list
      modifies `mem, `marked
      ensures Inv() && marked == old(marked) + Blocks(live)
    {
      hide Inv;
      for k := 0 to |live|
        invariant Inv() && marked == old(marked) + Blocks(live[..k])
      {
        var seen := Mark(live[k]);
        assert Blocks(live[..k + 1]) == Blocks(live[..k]) + {Block(live[k])};
      }
      assert live[..|live|] == live;
    }

    static ghost function Blocks(live: seq<int>): set<int> {
      set i | 0 <= i < |live| :: Block(live[i])
    }

    /** The sweep passes over block `k`, which is marked. */
    method Keep(p: int, ghost k: nat)
      requires Inv() && k < |list| && list[k] == p
      modifies `mem, `marked
      ensures Inv() && marked == old(marked) - {p} && mem[p] == NextOf(list, k + 1, 0)
    {
      hide Linked;
      LinkedAt(head, list, mem, marked, k);
      RetagLinked(head, list, mem, marked, k, false);
      mem := mem[p := Unmarked(mem[p])];
      marked := marked - {p};
    }

    /** The sweep unlinks block `k`, which is not marked, and frees it: `q` is where its address is,
        the word of the previous block or the head, for which 0 stands. */
    method Drop(p: int, q: int, ghost k: nat) returns (next: int)
      requires Inv() && k < |list| && list[k] == p && p !in marked && p !in held
      requires q == if k == 0 then 0 else list[k - 1]
      requires k > 0 ==> q !in marked
      modifies `head, `mem, `cnt, `list
      ensures Inv() && list == Without(old(list), k) && next == NextOf(old(list), k + 1, 0)
    {
      hide Linked, Distinct, Without, Members;
      LinkedAt(head, list, mem, marked, k);
      WithoutMembers(list, k);
      if k > 0 {
        LinkedAt(head, list, mem, marked, k - 1);
        UnlinkLater(head, list, mem, marked, k);
      } else {
        UnlinkFirst(head, list, mem, marked);
      }
      if q == 0 {
        head := mem[p];
      } else {
        mem := mem[q := mem[p]];
      }
      mem := mem - {p};
      next := if q == 0 then head else mem[q];
      cnt := cnt - 1;
      list := Without(list, k);
    }

    /** Free the blocks that are not marked, and unmark the others. */
    method Sweep() returns (cleaned: seq<int>)
      requires Inv() && held <= marked
      modifies `head, `mem, `cnt, `list, `marked
      ensures Inv() && marked == {}
      ensures list == Kept(old(list), old(marked))
      ensures cleaned == DataOf(Dropped(old(list), old(marked)))
    {
      hide Linked, Members, Kept, Dropped, Without, Distinct, DataOf, SweptList, LeftMarked, LastOr0;
      ghost var all, live := list, marked;
      var q, p := 0, head;
      ghost var i := 0;
      cleaned := [];
      HeadIs();
      SweepStart(all, live);
      while p != 0
        invariant 0 <= i <= |all| && p == NextOf(all, i, 0)
        invariant Inv() && list == SweptList(all, live, i) && marked == LeftMarked(all, live, i)
        invariant q == LastOr0(Kept(all[..i], live))
        invariant cleaned == DataOf(Dropped(all[..i], live))
        invariant held <= live && Distinct(all) && forall j :: 0 <= j < |all| ==> all[j] > 0
        decreases |all| - i
      {
        ghost var k := |Kept(all[..i], live)|;
        SweepStep(all, live, i);
        MarkIsTested(k);
        if IsMarked(mem[p]) {
          Keep(p, k);
          q := p;
          p := mem[p];
        } else {
          cleaned := cleaned + [Data(p)];
          p := Drop(p, q, k);
        }
        i := i + 1;
      }
      SweepEnd(all, live, i);
    }

    /** A whole collection: the blocks that are marked beforehand or by the manager stay, in their
        order; the others are cleaned, each one once, and freed. */
    method RunGC(live: seq<int>) returns (cleaned: seq<int>)
      requires Inv() && forall i :: 0 <= i < |live| ==> Block(live[i]) in list
      requires held <= marked + Blocks(live)
      modifies `head, `mem, `cnt, `lcnt, `list, `marked
      ensures Valid() && cnt == lcnt
      ensures list == Kept(old(list), old(marked) + Blocks(live))
      ensures cleaned == DataOf(Dropped(old(list), old(marked) + Blocks(live)))
    {
      hide Linked, Members, Kept, Dropped, DataOf;
      Collect(live);
      cleaned := Sweep();
      lcnt := cnt;
    }

    /** A new block, at address `p` of the heap.  If a collection is needed, the client marks `live`. */
    method Allocate(p: int, live: seq<int>) returns (data: int, cleaned: seq<int>)
      requires Valid() && p > 0 && p % 2 == 0 && p !in mem
      requires held <= Blocks(live) && forall i :: 0 <= i < |live| ==> Block(live[i]) in list
      modifies this
      ensures Valid() && data == Data(p) && held == old(held) + {p} && dis == old(dis)
      ensures var gc := !dis && old(cnt) + 1 - old(lcnt) > old(lim);
        && list == [p] + (if gc then Kept(old(list), Blocks(live)) else old(list))
        && cleaned == (if gc then DataOf(Dropped(old(list), Blocks(live))) else [])
        && lim == (if gc then old(lim) * 2 else old(lim)) && lcnt == if gc then cnt else old(lcnt)
    {
      hide Linked, Members, Kept, Dropped, DataOf, Blocks;
      PushLinked(head, list, mem, marked, p);
      PushMembers(list, p);
      mem := mem[p := head];
      head := p;
      cnt := cnt + 1;
      list := [p] + list;
      held := held + {p};
      cleaned := [];
      if GcNeeded() {
        lim := lim * 2;
        var seen := Mark(Data(p));
        assert marked == {p};
        KeptPushed(old(list), p, Blocks(live));
        cleaned := RunGC(live);
      }
      data := Data(p);
    }

    /** Automatic collections are suspended. */
    method Disable()
      requires Valid()
      modifies `dis
      ensures Valid() && dis
    {
      dis := true;
    }

    /** Automatic collections resume, at once if one is overdue. */
    method Enable(live: seq<int>) returns (cleaned: seq<int>)
      requires Valid()
      requires held <= Blocks(live) && forall i :: 0 <= i < |live| ==> Block(live[i]) in list
      modifies this
      ensures Valid() && !dis && lim == old(lim) && held == old(held)
      ensures var gc := old(cnt) - old(lcnt) > lim;
        && list == (if gc then Kept(old(list), Blocks(live)) else old(list))
        && cleaned == (if gc then DataOf(Dropped(old(list), Blocks(live))) else [])
        && lcnt == if gc then cnt else old(lcnt)
    {
      dis := false;
      cleaned := [];
      if GcNeeded() {
        assert {} + Blocks(live) == Blocks(live);
        cleaned := RunGC(live);
      }
    }

    /** Free all the blocks; the client uses none of them any more. */
    method Clean() returns (cleaned: seq<int>)
      requires Valid() && held == {}
      modifies this
      ensures Valid() && list == [] && cleaned == DataOf(old(list)) && lim == old(lim) && dis == old(dis)
    {
      hide Linked, Distinct, Without, Members;
      var p := head;
      ghost var all, i := list, 0;
      cleaned := [];
      HeadIs();
      assert all[0..] == all;
      while p != 0
        invariant 0 <= i <= |all| && p == NextOf(all, i, 0)
        invariant Linked(p, all[i..], mem, {}) && mem.Keys == Members(all[i..])
        invariant cleaned == DataOf(all[..i])
        invariant forall j :: 0 <= j < |all| ==> all[j] > 0
        decreases |all| - i
        modifies `mem
      {
        UnlinkFirst(p, all[i..], mem, {});
        LinkedAt(p, all[i..], mem, {}, 0);
        WithoutMembers(all[i..], 0);
        RestOf(all, i);
        var q := mem[p];
        cleaned := cleaned + [Data(p)];
        mem := mem - {p};
        p := q;
        i := i + 1;
      }
      assert all[..i] == all && all[i..] == [];
      NoMembers();
      head, cnt, lcnt := 0, 0, 0;
      list := [];
    }

    /** The client does not use a block any more. */
    ghost method GiveUp(b: int)
      requires Valid()
      modifies `held
      ensures Valid() && held == old(held) - {b}
    {
      held := held - {b};
    }

    lemma {:induction false} HeadIs()
      requires Inv()
      ensures head == NextOf(list, 0, 0) && Distinct(list) && forall j :: 0 <= j < |list| ==> list[j] > 0
    {
      forall j | 0 <= j < |list| ensures list[j] > 0 {
        assert Link(list, mem, marked, j);
      }
    }

    lemma {:induction false} MarkIsTested(k: nat)
      requires Inv() && k < |list|
      ensures list[k] in mem && (IsMarked(mem[list[k]]) <==> list[k] in marked)
    {
      LinkedAt(head, list, mem, marked, k);
    }
  }

  /** The blocks as the manager knows them. */
  ghost function DataOf(s: seq<int>): seq<int> {
    seq(|s|, i requires 0 <= i < |s| => Data(s[i]))
  }

  ghost function LastOr0(s: seq<int>): int {
    if s == [] then 0 else s[|s| - 1]
  }

  lemma {:induction false} SweepStart(all: seq<int>, live: set<int>)
    requires live <= Members(all)
    ensures SweptList(all, live, 0) == all && LeftMarked(all, live, 0) == live
    ensures LastOr0(Kept(all[..0], live)) == 0 && DataOf(Dropped(all[..0], live)) == []
  {
    assert all[0..] == all;
  }

  lemma {:induction false} SweepEnd(all: seq<int>, live: set<int>, i: nat)
    requires i == |all|
    ensures SweptList(all, live, i) == Kept(all, live) && LeftMarked(all, live, i) == {}
    ensures Dropped(all[..i], live) == Dropped(all, live)
  {
    assert all[..i] == all && all[i..] == [];
  }

  /** The list when the sweep comes to block `i` of the initial one. */
  ghost function SweptList(all: seq<int>, live: set<int>, i: nat): seq<int>
    requires i <= |all|
  {
    Kept(all[..i], live) + all[i..]
  }

  /** The blocks that the sweep has not passed keep their marks. */
  ghost function LeftMarked(all: seq<int>, live: set<int>, i: nat): set<int>
    requires i <= |all|
  {
    live * Members(all[i..])
  }

  lemma {:induction false} NextInList(done: seq<int>, all: seq<int>, i: nat)
    requires i < |all|
    ensures var list := done + all[i..];
      && |done| < |list| && list[|done|] == all[i]
      && (|done| > 0 ==> list[|done| - 1] == LastOr0(done))
      && NextOf(list, |done| + 1, 0) == NextOf(all, i + 1, 0)
      && done + [all[i]] + all[i + 1..] == list
      && Without(list, |done|) == done + all[i + 1..]
      && LastOr0(done + [all[i]]) == all[i]
  {
  }

  lemma {:induction false} NextMarked(all: seq<int>, live: set<int>, i: nat)
    requires i < |all| && Distinct(all)
    ensures all[i] in LeftMarked(all, live, i) <==> all[i] in live
    ensures LeftMarked(all, live, i) - {all[i]} == LeftMarked(all, live, i + 1)
  {
    assert all[i..] == [all[i]] + all[i + 1..];
  }

  lemma {:induction false} KeptArePast(all: seq<int>, live: set<int>, i: nat)
    requires i < |all| && Distinct(all) && (forall j :: 0 <= j < |all| ==> all[j] > 0)
    ensures LastOr0(Kept(all[..i], live)) !in LeftMarked(all, live, i)
    ensures Kept(all[..i], live) == [] <==> LastOr0(Kept(all[..i], live)) == 0
  {
    var done := Kept(all[..i], live);
    KeptOrDropped(all[..i], live);
    if done != [] {
      assert LastOr0(done) in done;
      var j :| 0 <= j < i && all[j] == LastOr0(done);
    }
  }

  /** The next block of the sweep. */
  lemma {:induction false} SweepStep(all: seq<int>, live: set<int>, i: nat)
    requires i < |all| && Distinct(all) && (forall j :: 0 <= j < |all| ==> all[j] > 0)
    ensures var done, list := Kept(all[..i], live), SweptList(all, live, i);
      && |done| < |list| && list[|done|] == all[i]
      && (|done| > 0 ==> list[|done| - 1] == LastOr0(done))
      && (|done| == 0 ==> LastOr0(done) == 0)
      && NextOf(list, |done| + 1, 0) == NextOf(all, i + 1, 0)
      && (all[i] in live ==> list == SweptList(all, live, i + 1) && LastOr0(Kept(all[..i + 1], live)) == all[i])
      && (all[i] !in live ==> Without(list, |done|) == SweptList(all, live, i + 1))
      && (all[i] !in live ==> LastOr0(done) == LastOr0(Kept(all[..i + 1], live)))
      && (all[i] in LeftMarked(all, live, i) <==> all[i] in live)
      && LeftMarked(all, live, i) - {all[i]} == LeftMarked(all, live, i + 1)
      && LastOr0(done) !in LeftMarked(all, live, i)
    ensures DataOf(Dropped(all[..i + 1], live)) ==
      DataOf(Dropped(all[..i], live)) + if all[i] in live then [] else [Data(all[i])]
  {
    hide Kept, Dropped, Without, NextOf, LastOr0, LeftMarked, Distinct;
    NextInList(Kept(all[..i], live), all, i);
    NextMarked(all, live, i);
    KeptArePast(all, live, i);
    KeptSnoc(all, i, live);
    assert Kept(all[..i], live) + [] == Kept(all[..i], live);
  }

  lemma {:induction false} NoMembers()
    ensures Members<int>([]) == {}
  {
  }

  lemma {:induction false} PushMembers(s: seq<int>, p: int)
    ensures Members([p] + s) == Members(s) + {p} && |[p] + s| == |s| + 1
    ensures p in s <==> p in Members(s)
  {
  }

  /** The block of an allocation in progress is marked, and stays first. */
  lemma {:induction false} KeptPushed(s: seq<int>, p: int, keep: set<int>)
    requires p !in s
    ensures Kept([p] + s, {p} + keep) == [p] + Kept(s, keep)
    ensures Dropped([p] + s, {p} + keep) == Dropped(s, keep)
  {
    if s == [] {
      assert [p] + s == [p];
    } else {
      var init := s[..|s| - 1];
      assert ([p] + s)[..|s|] == [p] + init;
      KeptPushed(init, p, keep);
    }
  }

  lemma {:induction false} RestOf(all: seq<int>, i: nat)
    requires i < |all|
    ensures all[i..][0] == all[i] && Without(all[i..], 0) == all[i + 1..]
    ensures NextOf(all[i..], 1, 0) == NextOf(all, i + 1, 0)
    ensures DataOf(all[..i + 1]) == DataOf(all[..i]) + [Data(all[i])]
  {
  }

  lemma {:induction false} WithoutMembers(s: seq<int>, k: nat)
    requires k < |s| && Distinct(s)
    ensures Members(Without(s, k)) == Members(s) - {s[k]}
    ensures |Without(s, k)| == |s| - 1 && forall i :: 0 <= i < |s| && i != k ==> s[i] != s[k]
  {
    assert s == s[..k] + [s[k]] + s[k + 1..];
  }
}
