/** Lists that are linked through the first words of their blocks, from one address to the next. */
module Threads {

  /** Size of a link. */
  const WORD := 8

  /** `s` is linked through `mem` from `head`, and its last element leads to `tail`. */
  ghost predicate Thread(head: int, s: seq<int>, tail: int, mem: map<int, int>) {
    && head == NextOf(s, 0, tail)
    && forall i :: 0 <= i < |s| ==> s[i] in mem && mem[s[i]] == NextOf(s, i + 1, tail)
  }

  function NextOf(s: seq<int>, i: nat, tail: int): int {
    if i < |s| then s[i] else tail
  }

  lemma {:induction false} ThreadPush(head: int, s: seq<int>, tail: int, mem: map<int, int>, p: int)
    requires Thread(head, s, tail, mem) && p !in s
    ensures Thread(p, [p] + s, tail, mem[p := head])
  {
  }

  lemma {:induction false} ThreadPop(head: int, s: seq<int>, tail: int, mem: map<int, int>)
    requires Thread(head, s, tail, mem) && s != []
    ensures head == s[0] && head in mem && Thread(mem[head], s[1..], tail, mem)
  {
    assert forall i :: 0 <= i < |s| - 1 ==> s[1..][i] == s[i + 1];
  }

  /** Other words may change. */
  lemma {:induction false} ThreadFrame(head: int, s: seq<int>, tail: int, mem: map<int, int>, a: int, x: int)
    requires Thread(head, s, tail, mem) && a !in s
    ensures Thread(head, s, tail, mem[a := x])
  {
  }

  /** What one thread leads to may be the head of another. */
  lemma {:induction false} ThreadJoin(head: int, s: seq<int>, mid: int, t: seq<int>, tail: int, mem: map<int, int>)
    requires Thread(head, s, mid, mem) && Thread(mid, t, tail, mem)
    ensures Thread(head, s + t, tail, mem)
  {
  }

  /** The beginning of a thread, where the words of its elements have not changed. */
  lemma {:induction false} ThreadBegin(head: int, s: seq<int>, k: nat, mem: map<int, int>, now: map<int, int>)
    requires Thread(head, s, 0, mem) && k <= |s|
    requires forall i :: 0 <= i < k ==> s[i] in mem && s[i] in now && now[s[i]] == mem[s[i]]
    ensures Thread(head, s[..k], NextOf(s, k, 0), now)
  {
    assert forall i :: 0 <= i < k ==> s[..k][i] == s[i];
  }

  /** A thread whose tail is one of its elements never ends: following it, one never meets 0. */
  lemma {:induction false} ThreadLoops(head: int, s: seq<int>, tail: int, mem: map<int, int>, t: seq<int>)
    requires Thread(head, s, tail, mem) && tail in s && 0 !in s
    ensures !Thread(head, t, 0, mem)
  {
    if Thread(head, t, 0, mem) {
      ThreadStays(head, s, tail, mem, t, |t|);
      assert false;
    }
  }

  lemma {:induction false} ThreadStays(head: int, s: seq<int>, tail: int, mem: map<int, int>, t: seq<int>, k: nat)
    requires Thread(head, s, tail, mem) && tail in s && Thread(head, t, 0, mem) && 0 !in s
    requires k <= |t|
    ensures k < |t| && t[k] in s
  {
    if k > 0 {
      ThreadStays(head, s, tail, mem, t, k - 1);
      var j :| 0 <= j < |s| && s[j] == t[k - 1];
      assert mem[s[j]] == NextOf(s, j + 1, tail) == NextOf(t, k, 0);
    }
  }

  lemma {:induction false} ThreadHead(head: int, s: seq<int>, mem: map<int, int>)
    requires Thread(head, s, 0, mem)
    ensures s == [] ==> head == 0
    ensures s != [] ==> head == s[0]
  {
  }
}
