/** How much memory the requests held at one time take. */
module HeapLoad {
  import opened HeapWords
  import opened HeapLayout
  import opened HeapState
  import opened HeapAdjacency
  import opened Allocator

  /** The bytes that a block for a request of this size takes, at the least. */
  function Room(size: int): (r: int)
    ensures r >= 0
  {
    if size <= 0 then 0 else AdjustedSize(size)
  }

  /** The room that all requests of a map take, whatever names them. */
  ghost function Weight(sizes: map<int, int>): int
    decreases |sizes|
  {
    if forall k :: k !in sizes then 0
    else
      var k :| k in sizes;
      Room(sizes[k]) + Weight(sizes - {k})
  }

  lemma {:induction false} WeightWithout(sizes: map<int, int>, k: int)
    requires k in sizes
    ensures Weight(sizes) == Room(sizes[k]) + Weight(sizes - {k})
    decreases |sizes|
  {
    hide Room;
    var j :| j in sizes && Weight(sizes) == Room(sizes[j]) + Weight(sizes - {j});
    if j != k {
      WeightWithout(sizes - {j}, k);
      WeightWithout(sizes - {k}, j);
      assert sizes - {j} - {k} == sizes - {k} - {j};
    }
  }

  lemma {:induction false} LargestKey(sizes: map<int, int>) returns (k: int)
    requires exists i :: i in sizes
    ensures k in sizes && forall j :: j in sizes ==> j <= k
    decreases |sizes|
  {
    var first :| first in sizes;
    var rest := sizes - {first};
    assert forall i :: i in sizes ==> i == first || i in rest;
    k := first;
    if exists i :: i in rest {
      var j := LargestKey(rest);
      k := if j > first then j else first;
    }
  }

  /** Disjoint pieces of an interval are together no longer than it is. */
  lemma {:induction false} Packing(sizes: map<int, int>, lo: int, hi: int)
    requires lo <= hi && forall b :: b in sizes ==> lo <= b && b + Room(sizes[b]) <= hi
    requires forall b, c :: b in sizes && c in sizes && b < c ==> b + Room(sizes[b]) <= c
    ensures Weight(sizes) <= hi - lo
    decreases |sizes|
  {
    hide Room;
    if exists i :: i in sizes {
      var b := LargestKey(sizes);
      WeightWithout(sizes, b);
      assert forall c :: c in sizes - {b} ==> c < b && (sizes - {b})[c] == sizes[c];
      Packing(sizes - {b}, lo, b);
    }
  }

  /** The live requests take no more than the heap has grown since mm_init. */
  lemma LiveLoad(h: Heap)
    requires h.Valid() && h.heapListp != 0
    ensures Weight(h.live) <= h.brk - FIRST
  {
    forall b | b in h.live ensures FIRST <= b && Room(h.live[b]) <= h.blocks[b].size && b + h.blocks[b].size <= h.brk {
      LiveRoom(h, b);
    }
    forall b, c | b in h.live && c in h.live && b < c ensures b + Room(h.live[b]) <= c {
      BlocksInOrder(h, b, c);
    }
    Packing(h.live, FIRST, h.brk);
  }

  lemma LiveRoom(h: Heap, b: int)
    requires h.Valid() && b in h.live
    ensures FIRST <= b && b in h.blocks && Room(h.live[b]) <= h.blocks[b].size && b + h.blocks[b].size <= h.brk
    ensures FIRST <= h.brk
  {
    hide Threaded;
    LiveIs(h.blocks, h.live, b);
    ReadTags(h.mem[..], h.blocks, h.brk, h.lists, {}, b);
    BlocksInOrder(h, PROLOGUE, b);
  }

  lemma BlocksInOrder(h: Heap, b: int, c: int)
    requires h.Valid() && h.heapListp != 0 && (b == PROLOGUE || b in h.live) && c in h.live
    ensures b in h.blocks && c in h.blocks && PROLOGUE <= c && (b < c ==> b + h.blocks[b].size <= c)
    ensures h.blocks[PROLOGUE].size == 64
  {
  }

  /** Requests named by index, and the payloads at the addresses that ptrs gives, are the same requests. */
  ghost predicate Matches(live: map<int, int>, held: map<nat, int>, ptrs: map<nat, int>) {
    && ptrs.Keys == held.Keys && live.Keys == ptrs.Values
    && (forall i :: i in ptrs ==> ptrs[i] in live && live[ptrs[i]] == held[i])
    && (forall i, j :: i in ptrs && j in ptrs && i != j ==> ptrs[i] != ptrs[j])
  }

  lemma MatchMore(live: map<int, int>, held: map<nat, int>, ptrs: map<nat, int>, i: nat, r: int, size: int)
    requires Matches(live, held, ptrs) && i !in ptrs && r !in live
    ensures Matches(live[r := size], held[i := size], ptrs[i := r])
  {
    var ptrs' := ptrs[i := r];
    assert forall j :: j in ptrs ==> ptrs'[j] == ptrs[j];
    assert ptrs'[i] == r;
    assert ptrs'.Values == ptrs.Values + {r};
  }

  lemma MatchLess(live: map<int, int>, held: map<nat, int>, ptrs: map<nat, int>, i: nat)
    requires Matches(live, held, ptrs) && i in ptrs
    ensures Matches(live - {ptrs[i]}, held - {i}, ptrs - {i})
  {
    var ptrs' := ptrs - {i};
    assert forall j :: j in ptrs' ==> j in ptrs && ptrs'[j] == ptrs[j] && ptrs[j] != ptrs[i];
    forall b | b in live && b != ptrs[i] ensures b in ptrs'.Values {
      var j :| j in ptrs && ptrs[j] == b;
      assert j in ptrs';
    }
    assert (live - {ptrs[i]}).Keys == ptrs'.Values;
  }

  lemma MatchAgain(live: map<int, int>, held: map<nat, int>, ptrs: map<nat, int>, i: nat, r: int, size: int)
    requires Matches(live, held, ptrs) && i in ptrs && r !in live - {ptrs[i]}
    ensures Matches((live - {ptrs[i]})[r := size], held[i := size], ptrs[i := r])
  {
    MatchLess(live, held, ptrs, i);
    MatchMore(live - {ptrs[i]}, held - {i}, ptrs - {i}, i, r, size);
    assert (held - {i})[i := size] == held[i := size] && (ptrs - {i})[i := r] == ptrs[i := r];
  }

  lemma MatchFacts(live: map<int, int>, held: map<nat, int>, ptrs: map<nat, int>)
    requires Matches(live, held, ptrs)
    ensures ptrs.Keys == held.Keys && ((forall i :: i !in held) ==> forall b :: b !in live)
    ensures forall i :: i in held ==> i in ptrs && ptrs[i] in live && live[ptrs[i]] == held[i]
  {
    forall b | b in live ensures exists i :: i in held {
      var i :| i in ptrs && ptrs[i] == b;
      assert i in held;
    }
  }

  /** The weight does not depend on what names the requests. */
  lemma {:induction false} WeightHeld(live: map<int, int>, held: map<nat, int>, ptrs: map<nat, int>)
    requires Matches(live, held, ptrs)
    ensures Weight(held) == Weight(live)
    decreases |held|
  {
    hide Room, Matches;
    MatchFacts(live, held, ptrs);
    if exists i :: i in held {
      var i :| i in held;
      WeightWithout(held, i);
      WeightWithout(live, ptrs[i]);
      MatchLess(live, held, ptrs, i);
      WeightHeld(live - {ptrs[i]}, held - {i}, ptrs - {i});
    }
  }
}
