/** The validity run of the malloc driver: any well-formed trace of requests, with every block filled and checked. */
module HeapDriver {
  import opened HeapWords
  import opened HeapLayout
  import opened FreeLists
  import opened HeapState
  import opened HeapAdjacency
  import opened HeapMoves
  import opened Allocator
  import opened HeapCheck
  import opened HeapLoad

  datatype Request = Alloc(index: nat, size: int) | Realloc(index: nat, size: int) | Release(index: nat)

  datatype Verdict = Passed | OutOfMemory | BadRange | DataLost

  /** The block size that a request asks for. */
  ghost function Need(r: Request): int {
    if r.Release? || r.size <= 0 then 0 else AdjustedSize(r.size)
  }

  /** The bytes that a trace asks for when nothing released is ever used again. */
  ghost function Demand(trace: seq<Request>): int {
    if trace == [] then 0 else Need(trace[0]) + Demand(trace[1..])
  }

  lemma {:induction false} DemandNatural(trace: seq<Request>)
    ensures Demand(trace) >= 0
  {
    if trace != [] {
      DemandNatural(trace[1..]);
    }
  }

  /** An index is allocated before it is resized or released, and sizes are positive. */
  predicate Legal(r: Request, held: map<nat, int>) {
    (r.Alloc? <==> r.index !in held) && (r.Release? || 0 < r.size < 0x7FFF_FFF0)
  }

  /** What is held, index by index with the size last asked for, after one more request. */
  function After(held: map<nat, int>, r: Request): map<nat, int> {
    if r.Release? then held - {r.index} else held[r.index := r.size]
  }

  function Held(trace: seq<Request>): map<nat, int> {
    if trace == [] then map[] else After(Held(trace[..|trace| - 1]), trace[|trace| - 1])
  }

  ghost predicate WellFormed(trace: seq<Request>) {
    forall k :: 0 <= k < |trace| ==> Legal(trace[k], Held(trace[..k]))
  }

  /** An index is held exactly when the last request for it is no release, and then with the size of that request. */
  lemma {:induction false} HeldIsLast(trace: seq<Request>, i: nat, k: int)
    requires -1 <= k < |trace| && (k >= 0 ==> trace[k].index == i)
    requires forall j :: k < j < |trace| ==> trace[j].index != i
    ensures i in Held(trace) <==> k >= 0 && !trace[k].Release?
    ensures i in Held(trace) ==> Held(trace)[i] == trace[k].size
  {
    if k < |trace| - 1 {
      HeldIsLast(trace[..|trace| - 1], i, k);
    }
  }

  /** The word that memset(p, index & 0xFF, ...) leaves in every word it covers. */
  function Pattern(index: nat): Word {
    index % 256 * 0x0101_0101
  }

  /** The first n bytes from p are filled with words v. */
  ghost predicate Filled(m: seq<Word>, p: int, n: int, v: Word) {
    0 <= p && p + n <= |m| && forall k {:trigger WordAddr(k)} :: 0 <= k < n && WordAddr(k) ==> m[p + k] == v
  }

  /** What the driver knows: which index holds which block, and what it wrote there. */
  ghost predicate Tracked(m: seq<Word>, live: map<int, int>, ptrs: map<nat, int>, owner: map<int, nat>) {
    && (forall i :: i in ptrs ==> ptrs[i] in owner && owner[ptrs[i]] == i)
    && (forall b :: b in owner <==> b in live)
    && (forall b :: b in owner ==> owner[b] in ptrs && ptrs[owner[b]] == b && Filled(m, b, live[b], Pattern(owner[b])))
  }

  /** add_range's tests: aligned, inside the heap, and overlapping no recorded range at either end. */
  predicate RangeOk(h: Heap, ranges: map<int, int>, lo: int, size: int)
    reads h
  {
    var hi := lo + size - 1;
    && lo % 8 == 0
    && 0 <= lo && hi <= h.brk - 1
    && forall p :: p in ranges ==> !(p <= lo <= ranges[p]) && !(p <= hi <= ranges[p])
  }

  lemma FirstWord()
    ensures WordAddr(0)
  {
  }

  lemma WordSum(p: int, j: int)
    requires WordAddr(p) && WordAddr(j)
    ensures WordAddr(p + j) && WordAddr(j + WSIZE)
  {
  }

  lemma BetweenWords(j: int)
    requires WordAddr(j)
    ensures forall k {:trigger WordAddr(k)} :: j < k < j + WSIZE ==> !WordAddr(k)
  {
  }

  /** A word that starts inside the payload ends inside it, and the next one is a word further. */
  lemma Step(p: int, j: int, end: int)
    requires WordAddr(p) && WordAddr(j) && j < end && Multiple8(end + 8)
    ensures j + WSIZE <= end && WordAddr(p + j) && WordAddr(j + WSIZE)
    ensures forall k {:trigger WordAddr(k)} :: j < k < j + WSIZE ==> !WordAddr(k)
  {
    hide WordAddr, Multiple8;
    WordSum(p, j);
    BetweenWords(j);
    WholeWord(j, end);
  }

  lemma WholeWord(j: int, end: int)
    requires WordAddr(j) && j < end && Multiple8(end + 8)
    ensures j + WSIZE <= end
  {
  }

  lemma PayloadOf(h: Heap, p: int)
    requires h.Valid() && p in h.live
    ensures h.Ready({}) && Served(h.blocks, h.live) && Live(h.blocks, p) && 0 <= p && WordAddr(p)
            && Multiple8(h.blocks[p].size)
    ensures 0 < h.live[p] <= h.blocks[p].size - 8 && p + h.blocks[p].size <= h.brk <= h.mem.Length
  {
    assert AlignedAt(h.blocks, p);
  }

  lemma WriteReady(h: Heap, m: seq<Word>, p: int)
    requires Threaded(m, h.blocks, h.brk, h.lists, {}) && h.mem.Length < 0x8000_0000 && h.heapListp == HEADS
    requires Served(h.blocks, h.live) && p in h.live && |m| == h.mem.Length
    requires forall q :: 0 <= q < |m| && !(p <= q < p + h.blocks[p].size - 8) ==> h.mem[q] == m[q]
    ensures h.Valid()
  {
    WriteThreaded(m, h.mem[..], h.blocks, h.brk, h.lists, p);
  }

  /** memset over a live block. */
  method Fill(h: Heap, p: int, size: int, v: Word)
    requires h.Valid() && p in h.live && size == h.live[p]
    modifies h.mem
    ensures h.Valid() && Filled(h.mem[..], p, size, v)
    ensures forall q :: 0 <= q < h.mem.Length && !(p <= q < p + h.blocks[p].size - 8) ==> h.mem[q] == old(h.mem[q])
  {
    hide Heap.Valid, WordAddr, Multiple8;
    PayloadOf(h, p);
    ghost var m, end := h.mem[..], h.blocks[p].size - 8;
    FirstWord();
    var j := 0;
    while j < size
      invariant 0 <= j <= end && WordAddr(j) && WordAddr(p)
      invariant h.mem.Length == |m|
      invariant forall k {:trigger WordAddr(k)} :: 0 <= k < j && k < end && WordAddr(k) ==> h.mem[p + k] == v
      invariant forall q :: 0 <= q < |m| && !(p <= q < p + end) ==> h.mem[q] == m[q]
    {
      Step(p, j, end);
      h.Put(p + j, v);
      j := j + WSIZE;
    }
    WriteReady(h, m, p);
  }

  /** The driver's test after mm_realloc. */
  method Intact(h: Heap, p: int, n: int, v: Word) returns (ok: bool)
    requires h.Valid() && 0 <= p && WordAddr(p) && p + n <= h.mem.Length
    ensures ok <==> Filled(h.mem[..], p, n, v)
  {
    hide Heap.Valid, WordAddr;
    FirstWord();
    var j := 0;
    while j < n
      invariant 0 <= j && WordAddr(j)
      invariant forall k {:trigger WordAddr(k)} :: 0 <= k < j && k < n && WordAddr(k) ==> h.mem[p + k] == v
    {
      WordSum(p, j);
      if h.Get(p + j) != v {
        return false;
      }
      BetweenWords(j);
      j := j + WSIZE;
    }
    return true;
  }

  /** The recorded ranges are those of the live requests. */
  ghost predicate Ranges(ranges: map<int, int>, live: map<int, int>) {
    && (forall p :: p in ranges <==> p in live)
    && (forall p :: p in ranges ==> ranges[p] == p + live[p] - 1)
  }

  /** A block just served passes the tests of add_range against the ranges of the others. */
  lemma RangeFits(h: Heap, ranges: map<int, int>, r: int)
    requires h.Valid() && r in h.live && Ranges(ranges, h.live - {r})
    ensures RangeOk(h, ranges, r, h.live[r])
  {
    hide Heap.Valid;
    LivePayloads(h);
    forall p | p in ranges ensures !(p <= r <= ranges[p]) && !(p <= r + h.live[r] - 1 <= ranges[p]) {
      assert p in h.live && p != r;
    }
  }

  lemma RangesPlus(ranges: map<int, int>, live: map<int, int>, p: int)
    requires p in live && Ranges(ranges, live - {p})
    ensures Ranges(ranges[p := p + live[p] - 1], live)
  {
  }

  lemma FilledKept(m: seq<Word>, m': seq<Word>, blocks: Blocks, blocks': Blocks, live: map<int, int>, x: int, b: int,
                   v: Word)
    requires Spared(m, m', blocks, blocks', live, x) && Served(blocks, live) && b in live && b != x
    requires Filled(m, b, live[b], v)
    ensures Filled(m', b, live[b], v)
  {
    assert Untouched(m, m', blocks, blocks', b);
    forall k {:trigger WordAddr(k)} | 0 <= k < live[b] && WordAddr(k) ensures m'[b + k] == m[b + k] {
      assert m'[b..b + (blocks[b].size - 8)][k] == m[b..b + (blocks[b].size - 8)][k];
    }
  }

  /** All blocks but x keep their fill; x, if it is gone from the books, no longer matters. */
  lemma TrackedKept(m: seq<Word>, m': seq<Word>, blocks: Blocks, blocks': Blocks, live: map<int, int>,
                    ptrs: map<nat, int>, owner: map<int, nat>, x: int)
    requires Tracked(m, live, ptrs, owner) && Served(blocks, live) && Spared(m, m', blocks, blocks', live, x)
    requires x in owner
    ensures Tracked(m', live - {x}, ptrs - {owner[x]}, owner - {x})
  {
    forall b | b in owner && b != x ensures Filled(m', b, live[b], Pattern(owner[b])) {
      FilledKept(m, m', blocks, blocks', live, x, b, Pattern(owner[b]));
    }
  }

  lemma TrackedAll(m: seq<Word>, m': seq<Word>, blocks: Blocks, blocks': Blocks, live: map<int, int>,
                   ptrs: map<nat, int>, owner: map<int, nat>)
    requires Tracked(m, live, ptrs, owner) && Served(blocks, live) && Spared(m, m', blocks, blocks', live, 0)
             && 0 !in live
    ensures Tracked(m', live, ptrs, owner)
  {
    forall b | b in owner ensures Filled(m', b, live[b], Pattern(owner[b])) {
      FilledKept(m, m', blocks, blocks', live, 0, b, Pattern(owner[b]));
    }
  }

  /** Entering a filled block in the books. */
  lemma TrackedPlus(m: seq<Word>, m': seq<Word>, blocks: Blocks, live: map<int, int>, live': map<int, int>,
                    ptrs: map<nat, int>, owner: map<int, nat>, i: nat, r: int)
    requires Tracked(m, live, ptrs, owner) && Served(blocks, live')
    requires i !in ptrs && r !in live && r in live' && live == live' - {r}
    requires Filled(m', r, live'[r], Pattern(i)) && |m'| == |m|
    requires forall q :: 0 <= q < |m| && !(r <= q < r + blocks[r].size - 8) ==> m'[q] == m[q]
    requires forall b :: b in live ==> r + blocks[r].size <= b || b + blocks[b].size <= r
    ensures Tracked(m', live', ptrs[i := r], owner[r := i])
  {
  }

  lemma BlocksApart(h: Heap, r: int)
    requires h.Valid() && r in h.live
    ensures 0 !in h.live
    ensures forall b :: b in h.live && b != r ==> r + h.blocks[r].size <= b || b + h.blocks[b].size <= r
  {
  }

  /** The bytes that survive mm_realloc carry the fill. */
  lemma FilledMoved(m: seq<Word>, m': seq<Word>, ptr: int, r: int, n: int, oldsize: int, size: int, v: Word)
    requires Filled(m, ptr, oldsize, v) && KeepsWords(m, m', ptr, r, n)
    requires 0 < size && 0 < oldsize && Min(oldsize, size) <= n
    ensures Filled(m', r, Min(oldsize, size), v)
  {
    forall k {:trigger WordAddr(k)} | 0 <= k < Min(oldsize, size) && WordAddr(k) ensures m'[r + k] == v {
      assert m'[r..r + n][k] == m[ptr..ptr + n][k];
    }
  }

  ghost predicate Books(h: Heap, ranges: map<int, int>, ptrs: map<nat, int>, owner: map<int, nat>)
    reads h, h.mem
  {
    h.Valid() && h.heapListp != 0 && Ranges(ranges, h.live) && Tracked(h.mem[..], h.live, ptrs, owner)
  }

  lemma BooksNull(h: Heap, ranges: map<int, int>, ptrs: map<nat, int>, owner: map<int, nat>)
    requires Books(h, ranges, ptrs, owner)
    ensures 0 !in h.live && Served(h.blocks, h.live)
  {
  }

  lemma FilledNone(m: seq<Word>, p: int, v: Word)
    requires 0 <= p <= |m|
    ensures Filled(m, p, 0, v)
  {
  }

  lemma BooksOf(h: Heap, ranges: map<int, int>, ptrs: map<nat, int>, owner: map<int, nat>, i: nat)
    requires Books(h, ranges, ptrs, owner) && i in ptrs
    ensures var p := ptrs[i];
            && p in h.live && p in owner && owner[p] == i && Served(h.blocks, h.live)
            && p in h.blocks && Filled(h.mem[..], p, h.live[p], Pattern(i)) && 0 < h.live[p] <= h.blocks[p].size - 8
            && p in ranges && ranges[p] - p + 1 == h.live[p] && Ranges(ranges - {p}, h.live - {p})
  {
  }

  /** For a block just served: add_range, the test that its first n bytes still carry the old fill, and memset. */
  method Record(h: Heap, i: nat, p: int, size: int, n: int, ranges: map<int, int>, ptrs: map<nat, int>,
                ghost owner: map<int, nat>)
    returns (verdict: Verdict, ranges': map<int, int>, ptrs': map<nat, int>, ghost owner': map<int, nat>)
    requires h.Valid() && h.heapListp != 0 && p in h.live && size == h.live[p] && i !in ptrs
    requires Ranges(ranges, h.live - {p}) && Tracked(h.mem[..], h.live - {p}, ptrs, owner)
    requires 0 <= n <= size && Filled(h.mem[..], p, n, Pattern(i))
    modifies h.mem
    ensures verdict == Passed && Books(h, ranges', ptrs', owner')
    ensures ptrs' == ptrs[i := p]
  {
    hide Heap.Valid, Ranges, Tracked, Filled, Served;
    ghost var m := h.mem[..];
    RangeFits(h, ranges, p);
    verdict, ranges', ptrs', owner' := Passed, ranges, ptrs, owner;
    if !RangeOk(h, ranges, p, size) {
      verdict := BadRange;
      return;
    }
    ranges' := ranges[p := p + size - 1];
    RangesPlus(ranges, h.live, p);
    PayloadOf(h, p);
    var intact := Intact(h, p, n, Pattern(i));
    if !intact {
      verdict := DataLost;
      return;
    }
    BlocksApart(h, p);
    Fill(h, p, size, Pattern(i));
    TrackedPlus(m, h.mem[..], h.blocks, h.live - {p}, h.live, ptrs, owner, i, p);
    ptrs', owner' := ptrs[i := p], owner[p := i];
  }

  /** What mm_realloc leaves behind: the other blocks as they were, and the old fill at the new place. */
  lemma ReallocKeeps(m: seq<Word>, m': seq<Word>, blocks: Blocks, blocks': Blocks, live: map<int, int>,
                     ptrs: map<nat, int>, owner: map<int, nat>, i: nat, newp: int, size: int)
    requires Tracked(m, live, ptrs, owner) && Served(blocks, live) && i in ptrs && newp in blocks'
    requires var p := ptrs[i];
             && p in live && p in owner && owner[p] == i && p in blocks && Spared(m, m', blocks, blocks', live, p)
             && Filled(m, p, live[p], Pattern(i)) && 0 < live[p] <= blocks[p].size - 8
             && KeepsWords(m, m', p, newp, Min(blocks[p].size, blocks'[newp].size) - 8)
    requires 0 < size <= blocks'[newp].size - 8
    ensures var p := ptrs[i];
            && Tracked(m', live - {p}, ptrs - {i}, owner - {p})
            && Filled(m', newp, Min(live[p], size), Pattern(i))
  {
    hide Tracked, Filled, Served, Spared, KeepsWords;
    var p := ptrs[i];
    TrackedKept(m, m', blocks, blocks', live, ptrs, owner, p);
    FilledMoved(m, m', p, newp, Min(blocks[p].size, blocks'[newp].size) - 8, live[p], size, Pattern(i));
  }

  /** ALLOC: mm_malloc, add_range, memset. */
  method DoAlloc(h: Heap, i: nat, size: int, ranges: map<int, int>, ptrs: map<nat, int>, ghost owner: map<int, nat>)
    returns (verdict: Verdict, ranges': map<int, int>, ptrs': map<nat, int>, ghost owner': map<int, nat>)
    requires Books(h, ranges, ptrs, owner) && i !in ptrs && 0 < size < 0x7FFF_FFF0
    modifies h, h.mem
    ensures verdict == Passed || verdict == OutOfMemory
    ensures verdict == OutOfMemory <==>
              NoneFits(old(h.blocks), AdjustedSize(size)) && old(h.brk) + AdjustedSize(size) > h.mem.Length
    ensures verdict == Passed ==> Books(h, ranges', ptrs', owner') && i in ptrs' && ptrs' == ptrs[i := ptrs'[i]]
    ensures verdict == Passed ==> ptrs'[i] !in old(h.live) && h.live == old(h.live)[ptrs'[i] := size]
    ensures verdict == Passed ==> old(h.brk) <= h.brk <= old(h.brk) + AdjustedSize(size)
    ensures Separated(old(h.blocks)) ==> Separated(h.blocks)
  {
    hide Heap.Valid, Tracked, Spared, Filled, Served, Separated;
    ranges', ptrs', owner' := ranges, ptrs, owner;
    ghost var m, blocks, live := h.mem[..], h.blocks, h.live;
    BooksNull(h, ranges, ptrs, owner);
    var p := h.Malloc(size);
    if p == 0 {
      return OutOfMemory, ranges', ptrs', owner';
    }
    ghost var m1, blocks1 := h.mem[..], h.blocks;
    TrackedAll(m, m1, blocks, blocks1, live, ptrs, owner);
    assert h.live - {p} == live;
    PayloadOf(h, p);
    FilledNone(m1, p, Pattern(i));
    verdict, ranges', ptrs', owner' := Record(h, i, p, size, 0, ranges, ptrs, owner);
  }

  lemma Rebind(ptrs: map<nat, int>, i: nat, p: int)
    ensures (ptrs - {i})[i := p] == ptrs[i := p] && (ptrs - {i})[i := p][i] == p
  {
  }

  /** REALLOC: mm_realloc, remove_range, add_range, the data test, memset. */
  method DoRealloc(h: Heap, i: nat, size: int, ranges: map<int, int>, ptrs: map<nat, int>, ghost owner: map<int, nat>)
    returns (verdict: Verdict, ranges': map<int, int>, ptrs': map<nat, int>, ghost owner': map<int, nat>)
    requires Books(h, ranges, ptrs, owner) && i in ptrs && 0 < size < 0x7FFF_FFF0
    modifies h, h.mem
    ensures verdict == Passed || verdict == OutOfMemory
    ensures verdict == OutOfMemory <==>
              && ptrs[i] in old(h.blocks) && Cramped(old(h.blocks), ptrs[i], AdjustedSize(size))
              && NoneFits(old(h.blocks), AdjustedSize(size)) && old(h.brk) + AdjustedSize(size) > h.mem.Length
    ensures verdict == Passed ==> Books(h, ranges', ptrs', owner') && i in ptrs' && ptrs' == ptrs[i := ptrs'[i]]
    ensures verdict == Passed ==>
              && ptrs'[i] !in old(h.live) - {ptrs[i]}
              && h.live == (old(h.live) - {ptrs[i]})[ptrs'[i] := size]
    ensures verdict == Passed ==> old(h.brk) <= h.brk <= old(h.brk) + AdjustedSize(size)
  {
    hide Heap.Valid, Ranges, Tracked, Spared, Filled, Served, KeepsWords, Cramped, ReallocPairs, Resized, Separated,
         Threaded, AdjustedSize, NoneFits;
    ranges', ptrs', owner' := ranges, ptrs, owner;
    var oldp := ptrs[i];
    ghost var m, blocks, live := h.mem[..], h.blocks, h.live;
    BooksNull(h, ranges, ptrs, owner);
    BooksOf(h, ranges, ptrs, owner, i);
    var oldsize := ranges[oldp] - oldp + 1;
    var newp := h.Realloc(oldp, size);
    if newp == 0 {
      return OutOfMemory, ranges', ptrs', owner';
    }
    ghost var m1, blocks1 := h.mem[..], h.blocks;
    assert h.live - {newp} == live - {oldp};
    Rebind(ptrs, i, newp);
    PayloadOf(h, newp);
    ReallocKeeps(m, m1, blocks, blocks1, live, ptrs, owner, i, newp, size);
    verdict, ranges', ptrs', owner' :=
      Record(h, i, newp, size, Min(oldsize, size), ranges - {oldp}, ptrs - {i}, owner - {oldp});
  }

  /** FREE: remove_range, mm_free. */
  method DoRelease(h: Heap, i: nat, ranges: map<int, int>, ptrs: map<nat, int>, ghost owner: map<int, nat>)
    returns (ranges': map<int, int>, ptrs': map<nat, int>, ghost owner': map<int, nat>)
    requires Books(h, ranges, ptrs, owner) && i in ptrs
    modifies h, h.mem
    ensures Books(h, ranges', ptrs', owner') && ptrs' == ptrs - {i}
    ensures h.live == old(h.live) - {ptrs[i]} && h.brk == old(h.brk)
    ensures Separated(old(h.blocks)) ==> Separated(h.blocks)
  {
    hide Heap.Valid, Ranges, Tracked, Spared, Filled, Served, Separated;
    ghost var m, blocks, live := h.mem[..], h.blocks, h.live;
    BooksOf(h, ranges, ptrs, owner, i);
    BooksNull(h, ranges, ptrs, owner);
    var p := ptrs[i];
    ranges' := ranges - {p};
    h.Free(p);
    TrackedKept(m, h.mem[..], blocks, h.blocks, live, ptrs, owner, p);
    ptrs', owner' := ptrs - {i}, owner - {p};
  }

  /** The blocks of the trace are the live payloads, at the addresses of ptrs, each carrying its fill. */
  ghost predicate Delivered(h: Heap, held: map<nat, int>, ptrs: map<nat, int>)
    reads h, h.mem
  {
    Matches(h.live, held, ptrs) && forall i :: i in ptrs ==> Filled(h.mem[..], ptrs[i], held[i], Pattern(i))
  }

  lemma BooksDeliver(h: Heap, held: map<nat, int>, ranges: map<int, int>, ptrs: map<nat, int>, owner: map<int, nat>)
    requires Books(h, ranges, ptrs, owner) && Matches(h.live, held, ptrs)
    ensures Delivered(h, held, ptrs) && h.Valid() && Weight(held) <= h.brk - FIRST
  {
    hide Filled, Weight;
    LiveLoad(h);
    WeightHeld(h.live, held, ptrs);
  }

  /** The room that the requests held after the first k take. */
  ghost function Load(trace: seq<Request>, k: nat): int
    requires k <= |trace|
  {
    Weight(Held(trace[..k]))
  }

  lemma HeldStep(trace: seq<Request>, k: nat)
    requires k < |trace|
    ensures Held(trace[..k + 1]) == After(Held(trace[..k]), trace[k])
  {
    assert trace[..k + 1][..k] == trace[..k];
  }

  lemma NothingHeld(m: seq<Word>)
    ensures Held([]) == map[] && Matches(map[], map[], map[]) && Ranges(map[], map[]) && Tracked(m, map[], map[], map[])
  {
  }

  /** One request of the trace. */
  method Perform(h: Heap, r: Request, ranges: map<int, int>, ptrs: map<nat, int>,
                 ghost owner: map<int, nat>, ghost held: map<nat, int>)
    returns (verdict: Verdict, ranges': map<int, int>, ptrs': map<nat, int>, ghost owner': map<int, nat>)
    requires Books(h, ranges, ptrs, owner) && Matches(h.live, held, ptrs) && Legal(r, held)
    modifies h, h.mem
    ensures verdict == Passed || verdict == OutOfMemory
    ensures verdict == OutOfMemory ==> old(h.brk) + Need(r) > h.mem.Length
    ensures verdict == Passed ==> Books(h, ranges', ptrs', owner') && Matches(h.live, After(held, r), ptrs')
    ensures verdict == Passed ==> old(h.brk) <= h.brk <= old(h.brk) + Need(r)
    ensures !r.Realloc? && Separated(old(h.blocks)) ==> Separated(h.blocks)
  {
    hide Books, Separated, AdjustedSize, NoneFits, Cramped, Matches;
    MatchFacts(h.live, held, ptrs);
    ghost var live := h.live;
    match r {
      case Alloc(i, size) =>
        verdict, ranges', ptrs', owner' := DoAlloc(h, i, size, ranges, ptrs, owner);
        if verdict == Passed {
          MatchMore(live, held, ptrs, i, ptrs'[i], size);
        }
      case Realloc(i, size) =>
        verdict, ranges', ptrs', owner' := DoRealloc(h, i, size, ranges, ptrs, owner);
        if verdict == Passed {
          MatchAgain(live, held, ptrs, i, ptrs'[i], size);
        }
      case Release(i) =>
        verdict := Passed;
        ranges', ptrs', owner' := DoRelease(h, i, ranges, ptrs, owner);
        MatchLess(live, held, ptrs, i);
    }
  }

  /**
    eval_mm_valid: on every well-formed trace, of any length, the allocator passes every test the
    driver makes, unless it runs out of memory, and it cannot when there is memory for all requests
    side by side. In the end the live payloads are the blocks of the trace, with their sizes and fills,
    and the heap has at some time had room for all that was held; as long as nothing is reallocated,
    no two adjacent blocks are both free.
    */
  method EvalValid(h: Heap, trace: seq<Request>) returns (verdict: Verdict, ptrs: map<nat, int>)
    requires h.mem.Length < 0x8000_0000 && h.brk == 0 && WellFormed(trace)
    modifies h, h.mem
    ensures verdict == Passed || verdict == OutOfMemory
    ensures verdict == OutOfMemory ==> FIRST + Demand(trace) > h.mem.Length
    ensures verdict == Passed ==> h.Valid() && Delivered(h, Held(trace), ptrs)
    ensures verdict == Passed ==> forall k :: 0 <= k <= |trace| ==> Load(trace, k) <= h.brk - FIRST
    ensures verdict == Passed && (forall k :: 0 <= k < |trace| ==> !trace[k].Realloc?) ==> Separated(h.blocks)
  {
    hide Heap.Valid, Tracked, Ranges, Separated, Matches, Filled, Need, Held, After, Legal, Delivered;
    DemandNatural(trace);
    ptrs := map[];
    var r := h.Init();
    if r < 0 {
      return OutOfMemory, ptrs;
    }
    var ranges: map<int, int> := map[];
    ghost var owner: map<int, nat> := map[];
    NothingHeld(h.mem[..]);
    BooksDeliver(h, map[], ranges, ptrs, owner);
    assert trace[0..] == trace && trace[..0] == [];
    var k := 0;
    while k < |trace|
      invariant 0 <= k <= |trace| && Books(h, ranges, ptrs, owner) && Matches(h.live, Held(trace[..k]), ptrs)
      invariant forall j :: 0 <= j <= k ==> Load(trace, j) <= h.brk - FIRST
      invariant (forall j :: 0 <= j < k ==> !trace[j].Realloc?) ==> Separated(h.blocks)
      invariant h.brk + Demand(trace[k..]) <= FIRST + Demand(trace)
    {
      DemandNatural(trace[k + 1..]);
      assert trace[k..][0] == trace[k] && trace[k..][1..] == trace[k + 1..];
      HeldStep(trace, k);
      verdict, ranges, ptrs, owner := Perform(h, trace[k], ranges, ptrs, owner, Held(trace[..k]));
      if verdict != Passed {
        return;
      }
      k := k + 1;
      BooksDeliver(h, Held(trace[..k]), ranges, ptrs, owner);
    }
    assert trace[..k] == trace;
    BooksDeliver(h, Held(trace), ranges, ptrs, owner);
    verdict := Passed;
  }
}
