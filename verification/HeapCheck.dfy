/** checkheap and checklist, and what every reachable heap guarantees its clients. */
module HeapCheck {
  import opened HeapWords
  import opened HeapLayout
  import opened FreeLists
  import opened HeapState
  import opened Allocator

  ghost function FreeBlocks(blocks: Blocks): set<int> {
    set b | b in blocks && !blocks[b].alloc
  }

  ghost function FreeBelow(blocks: Blocks, bp: int): set<int> {
    set b | b in blocks && !blocks[b].alloc && b < bp
  }

  lemma FreeStep(m: seq<Word>, blocks: Blocks, end: int, lists: seq<seq<int>>, bp: int)
    requires Threaded(m, blocks, end, lists, {}) && bp in blocks
    ensures FreeBelow(blocks, bp + blocks[bp].size) == FreeBelow(blocks, bp) + (if blocks[bp].alloc then {} else {bp})
  {
  }

  lemma FreeAll(m: seq<Word>, blocks: Blocks, end: int, lists: seq<seq<int>>)
    requires Threaded(m, blocks, end, lists, {})
    ensures FreeBelow(blocks, end) == FreeBlocks(blocks)
    ensures FreeBelow(blocks, PROLOGUE) == {} && PROLOGUE in blocks && blocks[PROLOGUE] == Block(64, true)
            && m[end - 4] == Tag(0, true)
    ensures FIRST <= end <= |m|
  {
  }

  lemma SameTag(m: seq<Word>, blocks: Blocks, end: int, lists: seq<seq<int>>, bp: int)
    requires Threaded(m, blocks, end, lists, {}) && bp in blocks
    ensures 4 <= bp && bp + blocks[bp].size - 8 < |m| && m[bp - 4] == m[bp + blocks[bp].size - 8]
  {
  }

  /** checkblock: the number of complaints. */
  method CheckBlock(h: Heap, bp: int) returns (errors: int)
    requires h.Ready({}) && bp in h.blocks
    ensures errors == 0
  {
    hide Threaded;
    ReadTags(h.mem[..], h.blocks, h.brk, h.lists, {}, bp);
    SameTag(h.mem[..], h.blocks, h.brk, h.lists, bp);
    errors := 0;
    if bp % 8 != 0 {
      errors := errors + 1;
    }
    if h.Get(bp - WSIZE) != h.Get(bp + h.HdrSize(bp) - DSIZE) {
      errors := errors + 1;
    }
  }

  /** The free blocks of the classes below index. */
  ghost function Classed(blocks: Blocks, index: int): set<int> {
    set b | b in blocks && !blocks[b].alloc && 0 < blocks[b].size < 0x8000_0000 && ListIndex(blocks[b].size) < index
  }

  ghost function Prefix(l: seq<int>, k: int): set<int> {
    set j | 0 <= j < k && j < |l| :: l[j]
  }

  lemma NoPrefix(l: seq<int>)
    ensures Prefix(l, 0) == {}
  {
  }

  lemma NewMember(m: seq<Word>, blocks: Blocks, end: int, lists: seq<seq<int>>, i: int, k: int)
    requires Threaded(m, blocks, end, lists, {}) && |lists| == BASE_PTR_CNT && 0 <= i < BASE_PTR_CNT
             && 0 <= k < |lists[i]|
    ensures lists[i][k] !in Classed(blocks, i) + Prefix(lists[i], k)
    ensures Classed(blocks, i) + Prefix(lists[i], k + 1) == Classed(blocks, i) + Prefix(lists[i], k) + {lists[i][k]}
  {
    MemberIs(m, blocks, end, lists, i, k);
    assert LinksOk(m, lists, i);
    assert Prefix(lists[i], k + 1) == Prefix(lists[i], k) + {lists[i][k]};
  }

  lemma ClassDone(m: seq<Word>, blocks: Blocks, end: int, lists: seq<seq<int>>, i: int)
    requires Threaded(m, blocks, end, lists, {}) && |lists| == BASE_PTR_CNT && 0 <= i < BASE_PTR_CNT
    ensures Classed(blocks, i + 1) == Classed(blocks, i) + Prefix(lists[i], |lists[i]|)
  {
    forall k | 0 <= k < |lists[i]| ensures lists[i][k] in Classed(blocks, i + 1) {
      MemberIs(m, blocks, end, lists, i, k);
    }
    forall b | b in Classed(blocks, i + 1) && b !in Classed(blocks, i) ensures b in Prefix(lists[i], |lists[i]|) {
      FreeIsListed(m, blocks, end, lists, b);
    }
  }

  lemma AllClassed(m: seq<Word>, blocks: Blocks, end: int, lists: seq<seq<int>>)
    requires Threaded(m, blocks, end, lists, {})
    ensures Classed(blocks, BASE_PTR_CNT) == FreeBlocks(blocks)
    ensures Classed(blocks, 0) == {}
  {
    forall b | b in blocks && !blocks[b].alloc
      ensures 0 < blocks[b].size < 0x8000_0000 && 0 <= ListIndex(blocks[b].size) < BASE_PTR_CNT
    {
      FreeIsListed(m, blocks, end, lists, b);
    }
  }

  /** checklist: the number of listed blocks, or -1 on a block outside the heap or not free. */
  method CheckList(h: Heap) returns (count: int)
    requires h.Ready({})
    ensures count == |FreeBlocks(h.blocks)|
  {
    hide Threaded, Classed, Prefix, SizeOf, AllocOf, WordAddr, ListIndex;
    count := 0;
    ghost var m, seen := h.mem[..], {};
    ThreadedLists(m, h.blocks, h.brk, h.lists, 1);
    AllClassed(m, h.blocks, h.brk, h.lists);
    var index := 0;
    while index < BASE_PTR_CNT
      invariant 0 <= index <= BASE_PTR_CNT
      invariant count == |seen| && seen == Classed(h.blocks, index)
    {
      ghost var l, k := h.lists[index], 0;
      MemberIs(m, h.blocks, h.brk, h.lists, index, 0);
      HeadAligned(m, h.blocks, h.brk, h.lists, {}, index);
      var bp: int := h.Get(h.heapListp + index * WSIZE);
      NoPrefix(l);
      assert seen == Classed(h.blocks, index) + {};
      while bp != 0
        invariant 0 <= k <= |l| && bp == At(l, k) && (bp == 0 ==> k == |l|)
        invariant count == |seen| && seen == Classed(h.blocks, index) + Prefix(l, k)
        decreases |l| - k
      {
        MemberIs(m, h.blocks, h.brk, h.lists, index, k);
        MemberIs(m, h.blocks, h.brk, h.lists, index, k + 1);
        ReadTags(m, h.blocks, h.brk, h.lists, {}, bp);
        if bp <= 0 || bp >= h.brk - 1 {
          return -1;
        }
        if h.HdrAlloc(bp) {
          return -1;
        }
        NewMember(m, h.blocks, h.brk, h.lists, index, k);
        seen := seen + {bp};
        count := count + 1;
        bp := h.Get(bp + WSIZE);
        k := k + 1;
      }
      ClassDone(m, h.blocks, h.brk, h.lists, index);
      index := index + 1;
    }
  }

  lemma HeaderAt(m: seq<Word>, blocks: Blocks, end: int, lists: seq<seq<int>>, bp: int)
    requires Threaded(m, blocks, end, lists, {}) && (bp in blocks || bp == end)
    ensures bp in blocks ==> bp != end && bp >= PROLOGUE && blocks[bp].size > 0
  {
  }

  /** checkheap: the number of complaints, and the number of free blocks met on the walk. */
  method CheckHeap(h: Heap) returns (errors: int, count: int)
    requires h.Ready({})
    ensures errors == 0 && count == |FreeBlocks(h.blocks)|
  {
    hide Threaded, SizeOf, AllocOf;
    ghost var m := h.mem[..];
    errors, count := 0, 0;
    var bp := h.heapListp;
    FreeAll(m, h.blocks, h.brk, h.lists);
    ReadTags(m, h.blocks, h.brk, h.lists, {}, bp);
    if h.HdrSize(bp) != 16 * WSIZE || !h.HdrAlloc(bp) {
      errors := errors + 1;
    }
    var e := CheckBlock(h, bp);
    errors := errors + e;
    HeaderAt(m, h.blocks, h.brk, h.lists, bp);
    while h.HdrSize(bp) > 0
      invariant bp in h.blocks || bp == h.brk
      invariant 4 <= bp <= h.brk <= |m| && WordAddr(bp - WSIZE)
      invariant h.HdrSize(bp) == (if bp == h.brk then 0 else h.blocks[bp].size)
      invariant h.HdrAlloc(bp) == (bp == h.brk || h.blocks[bp].alloc)
      invariant errors == 0 && count == |FreeBelow(h.blocks, bp)|
      decreases h.brk - bp
    {
      HeaderAt(m, h.blocks, h.brk, h.lists, bp);
      ReadTags(m, h.blocks, h.brk, h.lists, {}, bp);
      ReadNext(m, h.blocks, h.brk, h.lists, {}, bp);
      e := CheckBlock(h, bp);
      errors := errors + e;
      FreeStep(m, h.blocks, h.brk, h.lists, bp);
      if !h.HdrAlloc(bp) {
        count := count + 1;
      }
      bp := h.NextBlkp(bp);
    }
    HeaderAt(m, h.blocks, h.brk, h.lists, bp);
    if h.HdrSize(bp) != 0 || !h.HdrAlloc(bp) {
      errors := errors + 1;
    }
    var listed := CheckList(h);
    if count != listed {
      errors := errors + 1;
    }
  }

  /** The blocks from b to the epilogue, in address order. */
  ghost function Walk(blocks: Blocks, end: int, b: int): seq<int>
    requires Shape(blocks, end)
    decreases end - b
  {
    if b !in blocks then [] else [b] + Walk(blocks, end, b + blocks[b].size)
  }

  ghost function TotalSize(blocks: Blocks, walk: seq<int>): int {
    if walk == [] then 0
    else (if walk[0] in blocks then blocks[walk[0]].size else 0) + TotalSize(blocks, walk[1..])
  }

  ghost predicate Ascending(s: seq<int>) {
    forall i, j :: 0 <= i < j < |s| ==> s[i] < s[j]
  }

  lemma AscendingNone()
    ensures Ascending([])
  {
  }

  lemma AscendingCons(b: int, s: seq<int>)
    requires Ascending(s) && forall x :: x in s ==> b < x
    ensures Ascending([b] + s)
  {
    forall k | 0 <= k < |s| ensures b < s[k] {
      assert s[k] in s;
    }
  }

  lemma WalkStep(m: seq<Word>, blocks: Blocks, end: int, lists: seq<seq<int>>, b: int)
    requires Threaded(m, blocks, end, lists, {}) && b in blocks
    ensures var n := b + blocks[b].size;
            && Shape(blocks, end) && b < n <= end && (n in blocks || n == end)
            && forall x :: x in blocks && b <= x <==> x == b || (x in blocks && n <= x)
  {
    assert NextOk(blocks, end, b);
  }

  lemma WalkEnd(m: seq<Word>, blocks: Blocks, end: int, lists: seq<seq<int>>)
    requires Threaded(m, blocks, end, lists, {})
    ensures Shape(blocks, end) && forall x :: x in blocks ==> x < end
  {
  }

  /** Walking by sizes meets every block from b on, once, in address order. */
  lemma {:induction false} WalkMeetsAll(m: seq<Word>, blocks: Blocks, end: int, lists: seq<seq<int>>, b: int)
    requires Threaded(m, blocks, end, lists, {}) && Shape(blocks, end) && (b in blocks || b == end)
    ensures forall x :: x in Walk(blocks, end, b) <==> x in blocks && b <= x
    ensures Ascending(Walk(blocks, end, b))
    decreases end - b
  {
    hide Threaded, Shape, Ascending;
    WalkEnd(m, blocks, end, lists);
    if b in blocks {
      WalkStep(m, blocks, end, lists, b);
      var rest := Walk(blocks, end, b + blocks[b].size);
      WalkMeetsAll(m, blocks, end, lists, b + blocks[b].size);
      AscendingCons(b, rest);
    } else {
      AscendingNone();
    }
  }

  /** The sizes met on the way add up to the space covered. */
  lemma {:induction false} WalkTiles(m: seq<Word>, blocks: Blocks, end: int, lists: seq<seq<int>>, b: int)
    requires Threaded(m, blocks, end, lists, {}) && Shape(blocks, end) && (b in blocks || b == end)
    ensures TotalSize(blocks, Walk(blocks, end, b)) == end - b
    decreases end - b
  {
    hide Threaded, Shape;
    WalkEnd(m, blocks, end, lists);
    if b in blocks {
      WalkStep(m, blocks, end, lists, b);
      WalkTiles(m, blocks, end, lists, b + blocks[b].size);
      assert ([b] + Walk(blocks, end, b + blocks[b].size))[1..] == Walk(blocks, end, b + blocks[b].size);
    }
  }

  /** Everything mem_sbrk handed out after the prologue is in blocks, and the sizes of those blocks add up to it. */
  lemma HeapGrowth(h: Heap)
    requires h.Ready({})
    ensures var walk := Walk(h.blocks, h.brk, FIRST);
            && (forall x :: x in walk <==> x in h.blocks && x != PROLOGUE) && Ascending(walk)
            && TotalSize(h.blocks, walk) == h.brk - FIRST
  {
    assert NextOk(h.blocks, h.brk, PROLOGUE);
    WalkMeetsAll(h.mem[..], h.blocks, h.brk, h.lists, FIRST);
    WalkTiles(h.mem[..], h.blocks, h.brk, h.lists, FIRST);
  }

  /** Live payloads are aligned, inside the heap, large enough, and pairwise disjoint. */
  lemma LivePayloads(h: Heap)
    requires h.Valid()
    ensures forall b :: b in h.live ==>
              b % 8 == 0 && FIRST <= b && 0 < h.live[b] <= h.blocks[b].size - 8 && b + h.live[b] <= h.brk - 8
    ensures forall b, c :: b in h.live && c in h.live && b != c ==> b + h.live[b] <= c || c + h.live[c] <= b
  {
    forall b | b in h.live
      ensures b % 8 == 0 && FIRST <= b && 0 < h.live[b] <= h.blocks[b].size - 8 && b + h.live[b] <= h.brk - 8
    {
      assert AlignedAt(h.blocks, b);
    }
  }

  /** In memory every header equals its footer and says size and status; the epilogue is (0, allocated). */
  lemma TagsAgree(h: Heap)
    requires h.Ready({})
    ensures forall b :: b in h.blocks ==>
              && 8 <= b && 16 <= h.blocks[b].size && b + h.blocks[b].size <= h.brk <= h.mem.Length
              && b % 8 == 0 && h.blocks[b].size % 8 == 0
              && h.mem[b - 4] == h.mem[b + h.blocks[b].size - 8]
              && SizeOf(h.mem[b - 4]) == h.blocks[b].size && AllocOf(h.mem[b - 4]) == h.blocks[b].alloc
    ensures 4 <= h.brk <= h.mem.Length && SizeOf(h.mem[h.brk - 4]) == 0 && AllocOf(h.mem[h.brk - 4])
  {
    forall b | b in h.blocks
      ensures 8 <= b && 16 <= h.blocks[b].size && b + h.blocks[b].size <= h.brk <= h.mem.Length
              && b % 8 == 0 && h.blocks[b].size % 8 == 0
              && h.mem[b - 4] == h.mem[b + h.blocks[b].size - 8]
              && SizeOf(h.mem[b - 4]) == h.blocks[b].size && AllocOf(h.mem[b - 4]) == h.blocks[b].alloc
    {
      ReadTags(h.mem[..], h.blocks, h.brk, h.lists, {}, b);
      SameTag(h.mem[..], h.blocks, h.brk, h.lists, b);
    }
    TagFields(0, true);
  }

  /** Each free block is on one list, that of its size class, once; nothing else is; the links are mutually inverse. */
  ghost predicate IndexExact(m: seq<Word>, blocks: Blocks, lists: seq<seq<int>>) {
    && |lists| == BASE_PTR_CNT
    && (forall b :: b in blocks && !blocks[b].alloc ==>
          && 0 < blocks[b].size < 0x8000_0000
          && 0 <= ListIndex(blocks[b].size) < BASE_PTR_CNT && b in lists[ListIndex(blocks[b].size)])
    && (forall i, k :: 0 <= i < BASE_PTR_CNT && 0 <= k < |lists[i]| ==> MemberExact(m, blocks, lists, i, k))
    && (forall i, j, k :: 0 <= i < BASE_PTR_CNT && 0 <= j < k < |lists[i]| ==> lists[i][j] != lists[i][k])
  }

  ghost predicate MemberExact(m: seq<Word>, blocks: Blocks, lists: seq<seq<int>>, i: int, k: int)
    requires |lists| == BASE_PTR_CNT && 0 <= i < BASE_PTR_CNT && 0 <= k < |lists[i]|
  {
    var b := lists[i][k];
    && b in blocks && !blocks[b].alloc && 0 < blocks[b].size < 0x8000_0000 && ListIndex(blocks[b].size) == i
    && 0 <= b && b + 4 < |m| && m[b] == At(lists[i], k - 1) && m[b + 4] == At(lists[i], k + 1)
  }

  lemma MemberLinks(m: seq<Word>, blocks: Blocks, end: int, lists: seq<seq<int>>, i: int, k: int)
    requires Threaded(m, blocks, end, lists, {}) && |lists| == BASE_PTR_CNT && 0 <= i < BASE_PTR_CNT
             && 0 <= k < |lists[i]|
    ensures MemberExact(m, blocks, lists, i, k)
  {
    MemberIs(m, blocks, end, lists, i, k);
    LinksAreFree(m, blocks, end, lists, {}, i, k);
  }

  lemma MembersDiffer(m: seq<Word>, blocks: Blocks, end: int, lists: seq<seq<int>>, i: int, j: int, k: int)
    requires Threaded(m, blocks, end, lists, {}) && |lists| == BASE_PTR_CNT && 0 <= i < BASE_PTR_CNT
             && 0 <= j < k < |lists[i]|
    ensures lists[i][j] != lists[i][k]
  {
    assert LinksOk(m, lists, i);
  }

  /** In every reachable state the fourteen lists index the free blocks exactly. */
  lemma ListsIndexFreeBlocks(m: seq<Word>, blocks: Blocks, end: int, lists: seq<seq<int>>)
    requires Threaded(m, blocks, end, lists, {})
    ensures IndexExact(m, blocks, lists)
  {
    hide Threaded, ListIndex, MemberExact;
    ThreadedLists(m, blocks, end, lists, 1);
    forall b | b in blocks && !blocks[b].alloc
      ensures 0 < blocks[b].size < 0x8000_0000 && 0 <= ListIndex(blocks[b].size) < BASE_PTR_CNT
              && b in lists[ListIndex(blocks[b].size)]
    {
      FreeIsListed(m, blocks, end, lists, b);
    }
    forall i, k | 0 <= i < BASE_PTR_CNT && 0 <= k < |lists[i]| ensures MemberExact(m, blocks, lists, i, k) {
      MemberLinks(m, blocks, end, lists, i, k);
    }
    forall i, j, k | 0 <= i < BASE_PTR_CNT && 0 <= j < k < |lists[i]| ensures lists[i][j] != lists[i][k] {
      MembersDiffer(m, blocks, end, lists, i, j, k);
    }
  }
}
