/** Growing a block over its neighbours, and writing into payloads. */
module HeapMoves {
  import opened HeapWords
  import opened HeapLayout
  import opened FreeLists
  import opened HeapState
  import opened HeapAdjacency

  /** The n bytes at dst are those that were at src; nothing else differs. */
  ghost predicate Copied(m: seq<Word>, m': seq<Word>, src: int, dst: int, n: int) {
    && KeepsWords(m, m', src, dst, n) && |m'| == |m|
    && forall p :: 0 <= p < |m| && !(dst <= p < dst + n) ==> m'[p] == m[p]
  }

  /** Block ptr became block r, with its first n payload bytes; other clients see nothing. */
  ghost predicate Moved(m: seq<Word>, m': seq<Word>, blocks: Blocks, blocks': Blocks, ptr: int, r: int, n: int) {
    && Live(blocks', r) && (r == ptr || !Live(blocks, r)) && KeepsWords(m, m', ptr, r, n)
    && (forall b :: Live(blocks', b) <==> (Live(blocks, b) && b != ptr) || b == r)
    && (forall b {:trigger Untouched(m, m', blocks, blocks', b)} :: Live(blocks, b) && b != ptr ==>
      Untouched(m, m', blocks, blocks', b))
  }

  /** Writing inside one live payload leaves tiling and lists alone. */
  lemma WriteThreaded(m: seq<Word>, m': seq<Word>, blocks: Blocks, end: int, lists: seq<seq<int>>, x: int)
    requires Threaded(m, blocks, end, lists, {}) && Live(blocks, x) && |m'| == |m|
    requires forall p :: 0 <= p < |m| && !(x <= p < x + blocks[x].size - 8) ==> m'[p] == m[p]
    ensures Threaded(m', blocks, end, lists, {})
    ensures forall b {:trigger Untouched(m, m', blocks, blocks, b)} :: Live(blocks, b) && b != x ==>
              Untouched(m, m', blocks, blocks, b)
  {
    forall b ensures SameTags(m, m', blocks, b) {
      if b in blocks && InPayload(blocks, x, b - 4) {
        PayloadIsNoTag(blocks, end, x, b - 4, b);
      }
      if b in blocks && InPayload(blocks, x, b + blocks[b].size - 8) {
        PayloadIsNoTag(blocks, end, x, b + blocks[b].size - 8, b);
      }
    }
    assert x + blocks[x].size <= end;
    TiledFrame(m, m', blocks, end);
    var cls := FreeClasses(blocks, end, {});
    forall b | b in blocks && b != x ensures forall p :: b <= p < b + blocks[b].size - 8 ==> m'[p] == m[p] {
      PayloadsApart(blocks, end, x, b);
    }
    forall c | c in cls ensures SameLinks(m, m', c) {
      PayloadsApart(blocks, end, x, c);
    }
    PayloadsApart(blocks, end, x, PROLOGUE);
    IndexedFrame(m, m', lists, cls);
  }

  lemma PayloadsApart(blocks: Blocks, end: int, x: int, b: int)
    requires Shape(blocks, end) && x in blocks && b in blocks && b != x
    ensures x + blocks[x].size <= b || b + blocks[b].size <= x
  {
  }

  /** The blocks of a stretch, the free ones among them unlisted, become one allocated block. */
  lemma AbsorbThreaded(m: seq<Word>, m': seq<Word>, blocks: Blocks, end: int, lists: seq<seq<int>>, out: set<int>,
                       lo: int, bp: int, hi: int)
    requires Stretch(blocks, lo, bp, hi) && Threaded(m, blocks, end, lists, out)
    requires out <= Merged(blocks, lo, bp, hi)
    requires forall b :: b in Merged(blocks, lo, bp, hi) && !blocks[b].alloc ==> b in out
    requires SameOutside(m, m', lo, hi) && Tagged(m', lo, hi - lo, true)
    ensures var blocks' := Carve(blocks, lo, hi, hi, true, false);
            && Threaded(m', blocks', end, lists, {})
            && lo in blocks' && blocks'[lo] == Block(hi - lo, true) && Multiple8(hi - lo)
    ensures KeepsOutside(m, m', blocks, lo, hi)
  {
    hide Threaded, KeepsOutside, SameOutside, Tagged;
    StretchFacts(m, blocks, end, lists, out, lo, bp, hi);
    SpanAligned(lo, hi);
    RetileThreaded(m, m', blocks, end, lists, out, lo, hi, hi, true, false, {});
  }

  lemma SpanAligned(lo: int, hi: int)
    requires Multiple8(lo) && Multiple8(hi)
    ensures Multiple8(hi - lo) && hi % 8 == 0
  {
  }

  lemma StretchFacts(m: seq<Word>, blocks: Blocks, end: int, lists: seq<seq<int>>, out: set<int>, lo: int, bp: int,
                     hi: int)
    requires Stretch(blocks, lo, bp, hi) && Threaded(m, blocks, end, lists, out)
    ensures Span(blocks, end, lo, hi) && lo + 16 <= hi <= end <= |m| && FIRST <= lo && Multiple8(lo) && Multiple8(hi)
    ensures forall x :: x in Merged(blocks, lo, bp, hi) ==> lo <= x < hi
    ensures forall b :: b in blocks && lo <= b < hi ==> b in Merged(blocks, lo, bp, hi)
  {
    StretchSpan(blocks, end, lo, bp, hi);
    StretchAligned(blocks, end, lo, bp, hi);
  }

  /** Unlink (m1), absorb (m2), place (m3): the block at ptr has moved to lo. */
  lemma GrowMoves(m: seq<Word>, m1: seq<Word>, m2: seq<Word>, m3: seq<Word>, blocks: Blocks, end: int,
                  lists: seq<seq<int>>, lo: int, ptr: int, hi: int, newsize: int, n: int)
    requires Threaded(m, blocks, end, lists, {}) && Stretch(blocks, lo, ptr, hi) && Live(blocks, ptr)
    requires forall x :: x in Merged(blocks, lo, ptr, hi) && x != ptr ==> !blocks[x].alloc
    requires 16 <= newsize <= hi - lo && 0 <= n <= newsize - 8
    requires KeepsLive(m, m1, blocks) && KeepsOutside(m1, m2, blocks, lo, hi) && KeepsWords(m1, m2, ptr, lo, n)
    requires n <= blocks[ptr].size - 8
    requires var blocks1 := Carve(blocks, lo, hi, hi, true, false);
             && lo in blocks1 && KeepsOutside(m2, m3, blocks1, lo, hi)
             && lo in Placed(blocks1, lo, newsize)
             && KeepsWords(m2, m3, lo, lo, Placed(blocks1, lo, newsize)[lo].size - 8)
    ensures Moved(m, m3, blocks, Placed(Carve(blocks, lo, hi, hi, true, false), lo, newsize), ptr, lo, n)
  {
    hide KeepsLive, KeepsOutside, KeepsWords, Untouched, Threaded, Carve, Placed;
    var blocks1 := Carve(blocks, lo, hi, hi, true, false);
    var blocks2 := Placed(blocks1, lo, newsize);
    ReadTags(m, blocks, end, lists, {}, ptr);
    StretchFacts(m, blocks, end, lists, {}, lo, ptr, hi);
    KeepsBlock(m, m1, blocks, ptr);
    GrownLive(blocks, lo, hi, newsize, lo);
    KeepsThrice(m, m1, m2, m3, ptr, lo, n, blocks[ptr].size - 8, blocks2[lo].size - 8);
    forall b ensures Live(blocks2, b) <==> (Live(blocks, b) && b != ptr) || b == lo {
      GrownLive(blocks, lo, hi, newsize, b);
    }
    OthersUntouched(m, m1, m2, m3, blocks, end, lists, lo, ptr, hi, newsize);
  }

  lemma OthersUntouched(m: seq<Word>, m1: seq<Word>, m2: seq<Word>, m3: seq<Word>, blocks: Blocks, end: int,
                        lists: seq<seq<int>>, lo: int, ptr: int, hi: int, newsize: int)
    requires Threaded(m, blocks, end, lists, {}) && Stretch(blocks, lo, ptr, hi)
    requires forall x :: x in Merged(blocks, lo, ptr, hi) && x != ptr ==> !blocks[x].alloc
    requires 16 <= newsize <= hi - lo
    requires KeepsLive(m, m1, blocks) && KeepsOutside(m1, m2, blocks, lo, hi)
    requires KeepsOutside(m2, m3, Carve(blocks, lo, hi, hi, true, false), lo, hi)
    ensures var blocks2 := Placed(Carve(blocks, lo, hi, hi, true, false), lo, newsize);
            forall b {:trigger Untouched(m, m3, blocks, blocks2, b)} :: Live(blocks, b) && b != ptr ==>
              Untouched(m, m3, blocks, blocks2, b)
  {
    hide KeepsLive, KeepsOutside, KeepsWords, Untouched, Threaded, Carve, Placed;
    StretchFacts(m, blocks, end, lists, {}, lo, ptr, hi);
    GrownLive(blocks, lo, hi, newsize, lo);
    var blocks2 := Placed(Carve(blocks, lo, hi, hi, true, false), lo, newsize);
    forall b | Live(blocks, b) && b != ptr ensures Untouched(m, m3, blocks, blocks2, b) {
      GrownUntouched(m, m1, m2, m3, blocks, end, lists, lo, hi, newsize, b);
    }
  }

  lemma KeepsThrice(m: seq<Word>, m1: seq<Word>, m2: seq<Word>, m3: seq<Word>, ptr: int, lo: int, n: int, n1: int,
                    n2: int)
    requires 0 <= n <= n1 && n <= n2
    requires KeepsWords(m, m1, ptr, ptr, n1) && KeepsWords(m1, m2, ptr, lo, n) && KeepsWords(m2, m3, lo, lo, n2)
    ensures KeepsWords(m, m3, ptr, lo, n)
  {
    assert m1[ptr..ptr + n] == m1[ptr..ptr + n1][..n] && m[ptr..ptr + n] == m[ptr..ptr + n1][..n];
    assert m3[lo..lo + n] == m3[lo..lo + n2][..n] && m2[lo..lo + n] == m2[lo..lo + n2][..n];
  }

  lemma GrownLive(blocks: Blocks, lo: int, hi: int, newsize: int, b: int)
    requires lo in blocks && lo != PROLOGUE && 16 <= newsize <= hi - lo
    ensures lo in Carve(blocks, lo, hi, hi, true, false)
    ensures var blocks2 := Placed(Carve(blocks, lo, hi, hi, true, false), lo, newsize);
            && (!(lo <= b < hi) && b in blocks ==> b in blocks2 && blocks2[b] == blocks[b])
            && (Live(blocks2, b) <==> (Live(blocks, b) && !(lo <= b < hi)) || b == lo)
            && blocks2[lo].size >= newsize
  {
  }

  lemma GrownUntouched(m: seq<Word>, m1: seq<Word>, m2: seq<Word>, m3: seq<Word>, blocks: Blocks, end: int,
                       lists: seq<seq<int>>, lo: int, hi: int, newsize: int, b: int)
    requires Threaded(m, blocks, end, lists, {}) && Live(blocks, b) && !(lo <= b < hi) && lo != PROLOGUE
    requires lo in blocks && 16 <= newsize <= hi - lo
    requires KeepsLive(m, m1, blocks) && KeepsOutside(m1, m2, blocks, lo, hi)
    requires KeepsOutside(m2, m3, Carve(blocks, lo, hi, hi, true, false), lo, hi)
    ensures Untouched(m, m3, blocks, Placed(Carve(blocks, lo, hi, hi, true, false), lo, newsize), b)
  {
    hide Threaded;
    hide Carve, Placed;
    GrownLive(blocks, lo, hi, newsize, b);
    CarveLive(blocks, lo, hi, hi, true, false, b);
    ReadTags(m, blocks, end, lists, {}, b);
    assert KeepsWords(m, m3, b, b, blocks[b].size - 8);
  }

  /** The heap that mm_init builds. */
  lemma EmptyHeap(m: seq<Word>, lists: seq<seq<int>>)
    requires FIRST <= |m| && m[4] == Tag(64, true) && m[64] == Tag(64, true) && m[68] == Tag(0, true)
    requires forall j :: 0 <= j < BASE_PTR_CNT ==> m[HEADS + WSIZE * j] == 0
    requires |lists| == BASE_PTR_CNT && forall i :: 0 <= i < BASE_PTR_CNT ==> lists[i] == []
    ensures var blocks := map[PROLOGUE := Block(64, true)];
            Threaded(m, blocks, FIRST, lists, {}) && Separated(blocks) && Served(blocks, map[])
  {
    var blocks := map[PROLOGUE := Block(64, true)];
    TagFields(64, true);
    assert Shape(blocks, FIRST);
    forall b ensures AlignedAt(blocks, b) {
    }
    assert PrevOk(m, blocks, FIRST);
    var cls := FreeClasses(blocks, FIRST, {});
    assert cls == map[];
    forall i ensures LinksOk(m, lists, i) {
      if 0 <= i < BASE_PTR_CNT {
        assert m[HEADS + WSIZE * i] == 0 && Spread(m, lists[i]);
      }
    }
    assert Indexed(m, lists, cls);
  }

  /** Neither neighbour of ptr, nor both together, can make room for newsize bytes. */
  ghost predicate Cramped(blocks: Blocks, ptr: int, newsize: int)
    requires ptr in blocks
  {
    && blocks[ptr].size < newsize
    && !RoomAfter(blocks, ptr, newsize) && !RoomBefore(blocks, ptr, newsize) && !RoomAround(blocks, ptr, newsize)
  }

  ghost predicate RoomAfter(blocks: Blocks, ptr: int, newsize: int)
    requires ptr in blocks
  {
    var n := ptr + blocks[ptr].size;
    n in blocks && !blocks[n].alloc && blocks[ptr].size + blocks[n].size >= newsize
  }

  ghost predicate FreeBefore(blocks: Blocks, ptr: int, p: int) {
    p in blocks && p + blocks[p].size == ptr && !blocks[p].alloc
  }

  ghost predicate RoomBefore(blocks: Blocks, ptr: int, newsize: int)
    requires ptr in blocks
  {
    exists p :: FreeBefore(blocks, ptr, p) && blocks[ptr].size + blocks[p].size >= newsize
  }

  ghost predicate RoomAround(blocks: Blocks, ptr: int, newsize: int)
    requires ptr in blocks
  {
    var n := ptr + blocks[ptr].size;
    && n in blocks && !blocks[n].alloc
    && exists p :: FreeBefore(blocks, ptr, p) && blocks[ptr].size + blocks[n].size + blocks[p].size >= newsize
  }

  /** Where the block that extend_heap adds at end begins: at the free block that ends there, if there is one. */
  ghost predicate Last(blocks: Blocks, end: int, r: int) {
    (r == end || FreeBefore(blocks, end, r)) && forall p :: FreeBefore(blocks, end, p) ==> r == p
  }

  /** Coalescing a new last block merges it with a free block before it, and touches no other. */
  lemma CoalescedLast(m: seq<Word>, blocks: Blocks, blocks': Blocks, end: int, lists: seq<seq<int>>, size: int, r: int)
    requires Threaded(m, blocks, end, lists, {}) && size > 0
             && Coalesced(blocks[end := Block(size, false)], blocks', end, r)
    ensures Last(blocks, end, r) && blocks' == Carve(blocks, r, end + size, end + size, false, false)
  {
    hide Carve;
    var blocks1 := blocks[end := Block(size, false)];
    assert end !in blocks && end + size !in blocks1;
    assert forall p :: FreeBefore(blocks, end, p) ==> p in blocks1 && p + blocks1[p].size == end;
    CarveNew(blocks, end, size, r);
  }

  lemma CarveNew(blocks: Blocks, end: int, size: int, r: int)
    requires r <= end < end + size
    ensures Carve(blocks[end := Block(size, false)], r, end + size, end + size, false, false)
            == Carve(blocks, r, end + size, end + size, false, false)
  {
  }

  /** bp becomes free and merges with its free neighbours to a block at r; no other block changes. */
  ghost predicate ReleasedTo(blocks: Blocks, blocks': Blocks, bp: int, r: int)
    requires bp in blocks
  {
    var hi := bp + blocks[bp].size;
    Coalesced(Carve(blocks, bp, hi, hi, false, false), blocks', bp, r)
  }

  ghost predicate Released(blocks: Blocks, blocks': Blocks, bp: int) {
    bp in blocks && exists r :: ReleasedTo(blocks, blocks', bp, r)
  }

  /**
    When mm_realloc leaves two adjacent free blocks in a heap that had none: it splits a remainder off
    in front of a free block, either by shrinking in place or by sliding into the block before alone.
    */
  ghost predicate ReallocPairs(blocks: Blocks, ptr: int, newsize: int)
    requires ptr in blocks
  {
    var n := ptr + blocks[ptr].size;
    && n in blocks && !blocks[n].alloc
    && if newsize <= blocks[ptr].size then blocks[ptr].size - newsize >= 2 * DSIZE
       else !RoomAfter(blocks, ptr, newsize)
            && exists p :: FreeBefore(blocks, ptr, p) && blocks[ptr].size + blocks[p].size - newsize >= 2 * DSIZE
  }

  /** [lo, hi) as one allocated block, trimmed to newsize by place. */
  ghost function Regrown(blocks: Blocks, lo: int, hi: int, newsize: int): Blocks {
    Placed(Carve(blocks, lo, hi, hi, true, false), lo, newsize)
  }

  /** Absorbing a stretch of free blocks and allocating part of it. */
  lemma GrowSeparated(m: seq<Word>, blocks: Blocks, end: int, lists: seq<seq<int>>, lo: int, ptr: int, hi: int,
                      newsize: int)
    requires Threaded(m, blocks, end, lists, {}) && Stretch(blocks, lo, ptr, hi) && Separated(blocks)
    requires 16 <= newsize <= hi - lo
    ensures var blocks1 := Carve(blocks, lo, hi, hi, true, false);
            Separated(Placed(blocks1, lo, newsize)) <==>
              !(hi - lo - newsize >= 2 * DSIZE && hi in blocks && !blocks[hi].alloc)
  {
    hide Threaded, Separated, Shape, Carve, Placed;
    AbsorbedSeparated(m, blocks, end, lists, lo, ptr, hi);
    PlacedSeparated(Carve(blocks, lo, hi, hi, true, false), end, lo, newsize);
  }

  lemma AbsorbedSeparated(m: seq<Word>, blocks: Blocks, end: int, lists: seq<seq<int>>, lo: int, ptr: int, hi: int)
    requires Threaded(m, blocks, end, lists, {}) && Stretch(blocks, lo, ptr, hi) && Separated(blocks)
    ensures var blocks1 := Carve(blocks, lo, hi, hi, true, false);
            && Shape(blocks1, end) && Separated(blocks1)
            && lo in blocks1 && blocks1[lo] == Block(hi - lo, true)
            && (hi in blocks1 <==> hi in blocks) && (hi in blocks ==> blocks1[hi] == blocks[hi])
  {
    var blocks1 := Carve(blocks, lo, hi, hi, true, false);
    StretchFacts(m, blocks, end, lists, {}, lo, ptr, hi);
    CarveShape(blocks, end, lo, hi, hi, true, false);
    forall b ensures !FreePair(blocks1, b) {
      assert !FreePair(blocks, b);
      AbsorbedPair(blocks, end, lo, hi, b);
    }
  }

  lemma AbsorbedPair(blocks: Blocks, end: int, lo: int, hi: int, b: int)
    requires Shape(blocks, end) && Span(blocks, end, lo, hi) && !FreePair(blocks, b)
    ensures !FreePair(Carve(blocks, lo, hi, hi, true, false), b)
  {
    if b in blocks && !(lo <= b < hi) {
      EndsOutside(blocks, end, lo, hi, b);
    }
  }

  /** After a move: who is served. */
  lemma MovedServed(m: seq<Word>, m': seq<Word>, blocks: Blocks, blocks': Blocks, live: map<int, int>, ptr: int,
                    r: int, n: int, size: int)
    requires Served(blocks, live) && ptr in live && Moved(m, m', blocks, blocks', ptr, r, n)
    requires r in blocks' && 0 < size <= blocks'[r].size - 8
    ensures (r == ptr || r !in live) && KeepsWords(m, m', ptr, r, n)
    ensures Served(blocks', (live - {ptr})[r := size]) && Spared(m, m', blocks, blocks', live, ptr)
  {
    forall b | b in live && b != ptr ensures blocks'[b] == blocks[b] {
      assert Untouched(m, m', blocks, blocks', b);
    }
  }

  /** The stores of the in-place growth of mm_realloc: tags of the stretch, then the payload slides down. */
  lemma SlideStored(m: seq<Word>, m1: seq<Word>, m2: seq<Word>, lo: int, ptr: int, size: int, n: int)
    requires TagsPut(m, m1, lo, size, true) && Copied(m1, m2, ptr, lo, n)
    requires 4 <= lo <= ptr && 0 <= n && ptr + n <= lo + size - 8
    ensures SameOutside(m, m2, lo, lo + size) && Tagged(m2, lo, size, true) && KeepsWords(m, m2, ptr, lo, n)
  {
    forall p | ptr <= p < ptr + n ensures m1[p] == m[p] {
      assert m1[lo..lo + size - 8][p - lo] == m[lo..lo + size - 8][p - lo];
    }
    assert m1[ptr..ptr + n] == m[ptr..ptr + n];
  }

  lemma CopiedSelf(m: seq<Word>, ptr: int, n: int)
    requires 0 <= ptr && 0 <= n && ptr + n <= |m|
    ensures Copied(m, m, ptr, ptr, n)
  {
  }

  lemma StretchSize(lo: int, size: int)
    requires Multiple8(lo) && Multiple8(lo + size)
    ensures Multiple8(size)
  {
  }

  /** In a heap without adjacent free blocks, no free block follows a free one. */
  lemma AfterFree(m: seq<Word>, blocks: Blocks, end: int, lists: seq<seq<int>>, n: int)
    requires Threaded(m, blocks, end, lists, {}) && n in blocks && !blocks[n].alloc
    ensures Separated(blocks) ==> n + blocks[n].size !in blocks || blocks[n + blocks[n].size].alloc
  {
    if Separated(blocks) {
      assert !FreePair(blocks, n);
    }
  }

  /** Trimming a live block in place. */
  lemma ShrinkMoves(m: seq<Word>, m': seq<Word>, blocks: Blocks, end: int, lists: seq<seq<int>>, ptr: int, newsize: int)
    requires Threaded(m, blocks, end, lists, {}) && Live(blocks, ptr) && 16 <= newsize <= blocks[ptr].size
    requires KeepsOutside(m, m', blocks, ptr, ptr + blocks[ptr].size)
    requires ptr in Placed(blocks, ptr, newsize)
    requires KeepsWords(m, m', ptr, ptr, Placed(blocks, ptr, newsize)[ptr].size - 8)
    ensures var blocks' := Placed(blocks, ptr, newsize);
            && Moved(m, m', blocks, blocks', ptr, ptr, blocks'[ptr].size - 8)
            && newsize <= blocks'[ptr].size <= blocks[ptr].size
    ensures Separated(blocks) ==> (Separated(Placed(blocks, ptr, newsize)) <==> !ReallocPairs(blocks, ptr, newsize))
  {
    PlaceSeen(m, m', blocks, end, lists, {}, ptr, newsize);
    if Separated(blocks) {
      PlacedSeparated(blocks, end, ptr, newsize);
    }
  }

  /** mm_realloc by malloc (m1), memmove (m2) and free (m3). */
  lemma RelocateSeen(m: seq<Word>, m1: seq<Word>, m2: seq<Word>, m3: seq<Word>,
                     blocks: Blocks, blocks1: Blocks, blocks2: Blocks, end: int, lists: seq<seq<int>>,
                     live: map<int, int>, ptr: int, r: int, size: int)
    requires Served(blocks, live) && ptr in live && Spared(m, m1, blocks, blocks1, live, 0) && 0 !in live
    requires Served(blocks1, live[r := size]) && r !in live && r in blocks1
    requires ptr in blocks && blocks1[r].size >= blocks[ptr].size >= 8
    requires Threaded(m1, blocks1, end, lists, {}) && Copied(m1, m2, ptr, r, blocks[ptr].size - 8)
    requires Spared(m2, m3, blocks1, blocks2, live[r := size], ptr)
    ensures live[r := size] - {ptr} == (live - {ptr})[r := size]
    ensures Spared(m, m3, blocks, blocks2, live, ptr)
    ensures ptr in blocks1 && r in blocks2 && blocks2[r] == blocks1[r]
            && KeepsWords(m, m3, ptr, r, blocks[ptr].size - 8)
  {
    assert r in live[r := size] && Untouched(m2, m3, blocks1, blocks2, r);
    assert Untouched(m, m1, blocks, blocks1, ptr);
    var n := blocks[ptr].size - 8;
    KeepsThrice(m, m1, m2, m3, ptr, r, n, n, blocks1[r].size - 8);
    WriteThreaded(m1, m2, blocks1, end, lists, r);
    hide Threaded, KeepsWords, Copied;
    forall b | b in live && b != ptr ensures Untouched(m, m3, blocks, blocks2, b) {
      assert Untouched(m, m1, blocks, blocks1, b);
      assert Untouched(m1, m2, blocks1, blocks1, b);
      assert b in live[r := size] && Untouched(m2, m3, blocks1, blocks2, b);
      UntouchedTwice(m, m1, m2, blocks, blocks1, blocks1, b);
      UntouchedTwice(m, m2, m3, blocks, blocks1, blocks2, b);
    }
  }

  lemma SparedOne(m: seq<Word>, m': seq<Word>, blocks: Blocks, blocks': Blocks, live: map<int, int>, b: int)
    requires Spared(m, m', blocks, blocks', live, 0) && b in live && b != 0
    ensures Untouched(m, m', blocks, blocks', b)
  {
  }

  lemma CopyReady(m: seq<Word>, m': seq<Word>, blocks: Blocks, end: int, lists: seq<seq<int>>, live: map<int, int>,
                  x: int, src: int, n: int)
    requires Threaded(m, blocks, end, lists, {}) && Served(blocks, live) && x in live
    requires Copied(m, m', src, x, n) && n <= blocks[x].size - 8
    ensures Threaded(m', blocks, end, lists, {})
  {
    WriteThreaded(m, m', blocks, end, lists, x);
  }

  lemma Adjusted(size: int)
    requires 0 < size < 0x7FFF_FFF0
    ensures Multiple8(AdjustedSize(size)) && 16 <= AdjustedSize(size) < 0x8000_0000 && size <= AdjustedSize(size) - 8
  {
  }

  /** The tests of mm_realloc decide which case applies. */
  lemma RoomIs(m: seq<Word>, blocks: Blocks, end: int, lists: seq<seq<int>>, ptr: int, p: int, newsize: int)
    requires Threaded(m, blocks, end, lists, {}) && ptr in blocks && p in blocks && p + blocks[p].size == ptr
    requires blocks[ptr].size < newsize
    ensures var n := ptr + blocks[ptr].size;
            var freeNext := n in blocks && !blocks[n].alloc;
            && (RoomAfter(blocks, ptr, newsize) <==> freeNext && blocks[ptr].size + blocks[n].size >= newsize)
            && (RoomBefore(blocks, ptr, newsize) <==> !blocks[p].alloc && blocks[ptr].size + blocks[p].size >= newsize)
            && (RoomAround(blocks, ptr, newsize) <==>
                 freeNext && !blocks[p].alloc && blocks[ptr].size + blocks[n].size + blocks[p].size >= newsize)
            && (ReallocPairs(blocks, ptr, newsize) <==>
                 && freeNext && !RoomAfter(blocks, ptr, newsize)
                 && !blocks[p].alloc && blocks[ptr].size + blocks[p].size - newsize >= 2 * DSIZE)
  {
    assert !blocks[p].alloc ==> FreeBefore(blocks, ptr, p);
    assert forall q :: FreeBefore(blocks, ptr, q) ==> q == p;
  }
}
