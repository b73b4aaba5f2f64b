/** Adjacent free blocks, and what clients see of a retiling. */
module HeapAdjacency {
  import opened HeapWords
  import opened HeapLayout
  import opened HeapState

  ghost predicate FreePair(blocks: Blocks, b: int) {
    && b in blocks && !blocks[b].alloc
    && b + blocks[b].size in blocks && !blocks[b + blocks[b].size].alloc
  }

  /** No two adjacent blocks are both free. */
  ghost predicate Separated(blocks: Blocks) {
    forall b {:trigger FreePair(blocks, b)} :: !FreePair(blocks, b)
  }

  /** ... unless one of the two is x. */
  ghost predicate SeparatedBut(blocks: Blocks, x: int) {
    forall b {:trigger FreePair(blocks, b)} :: FreePair(blocks, b) ==> b == x || b + blocks[b].size == x
  }

  /** Allocating the first asize bytes of bp splits off a remainder in front of a free block. */
  ghost predicate LeavesPair(blocks: Blocks, bp: int, asize: int)
    requires bp in blocks
  {
    && blocks[bp].size - asize >= 2 * DSIZE
    && bp + blocks[bp].size in blocks && !blocks[bp + blocks[bp].size].alloc
  }

  lemma PlacedPair(blocks: Blocks, end: int, bp: int, asize: int, b: int)
    requires Shape(blocks, end) && bp in blocks && bp != PROLOGUE && 16 <= asize <= blocks[bp].size
    requires !FreePair(blocks, b)
    ensures FreePair(Placed(blocks, bp, asize), b) ==> b == bp + asize && LeavesPair(blocks, bp, asize)
  {
    var blocks', hi := Placed(blocks, bp, asize), bp + blocks[bp].size;
    if b in blocks && b + blocks[b].size in blocks {
      assert b < bp ==> b + blocks[b].size <= bp;
    }
  }

  lemma PlacedSeparated(blocks: Blocks, end: int, bp: int, asize: int)
    requires Shape(blocks, end) && bp in blocks && bp != PROLOGUE && 16 <= asize <= blocks[bp].size
    requires Separated(blocks)
    ensures Separated(Placed(blocks, bp, asize)) <==> !LeavesPair(blocks, bp, asize)
  {
    var blocks' := Placed(blocks, bp, asize);
    forall b ensures FreePair(blocks', b) ==> b == bp + asize && LeavesPair(blocks, bp, asize) {
      assert !FreePair(blocks, b);
      PlacedPair(blocks, end, bp, asize, b);
    }
    if LeavesPair(blocks, bp, asize) {
      assert FreePair(blocks', bp + asize);
    }
  }

  lemma CoalescedSeparated(blocks: Blocks, blocks': Blocks, end: int, bp: int, r: int)
    requires Shape(blocks, end) && bp in blocks && Coalesced(blocks, blocks', bp, r)
    requires forall b {:trigger NextOk(blocks, end, b)} :: NextOk(blocks, end, b)
    requires SeparatedBut(blocks, bp)
    ensures Separated(blocks')
  {
    var hi := MergeEnd(blocks, bp);
    StretchSpan(blocks, end, r, bp, hi);
    forall b ensures !FreePair(blocks', b) {
      CoalescedPair(blocks, blocks', end, bp, r, b);
    }
  }

  lemma CoalescedPair(blocks: Blocks, blocks': Blocks, end: int, bp: int, r: int, b: int)
    requires Shape(blocks, end) && bp in blocks && Coalesced(blocks, blocks', bp, r)
    requires Span(blocks, end, r, MergeEnd(blocks, bp))
    requires SeparatedBut(blocks, bp)
    ensures !FreePair(blocks', b)
  {
    var n, hi := bp + blocks[bp].size, MergeEnd(blocks, bp);
    if b == r {
      assert !FreePair(blocks, n);
    } else if b in blocks && !(r <= b < hi) {
      EndsOutside(blocks, end, r, hi, b);
      assert !FreePair(blocks, b);
      CarvedPair(blocks, r, hi, b);
    }
  }

  lemma CarvedPair(blocks: Blocks, lo: int, hi: int, b: int)
    requires lo in blocks && !blocks[lo].alloc && lo < hi
    requires b in blocks && blocks[b].size > 0 && (b + blocks[b].size <= lo || hi <= b)
    requires !FreePair(blocks, b)
    ensures !FreePair(Carve(blocks, lo, hi, hi, false, false), b)
  {
  }

  /** Making one block free, or giving the heap a new last block, can only pair that block. */
  lemma FreedSeparated(blocks: Blocks, end: int, bp: int)
    requires Shape(blocks, end) && bp in blocks && bp != PROLOGUE && Separated(blocks)
    ensures var hi := bp + blocks[bp].size; SeparatedBut(Carve(blocks, bp, hi, hi, false, false), bp)
  {
    var hi := bp + blocks[bp].size;
    var blocks' := Carve(blocks, bp, hi, hi, false, false);
    forall b | FreePair(blocks', b) ensures b == bp || b + blocks'[b].size == bp {
      assert !FreePair(blocks, b);
      FreedPair(blocks, end, bp, b);
    }
  }

  lemma FreedPair(blocks: Blocks, end: int, bp: int, b: int)
    requires Shape(blocks, end) && bp in blocks && !FreePair(blocks, b)
    ensures var hi := bp + blocks[bp].size;
            var blocks' := Carve(blocks, bp, hi, hi, false, false);
            FreePair(blocks', b) ==> b == bp || b + blocks'[b].size == bp
  {
  }

  lemma ExtendedSeparated(blocks: Blocks, end: int, size: int)
    requires Shape(blocks, end) && Separated(blocks)
    ensures SeparatedBut(blocks[end := Block(size, false)], end)
  {
    var blocks' := blocks[end := Block(size, false)];
    forall b | FreePair(blocks', b) ensures b == end || b + blocks'[b].size == end {
      assert !FreePair(blocks, b);
    }
  }

  /** A client's block is where it was, as large as it was, and holds the same payload. */
  ghost predicate Untouched(m: seq<Word>, m': seq<Word>, blocks: Blocks, blocks': Blocks, b: int) {
    && Live(blocks, b) && Live(blocks', b) && blocks'[b] == blocks[b]
    && KeepsWords(m, m', b, b, blocks[b].size - 8)
  }

  lemma UntouchedTwice(m: seq<Word>, m1: seq<Word>, m2: seq<Word>, blocks: Blocks, blocks1: Blocks, blocks2: Blocks,
                       b: int)
    requires Untouched(m, m1, blocks, blocks1, b) && Untouched(m1, m2, blocks1, blocks2, b)
    ensures Untouched(m, m2, blocks, blocks2, b)
  {
  }

  /** Clients see only what happens to the blocks of the retiled stretch. */
  lemma CarveUntouched(m: seq<Word>, m': seq<Word>, blocks: Blocks, end: int, lo: int, mid: int, hi: int, a1: bool,
                       a2: bool, b: int)
    requires Shape(blocks, end) && end <= |m| && KeepsOutside(m, m', blocks, lo, hi)
    requires lo < mid <= hi && lo != PROLOGUE && Live(blocks, b) && !(lo <= b < hi)
    ensures Untouched(m, m', blocks, Carve(blocks, lo, mid, hi, a1, a2), b)
  {
  }

  /** Live blocks and only they, each with a payload that covers the request. */
  ghost predicate Served(blocks: Blocks, live: map<int, int>) {
    && (forall b :: b in live <==> Live(blocks, b))
    && (forall b :: b in live ==> 0 < live[b] <= blocks[b].size - 8)
  }

  ghost predicate SameLive(blocks: Blocks, blocks': Blocks) {
    forall b :: Live(blocks, b) <==> Live(blocks', b)
  }

  ghost predicate AllUntouched(m: seq<Word>, m': seq<Word>, blocks: Blocks, blocks': Blocks) {
    forall b {:trigger Untouched(m, m', blocks, blocks', b)} :: Live(blocks, b) ==> Untouched(m, m', blocks, blocks', b)
  }

  lemma AllUntouchedTwice(m: seq<Word>, m1: seq<Word>, m2: seq<Word>, blocks: Blocks, blocks1: Blocks, blocks2: Blocks)
    requires AllUntouched(m, m1, blocks, blocks1) && AllUntouched(m1, m2, blocks1, blocks2)
    ensures AllUntouched(m, m2, blocks, blocks2)
  {
    forall b | Live(blocks, b) ensures Untouched(m, m2, blocks, blocks2, b) {
      assert Untouched(m, m1, blocks, blocks1, b);
      assert Untouched(m1, m2, blocks1, blocks2, b);
      UntouchedTwice(m, m1, m2, blocks, blocks1, blocks2, b);
    }
  }

  /** coalesce is invisible to clients. */
  lemma CoalesceUnseen(m: seq<Word>, m': seq<Word>, blocks: Blocks, blocks': Blocks, end: int,
                       lists: seq<seq<int>>, out: set<int>, bp: int, r: int)
    requires Threaded(m, blocks, end, lists, out) && KeepsLive(m, m', blocks)
    requires bp in blocks && Coalesced(blocks, blocks', bp, r)
    ensures SameLive(blocks, blocks') && AllUntouched(m, m', blocks, blocks')
    ensures r in blocks' && !blocks'[r].alloc && blocks'[r].size >= blocks[bp].size
    ensures SeparatedBut(blocks, bp) ==> Separated(blocks')
  {
    var hi := MergeEnd(blocks, bp);
    StretchSpan(blocks, end, r, bp, hi);
    forall b ensures Live(blocks, b) <==> Live(blocks', b) {
      MergeLive(blocks, end, r, bp, hi, b);
    }
    forall b | Live(blocks, b) ensures Untouched(m, m', blocks, blocks', b) {
      MergeLive(blocks, end, r, bp, hi, b);
      KeepsBlock(m, m', blocks, b);
    }
    if SeparatedBut(blocks, bp) {
      CoalescedSeparated(blocks, blocks', end, bp, r);
    }
  }

  /** Growing the heap by a free block is invisible to clients. */
  lemma ExtendUnseen(m: seq<Word>, m': seq<Word>, blocks: Blocks, end: int, lists: seq<seq<int>>, out: set<int>,
                     size: int)
    requires Threaded(m, blocks, end, lists, out) && KeepsLive(m, m', blocks)
    ensures end !in blocks
    ensures var blocks' := blocks[end := Block(size, false)];
            SameLive(blocks, blocks') && AllUntouched(m, m', blocks, blocks')
    ensures Separated(blocks) ==> SeparatedBut(blocks[end := Block(size, false)], end)
  {
    var blocks' := blocks[end := Block(size, false)];
    forall b | Live(blocks, b) ensures Untouched(m, m', blocks, blocks', b) {
      KeepsBlock(m, m', blocks, b);
    }
    if Separated(blocks) {
      ExtendedSeparated(blocks, end, size);
    }
  }

  /** place of a free block: one more live block, the others untouched. */
  lemma PlaceSeen(m: seq<Word>, m': seq<Word>, blocks: Blocks, end: int, lists: seq<seq<int>>, out: set<int>, bp: int,
                  asize: int)
    requires Threaded(m, blocks, end, lists, out)
    requires bp in blocks && bp != PROLOGUE && 16 <= asize <= blocks[bp].size
    requires KeepsOutside(m, m', blocks, bp, bp + blocks[bp].size)
    ensures var blocks' := Placed(blocks, bp, asize);
            && (forall b :: Live(blocks', b) <==> Live(blocks, b) || b == bp)
            && blocks'[bp].size >= asize
            && forall b {:trigger Untouched(m, m', blocks, blocks', b)} :: Live(blocks, b) && b != bp ==>
              Untouched(m, m', blocks, blocks', b)
  {
    var blocks', hi := Placed(blocks, bp, asize), bp + blocks[bp].size;
    forall b | Live(blocks, b) && b != bp ensures Untouched(m, m', blocks, blocks', b) {
      if blocks[bp].size - asize >= 16 {
        CarveUntouched(m, m', blocks, end, bp, bp + asize, hi, true, false, b);
      } else {
        CarveUntouched(m, m', blocks, end, bp, hi, hi, true, false, b);
      }
    }
  }

  lemma EndAligned(m: seq<Word>, blocks: Blocks, end: int, lists: seq<seq<int>>, out: set<int>)
    requires Threaded(m, blocks, end, lists, out)
    ensures FIRST <= end <= |m| && Multiple8(end) && end !in blocks
  {
  }

  lemma NothingSeen(m: seq<Word>, blocks: Blocks, end: int, lists: seq<seq<int>>, out: set<int>)
    requires Threaded(m, blocks, end, lists, out)
    ensures SameLive(blocks, blocks) && AllUntouched(m, m, blocks, blocks)
  {
  }

  lemma SeenTwice(m: seq<Word>, m1: seq<Word>, m2: seq<Word>, blocks: Blocks, blocks1: Blocks, blocks2: Blocks)
    requires SameLive(blocks, blocks1) && SameLive(blocks1, blocks2)
    requires AllUntouched(m, m1, blocks, blocks1) && AllUntouched(m1, m2, blocks1, blocks2)
    ensures SameLive(blocks, blocks2) && AllUntouched(m, m2, blocks, blocks2)
  {
    AllUntouchedTwice(m, m1, m2, blocks, blocks1, blocks2);
  }

  lemma FitSeparated(m: seq<Word>, blocks: Blocks, end: int, lists: seq<seq<int>>, bp: int, asize: int)
    requires Threaded(m, blocks, end, lists, {}) && bp in blocks && !blocks[bp].alloc && 16 <= asize <= blocks[bp].size
    ensures Separated(blocks) ==> Separated(Placed(blocks, bp, asize))
  {
    if Separated(blocks) {
      assert !FreePair(blocks, bp);
      PlacedSeparated(blocks, end, bp, asize);
    }
  }

  /** Marking a live block free: one fewer live block, the others untouched. */
  lemma FreedSeen(m: seq<Word>, m': seq<Word>, blocks: Blocks, end: int, lists: seq<seq<int>>, bp: int)
    requires Threaded(m, blocks, end, lists, {}) && Live(blocks, bp)
    requires KeepsOutside(m, m', blocks, bp, bp + blocks[bp].size)
    ensures var hi := bp + blocks[bp].size;
            var blocks' := Carve(blocks, bp, hi, hi, false, false);
            && (forall b :: Live(blocks', b) <==> Live(blocks, b) && b != bp)
            && (forall b {:trigger Untouched(m, m', blocks, blocks', b)} :: Live(blocks, b) && b != bp ==>
              Untouched(m, m', blocks, blocks', b))
            && (Separated(blocks) ==> SeparatedBut(blocks', bp))
  {
    var hi := bp + blocks[bp].size;
    var blocks' := Carve(blocks, bp, hi, hi, false, false);
    forall b | Live(blocks, b) && b != bp ensures Untouched(m, m', blocks, blocks', b) {
      CarveUntouched(m, m', blocks, end, bp, hi, hi, false, false, b);
    }
    if Separated(blocks) {
      FreedSeparated(blocks, end, bp);
    }
  }

  lemma WordsOf(size: int)
    requires Multiple8(size)
    ensures size / WSIZE * WSIZE == size
  {
  }

  /** The live blocks in `live`, other than x, are untouched. */
  ghost predicate Spared(m: seq<Word>, m': seq<Word>, blocks: Blocks, blocks': Blocks, live: map<int, int>, x: int) {
    forall b {:trigger Untouched(m, m', blocks, blocks', b)} :: b in live && b != x ==>
      Untouched(m, m', blocks, blocks', b)
  }

  lemma ServedKeeps(m: seq<Word>, m': seq<Word>, blocks: Blocks, blocks': Blocks, live: map<int, int>)
    requires Served(blocks, live) && SameLive(blocks, blocks') && AllUntouched(m, m', blocks, blocks')
    ensures Served(blocks', live) && Spared(m, m', blocks, blocks', live, 0)
  {
    forall b | b in live ensures blocks'[b] == blocks[b] {
      assert Untouched(m, m', blocks, blocks', b);
    }
  }

  lemma SparedTwice(m: seq<Word>, m1: seq<Word>, m2: seq<Word>, blocks: Blocks, blocks1: Blocks, blocks2: Blocks,
                    live: map<int, int>, x: int)
    requires Spared(m, m1, blocks, blocks1, live, x) && Spared(m1, m2, blocks1, blocks2, live, x)
    ensures Spared(m, m2, blocks, blocks2, live, x)
  {
    forall b | b in live && b != x ensures Untouched(m, m2, blocks, blocks2, b) {
      assert Untouched(m, m1, blocks, blocks1, b) && Untouched(m1, m2, blocks1, blocks2, b);
      UntouchedTwice(m, m1, m2, blocks, blocks1, blocks2, b);
    }
  }

  /** place for a new client. */
  lemma ServeSeen(m: seq<Word>, m': seq<Word>, blocks: Blocks, end: int, lists: seq<seq<int>>, live: map<int, int>,
                  bp: int, asize: int, size: int)
    requires Threaded(m, blocks, end, lists, {}) && Served(blocks, live)
    requires bp in blocks && !blocks[bp].alloc && 16 <= asize <= blocks[bp].size && 0 < size <= asize - DSIZE
    requires KeepsOutside(m, m', blocks, bp, bp + blocks[bp].size)
    ensures var blocks' := Placed(blocks, bp, asize);
            && bp !in live && Served(blocks', live[bp := size]) && Spared(m, m', blocks, blocks', live, 0)
            && bp in blocks' && blocks'[bp].size >= asize
            && (Separated(blocks) ==> Separated(blocks'))
  {
    var blocks' := Placed(blocks, bp, asize);
    PlaceSeen(m, m', blocks, end, lists, {}, bp, asize);
    FitSeparated(m, blocks, end, lists, bp, asize);
    forall b | b in live ensures b != bp && Untouched(m, m', blocks, blocks', b) {
    }
    ServedPlus(m, m', blocks, blocks', live, bp, size);
  }

  lemma ServedPlus(m: seq<Word>, m': seq<Word>, blocks: Blocks, blocks': Blocks, live: map<int, int>, r: int, size: int)
    requires Served(blocks, live)
    requires forall b :: Live(blocks', b) <==> Live(blocks, b) || b == r
    requires Spared(m, m', blocks, blocks', live, r)
    requires r in blocks' && 0 < size <= blocks'[r].size - 8
    ensures Served(blocks', live[r := size])
  {
    forall b | b in live && b != r ensures blocks'[b] == blocks[b] {
      assert Untouched(m, m', blocks, blocks', b);
    }
  }

  /** mm_free as clients see it: retag (m1, blocks1), then coalesce. */
  lemma FreeSeen(m: seq<Word>, m1: seq<Word>, m2: seq<Word>, blocks: Blocks, blocks2: Blocks, end: int,
                 lists: seq<seq<int>>, live: map<int, int>, bp: int, r: int)
    requires Threaded(m, blocks, end, lists, {}) && Served(blocks, live) && bp in live
    requires var hi := bp + blocks[bp].size;
             var blocks1 := Carve(blocks, bp, hi, hi, false, false);
             && KeepsOutside(m, m1, blocks, bp, hi)
             && bp in blocks1 && Threaded(m1, blocks1, end, lists, {bp})
             && KeepsLive(m1, m2, blocks1) && Coalesced(blocks1, blocks2, bp, r)
    ensures Served(blocks2, live - {bp}) && Spared(m, m2, blocks, blocks2, live, bp)
    ensures Separated(blocks) ==> Separated(blocks2)
  {
    hide Threaded, KeepsOutside, KeepsLive, Coalesced, Separated, SeparatedBut, Carve, Served, Spared, Untouched,
         SameLive, AllUntouched;
    LiveIs(blocks, live, bp);
    var hi := bp + blocks[bp].size;
    var blocks1 := Carve(blocks, bp, hi, hi, false, false);
    FreedSeen(m, m1, blocks, end, lists, bp);
    CoalesceUnseen(m1, m2, blocks1, blocks2, end, lists, {bp}, bp, r);
    ServedMinus(m, m1, blocks, blocks1, live, bp);
    ServedKeeps(m1, m2, blocks1, blocks2, live - {bp});
    NullNeverLive(m, blocks, end, lists, live);
    SparedRest(m, m1, m2, blocks, blocks1, blocks2, live, bp);
  }

  lemma ServedMinus(m: seq<Word>, m1: seq<Word>, blocks: Blocks, blocks1: Blocks, live: map<int, int>, bp: int)
    requires Served(blocks, live)
    requires forall b :: Live(blocks1, b) <==> Live(blocks, b) && b != bp
    requires forall b {:trigger Untouched(m, m1, blocks, blocks1, b)} :: Live(blocks, b) && b != bp ==>
               Untouched(m, m1, blocks, blocks1, b)
    ensures Served(blocks1, live - {bp}) && Spared(m, m1, blocks, blocks1, live, bp)
  {
    forall b | b in live && b != bp ensures blocks1[b] == blocks[b] {
      assert Untouched(m, m1, blocks, blocks1, b);
    }
  }

  lemma SparedRest(m: seq<Word>, m1: seq<Word>, m2: seq<Word>, blocks: Blocks, blocks1: Blocks, blocks2: Blocks,
                   live: map<int, int>, bp: int)
    requires Spared(m, m1, blocks, blocks1, live, bp) && Spared(m1, m2, blocks1, blocks2, live - {bp}, 0)
    requires 0 !in live
    ensures Spared(m, m2, blocks, blocks2, live, bp)
  {
    forall b | b in live && b != bp ensures Untouched(m, m2, blocks, blocks2, b) {
      assert b in live - {bp} && Untouched(m, m1, blocks, blocks1, b) && Untouched(m1, m2, blocks1, blocks2, b);
      UntouchedTwice(m, m1, m2, blocks, blocks1, blocks2, b);
    }
  }

  lemma LiveIs(blocks: Blocks, live: map<int, int>, b: int)
    requires Served(blocks, live) && b in live
    ensures Live(blocks, b) && 0 < live[b] <= blocks[b].size - 8
  {
  }

  lemma NothingSpared(m: seq<Word>, blocks: Blocks, end: int, lists: seq<seq<int>>, live: map<int, int>)
    requires live == map[] || (Threaded(m, blocks, end, lists, {}) && Served(blocks, live))
    ensures forall x :: Spared(m, m, blocks, blocks, live, x)
  {
  }

  lemma NoneSpared(m: seq<Word>, m': seq<Word>, blocks: Blocks, blocks': Blocks)
    ensures Spared(m, m', blocks, blocks', map[], 0)
  {
  }

  lemma NullNeverLive(m: seq<Word>, blocks: Blocks, end: int, lists: seq<seq<int>>, live: map<int, int>)
    requires live == map[] || (Threaded(m, blocks, end, lists, {}) && Served(blocks, live))
    ensures 0 !in live && live - {0} == live
  {
  }
}
