/** The segregated free-list allocator. */
module Allocator {
  import opened Sequences
  import opened HeapWords
  import opened HeapLayout
  import opened FreeLists
  import opened HeapState
  import opened HeapAdjacency
  import opened HeapMoves

  ghost predicate Fits(blocks: Blocks, b: int, asize: int) {
    b in blocks && !blocks[b].alloc && 16 <= asize <= blocks[b].size < 0x8000_0000
  }

  lemma ThreadedLists(m: seq<Word>, blocks: Blocks, end: int, lists: seq<seq<int>>, asize: int)
    requires Threaded(m, blocks, end, lists, {}) && 0 < asize < 0x8000_0000
    ensures |lists| == BASE_PTR_CNT && FIRST <= |m|
    ensures forall c :: Fits(blocks, c, asize) ==> ListIndex(asize) <= ListIndex(blocks[c].size) < BASE_PTR_CNT
  {
    forall c | Fits(blocks, c, asize) ensures ListIndex(asize) <= ListIndex(blocks[c].size) < BASE_PTR_CNT {
      ListIndexMonotone(asize, blocks[c].size);
    }
  }

  /** The byte size extend_heap asks for: an even number of words. */
  function RoundedWords(words: int): int {
    if words % 2 != 0 then (words + 1) * WSIZE else words * WSIZE
  }

  lemma SizeAligned(words: int)
    ensures Multiple8(RoundedWords(words)) && RoundedWords(words) >= words * WSIZE
    ensures Multiple8(words * WSIZE) ==> RoundedWords(words) == words * WSIZE
  {
  }

  /** After a whole list has been searched: a fitting block is larger than the best, or of a later class. */
  lemma FitCompare(m: seq<Word>, blocks: Blocks, end: int, lists: seq<seq<int>>, i: int, best: int, c: int, asize: int)
    requires Threaded(m, blocks, end, lists, {}) && 0 <= i < BASE_PTR_CNT && |lists| == BASE_PTR_CNT
    requires Fits(blocks, c, asize) && i <= ListIndex(blocks[c].size)
    requires best != 0 ==> Fits(blocks, best, asize) && ListIndex(blocks[best].size) == i
    requires forall j :: 0 <= j < |lists[i]| && Fits(blocks, lists[i][j], asize) ==>
               best != 0 && blocks[best].size <= blocks[lists[i][j]].size
    ensures best == 0 ==> i < ListIndex(blocks[c].size)
    ensures best != 0 ==> blocks[best].size <= blocks[c].size
  {
    FreeIsListed(m, blocks, end, lists, c);
    if best != 0 && blocks[c].size < blocks[best].size {
      ListIndexMonotone(blocks[c].size, blocks[best].size);
    }
  }

  /** Either no fitting block is smaller than b, or b is at most 8 bytes larger than was asked for. */
  ghost predicate NearBest(blocks: Blocks, b: int, asize: int)
    requires b in blocks
  {
    forall c :: Fits(blocks, c, asize) ==> blocks[b].size <= blocks[c].size || blocks[b].size - asize <= DSIZE
  }

  /** No free block is large enough for asize bytes. */
  ghost predicate NoneFits(blocks: Blocks, asize: int) {
    forall b :: !Fits(blocks, b, asize)
  }

  /**
    What mm_malloc does to a heap that ends at end, for a block of asize bytes: a near-best fit is placed,
    or else the heap grows by asize bytes, which merge with a last free block, and the merged block is placed.
    */
  ghost predicate Granted(blocks: Blocks, blocks': Blocks, end: int, asize: int, r: int) {
    if NoneFits(blocks, asize) then
      && Last(blocks, end, r)
      && blocks' == Placed(Carve(blocks, r, end + asize, end + asize, false, false), r, asize)
    else
      Fits(blocks, r, asize) && NearBest(blocks, r, asize) && blocks' == Placed(blocks, r, asize)
  }

  /** What mm_malloc, then mm_free of the old block, do to the heap. */
  ghost predicate Relocated(blocks: Blocks, blocks': Blocks, end: int, ptr: int, asize: int, r: int) {
    exists blocks1 :: Granted(blocks, blocks1, end, asize, r) && Released(blocks1, blocks', ptr)
  }

  /**
    Where mm_realloc puts a block and how it retiles the heap: in place when it shrinks or the block after
    makes room, else down to the block before when that makes room, alone or with the block after; else by
    mm_malloc and mm_free.
    */
  ghost predicate Resized(blocks: Blocks, blocks': Blocks, end: int, ptr: int, newsize: int, r: int)
    requires ptr in blocks
  {
    var n := ptr + blocks[ptr].size;
    if newsize <= blocks[ptr].size then r == ptr && blocks' == Placed(blocks, ptr, newsize)
    else if RoomAfter(blocks, ptr, newsize) then
      r == ptr && blocks' == Regrown(blocks, ptr, n + blocks[n].size, newsize)
    else if RoomBefore(blocks, ptr, newsize) then
      FreeBefore(blocks, ptr, r) && blocks' == Regrown(blocks, r, n, newsize)
    else if RoomAround(blocks, ptr, newsize) then
      FreeBefore(blocks, ptr, r) && blocks' == Regrown(blocks, r, n + blocks[n].size, newsize)
    else Relocated(blocks, blocks', end, ptr, newsize, r)
  }

  /** The tests of mm_realloc, in its order, lead to the result that Resized describes. */
  lemma ResizedIs(m: seq<Word>, blocks: Blocks, end: int, lists: seq<seq<int>>, ptr: int, p: int, newsize: int)
    requires Threaded(m, blocks, end, lists, {}) && ptr in blocks && p in blocks && p + blocks[p].size == ptr
    requires blocks[ptr].size < newsize
    ensures var n := ptr + blocks[ptr].size;
            && (RoomAfter(blocks, ptr, newsize) ==>
                 Resized(blocks, Regrown(blocks, ptr, n + blocks[n].size, newsize), end, ptr, newsize, ptr))
            && (!RoomAfter(blocks, ptr, newsize) && RoomBefore(blocks, ptr, newsize) ==>
                 Resized(blocks, Regrown(blocks, p, n, newsize), end, ptr, newsize, p))
            && (!RoomAfter(blocks, ptr, newsize) && !RoomBefore(blocks, ptr, newsize)
                && RoomAround(blocks, ptr, newsize) ==>
                 Resized(blocks, Regrown(blocks, p, n + blocks[n].size, newsize), end, ptr, newsize, p))
    ensures forall blocks', r ::
              Cramped(blocks, ptr, newsize) && Relocated(blocks, blocks', end, ptr, newsize, r) ==>
                Resized(blocks, blocks', end, ptr, newsize, r)
  {
    hide Regrown, Relocated;
    RoomIs(m, blocks, end, lists, ptr, p, newsize);
    assert !blocks[p].alloc ==> FreeBefore(blocks, ptr, p);
  }

  /**
    The k-th block of a list is the one that find_fit takes: the first that is at most 8 bytes larger than
    was asked for, or, if there is none, the first of the smallest that fit.
    */
  ghost predicate Taken(blocks: Blocks, l: seq<int>, k: int, asize: int) {
    && 0 <= k < |l| && Fits(blocks, l[k], asize)
    && (forall j :: 0 <= j < k && Fits(blocks, l[j], asize) ==>
          blocks[l[k]].size < blocks[l[j]].size && blocks[l[j]].size - asize > DSIZE)
    && (blocks[l[k]].size - asize <= DSIZE
        || forall j :: k < j < |l| && Fits(blocks, l[j], asize) ==> blocks[l[k]].size <= blocks[l[j]].size)
  }

  /** One block more of the list: it is taken when it fits and is smaller than the one taken so far. */
  lemma TakenStep(blocks: Blocks, l: seq<int>, k: int, best: int, asize: int)
    requires 0 <= k < |l|
    requires var none := forall j :: 0 <= j < k ==> !Fits(blocks, l[j], asize);
             none || (Taken(blocks, l[..k], best, asize) && blocks[l[best]].size - asize > DSIZE)
    ensures var none := forall j :: 0 <= j < k ==> !Fits(blocks, l[j], asize);
            if Fits(blocks, l[k], asize) && (none || blocks[l[k]].size < blocks[l[best]].size)
            then Taken(blocks, l[..k + 1], k, asize)
                 && (blocks[l[k]].size - asize <= DSIZE ==> Taken(blocks, l, k, asize))
            else none || Taken(blocks, l[..k + 1], best, asize)
  {
    assert forall j :: 0 <= j < k ==> l[..k][j] == l[j] && l[..k + 1][j] == l[j];
    assert l[..k + 1][k] == l[k];
  }

  /** b is what find_fit takes from the list of the first class that has a fitting block. */
  ghost predicate Chosen(blocks: Blocks, lists: seq<seq<int>>, b: int, asize: int) {
    && Fits(blocks, b, asize) && 0 <= ListIndex(blocks[b].size) < |lists|
    && (forall c :: Fits(blocks, c, asize) ==> ListIndex(blocks[b].size) <= ListIndex(blocks[c].size))
    && exists k :: Taken(blocks, lists[ListIndex(blocks[b].size)], k, asize)
                   && lists[ListIndex(blocks[b].size)][k] == b
  }

  function Min(x: int, y: int): int {
    if x < y then x else y
  }

  class Heap {
    const mem: array<Word>
    var brk: int
    var heapListp: int

    ghost var blocks: Blocks
    ghost var lists: seq<seq<int>>
    ghost var live: map<int, int>

    ghost predicate Ready(out: set<int>)
      reads this, mem
    {
      && mem.Length < 0x8000_0000
      && heapListp == HEADS
      && Threaded(mem[..], blocks, brk, lists, out)
    }

    function Get(p: int): Word
      requires 0 <= p < mem.Length && WordAddr(p)
      reads mem
    {
      mem[p]
    }

    method Put(p: int, v: Word)
      requires 0 <= p < mem.Length && WordAddr(p)
      modifies mem
      ensures mem[..] == old(mem[..])[p := v]
    {
      mem[p] := v;
    }

    function HdrSize(bp: int): int
      requires 4 <= bp < mem.Length + 4 && WordAddr(bp - WSIZE)
      reads mem
    {
      SizeOf(Get(bp - WSIZE))
    }

    predicate HdrAlloc(bp: int)
      requires 4 <= bp < mem.Length + 4 && WordAddr(bp - WSIZE)
      reads mem
    {
      AllocOf(Get(bp - WSIZE))
    }

    function NextBlkp(bp: int): int
      requires 4 <= bp < mem.Length + 4 && WordAddr(bp - WSIZE)
      reads mem
    {
      bp + HdrSize(bp)
    }

    function PrevBlkp(bp: int): int
      requires 8 <= bp < mem.Length + 8 && WordAddr(bp - DSIZE)
      reads mem
    {
      bp - SizeOf(Get(bp - DSIZE))
    }

    /** insert_block: push a free block on the list of its class. */
    method InsertBlock(bp: int, ghost out: set<int>)
      requires Ready(out) && bp in blocks && !blocks[bp].alloc && bp in out
      modifies mem, this`lists
      ensures Ready(out - {bp})
      ensures var i := ListIndex(blocks[bp].size);
              0 <= i < BASE_PTR_CNT == |old(lists)| && lists == old(lists)[i := [bp] + old(lists)[i]]
      ensures KeepsLive(old(mem[..]), mem[..], blocks)
    {
      hide Threaded, KeepsLive, SizeOf, AllocOf, WordAddr, Multiple8;
      ghost var m := mem[..];
      ReadTags(m, blocks, brk, lists, out, bp);
      InsertThreaded(m, blocks, brk, lists, out, bp);
      var index := ListIndex(HdrSize(bp));
      HeadAligned(m, blocks, brk, lists, out, index);
      var head := heapListp + index * WSIZE;
      var next := Get(head);
      Put(bp, 0);
      Put(bp + WSIZE, next);
      if next != 0 {
        Put(next, bp);
      }
      Put(head, bp);
      assert mem[..] == InsertLinks(m, Head(index), bp);
      lists := lists[index := [bp] + lists[index]];
    }

    /** delete_block: unlink a free block; nothing happens to an allocated one. */
    method DeleteBlock(bp: int, ghost out: set<int>)
      requires Ready(out) && bp in blocks && (blocks[bp].alloc || bp !in out)
      modifies mem, this`lists
      ensures blocks[bp].alloc ==> mem[..] == old(mem[..]) && lists == old(lists)
      ensures !blocks[bp].alloc ==> Ready(out + {bp})
      ensures !blocks[bp].alloc ==>
                var i := ListIndex(blocks[bp].size);
                && 0 <= i < BASE_PTR_CNT == |old(lists)|
                && exists k :: 0 <= k < |old(lists)[i]| && old(lists)[i][k] == bp
                               && lists == old(lists)[i := Drop(old(lists)[i], k)]
      ensures KeepsLive(old(mem[..]), mem[..], blocks)
    {
      hide Threaded, KeepsLive, SizeOf, AllocOf, WordAddr, Multiple8;
      ghost var m := mem[..];
      ReadTags(m, blocks, brk, lists, out, bp);
      if HdrAlloc(bp) {
        KeepsSelf(m, blocks);
        return;
      }
      ghost var k := DeleteThreaded(m, blocks, brk, lists, out, bp);
      var size := HdrSize(bp);
      var index := ListIndex(size);
      HeadAligned(m, blocks, brk, lists, out, index);
      LinksAligned(m, blocks, brk, lists, out, index, k);
      var pred, succ := Get(bp), Get(bp + WSIZE);
      if pred != 0 {
        Put(pred + WSIZE, succ);
      } else {
        Put(heapListp + index * WSIZE, succ);
      }
      if succ != 0 {
        Put(succ, pred);
      }
      assert mem[..] == DeleteLinks(m, Head(index), bp);
      lists := lists[index := Drop(lists[index], k)];
    }

    method PutHdr(bp: int, size: int, alloc: bool)
      requires 4 <= bp < mem.Length + 4 && WordAddr(bp - WSIZE)
      requires 0 <= size < 0x8000_0000 && Multiple8(size)
      modifies mem
      ensures mem[..] == old(mem[..])[bp - 4 := Tag(size, alloc)]
    {
      Put(bp - WSIZE, Pack(size, alloc));
    }

    /** The footer is found through the size in the header. */
    method PutFtr(bp: int, size: int, alloc: bool)
      requires 4 <= bp < mem.Length + 4 && WordAddr(bp - WSIZE)
      requires 0 <= bp + HdrSize(bp) - DSIZE < mem.Length && WordAddr(bp + HdrSize(bp) - DSIZE)
      requires 0 <= size < 0x8000_0000 && Multiple8(size)
      modifies mem
      ensures mem[..] == old(mem[..])[bp + old(HdrSize(bp)) - 8 := Tag(size, alloc)]
    {
      Put(bp + HdrSize(bp) - DSIZE, Pack(size, alloc));
    }

    /** PUT_HDR and PUT_FTR of a block: its tags, wherever its payload lies. */
    method PutTags(bp: int, size: int, alloc: bool)
      requires 4 <= bp && Multiple8(bp)
      requires 16 <= size < 0x8000_0000 && Multiple8(size) && bp + size <= mem.Length
      modifies mem
      ensures TagsPut(old(mem[..]), mem[..], bp, size, alloc)
      ensures HdrSize(bp) == size
    {
      TagsStored(mem[..], bp, size, alloc);
      WordAligned(bp, size);
      TagFields(size, alloc);
      PutHdr(bp, size, alloc);
      PutFtr(bp, size, alloc);
    }

    /** The header of one block and the footer of another, when the two delimit a block of the given size. */
    method PutHdrFtr(first: int, last: int, size: int)
      requires 4 <= first && WordAddr(first - WSIZE) && 4 <= last < mem.Length + 4 && WordAddr(last - WSIZE)
      requires WordAddr(last + HdrSize(last) - DSIZE) && last != first
      requires last + HdrSize(last) == first + size && 16 <= size < 0x8000_0000 && Multiple8(size)
               && first + size <= mem.Length
      modifies mem
      ensures SameOutside(old(mem[..]), mem[..], first, first + size) && Tagged(mem[..], first, size, false)
      ensures forall p :: first <= p < first + size - 8 ==> mem[p] == old(mem[p])
    {
      TagsGivenApart(mem[..], first, size);
      PutHdr(first, size, false);
      PutFtr(last, size, false);
    }

    /** The same two stores in the other order. */
    method PutFtrHdr(last: int, first: int, size: int)
      requires 4 <= first && WordAddr(first - WSIZE) && 4 <= last < mem.Length + 4 && WordAddr(last - WSIZE)
      requires WordAddr(last + HdrSize(last) - DSIZE)
      requires last + HdrSize(last) == first + size && 16 <= size < 0x8000_0000 && Multiple8(size)
               && first + size <= mem.Length
      modifies mem
      ensures SameOutside(old(mem[..]), mem[..], first, first + size) && Tagged(mem[..], first, size, false)
      ensures forall p :: first <= p < first + size - 8 ==> mem[p] == old(mem[p])
    {
      TagsGivenApart(mem[..], first, size);
      PutFtr(last, size, false);
      PutHdr(first, size, false);
    }

    /** place: allocate the first asize bytes of bp, and free the rest when a block fits in it. */
    method Place(bp: int, asize: int)
      requires Ready({}) && bp in blocks && bp != PROLOGUE
      requires 16 <= asize <= blocks[bp].size && Multiple8(asize)
      modifies mem, this`lists, this`blocks
      ensures Ready({})
      ensures blocks == Placed(old(blocks), bp, asize) && bp in blocks && 0 <= blocks[bp].size - asize < 2 * DSIZE
      ensures KeepsOutside(old(mem[..]), mem[..], old(blocks), bp, bp + old(blocks)[bp].size)
      ensures old(blocks)[bp].alloc ==> KeepsWords(old(mem[..]), mem[..], bp, bp, blocks[bp].size - 8)
    {
      hide Threaded, KeepsLive, KeepsOutside, KeepsWords, Carve, TagsPut, SizeOf, AllocOf, WordAddr, Multiple8;
      ghost var m, blocks0 := mem[..], blocks;
      ReadTags(m, blocks, brk, lists, {}, bp);
      var csize := HdrSize(bp);
      DeleteBlock(bp, {});
      assert {} + {bp} == {bp};
      ghost var m1 := mem[..];
      assert Threaded(m1, blocks, brk, lists, Unlisted(blocks, bp));
      PartsAligned(bp, csize, asize);
      PlacedSize(blocks, bp, asize);
      if csize - asize >= 2 * DSIZE {
        PutTags(bp, asize, true);
        ghost var ma := mem[..];
        var rest := NextBlkp(bp);
        PutTags(rest, csize - asize, false);
        ghost var m2 := mem[..];
        PlaceSplit(m1, ma, m2, blocks, brk, lists, bp, asize);
        blocks := Placed(blocks, bp, asize);
        InsertBlock(rest, {rest});
        assert {rest} - {rest} == {};
        PlaceKeeps(m, m1, m2, mem[..], blocks0, bp, asize);
      } else {
        PutTags(bp, csize, true);
        Retag(m1, mem[..], blocks, brk, lists, bp, true);
        blocks := Placed(blocks, bp, asize);
        KeepsSelf(mem[..], blocks);
        PlaceKeeps(m, m1, mem[..], mem[..], blocks0, bp, asize);
      }
    }

    /** coalesce: merge an unlisted free block with its free neighbours and list the result. */
    method Coalesce(bp: int) returns (r: int)
      requires Ready({bp}) && bp in blocks && !blocks[bp].alloc
      modifies mem, this`lists, this`blocks
      ensures Ready({}) && Coalesced(old(blocks), blocks, bp, r)
      ensures KeepsLive(old(mem[..]), mem[..], old(blocks))
    {
      hide Threaded, KeepsLive, Carve, TagsPut, Tagged, SameOutside, MergeStart, Around, Merged, Drop, ListIndex,
           Coalesced, SizeOf, AllocOf, WordAddr, Multiple8;
      ghost var m := mem[..];
      ReadTags(m, blocks, brk, lists, {bp}, bp);
      ReadNext(m, blocks, brk, lists, {bp}, bp);
      ReadPrev(m, blocks, brk, lists, {bp}, bp);
      ghost var prev := PrevBlkp(bp);
      ReadTags(m, blocks, brk, lists, {bp}, prev);
      MergeStartIs(m, blocks, brk, lists, {bp}, bp, prev);
      var prevAlloc := AllocOf(Get(PrevBlkp(bp) + HdrSize(PrevBlkp(bp)) - DSIZE));
      var nextAlloc := HdrAlloc(NextBlkp(bp));
      var size := HdrSize(bp);
      if prevAlloc && nextAlloc {
        MergeNone(m, blocks, brk, lists, {bp}, bp);
        assert {bp} == {bp} + {bp};
        AroundIs(blocks, bp, bp, {bp});
        InsertBlock(bp, {bp});
        assert {bp} - {bp} == {};
        r := bp;
      } else if prevAlloc && !nextAlloc {
        r := CoalesceNext(bp, size);
      } else if !prevAlloc && nextAlloc {
        r := CoalescePrev(bp, size, prev);
      } else {
        r := CoalesceBoth(bp, size, prev);
      }
    }

    /** Case 2 of coalesce. */
    method CoalesceNext(bp: int, size0: int) returns (r: int)
      requires Ready({bp}) && bp in blocks && !blocks[bp].alloc && size0 == blocks[bp].size
      requires bp + size0 in blocks && !blocks[bp + size0].alloc && MergeStart(blocks, bp, bp)
      modifies mem, this`lists, this`blocks
      ensures Ready({}) && Coalesced(old(blocks), blocks, bp, r)
      ensures KeepsLive(old(mem[..]), mem[..], old(blocks))
    {
      hide Threaded, KeepsLive, Carve, TagsPut, Tagged, SameOutside, MergeStart, Around, Merged, Drop, ListIndex,
           Coalesced, SizeOf, AllocOf, WordAddr, Multiple8;
      ghost var m, lists0, next := mem[..], lists, bp + size0;
      ReadTags(m, blocks, brk, lists, {bp}, bp);
      var size := size0;
      DeleteBlock(NextBlkp(bp), {bp});
      ghost var m1, out := mem[..], {bp} + {next};
      ReadTags(m1, blocks, brk, lists, out, bp);
      ReadTags(m1, blocks, brk, lists, out, next);
      SumAligned(size, HdrSize(next));
      size := size + HdrSize(NextBlkp(bp));
      PutTags(bp, size, false);
      TagsGiven(m1, mem[..], bp, size);
      assert out == {bp} + {bp} + {next};
      AroundIs(blocks, bp, bp, out);
      FinishMerge(m, lists0, m1, bp, bp, bp + size);
      r := bp;
    }

    /** Case 3 of coalesce. */
    method CoalescePrev(bp: int, size0: int, ghost prev: int) returns (r: int)
      requires Ready({bp}) && bp in blocks && !blocks[bp].alloc && size0 == blocks[bp].size
      requires prev in blocks && !blocks[prev].alloc && prev + blocks[prev].size == bp
      requires (bp + size0 in blocks ==> blocks[bp + size0].alloc) && MergeStart(blocks, bp, prev)
      modifies mem, this`lists, this`blocks
      ensures Ready({}) && Coalesced(old(blocks), blocks, bp, r)
      ensures KeepsLive(old(mem[..]), mem[..], old(blocks))
    {
      hide Threaded, KeepsLive, Carve, TagsPut, Tagged, SameOutside, MergeStart, Around, Merged, Drop, ListIndex,
           Coalesced, SizeOf, AllocOf, WordAddr, Multiple8;
      ghost var m, lists0 := mem[..], lists;
      ReadTags(m, blocks, brk, lists, {bp}, bp);
      ReadPrev(m, blocks, brk, lists, {bp}, bp);
      ReadNext(m, blocks, brk, lists, {bp}, bp);
      var size := size0;
      DeleteBlock(PrevBlkp(bp), {bp});
      ghost var m1, out := mem[..], {bp} + {prev};
      ReadTags(m1, blocks, brk, lists, out, bp);
      ReadTags(m1, blocks, brk, lists, out, prev);
      ReadPrev(m1, blocks, brk, lists, out, bp);
      SumAligned(size, HdrSize(prev));
      size := size + HdrSize(PrevBlkp(bp));
      PutFtrHdr(bp, PrevBlkp(bp), size);
      r := PrevBlkp(bp);
      AroundIs(blocks, prev, bp, out);
      FinishMerge(m, lists0, m1, r, bp, r + size);
    }

    /** The unlinking done by case 4 of coalesce. */
    method DeleteNeighbours(bp: int, ghost prev: int)
      requires Ready({bp}) && bp in blocks && bp != PROLOGUE
      requires prev in blocks && !blocks[prev].alloc && prev + blocks[prev].size == bp
      requires bp + blocks[bp].size in blocks && !blocks[bp + blocks[bp].size].alloc
      modifies mem, this`lists
      ensures Ready({bp} + {prev} + {bp + blocks[bp].size})
      ensures KeepsLive(old(mem[..]), mem[..], blocks)
    {
      hide Threaded, KeepsLive, Drop, ListIndex, SizeOf, AllocOf, WordAddr, Multiple8;
      ghost var m := mem[..];
      ReadTags(m, blocks, brk, lists, {bp}, prev);
      ReadPrev(m, blocks, brk, lists, {bp}, bp);
      DeleteBlock(PrevBlkp(bp), {bp});
      ghost var out, ma := {bp} + {prev}, mem[..];
      ReadTags(ma, blocks, brk, lists, out, bp);
      ReadTags(ma, blocks, brk, lists, out, prev);
      DeleteBlock(NextBlkp(bp), out);
      KeepsTwice(m, ma, mem[..], blocks);
    }

    /** Case 4 of coalesce. */
    method CoalesceBoth(bp: int, size0: int, ghost prev: int) returns (r: int)
      requires Ready({bp}) && bp in blocks && !blocks[bp].alloc && size0 == blocks[bp].size
      requires prev in blocks && !blocks[prev].alloc && prev + blocks[prev].size == bp
      requires bp + size0 in blocks && !blocks[bp + size0].alloc && MergeStart(blocks, bp, prev)
      modifies mem, this`lists, this`blocks
      ensures Ready({}) && Coalesced(old(blocks), blocks, bp, r)
      ensures KeepsLive(old(mem[..]), mem[..], old(blocks))
    {
      hide Threaded, KeepsLive, Carve, TagsPut, Tagged, SameOutside, MergeStart, Around, Merged, Drop, ListIndex,
           Coalesced, SizeOf, AllocOf, WordAddr, Multiple8;
      ghost var m, lists0, next := mem[..], lists, bp + size0;
      ReadTags(m, blocks, brk, lists, {bp}, bp);
      ReadPrev(m, blocks, brk, lists, {bp}, bp);
      var size := size0;
      DeleteNeighbours(bp, prev);
      ghost var m1, out := mem[..], {bp} + {prev} + {next};
      ReadTags(m1, blocks, brk, lists, out, bp);
      ReadTags(m1, blocks, brk, lists, out, prev);
      ReadTags(m1, blocks, brk, lists, out, next);
      ReadPrev(m1, blocks, brk, lists, out, bp);
      SumAligned(size, HdrSize(prev));
      SumAligned(size + HdrSize(prev), HdrSize(next));
      size := size + HdrSize(PrevBlkp(bp)) + SizeOf(Get(NextBlkp(bp) + HdrSize(NextBlkp(bp)) - DSIZE));
      PutHdrFtr(PrevBlkp(bp), NextBlkp(bp), size);
      r := PrevBlkp(bp);
      AroundIs(blocks, prev, bp, out);
      FinishMerge(m, lists0, m1, r, bp, r + size);
    }

    /** The last steps of coalesce: with the tags of [lo, hi) stored, list the merged block. */
    method FinishMerge(ghost m: seq<Word>, ghost lists0: seq<seq<int>>, ghost m1: seq<Word>, lo: int, ghost bp: int,
                       ghost hi: int)
      requires mem.Length < 0x8000_0000 && heapListp == HEADS
      requires Around(blocks, lo, bp, hi) && Threaded(m1, blocks, brk, lists, Merged(blocks, lo, bp, hi))
      requires Threaded(m, blocks, brk, lists0, {bp}) && KeepsLive(m, m1, blocks)
      requires SameOutside(m1, mem[..], lo, hi) && Tagged(mem[..], lo, hi - lo, false)
      modifies mem, this`lists, this`blocks
      ensures Ready({})
      ensures blocks == Carve(old(blocks), lo, hi, hi, false, false)
      ensures KeepsLive(m, mem[..], old(blocks))
    {
      hide Threaded, KeepsLive, Carve, Tagged, SameOutside;
      ghost var m2, blocks0 := mem[..], blocks;
      MergeThreaded(m1, m2, blocks, brk, lists, lo, bp, hi);
      blocks := Carve(blocks, lo, hi, hi, false, false);
      InsertBlock(lo, {lo});
      assert {lo} - {lo} == {};
      MergeKeeps(m, m1, m2, mem[..], blocks0, brk, lists0, {bp}, lo, bp, hi);
    }

    /** find_fit: near-best fit, searching the classes upwards. */
    method FindFit(asize: int) returns (r: int)
      requires Ready({}) && 16 <= asize < 0x8000_0000
      ensures r == 0 <==> NoneFits(blocks, asize)
      ensures r != 0 ==> Fits(blocks, r, asize)
      ensures r != 0 ==> NearBest(blocks, r, asize) && Chosen(blocks, lists, r, asize)
    {
      hide Threaded, SizeOf, AllocOf, WordAddr, ListIndex, Taken;
      var bestFit, minDiff := 0, 0xFFFF_FFFF;
      ghost var m := mem[..];
      ListIndexIsCeilLog2(asize, 0);
      ThreadedLists(m, blocks, brk, lists, asize);
      var index := ListIndex(asize);
      while index < BASE_PTR_CNT
        invariant 0 <= index <= BASE_PTR_CNT && bestFit == 0 && minDiff == 0xFFFF_FFFF
        invariant forall c :: Fits(blocks, c, asize) ==> index <= ListIndex(blocks[c].size) < BASE_PTR_CNT
      {
        ghost var l, k, bestK := lists[index], 0, 0;
        MemberIs(m, blocks, brk, lists, index, 0);
        HeadAligned(m, blocks, brk, lists, {}, index);
        var bp := Get(heapListp + index * WSIZE);
        while bp != 0
          invariant 0 <= k <= |l| && bp == At(l, k) && (bp == 0 ==> k == |l|) && l == lists[index]
          invariant bestFit == 0 ==> minDiff == 0xFFFF_FFFF
          invariant bestFit != 0 ==> Fits(blocks, bestFit, asize) && minDiff == blocks[bestFit].size - asize
                                     && ListIndex(blocks[bestFit].size) == index
                                     && bestK < k && l[bestK] == bestFit && minDiff > DSIZE
                                     && Taken(blocks, l[..k], bestK, asize)
          invariant forall j :: 0 <= j < k && Fits(blocks, l[j], asize) ==>
                      bestFit != 0 && blocks[bestFit].size <= blocks[l[j]].size
          decreases |l| - k
        {
          MemberIs(m, blocks, brk, lists, index, k);
          MemberIs(m, blocks, brk, lists, index, k + 1);
          ReadTags(m, blocks, brk, lists, {}, bp);
          TakenStep(blocks, l, k, bestK, asize);
          var bsize := HdrSize(bp);
          if asize <= bsize {
            var diff := bsize - asize;
            if diff < minDiff {
              minDiff := diff;
              bestFit := bp;
              assert Fits(blocks, bp, asize);
              bestK := k;
              if diff <= DSIZE {
                return bestFit;
              }
            }
          }
          bp := Get(bp + WSIZE);
          k := k + 1;
        }
        forall c | Fits(blocks, c, asize)
          ensures bestFit == 0 ==> index < ListIndex(blocks[c].size)
          ensures bestFit != 0 ==> blocks[bestFit].size <= blocks[c].size
        {
          FitCompare(m, blocks, brk, lists, index, bestFit, c, asize);
        }
        if bestFit != 0 {
          assert l[..k] == l;
          return bestFit;
        }
        index := index + 1;
      }
      return 0;
    }

    /** mem_sbrk: move the break up, or fail and change nothing. */
    method MemSbrk(incr: int) returns (p: int)
      requires 0 <= incr && 0 <= brk <= mem.Length
      modifies this`brk
      ensures p == -1 <==> old(brk) + incr > mem.Length
      ensures p == -1 ==> brk == old(brk)
      ensures p != -1 ==> p == old(brk) && brk == old(brk) + incr
    {
      if brk + incr > mem.Length {
        return -1;
      }
      p := brk;
      brk := brk + incr;
    }

    /** The tags of the block added by extend_heap, and the new epilogue header. */
    method PutNewBlock(bp: int, size: int)
      requires 4 <= bp && Multiple8(bp) && 16 <= size && Multiple8(size) && bp + size <= mem.Length < 0x8000_0000
      modifies mem
      ensures forall p :: 0 <= p < bp - 4 ==> mem[p] == old(mem[p])
      ensures Tagged(mem[..], bp, size, false) && mem[bp + size - 4] == Tag(0, true)
    {
      WordAligned(bp, size);
      PutTags(bp, size, false);
      PutHdr(NextBlkp(bp), 0, true);
    }

    /** extend_heap: one more free block at the end, merged with a free block before it. */
    method ExtendHeap(words: int) returns (r: int)
      requires Ready({}) && 4 <= words < 0x2000_0000
      modifies this`brk, this`lists, this`blocks, mem
      ensures var size := RoundedWords(words);
              r == 0 <==> old(brk) + size > mem.Length
      ensures r == 0 ==> brk == old(brk) && mem[..] == old(mem[..]) && blocks == old(blocks) && lists == old(lists)
      ensures Ready({})
      ensures r != 0 ==>
                && brk == old(brk) + RoundedWords(words)
                && Fits(blocks, r, RoundedWords(words)) && Last(old(blocks), old(brk), r)
                && blocks == Carve(old(blocks), r, brk, brk, false, false)
      ensures SameLive(old(blocks), blocks) && AllUntouched(old(mem[..]), mem[..], old(blocks), blocks)
      ensures Separated(old(blocks)) ==> Separated(blocks)
    {
      hide Threaded, KeepsLive, Tagged, SameLive, AllUntouched, Separated, SeparatedBut, Coalesced, SizeOf, AllocOf,
           WordAddr, Multiple8;
      ghost var m, blocks0, brk0 := mem[..], blocks, brk;
      EndAligned(m, blocks, brk, lists, {});
      var size := if words % 2 != 0 then (words + 1) * WSIZE else words * WSIZE;
      SizeAligned(words);
      var bp := MemSbrk(size);
      if bp == -1 {
        NothingSeen(m, blocks, brk, lists, {});
        return 0;
      }
      PutNewBlock(bp, size);
      ghost var m1 := mem[..];
      ExtendThreaded(m, m1, blocks, brk0, lists, size);
      ExtendUnseen(m, m1, blocks, brk0, lists, {}, size);
      blocks := blocks[bp := Block(size, false)];
      ghost var blocks1, lists1 := blocks, lists;
      r := Coalesce(bp);
      CoalescedLast(m, blocks0, blocks, brk0, lists1, size, r);
      CoalesceUnseen(m1, mem[..], blocks1, blocks, brk, lists1, {bp}, bp, r);
      SeenTwice(m, m1, mem[..], blocks0, blocks1, blocks);
      ReadTags(mem[..], blocks, brk, lists, {}, r);
    }

    /** The heap between calls: not yet initialised, or tiled, threaded and serving the live blocks. */
    ghost predicate Valid()
      reads this, mem
    {
      && mem.Length < 0x8000_0000 && 0 <= brk <= mem.Length
      && (heapListp == 0 ==> brk == 0 && blocks == map[] && live == map[])
      && (heapListp != 0 ==> Ready({}) && Served(blocks, live))
    }

    /** The blocks and the end of the heap, once it is initialised. */
    ghost function Tiling(): Blocks
      reads this
    {
      if heapListp == 0 then map[PROLOGUE := Block(64, true)] else blocks
    }

    ghost function End(): int
      reads this
    {
      if heapListp == 0 then FIRST else brk
    }

    /** A heap that no call has touched. */
    constructor (capacity: nat)
      requires capacity < 0x8000_0000
      ensures Valid() && fresh(mem) && mem.Length == capacity
      ensures heapListp == 0 && live == map[] && blocks == map[]
    {
      mem := new Word[capacity](_ => 0);
      brk, heapListp := 0, 0;
      blocks, lists, live := map[], [], map[];
    }

    /** mm_init, on a break that is at the start of memory. */
    method Init() returns (r: int)
      requires mem.Length < 0x8000_0000 && brk == 0
      modifies this, mem
      ensures r == 0 || r == -1
      ensures r == -1 <==> mem.Length < FIRST
      ensures r == -1 ==> heapListp == -1 && brk == 0
      ensures r == 0 ==> Valid() && heapListp == HEADS && brk == FIRST
      ensures r == 0 ==> live == map[] && blocks == map[PROLOGUE := Block(64, true)] && Separated(blocks)
    {
      heapListp := MemSbrk(18 * WSIZE);
      if heapListp == -1 {
        return -1;
      }
      Put(heapListp, 0);
      Put(heapListp + 1 * WSIZE, Pack(16 * WSIZE, true));
      var i := 2;
      while i < 16
        invariant 2 <= i <= 16 && heapListp == 0 && brk == FIRST
        invariant mem[4] == Tag(64, true)
        invariant forall j :: 0 <= j < i - 2 ==> mem[HEADS + WSIZE * j] == 0
      {
        Put(heapListp + i * WSIZE, 0);
        i := i + 1;
      }
      assert forall j :: 0 <= j < BASE_PTR_CNT ==> mem[HEADS + WSIZE * j] == 0;
      Put(heapListp + 16 * WSIZE, Pack(16 * WSIZE, true));
      Put(heapListp + 17 * WSIZE, Pack(0, true));
      assert forall j :: 0 <= j < BASE_PTR_CNT ==> mem[HEADS + WSIZE * j] == 0;
      heapListp := heapListp + 2 * WSIZE;
      blocks := map[PROLOGUE := Block(64, true)];
      lists := seq(BASE_PTR_CNT, _ => []);
      live := map[];
      EmptyHeap(mem[..], lists);
      return 0;
    }

    /** The end of mm_malloc: place the request in a free block that fits. */
    method Serve(bp: int, asize: int, ghost size: int)
      requires Ready({}) && Served(blocks, live) && Fits(blocks, bp, asize) && Multiple8(asize)
               && 0 < size <= asize - DSIZE
      modifies this`lists, this`blocks, this`live, mem
      ensures Ready({}) && Served(blocks, live)
      ensures bp !in old(live) && live == old(live)[bp := size] && bp in blocks && blocks[bp].size >= asize
      ensures blocks == Placed(old(blocks), bp, asize) && blocks[bp].size - asize < 2 * DSIZE
      ensures Spared(old(mem[..]), mem[..], old(blocks), blocks, old(live), 0)
      ensures Separated(old(blocks)) ==> Separated(blocks)
    {
      hide Threaded, KeepsOutside, KeepsWords, Spared, Served, Separated, Placed, Carve, Multiple8;
      ghost var m, blocks0, lists0 := mem[..], blocks, lists;
      ReadTags(m, blocks, brk, lists, {}, bp);
      Place(bp, asize);
      ServeSeen(m, mem[..], blocks0, brk, lists0, live, bp, asize, size);
      live := live[bp := size];
    }

    /** mm_malloc */
    method Malloc(size: int) returns (r: int)
      requires Valid() && 0 <= size < 0x7FFF_FFF0
      requires heapListp == 0 ==> FIRST <= mem.Length
      modifies this, mem
      ensures Valid() && heapListp != 0
      ensures r == 0 <==>
                || size == 0
                || (NoneFits(old(Tiling()), AdjustedSize(size)) && old(End()) + AdjustedSize(size) > mem.Length)
      ensures r == 0 ==> live == old(live)
      ensures r == 0 && old(heapListp) != 0 ==> mem[..] == old(mem[..]) && blocks == old(blocks) && brk == old(brk)
      ensures r != 0 ==>
                && r !in old(live) && live == old(live)[r := size] && r in blocks
                && 0 <= blocks[r].size - AdjustedSize(size) < 2 * DSIZE
      ensures r != 0 ==>
                && Granted(old(Tiling()), blocks, old(End()), AdjustedSize(size), r)
                && brk == old(End()) + (if NoneFits(old(Tiling()), AdjustedSize(size)) then AdjustedSize(size) else 0)
      ensures Spared(old(mem[..]), mem[..], old(blocks), blocks, old(live), 0)
      ensures Separated(old(blocks)) ==> Separated(blocks)
    {
      hide Threaded, Served, Separated, SameLive, AllUntouched, Spared, NoneFits, NearBest, Last, Placed, Carve, SizeOf,
           AllocOf, WordAddr, Multiple8;
      if heapListp == 0 {
        var _ := Init();
        NoneSpared(old(mem[..]), mem[..], old(blocks), blocks);
      } else {
        NothingSpared(mem[..], blocks, brk, lists, live);
      }
      ghost var m, blocks1 := mem[..], blocks;
      if size == 0 {
        return 0;
      }
      var asize := AdjustedSize(size);
      r := FindFit(asize);
      if r != 0 {
        Serve(r, asize, size);
        SparedTwice(old(mem[..]), m, mem[..], old(blocks), blocks1, blocks, old(live), 0);
        return;
      }
      SizeAligned(asize / WSIZE);
      WordsOf(asize);
      r := ExtendHeap(asize / WSIZE);
      if r == 0 {
        return 0;
      }
      ghost var m2, blocks2 := mem[..], blocks;
      ServedKeeps(m, m2, blocks1, blocks2, live);
      Serve(r, asize, size);
      SparedTwice(m, m2, mem[..], blocks1, blocks2, blocks, old(live), 0);
      SparedTwice(old(mem[..]), m, mem[..], old(blocks), blocks1, blocks, old(live), 0);
    }

    /** mm_free */
    method Free(bp: int)
      requires Valid() && (bp == 0 || bp in live)
      modifies this`lists, this`blocks, this`live, mem
      ensures Valid()
      ensures bp == 0 ==> mem[..] == old(mem[..]) && blocks == old(blocks) && live == old(live)
      ensures bp != 0 ==> live == old(live) - {bp} && Released(old(blocks), blocks, bp)
      ensures Spared(old(mem[..]), mem[..], old(blocks), blocks, old(live), bp)
      ensures Separated(old(blocks)) ==> Separated(blocks)
    {
      hide Threaded, Separated, Served, Spared, KeepsLive, KeepsOutside, KeepsWords, Coalesced, Carve, TagsPut, SizeOf,
           AllocOf, WordAddr, Multiple8;
      if bp == 0 {
        NothingSpared(mem[..], blocks, brk, lists, live);
        return;
      }
      ghost var m, blocks0, lists0 := mem[..], blocks, lists;
      LiveIs(blocks, live, bp);
      ReadTags(m, blocks, brk, lists, {}, bp);
      var size := HdrSize(bp);
      PutTags(bp, size, false);
      ghost var m1, hi := mem[..], bp + size;
      Retag(m, m1, blocks, brk, lists, bp, false);
      blocks := Carve(blocks, bp, hi, hi, false, false);
      var r := Coalesce(bp);
      FreeSeen(m, m1, mem[..], blocks0, blocks, brk, lists0, live, bp, r);
      assert ReleasedTo(blocks0, blocks, bp, r);
      live := live - {bp};
    }

    /** memmove, of words: source and destination may overlap. */
    method MemMove(dst: int, src: int, n: int)
      requires 0 <= dst && 0 <= src && 0 <= n && dst + n <= mem.Length && src + n <= mem.Length
      modifies mem
      ensures Copied(old(mem[..]), mem[..], src, dst, n)
    {
      forall p | dst <= p < dst + n {
        mem[p] := mem[src + p - dst];
      }
    }

    /**
      The end of the three in-place growths of mm_realloc: the free neighbours of ptr are unlinked,
      [lo, hi) becomes one allocated block, the payload slides down to lo, and place trims the block.
      */
    method Grow(ghost m: seq<Word>, ghost lists0: seq<seq<int>>, ghost out: set<int>,
                lo: int, ptr: int, oldsize: int, combined: int, newsize: int)
      requires mem.Length < 0x8000_0000 && heapListp == HEADS
      requires Stretch(blocks, lo, ptr, lo + combined) && Live(blocks, ptr) && oldsize == blocks[ptr].size
      requires forall x :: x in Merged(blocks, lo, ptr, lo + combined) && x != ptr ==> !blocks[x].alloc
      requires out == Merged(blocks, lo, ptr, lo + combined) - {ptr}
      requires Threaded(m, blocks, brk, lists0, {}) && Threaded(mem[..], blocks, brk, lists, out)
               && KeepsLive(m, mem[..], blocks)
      requires oldsize < newsize <= combined && Multiple8(newsize)
      modifies this`lists, this`blocks, mem
      ensures Ready({}) && lo in blocks && 0 <= blocks[lo].size - newsize < 2 * DSIZE
      ensures blocks == Regrown(old(blocks), lo, lo + combined, newsize)
      ensures Moved(m, mem[..], old(blocks), blocks, ptr, lo, oldsize - 8)
      ensures Separated(old(blocks)) ==>
                (Separated(blocks) <==>
                  !(combined - newsize >= 2 * DSIZE && lo + combined in old(blocks)
                    && !old(blocks)[lo + combined].alloc))
    {
      hide Threaded, KeepsLive, KeepsOutside, KeepsWords, Moved, TagsPut, Copied, Tagged, SameOutside, Separated,
           Carve, Placed, Multiple8;
      ghost var m1, blocks0, hi := mem[..], blocks, lo + combined;
      StretchFacts(m, blocks, brk, lists0, {}, lo, ptr, hi);
      ReadTags(m, blocks, brk, lists0, {}, ptr);
      StretchFacts(m1, blocks, brk, lists, out, lo, ptr, hi);
      StretchSize(lo, combined);
      PutTags(lo, combined, true);
      ghost var mt := mem[..];
      if lo != ptr {
        MemMove(lo, ptr, oldsize - DSIZE);
      } else {
        CopiedSelf(mt, ptr, oldsize - 8);
      }
      ghost var m2 := mem[..];
      SlideStored(m1, mt, m2, lo, ptr, combined, oldsize - 8);
      AbsorbThreaded(m1, m2, blocks, brk, lists, out, lo, ptr, hi);
      blocks := Carve(blocks, lo, hi, hi, true, false);
      Place(lo, newsize);
      GrownLive(blocks0, lo, hi, newsize, lo);
      GrowMoves(m, m1, m2, mem[..], blocks0, brk, lists0, lo, ptr, hi, newsize, oldsize - 8);
      if Separated(blocks0) {
        GrowSeparated(m, blocks0, brk, lists0, lo, ptr, hi, newsize);
      }
    }

    /** Case 2.1 of mm_realloc: absorb the free block after ptr. */
    method GrowNext(ptr: int, nextbp: int, oldsize: int, nextsize: int, newsize: int)
      requires Ready({}) && Live(blocks, ptr) && oldsize == blocks[ptr].size && nextbp == ptr + oldsize
      requires nextbp in blocks && !blocks[nextbp].alloc && nextsize == blocks[nextbp].size
      requires oldsize < newsize <= oldsize + nextsize && Multiple8(newsize)
      modifies this`lists, this`blocks, mem
      ensures Ready({}) && ptr in blocks && 0 <= blocks[ptr].size - newsize < 2 * DSIZE
      ensures blocks == Regrown(old(blocks), ptr, nextbp + nextsize, newsize)
      ensures Moved(old(mem[..]), mem[..], old(blocks), blocks, ptr, ptr, oldsize - 8)
      ensures Separated(old(blocks)) ==> Separated(blocks)
    {
      hide Threaded, KeepsLive, Moved, Separated, Drop, ListIndex;
      ghost var m, lists0, blocks0 := mem[..], lists, blocks;
      var combinedsize := oldsize + nextsize;
      ReadTags(m, blocks, brk, lists, {}, nextbp);
      DeleteBlock(nextbp, {});
      ghost var out := {} + {nextbp};
      assert out == Merged(blocks, ptr, ptr, ptr + combinedsize) - {ptr};
      Grow(m, lists0, out, ptr, ptr, oldsize, combinedsize, newsize);
      AfterFree(m, blocks0, brk, lists0, nextbp);
    }

    /** Case 2.2 of mm_realloc: slide into the free block before ptr. */
    method GrowPrev(ptr: int, prevbp: int, oldsize: int, prevsize: int, newsize: int)
      requires Ready({}) && Live(blocks, ptr) && oldsize == blocks[ptr].size
      requires prevbp in blocks && !blocks[prevbp].alloc && prevsize == blocks[prevbp].size && prevbp + prevsize == ptr
      requires oldsize < newsize <= oldsize + prevsize && Multiple8(newsize)
      modifies this`lists, this`blocks, mem
      ensures Ready({}) && prevbp in blocks && 0 <= blocks[prevbp].size - newsize < 2 * DSIZE
      ensures blocks == Regrown(old(blocks), prevbp, ptr + oldsize, newsize)
      ensures Moved(old(mem[..]), mem[..], old(blocks), blocks, ptr, prevbp, oldsize - 8)
      ensures Separated(old(blocks)) ==>
                (Separated(blocks) <==>
                  !(oldsize + prevsize - newsize >= 2 * DSIZE && ptr + oldsize in old(blocks)
                    && !old(blocks)[ptr + oldsize].alloc))
    {
      hide Threaded, KeepsLive, Moved, Separated, Drop, ListIndex;
      ghost var m, lists0 := mem[..], lists;
      var combinedsize := oldsize + prevsize;
      ReadTags(m, blocks, brk, lists, {}, prevbp);
      DeleteBlock(prevbp, {});
      ghost var out := {} + {prevbp};
      assert out == Merged(blocks, prevbp, ptr, prevbp + combinedsize) - {ptr};
      Grow(m, lists0, out, prevbp, ptr, oldsize, combinedsize, newsize);
    }

    /** Case 2.3 of mm_realloc: slide into the free block before ptr and absorb the one after. */
    method GrowBoth(ptr: int, prevbp: int, nextbp: int, oldsize: int, prevsize: int, nextsize: int, newsize: int)
      requires Ready({}) && Live(blocks, ptr) && oldsize == blocks[ptr].size && nextbp == ptr + oldsize
      requires prevbp in blocks && !blocks[prevbp].alloc && prevsize == blocks[prevbp].size && prevbp + prevsize == ptr
      requires nextbp in blocks && !blocks[nextbp].alloc && nextsize == blocks[nextbp].size
      requires oldsize < newsize <= oldsize + nextsize + prevsize && Multiple8(newsize)
      modifies this`lists, this`blocks, mem
      ensures Ready({}) && prevbp in blocks && 0 <= blocks[prevbp].size - newsize < 2 * DSIZE
      ensures blocks == Regrown(old(blocks), prevbp, nextbp + nextsize, newsize)
      ensures Moved(old(mem[..]), mem[..], old(blocks), blocks, ptr, prevbp, oldsize - 8)
      ensures Separated(old(blocks)) ==> Separated(blocks)
    {
      hide Threaded, KeepsLive, Moved, Separated, Drop, ListIndex;
      ghost var m, lists0, blocks0 := mem[..], lists, blocks;
      var combinedsize := oldsize + nextsize + prevsize;
      ReadTags(m, blocks, brk, lists, {}, ptr);
      ReadTags(m, blocks, brk, lists, {}, prevbp);
      ReadTags(m, blocks, brk, lists, {}, nextbp);
      DeleteBlock(prevbp, {});
      ghost var m1 := mem[..];
      DeleteBlock(nextbp, {} + {prevbp});
      KeepsTwice(m, m1, mem[..], blocks);
      ghost var out := {} + {prevbp} + {nextbp};
      assert out == Merged(blocks, prevbp, ptr, prevbp + combinedsize) - {ptr};
      Grow(m, lists0, out, prevbp, ptr, oldsize, combinedsize, newsize);
      AfterFree(m, blocks0, brk, lists0, nextbp);
    }

    /** Case 2.4 of mm_realloc: move to a new block. */
    method Relocate(ptr: int, size: int, oldsize: int) returns (r: int)
      requires Valid() && ptr in live && 0 < size < 0x7FFF_FFF0
      requires oldsize == blocks[ptr].size < AdjustedSize(size)
      modifies this, mem
      ensures Valid() && heapListp != 0
      ensures r == 0 <==> NoneFits(old(blocks), AdjustedSize(size)) && old(brk) + AdjustedSize(size) > mem.Length
      ensures r == 0 ==> mem[..] == old(mem[..]) && blocks == old(blocks) && live == old(live) && brk == old(brk)
      ensures r != 0 ==>
                && r !in old(live) && live == (old(live) - {ptr})[r := size] && r in blocks && blocks[r].size >= oldsize
                && KeepsWords(old(mem[..]), mem[..], ptr, r, oldsize - 8)
      ensures r != 0 ==> Relocated(old(blocks), blocks, old(brk), ptr, AdjustedSize(size), r)
      ensures r != 0 ==> 0 <= blocks[r].size - AdjustedSize(size) < 2 * DSIZE
      ensures r != 0 ==> brk == old(brk) + (if NoneFits(old(blocks), AdjustedSize(size)) then AdjustedSize(size) else 0)
      ensures Spared(old(mem[..]), mem[..], old(blocks), blocks, old(live), ptr)
      ensures Separated(old(blocks)) ==> Separated(blocks)
    {
      hide Threaded, Served, Spared, Separated, KeepsWords, Copied, Granted, Released, NoneFits, AdjustedSize, SizeOf,
           AllocOf, WordAddr, Multiple8;
      ghost var m, blocks0, live0 := mem[..], blocks, live;
      LiveIs(blocks, live, ptr);
      ReadTags(m, blocks, brk, lists, {}, ptr);
      NothingSpared(m, blocks, brk, lists, live);
      NullNeverLive(m, blocks, brk, lists, live);
      var newptr := Malloc(size);
      if newptr == 0 {
        return 0;
      }
      ghost var m1, blocks1, live1, lists1 := mem[..], blocks, live, lists;
      SparedOne(m, m1, blocks0, blocks1, live0, ptr);
      ReadTags(m1, blocks, brk, lists, {}, ptr);
      ReadTags(m1, blocks, brk, lists, {}, newptr);
      MemMove(newptr, ptr, oldsize - DSIZE);
      ghost var m2 := mem[..];
      CopyReady(m1, m2, blocks1, brk, lists, live, newptr, ptr, oldsize - 8);
      ghost var brk1 := brk;
      Free(ptr);
      RelocateSeen(m, m1, m2, mem[..], blocks0, blocks1, blocks, brk1, lists1, live0, ptr, newptr, size);
      r := newptr;
    }

    /** Case 1 of mm_realloc: the block keeps its place and gives up what is worth a block of its own. */
    method Shrink(ptr: int, ghost size: int, newsize: int)
      requires Ready({}) && Served(blocks, live) && ptr in live && 0 < size < 0x7FFF_FFF0
      requires newsize == AdjustedSize(size) <= blocks[ptr].size
      modifies this`lists, this`blocks, this`live, mem
      ensures Ready({}) && Served(blocks, live) && live == (old(live) - {ptr})[ptr := size]
      ensures ptr in blocks && newsize <= blocks[ptr].size <= old(blocks)[ptr].size
      ensures blocks[ptr].size - newsize < 2 * DSIZE && Resized(old(blocks), blocks, old(brk), ptr, newsize, ptr)
      ensures KeepsWords(old(mem[..]), mem[..], ptr, ptr, blocks[ptr].size - 8)
      ensures Spared(old(mem[..]), mem[..], old(blocks), blocks, old(live), ptr)
      ensures Separated(old(blocks)) ==> (Separated(blocks) <==> !ReallocPairs(old(blocks), ptr, newsize))
    {
      hide Threaded, Served, Spared, Separated, KeepsWords, KeepsOutside, Moved, Placed, AdjustedSize, ReallocPairs,
           Regrown, SizeOf, AllocOf, WordAddr, Multiple8;
      ghost var m, blocks0, lists0 := mem[..], blocks, lists;
      LiveIs(blocks, live, ptr);
      ReadTags(m, blocks, brk, lists, {}, ptr);
      Adjusted(size);
      Place(ptr, newsize);
      ShrinkMoves(m, mem[..], blocks0, brk, lists0, ptr, newsize);
      MovedServed(m, mem[..], blocks0, blocks, live, ptr, ptr, blocks[ptr].size - 8, size);
      live := (live - {ptr})[ptr := size];
    }

    /** mm_realloc of a live block, to a size larger than its own or not. */
    method Resize(ptr: int, size: int, newsize: int) returns (r: int)
      requires Valid() && ptr in live && 0 < size < 0x7FFF_FFF0 && newsize == AdjustedSize(size)
      modifies this, mem
      ensures Valid() && heapListp != 0
      ensures r == 0 <==>
                Cramped(old(blocks), ptr, newsize) && NoneFits(old(blocks), newsize) && old(brk) + newsize > mem.Length
      ensures r == 0 ==> mem[..] == old(mem[..]) && blocks == old(blocks) && live == old(live) && brk == old(brk)
      ensures r != 0 ==>
                && (r == ptr || r !in old(live)) && live == (old(live) - {ptr})[r := size] && r in blocks
                && KeepsWords(old(mem[..]), mem[..], ptr, r, Min(old(blocks)[ptr].size, blocks[r].size) - 8)
      ensures r != 0 ==> Resized(old(blocks), blocks, old(brk), ptr, newsize, r)
      ensures r != 0 ==> 0 <= blocks[r].size - newsize < 2 * DSIZE
      ensures r != 0 ==>
                brk == old(brk) +
                       (if Cramped(old(blocks), ptr, newsize) && NoneFits(old(blocks), newsize) then newsize else 0)
      ensures Spared(old(mem[..]), mem[..], old(blocks), blocks, old(live), ptr)
      ensures Separated(old(blocks)) ==> (Separated(blocks) <==> !ReallocPairs(old(blocks), ptr, newsize))
    {
      hide Resized, Relocated, Regrown, NoneFits, Threaded, Served, Spared, Separated, KeepsWords, KeepsOutside, Moved,
           Placed, AdjustedSize, ReallocPairs, RoomAfter, RoomBefore, RoomAround, SizeOf, AllocOf, WordAddr, Multiple8;
      ghost var m, blocks0 := mem[..], blocks;
      LiveIs(blocks, live, ptr);
      ReadTags(m, blocks, brk, lists, {}, ptr);
      ReadNext(m, blocks, brk, lists, {}, ptr);
      ReadPrev(m, blocks, brk, lists, {}, ptr);
      Adjusted(size);
      var oldsize := HdrSize(ptr);
      if newsize <= oldsize {
        Shrink(ptr, size, newsize);
        return ptr;
      }
      var nextbp := NextBlkp(ptr);
      var nextsize := HdrSize(nextbp);
      var prevbp := PrevBlkp(ptr);
      ReadTags(m, blocks, brk, lists, {}, prevbp);
      var prevsize := HdrSize(prevbp);
      RoomIs(m, blocks, brk, lists, ptr, prevbp, newsize);
      ResizedIs(m, blocks, brk, lists, ptr, prevbp, newsize);
      if !HdrAlloc(nextbp) && oldsize + nextsize >= newsize {
        GrowNext(ptr, nextbp, oldsize, nextsize, newsize);
        r := ptr;
      } else if !HdrAlloc(prevbp) && oldsize + prevsize >= newsize {
        GrowPrev(ptr, prevbp, oldsize, prevsize, newsize);
        r := prevbp;
      } else if !HdrAlloc(nextbp) && !HdrAlloc(prevbp) && oldsize + nextsize + prevsize >= newsize {
        GrowBoth(ptr, prevbp, nextbp, oldsize, prevsize, nextsize, newsize);
        r := prevbp;
      } else {
        r := Relocate(ptr, size, oldsize);
        return;
      }
      MovedServed(m, mem[..], blocks0, blocks, live, ptr, r, oldsize - 8, size);
      live := (live - {ptr})[r := size];
    }

    /** mm_realloc */
    method Realloc(ptr: int, size: int) returns (r: int)
      requires Valid() && (ptr == 0 || ptr in live) && 0 <= size < 0x7FFF_FFF0
      requires heapListp == 0 ==> FIRST <= mem.Length
      modifies this, mem
      ensures Valid()
      ensures size == 0 ==> r == 0 && live == old(live) - {ptr}
      ensures size != 0 && r == 0 ==> live == old(live)
      ensures r != 0 ==> (r == ptr || r !in old(live)) && live == (old(live) - {ptr})[r := size] && r in blocks
      ensures r != 0 && ptr != 0 ==>
                KeepsWords(old(mem[..]), mem[..], ptr, r, Min(old(blocks)[ptr].size, blocks[r].size) - 8)
      ensures size != 0 && ptr == 0 ==>
                (r == 0 <==> NoneFits(old(Tiling()), AdjustedSize(size))
                             && old(End()) + AdjustedSize(size) > mem.Length)
      ensures size != 0 && ptr != 0 ==>
                && (r == 0 <==>
                     && Cramped(old(blocks), ptr, AdjustedSize(size)) && NoneFits(old(blocks), AdjustedSize(size))
                     && old(brk) + AdjustedSize(size) > mem.Length)
                && (r == 0 ==> mem[..] == old(mem[..]) && blocks == old(blocks) && brk == old(brk))
      ensures r != 0 && ptr != 0 ==>
                && Resized(old(blocks), blocks, old(brk), ptr, AdjustedSize(size), r)
                && 0 <= blocks[r].size - AdjustedSize(size) < 2 * DSIZE
                && brk == old(brk) +
                          (if Cramped(old(blocks), ptr, AdjustedSize(size)) && NoneFits(old(blocks), AdjustedSize(size))
                           then AdjustedSize(size) else 0)
      ensures Spared(old(mem[..]), mem[..], old(blocks), blocks, old(live), ptr)
      ensures Separated(old(blocks)) && (size == 0 || ptr == 0) ==> Separated(blocks)
      ensures Separated(old(blocks)) && size != 0 && ptr != 0 ==>
                (Separated(blocks) <==> !ReallocPairs(old(blocks), ptr, AdjustedSize(size)))
    {
      hide Resized, Granted, NoneFits, Threaded, Served, Spared, Separated, KeepsWords, AdjustedSize, ReallocPairs,
           Cramped;
      NullNeverLive(mem[..], blocks, brk, lists, live);
      if size == 0 {
        Free(ptr);
        return 0;
      }
      if ptr == 0 {
        r := Malloc(size);
        return;
      }
      LiveIs(blocks, live, ptr);
      r := Resize(ptr, size, AdjustedSize(size));
    }
  }
}
