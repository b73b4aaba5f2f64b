/** Two runs in which mm_realloc leaves adjacent free blocks behind. */
module HeapPairs {
  import opened HeapWords
  import opened HeapLayout
  import opened HeapState
  import opened HeapAdjacency
  import opened HeapMoves
  import opened Allocator

  /** A heap in use, with no free block. */
  ghost predicate Packed(h: Heap)
    reads h, h.mem
  {
    && h.Valid() && h.heapListp != 0 && h.blocks.Keys == h.live.Keys + {PROLOGUE}
    && forall b :: b in h.blocks ==> h.blocks[b].alloc
  }

  /** A tiling that contains another has no further block in the space of that one. */
  lemma {:induction false} Covered(blocks: Blocks, end: int, blocks': Blocks, end': int, s: int, b: int)
    requires Shape(blocks, end) && Shape(blocks', end') && (s in blocks || s == end)
    requires forall c {:trigger NextOk(blocks, end, c)} :: NextOk(blocks, end, c)
    requires forall c :: c in blocks ==> c in blocks' && blocks'[c] == blocks[c]
    requires b in blocks' && s <= b < end
    ensures b in blocks
    decreases end - s
  {
    if b != s {
      assert NextOk(blocks, end, s);
      Covered(blocks, end, blocks', end', s + blocks[s].size, b);
    }
  }

  /** All that fits behind a tiling that reaches to end is one block, when it is that large. */
  lemma OneMore(blocks: Blocks, end: int, blocks': Blocks, end': int, r: int)
    requires Shape(blocks, end) && Shape(blocks', end')
    requires forall c {:trigger NextOk(blocks, end, c)} :: NextOk(blocks, end, c)
    requires forall c :: c in blocks ==> c in blocks' && blocks'[c] == blocks[c]
    requires r in blocks' && r !in blocks && blocks'[r].size >= end' - end
    ensures r == end && blocks' == blocks[end := Block(end' - end, blocks'[end].alloc)]
  {
    forall b | b in blocks' && b < end ensures b in blocks {
      Covered(blocks, end, blocks', end', PROLOGUE, b);
    }
  }

  /** What Valid and Spared say of the blocks alone. */
  lemma TilingOf(h: Heap)
    requires h.Valid() && h.heapListp != 0
    ensures Shape(h.blocks, h.brk) && Served(h.blocks, h.live)
    ensures forall c {:trigger NextOk(h.blocks, h.brk, c)} :: NextOk(h.blocks, h.brk, c)
  {
  }

  lemma StillThere(m: seq<Word>, m': seq<Word>, blocks: Blocks, blocks': Blocks, end: int, end': int,
                   live: map<int, int>)
    requires Spared(m, m', blocks, blocks', live, 0) && 0 !in live && Shape(blocks, end) && Shape(blocks', end')
    requires blocks.Keys == live.Keys + {PROLOGUE}
    ensures forall c :: c in blocks ==> c in blocks' && blocks'[c] == blocks[c]
  {
    forall c | c in live ensures c in blocks' && blocks'[c] == blocks[c] {
      assert Untouched(m, m', blocks, blocks', c);
    }
  }

  /** mm_malloc with no free block: the new block is the last. */
  method Append(h: Heap, size: int) returns (r: int)
    requires Packed(h) && 0 < size < 0x7FFF_FFF0 && h.brk + AdjustedSize(size) <= h.mem.Length
    modifies h, h.mem
    ensures Packed(h) && h.brk == old(h.brk) + AdjustedSize(size)
    ensures r == old(h.brk) && h.live == old(h.live)[r := size]
    ensures h.blocks == old(h.blocks)[r := Block(AdjustedSize(size), true)]
    ensures Separated(old(h.blocks)) ==> Separated(h.blocks)
  {
    hide Heap.Valid, Shape, Spared, Served, NextOk, Separated, AdjustedSize, Granted;
    ghost var m, blocks, live, end := h.mem[..], h.blocks, h.live, h.brk;
    TilingOf(h);
    NotLive(blocks, end, live);
    r := h.Malloc(size);
    TilingOf(h);
    StillThere(m, h.mem[..], blocks, h.blocks, end, h.brk, live);
    LiveIs(h.blocks, h.live, r);
    OneMore(blocks, end, h.blocks, h.brk, r);
  }

  lemma NotLive(blocks: Blocks, end: int, live: map<int, int>)
    requires Shape(blocks, end) && Served(blocks, live)
    ensures 0 !in live
  {
  }

  /** Without adjacent free blocks, a gap between allocated blocks is one free block. */
  lemma GapIsOneBlock(h: Heap, p: int, x: int, hi: int)
    requires h.Valid() && h.heapListp != 0 && Separated(h.blocks)
    requires p in h.blocks && p + h.blocks[p].size == x && x < hi
    requires if hi in h.blocks then h.blocks[hi].alloc else hi == h.brk
    requires forall b :: b in h.blocks && x <= b < hi ==> !h.blocks[b].alloc
    ensures x in h.blocks && h.blocks[x] == Block(hi - x, false)
  {
    assert NextOk(h.blocks, h.brk, p) && NextOk(h.blocks, h.brk, x);
    assert !FreePair(h.blocks, x);
  }

  /** A fresh heap after mm_init. */
  method Start() returns (h: Heap)
    ensures fresh(h) && fresh(h.mem) && h.mem.Length == 4096 && Packed(h) && Separated(h.blocks)
    ensures h.brk == FIRST && h.live == map[] && h.blocks == map[PROLOGUE := Block(64, true)]
  {
    h := new Heap(4096);
    var _ := h.Init();
  }

  /** The blocks that stay live when x is freed are still there. */
  lemma Others(m: seq<Word>, m': seq<Word>, blocks: Blocks, blocks': Blocks, live: map<int, int>, x: int)
    requires Spared(m, m', blocks, blocks', live, x)
    ensures forall c :: c in live && c != x ==> c in blocks' && c in blocks && blocks'[c] == blocks[c]
  {
    forall c | c in live && c != x ensures c in blocks' && c in blocks && blocks'[c] == blocks[c] {
      assert Untouched(m, m', blocks, blocks', c);
    }
  }

  /** p := malloc(56), q := malloc(8), free(q): p is 64 bytes at 72, and 16 free bytes follow. */
  method ShrinkHeap() returns (h: Heap)
    ensures fresh(h) && fresh(h.mem) && h.Valid() && h.heapListp != 0 && Separated(h.blocks)
    ensures h.live == map[72 := 56] && 72 in h.blocks && h.blocks[72] == Block(64, true)
    ensures 136 in h.blocks && h.blocks[136] == Block(16, false)
  {
    hide Heap.Valid, Shape, Spared, Served, NextOk, Separated, Released;
    h := Start();
    var p := Append(h, 56);
    var q := Append(h, 8);
    ghost var m, blocks, live := h.mem[..], h.blocks, h.live;
    h.Free(q);
    Others(m, h.mem[..], blocks, h.blocks, live, q);
    Freed(h, 72, 136, h.brk);
  }

  /** A gap that no live block reaches is free, and so one free block. */
  lemma Freed(h: Heap, p: int, x: int, hi: int)
    requires h.Valid() && h.heapListp != 0 && Separated(h.blocks)
    requires p in h.blocks && p + h.blocks[p].size == x && x < hi
    requires hi in h.live || hi == h.brk
    requires forall b :: b in h.live ==> b < x || hi <= b
    ensures x in h.blocks && h.blocks[x] == Block(hi - x, false)
  {
    GapIsOneBlock(h, p, x, hi);
  }

  /** Shrinking p to 8 bytes then splits a remainder off in front of the free block. */
  method ShrinkLeavesPair() returns (h: Heap)
    ensures h.Valid() && !Separated(h.blocks)
  {
    hide Heap.Valid, Shape, Spared, Served, Separated;
    h := ShrinkHeap();
    var _ := h.Realloc(72, 8);
  }

  /** malloc(40), malloc(8), malloc(8) */
  method ThreeBlocks() returns (h: Heap)
    ensures fresh(h) && fresh(h.mem) && Packed(h) && Separated(h.blocks)
    ensures h.brk == 152 && h.live == map[72 := 40, 120 := 8, 136 := 8]
    ensures h.blocks == map[PROLOGUE := Block(64, true), 72 := Block(48, true),
                            120 := Block(16, true), 136 := Block(16, true)]
  {
    hide Heap.Valid, Separated;
    h := Start();
    var p := Append(h, 40);
    var q := Append(h, 8);
    var r := Append(h, 8);
  }

  /** The first and the last of them freed again: 48 free, 16 live, 16 free bytes. */
  method SlideHeap() returns (h: Heap)
    ensures fresh(h) && fresh(h.mem) && h.Valid() && h.heapListp != 0 && Separated(h.blocks)
    ensures h.live == map[120 := 8] && 120 in h.blocks && h.blocks[120] == Block(16, true)
    ensures 72 in h.blocks && h.blocks[72] == Block(48, false) && 136 in h.blocks && h.blocks[136] == Block(16, false)
  {
    hide Heap.Valid, Shape, Spared, Served, NextOk, Separated, Released;
    h := ThreeBlocks();
    ghost var m, blocks, live := h.mem[..], h.blocks, h.live;
    h.Free(72);
    ghost var m1, blocks1, live1 := h.mem[..], h.blocks, h.live;
    Others(m, m1, blocks, blocks1, live, 72);
    h.Free(136);
    Others(m1, h.mem[..], blocks1, h.blocks, live1, 136);
    TilingOf(h);
    PrologueIs(h);
    Freed(h, PROLOGUE, 72, 120);
    Freed(h, 120, 136, h.brk);
  }

  lemma PrologueIs(h: Heap)
    requires h.Valid() && h.heapListp != 0
    ensures PROLOGUE in h.blocks && h.blocks[PROLOGUE] == Block(64, true)
  {
  }

  /** Growing q to 32 bytes then slides it to 72 and leaves the remainder in front of the free block. */
  method SlideLeavesPair() returns (h: Heap)
    ensures h.Valid() && !Separated(h.blocks)
  {
    hide Heap.Valid, Shape, Spared, Served, Separated;
    h := SlideHeap();
    assert FreeBefore(h.blocks, 120, 72);
    var _ := h.Realloc(120, 32);
  }
}
