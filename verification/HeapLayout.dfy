/**
  How a heap is divided into blocks, and how the boundary tags record it.

  Memory is a sequence of cells indexed by byte address; the 4-byte word at an aligned address p
  is cell p, and only the cells at multiples of four are ever used. A block is named by the
  address bp of its payload: its header is the word at bp - 4, its footer the last word of it.
  */
module HeapLayout {
  import opened HeapWords

  /** The prologue block, whose payload holds the list heads, and the first block after it. */
  const PROLOGUE := 8
  const FIRST := 72

  datatype Block = Block(size: int, alloc: bool)

  type Blocks = map<int, Block>

  /** The blocks lie between the prologue and the epilogue and do not overlap. */
  ghost predicate Shape(blocks: Blocks, end: int) {
    && FIRST <= end < 0x8000_0000
    && PROLOGUE in blocks && blocks[PROLOGUE] == Block(64, true)
    && (forall b :: b in blocks ==> PROLOGUE <= b && 16 <= blocks[b].size && b + blocks[b].size <= end)
    && (forall b, c :: b in blocks && c in blocks && b < c ==> b + blocks[b].size <= c)
  }

  /** Addresses and sizes are multiples of eight. */
  ghost predicate AlignedAt(blocks: Blocks, b: int) {
    b in blocks ==> b % 8 == 0 && blocks[b].size % 8 == 0
  }

  ghost predicate Aligned(blocks: Blocks, end: int) {
    && end % 8 == 0
    && forall b {:trigger AlignedAt(blocks, b)} :: AlignedAt(blocks, b)
  }

  /** No gap after b: another block, or the epilogue, starts where b ends. */
  ghost predicate NextOk(blocks: Blocks, end: int, b: int) {
    b in blocks ==> b + blocks[b].size == end || b + blocks[b].size in blocks
  }

  /** The footer just below b is that of the block that ends where b starts. */
  ghost predicate PrevOk(m: seq<Word>, blocks: Blocks, b: int) {
    && 8 <= b && b - 8 < |m|
    && var p := b - SizeOf(m[b - 8]);
       p in blocks && p + blocks[p].size == b
  }

  ghost predicate Tagged(m: seq<Word>, b: int, size: int, alloc: bool) {
    && 4 <= b && 8 <= size && b + size - 8 < |m|
    && m[b - 4] == Tag(size, alloc)
    && m[b + size - 8] == Tag(size, alloc)
  }

  /** Blocks tile the space from the prologue to the epilogue, and every header equals its footer. */
  ghost predicate Tiled(m: seq<Word>, blocks: Blocks, end: int) {
    && Shape(blocks, end) && Aligned(blocks, end) && end <= |m|
    && (forall b :: b in blocks ==> Tagged(m, b, blocks[b].size, blocks[b].alloc))
    && (forall b {:trigger NextOk(blocks, end, b)} :: NextOk(blocks, end, b))
    && (forall b {:trigger PrevOk(m, blocks, b)} :: (b in blocks || b == end) && b != PROLOGUE ==> PrevOk(m, blocks, b))
    && m[end - 4] == Tag(0, true)
  }

  /** The tiling in which [lo, hi) is one block up to mid and, when mid < hi, a second one after it. */
  ghost function Carve(blocks: Blocks, lo: int, mid: int, hi: int, a1: bool, a2: bool): Blocks {
    var rest := map b | b in blocks && !(lo <= b < hi) :: blocks[b];
    if mid < hi then rest[lo := Block(mid - lo, a1)][mid := Block(hi - mid, a2)]
    else rest[lo := Block(mid - lo, a1)]
  }

  /** The two memories agree outside the blocks that fill [lo, hi). */
  ghost predicate SameOutside(m: seq<Word>, m': seq<Word>, lo: int, hi: int) {
    && |m'| == |m|
    && forall p :: 0 <= p < |m| && !(lo - 4 <= p < hi - 4) ==> m'[p] == m[p]
  }

  /** [lo, hi) is filled exactly by blocks. */
  ghost predicate Span(blocks: Blocks, end: int, lo: int, hi: int) {
    lo in blocks && lo != PROLOGUE && lo < hi && (hi in blocks || hi == end)
  }

  lemma CarveApart(blocks: Blocks, end: int, lo: int, mid: int, hi: int, a1: bool, a2: bool, b: int, c: int)
    requires forall b, c :: b in blocks && c in blocks && b < c ==> b + blocks[b].size <= c
    requires forall b :: b in blocks ==> b + blocks[b].size <= end
    requires Span(blocks, end, lo, hi) && lo < mid <= hi
    requires var blocks' := Carve(blocks, lo, mid, hi, a1, a2); b in blocks' && c in blocks' && b < c
    ensures b + Carve(blocks, lo, mid, hi, a1, a2)[b].size <= c
  {
  }

  lemma CarveShape(blocks: Blocks, end: int, lo: int, mid: int, hi: int, a1: bool, a2: bool)
    requires Shape(blocks, end) && Span(blocks, end, lo, hi)
    requires lo + 16 <= mid <= hi && (mid == hi || mid + 16 <= hi)
    ensures Shape(Carve(blocks, lo, mid, hi, a1, a2), end)
  {
    var blocks' := Carve(blocks, lo, mid, hi, a1, a2);
    assert lo >= FIRST;
    forall b, c | b in blocks' && c in blocks' && b < c ensures b + blocks'[b].size <= c {
      CarveApart(blocks, end, lo, mid, hi, a1, a2, b, c);
    }
  }

  lemma CarveAligned(blocks: Blocks, end: int, lo: int, mid: int, hi: int, a1: bool, a2: bool, b: int)
    requires Aligned(blocks, end) && Span(blocks, end, lo, hi) && mid % 8 == 0
    ensures AlignedAt(Carve(blocks, lo, mid, hi, a1, a2), b)
  {
    assert AlignedAt(blocks, b) && AlignedAt(blocks, lo) && AlignedAt(blocks, hi);
    DifferenceAligned(lo, mid);
    DifferenceAligned(mid, hi);
    DifferenceAligned(lo, hi);
  }

  lemma DifferenceAligned(lo: int, hi: int)
    requires lo % 8 == 0 && hi % 8 == 0
    ensures (hi - lo) % 8 == 0
  {
  }

  /** A block outside [lo, hi) ends outside its interior. */
  lemma EndsOutside(blocks: Blocks, end: int, lo: int, hi: int, b: int)
    requires Shape(blocks, end) && Span(blocks, end, lo, hi)
    requires b in blocks && !(lo <= b < hi)
    ensures b + blocks[b].size <= lo || hi <= b
  {
  }

  lemma CarveNext(blocks: Blocks, end: int, lo: int, mid: int, hi: int, a1: bool, a2: bool, b: int)
    requires Shape(blocks, end) && Span(blocks, end, lo, hi)
    requires lo < mid <= hi
    requires NextOk(blocks, end, b)
    ensures NextOk(Carve(blocks, lo, mid, hi, a1, a2), end, b)
  {
    if b in blocks && !(lo <= b < hi) {
      EndsOutside(blocks, end, lo, hi, b);
      CarveNextOutside(blocks, end, lo, mid, hi, a1, a2, b);
    }
  }

  lemma CarveNextOutside(blocks: Blocks, end: int, lo: int, mid: int, hi: int, a1: bool, a2: bool, b: int)
    requires Span(blocks, end, lo, hi) && lo < mid <= hi
    requires b in blocks && blocks[b].size > 0 && (b + blocks[b].size <= lo || hi <= b)
    requires NextOk(blocks, end, b)
    ensures NextOk(Carve(blocks, lo, mid, hi, a1, a2), end, b)
  {
  }

  /** The footer below b is untouched, so b keeps its predecessor. */
  lemma CarvePrev(m: seq<Word>, m': seq<Word>, blocks: Blocks, end: int, lo: int, mid: int, hi: int, a1: bool,
                  a2: bool, b: int)
    requires Shape(blocks, end) && Span(blocks, end, lo, hi)
    requires lo < mid <= hi && !(lo < b <= hi)
    requires b in blocks || b == end
    requires b - 8 < |m| == |m'| && PrevOk(m, blocks, b) && m'[b - 8] == m[b - 8]
    ensures PrevOk(m', Carve(blocks, lo, mid, hi, a1, a2), b)
  {
    var p := b - SizeOf(m[b - 8]);
    assert p in blocks && p + blocks[p].size == b;
    assert p < hi && hi in blocks ==> b <= hi;
  }

  lemma FooterNamesPrev(m: seq<Word>, blocks: Blocks, p: int, size: int, alloc: bool)
    requires p in blocks && blocks[p] == Block(size, alloc)
    requires Tagged(m, p, size, alloc) && 0 <= size < 0x8000_0000 && size % 8 == 0
    ensures PrevOk(m, blocks, p + size)
  {
    TagFields(size, alloc);
  }

  lemma CarveTags(m: seq<Word>, m': seq<Word>, blocks: Blocks, end: int, lo: int, hi: int, b: int)
    requires Shape(blocks, end) && Span(blocks, end, lo, hi)
    requires SameOutside(m, m', lo, hi)
    requires b in blocks && !(lo <= b < hi) && Tagged(m, b, blocks[b].size, blocks[b].alloc)
    ensures Tagged(m', b, blocks[b].size, blocks[b].alloc)
  {
    if b < lo {
      assert b + blocks[b].size <= lo;
    }
    assert hi <= b || b + blocks[b].size <= lo;
  }

  /**
    Splitting, merging and retagging are one thing: the blocks filling [lo, hi) are replaced by
    one or two, and nothing outside is written.
    */
  lemma Retile(m: seq<Word>, m': seq<Word>, blocks: Blocks, end: int, lo: int, mid: int, hi: int, a1: bool, a2: bool)
    requires Tiled(m, blocks, end) && Span(blocks, end, lo, hi)
    requires lo + 16 <= mid <= hi && mid % 8 == 0 && (mid == hi || mid + 16 <= hi)
    requires SameOutside(m, m', lo, hi)
    requires Tagged(m', lo, mid - lo, a1)
    requires mid < hi ==> Tagged(m', mid, hi - mid, a2)
    ensures Tiled(m', Carve(blocks, lo, mid, hi, a1, a2), end)
  {
    var blocks' := Carve(blocks, lo, mid, hi, a1, a2);
    CarveShape(blocks, end, lo, mid, hi, a1, a2);
    forall b ensures AlignedAt(blocks', b) {
      CarveAligned(blocks, end, lo, mid, hi, a1, a2, b);
    }
    forall b ensures NextOk(blocks', end, b) {
      assert NextOk(blocks, end, b);
      CarveNext(blocks, end, lo, mid, hi, a1, a2, b);
    }
    forall b | b in blocks' ensures Tagged(m', b, blocks'[b].size, blocks'[b].alloc) {
      if b in blocks && !(lo <= b < hi) {
        CarveTags(m, m', blocks, end, lo, hi, b);
      }
    }
    RetilePrev(m, m', blocks, end, lo, mid, hi, a1, a2);
    assert hi - 4 <= end - 4;
  }

  lemma RetilePrev(m: seq<Word>, m': seq<Word>, blocks: Blocks, end: int, lo: int, mid: int, hi: int, a1: bool,
                   a2: bool)
    requires Shape(blocks, end) && Aligned(blocks, end) && end <= |m| && Span(blocks, end, lo, hi)
    requires forall b {:trigger PrevOk(m, blocks, b)} :: (b in blocks || b == end) && b != PROLOGUE ==>
               PrevOk(m, blocks, b)
    requires lo + 16 <= mid <= hi && mid % 8 == 0
    requires SameOutside(m, m', lo, hi)
    requires Tagged(m', lo, mid - lo, a1)
    requires mid < hi ==> Tagged(m', mid, hi - mid, a2)
    ensures var blocks' := Carve(blocks, lo, mid, hi, a1, a2);
            forall b {:trigger PrevOk(m', blocks', b)} :: (b in blocks' || b == end) && b != PROLOGUE ==>
              PrevOk(m', blocks', b)
  {
    var blocks' := Carve(blocks, lo, mid, hi, a1, a2);
    forall b | (b in blocks' || b == end) && b != PROLOGUE ensures PrevOk(m', blocks', b) {
      if b == mid || b == hi {
        CarvedPrev(m', blocks, end, lo, mid, hi, a1, a2);
      } else {
        assert PrevOk(m, blocks, b);
        CarvePrev(m, m', blocks, end, lo, mid, hi, a1, a2, b);
      }
    }
  }

  lemma CarvedPrev(m': seq<Word>, blocks: Blocks, end: int, lo: int, mid: int, hi: int, a1: bool, a2: bool)
    requires Aligned(blocks, end) && Span(blocks, end, lo, hi)
    requires lo + 16 <= mid <= hi < 0x8000_0000 && mid % 8 == 0 && 8 <= lo
    requires Tagged(m', lo, mid - lo, a1)
    requires mid < hi ==> Tagged(m', mid, hi - mid, a2)
    ensures PrevOk(m', Carve(blocks, lo, mid, hi, a1, a2), mid)
    ensures PrevOk(m', Carve(blocks, lo, mid, hi, a1, a2), hi)
  {
    var blocks' := Carve(blocks, lo, mid, hi, a1, a2);
    CarveAligned(blocks, end, lo, mid, hi, a1, a2, lo);
    FooterNamesPrev(m', blocks', lo, mid - lo, a1);
    if mid < hi {
      CarveAligned(blocks, end, lo, mid, hi, a1, a2, mid);
      FooterNamesPrev(m', blocks', mid, hi - mid, a2);
    }
  }

  /** The blocks that clients hold. */
  ghost predicate Live(blocks: Blocks, b: int) {
    b in blocks && b != PROLOGUE && blocks[b].alloc
  }

  /** No word of the payload of a live block differs. */
  ghost predicate KeepsLive(m: seq<Word>, m': seq<Word>, blocks: Blocks) {
    && |m'| == |m|
    && forall b, p :: Live(blocks, b) && b <= p < b + blocks[b].size - 8 && 0 <= p < |m| ==> m'[p] == m[p]
  }

  /** p is a word of the payload of block x. */
  ghost predicate InPayload(blocks: Blocks, x: int, p: int) {
    x in blocks && x <= p < x + blocks[x].size - 8
  }

  lemma PayloadIsNoTag(blocks: Blocks, end: int, x: int, p: int, b: int)
    requires Shape(blocks, end) && InPayload(blocks, x, p) && b in blocks
    ensures p != b - 4 && p != b + blocks[b].size - 8 && p < end - 8
  {
  }

  ghost predicate SameTags(m: seq<Word>, m': seq<Word>, blocks: Blocks, b: int) {
    && |m'| == |m|
    && (b in blocks && 4 <= b && 8 <= blocks[b].size && b + blocks[b].size - 8 < |m| ==>
          m'[b - 4] == m[b - 4] && m'[b + blocks[b].size - 8] == m[b + blocks[b].size - 8])
  }

  lemma PrevFrame(m: seq<Word>, m': seq<Word>, blocks: Blocks, b: int)
    requires PrevOk(m, blocks, b) && |m'| == |m|
    requires var p := b - SizeOf(m[b - 8]); 4 <= p && 8 <= blocks[p].size && SameTags(m, m', blocks, p)
    ensures PrevOk(m', blocks, b)
  {
  }

  /** Changing payloads only leaves the tiling as it was. */
  lemma TiledFrame(m: seq<Word>, m': seq<Word>, blocks: Blocks, end: int)
    requires Tiled(m, blocks, end) && |m'| == |m|
    requires forall b {:trigger SameTags(m, m', blocks, b)} :: SameTags(m, m', blocks, b)
    requires m'[end - 4] == m[end - 4]
    ensures Tiled(m', blocks, end)
  {
    forall b | b in blocks ensures Tagged(m', b, blocks[b].size, blocks[b].alloc) {
      assert Tagged(m, b, blocks[b].size, blocks[b].alloc) && SameTags(m, m', blocks, b);
    }
    forall b | (b in blocks || b == end) && b != PROLOGUE ensures PrevOk(m', blocks, b) {
      assert PrevOk(m, blocks, b);
      assert SameTags(m, m', blocks, b - SizeOf(m[b - 8]));
      PrevFrame(m, m', blocks, b);
    }
  }

  lemma PayloadStore(m: seq<Word>, blocks: Blocks, end: int, x: int, p: int, v: Word)
    requires Tiled(m, blocks, end) && InPayload(blocks, x, p)
    ensures p < |m| && Tiled(m[p := v], blocks, end)
    ensures !Live(blocks, x) ==> KeepsLive(m, m[p := v], blocks)
  {
    var m' := m[p := v];
    forall b ensures SameTags(m, m', blocks, b) {
      if b in blocks {
        PayloadIsNoTag(blocks, end, x, p, b);
      }
    }
    TiledFrame(m, m', blocks, end);
  }

  lemma ExtendPrev(m: seq<Word>, m': seq<Word>, blocks: Blocks, end: int, size: int, b: int)
    requires Shape(blocks, end) && end % 8 == 0 && end <= |m| == |m'|
    requires 16 <= size && size % 8 == 0 && end + size < 0x8000_0000 && Tagged(m', end, size, false)
    requires forall p :: 0 <= p < end - 4 ==> m'[p] == m[p]
    requires b == end + size || (b <= end && PrevOk(m, blocks, b))
    ensures PrevOk(m', blocks[end := Block(size, false)], b)
  {
    if b == end + size {
      FooterNamesPrev(m', blocks[end := Block(size, false)], end, size, false);
    } else {
      assert m'[b - 8] == m[b - 8];
    }
  }

  lemma ExtendAligned(blocks: Blocks, end: int, size: int)
    requires Aligned(blocks, end) && size % 8 == 0
    ensures Aligned(blocks[end := Block(size, false)], end + size)
  {
    var blocks' := blocks[end := Block(size, false)];
    forall b ensures AlignedAt(blocks', b) {
      assert AlignedAt(blocks, b);
    }
  }

  lemma ExtendShape(blocks: Blocks, end: int, size: int)
    requires Shape(blocks, end) && 16 <= size && end + size < 0x8000_0000
    requires forall b {:trigger NextOk(blocks, end, b)} :: NextOk(blocks, end, b)
    ensures Shape(blocks[end := Block(size, false)], end + size)
    ensures var blocks' := blocks[end := Block(size, false)];
            forall b {:trigger NextOk(blocks', end + size, b)} :: NextOk(blocks', end + size, b)
  {
    var blocks', end' := blocks[end := Block(size, false)], end + size;
    forall b ensures NextOk(blocks', end', b) {
      assert NextOk(blocks, end, b);
    }
  }

  /** The heap grows by one free block, whose header overwrites the old epilogue. */
  lemma ExtendTiled(m: seq<Word>, m': seq<Word>, blocks: Blocks, end: int, size: int)
    requires Tiled(m, blocks, end) && 16 <= size && size % 8 == 0 && end + size <= |m| == |m'|
             && end + size < 0x8000_0000
    requires forall p :: 0 <= p < end - 4 ==> m'[p] == m[p]
    requires Tagged(m', end, size, false) && m'[end + size - 4] == Tag(0, true)
    ensures Tiled(m', blocks[end := Block(size, false)], end + size)
  {
    var blocks', end' := blocks[end := Block(size, false)], end + size;
    ExtendAligned(blocks, end, size);
    ExtendShape(blocks, end, size);
    forall b | b in blocks ensures Tagged(m', b, blocks[b].size, blocks[b].alloc) {
      assert Tagged(m, b, blocks[b].size, blocks[b].alloc) && b + blocks[b].size <= end;
    }
    forall b | (b in blocks' || b == end') && b != PROLOGUE ensures PrevOk(m', blocks', b) {
      assert b != end' ==> PrevOk(m, blocks, b);
      ExtendPrev(m, m', blocks, end, size, b);
    }
  }
}
