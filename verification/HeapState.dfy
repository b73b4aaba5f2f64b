/** The block tiling and the free lists together. */
module HeapState {
  import opened Sequences
  import opened HeapWords
  import opened HeapLayout
  import opened FreeLists

  /** The free blocks not in `out`, with the class of their size. */
  ghost function FreeClasses(blocks: Blocks, end: int, out: set<int>): Classes
    requires Shape(blocks, end)
  {
    map b | b in blocks && !blocks[b].alloc && b !in out :: ListIndex(blocks[b].size)
  }

  /** The lists index exactly the free blocks, except those in `out`. */
  ghost predicate Threaded(m: seq<Word>, blocks: Blocks, end: int, lists: seq<seq<int>>, out: set<int>) {
    && Tiled(m, blocks, end)
    && Indexed(m, lists, FreeClasses(blocks, end, out))
  }

  lemma FreeApart(m: seq<Word>, blocks: Blocks, end: int, out: set<int>)
    requires Shape(blocks, end) && end <= |m|
    ensures Apart(m, FreeClasses(blocks, end, out))
  {
    var cls := FreeClasses(blocks, end, out);
    forall x | x in cls ensures 0 <= cls[x] < BASE_PTR_CNT {
      ListIndexIsCeilLog2(blocks[x].size, 0);
    }
  }

  /** insert_block, on values. */
  lemma InsertThreaded(m: seq<Word>, blocks: Blocks, end: int, lists: seq<seq<int>>, out: set<int>, bp: int)
    requires Threaded(m, blocks, end, lists, out)
    requires bp in blocks && !blocks[bp].alloc && bp in out
    ensures FIRST <= bp && bp + 16 <= end
    ensures var i := ListIndex(blocks[bp].size);
            && 0 <= i < BASE_PTR_CNT && m[Head(i)] < |m|
            && var m' := InsertLinks(m, Head(i), bp);
               && Threaded(m', blocks, end, lists[i := [bp] + lists[i]], out - {bp})
               && KeepsLive(m, m', blocks)
  {
    var i := ListIndex(blocks[bp].size);
    ListIndexIsCeilLog2(blocks[bp].size, 0);
    var cls := FreeClasses(blocks, end, out);
    assert FreeClasses(blocks, end, out - {bp}) == cls[bp := i];
    FreeApart(m, blocks, end, out - {bp});
    InsertIndexed(m, lists, cls, bp, i);
    assert LinksOk(m, lists, i) && Holds(lists, cls, i);
    InsertTiled(m, blocks, end, i, bp);
  }

  lemma LinkAligned(blocks: Blocks, end: int, p: int)
    requires Aligned(blocks, end) && (p == 0 || p in blocks)
    ensures WordAddr(p) && WordAddr(p + 4)
  {
    hide WordAddr;
    assert AlignedAt(blocks, p);
    EightIsFour(p);
  }

  lemma EightIsFour(p: int)
    requires p % 8 == 0
    ensures WordAddr(p) && WordAddr(p + 4)
  {
  }

  /** The head word of a list and the block it names are word-aligned. */
  lemma HeadAligned(m: seq<Word>, blocks: Blocks, end: int, lists: seq<seq<int>>, out: set<int>, i: int)
    requires Threaded(m, blocks, end, lists, out) && 0 <= i < BASE_PTR_CNT
    ensures WordAddr(Head(i)) && WordAddr(m[Head(i)])
  {
    var cls := FreeClasses(blocks, end, out);
    assert LinksOk(m, lists, i) && Holds(lists, cls, i);
    LinkAligned(blocks, end, m[Head(i)]);
  }

  /** So are the neighbours of a listed block. */
  lemma LinksAligned(m: seq<Word>, blocks: Blocks, end: int, lists: seq<seq<int>>, out: set<int>, i: int, k: int)
    requires Threaded(m, blocks, end, lists, out) && 0 <= i < BASE_PTR_CNT && 0 <= k < |lists[i]|
    ensures var bp := lists[i][k];
            && 0 <= bp && bp + 4 < |m|
            && WordAddr(m[bp]) && WordAddr((m[bp] as int) + 4) && WordAddr(m[bp + 4])
  {
    LinksAreFree(m, blocks, end, lists, out, i, k);
    LinkAligned(blocks, end, m[lists[i][k]]);
    LinkAligned(blocks, end, m[lists[i][k] + 4]);
  }

  lemma InsertTiled(m: seq<Word>, blocks: Blocks, end: int, i: int, bp: int)
    requires Tiled(m, blocks, end) && 0 <= i < BASE_PTR_CNT
    requires bp in blocks && !blocks[bp].alloc
    requires m[Head(i)] == 0 || (m[Head(i)] in blocks && !blocks[m[Head(i)]].alloc)
    ensures m[Head(i)] < |m|
    ensures var m' := InsertLinks(m, Head(i), bp);
            Tiled(m', blocks, end) && KeepsLive(m, m', blocks)
  {
    var next := m[Head(i)];
    PayloadStore(m, blocks, end, bp, bp, 0);
    var m1 := m[bp := 0];
    PayloadStore(m1, blocks, end, bp, bp + 4, next);
    var m2 := m1[bp + 4 := next];
    if next != 0 {
      PayloadStore(m2, blocks, end, next, next, bp);
    }
    var m3 := if next != 0 then m2[next := bp] else m2;
    PayloadStore(m3, blocks, end, PROLOGUE, Head(i), bp);
  }

  lemma DeleteTiled(m: seq<Word>, blocks: Blocks, end: int, i: int, bp: int)
    requires Tiled(m, blocks, end) && 0 <= i < BASE_PTR_CNT
    requires bp in blocks && !blocks[bp].alloc
    requires m[bp] == 0 || (m[bp] in blocks && !blocks[m[bp]].alloc)
    requires m[bp + 4] == 0 || (m[bp + 4] in blocks && !blocks[m[bp + 4]].alloc)
    ensures m[bp] + 4 < |m| && m[bp + 4] < |m|
    ensures var m' := DeleteLinks(m, Head(i), bp);
            Tiled(m', blocks, end) && KeepsLive(m, m', blocks)
  {
    var pred, succ := m[bp], m[bp + 4];
    if pred != 0 {
      PayloadStore(m, blocks, end, pred, pred + 4, succ);
    } else {
      PayloadStore(m, blocks, end, PROLOGUE, Head(i), succ);
    }
    var m1 := if pred != 0 then m[pred + 4 := succ] else m[Head(i) := succ];
    if succ != 0 {
      PayloadStore(m1, blocks, end, succ, succ, pred);
    }
  }

  /** delete_block, on values, with the position of the block in its list. */
  lemma DeleteThreaded(m: seq<Word>, blocks: Blocks, end: int, lists: seq<seq<int>>, out: set<int>, bp: int)
    returns (k: int)
    requires Threaded(m, blocks, end, lists, out)
    requires bp in blocks && !blocks[bp].alloc && bp !in out
    ensures FIRST <= bp && bp + 16 <= end
    ensures var i := ListIndex(blocks[bp].size);
            && 0 <= i < BASE_PTR_CNT && 0 <= k < |lists[i]| && lists[i][k] == bp
            && m[bp] + 4 < |m| && m[bp + 4] < |m|
            && var m' := DeleteLinks(m, Head(i), bp);
               && Threaded(m', blocks, end, lists[i := Drop(lists[i], k)], out + {bp})
               && KeepsLive(m, m', blocks)
  {
    var i := ListIndex(blocks[bp].size);
    ListIndexIsCeilLog2(blocks[bp].size, 0);
    var cls := FreeClasses(blocks, end, out);
    assert bp in cls && bp in lists[i];
    k :| 0 <= k < |lists[i]| && lists[i][k] == bp;
    assert FreeClasses(blocks, end, out + {bp}) == cls - {bp};
    DeleteIndexed(m, lists, cls, i, k);
    LinksAreFree(m, blocks, end, lists, out, i, k);
    DeleteTiled(m, blocks, end, i, bp);
  }

  lemma LinksAreFree(m: seq<Word>, blocks: Blocks, end: int, lists: seq<seq<int>>, out: set<int>, i: int, k: int)
    requires Shape(blocks, end) && Indexed(m, lists, FreeClasses(blocks, end, out))
    requires 0 <= i < BASE_PTR_CNT && 0 <= k < |lists[i]|
    ensures var bp := lists[i][k];
            && 0 <= bp && bp + 4 < |m|
            && m[bp] == At(lists[i], k - 1) && m[bp + 4] == At(lists[i], k + 1)
            && (m[bp] == 0 || (m[bp] in blocks && !blocks[m[bp]].alloc))
            && (m[bp + 4] == 0 || (m[bp + 4] in blocks && !blocks[m[bp + 4]].alloc))
  {
    var cls := FreeClasses(blocks, end, out);
    assert LinksOk(m, lists, i) && Holds(lists, cls, i) && LinkedAt(m, lists[i], k);
  }

  /** The payloads of live blocks outside [lo, hi) are untouched. */
  ghost predicate KeepsOutside(m: seq<Word>, m': seq<Word>, blocks: Blocks, lo: int, hi: int) {
    && |m'| == |m|
    && forall b, p :: Live(blocks, b) && !(lo <= b < hi) && b <= p < b + blocks[b].size - 8 && 0 <= p < |m| ==>
      m'[p] == m[p]
  }

  lemma CarveFree(blocks: Blocks, out: set<int>, lo: int, mid: int, hi: int, a1: bool, a2: bool, out': set<int>, b: int)
    requires lo < mid <= hi
    requires forall x :: x in out ==> lo <= x < hi
    requires b in blocks && lo <= b < hi && !blocks[b].alloc ==> b in out
    requires forall x :: x in out' ==> lo <= x < hi
    requires (!a1 ==> lo in out') && (mid < hi && !a2 ==> mid in out')
    ensures var c := Carve(blocks, lo, mid, hi, a1, a2);
            && ((b in blocks && !blocks[b].alloc && b !in out) <==> (b in c && !c[b].alloc && b !in out'))
            && (b in blocks && !blocks[b].alloc && b !in out ==> c[b] == blocks[b])
  {
  }

  lemma CarveClasses(blocks: Blocks, end: int, out: set<int>, lo: int, mid: int, hi: int, a1: bool, a2: bool,
                     out': set<int>)
    requires Shape(blocks, end) && Span(blocks, end, lo, hi) && lo + 16 <= mid <= hi && (mid == hi || mid + 16 <= hi)
    requires forall x :: x in out ==> lo <= x < hi
    requires forall b :: b in blocks && lo <= b < hi && !blocks[b].alloc ==> b in out
    requires forall x :: x in out' ==> lo <= x < hi
    requires (!a1 ==> lo in out') && (mid < hi && !a2 ==> mid in out')
    ensures Shape(Carve(blocks, lo, mid, hi, a1, a2), end)
    ensures FreeClasses(Carve(blocks, lo, mid, hi, a1, a2), end, out') == FreeClasses(blocks, end, out)
  {
    CarveShape(blocks, end, lo, mid, hi, a1, a2);
    var c, c' := FreeClasses(blocks, end, out), FreeClasses(Carve(blocks, lo, mid, hi, a1, a2), end, out');
    forall b ensures b in c <==> b in c' ensures b in c ==> c[b] == c'[b] {
      CarveFree(blocks, out, lo, mid, hi, a1, a2, out', b);
    }
  }

  lemma SpanEdges(m: seq<Word>, m': seq<Word>, blocks: Blocks, end: int, lo: int, hi: int, b: int)
    requires Shape(blocks, end) && Span(blocks, end, lo, hi) && SameOutside(m, m', lo, hi) && end <= |m|
    requires b in blocks && !(lo <= b < hi)
    ensures forall p :: b <= p < b + blocks[b].size - 8 ==> m'[p] == m[p]
  {
    EndsOutside(blocks, end, lo, hi, b);
  }

  /** A stretch of unlisted blocks is replaced by one or two blocks, the free ones among them unlisted. */
  lemma RetileThreaded(m: seq<Word>, m': seq<Word>, blocks: Blocks, end: int, lists: seq<seq<int>>, out: set<int>,
                       lo: int, mid: int, hi: int, a1: bool, a2: bool, out': set<int>)
    requires Threaded(m, blocks, end, lists, out) && Span(blocks, end, lo, hi)
    requires lo + 16 <= mid <= hi && mid % 8 == 0 && (mid == hi || mid + 16 <= hi)
    requires SameOutside(m, m', lo, hi)
    requires Tagged(m', lo, mid - lo, a1)
    requires mid < hi ==> Tagged(m', mid, hi - mid, a2)
    requires forall x :: x in out ==> lo <= x < hi
    requires forall b :: b in blocks && lo <= b < hi && !blocks[b].alloc ==> b in out
    requires forall x :: x in out' ==> lo <= x < hi
    requires (!a1 ==> lo in out') && (mid < hi && !a2 ==> mid in out')
    ensures Threaded(m', Carve(blocks, lo, mid, hi, a1, a2), end, lists, out')
    ensures KeepsOutside(m, m', blocks, lo, hi)
  {
    Retile(m, m', blocks, end, lo, mid, hi, a1, a2);
    CarveClasses(blocks, end, out, lo, mid, hi, a1, a2, out');
    var cls := FreeClasses(blocks, end, out);
    forall x | x in cls ensures SameLinks(m, m', x) {
      assert x in blocks && !(lo <= x < hi);
      SpanEdges(m, m', blocks, end, lo, hi, x);
    }
    IndexedFrame(m, m', lists, cls);
    forall b | b in blocks && !(lo <= b < hi) ensures forall p :: b <= p < b + blocks[b].size - 8 ==> m'[p] == m[p] {
      SpanEdges(m, m', blocks, end, lo, hi, b);
    }
  }

  lemma ExtendThreaded(m: seq<Word>, m': seq<Word>, blocks: Blocks, end: int, lists: seq<seq<int>>, size: int)
    requires Threaded(m, blocks, end, lists, {}) && 16 <= size && size % 8 == 0 && end + size <= |m| == |m'|
             && end + size < 0x8000_0000
    requires forall p :: 0 <= p < end - 4 ==> m'[p] == m[p]
    requires Tagged(m', end, size, false) && m'[end + size - 4] == Tag(0, true)
    ensures Threaded(m', blocks[end := Block(size, false)], end + size, lists, {end})
    ensures KeepsLive(m, m', blocks)
  {
    ExtendTiled(m, m', blocks, end, size);
    var cls := FreeClasses(blocks, end, {});
    assert FreeClasses(blocks[end := Block(size, false)], end + size, {end}) == cls;
    forall x | x in cls ensures SameLinks(m, m', x) {
      assert x in blocks && x + 16 <= end;
    }
    IndexedFrame(m, m', lists, cls);
  }

  lemma WordAligned(b: int, size: int)
    requires Multiple8(b) && Multiple8(size)
    ensures WordAddr(b - 8) && WordAddr(b - 4) && WordAddr(b) && WordAddr(b + 4)
    ensures WordAddr(b + size - 8) && WordAddr(b + size - 4) && Multiple8(b + size)
  {
  }

  /** What the tags of a block say. */
  lemma ReadTags(m: seq<Word>, blocks: Blocks, end: int, lists: seq<seq<int>>, out: set<int>, b: int)
    requires Threaded(m, blocks, end, lists, out) && b in blocks
    ensures 8 <= b && 16 <= blocks[b].size && b + blocks[b].size <= end <= |m| && end < 0x8000_0000
    ensures |lists| == BASE_PTR_CNT && PROLOGUE in blocks && blocks[PROLOGUE].alloc
    ensures Multiple8(b) && Multiple8(blocks[b].size)
    ensures SizeOf(m[b - 4]) == SizeOf(m[b + blocks[b].size - 8]) == blocks[b].size
    ensures AllocOf(m[b - 4]) == AllocOf(m[b + blocks[b].size - 8]) == blocks[b].alloc
    ensures WordAddr(b - 4) && WordAddr(b) && WordAddr(b + 4) && WordAddr(b + blocks[b].size - 8)
  {
    assert AlignedAt(blocks, b);
    TagFields(blocks[b].size, blocks[b].alloc);
    WordAligned(b, blocks[b].size);
  }

  /** What the header after a block says; the epilogue counts as an allocated block of size 0. */
  lemma ReadNext(m: seq<Word>, blocks: Blocks, end: int, lists: seq<seq<int>>, out: set<int>, b: int)
    requires Threaded(m, blocks, end, lists, out) && b in blocks
    ensures var n := b + blocks[b].size;
            && 4 <= n <= end <= |m| && Multiple8(n) && WordAddr(n - 4)
            && (n == end <==> n !in blocks)
            && SizeOf(m[n - 4]) == (if n == end then 0 else blocks[n].size)
            && AllocOf(m[n - 4]) == (n == end || blocks[n].alloc)
  {
    ReadTags(m, blocks, end, lists, out, b);
    WordAligned(b, blocks[b].size);
    assert NextOk(blocks, end, b);
    var n := b + blocks[b].size;
    WordAligned(n, 0);
    if n in blocks {
      ReadTags(m, blocks, end, lists, out, n);
    } else {
      TagFields(0, true);
    }
  }

  /** What the footer before a block says. */
  lemma ReadPrev(m: seq<Word>, blocks: Blocks, end: int, lists: seq<seq<int>>, out: set<int>, b: int)
    requires Threaded(m, blocks, end, lists, out) && (b in blocks || b == end) && b != PROLOGUE
    ensures FIRST <= b <= end <= |m| && WordAddr(b - 8)
    ensures var p := b - SizeOf(m[b - 8]);
            && p in blocks && p + blocks[p].size == b
            && forall q :: q in blocks && q + blocks[q].size == b ==> q == p
  {
    assert PrevOk(m, blocks, b);
    var p := b - SizeOf(m[b - 8]);
    ReadTags(m, blocks, end, lists, out, p);
  }

  /** The n bytes from dst hold, in m', what the n bytes from src held in m. */
  ghost predicate KeepsWords(m: seq<Word>, m': seq<Word>, src: int, dst: int, n: int) {
    0 <= n && 0 <= src && 0 <= dst && src + n <= |m| && dst + n <= |m'| && m'[dst..dst + n] == m[src..src + n]
  }

  /** The tiling after place(bp, asize). */
  ghost function Placed(blocks: Blocks, bp: int, asize: int): Blocks
    requires bp in blocks
  {
    var csize := blocks[bp].size;
    if csize - asize >= 2 * DSIZE then Carve(blocks, bp, bp + asize, bp + csize, true, false)
    else Carve(blocks, bp, bp + csize, bp + csize, true, false)
  }

  /** What place leaves is large enough, and less than the least block too large. */
  lemma PlacedSize(blocks: Blocks, bp: int, asize: int)
    requires bp in blocks && 16 <= asize <= blocks[bp].size
    ensures bp in Placed(blocks, bp, asize) && 0 <= Placed(blocks, bp, asize)[bp].size - asize < 2 * DSIZE
  {
  }

  /** The unlisted part of a block before it is retagged. */
  ghost function Unlisted(blocks: Blocks, bp: int): set<int>
    requires bp in blocks
  {
    if blocks[bp].alloc then {} else {bp}
  }

  lemma OnlyBlock(m: seq<Word>, blocks: Blocks, end: int, lists: seq<seq<int>>, out: set<int>, bp: int)
    requires Threaded(m, blocks, end, lists, out) && bp in blocks && bp != PROLOGUE
    ensures Span(blocks, end, bp, bp + blocks[bp].size) && Multiple8(bp) && Multiple8(blocks[bp].size)
    ensures FIRST <= bp && 16 <= blocks[bp].size && bp + blocks[bp].size <= end
    ensures forall b :: b in blocks && bp <= b < bp + blocks[bp].size && !blocks[b].alloc ==> b in Unlisted(blocks, bp)
  {
    assert NextOk(blocks, end, bp) && AlignedAt(blocks, bp);
  }

  /** What storing both tags of a block does. */
  ghost predicate TagsPut(m: seq<Word>, m': seq<Word>, bp: int, size: int, alloc: bool) {
    && SameOutside(m, m', bp, bp + size)
    && Tagged(m', bp, size, alloc)
    && KeepsWords(m, m', bp, bp, size - 8)
  }

  lemma TagsStored(m: seq<Word>, bp: int, size: int, alloc: bool)
    requires 4 <= bp && 16 <= size < 0x8000_0000 && bp + size <= |m|
    ensures 0 <= Tag(size, alloc) < 0x1_0000_0000
    ensures TagsPut(m, m[bp - 4 := Tag(size, alloc)][bp + size - 8 := Tag(size, alloc)], bp, size, alloc)
  {
  }

  lemma SplitTags(m: seq<Word>, ma: seq<Word>, m': seq<Word>, bp: int, asize: int, csize: int)
    requires TagsPut(m, ma, bp, asize, true) && 16 <= asize && asize + 16 <= csize
    requires TagsPut(ma, m', bp + asize, csize - asize, false)
    ensures SameOutside(m, m', bp, bp + csize)
    ensures Tagged(m', bp, asize, true)
    ensures KeepsWords(m, m', bp, bp, asize - 8)
  {
    forall p | bp <= p < bp + asize - 8 ensures m'[p] == m[p] {
      assert ma[bp..bp + asize - 8][p - bp] == m[bp..bp + asize - 8][p - bp];
    }
  }

  lemma SumAligned(x: int, y: int)
    requires Multiple8(x) && Multiple8(y)
    ensures Multiple8(x + y)
  {
  }

  lemma PartsAligned(bp: int, csize: int, asize: int)
    requires Multiple8(bp) && Multiple8(csize) && Multiple8(asize)
    ensures Multiple8(bp + asize) && Multiple8(csize - asize) && WordAddr(bp + asize - 4)
  {
    hide Multiple8, WordAddr;
    SumAligned(bp, asize);
    WordAligned(bp + asize, asize);
    RestAligned(csize, asize);
  }

  lemma RestAligned(x: int, y: int)
    requires Multiple8(x) && Multiple8(y)
    ensures Multiple8(x - y)
  {
  }

  /** The tag stores of place when it splits. */
  lemma PlaceSplit(m: seq<Word>, ma: seq<Word>, m': seq<Word>, blocks: Blocks, end: int, lists: seq<seq<int>>, bp: int,
                   asize: int)
    requires bp in blocks && Threaded(m, blocks, end, lists, Unlisted(blocks, bp)) && bp != PROLOGUE
    requires 16 <= asize && asize + 16 <= blocks[bp].size && Multiple8(asize)
    requires TagsPut(m, ma, bp, asize, true)
    requires TagsPut(ma, m', bp + asize, blocks[bp].size - asize, false)
    ensures var blocks' := Placed(blocks, bp, asize);
            && Threaded(m', blocks', end, lists, {bp + asize})
            && bp + asize in blocks' && blocks'[bp + asize] == Block(blocks[bp].size - asize, false)
            && bp in blocks' && blocks'[bp] == Block(asize, true)
    ensures KeepsOutside(m, m', blocks, bp, bp + blocks[bp].size)
    ensures KeepsWords(m, m', bp, bp, asize - 8)
  {
    hide SameOutside, KeepsWords, KeepsOutside, Threaded;
    var hi := bp + blocks[bp].size;
    OnlyBlock(m, blocks, end, lists, Unlisted(blocks, bp), bp);
    PartsAligned(bp, 0, asize);
    SplitTags(m, ma, m', bp, asize, blocks[bp].size);
    RetileThreaded(m, m', blocks, end, lists, Unlisted(blocks, bp), bp, bp + asize, hi, true, false, {bp + asize});
  }

  /** The tag stores of place when it does not split, and of free: one block is retagged. */
  lemma Retag(m: seq<Word>, m': seq<Word>, blocks: Blocks, end: int, lists: seq<seq<int>>, bp: int, alloc: bool)
    requires bp in blocks && Threaded(m, blocks, end, lists, Unlisted(blocks, bp)) && bp != PROLOGUE
    requires TagsPut(m, m', bp, blocks[bp].size, alloc)
    ensures var hi := bp + blocks[bp].size;
            && Threaded(m', Carve(blocks, bp, hi, hi, alloc, false), end, lists, if alloc then {} else {bp})
            && bp in Carve(blocks, bp, hi, hi, alloc, false)
            && Carve(blocks, bp, hi, hi, alloc, false)[bp] == Block(blocks[bp].size, alloc)
            && KeepsOutside(m, m', blocks, bp, hi)
            && KeepsWords(m, m', bp, bp, blocks[bp].size - 8)
  {
    hide SameOutside, KeepsWords, KeepsOutside, Threaded;
    var hi := bp + blocks[bp].size;
    OnlyBlock(m, blocks, end, lists, Unlisted(blocks, bp), bp);
    WordAligned(bp, blocks[bp].size);
    RetileThreaded(m, m', blocks, end, lists, Unlisted(blocks, bp), bp, hi, hi, alloc, false,
      if alloc then {} else {bp});
  }

  lemma CarveLive(blocks: Blocks, lo: int, mid: int, hi: int, a1: bool, a2: bool, b: int)
    requires lo < mid <= hi && lo != PROLOGUE && !(lo <= b < hi)
    ensures var c := Carve(blocks, lo, mid, hi, a1, a2);
            (Live(blocks, b) <==> Live(c, b)) && (Live(blocks, b) ==> c[b] == blocks[b])
  {
  }

  /** Unlinking, retagging [lo, hi) and linking again spare the live blocks outside. */
  lemma KeepsChain(m: seq<Word>, m1: seq<Word>, m2: seq<Word>, m3: seq<Word>, blocks: Blocks,
                   lo: int, mid: int, hi: int, a1: bool, a2: bool)
    requires lo < mid <= hi && lo != PROLOGUE
    requires KeepsLive(m, m1, blocks)
    requires KeepsOutside(m1, m2, blocks, lo, hi)
    requires KeepsLive(m2, m3, Carve(blocks, lo, mid, hi, a1, a2))
    ensures KeepsOutside(m, m3, blocks, lo, hi)
  {
    assert |m3| == |m|;
    forall b, p | Live(blocks, b) && !(lo <= b < hi) && b <= p < b + blocks[b].size - 8 && 0 <= p < |m|
      ensures m3[p] == m[p]
    {
      CarveLive(blocks, lo, mid, hi, a1, a2, b);
    }
  }

  lemma KeepsSelf(m: seq<Word>, blocks: Blocks)
    ensures KeepsLive(m, m, blocks)
  {
  }

  lemma KeepsBlock(m: seq<Word>, m': seq<Word>, blocks: Blocks, b: int)
    requires KeepsLive(m, m', blocks) && Live(blocks, b)
    requires 0 <= b && 8 <= blocks[b].size && b + blocks[b].size <= |m|
    ensures KeepsWords(m, m', b, b, blocks[b].size - 8)
  {
  }

  /** place from end to end: unlink, store tags, link the rest. */
  lemma PlaceKeeps(m: seq<Word>, m1: seq<Word>, m2: seq<Word>, m3: seq<Word>, blocks: Blocks, bp: int, asize: int)
    requires bp in blocks && bp != PROLOGUE && 0 <= bp && 16 <= asize <= blocks[bp].size && bp + blocks[bp].size <= |m|
    requires KeepsLive(m, m1, blocks)
    requires KeepsOutside(m1, m2, blocks, bp, bp + blocks[bp].size)
    requires var blocks' := Placed(blocks, bp, asize);
             && KeepsLive(m2, m3, blocks')
             && bp in blocks' && blocks'[bp].alloc && 16 <= blocks'[bp].size <= blocks[bp].size
             && (blocks[bp].alloc ==> m1 == m && KeepsWords(m1, m2, bp, bp, blocks'[bp].size - 8))
    ensures KeepsOutside(m, m3, blocks, bp, bp + blocks[bp].size)
    ensures blocks[bp].alloc ==> KeepsWords(m, m3, bp, bp, Placed(blocks, bp, asize)[bp].size - 8)
  {
    var csize := blocks[bp].size;
    if csize - asize >= 16 {
      KeepsChain(m, m1, m2, m3, blocks, bp, bp + asize, bp + csize, true, false);
    } else {
      KeepsChain(m, m1, m2, m3, blocks, bp, bp + csize, bp + csize, true, false);
    }
    KeepsBlock(m2, m3, Placed(blocks, bp, asize), bp);
  }

  /** bp with neighbours: lo is bp or the block before, hi the end of bp or of the block after. */
  ghost predicate Stretch(blocks: Blocks, lo: int, bp: int, hi: int) {
    && lo in blocks && lo != PROLOGUE && bp in blocks
    && (lo == bp || lo + blocks[lo].size == bp)
    && var n := bp + blocks[bp].size;
       hi == n || (n in blocks && hi == n + blocks[n].size)
  }

  /** The blocks of a stretch. */
  ghost function Merged(blocks: Blocks, lo: int, bp: int, hi: int): set<int>
    requires Stretch(blocks, lo, bp, hi)
  {
    {lo, bp} + (if hi == bp + blocks[bp].size then {} else {bp + blocks[bp].size})
  }

  /** bp with the free neighbours it merges with. */
  ghost predicate Around(blocks: Blocks, lo: int, bp: int, hi: int) {
    Stretch(blocks, lo, bp, hi) && forall b :: b in Merged(blocks, lo, bp, hi) ==> !blocks[b].alloc
  }

  lemma StretchSpan(blocks: Blocks, end: int, lo: int, bp: int, hi: int)
    requires Shape(blocks, end) && Stretch(blocks, lo, bp, hi)
    requires forall b {:trigger NextOk(blocks, end, b)} :: NextOk(blocks, end, b)
    ensures Span(blocks, end, lo, hi) && lo + 16 <= hi
    ensures forall x :: x in Merged(blocks, lo, bp, hi) ==> lo <= x < hi
    ensures forall b :: b in blocks && lo <= b < hi ==> b in Merged(blocks, lo, bp, hi)
  {
    assert NextOk(blocks, end, bp) && NextOk(blocks, end, bp + blocks[bp].size);
  }

  lemma StretchAligned(blocks: Blocks, end: int, lo: int, bp: int, hi: int)
    requires Aligned(blocks, end) && Stretch(blocks, lo, bp, hi)
    ensures Multiple8(hi) && Multiple8(lo)
  {
    assert AlignedAt(blocks, lo) && AlignedAt(blocks, bp) && AlignedAt(blocks, bp + blocks[bp].size);
    PartsAligned(bp, 0, blocks[bp].size);
    if hi != bp + blocks[bp].size {
      PartsAligned(bp + blocks[bp].size, 0, blocks[bp + blocks[bp].size].size);
    }
  }

  /** The tag stores of coalesce. */
  lemma MergeThreaded(m: seq<Word>, m': seq<Word>, blocks: Blocks, end: int, lists: seq<seq<int>>, lo: int, bp: int,
                      hi: int)
    requires Around(blocks, lo, bp, hi)
    requires Threaded(m, blocks, end, lists, Merged(blocks, lo, bp, hi))
    requires SameOutside(m, m', lo, hi) && Tagged(m', lo, hi - lo, false)
    ensures var blocks' := Carve(blocks, lo, hi, hi, false, false);
            && Threaded(m', blocks', end, lists, {lo})
            && lo in blocks' && blocks'[lo] == Block(hi - lo, false)
    ensures KeepsLive(m, m', blocks)
  {
    StretchSpan(blocks, end, lo, bp, hi);
    StretchAligned(blocks, end, lo, bp, hi);
    RetileThreaded(m, m', blocks, end, lists, Merged(blocks, lo, bp, hi), lo, hi, hi, false, false, {lo});
  }

  /** Merging free blocks leaves the live ones as they are. */
  lemma MergeLive(blocks: Blocks, end: int, lo: int, bp: int, hi: int, b: int)
    requires Shape(blocks, end) && Around(blocks, lo, bp, hi)
    requires forall b {:trigger NextOk(blocks, end, b)} :: NextOk(blocks, end, b)
    ensures var c := Carve(blocks, lo, hi, hi, false, false);
            (Live(blocks, b) <==> Live(c, b)) && (Live(blocks, b) ==> c[b] == blocks[b])
  {
    StretchSpan(blocks, end, lo, bp, hi);
  }

  /** coalesce from end to end: unlink neighbours, store tags, link the result. */
  lemma MergeKeeps(m: seq<Word>, m1: seq<Word>, m2: seq<Word>, m3: seq<Word>, blocks: Blocks, end: int,
                   lists: seq<seq<int>>, out: set<int>, lo: int, bp: int, hi: int)
    requires Around(blocks, lo, bp, hi) && Threaded(m, blocks, end, lists, out)
    requires KeepsLive(m, m1, blocks) && KeepsLive(m1, m2, blocks)
    requires KeepsLive(m2, m3, Carve(blocks, lo, hi, hi, false, false))
    ensures KeepsLive(m, m3, blocks)
  {
    forall b, p | Live(blocks, b) && b <= p < b + blocks[b].size - 8 && 0 <= p < |m| ensures m3[p] == m[p] {
      MergeLive(blocks, end, lo, bp, hi, b);
    }
  }

  /** Where the block that coalesce makes out of bp ends. */
  ghost function MergeEnd(blocks: Blocks, bp: int): int
    requires bp in blocks
  {
    var n := bp + blocks[bp].size;
    if n in blocks && !blocks[n].alloc then n + blocks[n].size else n
  }

  /** Where it starts: at the block before bp when that is free. */
  ghost predicate MergeStart(blocks: Blocks, bp: int, r: int) {
    forall p :: p in blocks && p + blocks[p].size == bp ==> r == if blocks[p].alloc then bp else p
  }

  /** What coalesce does to the tiling. */
  ghost predicate Coalesced(blocks: Blocks, blocks': Blocks, bp: int, r: int)
    requires bp in blocks
  {
    var hi := MergeEnd(blocks, bp);
    Around(blocks, r, bp, hi) && MergeStart(blocks, bp, r) && blocks' == Carve(blocks, r, hi, hi, false, false)
  }

  lemma MergeStartIs(m: seq<Word>, blocks: Blocks, end: int, lists: seq<seq<int>>, out: set<int>, bp: int, p: int)
    requires Threaded(m, blocks, end, lists, out)
    requires bp in blocks && p in blocks && p + blocks[p].size == bp
    ensures MergeStart(blocks, bp, if blocks[p].alloc then bp else p)
  {
  }

  /** Nothing to merge: retiling changes nothing. */
  lemma MergeNone(m: seq<Word>, blocks: Blocks, end: int, lists: seq<seq<int>>, out: set<int>, bp: int)
    requires Threaded(m, blocks, end, lists, out)
    requires bp in blocks && !blocks[bp].alloc
    ensures var hi := bp + blocks[bp].size; Carve(blocks, bp, hi, hi, false, false) == blocks
  {
  }

  lemma TagsGiven(m: seq<Word>, m': seq<Word>, bp: int, size: int)
    requires TagsPut(m, m', bp, size, false)
    ensures SameOutside(m, m', bp, bp + size) && Tagged(m', bp, size, false)
  {
  }

  /** Both tags of a block, stored in either order. */
  lemma TagsGivenApart(m: seq<Word>, bp: int, size: int)
    requires 4 <= bp && 16 <= size < 0x8000_0000 && bp + size <= |m|
    ensures 0 <= Tag(size, false) < 0x1_0000_0000
    ensures var t := Tag(size, false);
            var m' := m[bp - 4 := t][bp + size - 8 := t];
            m[bp + size - 8 := t][bp - 4 := t] == m' && SameOutside(m, m', bp, bp + size) && Tagged(m', bp, size, false)
  {
  }

  lemma KeepsTwice(m: seq<Word>, m1: seq<Word>, m2: seq<Word>, blocks: Blocks)
    requires KeepsLive(m, m1, blocks) && KeepsLive(m1, m2, blocks)
    ensures KeepsLive(m, m2, blocks)
  {
  }

  /** What coalesce is about when the neighbours it unlinked are those in `out`. */
  lemma AroundIs(blocks: Blocks, lo: int, bp: int, out: set<int>)
    requires lo in blocks && lo != PROLOGUE && !blocks[lo].alloc && bp in blocks && !blocks[bp].alloc
             && blocks[bp].size > 0
    requires lo == bp || lo + blocks[lo].size == bp
    requires MergeStart(blocks, bp, lo)
    requires var n := bp + blocks[bp].size;
             && (n in blocks && !blocks[n].alloc ==> blocks[n].size > 0)
             && (if n in blocks && !blocks[n].alloc then out == {bp} + {lo} + {n} else out == {bp} + {lo})
    ensures var hi := MergeEnd(blocks, bp);
            && Around(blocks, lo, bp, hi) && out == Merged(blocks, lo, bp, hi)
            && Coalesced(blocks, Carve(blocks, lo, hi, hi, false, false), bp, lo)
  {
  }

  /** What find_fit learns from the k-th member of a list. */
  lemma MemberIs(m: seq<Word>, blocks: Blocks, end: int, lists: seq<seq<int>>, i: int, k: int)
    requires Threaded(m, blocks, end, lists, {}) && |lists| == BASE_PTR_CNT && 0 <= i < BASE_PTR_CNT
    ensures m[Head(i)] == At(lists[i], 0)
    ensures 0 <= k < |lists[i]| ==>
              var bp := lists[i][k];
              && 0 < bp && bp + 4 < |m| && m[bp + 4] == At(lists[i], k + 1)
              && bp in blocks && !blocks[bp].alloc && 16 <= blocks[bp].size < 0x8000_0000
                && ListIndex(blocks[bp].size) == i
  {
    var cls := FreeClasses(blocks, end, {});
    assert LinksOk(m, lists, i) && Holds(lists, cls, i) && LinkedAt(m, lists[i], k);
  }

  /** A free block is on the list of its class. */
  lemma FreeIsListed(m: seq<Word>, blocks: Blocks, end: int, lists: seq<seq<int>>, b: int)
    requires Threaded(m, blocks, end, lists, {}) && b in blocks && !blocks[b].alloc
    ensures 16 <= blocks[b].size < 0x8000_0000
    ensures var i := ListIndex(blocks[b].size); 0 <= i < BASE_PTR_CNT == |lists| && b in lists[i]
  {
    var cls := FreeClasses(blocks, end, {});
    ListIndexIsCeilLog2(blocks[b].size, 0);
    assert b in cls;
  }
}
