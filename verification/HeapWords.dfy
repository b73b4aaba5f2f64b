/** Words, tags and size classes of the malloc-lab allocator. */
module HeapWords {
  import opened Powers

  const WSIZE := 4
  const DSIZE := 8
  const BASE_PTR_CNT := 14

  /** A 4-byte heap word, read as an unsigned int. */
  type Word = x: int | 0 <= x < 0x1_0000_0000

  /** Addresses of words, and sizes and addresses of blocks. */
  predicate WordAddr(p: int) {
    p % WSIZE == 0
  }

  predicate Multiple8(x: int) {
    x % 8 == 0
  }

  /** The value of a header or footer: the low three bits of a size are free, so `|` is an addition. */
  function Tag(size: int, alloc: bool): int {
    size + if alloc then 1 else 0
  }

  function Pack(size: int, alloc: bool): (w: Word)
    requires 0 <= size < 0x8000_0000 && Multiple8(size)
  {
    Tag(size, alloc)
  }

  function SizeOf(w: Word): int {
    w - w % 8
  }

  predicate AllocOf(w: Word) {
    w % 2 == 1
  }

  lemma TagFields(size: int, alloc: bool)
    requires 0 <= size < 0x8000_0000 && Multiple8(size)
    ensures SizeOf(Tag(size, alloc)) == size
    ensures AllocOf(Tag(size, alloc)) == alloc
  {
    LowBits(size / 8);
    LowBit(4 * (size / 8));
  }

  lemma LowBits(k: int)
    ensures (8 * k) % 8 == 0 && (8 * k + 1) % 8 == 1
  {
  }

  lemma LowBit(k: int)
    ensures (2 * k) % 2 == 0 && (2 * k + 1) % 2 == 1
  {
  }

  function Align(size: int): int {
    size + 7 - (size + 7) % 8
  }

  /** The block size that serves a request: payload plus header and footer, at least 16 bytes. */
  function AdjustedSize(size: int): (r: int)
    requires 0 < size
    ensures Multiple8(r) && r >= 16 && r - DSIZE >= size
    ensures forall s :: Multiple8(s) && s >= 16 && s - DSIZE >= size ==> r <= s
  {
    if size <= DSIZE then 2 * DSIZE else Align(size + DSIZE)
  }

  /** Leading zeros of a non-zero 32-bit word, by shifting left until the top bit is set. */
  function Clz(x: Word): nat
    requires x > 0
    decreases 0x1_0000_0000 - x
  {
    if x >= 0x8000_0000 then 0 else 1 + Clz(2 * x)
  }

  /** 31 - Clz(x) is the position of the top bit of x. */
  lemma {:induction false} ClzIsLog(x: Word)
    requires x > 0
    ensures Clz(x) <= 31
    ensures Pow2(31 - Clz(x)) <= x < 2 * Pow2(31 - Clz(x))
    decreases 0x1_0000_0000 - x
  {
    if x >= 0x8000_0000 {
      assert Pow2(31) == 0x8000_0000 by {
        assert Pow2(10) == 1024 && Pow2(20) == 1024 * 1024 && Pow2(31) == 2048 * Pow2(20);
      }
    } else {
      ClzIsLog(2 * x);
      if Clz(2 * x) == 31 {
        assert false;
      }
    }
  }

  /** The size class of a block. */
  function ListIndex(size: int): int
    requires 0 < size <= 0x8000_0000
  {
    var top := 31 - Clz(size + size - 1);
    if BASE_PTR_CNT - 1 < top then BASE_PTR_CNT - 1 else top
  }

  /** Class i < 13 holds the sizes in (2^(i-1), 2^i]; class 13 holds everything above 2^12. */
  lemma ListIndexIsCeilLog2(size: int, i: int)
    requires 0 < size <= 0x8000_0000
    ensures 0 <= ListIndex(size) < BASE_PTR_CNT
    ensures 0 <= i < BASE_PTR_CNT ==>
              (ListIndex(size) == i <==>
               (i == 0 || Pow2(i - 1) < size) && (i == BASE_PTR_CNT - 1 || size <= Pow2(i)))
  {
    ClzIsLog(size + size - 1);
    var top := 31 - Clz(size + size - 1);
    assert top > 0 ==> Pow2(top) == 2 * Pow2(top - 1);
    if 0 <= i < BASE_PTR_CNT {
      if i < top {
        Pow2Monotone(i, top - 1);
      } else if top < i {
        Pow2Monotone(top, i - 1);
      }
      if BASE_PTR_CNT - 1 < top {
        Pow2Monotone(BASE_PTR_CNT - 2, top - 1);
      }
    }
  }

  lemma ListIndexMonotone(s: int, t: int)
    requires 0 < s <= t <= 0x8000_0000
    ensures 0 <= ListIndex(s) <= ListIndex(t) < BASE_PTR_CNT
  {
    ListIndexIsCeilLog2(s, ListIndex(t));
    ListIndexIsCeilLog2(t, ListIndex(s));
    ListIndexIsCeilLog2(s, ListIndex(s));
    ListIndexIsCeilLog2(t, ListIndex(t));
    if ListIndex(t) < ListIndex(s) {
      Pow2Monotone(ListIndex(t), ListIndex(s) - 1);
    }
  }
}
