/**
  The fourteen doubly linked free lists threaded through the payloads of the free blocks.
  List i hangs off the head word at HEADS + 4 * i; a member x keeps its predecessor in the word
  at x and its successor in the word at x + 4; 0 is the null pointer.
  */
module FreeLists {
  import opened Sequences
  import opened HeapWords
  import opened HeapLayout

  const HEADS := 8

  function Head(i: int): int {
    HEADS + i * WSIZE
  }

  /** Members are above the list heads, inside memory, and their link words do not overlap. */
  ghost predicate Spread(m: seq<Word>, l: seq<int>) {
    && (forall k :: 0 <= k < |l| ==> FIRST <= l[k] && l[k] + 8 <= |m|)
    && (forall j, k :: 0 <= j < |l| && 0 <= k < |l| && j != k ==> l[j] + 8 <= l[k] || l[k] + 8 <= l[j])
  }

  /** The k-th member, or null beyond either end. */
  function At(l: seq<int>, k: int): int {
    if 0 <= k < |l| then l[k] else 0
  }

  /** PRED and SUCC of member k name its neighbours. */
  ghost predicate LinkedAt(m: seq<Word>, l: seq<int>, k: int)
    requires Spread(m, l)
  {
    0 <= k < |l| ==> m[l[k]] == At(l, k - 1) && m[l[k] + 4] == At(l, k + 1)
  }

  /** The links of list l, hanging off the head word at h. */
  ghost predicate Dll(m: seq<Word>, l: seq<int>, h: int) {
    && FIRST <= |m| && 0 <= h < FIRST && Spread(m, l)
    && m[h] == At(l, 0)
    && (forall k {:trigger LinkedAt(m, l, k)} :: LinkedAt(m, l, k))
  }

  /** The stores of insert_block, in order. */
  function InsertLinks(m: seq<Word>, h: int, bp: int): (r: seq<Word>)
    requires 0 <= h < |m| && 0 <= bp && bp + 4 < |m| && bp < 0x8000_0000
    requires m[h] < |m|
    ensures |r| == |m|
  {
    var next := m[h];
    var m1 := m[bp := 0][bp + 4 := next];
    var m2 := if next != 0 then m1[next := bp] else m1;
    m2[h := bp]
  }

  /** The stores of delete_block, in order. */
  function DeleteLinks(m: seq<Word>, h: int, bp: int): (r: seq<Word>)
    requires 0 <= h < |m| && 0 <= bp && bp + 4 < |m|
    requires m[bp] + 4 < |m| && m[bp + 4] < |m|
    ensures |r| == |m|
  {
    var pred, succ := m[bp], m[bp + 4];
    var m1 := if pred != 0 then m[pred + 4 := succ] else m[h := succ];
    if succ != 0 then m1[succ := pred] else m1
  }

  ghost predicate SameLinks(m: seq<Word>, m': seq<Word>, x: int) {
    0 <= x && x + 4 < |m| == |m'| && m'[x] == m[x] && m'[x + 4] == m[x + 4]
  }

  lemma DllFrame(m: seq<Word>, m': seq<Word>, l: seq<int>, h: int)
    requires Dll(m, l, h) && |m'| == |m| && m'[h] == m[h]
    requires forall k :: 0 <= k < |l| ==> SameLinks(m, m', l[k])
    ensures Dll(m', l, h)
  {
    forall k ensures LinkedAt(m', l, k) {
      assert LinkedAt(m, l, k);
      if 0 <= k < |l| {
        assert SameLinks(m, m', l[k]);
      }
    }
  }

  lemma DllInsert(m: seq<Word>, l: seq<int>, h: int, bp: int)
    requires Dll(m, l, h) && FIRST <= bp < 0x8000_0000 && bp + 8 <= |m|
    requires forall k :: 0 <= k < |l| ==> bp + 8 <= l[k] || l[k] + 8 <= bp
    ensures m[h] < |m| && Dll(InsertLinks(m, h, bp), [bp] + l, h)
  {
    var l', m' := [bp] + l, InsertLinks(m, h, bp);
    assert forall k :: 1 <= k < |l'| ==> l'[k] == l[k - 1];
    assert Spread(m', l');
    assert m'[bp] == 0 && m'[bp + 4] == m[h] && m'[h] == bp;
    forall k ensures LinkedAt(m', l', k) {
      assert LinkedAt(m, l, k - 1);
      if 1 <= k < |l'| {
        InsertAt(m, l, h, bp, k - 1);
      }
    }
  }

  /** What linking bp in front does to a member's links. */
  lemma InsertAt(m: seq<Word>, l: seq<int>, h: int, bp: int, i: int)
    requires Dll(m, l, h) && FIRST <= bp < 0x8000_0000 && bp + 8 <= |m|
    requires 0 <= i < |l| && (bp + 8 <= l[i] || l[i] + 8 <= bp)
    ensures m[h] < |m|
    ensures var m' := InsertLinks(m, h, bp);
            m'[l[i]] == (if i == 0 then bp else m[l[i]]) && m'[l[i] + 4] == m[l[i] + 4]
  {
  }

  /** What unlinking member k does to another member's links. */
  lemma DeleteAt(m: seq<Word>, l: seq<int>, h: int, k: int, i: int)
    requires Dll(m, l, h) && 0 <= k < |l| && 0 <= i < |l| && i != k
    ensures m[l[k]] + 4 < |m| && m[l[k] + 4] < |m|
    ensures var m' := DeleteLinks(m, h, l[k]);
            && m'[l[i]] == (if i == k + 1 then m[l[k]] else m[l[i]])
            && m'[l[i] + 4] == (if i == k - 1 then m[l[k] + 4] else m[l[i] + 4])
  {
    assert LinkedAt(m, l, k);
  }

  lemma DeleteLinked(m: seq<Word>, l: seq<int>, h: int, k: int, j: int)
    requires Dll(m, l, h) && 0 <= k < |l| && 0 <= j < |l| - 1
    requires Spread(m, Drop(l, k))
    ensures m[l[k]] + 4 < |m| && m[l[k] + 4] < |m|
    ensures LinkedAt(DeleteLinks(m, h, l[k]), Drop(l, k), j)
  {
    var i := if j < k then j else j + 1;
    DeleteAt(m, l, h, k, i);
    assert LinkedAt(m, l, i) && LinkedAt(m, l, k);
  }

  lemma DropSpread(m: seq<Word>, l: seq<int>, k: int)
    requires Spread(m, l) && 0 <= k < |l|
    ensures Spread(m, Drop(l, k))
  {
    var l' := Drop(l, k);
    assert forall j :: 0 <= j < |l'| ==> l'[j] == l[if j < k then j else j + 1];
  }

  lemma DllDelete(m: seq<Word>, l: seq<int>, h: int, k: int)
    requires Dll(m, l, h) && 0 <= k < |l|
    ensures m[l[k]] + 4 < |m| && m[l[k] + 4] < |m|
    ensures Dll(DeleteLinks(m, h, l[k]), Drop(l, k), h)
  {
    assert LinkedAt(m, l, k);
    DropSpread(m, l, k);
    var l', m' := Drop(l, k), DeleteLinks(m, h, l[k]);
    forall j ensures LinkedAt(m', l', j) {
      if 0 <= j < |l'| {
        DeleteLinked(m, l, h, k, j);
      }
    }
  }

  /** Which blocks are listed, and in which class. */
  type Classes = map<int, int>

  ghost predicate Apart(m: seq<Word>, cls: Classes) {
    && FIRST <= |m|
    && (forall x :: x in cls ==> FIRST <= x < 0x8000_0000 && x + 8 <= |m| && 0 <= cls[x] < BASE_PTR_CNT)
    && (forall x, y :: x in cls && y in cls && x < y ==> x + 8 <= y)
  }

  ghost predicate Holds(lists: seq<seq<int>>, cls: Classes, i: int)
    requires |lists| == BASE_PTR_CNT
  {
    0 <= i < BASE_PTR_CNT ==> forall k :: 0 <= k < |lists[i]| ==> lists[i][k] in cls && cls[lists[i][k]] == i
  }

  ghost predicate LinksOk(m: seq<Word>, lists: seq<seq<int>>, i: int)
    requires |lists| == BASE_PTR_CNT
  {
    0 <= i < BASE_PTR_CNT ==> Dll(m, lists[i], Head(i))
  }

  /** The lists hold exactly the blocks of cls, each once, on the list of its class. */
  ghost predicate Indexed(m: seq<Word>, lists: seq<seq<int>>, cls: Classes) {
    && |lists| == BASE_PTR_CNT && Apart(m, cls)
    && (forall i {:trigger LinksOk(m, lists, i)} :: LinksOk(m, lists, i))
    && (forall i {:trigger Holds(lists, cls, i)} :: Holds(lists, cls, i))
    && (forall x :: x in cls ==> x in lists[cls[x]])
  }

  lemma IndexedFrame(m: seq<Word>, m': seq<Word>, lists: seq<seq<int>>, cls: Classes)
    requires Indexed(m, lists, cls) && |m'| == |m|
    requires forall p :: HEADS <= p < Head(BASE_PTR_CNT) ==> m'[p] == m[p]
    requires forall x {:trigger SameLinks(m, m', x)} :: x in cls ==> SameLinks(m, m', x)
    ensures Indexed(m', lists, cls)
  {
    forall i ensures LinksOk(m', lists, i) {
      assert LinksOk(m, lists, i) && Holds(lists, cls, i);
      if 0 <= i < BASE_PTR_CNT {
        DllFrame(m, m', lists[i], Head(i));
      }
    }
  }

  lemma InsertOther(m: seq<Word>, lists: seq<seq<int>>, cls: Classes, bp: int, i: int, j: int)
    requires Indexed(m, lists, cls) && 0 <= i < BASE_PTR_CNT && 0 <= j < BASE_PTR_CNT && i != j
    requires bp !in cls && FIRST <= bp < 0x8000_0000 && bp + 8 <= |m| && Apart(m, cls[bp := i])
    ensures m[Head(i)] < |m| && Dll(InsertLinks(m, Head(i), bp), lists[j], Head(j))
  {
    assert LinksOk(m, lists, i) && LinksOk(m, lists, j) && Holds(lists, cls, i) && Holds(lists, cls, j);
    var m' := InsertLinks(m, Head(i), bp);
    var next := m[Head(i)];
    assert next == 0 || (next in cls && cls[next] == i);
    forall k | 0 <= k < |lists[j]| ensures SameLinks(m, m', lists[j][k]) {
      var x := lists[j][k];
      assert x in cls[bp := i] && bp in cls[bp := i] && x != bp;
      assert next == 0 || (next in cls[bp := i] && x != next);
    }
    DllFrame(m, m', lists[j], Head(j));
  }

  lemma InsertHolds(lists: seq<seq<int>>, cls: Classes, bp: int, i: int, j: int)
    requires |lists| == BASE_PTR_CNT && 0 <= i < BASE_PTR_CNT
    requires bp !in cls && Holds(lists, cls, j)
    ensures Holds(lists[i := [bp] + lists[i]], cls[bp := i], j)
  {
    var lists' := lists[i := [bp] + lists[i]];
    if 0 <= j < BASE_PTR_CNT {
      forall k | 0 <= k < |lists'[j]| ensures lists'[j][k] in cls[bp := i] && cls[bp := i][lists'[j][k]] == j {
        if i == j && k > 0 {
          assert lists'[j][k] == lists[j][k - 1];
        }
      }
    }
  }

  /** Linking a block in front of the list of its class. */
  lemma InsertIndexed(m: seq<Word>, lists: seq<seq<int>>, cls: Classes, bp: int, i: int)
    requires Indexed(m, lists, cls) && 0 <= i < BASE_PTR_CNT
    requires bp !in cls && FIRST <= bp < 0x8000_0000 && bp + 8 <= |m| && Apart(m, cls[bp := i])
    ensures m[Head(i)] < |m|
    ensures Indexed(InsertLinks(m, Head(i), bp), lists[i := [bp] + lists[i]], cls[bp := i])
  {
    assert LinksOk(m, lists, i) && Holds(lists, cls, i);
    assert m[Head(i)] < |m|;
    var m', lists', cls' := InsertLinks(m, Head(i), bp), lists[i := [bp] + lists[i]], cls[bp := i];
    forall k | 0 <= k < |lists[i]| ensures bp + 8 <= lists[i][k] || lists[i][k] + 8 <= bp {
      assert lists[i][k] in cls' && bp in cls' && lists[i][k] != bp;
    }
    DllInsert(m, lists[i], Head(i), bp);
    forall j ensures LinksOk(m', lists', j) {
      if 0 <= j < BASE_PTR_CNT && j != i {
        InsertOther(m, lists, cls, bp, i, j);
      }
    }
    forall j ensures Holds(lists', cls', j) {
      assert Holds(lists, cls, j);
      InsertHolds(lists, cls, bp, i, j);
    }
    assert lists'[i][0] == bp;
    forall x | x in cls' ensures x in lists'[cls'[x]] {
      if x != bp && cls[x] == i {
        assert x in lists[i];
      }
    }
  }

  lemma DeleteOther(m: seq<Word>, lists: seq<seq<int>>, cls: Classes, i: int, k: int, j: int)
    requires Indexed(m, lists, cls) && 0 <= i < BASE_PTR_CNT && 0 <= j < BASE_PTR_CNT && i != j && 0 <= k < |lists[i]|
    ensures var bp := lists[i][k];
            && 0 <= bp && bp + 4 < |m| && m[bp] + 4 < |m| && m[bp + 4] < |m|
            && Dll(DeleteLinks(m, Head(i), bp), lists[j], Head(j))
  {
    var bp := lists[i][k];
    assert LinksOk(m, lists, i) && LinksOk(m, lists, j) && Holds(lists, cls, i) && Holds(lists, cls, j);
    assert LinkedAt(m, lists[i], k);
    var m' := DeleteLinks(m, Head(i), bp);
    var pred, succ := m[bp], m[bp + 4];
    assert pred == 0 || (pred in cls && cls[pred] == i);
    assert succ == 0 || (succ in cls && cls[succ] == i);
    forall k | 0 <= k < |lists[j]| ensures SameLinks(m, m', lists[j][k]) {
      var x := lists[j][k];
      assert x in cls && x != pred && x != succ;
    }
    DllFrame(m, m', lists[j], Head(j));
  }

  lemma DeleteHolds(lists: seq<seq<int>>, cls: Classes, i: int, k: int, j: int)
    requires |lists| == BASE_PTR_CNT && 0 <= i < BASE_PTR_CNT && 0 <= k < |lists[i]|
    requires Holds(lists, cls, j)
    requires forall n :: 0 <= n < |lists[i]| && n != k ==> lists[i][n] != lists[i][k]
    requires i != j ==> lists[i][k] in cls && cls[lists[i][k]] == i
    ensures Holds(lists[i := Drop(lists[i], k)], cls - {lists[i][k]}, j)
  {
    var l' := Drop(lists[i], k);
    assert forall n :: 0 <= n < |l'| ==> l'[n] == lists[i][if n < k then n else n + 1];
  }

  /** Unlinking a block, wherever in its list it is. */
  lemma DeleteIndexed(m: seq<Word>, lists: seq<seq<int>>, cls: Classes, i: int, k: int)
    requires Indexed(m, lists, cls) && 0 <= i < BASE_PTR_CNT && 0 <= k < |lists[i]|
    ensures var bp := lists[i][k];
            && bp in cls && cls[bp] == i
            && 0 <= bp && bp + 4 < |m| && m[bp] + 4 < |m| && m[bp + 4] < |m|
            && Indexed(DeleteLinks(m, Head(i), bp), lists[i := Drop(lists[i], k)], cls - {bp})
  {
    assert LinksOk(m, lists, i) && Holds(lists, cls, i);
    var bp := lists[i][k];
    DllDelete(m, lists[i], Head(i), k);
    var m', lists', cls' := DeleteLinks(m, Head(i), bp), lists[i := Drop(lists[i], k)], cls - {bp};
    forall j ensures LinksOk(m', lists', j) {
      if 0 <= j < BASE_PTR_CNT && j != i {
        DeleteOther(m, lists, cls, i, k, j);
      }
    }
    forall j ensures Holds(lists', cls', j) {
      assert Holds(lists, cls, j);
      DeleteHolds(lists, cls, i, k, j);
    }
    forall x | x in cls' ensures x in lists'[cls'[x]] {
      var n :| 0 <= n < |lists[cls[x]]| && lists[cls[x]][n] == x;
      if cls[x] == i {
        assert n != k && x == lists'[i][if n < k then n else n - 1];
      }
    }
  }
}
