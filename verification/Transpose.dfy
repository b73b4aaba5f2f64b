/** Matrix transposition in 8 by 8 tiles: once staging a quadrant in the target, once in place. */
module Transpose {
  /** A has N rows and M columns, B has M rows and N columns. */
  predicate Shaped<T>(A: array2<T>, B: array2<T>) {
    A != B && A.Length0 == B.Length1 && A.Length1 == B.Length0
  }

  /** Within rows [r0, r1) and columns [c0, c1), B holds the transpose of A. */
  ghost predicate Region<T>(A: array2<T>, B: array2<T>, r0: int, r1: int, c0: int, c1: int)
    requires Shaped(A, B) && 0 <= r0 && r1 <= B.Length0 && 0 <= c0 && c1 <= B.Length1
    reads A, B
  {
    forall r, c :: r0 <= r < r1 && c0 <= c < c1 ==> B[r, c] == A[c, r]
  }

  ghost predicate Transposed<T>(A: array2<T>, B: array2<T>)
    requires Shaped(A, B)
    reads A, B
  {
    Region(A, B, 0, B.Length0, 0, B.Length1)
  }

  /** Nothing outside rows [r0, r1) and columns [c0, c1) of B has changed. */
  twostate predicate Only<T>(B: array2<T>, r0: int, r1: int, c0: int, c1: int)
    reads B
  {
    forall r, c :: 0 <= r < B.Length0 && 0 <= c < B.Length1 && !(r0 <= r < r1 && c0 <= c < c1) ==>
      B[r, c] == old(B[r, c])
  }

  /** Four rows of A: the left half goes where it belongs, the right half waits in the upper right quadrant. */
  method StageUpper<T>(A: array2<T>, B: array2<T>, i: nat, j: nat)
    requires Shaped(A, B) && i + 8 <= A.Length0 && j + 8 <= A.Length1
    modifies B
    ensures Region(A, B, j, j + 4, i, i + 4)
    ensures forall r, c :: j <= r < j + 4 && i + 4 <= c < i + 8 ==> B[r, c] == A[c - 4, r + 4]
    ensures Only(B, j, j + 4, i, i + 8)
  {
    var k := i;
    while k < i + 4
      invariant i <= k <= i + 4
      invariant Region(A, B, j, j + 4, i, k)
      invariant forall r, c :: j <= r < j + 4 && i + 4 <= c < k + 4 ==> B[r, c] == A[c - 4, r + 4]
      invariant Only(B, j, j + 4, i, i + 8)
    {
      var a0, a1, a2, a3 := A[k, j], A[k, j + 1], A[k, j + 2], A[k, j + 3];
      var a4, a5, a6, a7 := A[k, j + 4], A[k, j + 5], A[k, j + 6], A[k, j + 7];
      B[j, k] := a0;
      B[j + 1, k] := a1;
      B[j + 2, k] := a2;
      B[j + 3, k] := a3;
      B[j, k + 4] := a4;
      B[j + 1, k + 4] := a5;
      B[j + 2, k + 4] := a6;
      B[j + 3, k + 4] := a7;
      k := k + 1;
    }
  }

  /** Each staged row moves down into place while the lower left quadrant of A takes its place. */
  method Unstage<T>(A: array2<T>, B: array2<T>, i: nat, j: nat)
    requires Shaped(A, B) && i + 8 <= A.Length0 && j + 8 <= A.Length1
    requires forall r, c :: j <= r < j + 4 && i + 4 <= c < i + 8 ==> B[r, c] == A[c - 4, r + 4]
    modifies B
    ensures Region(A, B, j, j + 4, i + 4, i + 8)
    ensures Region(A, B, j + 4, j + 8, i, i + 4)
    ensures forall r, c :: 0 <= r < B.Length0 && 0 <= c < B.Length1 ==>
              !(j <= r < j + 4 && i + 4 <= c < i + 8) && !(j + 4 <= r < j + 8 && i <= c < i + 4) ==>
                B[r, c] == old(B[r, c])
  {
    var k := j;
    while k < j + 4
      invariant j <= k <= j + 4
      invariant forall r, c :: k <= r < j + 4 && i + 4 <= c < i + 8 ==> B[r, c] == A[c - 4, r + 4]
      invariant Region(A, B, j, k, i + 4, i + 8)
      invariant Region(A, B, j + 4, k + 4, i, i + 4)
      invariant forall r, c :: 0 <= r < B.Length0 && 0 <= c < B.Length1 ==>
                  !(j <= r < j + 4 && i + 4 <= c < i + 8) && !(j + 4 <= r < j + 8 && i <= c < i + 4) ==>
                    B[r, c] == old(B[r, c])
    {
      var a0, a1, a2, a3 := B[k, i + 4], B[k, i + 5], B[k, i + 6], B[k, i + 7];
      var a4, a5, a6, a7 := A[i + 4, k], A[i + 5, k], A[i + 6, k], A[i + 7, k];
      B[k, i + 4] := a4;
      B[k, i + 5] := a5;
      B[k, i + 6] := a6;
      B[k, i + 7] := a7;
      B[k + 4, i] := a0;
      B[k + 4, i + 1] := a1;
      B[k + 4, i + 2] := a2;
      B[k + 4, i + 3] := a3;
      k := k + 1;
    }
  }

  /** The lower right quadrant. */
  method FinishLower<T>(A: array2<T>, B: array2<T>, i: nat, j: nat)
    requires Shaped(A, B) && i + 8 <= A.Length0 && j + 8 <= A.Length1
    modifies B
    ensures Region(A, B, j + 4, j + 8, i + 4, i + 8)
    ensures Only(B, j + 4, j + 8, i + 4, i + 8)
  {
    var k := i + 4;
    while k < i + 8
      invariant i + 4 <= k <= i + 8
      invariant Region(A, B, j + 4, j + 8, i + 4, k)
      invariant Only(B, j + 4, j + 8, i + 4, i + 8)
    {
      var a4, a5, a6, a7 := A[k, j + 4], A[k, j + 5], A[k, j + 6], A[k, j + 7];
      B[j + 4, k] := a4;
      B[j + 5, k] := a5;
      B[j + 6, k] := a6;
      B[j + 7, k] := a7;
      k := k + 1;
    }
  }

  method StagedTile<T>(A: array2<T>, B: array2<T>, i: nat, j: nat)
    requires Shaped(A, B) && i + 8 <= A.Length0 && j + 8 <= A.Length1
    modifies B
    ensures Region(A, B, j, j + 8, i, i + 8)
    ensures Only(B, j, j + 8, i, i + 8)
  {
    StageUpper(A, B, i, j);
    Unstage(A, B, i, j);
    FinishLower(A, B, i, j);
  }

  /** The body for 64 by 64, on every multiple of 8. */
  method StagedTiles<T>(A: array2<T>, B: array2<T>)
    requires Shaped(A, B) && A.Length0 % 8 == 0 && A.Length1 % 8 == 0
    modifies B
    ensures Transposed(A, B)
  {
    var i := 0;
    while i < A.Length0
      invariant 0 <= i <= A.Length0 && i % 8 == 0
      invariant Region(A, B, 0, A.Length1, 0, i)
    {
      var j := 0;
      while j < A.Length1
        invariant 0 <= j <= A.Length1 && j % 8 == 0
        invariant Region(A, B, 0, A.Length1, 0, i)
        invariant Region(A, B, 0, j, i, i + 8)
      {
        StagedTile(A, B, i, j);
        j := j + 8;
      }
      i := i + 8;
    }
  }

  /** Eight rows of A, copied as they are. */
  method CopyTile<T>(A: array2<T>, B: array2<T>, i: nat, j: nat)
    requires Shaped(A, B) && i + 8 <= A.Length0 && j + 8 <= A.Length1
    modifies B
    ensures forall r, c :: j <= r < j + 8 && i <= c < i + 8 ==> B[r, c] == A[i + (r - j), j + (c - i)]
    ensures Only(B, j, j + 8, i, i + 8)
  {
    var k := 0;
    while k < 8
      invariant 0 <= k <= 8
      invariant forall r, c :: j <= r < j + k && i <= c < i + 8 ==> B[r, c] == A[i + (r - j), j + (c - i)]
      invariant Only(B, j, j + 8, i, i + 8)
    {
      var a0, a1, a2, a3 := A[i + k, j], A[i + k, j + 1], A[i + k, j + 2], A[i + k, j + 3];
      var a4, a5, a6, a7 := A[i + k, j + 4], A[i + k, j + 5], A[i + k, j + 6], A[i + k, j + 7];
      B[j + k, i] := a0;
      B[j + k, i + 1] := a1;
      B[j + k, i + 2] := a2;
      B[j + k, i + 3] := a3;
      B[j + k, i + 4] := a4;
      B[j + k, i + 5] := a5;
      B[j + k, i + 6] := a6;
      B[j + k, i + 7] := a7;
      k := k + 1;
    }
  }

  /** The tile at (j, i) of B turned about its diagonal, as far as row k and, in that row, column l. */
  twostate predicate Turned<T>(B: array2<T>, i: nat, j: nat, k: int, l: int)
    requires j + 8 <= B.Length0 && i + 8 <= B.Length1
    reads B
  {
    forall r, c :: j <= r < j + 8 && i <= c < i + 8 ==>
      B[r, c] == if Passed(r - j, c - i, k, l) then old(B[j + (c - i), i + (r - j)]) else old(B[r, c])
  }

  /** The swaps so far have reached the pair of cells (x, y) and (y, x) of the tile. */
  predicate Passed(x: int, y: int, k: int, l: int) {
    (x < k && y < k) || (x == k && y < l) || (y == k && x < l)
  }

  method Swap<T>(B: array2<T>, r: nat, c: nat, r': nat, c': nat)
    requires r < B.Length0 && c < B.Length1 && r' < B.Length0 && c' < B.Length1
    modifies B
    ensures B[r, c] == old(B[r', c']) && B[r', c'] == old(B[r, c])
    ensures forall x, y :: 0 <= x < B.Length0 && 0 <= y < B.Length1 && (x != r || y != c) && (x != r' || y != c') ==>
              B[x, y] == old(B[x, y])
  {
    var a0 := B[r, c];
    B[r, c] := B[r', c'];
    B[r', c'] := a0;
  }

  /** The swapping loops. */
  method TurnTile<T>(B: array2<T>, i: nat, j: nat)
    requires j + 8 <= B.Length0 && i + 8 <= B.Length1
    modifies B
    ensures forall r, c :: j <= r < j + 8 && i <= c < i + 8 ==> B[r, c] == old(B[j + (c - i), i + (r - j)])
    ensures Only(B, j, j + 8, i, i + 8)
  {
    var k := 0;
    while k < 8
      invariant 0 <= k <= 8
      invariant Turned(B, i, j, k, 0)
      invariant Only(B, j, j + 8, i, i + 8)
    {
      var l := 0;
      while l < k
        invariant 0 <= l <= k
        invariant Turned(B, i, j, k, l)
        invariant Only(B, j, j + 8, i, i + 8)
      {
        Swap(B, j + k, i + l, j + l, i + k);
        l := l + 1;
      }
      k := k + 1;
    }
  }

  method SwappedTile<T>(A: array2<T>, B: array2<T>, i: nat, j: nat)
    requires Shaped(A, B) && i + 8 <= A.Length0 && j + 8 <= A.Length1
    modifies B
    ensures Region(A, B, j, j + 8, i, i + 8)
    ensures Only(B, j, j + 8, i, i + 8)
  {
    CopyTile(A, B, i, j);
    label copied:
    TurnTile(B, i, j);
    forall r, c | j <= r < j + 8 && i <= c < i + 8
      ensures B[r, c] == A[c, r]
    {
      assert B[r, c] == old@copied(B[j + (c - i), i + (r - j)]);
    }
  }

  /** The body for 32 by 32, on every multiple of 8. */
  method SwappedTiles<T>(A: array2<T>, B: array2<T>)
    requires Shaped(A, B) && A.Length0 % 8 == 0 && A.Length1 % 8 == 0
    modifies B
    ensures Transposed(A, B)
  {
    var i := 0;
    while i < A.Length0
      invariant 0 <= i <= A.Length0 && i % 8 == 0
      invariant Region(A, B, 0, A.Length1, 0, i)
    {
      var j := 0;
      while j < A.Length1
        invariant 0 <= j <= A.Length1 && j % 8 == 0
        invariant Region(A, B, 0, A.Length1, 0, i)
        invariant Region(A, B, 0, j, i, i + 8)
      {
        SwappedTile(A, B, i, j);
        j := j + 8;
      }
      i := i + 8;
    }
  }

  /** trans: one element at a time, for every shape. */
  method Trans<T>(A: array2<T>, B: array2<T>)
    requires Shaped(A, B)
    modifies B
    ensures Transposed(A, B)
  {
    for i := 0 to A.Length0
      invariant Region(A, B, 0, A.Length1, 0, i)
    {
      for j := 0 to A.Length1
        invariant Region(A, B, 0, A.Length1, 0, i)
        invariant Region(A, B, 0, j, i, i + 1)
      {
        var tmp := A[i, j];
        B[j, i] := tmp;
      }
    }
  }

  method IsTranspose<T(==)>(A: array2<T>, B: array2<T>) returns (r: bool)
    requires Shaped(A, B)
    ensures r <==> Transposed(A, B)
  {
    for i := 0 to A.Length0
      invariant Region(A, B, 0, A.Length1, 0, i)
    {
      for j := 0 to A.Length1
        invariant Region(A, B, 0, A.Length1, 0, i)
        invariant Region(A, B, 0, j, i, i + 1)
      {
        if A[i, j] != B[j, i] {
          return false;
        }
      }
    }
    return true;
  }

  /** transpose_submit on the shapes it is written for, except 61 by 67; any other shape it leaves alone. */
  method TransposeSubmit<T>(A: array2<T>, B: array2<T>)
    requires Shaped(A, B) && !(A.Length1 == 61 && A.Length0 == 67)
    modifies B
    ensures if A.Length0 == A.Length1 == 64 || A.Length0 == A.Length1 == 32 then Transposed(A, B)
            else forall r, c :: 0 <= r < B.Length0 && 0 <= c < B.Length1 ==> B[r, c] == old(B[r, c])
  {
    if A.Length1 == 64 && A.Length0 == 64 {
      StagedTiles(A, B);
      return;
    }
    if A.Length1 == 32 && A.Length0 == 32 {
      SwappedTiles(A, B);
      return;
    }
  }
}
