/** The cache-friendly matrix transposes, against the plain one. */
module Transpose {

  // ---------- matrices as values ----------

  ghost function Rows(a: array2<int>): (m: seq<seq<int>>)
    reads a
    ensures |m| == a.Length0 && forall i :: 0 <= i < |m| ==> |m[i]| == a.Length1
    ensures forall i, j :: 0 <= i < a.Length0 && 0 <= j < a.Length1 ==> m[i][j] == a[i, j]
  {
    seq(a.Length0, i requires 0 <= i < a.Length0 reads a =>
      seq(a.Length1, j requires 0 <= j < a.Length1 reads a => a[i, j]))
  }

  ghost predicate Rectangular(m: seq<seq<int>>, width: nat) {
    forall i :: 0 <= i < |m| ==> |m[i]| == width
  }

  /** Row `j` of the transpose is column `j`. */
  ghost function Transposed(m: seq<seq<int>>, width: nat): (t: seq<seq<int>>)
    requires Rectangular(m, width)
    ensures |t| == width && Rectangular(t, |m|)
    ensures forall i, j :: 0 <= i < |m| && 0 <= j < width ==> t[j][i] == m[i][j]
  {
    seq(width, j requires 0 <= j < width => seq(|m|, i requires 0 <= i < |m| => m[i][j]))
  }

  /** Transposing twice gives the matrix back. */
  lemma TransposedTwice(m: seq<seq<int>>, width: nat)
    requires Rectangular(m, width)
    ensures Transposed(Transposed(m, width), |m|) == m
  {
    var t := Transposed(Transposed(m, width), |m|);
    forall i | 0 <= i < |m| ensures t[i] == m[i] {
      assert forall j :: 0 <= j < width ==> t[i][j] == m[i][j];
    }
  }

  /** Cell by cell, what it means that `b` is the transpose of `a`. */
  ghost predicate IsTransposed(a: array2<int>, b: array2<int>)
    requires b.Length0 == a.Length1 && b.Length1 == a.Length0
    reads a, b
  {
    forall i, j :: 0 <= i < a.Length0 && 0 <= j < a.Length1 ==> b[j, i] == a[i, j]
  }

  lemma CellsTransposed(a: array2<int>, b: array2<int>)
    requires b.Length0 == a.Length1 && b.Length1 == a.Length0
    ensures IsTransposed(a, b) <==> Rows(b) == Transposed(Rows(a), a.Length1)
  {
    var t := Transposed(Rows(a), a.Length1);
    if IsTransposed(a, b) {
      forall j | 0 <= j < a.Length1 ensures Rows(b)[j] == t[j] {
        assert forall i :: 0 <= i < a.Length0 ==> Rows(b)[j][i] == t[j][i];
      }
    } else {
      var i, j :| 0 <= i < a.Length0 && 0 <= j < a.Length1 && b[j, i] != a[i, j];
      assert Rows(b)[j][i] != t[j][i];
    }
  }

  /** Whether the scan of a block row by row has passed cell (i, j) when it is at (i0, j0). */
  ghost predicate Passed(i: int, j: int, i0: int, j0: int) {
    i < i0 || (i == i0 && j < j0)
  }

  ghost predicate In(x: int, from: int, size: int) {
    from <= x < from + size
  }

  // ---------- the five steps on an 8x8 block off the diagonal ----------

  /** The upper half of the block, row by row: its left 4x4 part transposed, its right part as it is. */
  method CopyUpper(A: array2<int>, B: array2<int>, i2: nat, j2: nat)
    requires A != B && B.Length0 == A.Length1 && B.Length1 == A.Length0
    requires i2 + 8 <= A.Length0 && j2 + 8 <= A.Length1
    modifies B
    ensures forall r, c :: In(r, j2, 4) && In(c, i2, 4) ==> B[r, c] == A[c, r]
    ensures forall r, c :: In(r, j2, 4) && In(c, i2 + 4, 4) ==> B[r, c] == A[i2 + (r - j2), j2 + (c - i2)]
    ensures forall r, c :: 0 <= r < B.Length0 && 0 <= c < B.Length1 && !(In(r, j2, 4) && In(c, i2, 8)) ==>
              B[r, c] == old(B[r, c])
  {
    var i0 := i2;
    while i0 < i2 + 4
      invariant i2 <= i0 <= i2 + 4
      invariant forall r, c :: In(r, j2, 4) && In(c, i2, 4) && c < i0 ==> B[r, c] == A[c, r]
      invariant forall r, c :: In(r, j2, 4) && In(c, i2 + 4, 4) && i2 + (r - j2) < i0 ==>
                  B[r, c] == A[i2 + (r - j2), j2 + (c - i2)]
      invariant forall r, c :: 0 <= r < B.Length0 && 0 <= c < B.Length1 && !(In(r, j2, 4) && In(c, i2, 8)) ==>
                  B[r, c] == old(B[r, c])
    {
      var j0 := j2;
      while j0 < j2 + 8
        invariant j2 <= j0 <= j2 + 8
        invariant forall r, c :: In(r, j2, 4) && In(c, i2, 4) && Passed(c, r, i0, j0) ==> B[r, c] == A[c, r]
        invariant forall r, c :: In(r, j2, 4) && In(c, i2 + 4, 4) && Passed(i2 + (r - j2), j2 + (c - i2), i0, j0) ==>
                    B[r, c] == A[i2 + (r - j2), j2 + (c - i2)]
        invariant forall r, c :: 0 <= r < B.Length0 && 0 <= c < B.Length1 && !(In(r, j2, 4) && In(c, i2, 8)) ==>
                    B[r, c] == old(B[r, c])
      {
        if j0 < j2 + 4 {
          B[j0, i0] := A[i0, j0];
        } else {
          B[j2 + (i0 - i2), i2 + (j0 - j2)] := A[i0, j0];
        }
        j0 := j0 + 1;
      }
      i0 := i0 + 1;
    }
  }

  /** The lower left part of A changes places with the upper right part of B, both transposed. */
  method SwapParts(A: array2<int>, B: array2<int>, i2: nat, j2: nat)
    requires A != B && B.Length0 == A.Length1 && B.Length1 == A.Length0
    requires i2 + 8 <= A.Length0 && j2 + 8 <= A.Length1
    modifies A, B
    ensures forall i, j :: 0 <= i < A.Length0 && 0 <= j < A.Length1 ==>
              && A[i, j] == (if In(i, i2 + 4, 4) && In(j, j2, 4) then old(B[j, i]) else old(A[i, j]))
              && B[j, i] == (if In(i, i2 + 4, 4) && In(j, j2, 4) then old(A[i, j]) else old(B[j, i]))
  {
    var i0 := i2 + 4;
    while i0 < i2 + 8
      invariant i2 + 4 <= i0 <= i2 + 8
      invariant forall i, j :: 0 <= i < A.Length0 && 0 <= j < A.Length1 ==>
                  && A[i, j] == (if In(i, i2 + 4, 4) && In(j, j2, 4) && i < i0 then old(B[j, i]) else old(A[i, j]))
                  && B[j, i] == (if In(i, i2 + 4, 4) && In(j, j2, 4) && i < i0 then old(A[i, j]) else old(B[j, i]))
    {
      var j0 := j2;
      while j0 < j2 + 4
        invariant j2 <= j0 <= j2 + 4
        invariant forall i, j :: 0 <= i < A.Length0 && 0 <= j < A.Length1 ==>
                    && A[i, j] == (if In(i, i2 + 4, 4) && In(j, j2, 4) && Passed(i, j, i0, j0)
                                   then old(B[j, i]) else old(A[i, j]))
                    && B[j, i] == (if In(i, i2 + 4, 4) && In(j, j2, 4) && Passed(i, j, i0, j0)
                                   then old(A[i, j]) else old(B[j, i]))
      {
        var temp := A[i0, j0];
        A[i0, j0] := B[j0, i0];
        B[j0, i0] := temp;
        j0 := j0 + 1;
      }
      i0 := i0 + 1;
    }
  }

  /** The lower left part of A, copied as it is to the lower left part of B. */
  method CopyLowerLeft(A: array2<int>, B: array2<int>, i2: nat, j2: nat)
    requires A != B && B.Length0 == A.Length1 && B.Length1 == A.Length0
    requires i2 + 8 <= A.Length0 && j2 + 8 <= A.Length1
    modifies B
    ensures forall r, c :: 0 <= r < B.Length0 && 0 <= c < B.Length1 ==>
              B[r, c] == if In(r, j2 + 4, 4) && In(c, i2, 4) then A[i2 + (r - j2), j2 + (c - i2)] else old(B[r, c])
  {
    var i0 := i2 + 4;
    while i0 < i2 + 8
      invariant i2 + 4 <= i0 <= i2 + 8
      invariant forall r, c :: 0 <= r < B.Length0 && 0 <= c < B.Length1 ==>
                  B[r, c] == if In(r, j2 + 4, 4) && In(c, i2, 4) && i2 + (r - j2) < i0
                             then A[i2 + (r - j2), j2 + (c - i2)] else old(B[r, c])
    {
      var j0 := j2;
      while j0 < j2 + 4
        invariant j2 <= j0 <= j2 + 4
        invariant forall r, c :: 0 <= r < B.Length0 && 0 <= c < B.Length1 ==>
                    B[r, c] == if In(r, j2 + 4, 4) && In(c, i2, 4) && Passed(i2 + (r - j2), j2 + (c - i2), i0, j0)
                               then A[i2 + (r - j2), j2 + (c - i2)] else old(B[r, c])
      {
        B[j2 + 4 + (i0 - i2 - 4), i2 + j0 - j2] := A[i0, j0];
        j0 := j0 + 1;
      }
      i0 := i0 + 1;
    }
  }

  /** A rectangle of A, transposed into B. */
  method TransposePart(A: array2<int>, B: array2<int>, i1: nat, iEnd: nat, j1: nat, jEnd: nat)
    requires A != B && B.Length0 == A.Length1 && B.Length1 == A.Length0
    requires i1 <= iEnd <= A.Length0 && j1 <= jEnd <= A.Length1
    modifies B
    ensures forall i, j :: 0 <= i < A.Length0 && 0 <= j < A.Length1 ==>
              B[j, i] == if i1 <= i < iEnd && j1 <= j < jEnd then A[i, j] else old(B[j, i])
  {
    var i0 := i1;
    while i0 < iEnd
      invariant i1 <= i0 <= iEnd
      invariant forall i, j :: 0 <= i < A.Length0 && 0 <= j < A.Length1 ==>
                  B[j, i] == if i1 <= i < i0 && j1 <= j < jEnd then A[i, j] else old(B[j, i])
    {
      var j0 := j1;
      while j0 < jEnd
        invariant j1 <= j0 <= jEnd
        invariant forall i, j :: 0 <= i < A.Length0 && 0 <= j < A.Length1 ==>
                    B[j, i] == if i1 <= i < iEnd && j1 <= j < jEnd && Passed(i, j, i0, j0) then A[i, j]
                               else old(B[j, i])
      {
        B[j0, i0] := A[i0, j0];
        j0 := j0 + 1;
      }
      i0 := i0 + 1;
    }
  }

  /** The lower left part of A is put back from B. */
  method RestoreLowerLeft(A: array2<int>, B: array2<int>, i2: nat, j2: nat)
    requires A != B && B.Length0 == A.Length1 && B.Length1 == A.Length0
    requires i2 + 8 <= A.Length0 && j2 + 8 <= A.Length1
    modifies A
    ensures forall i, j :: 0 <= i < A.Length0 && 0 <= j < A.Length1 ==>
              A[i, j] == if In(i, i2 + 4, 4) && In(j, j2, 4) then B[j, i] else old(A[i, j])
  {
    var i0 := i2 + 4;
    while i0 < i2 + 8
      invariant i2 + 4 <= i0 <= i2 + 8
      invariant forall i, j :: 0 <= i < A.Length0 && 0 <= j < A.Length1 ==>
                  A[i, j] == if In(i, i2 + 4, 4) && In(j, j2, 4) && i < i0 then B[j, i] else old(A[i, j])
    {
      var j0 := j2;
      while j0 < j2 + 4
        invariant j2 <= j0 <= j2 + 4
        invariant forall i, j :: 0 <= i < A.Length0 && 0 <= j < A.Length1 ==>
                    A[i, j] == if In(i, i2 + 4, 4) && In(j, j2, 4) && Passed(i, j, i0, j0) then B[j, i]
                               else old(A[i, j])
      {
        A[i0, j0] := B[j0, i0];
        j0 := j0 + 1;
      }
      i0 := i0 + 1;
    }
  }

  /** An 8x8 block off the diagonal: B receives its transpose, and A is whole again. */
  method OffDiagonal(A: array2<int>, B: array2<int>, i2: nat, j2: nat)
    requires A != B && B.Length0 == A.Length1 && B.Length1 == A.Length0
    requires i2 + 8 <= A.Length0 && j2 + 8 <= A.Length1
    modifies A, B
    ensures forall i, j :: 0 <= i < A.Length0 && 0 <= j < A.Length1 ==>
              && A[i, j] == old(A[i, j])
              && B[j, i] == if In(i, i2, 8) && In(j, j2, 8) then old(A[i, j]) else old(B[j, i])
  {
    CopyUpper(A, B, i2, j2);
    SwapParts(A, B, i2, j2);
    CopyLowerLeft(A, B, i2, j2);
    TransposePart(A, B, i2 + 4, i2 + 8, j2 + 4, j2 + 8);
    RestoreLowerLeft(A, B, i2, j2);
  }

  // ---------- blocks on the diagonal ----------

  /** Four cells of a row of A, read before they are written to a column of B. */
  method CopyFour(A: array2<int>, B: array2<int>, i0: nat, j0: nat)
    requires A != B && B.Length0 == A.Length1 && B.Length1 == A.Length0
    requires i0 < A.Length0 && j0 + 4 <= A.Length1
    modifies B
    ensures forall i, j :: 0 <= i < A.Length0 && 0 <= j < A.Length1 ==>
              B[j, i] == if i == i0 && In(j, j0, 4) then A[i, j] else old(B[j, i])
  {
    var v0 := A[i0, j0];
    var v1 := A[i0, j0 + 1];
    var v2 := A[i0, j0 + 2];
    var v3 := A[i0, j0 + 3];
    B[j0, i0] := v0;
    B[j0 + 1, i0] := v1;
    B[j0 + 2, i0] := v2;
    B[j0 + 3, i0] := v3;
  }

  method TransposeQuarter(A: array2<int>, B: array2<int>, i1: nat, j1: nat)
    requires A != B && B.Length0 == A.Length1 && B.Length1 == A.Length0
    requires i1 + 4 <= A.Length0 && j1 + 4 <= A.Length1
    modifies B
    ensures forall i, j :: 0 <= i < A.Length0 && 0 <= j < A.Length1 ==>
              B[j, i] == if In(i, i1, 4) && In(j, j1, 4) then A[i, j] else old(B[j, i])
  {
    var i0 := i1;
    while i0 < i1 + 4
      invariant i1 <= i0 <= i1 + 4
      invariant forall i, j :: 0 <= i < A.Length0 && 0 <= j < A.Length1 ==>
                  B[j, i] == if In(i, i1, i0 - i1) && In(j, j1, 4) then A[i, j] else old(B[j, i])
    {
      CopyFour(A, B, i0, j1);
      i0 := i0 + 1;
    }
  }

  method OnDiagonal(A: array2<int>, B: array2<int>, i2: nat, j2: nat)
    requires A != B && B.Length0 == A.Length1 && B.Length1 == A.Length0
    requires i2 + 8 <= A.Length0 && j2 + 8 <= A.Length1
    modifies B
    ensures forall i, j :: 0 <= i < A.Length0 && 0 <= j < A.Length1 ==>
              B[j, i] == if In(i, i2, 8) && In(j, j2, 8) then A[i, j] else old(B[j, i])
  {
    var i1 := i2;
    while i1 < i2 + 8
      invariant i1 == i2 || i1 == i2 + 4 || i1 == i2 + 8
      invariant forall i, j :: 0 <= i < A.Length0 && 0 <= j < A.Length1 ==>
                  B[j, i] == if In(i, i2, i1 - i2) && In(j, j2, 8) then A[i, j] else old(B[j, i])
    {
      var j1 := j2;
      while j1 < j2 + 8
        invariant j1 == j2 || j1 == j2 + 4 || j1 == j2 + 8
        invariant forall i, j :: 0 <= i < A.Length0 && 0 <= j < A.Length1 ==>
                    B[j, i] == if (In(i, i2, i1 - i2) && In(j, j2, 8)) || (In(i, i1, 4) && In(j, j2, j1 - j2))
                               then A[i, j] else old(B[j, i])
      {
        TransposeQuarter(A, B, i1, j1);
        j1 := j1 + 4;
      }
      i1 := i1 + 4;
    }
  }

  // ---------- the whole transposes ----------

  /** The transpose by 8x8 blocks that uses part of A, and part of B, to park values. */
  method Blocksize8x4(A: array2<int>, B: array2<int>)
    requires A != B && B.Length0 == A.Length1 && B.Length1 == A.Length0
    requires A.Length0 % 8 == 0 && A.Length1 % 8 == 0
    modifies A, B
    ensures Rows(A) == old(Rows(A)) && Rows(B) == Transposed(old(Rows(A)), A.Length1)
  {
    var i2 := 0;
    while i2 < A.Length0
      invariant 0 <= i2 <= A.Length0 && i2 % 8 == 0
      invariant forall i, j :: 0 <= i < A.Length0 && 0 <= j < A.Length1 ==>
                  A[i, j] == old(A[i, j]) && (i < i2 ==> B[j, i] == A[i, j])
    {
      var j2 := 0;
      while j2 < A.Length1
        invariant 0 <= j2 <= A.Length1 && j2 % 8 == 0
        invariant forall i, j :: 0 <= i < A.Length0 && 0 <= j < A.Length1 ==>
                    A[i, j] == old(A[i, j]) && (i < i2 || (In(i, i2, 8) && j < j2) ==> B[j, i] == A[i, j])
      {
        if i2 == j2 {
          OnDiagonal(A, B, i2, j2);
        } else {
          OffDiagonal(A, B, i2, j2);
        }
        j2 := j2 + 8;
      }
      i2 := i2 + 8;
    }
    CellsTransposed(A, B);
    assert forall i :: 0 <= i < A.Length0 ==> Rows(A)[i] == old(Rows(A))[i];
  }

  /** A diagonal block that leaves the cell on the diagonal to the end of each row. */
  method DiagonalLast(A: array2<int>, B: array2<int>, i1: nat, j1: nat)
    requires A != B && B.Length0 == A.Length1 && B.Length1 == A.Length0
    requires i1 == j1 && i1 + 8 <= A.Length0 && j1 + 8 <= A.Length1
    modifies B
    ensures forall i, j :: 0 <= i < A.Length0 && 0 <= j < A.Length1 ==>
              B[j, i] == if In(i, i1, 8) && In(j, j1, 8) then A[i, j] else old(B[j, i])
  {
    var i0 := i1;
    while i0 < i1 + 8
      invariant i1 <= i0 <= i1 + 8
      invariant forall i, j :: 0 <= i < A.Length0 && 0 <= j < A.Length1 ==>
                  B[j, i] == if In(i, i1, i0 - i1) && In(j, j1, 8) then A[i, j] else old(B[j, i])
    {
      var j0 := j1;
      while j0 < j1 + 8
        invariant j1 <= j0 <= j1 + 8
        invariant forall i, j :: 0 <= i < A.Length0 && 0 <= j < A.Length1 ==>
                    B[j, i] == if In(i, i1, 8) && In(j, j1, 8) && Passed(i, j, i0, j0) && !(i == j == i0)
                               then A[i, j] else old(B[j, i])
      {
        if i0 != j0 {
          B[j0, i0] := A[i0, j0];
        }
        j0 := j0 + 1;
      }
      B[i0, i0] := A[i0, i0];
      i0 := i0 + 1;
    }
  }

  /** An 8x8 block of B, filled row by row. */
  method GatherPart(A: array2<int>, B: array2<int>, i1: nat, j1: nat)
    requires A != B && B.Length0 == A.Length1 && B.Length1 == A.Length0
    requires i1 + 8 <= B.Length0 && j1 + 8 <= B.Length1
    modifies B
    ensures forall i, j :: 0 <= i < B.Length0 && 0 <= j < B.Length1 ==>
              B[i, j] == if In(i, i1, 8) && In(j, j1, 8) then A[j, i] else old(B[i, j])
  {
    var i0 := i1;
    while i0 < i1 + 8
      invariant i1 <= i0 <= i1 + 8
      invariant forall i, j :: 0 <= i < B.Length0 && 0 <= j < B.Length1 ==>
                  B[i, j] == if In(i, i1, i0 - i1) && In(j, j1, 8) then A[j, i] else old(B[i, j])
    {
      var j0 := j1;
      while j0 < j1 + 8
        invariant j1 <= j0 <= j1 + 8
        invariant forall i, j :: 0 <= i < B.Length0 && 0 <= j < B.Length1 ==>
                    B[i, j] == if In(i, i1, 8) && In(j, j1, 8) && Passed(i, j, i0, j0) then A[j, i] else old(B[i, j])
      {
        B[i0, j0] := A[j0, i0];
        j0 := j0 + 1;
      }
      i0 := i0 + 1;
    }
  }

  /** Eight rows of B, block by block. */
  method EightRows(A: array2<int>, B: array2<int>, i1: nat)
    requires A != B && B.Length0 == A.Length1 == A.Length0 == B.Length1
    requires A.Length0 % 8 == 0 && i1 % 8 == 0 && i1 + 8 <= A.Length0
    modifies B
    ensures forall i, j :: 0 <= i < B.Length0 && 0 <= j < B.Length1 ==>
              B[i, j] == if In(i, i1, 8) then A[j, i] else old(B[i, j])
  {
    var j1 := 0;
    while j1 < A.Length1
      invariant 0 <= j1 <= A.Length1 && j1 % 8 == 0
      invariant forall i, j :: 0 <= i < B.Length0 && 0 <= j < B.Length1 ==>
                  B[i, j] == if In(i, i1, 8) && j < j1 then A[j, i] else old(B[i, j])
    {
      if i1 == j1 {
        DiagonalLast(A, B, i1, j1);
      } else {
        GatherPart(A, B, i1, j1);
      }
      j1 := j1 + 8;
    }
  }

  /** The transpose by 8x8 blocks for small square matrices. */
  method Blocksize8(A: array2<int>, B: array2<int>)
    requires A != B && B.Length0 == A.Length1 == A.Length0 == B.Length1
    requires A.Length0 % 8 == 0
    modifies B
    ensures Rows(B) == Transposed(Rows(A), A.Length1)
  {
    var i1 := 0;
    while i1 < A.Length0
      invariant 0 <= i1 <= A.Length0 && i1 % 8 == 0
      invariant forall i, j :: 0 <= i < i1 && 0 <= j < B.Length1 ==> B[i, j] == A[j, i]
    {
      EightRows(A, B, i1);
      i1 := i1 + 8;
    }
    CellsTransposed(A, B);
  }

  const B_SIZE := 16

  /** The transpose by 16x16 blocks, cut off at the edges; the dimensions are arbitrary. */
  method Blocksize16(A: array2<int>, B: array2<int>)
    requires A != B && B.Length0 == A.Length1 && B.Length1 == A.Length0
    modifies B
    ensures Rows(B) == Transposed(Rows(A), A.Length1)
  {
    var i := 0;
    while i < A.Length0
      invariant 0 <= i
      invariant forall k, h :: 0 <= k < A.Length0 && 0 <= h < A.Length1 && k < i ==> B[h, k] == A[k, h]
    {
      var j := 0;
      while j < A.Length1
        invariant 0 <= j
        invariant forall k, h :: 0 <= k < A.Length0 && 0 <= h < A.Length1 && (k < i || (k < i + B_SIZE && h < j)) ==>
                    B[h, k] == A[k, h]
      {
        TransposePart(A, B, i, Least(i + B_SIZE, A.Length0), j, Least(j + B_SIZE, A.Length1));
        j := j + B_SIZE;
      }
      i := i + B_SIZE;
    }
    CellsTransposed(A, B);
  }

  function Least(x: nat, y: nat): nat {
    if x < y then x else y
  }

  /** The baseline: cell by cell. */
  method CorrectTrans(A: array2<int>, B: array2<int>)
    requires A != B && B.Length0 == A.Length1 && B.Length1 == A.Length0
    modifies B
    ensures Rows(B) == Transposed(Rows(A), A.Length1)
  {
    TransposePart(A, B, 0, A.Length0, 0, A.Length1);
    CellsTransposed(A, B);
  }

  /** The submitted transpose chooses by the dimensions; those it knows nothing about are left alone. */
  method TransposeSubmit(A: array2<int>, B: array2<int>)
    requires A != B && B.Length0 == A.Length1 && B.Length1 == A.Length0
    requires A.Length0 == A.Length1 ==> A.Length0 % 8 == 0
    modifies A, B
    ensures Rows(A) == old(Rows(A))
    ensures Rows(B) == if A.Length0 == A.Length1 || (A.Length0 == 67 && A.Length1 == 61)
                       then Transposed(old(Rows(A)), A.Length1) else old(Rows(B))
  {
    if A.Length0 == A.Length1 {
      if A.Length0 <= 32 {
        Blocksize8(A, B);
      } else {
        Blocksize8x4(A, B);
      }
    } else if A.Length0 == 67 && A.Length1 == 61 {
      Blocksize16(A, B);
    }
  }

  /** The check of the result that the file offers. */
  method CheckTranspose(A: array2<int>, B: array2<int>) returns (r: bool)
    requires B.Length0 == A.Length1 && B.Length1 == A.Length0
    ensures r <==> Rows(B) == Transposed(Rows(A), A.Length1)
  {
    CellsTransposed(A, B);
    var i1 := 0;
    while i1 < A.Length0
      invariant 0 <= i1 <= A.Length0
      invariant forall i, j :: 0 <= i < i1 && 0 <= j < A.Length1 ==> B[j, i] == A[i, j]
    {
      var j1 := 0;
      while j1 < A.Length1
        invariant 0 <= j1 <= A.Length1
        invariant forall j :: 0 <= j < j1 ==> B[j, i1] == A[i1, j]
      {
        if A[i1, j1] != B[j1, i1] {
          return false;
        }
        j1 := j1 + 1;
      }
      i1 := i1 + 1;
    }
    return true;
  }
}
