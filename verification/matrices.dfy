/** The distance matrix shared by every variant of the program: a square
    `int[][]`, indexed by zero-based vertex position, with a sentinel for
    "no path known". */
module Matrices {
  import opened Int32

  /** `Integer.MAX_VALUE / 2`, the "no path" sentinel of every variant. */
  const INF: int := INT_MAX / 2

  type Matrix = seq<seq<int>>

  datatype Option<T> = None | Some(value: T)

  predicate IsSquare(m: Matrix) {
    forall i :: 0 <= i < |m| ==> |m[i]| == |m|
  }

  /** Every entry is a non-negative distance or the sentinel. */
  predicate InRange(m: Matrix) {
    && IsSquare(m)
    && forall i, j :: 0 <= i < |m| && 0 <= j < |m| ==> 0 <= m[i][j] <= INF
  }

  predicate Symmetric(m: Matrix) {
    && IsSquare(m)
    && forall i, j :: 0 <= i < |m| && 0 <= j < |m| ==> m[i][j] == m[j][i]
  }

  predicate ZeroDiagonal(m: Matrix) {
    && IsSquare(m)
    && forall i :: 0 <= i < |m| ==> m[i][i] == 0
  }

  /** No edges at all: 0 on the diagonal, the sentinel everywhere else. */
  predicate IsEmptyGraph(m: Matrix, vertices: nat) {
    && |m| == vertices
    && IsSquare(m)
    && forall i, j :: 0 <= i < vertices && 0 <= j < vertices ==>
         m[i][j] == if i == j then 0 else INF
  }

  /** Pointwise order: no entry of `a` exceeds the matching entry of `b`. */
  predicate Below(a: Matrix, b: Matrix) {
    && IsSquare(a) && IsSquare(b) && |a| == |b|
    && forall i, j :: 0 <= i < |a| && 0 <= j < |a| ==> a[i][j] <= b[i][j]
  }

  /** `m` with the single cell (i, j) set to v: one Java array store. */
  function Set(m: Matrix, i: nat, j: nat, v: int): Matrix
    requires i < |m| && j < |m[i]|
  {
    m[i := m[i][j := v]]
  }

  /** A fresh `new int[n][n]`: every cell 0. */
  function Zeros(n: nat): (m: Matrix)
    ensures |m| == n && IsSquare(m)
    ensures forall i, j :: 0 <= i < n && 0 <= j < n ==> m[i][j] == 0
  {
    seq(n, _ => seq(n, _ => 0))
  }

  /** Two square matrices of one size with the same entries are equal. */
  lemma MatrixEquality(a: Matrix, b: Matrix)
    requires IsSquare(a) && IsSquare(b) && |a| == |b|
    requires forall i, j :: 0 <= i < |a| && 0 <= j < |a| ==> a[i][j] == b[i][j]
    ensures a == b
  {
    forall i | 0 <= i < |a|
      ensures a[i] == b[i]
    {
      assert forall j :: 0 <= j < |a| ==> a[i][j] == b[i][j];
    }
  }

  lemma EmptyGraphFacts(m: Matrix, vertices: nat)
    requires IsEmptyGraph(m, vertices)
    ensures InRange(m) && Symmetric(m) && ZeroDiagonal(m)
  {
  }
}
