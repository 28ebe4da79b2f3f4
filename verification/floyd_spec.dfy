/** The Floyd–Warshall recurrence as a pure function: round k relaxes every
    pair (i, j) through the intermediate vertex k, with the guard and the
    int addition the Java loops use. `Rounds(m, k)` is the matrix of shortest
    distances through intermediates below k, and `Solve(m)` is the result
    every variant of the program is proved to compute. */
module FloydSpec {
  import opened Int32
  import opened Matrices

  function Min(a: int, b: int): int {
    if a <= b then a else b
  }

  /** One guarded relaxation step: the candidate through the intermediate is
      formed only when neither leg is the sentinel, and is adopted only when
      strictly smaller. On entries in [0, INF] the int addition cannot
      overflow and the step is the plain minimum. */
  function Relax(current: int, toVia: int, fromVia: int): (r: int)
    ensures 0 <= current <= INF && 0 <= toVia <= INF && 0 <= fromVia <= INF ==>
              && (toVia != INF && fromVia != INF ==> IsInt32(toVia + fromVia))
              && r == Min(current, toVia + fromVia)
  {
    if toVia != INF && fromVia != INF && Add(toVia, fromVia) < current
    then Add(toVia, fromVia)
    else current
  }

  /** Why the sentinel is half the largest int: two entries in [0, INF] sum
      to at most INT_MAX - 1, so the int addition is exact, and the update
      with both `!= INF` guards dropped adopts the same value as `Relax`. */
  lemma EntrySumsFit(current: int, toVia: int, fromVia: int)
    requires 0 <= current <= INF && 0 <= toVia <= INF && 0 <= fromVia <= INF
    ensures Add(toVia, fromVia) == toVia + fromVia <= INT_MAX - 1
    ensures (if Add(toVia, fromVia) < current then Add(toVia, fromVia) else current)
              == Relax(current, toVia, fromVia)
  {
  }

  /** Round k, computed out of place from the matrix d. */
  function Round(d: Matrix, k: nat): (r: Matrix)
    requires IsSquare(d) && k < |d|
    ensures IsSquare(r) && |r| == |d|
  {
    seq(|d|, i requires 0 <= i < |d| =>
      seq(|d|, j requires 0 <= j < |d| => Relax(d[i][j], d[i][k], d[k][j])))
  }

  /** Rounds 0, 1, ..., k - 1 applied in order to m. */
  function Rounds(m: Matrix, k: nat): (r: Matrix)
    requires IsSquare(m) && k <= |m|
    ensures IsSquare(r) && |r| == |m|
    decreases k
  {
    if k == 0 then m else Round(Rounds(m, k - 1), k - 1)
  }

  function Solve(m: Matrix): (r: Matrix)
    requires IsSquare(m)
    ensures IsSquare(r) && |r| == |m|
  {
    Rounds(m, |m|)
  }

  /** Weights above INF pass both `!= INF` guards, and their int sum wraps:
      with two roads of weight INF + 1 the solve reports INT_MIN, both as
      the distance between two cities and as a city's distance to itself. */
  lemma HeavyWeightsWrap()
    ensures Solve([[0, INF + 1, INF], [INF + 1, 0, INF + 1], [INF, INF + 1, 0]])[0][2] == INT_MIN
    ensures Solve([[0, INF + 1], [INF + 1, 0]])[0][0] == INT_MIN
  {
    var a := INF + 1;
    assert Add(a, a) == INT_MIN && Add(INT_MIN, INT_MIN) == 0;
    var m3 := [[0, a, INF], [a, 0, a], [INF, a, 0]];
    var r1 := Rounds(m3, 1);
    assert r1 == Round(m3, 0);
    assert r1[0][1] == a && r1[1][2] == a && r1[2][1] == a;
    assert r1[0][2] == INF && r1[2][2] == 0;
    var r2 := Rounds(m3, 2);
    assert r2 == Round(r1, 1);
    assert r2[0][2] == INT_MIN && r2[2][2] == INT_MIN;
    assert Rounds(m3, 3) == Round(r2, 2);
    assert Solve(m3)[0][2] == INT_MIN;
    var m2 := [[0, a], [a, 0]];
    var s1 := Rounds(m2, 1);
    assert s1 == Round(m2, 0);
    assert s1[0][0] == 0 && s1[0][1] == a && s1[1][0] == a;
    assert Rounds(m2, 2) == Round(s1, 1);
  }

  /** A round keeps every entry in [0, INF] and never raises one. */
  lemma RoundInRange(d: Matrix, k: nat)
    requires InRange(d) && k < |d|
    ensures InRange(Round(d, k)) && Below(Round(d, k), d)
  {
  }

  lemma {:induction false} RoundsInRange(m: Matrix, k: nat)
    requires InRange(m) && k <= |m|
    ensures InRange(Rounds(m, k)) && Below(Rounds(m, k), m)
    decreases k
  {
    if k > 0 {
      RoundsInRange(m, k - 1);
      RoundInRange(Rounds(m, k - 1), k - 1);
    }
  }

  /** One more round never raises an entry. */
  lemma RoundsStepAt(m: Matrix, k: nat, i: nat, j: nat)
    requires InRange(m) && 0 < k <= |m| && i < |m| && j < |m|
    ensures Rounds(m, k)[i][j] <= Rounds(m, k - 1)[i][j]
  {
    var prev := Rounds(m, k - 1);
    RoundsInRange(m, k - 1);
    RoundInRange(prev, k - 1);
    assert Rounds(m, k) == Round(prev, k - 1);
  }

  /** Later rounds never raise an entry left by earlier ones. */
  lemma RoundsNonIncreasingAt(m: Matrix, k1: nat, k2: nat, i: nat, j: nat)
    requires InRange(m) && k1 <= k2 <= |m| && i < |m| && j < |m|
    ensures Rounds(m, k2)[i][j] <= Rounds(m, k1)[i][j]
  {
    var k := k1;
    var bound := Rounds(m, k1)[i][j];
    while k < k2
      invariant k1 <= k <= k2
      invariant Rounds(m, k)[i][j] <= bound
    {
      RoundsStepAt(m, k + 1, i, j);
      k := k + 1;
    }
  }

  lemma RoundsNonIncreasing(m: Matrix, k1: nat, k2: nat)
    requires InRange(m) && k1 <= k2 <= |m|
    ensures Below(Rounds(m, k2), Rounds(m, k1))
  {
    forall i, j | 0 <= i < |m| && 0 <= j < |m|
      ensures Rounds(m, k2)[i][j] <= Rounds(m, k1)[i][j]
    {
      RoundsNonIncreasingAt(m, k1, k2, i, j);
    }
  }

  /** The reason the in-place loops are sound: with a non-negative diagonal
      entry d[k][k], round k leaves row k and column k exactly as they were. */
  lemma RoundKeepsPivot(d: Matrix, k: nat)
    requires InRange(d) && k < |d|
    ensures forall i :: 0 <= i < |d| ==> Round(d, k)[i][k] == d[i][k] && Round(d, k)[k][i] == d[k][i]
  {
  }

  lemma RoundSymmetric(d: Matrix, k: nat)
    requires InRange(d) && Symmetric(d) && k < |d|
    ensures Symmetric(Round(d, k))
  {
    var r := Round(d, k);
    forall i, j | 0 <= i < |d| && 0 <= j < |d|
      ensures r[i][j] == r[j][i]
    {
      assert r[i][j] == Min(d[i][j], d[i][k] + d[k][j]);
      assert r[j][i] == Min(d[j][i], d[j][k] + d[k][i]);
    }
  }

  lemma {:induction false} RoundsSymmetric(m: Matrix, k: nat)
    requires InRange(m) && Symmetric(m) && k <= |m|
    ensures Symmetric(Rounds(m, k))
    decreases k
  {
    if k > 0 {
      RoundsSymmetric(m, k - 1);
      RoundsInRange(m, k - 1);
      RoundSymmetric(Rounds(m, k - 1), k - 1);
    }
  }

  /** A zero diagonal stays zero: entries cannot drop below 0 or rise. */
  lemma {:induction false} RoundsZeroDiagonal(m: Matrix, k: nat)
    requires InRange(m) && ZeroDiagonal(m) && k <= |m|
    ensures ZeroDiagonal(Rounds(m, k))
  {
    RoundsInRange(m, k);
  }

  /** Round k is monotone in its input matrix. */
  lemma RoundMonotone(a: Matrix, b: Matrix, k: nat)
    requires InRange(a) && InRange(b) && Below(a, b) && k < |a|
    ensures Below(Round(a, k), Round(b, k))
  {
  }

  /** Lowering entries of the input never raises any entry of the result. */
  lemma {:induction false} RoundsMonotone(a: Matrix, b: Matrix, k: nat)
    requires InRange(a) && InRange(b) && Below(a, b) && k <= |a|
    ensures Below(Rounds(a, k), Rounds(b, k))
    decreases k
  {
    if k > 0 {
      RoundsMonotone(a, b, k - 1);
      RoundsInRange(a, k - 1);
      RoundsInRange(b, k - 1);
      RoundMonotone(Rounds(a, k - 1), Rounds(b, k - 1), k - 1);
    }
  }

  /** Off the diagonal, a round does not depend on the diagonal entries. */
  lemma RoundIgnoresDiagonal(a: Matrix, b: Matrix, k: nat)
    requires InRange(a) && InRange(b) && |a| == |b| && k < |a|
    requires forall i, j :: 0 <= i < |a| && 0 <= j < |a| && i != j ==> a[i][j] == b[i][j]
    ensures forall i, j :: 0 <= i < |a| && 0 <= j < |a| && i != j ==> Round(a, k)[i][j] == Round(b, k)[i][j]
  {
    forall i, j | 0 <= i < |a| && 0 <= j < |a| && i != j
      ensures Round(a, k)[i][j] == Round(b, k)[i][j]
    {
      assert Round(a, k)[i][j] == Min(a[i][j], a[i][k] + a[k][j]);
      assert Round(b, k)[i][j] == Min(b[i][j], b[i][k] + b[k][j]);
    }
  }

  /** A zero-diagonal round leaves unchanged every entry whose row or column
      is the pivot. */
  lemma RoundFixesZeroDiagonal(d: Matrix, k: nat)
    requires InRange(d) && ZeroDiagonal(d) && k < |d|
    ensures forall i, j :: 0 <= i < |d| && 0 <= j < |d| && (i == j || i == k || j == k) ==>
              Round(d, k)[i][j] == d[i][j]
  {
  }

  /** With at most two vertices there is no third vertex to route through,
      so a zero-diagonal matrix is already its own solution. */
  lemma {:induction false} AtMostTwoVerticesSolved(m: Matrix)
    requires InRange(m) && ZeroDiagonal(m) && |m| <= 2
    ensures Solve(m) == m
  {
    forall k: nat | k <= |m|
      ensures Rounds(m, k) == m
    {
      var r := 0;
      while r < k
        invariant r <= k && Rounds(m, r) == m
      {
        RoundFixesZeroDiagonal(m, r);
        MatrixEquality(Round(m, r), m);
        r := r + 1;
      }
    }
  }
}
