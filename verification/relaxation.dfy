/** The relaxation loops of the program, cell by cell, proved equal to the
    reference recurrence. Three shapes occur: the full i, j loop run in place
    on one matrix (every `floydWarshall`), the same loop run on a copy
    (`performFloydWarshall` of FA_GUI3 and FA_GUI7), and the lower-triangle
    loop that mirrors each write (`performFloydWarshall` of FA_GUI11). */
module Relaxation {
  import opened Int32
  import opened Matrices
  import opened FloydSpec
  import opened ShortestPaths

  /** Round k of the full i, j loop, writing into the matrix it reads. A cell
      written earlier in the round is visible to later cells; that is harmless
      because round k never changes row k or column k, the only cells the
      round reads besides the one it writes. */
  method RelaxRound(d: Matrix, k: nat) returns (e: Matrix)
    requires InRange(d) && k < |d|
    ensures e == Round(d, k)
  {
    var n := |d|;
    ghost var r := Round(d, k);
    RoundKeepsPivot(d, k);
    e := d;
    var i := 0;
    while i < n
      invariant 0 <= i <= n
      invariant |e| == n && IsSquare(e)
      invariant forall p, q :: 0 <= p < n && 0 <= q < n ==>
                  e[p][q] == if p < i then r[p][q] else d[p][q]
    {
      var j := 0;
      while j < n
        invariant 0 <= j <= n
        invariant |e| == n && IsSquare(e)
        invariant forall p, q :: 0 <= p < n && 0 <= q < n ==>
                    e[p][q] == if p < i || (p == i && q < j) then r[p][q] else d[p][q]
      {
        if e[i][k] != INF && e[k][j] != INF && Add(e[i][k], e[k][j]) < e[i][j] {
          e := Set(e, i, j, Add(e[i][k], e[k][j]));
        }
        j := j + 1;
      }
      i := i + 1;
    }
    MatrixEquality(e, r);
  }

  /** `floydWarshall` of FloydAlgorithm (and the loop of every other
      `floydWarshall`): all rounds, in place. */
  method FloydWarshall(graph: Matrix) returns (solved: Matrix)
    requires InRange(graph)
    ensures solved == Solve(graph)
    ensures InRange(solved) && Below(solved, graph)
  {
    solved := graph;
    var k := 0;
    while k < |graph|
      invariant 0 <= k <= |graph|
      invariant solved == Rounds(graph, k)
    {
      RoundsInRange(graph, k);
      solved := RelaxRound(solved, k);
      k := k + 1;
    }
    RoundsInRange(graph, |graph|);
  }

  /** The element-by-element copy of `graph` into `shortests`. */
  method CopyMatrix(graph: Matrix, shortests: Matrix) returns (copy: Matrix)
    requires IsSquare(graph) && IsSquare(shortests) && |shortests| == |graph|
    ensures copy == graph
  {
    var n := |graph|;
    copy := shortests;
    var i := 0;
    while i < n
      invariant 0 <= i <= n
      invariant |copy| == n && IsSquare(copy)
      invariant forall p :: 0 <= p < i ==> copy[p] == graph[p]
    {
      var j := 0;
      while j < n
        invariant 0 <= j <= n
        invariant |copy| == n && IsSquare(copy)
        invariant forall p :: 0 <= p < i ==> copy[p] == graph[p]
        invariant forall q :: 0 <= q < j ==> copy[i][q] == graph[i][q]
      {
        copy := Set(copy, i, j, graph[i][j]);
        j := j + 1;
      }
      i := i + 1;
    }
  }

  /** `performFloydWarshall` of FA_GUI3 and FA_GUI7: copy `graph` into
      `shortests`, then relax `shortests` in place. `graph` is a value here,
      so the solve cannot write it. */
  method PerformFloydWarshall(graph: Matrix, shortests: Matrix) returns (solved: Matrix)
    requires InRange(graph) && IsSquare(shortests) && |shortests| == |graph|
    ensures solved == Solve(graph)
  {
    solved := CopyMatrix(graph, shortests);
    solved := FloydWarshall(solved);
  }

  /** `floydWarshall(graph, source, destination)` of FA_GUI1,
      FloydAlgorithmGUIss, FloydAlgorithmGUIs and FloydAlgorithmGUI: solve in
      place, then read one entry. The relaxed matrix is the program's
      `graph` for the next query, and relaxing it again changes nothing.
      An index outside the matrix raises an exception in the program after
      the matrix is relaxed; here it yields None. */
  method FloydWarshallQuery(graph: Matrix, source: int, destination: int)
    returns (distance: Option<int>, graph': Matrix)
    requires InRange(graph)
    ensures graph' == Solve(graph)
    ensures InRange(graph') && Solve(graph') == graph'
    ensures distance.Some? <==> 0 <= source < |graph| && 0 <= destination < |graph|
    ensures distance.Some? ==> distance.value == Solve(graph)[source][destination]
  {
    graph' := FloydWarshall(graph);
    SolveIdempotent(graph);
    if 0 <= source < |graph'| && 0 <= destination < |graph'| {
      distance := Some(graph'[source][destination]);
    } else {
      distance := None;
    }
  }

  /** Whether the lower-triangle loop of round k has already visited the
      unordered pair {p, q} when it is about to visit (i, j). */
  ghost predicate Visited(p: int, q: int, i: int, j: int) {
    (q < p && (p < i || (p == i && q < j))) || (p < q && (q < i || (q == i && p < j)))
  }

  /** The state of the lower-triangle loop of round k just before it visits
      (i, j): visited pairs hold the round's value, the rest the old one. */
  ghost predicate MirroredSoFar(e: Matrix, d: Matrix, k: nat, i: int, j: int)
    requires IsSquare(d) && k < |d|
  {
    && |e| == |d| && IsSquare(e)
    && forall p, q :: 0 <= p < |d| && 0 <= q < |d| ==>
         e[p][q] == if Visited(p, q, i, j) then Round(d, k)[p][q] else d[p][q]
  }

  /** Visiting (i, j) with j < i moves the loop state one pair on. */
  lemma MirroredStep(e: Matrix, d: Matrix, k: nat, i: nat, j: nat, e': Matrix)
    requires InRange(d) && Symmetric(d) && k < |d| && j < i < |d|
    requires MirroredSoFar(e, d, k, i, j)
    requires e' == if e[i][k] != INF && e[k][j] != INF && Add(e[i][k], e[k][j]) < e[i][j]
                   then Set(Set(e, i, j, Add(e[i][k], e[k][j])), j, i, Add(e[i][k], e[k][j]))
                   else e
    ensures MirroredSoFar(e', d, k, i, j + 1)
  {
    var r := Round(d, k);
    RoundKeepsPivot(d, k);
    RoundSymmetric(d, k);
    assert e[i][k] == d[i][k] && e[k][j] == d[k][j] && e[i][j] == d[i][j];
    assert r[i][j] == Relax(d[i][j], d[i][k], d[k][j]);
    assert e'[i][j] == r[i][j] && e'[j][i] == r[j][i];
    forall p, q | 0 <= p < |d| && 0 <= q < |d|
      ensures e'[p][q] == if Visited(p, q, i, j + 1) then r[p][q] else d[p][q]
    {
      if (p, q) != (i, j) && (p, q) != (j, i) {
        assert e'[p][q] == e[p][q];
      }
    }
  }

  /** Finishing row i is starting row i + 1. */
  lemma MirroredNextRow(e: Matrix, d: Matrix, k: nat, i: nat)
    requires IsSquare(d) && k < |d|
    requires MirroredSoFar(e, d, k, i, i)
    ensures MirroredSoFar(e, d, k, i + 1, 0)
  {
    forall p, q | 0 <= p < |d| && 0 <= q < |d|
      ensures Visited(p, q, i, i) == Visited(p, q, i + 1, 0)
    {
    }
  }

  /** Round k of the lower-triangle loop: visits (i, j) with j < i only and
      mirrors each write to (j, i). On a symmetric matrix it agrees with
      round k off the diagonal; the diagonal is never written. */
  method RelaxRoundMirrored(d: Matrix, k: nat) returns (e: Matrix)
    requires InRange(d) && Symmetric(d) && k < |d|
    ensures |e| == |d| && IsSquare(e)
    ensures forall p, q :: 0 <= p < |d| && 0 <= q < |d| && p != q ==> e[p][q] == Round(d, k)[p][q]
    ensures forall p :: 0 <= p < |d| ==> e[p][p] == d[p][p]
  {
    var n := |d|;
    e := d;
    var i := 1;
    while i < n
      invariant 1 <= i && (i <= n || n == 0)
      invariant MirroredSoFar(e, d, k, i, 0)
    {
      var j := 0;
      while j < i
        invariant 0 <= j <= i
        invariant MirroredSoFar(e, d, k, i, j)
      {
        ghost var before := e;
        if e[i][k] != INF && e[k][j] != INF && Add(e[i][k], e[k][j]) < e[i][j] {
          e := Set(e, i, j, Add(e[i][k], e[k][j]));
          e := Set(e, j, i, e[i][j]);
        }
        MirroredStep(before, d, k, i, j, e);
        j := j + 1;
      }
      MirroredNextRow(e, d, k, i);
      i := i + 1;
    }
    assert forall p, q :: 0 <= p < n && 0 <= q < n && p != q ==> Visited(p, q, i, 0);
  }

  /** The state of FA_GUI11's solve after k rounds: symmetric, in range,
      the reference rounds off the diagonal, the loaded values on it. */
  ghost predicate MirroredRoundsSoFar(solved: Matrix, graph: Matrix, k: nat)
    requires IsSquare(graph) && k <= |graph|
  {
    && |solved| == |graph| && InRange(solved) && Symmetric(solved)
    && (forall p, q :: 0 <= p < |graph| && 0 <= q < |graph| && p != q ==>
          solved[p][q] == Rounds(graph, k)[p][q])
    && (forall p :: 0 <= p < |graph| ==> solved[p][p] == graph[p][p])
  }

  /** `performFloydWarshall` of FA_GUI11: copy, then the lower-triangle loop
      for every k. Off the diagonal it computes the reference solve; the
      diagonal keeps the loaded values, which is the reference solve too
      whenever the loaded diagonal is zero. */
  method PerformFloydWarshallMirrored(graph: Matrix, shortests: Matrix) returns (solved: Matrix)
    requires InRange(graph) && Symmetric(graph) && IsSquare(shortests) && |shortests| == |graph|
    ensures |solved| == |graph| && IsSquare(solved) && Symmetric(solved)
    ensures forall p, q :: 0 <= p < |graph| && 0 <= q < |graph| && p != q ==>
              solved[p][q] == Solve(graph)[p][q]
    ensures forall p :: 0 <= p < |graph| ==> solved[p][p] == graph[p][p]
    ensures ZeroDiagonal(graph) ==> solved == Solve(graph)
  {
    var n := |graph|;
    solved := CopyMatrix(graph, shortests);
    var k := 0;
    while k < n
      invariant 0 <= k <= n
      invariant MirroredRoundsSoFar(solved, graph, k)
    {
      ghost var before := solved;
      solved := RelaxRoundMirrored(solved, k);
      MirroredRoundFacts(before, solved, graph, k);
      k := k + 1;
    }
    MirroredSolveFacts(solved, graph);
  }

  lemma MirroredSolveFacts(solved: Matrix, graph: Matrix)
    requires InRange(graph) && MirroredRoundsSoFar(solved, graph, |graph|)
    ensures ZeroDiagonal(graph) ==> solved == Solve(graph)
  {
    if ZeroDiagonal(graph) {
      RoundsZeroDiagonal(graph, |graph|);
      MatrixEquality(solved, Solve(graph));
    }
  }

  /** What one mirrored round leaves, in terms of the reference rounds. */
  lemma MirroredRoundFacts(before: Matrix, after: Matrix, graph: Matrix, k: nat)
    requires InRange(graph) && k < |graph| && |before| == |graph|
    requires MirroredRoundsSoFar(before, graph, k)
    requires |after| == |before| && IsSquare(after)
    requires forall p, q :: 0 <= p < |before| && 0 <= q < |before| && p != q ==>
               after[p][q] == Round(before, k)[p][q]
    requires forall p :: 0 <= p < |before| ==> after[p][p] == before[p][p]
    ensures MirroredRoundsSoFar(after, graph, k + 1)
  {
    RoundsInRange(graph, k);
    RoundIgnoresDiagonal(before, Rounds(graph, k), k);
    RoundInRange(before, k);
    RoundSymmetric(before, k);
    var r := Round(before, k);
    forall p, q | 0 <= p < |after| && 0 <= q < |after|
      ensures 0 <= after[p][q] <= INF && after[p][q] == after[q][p]
    {
      if p != q {
        assert after[p][q] == r[p][q] && after[q][p] == r[q][p];
      }
    }
  }
}
