/** What the recurrence computes: `Rounds(m, k)[i][j]` is the least weight of
    a walk from i to j whose interior vertices are all below k, capped at
    INF. Consequently the solved matrix satisfies the triangle inequality and
    solving it again changes nothing. */
module ShortestPaths {
  import opened Matrices
  import opened FloydSpec

  /** Every vertex of p is a row of m. */
  ghost predicate OnVertices(m: Matrix, p: seq<nat>) {
    forall t :: 0 <= t < |p| ==> p[t] < |m|
  }

  /** The weight stored for the t-th step of p, from p[t] to p[t + 1]. */
  ghost function EdgeAt(m: Matrix, p: seq<nat>, t: nat): int
    requires IsSquare(m) && OnVertices(m, p) && t + 1 < |p|
  {
    m[p[t]][p[t + 1]]
  }

  /** p is a walk of at least one step from i to j, along edges present in m
      (not INF), whose interior vertices are all below k. */
  ghost predicate IsWalk(m: Matrix, p: seq<nat>, i: nat, j: nat, k: nat) {
    && IsSquare(m) && OnVertices(m, p)
    && |p| >= 2 && p[0] == i && p[|p| - 1] == j
    && (forall t :: 0 < t < |p| - 1 ==> p[t] < k)
    && (forall t :: 0 <= t < |p| - 1 ==> EdgeAt(m, p, t) != INF)
  }

  /** Total weight of the steps of p. */
  ghost function Weight(m: Matrix, p: seq<nat>): int
    requires IsSquare(m) && OnVertices(m, p)
    decreases |p|
  {
    if |p| < 2 then 0 else m[p[0]][p[1]] + Weight(m, p[1..])
  }

  lemma {:induction false} WeightNonNegative(m: Matrix, p: seq<nat>)
    requires InRange(m) && OnVertices(m, p)
    ensures Weight(m, p) >= 0
    decreases |p|
  {
    if |p| >= 2 {
      WeightNonNegative(m, p[1..]);
    }
  }

  /** Joining two walks at a shared vertex adds their weights. */
  lemma {:induction false} WeightConcat(m: Matrix, p: seq<nat>, q: seq<nat>)
    requires IsSquare(m) && OnVertices(m, p) && OnVertices(m, q)
    requires |p| >= 1 && |q| >= 1 && p[|p| - 1] == q[0]
    ensures OnVertices(m, p + q[1..])
    ensures Weight(m, p + q[1..]) == Weight(m, p) + Weight(m, q)
    decreases |p|
  {
    if |p| == 1 {
      assert p + q[1..] == q;
    } else {
      WeightConcat(m, p[1..], q);
      assert (p + q[1..])[1..] == p[1..] + q[1..];
    }
  }

  /** Cutting a walk at position t splits its weight. */
  lemma WeightSplit(m: Matrix, p: seq<nat>, t: nat)
    requires IsSquare(m) && OnVertices(m, p) && t < |p|
    ensures Weight(m, p) == Weight(m, p[..t + 1]) + Weight(m, p[t..])
  {
    assert p[..t + 1] + p[t..][1..] == p;
    WeightConcat(m, p[..t + 1], p[t..]);
  }

  /** A walk to v followed by a walk from v is a walk, when v itself is an
      allowed interior vertex. */
  lemma ConcatWalk(m: Matrix, p: seq<nat>, q: seq<nat>, i: nat, v: nat, j: nat, k: nat)
    requires IsWalk(m, p, i, v, k) && IsWalk(m, q, v, j, k) && v < k
    ensures IsWalk(m, p + q[1..], i, j, k)
    ensures Weight(m, p + q[1..]) == Weight(m, p) + Weight(m, q)
  {
    var r := p + q[1..];
    WeightConcat(m, p, q);
    forall t | 0 < t < |r| - 1
      ensures r[t] < k
    {
      if t >= |p| {
        assert r[t] == q[t - |p| + 1];
      }
    }
    forall t | 0 <= t < |r| - 1
      ensures EdgeAt(m, r, t) != INF
    {
      if t < |p| - 1 {
        assert EdgeAt(m, r, t) == EdgeAt(m, p, t);
      } else {
        assert EdgeAt(m, r, t) == EdgeAt(m, q, t - |p| + 1);
      }
    }
  }

  /** The first interior position at or after `from` where p visits v, or
      the last position |p| - 1 when there is none. */
  ghost function FirstVisit(p: seq<nat>, v: nat, from: nat): (t: nat)
    requires 1 <= from <= |p| - 1
    ensures from <= t <= |p| - 1 && (t < |p| - 1 ==> p[t] == v)
    ensures forall s :: from <= s < t ==> p[s] != v
    decreases |p| - from
  {
    if from == |p| - 1 || p[from] == v then from else FirstVisit(p, v, from + 1)
  }

  /** The last position of v in p, or -1 when v does not occur. */
  ghost function LastIndex(p: seq<nat>, v: nat): (t: int)
    ensures -1 <= t < |p| && (0 <= t ==> p[t] == v)
    ensures forall s :: t < s < |p| ==> p[s] != v
  {
    if |p| == 0 then -1
    else if p[|p| - 1] == v then |p| - 1
    else LastIndex(p[..|p| - 1], v)
  }

  /** Any stretch p[a..b+1] of a walk (at least one step) is a walk between
      its own end points, with the same edges. */
  lemma SubWalk(m: Matrix, p: seq<nat>, i: nat, j: nat, k: nat, a: nat, b: nat)
    requires IsWalk(m, p, i, j, k) && a < b < |p|
    ensures IsWalk(m, p[a..b + 1], p[a], p[b], k + 1)
  {
    var q := p[a..b + 1];
    forall s | 0 <= s < |q| - 1
      ensures EdgeAt(m, q, s) != INF
    {
      assert EdgeAt(m, q, s) == EdgeAt(m, p, a + s);
    }
    forall s | 0 < s < |q| - 1
      ensures q[s] < k + 1
    {
      assert q[s] == p[a + s];
    }
  }

  /** Cutting a walk through intermediates below v + 1 at the first interior
      visit of v gives a walk to v through intermediates below v, and a walk
      from v through intermediates below v + 1. */
  lemma SplitAtFirst(m: Matrix, p: seq<nat>, i: nat, j: nat, v: nat, t: nat)
    requires IsWalk(m, p, i, j, v + 1) && 0 < t < |p| - 1 && p[t] == v
    requires forall s :: 0 < s < t ==> p[s] != v
    ensures IsWalk(m, p[..t + 1], i, v, v) && IsWalk(m, p[t..], v, j, v + 1)
    ensures Weight(m, p) == Weight(m, p[..t + 1]) + Weight(m, p[t..])
  {
    WeightSplit(m, p, t);
    SubWalk(m, p, i, j, v + 1, 0, t);
    assert p[0..t + 1] == p[..t + 1];
    SubWalk(m, p, i, j, v + 1, t, |p| - 1);
    assert p[t..|p| - 1 + 1] == p[t..];
    var head := p[..t + 1];
    forall s | 0 < s < |head| - 1
      ensures head[s] < v
    {
      assert head[s] == p[s];
    }
    var tail := p[t..];
    forall s | 0 < s < |tail| - 1
      ensures tail[s] < v + 1
    {
      assert tail[s] == p[t + s];
    }
  }

  /** A walk from v through intermediates below v + 1 can be shortened to
      its part after the last visit of v, which avoids v as an intermediate
      and, weights being non-negative, weighs no more. */
  lemma TrimToLast(m: Matrix, q: seq<nat>, v: nat, j: nat) returns (r: seq<nat>)
    requires InRange(m) && IsWalk(m, q, v, j, v + 1)
    ensures IsWalk(m, r, v, j, v) && Weight(m, r) <= Weight(m, q)
  {
    var u := LastIndex(q[..|q| - 1], v);
    assert q[..|q| - 1][0] == v;
    r := q[u..];
    WeightSplit(m, q, u);
    WeightNonNegative(m, q[..u + 1]);
    SubWalk(m, q, v, j, v + 1, u, |q| - 1);
    assert q[u..|q| - 1 + 1] == r;
    forall s | 0 < s < |r| - 1
      ensures r[s] < v
    {
      assert r[s] == q[u + s] == q[..|q| - 1][u + s];
    }
  }

  /** Every walk through intermediates below k weighs at least the entry
      that k rounds leave for its end points. */
  lemma {:induction false} RoundsOptimal(m: Matrix, k: nat, p: seq<nat>, i: nat, j: nat)
    requires InRange(m) && k <= |m| && IsWalk(m, p, i, j, k)
    ensures Rounds(m, k)[i][j] <= Weight(m, p)
    decreases k
  {
    if |p| == 2 {
      RoundsInRange(m, k);
      assert Weight(m, p) == m[i][j] + Weight(m, p[1..]);
    } else {
      assert p[1] < k;
      var v := k - 1;
      var d := Rounds(m, v);
      RoundsInRange(m, v);
      assert Rounds(m, k)[i][j] == Min(d[i][j], d[i][v] + d[v][j]);
      var t := FirstVisit(p, v, 1);
      if t == |p| - 1 {
        forall s | 0 < s < |p| - 1
          ensures p[s] < v
        {
          assert p[s] != v;
        }
        RoundsOptimal(m, v, p, i, j);
      } else {
        SplitAtFirst(m, p, i, j, v, t);
        var p3 := TrimToLast(m, p[t..], v, j);
        RoundsOptimal(m, v, p[..t + 1], i, v);
        RoundsOptimal(m, v, p3, v, j);
      }
    }
  }

  /** Every finite entry left by k rounds is the weight of an actual walk
      through intermediates below k. */
  lemma {:induction false} RoundsWitness(m: Matrix, k: nat, i: nat, j: nat) returns (p: seq<nat>)
    requires InRange(m) && k <= |m| && i < |m| && j < |m|
    requires Rounds(m, k)[i][j] != INF
    ensures IsWalk(m, p, i, j, k) && Weight(m, p) == Rounds(m, k)[i][j]
    decreases k
  {
    if k == 0 {
      p := [i, j];
      assert Weight(m, p) == m[i][j] + Weight(m, p[1..]);
    } else {
      var v := k - 1;
      var d := Rounds(m, v);
      RoundsInRange(m, v);
      assert Rounds(m, k)[i][j] == Min(d[i][j], d[i][v] + d[v][j]);
      if d[i][v] + d[v][j] < d[i][j] {
        var p1 := RoundsWitness(m, v, i, v);
        var p2 := RoundsWitness(m, v, v, j);
        ConcatWalk(m, p1, p2, i, v, j, k);
        p := p1 + p2[1..];
      } else {
        p := RoundsWitness(m, v, i, j);
      }
    }
  }

  /** The solved entry for (i, j) is the least weight of any walk from i to j
      when that is below INF, and INF exactly when every walk weighs at
      least INF (in particular when there is none). */
  lemma SolveIsShortest(m: Matrix, i: nat, j: nat)
    requires InRange(m) && i < |m| && j < |m|
    ensures forall p :: IsWalk(m, p, i, j, |m|) ==> Solve(m)[i][j] <= Weight(m, p)
    ensures Solve(m)[i][j] != INF ==>
              exists p :: IsWalk(m, p, i, j, |m|) && Weight(m, p) == Solve(m)[i][j]
    ensures Solve(m)[i][j] == INF <==>
              forall p :: IsWalk(m, p, i, j, |m|) ==> Weight(m, p) >= INF
  {
    RoundsInRange(m, |m|);
    forall p | IsWalk(m, p, i, j, |m|)
      ensures Solve(m)[i][j] <= Weight(m, p)
    {
      RoundsOptimal(m, |m|, p, i, j);
    }
    if Solve(m)[i][j] != INF {
      var p := RoundsWitness(m, |m|, i, j);
    }
  }

  /** The triangle inequality holds throughout the solved matrix; for
      entries in [0, INF] it needs no finiteness side condition, since a
      sum with an INF leg is at least INF. */
  lemma SolveTriangle(m: Matrix, i: nat, v: nat, j: nat)
    requires InRange(m) && i < |m| && v < |m| && j < |m|
    ensures Solve(m)[i][j] <= Solve(m)[i][v] + Solve(m)[v][j]
  {
    var s := Solve(m);
    RoundsInRange(m, |m|);
    if s[i][v] != INF && s[v][j] != INF {
      var p1 := RoundsWitness(m, |m|, i, v);
      var p2 := RoundsWitness(m, |m|, v, j);
      ConcatWalk(m, p1, p2, i, v, j, |m|);
      RoundsOptimal(m, |m|, p1 + p2[1..], i, j);
    }
  }

  /** A matrix that every round leaves alone is left alone by all of them. */
  lemma {:induction false} FixpointRounds(s: Matrix, k: nat)
    requires IsSquare(s) && k <= |s|
    requires forall v :: 0 <= v < |s| ==> Round(s, v) == s
    ensures Rounds(s, k) == s
    decreases k
  {
    if k > 0 {
      FixpointRounds(s, k - 1);
    }
  }

  /** Solving an already solved matrix changes nothing. */
  lemma SolveIdempotent(m: Matrix)
    requires InRange(m)
    ensures Solve(Solve(m)) == Solve(m)
  {
    var s := Solve(m);
    RoundsInRange(m, |m|);
    forall v | 0 <= v < |s|
      ensures Round(s, v) == s
    {
      forall i | 0 <= i < |s|
        ensures Round(s, v)[i] == s[i]
      {
        forall j | 0 <= j < |s|
          ensures Round(s, v)[i][j] == s[i][j]
        {
          SolveTriangle(m, i, v, j);
        }
      }
    }
    FixpointRounds(s, |s|);
  }
}
