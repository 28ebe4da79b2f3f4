/** Building the direct-distance matrix: the zero-diagonal, INF-elsewhere
    start, the edge records `sourceId weight destinationId` (1-based ids)
    written in both directions, and the count-prefixed edge file of FA_GUI1,
    FA_GUI3, FloydAlgorithmGUIs and FloydAlgorithmGUIss. Tokens arrive as
    already-read ints. */
module Loading {
  import opened Matrices
  import opened FloydSpec

  /** One edge record: `sourceId weight destinationId`. */
  datatype Triple = Triple(sourceId: int, weight: int, destinationId: int)

  /** The full-loop initialisation (FA_GUI7, FA_GUI3, FA_GUI1,
      FloydAlgorithmGUIss, FloydAlgorithmGUIs): each cell of a fresh
      `new int[n][n]` set to 0 on the diagonal and INF elsewhere. */
  method InitMatrix(vertices: nat) returns (graph: Matrix)
    ensures IsEmptyGraph(graph, vertices)
  {
    graph := Zeros(vertices);
    var i := 0;
    while i < vertices
      invariant 0 <= i <= vertices
      invariant |graph| == vertices && IsSquare(graph)
      invariant forall p, q :: 0 <= p < vertices && 0 <= q < vertices ==>
                  graph[p][q] == if p < i && p != q then INF else 0
    {
      var j := 0;
      while j < vertices
        invariant 0 <= j <= vertices
        invariant |graph| == vertices && IsSquare(graph)
        invariant forall p, q :: 0 <= p < vertices && 0 <= q < vertices ==>
                    graph[p][q] == if (p < i || (p == i && q < j)) && p != q then INF else 0
      {
        graph := Set(graph, i, j, if i == j then 0 else INF);
        j := j + 1;
      }
      i := i + 1;
    }
  }

  /** FA_GUI11's initialisation: for each i, the cells (i, j) and (j, i) with
      j < i of both matrices get INF, then (i, i) gets 0. */
  method InitMatricesMirrored(vertices: nat) returns (graph: Matrix, shortests: Matrix)
    ensures IsEmptyGraph(graph, vertices) && IsEmptyGraph(shortests, vertices)
  {
    graph := Zeros(vertices);
    shortests := Zeros(vertices);
    var i := 0;
    while i < vertices
      invariant 0 <= i <= vertices
      invariant |graph| == vertices && IsSquare(graph) && shortests == graph
      invariant forall p, q :: 0 <= p < vertices && 0 <= q < vertices ==>
                  graph[p][q] == if p < i && q < i && p != q then INF else 0
    {
      var j := 0;
      while j < i
        invariant 0 <= j <= i
        invariant |graph| == vertices && IsSquare(graph) && shortests == graph
        invariant forall p, q :: 0 <= p < vertices && 0 <= q < vertices ==>
                    graph[p][q] == if p != q && ((p < i && q < i) || (p == i && q < j) || (q == i && p < j))
                                   then INF else 0
      {
        graph := Set(graph, i, j, INF);
        graph := Set(graph, j, i, INF);
        shortests := Set(shortests, i, j, INF);
        shortests := Set(shortests, j, i, INF);
        j := j + 1;
      }
      graph := Set(graph, i, i, 0);
      shortests := Set(shortests, i, i, 0);
      i := i + 1;
    }
  }

  /** Both 1-based ids name rows of a vertices-square matrix. */
  predicate InBounds(t: Triple, vertices: nat) {
    1 <= t.sourceId <= vertices && 1 <= t.destinationId <= vertices
  }

  /** The record joins positions p and q, in either direction. */
  predicate Joins(t: Triple, p: int, q: int) {
    || (t.sourceId - 1 == p && t.destinationId - 1 == q)
    || (t.sourceId - 1 == q && t.destinationId - 1 == p)
  }

  /** Loading the record stores into cell (p, q). */
  predicate Writes(t: Triple, vertices: nat, p: int, q: int) {
    InBounds(t, vertices) && Joins(t, p, q)
  }

  /** One pass of the edge-loading loop: an in-bounds record stores its
      weight at both (s-1, d-1) and (d-1, s-1); any other record is skipped. */
  function ApplyTriple(graph: Matrix, t: Triple): (g: Matrix)
    requires IsSquare(graph)
    ensures IsSquare(g) && |g| == |graph|
    ensures forall p, q :: 0 <= p < |graph| && 0 <= q < |graph| ==>
              g[p][q] == if Writes(t, |graph|, p, q) then t.weight else graph[p][q]
    ensures !InBounds(t, |graph|) ==> g == graph
  {
    if InBounds(t, |graph|) then
      var s, d := t.sourceId - 1, t.destinationId - 1;
      Set(Set(graph, s, d, t.weight), d, s, t.weight)
    else
      graph
  }

  /** The records applied in file order. */
  function ApplyTriples(graph: Matrix, triples: seq<Triple>): (g: Matrix)
    requires IsSquare(graph)
    ensures IsSquare(g) && |g| == |graph|
    decreases |triples|
  {
    if |triples| == 0 then graph
    else ApplyTriple(ApplyTriples(graph, triples[..|triples| - 1]), triples[|triples| - 1])
  }

  /** The edge-loading loop over the records, as the program runs it. */
  method LoadEdges(graph: Matrix, triples: seq<Triple>) returns (loaded: Matrix)
    requires IsSquare(graph)
    ensures loaded == ApplyTriples(graph, triples)
  {
    var vertices := |graph|;
    loaded := graph;
    var i := 0;
    while i < |triples|
      invariant 0 <= i <= |triples|
      invariant loaded == ApplyTriples(graph, triples[..i])
    {
      assert triples[..i + 1][..i] == triples[..i];
      var sourceVertex := triples[i].sourceId - 1;
      var destinationVertex := triples[i].destinationId - 1;
      if 0 <= sourceVertex < vertices && 0 <= destinationVertex < vertices {
        loaded := Set(loaded, sourceVertex, destinationVertex, triples[i].weight);
        loaded := Set(loaded, destinationVertex, sourceVertex, triples[i].weight);
      }
      i := i + 1;
    }
    assert triples[..|triples|] == triples;
  }

  /** Later records overwrite earlier ones: a cell holds the weight of the
      last in-bounds record joining its two positions, and keeps its old
      value when no record joins them. */
  lemma {:induction false} LoadLastWins(graph: Matrix, triples: seq<Triple>, p: int, q: int)
    requires IsSquare(graph) && 0 <= p < |graph| && 0 <= q < |graph|
    ensures (forall t :: 0 <= t < |triples| ==> !Writes(triples[t], |graph|, p, q)) ==>
              ApplyTriples(graph, triples)[p][q] == graph[p][q]
    ensures forall t :: 0 <= t < |triples| && Writes(triples[t], |graph|, p, q) &&
                        (forall u :: t < u < |triples| ==> !Writes(triples[u], |graph|, p, q)) ==>
              ApplyTriples(graph, triples)[p][q] == triples[t].weight
    decreases |triples|
  {
    if |triples| > 0 {
      var prefix := triples[..|triples| - 1];
      LoadLastWins(graph, prefix, p, q);
      assert forall t :: 0 <= t < |prefix| ==> prefix[t] == triples[t];
    }
  }

  lemma {:induction false} LoadKeepsSymmetric(graph: Matrix, triples: seq<Triple>)
    requires Symmetric(graph)
    ensures Symmetric(ApplyTriples(graph, triples))
    decreases |triples|
  {
    if |triples| > 0 {
      LoadKeepsSymmetric(graph, triples[..|triples| - 1]);
    }
  }

  predicate WeightsInRange(triples: seq<Triple>) {
    forall t :: 0 <= t < |triples| ==> 0 <= triples[t].weight <= INF
  }

  /** Weights in [0, INF] keep every entry in [0, INF]. */
  lemma {:induction false} LoadKeepsInRange(graph: Matrix, triples: seq<Triple>)
    requires InRange(graph) && WeightsInRange(triples)
    ensures InRange(ApplyTriples(graph, triples))
    decreases |triples|
  {
    if |triples| > 0 {
      LoadKeepsInRange(graph, triples[..|triples| - 1]);
    }
  }

  /** No in-bounds record joins a position to itself. */
  predicate NoSelfLoops(triples: seq<Triple>, vertices: nat) {
    forall t :: 0 <= t < |triples| && InBounds(triples[t], vertices) ==>
      triples[t].sourceId != triples[t].destinationId
  }

  lemma {:induction false} LoadKeepsZeroDiagonal(graph: Matrix, triples: seq<Triple>)
    requires ZeroDiagonal(graph) && NoSelfLoops(triples, |graph|)
    ensures ZeroDiagonal(ApplyTriples(graph, triples))
    decreases |triples|
  {
    if |triples| > 0 {
      LoadKeepsZeroDiagonal(graph, triples[..|triples| - 1]);
    }
  }

  /** The loader itself does not reject a self-loop record: `1 5 1` puts 5
      on the diagonal. */
  lemma SelfLoopReachesDiagonal()
    ensures ApplyTriples([[0]], [Triple(1, 5, 1)])[0][0] == 5
  {
    assert [Triple(1, 5, 1)][..0] == [];
  }

  /** The matrix `initialize` builds: start empty, then load the records. */
  lemma LoadedGraphFacts(graph: Matrix, vertices: nat, triples: seq<Triple>)
    requires IsEmptyGraph(graph, vertices) && WeightsInRange(triples)
    ensures InRange(ApplyTriples(graph, triples)) && Symmetric(ApplyTriples(graph, triples))
    ensures NoSelfLoops(triples, vertices) ==> ZeroDiagonal(ApplyTriples(graph, triples))
  {
    EmptyGraphFacts(graph, vertices);
    LoadKeepsInRange(graph, triples);
    LoadKeepsSymmetric(graph, triples);
    if NoSelfLoops(triples, vertices) {
      LoadKeepsZeroDiagonal(graph, triples);
    }
  }

  /** Adding a record whose weight is no larger than what the cells hold
      never raises any solved distance. */
  lemma AddingShorterEdgeNeverIncreases(graph: Matrix, t: Triple)
    requires InRange(graph) && 0 <= t.weight <= INF
    requires InBounds(t, |graph|) ==>
               t.weight <= graph[t.sourceId - 1][t.destinationId - 1] &&
               t.weight <= graph[t.destinationId - 1][t.sourceId - 1]
    ensures Below(Solve(ApplyTriple(graph, t)), Solve(graph))
  {
    RoundsMonotone(ApplyTriple(graph, t), graph, |graph|);
  }

  /** A repeated pair keeps the last weight written, even when it is larger:
      re-adding the edge 1-2 with weight 10 over weight 3 raises the solved
      distance from 3 to 10. */
  lemma OverwritingEdgeCanIncrease()
    ensures Solve([[0, 3], [3, 0]])[0][1] == 3
    ensures Solve(ApplyTriple([[0, 3], [3, 0]], Triple(1, 10, 2)))[0][1] == 10
  {
    var g := [[0, 3], [3, 0]];
    var g' := ApplyTriple(g, Triple(1, 10, 2));
    MatrixEquality(g', [[0, 10], [10, 0]]);
    AtMostTwoVerticesSolved(g);
    AtMostTwoVerticesSolved(g');
  }

  /** Reads `count` records of three tokens each; None when the tokens run
      out first (the scanner's NoSuchElementException). */
  function ReadTriples(tokens: seq<int>, count: nat): (r: Option<seq<Triple>>)
    ensures r.Some? <==> 3 * count <= |tokens|
    ensures r.Some? ==> |r.value| == count
    ensures r.Some? ==> forall t :: 0 <= t < count ==>
              r.value[t] == Triple(tokens[3 * t], tokens[3 * t + 1], tokens[3 * t + 2])
    decreases count
  {
    if count == 0 then Some([])
    else if |tokens| < 3 then None
    else
      match ReadTriples(tokens[3..], count - 1)
      case None => None
      case Some(rest) => Some([Triple(tokens[0], tokens[1], tokens[2])] + rest)
  }

  /** The number of records a count token announces; a negative count makes
      the reading loop run zero times. */
  function EdgeCount(token: int): nat {
    if token < 0 then 0 else token
  }

  /** The count-prefixed edge file: the first token is the number of
      records, and exactly that many records are consumed; tokens after them
      are never read. */
  function ReadEdgeFile(tokens: seq<int>): (r: Option<seq<Triple>>)
    ensures r.Some? <==> |tokens| >= 1 && 1 + 3 * EdgeCount(tokens[0]) <= |tokens|
    ensures r.Some? ==> |r.value| == EdgeCount(tokens[0])
    ensures r.Some? ==> forall t :: 0 <= t < |r.value| ==>
              r.value[t] == Triple(tokens[1 + 3 * t], tokens[2 + 3 * t], tokens[3 + 3 * t])
  {
    if |tokens| == 0 then None else ReadTriples(tokens[1..], EdgeCount(tokens[0]))
  }

  /** The tokens of the records, three per record, in file order. */
  function Flatten(triples: seq<Triple>): (tokens: seq<int>)
    ensures |tokens| == 3 * |triples|
  {
    if |triples| == 0 then []
    else [triples[0].sourceId, triples[0].weight, triples[0].destinationId] + Flatten(triples[1..])
  }

  /** The edge file holding exactly these records. */
  function EdgeFileTokens(triples: seq<Triple>): seq<int> {
    [|triples|] + Flatten(triples)
  }

  lemma {:induction false} ReadTriplesRoundTrip(triples: seq<Triple>, rest: seq<int>)
    ensures ReadTriples(Flatten(triples) + rest, |triples|) == Some(triples)
    decreases |triples|
  {
    if |triples| > 0 {
      ReadTriplesRoundTrip(triples[1..], rest);
      var tokens := Flatten(triples) + rest;
      assert tokens[3..] == Flatten(triples[1..]) + rest;
      assert [triples[0]] + triples[1..] == triples;
    }
  }

  /** Reading back a written edge file gives the same records, whatever
      follows them. */
  lemma EdgeFileRoundTrip(triples: seq<Triple>, rest: seq<int>)
    ensures ReadEdgeFile(EdgeFileTokens(triples) + rest) == Some(triples)
  {
    var tokens := EdgeFileTokens(triples) + rest;
    assert tokens[1..] == Flatten(triples) + rest;
    ReadTriplesRoundTrip(triples, rest);
  }
}
