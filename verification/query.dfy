/** The "Calculate Shortest Distance" button in its three forms, each
    reading the solved matrix at the selected combo-box indices (position i
    names city i + 1). */
module Query {
  import opened Matrices
  import opened FloydSpec
  import opened ShortestPaths

  /** What the output text area shows. */
  datatype Report =
    | Shortest(sourceName: string, destinationName: string, distance: int)
    | NoValidPath(sourceName: string, destinationName: string)
    | InvalidSelection
    | IndexFault  // the ArrayIndexOutOfBoundsException of an unchecked read

  predicate Selected(names: seq<string>, source: int, destination: int) {
    0 <= source < |names| && 0 <= destination < |names|
  }

  /** FA_GUI11: bounds checked against the city count, INF reported as "no
      valid path". */
  function QueryReported(shortests: Matrix, names: seq<string>, source: int, destination: int): (r: Report)
    requires IsSquare(shortests) && |names| == |shortests|
    ensures r.InvalidSelection? <==> !Selected(names, source, destination)
    ensures r.NoValidPath? <==> Selected(names, source, destination) && shortests[source][destination] == INF
    ensures r.Shortest? ==>
              && Selected(names, source, destination)
              && r == Shortest(names[source], names[destination], shortests[source][destination])
              && r.distance != INF
    ensures r.NoValidPath? ==> r == NoValidPath(names[source], names[destination])
    ensures !r.IndexFault?
  {
    if Selected(names, source, destination) then
      var distance := shortests[source][destination];
      if distance == INF then NoValidPath(names[source], names[destination])
      else Shortest(names[source], names[destination], distance)
    else InvalidSelection
  }

  /** FA_GUI7: the same bounds check, but the stored value is shown as it
      is, INF included. */
  function QueryRaw(shortests: Matrix, names: seq<string>, source: int, destination: int): (r: Report)
    requires IsSquare(shortests) && |names| == |shortests|
    ensures r.InvalidSelection? <==> !Selected(names, source, destination)
    ensures r.Shortest? <==> Selected(names, source, destination)
    ensures r.Shortest? ==> r == Shortest(names[source], names[destination], shortests[source][destination])
  {
    if Selected(names, source, destination) then
      Shortest(names[source], names[destination], shortests[source][destination])
    else InvalidSelection
  }

  /** FA_GUI3: no check at all; an index outside the matrix faults. */
  function QueryUnchecked(shortests: Matrix, names: seq<string>, source: int, destination: int): (r: Report)
    requires IsSquare(shortests) && |names| == |shortests|
    ensures r.IndexFault? <==> !Selected(names, source, destination)
    ensures !r.IndexFault? ==> r == Shortest(names[source], names[destination], shortests[source][destination])
  {
    if Selected(names, source, destination) then
      Shortest(names[source], names[destination], shortests[source][destination])
    else IndexFault
  }

  /** On a solved matrix the checked query means what it says: "no valid
      path" exactly when every walk between the two cities weighs at least
      INF, and otherwise a distance that some walk achieves and no walk
      beats. */
  lemma ReportedMeansShortest(graph: Matrix, names: seq<string>, source: nat, destination: nat)
    requires InRange(graph) && |names| == |graph| && source < |graph| && destination < |graph|
    ensures QueryReported(Solve(graph), names, source, destination).NoValidPath? <==>
              forall p :: IsWalk(graph, p, source, destination, |graph|) ==> Weight(graph, p) >= INF
    ensures QueryReported(Solve(graph), names, source, destination).Shortest? ==>
              var d := QueryReported(Solve(graph), names, source, destination).distance;
              (exists p :: IsWalk(graph, p, source, destination, |graph|) && Weight(graph, p) == d) &&
              (forall p :: IsWalk(graph, p, source, destination, |graph|) ==> d <= Weight(graph, p))
  {
    SolveIsShortest(graph, source, destination);
  }

  /** The three forms agree wherever each is defined and the pair is
      reachable; they part only on INF and on out-of-range indices. */
  lemma QueriesAgree(shortests: Matrix, names: seq<string>, source: int, destination: int)
    requires IsSquare(shortests) && |names| == |shortests|
    requires Selected(names, source, destination) && shortests[source][destination] != INF
    ensures QueryRaw(shortests, names, source, destination) == QueryReported(shortests, names, source, destination)
    ensures QueryUnchecked(shortests, names, source, destination) == QueryRaw(shortests, names, source, destination)
  {
  }

  /** Two cities and no edge: FA_GUI7 shows the sentinel 1073741823 as a
      distance where FA_GUI11 shows "no valid path". */
  lemma RawQueryShowsSentinel()
    ensures QueryRaw(Solve([[0, INF], [INF, 0]]), ["A", "B"], 0, 1) == Shortest("A", "B", 1073741823)
    ensures QueryReported(Solve([[0, INF], [INF, 0]]), ["A", "B"], 0, 1) == NoValidPath("A", "B")
  {
    AtMostTwoVerticesSolved([[0, INF], [INF, 0]]);
  }
}
