/** The dense input of FloydAlgorithm and FloydAlgorithmGUI: a vertex count
    followed by the matrix row by row, `-1` meaning "no edge"; and the
    1-based vertex labels of the GUI's combo boxes. Tokens arrive as
    already-read ints. */
module DenseInput {
  import opened Matrices
  import opened FloydSpec
  import opened Decimal

  /** `-1` becomes INF; every other value, diagonal included, is kept. */
  function DecodeWeight(token: int): (w: int)
    ensures token == -1 <==> w == INF && token != INF
    ensures token != -1 ==> w == token
  {
    if token == -1 then INF else token
  }

  /** The inverse of `DecodeWeight` (INF written as -1). No program writes
      dense files; this exists only to state the reading round trip. */
  function EncodeWeight(w: int): (token: int)
    ensures DecodeWeight(token) == (if w == -1 then INF else w)
  {
    if w == INF then -1 else w
  }

  /** One row of `width` entries starting at the first token. */
  function DecodeRow(tokens: seq<int>, width: nat): (row: seq<int>)
    requires width <= |tokens|
    ensures |row| == width
    ensures forall j :: 0 <= j < width ==> row[j] == DecodeWeight(tokens[j])
  {
    seq(width, j requires 0 <= j < width => DecodeWeight(tokens[j]))
  }

  /** `rows` rows of `width` entries read in row-major order; None when the
      tokens run out (the scanner's NoSuchElementException). */
  function ReadRows(tokens: seq<int>, rows: nat, width: nat): (r: Option<Matrix>)
    ensures r.Some? ==> |r.value| == rows && forall i :: 0 <= i < rows ==> |r.value[i]| == width
    decreases rows
  {
    if rows == 0 then Some([])
    else if |tokens| < width then None
    else
      match ReadRows(tokens[width..], rows - 1, width)
      case None => None
      case Some(rest) => Some([DecodeRow(tokens, width)] + rest)
  }

  /** Where row i of a row-major block of rows of `width` entries starts,
      written as repeated addition so that the proofs below stay linear. */
  function RowStart(i: nat, width: nat): nat {
    if i == 0 then 0 else width + RowStart(i - 1, width)
  }

  lemma {:induction false} RowStartIsProduct(i: nat, width: nat)
    ensures RowStart(i, width) == i * width
    decreases i
  {
    if i > 0 {
      RowStartIsProduct(i - 1, width);
    }
  }

  lemma {:induction false} ReadRowsSome(tokens: seq<int>, rows: nat, width: nat)
    ensures ReadRows(tokens, rows, width).Some? <==> RowStart(rows, width) <= |tokens|
    decreases rows
  {
    if rows > 0 && |tokens| >= width {
      ReadRowsSome(tokens[width..], rows - 1, width);
    }
  }

  /** Entry (i, j) is the decoded token at row-major position (i, j). */
  lemma {:induction false} ReadRowsEntry(tokens: seq<int>, rows: nat, width: nat, i: nat, j: nat)
    requires ReadRows(tokens, rows, width).Some? && i < rows && j < width
    ensures RowStart(i, width) + j < |tokens|
    ensures ReadRows(tokens, rows, width).value[i][j] == DecodeWeight(tokens[RowStart(i, width) + j])
    decreases rows
  {
    if i > 0 {
      var tail := tokens[width..];
      ReadRowsEntry(tail, rows - 1, width, i - 1, j);
      assert ReadRows(tokens, rows, width).value[i] == ReadRows(tail, rows - 1, width).value[i - 1];
    }
  }

  /** The whole file: a vertex count, then that many rows. A negative count
      is the NegativeArraySizeException of `new int[n][n]`, a missing count
      the scanner's exception; both give None. */
  function ReadDenseFile(tokens: seq<int>): (r: Option<Matrix>)
  {
    if |tokens| == 0 || tokens[0] < 0 then None
    else ReadRows(tokens[1..], tokens[0], tokens[0])
  }

  /** What the loader produces: a square of the announced size whose every
      entry is the decoded token at its row-major position. */
  lemma ReadDenseFileFacts(tokens: seq<int>)
    ensures ReadDenseFile(tokens).Some? <==>
              |tokens| >= 1 && tokens[0] >= 0 && 1 + tokens[0] * tokens[0] <= |tokens|
    ensures ReadDenseFile(tokens).Some? ==>
              |ReadDenseFile(tokens).value| == tokens[0] && IsSquare(ReadDenseFile(tokens).value)
  {
    if |tokens| >= 1 && tokens[0] >= 0 {
      var n: nat := tokens[0];
      ReadRowsSome(tokens[1..], n, n);
      RowStartIsProduct(n, n);
    }
  }

  /** Entry (i, j) of the loaded matrix is the decoded token at position
      1 + i * n + j of the file. */
  lemma ReadDenseFileEntry(tokens: seq<int>, i: nat, j: nat)
    requires ReadDenseFile(tokens).Some? && i < tokens[0] && j < tokens[0]
    ensures 1 + i * tokens[0] + j < |tokens|
    ensures ReadDenseFile(tokens).value[i][j] == DecodeWeight(tokens[1 + i * tokens[0] + j])
  {
    var n: nat := tokens[0];
    ReadRowsEntry(tokens[1..], n, n, i, j);
    RowStartIsProduct(i, n);
  }

  /** The tokens a writer of the dense file puts for one row. */
  function Encoded(row: seq<int>): (tokens: seq<int>)
    ensures |tokens| == |row|
    ensures forall j :: 0 <= j < |row| ==> tokens[j] == EncodeWeight(row[j])
  {
    seq(|row|, j requires 0 <= j < |row| => EncodeWeight(row[j]))
  }

  /** The tokens of all rows, row after row. */
  function EncodedRows(m: Matrix): seq<int>
  {
    if |m| == 0 then [] else Encoded(m[0]) + EncodedRows(m[1..])
  }

  /** The dense file holding exactly this matrix. */
  function DenseTokens(m: Matrix): seq<int> {
    [|m|] + EncodedRows(m)
  }

  /** No stored entry is the value -1, which the file cannot express. */
  predicate NoMinusOne(m: Matrix) {
    forall i, j :: 0 <= i < |m| && 0 <= j < |m[i]| ==> m[i][j] != -1
  }

  lemma {:induction false} ReadRowsRoundTrip(m: Matrix, width: nat, rest: seq<int>)
    requires forall i :: 0 <= i < |m| ==> |m[i]| == width
    requires NoMinusOne(m)
    ensures ReadRows(EncodedRows(m) + rest, |m|, width) == Some(m)
    decreases |m|
  {
    if |m| > 0 {
      var tokens := EncodedRows(m) + rest;
      ReadRowsRoundTrip(m[1..], width, rest);
      assert tokens[width..] == EncodedRows(m[1..]) + rest;
      assert DecodeRow(tokens, width) == m[0];
      assert [m[0]] + m[1..] == m;
    }
  }

  /** Reading back a written dense file gives the same matrix, for every
      square matrix not holding -1. */
  lemma DenseRoundTrip(m: Matrix, rest: seq<int>)
    requires IsSquare(m) && NoMinusOne(m)
    ensures ReadDenseFile(DenseTokens(m) + rest) == Some(m)
  {
    var tokens := DenseTokens(m) + rest;
    assert tokens[1..] == EncodedRows(m) + rest;
    ReadRowsRoundTrip(m, |m|, rest);
  }

  /** The combo-box labels: label i is the decimal string of i + 1. */
  function VertexLabels(vertices: nat): (labels: seq<string>)
    ensures |labels| == vertices
    ensures forall i :: 0 <= i < vertices ==> labels[i] == NatToDecimal(i + 1)
  {
    seq(vertices, i requires 0 <= i < vertices => NatToDecimal(i + 1))
  }

  /** Selecting the label at index i names vertex i + 1, and distinct
      indices carry distinct labels. */
  lemma VertexLabelsFaithful(vertices: nat)
    ensures forall i :: 0 <= i < vertices ==> ParseDecimal(VertexLabels(vertices)[i]) == i + 1
    ensures forall i, j :: 0 <= i < vertices && 0 <= j < vertices && i != j ==>
              VertexLabels(vertices)[i] != VertexLabels(vertices)[j]
  {
    forall i | 0 <= i < vertices
      ensures ParseDecimal(VertexLabels(vertices)[i]) == i + 1
    {
      DecimalRoundTrip(i + 1);
    }
  }

  /** With entries in [0, INF] a solved diagonal entry stays between 0 and
      its input value. */
  lemma SolvedDiagonalBounds(m: Matrix, i: nat)
    requires InRange(m) && i < |m|
    ensures 0 <= Solve(m)[i][i] <= m[i][i]
  {
    RoundsInRange(m, |m|);
  }

  /** A positive diagonal input can drop: a 10 on the diagonal with a
      round trip of 1 + 1 through the other vertex becomes 2. */
  lemma DiagonalCanDrop()
    ensures Solve([[10, 1], [1, 0]])[0][0] == 2
  {
    var m := [[10, 1], [1, 0]];
    MatrixEquality(Round(m, 0), m);
    assert Rounds(m, 1) == m;
  }
}
