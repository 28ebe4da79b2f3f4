# Floyd–Warshall city distances, modelled in Dafny

The repository is a set of small Java programs. Each one reads a road network between numbered cities and solves it with the Floyd–Warshall all-pairs shortest-distance algorithm. FloydAlgorithm solves once and prints the distance for every pair. The other seven answer "how far is city A from city B?" for a selected pair. An integer matrix holds the distances. `INF = Integer.MAX_VALUE / 2` (1073741823) marks a missing road, and every relaxation guards its addition with `!= INF` on both operands and a strict `<`.

The eight programs differ in four things:

- **How the matrix is built.** Most programs read edge records `sourceId weight destinationId` (1-based ids) and write each one in both directions. FloydAlgorithm and FloydAlgorithmGUI instead read a dense matrix in which `-1` means "no edge".
- **Which relaxation runs.** There are four:
  - a full `i, j` loop over a copy named `shortests` (FA_GUI7, FA_GUI3);
  - a full loop run in place on `graph`, re-run on every query (FA_GUI1, FloydAlgorithmGUIss, FloydAlgorithmGUIs, FloydAlgorithmGUI);
  - the same in-place loop run once on the whole matrix, which is then printed in full (FloydAlgorithm);
  - a lower-triangle loop that mirrors each write (FA_GUI11).
- **How a query is answered.**
- **Small record logic.** City rename, new-city ids, name-to-id lookup and add-path validation.

The model has one module per concern.

- `Int32`: Java `int` addition, wrapping modulo 2^32.
- `Matrices`: matrices as `seq<seq<int>>` values, plus the predicates used throughout (square, entries in `[0, INF]`, symmetric, zero diagonal, pointwise `Below`).
- `FloydSpec`: the reference recurrence. `Relax` is the guarded update exactly as Java writes it. `Round(d, k)` is round `k` over all pairs. `Rounds(m, k)` is the first `k` rounds. `Solve(m) = Rounds(m, |m|)`.
- `ShortestPaths`: what `Solve` means. A walk is a vertex sequence whose steps are all finite edges. `Rounds(m, k)[i][j]` is the least weight of a walk from `i` to `j` whose interior vertices are all below `k`, capped at `INF`. Consequences proved here: the triangle inequality and idempotence.
- `Relaxation`: the three imperative loop nests as methods with nested loop invariants, each proved equal to `Solve`. For the mirrored loop, the result equals `Solve` off the diagonal, and equals it fully when the diagonal is zero.
- `Loading`: matrix initialisation, edge records, and the count-prefixed edge file.
- `DenseInput`: the `-1`-for-INF dense file and the 1-based vertex labels.
- `Decimal`: decimal numerals of naturals.
- `Records`: the city file lines, rename, add-city, `getKeyByValue` and add-path.
- `Query`: the three query handlers.

Every solve is modelled for matrices with entries in `[0, INF]`. Under that precondition the guarded sum never overflows 32 bits. The programs themselves accept any int weight. A weight above `INF` passes both `!= INF` guards, so its sum can wrap to a negative distance (`FloydSpec.HeavyWeightsWrap`). The lemmas `RoundKeepsPivot` (row and column `k` do not change in round `k`) and `RoundIgnoresDiagonal` are what make the in-place and mirrored loops agree with the copy-based recurrence.

With repeated records for one pair, the loaders keep the last weight written, not the smallest, and the solve never sees the earlier one. Re-adding a road with a larger weight raises the distance (`Loading.OverwritingEdgeCanIncrease`). The model proves monotonicity only for a record that does not exceed the weight it overwrites (`Loading.AddingShorterEdgeNeverIncreases`).

Other modelling choices:

- Java's `HashMap<Integer, String>` of city names is assumed to iterate in ascending id order. City `i + 1` is therefore at position `i` of a `seq<string>`.
- File contents arrive as already-tokenised `seq<int>` values or as `seq<string>` lines.

## Model

| member | source | states |
|---|---|---|
| Int32.Add | FA_GUI1.java:141-142 | Java `int` addition: the result fits in 32 bits, is congruent to the true sum modulo 2^32, and equals the true sum exactly when that fits. |
| FloydSpec.EntrySumsFit | FA_GUI1.java:141-142 | Two entries in `[0, INF]` sum to at most `INT_MAX - 1` (`INF + INF` itself does not wrap), so the Java sum is exact. With the `!= INF` guards dropped, the update would adopt exactly the values the guarded `Relax` adopts: it is `INF = INT_MAX / 2` that rules out overflow, not the guards. |
| FloydSpec.HeavyWeightsWrap | FA_GUI1.java:138-146 | Weights just above `INF` pass both guards, and the wrapped Java sum is adopted. With two roads of weight `INF + 1`, the solve gives `INT_MIN` as the distance between the two outer cities of a three-city chain, and as a city's distance to itself. |
| FloydSpec.Relax | FA_GUI11.java:171-174 | When all three operands are in `[0, INF]` and both legs are `!= INF`, the Java sum is the true sum and stays within int32. The adopted value is then the minimum of the current entry and the sum. |
| FloydSpec.RoundInRange | FA_GUI7.java:163-172 | One round keeps every entry in `[0, INF]` and never raises an entry. |
| FloydSpec.RoundsInRange | FA_GUI1.java:138-146 | After any number of rounds, entries stay in `[0, INF]` and are at most their input values. |
| FloydSpec.RoundsStepAt | FloydAlgorithmGUIss.java:140-142 | One more round never raises the entry for a pair: the guarded update only ever writes a strictly smaller value. |
| FloydSpec.RoundsNonIncreasingAt | FloydAlgorithmGUIss.java:137-145 | For one pair, the entry after more rounds is at most the entry after fewer. |
| FloydSpec.RoundsNonIncreasing | FloydAlgorithmGUIss.java:137-145 | A later round count never yields a larger entry than an earlier one. |
| FloydSpec.RoundKeepsPivot | FA_GUI1.java:138-145 | In round `k`, row `k` and column `k` are unchanged. This holds because `d[k][k] >= 0`, and it is why relaxing in place is sound. |
| FloydSpec.RoundSymmetric | FA_GUI7.java:163-172 | A round maps a symmetric matrix to a symmetric matrix. |
| FloydSpec.RoundsSymmetric | FloydAlgorithmGUIss.java:117-118 | A symmetric loaded matrix has a symmetric result after every number of rounds. |
| FloydSpec.RoundsZeroDiagonal | FA_GUI7.java:163-172 | For entries in `[0, INF]`, a zero diagonal stays zero through every round. |
| FloydSpec.RoundMonotone | FloydAlgorithm.java:41-48 | A round is monotone: a pointwise-smaller input gives a pointwise-smaller output. |
| FloydSpec.RoundsMonotone | FloydAlgorithm.java:38-50 | The whole solve is monotone in its input matrix. |
| FloydSpec.RoundIgnoresDiagonal | FA_GUI11.java:168-178 | Off the diagonal, a round's result does not depend on the diagonal entries. |
| FloydSpec.AtMostTwoVerticesSolved | FloydAlgorithm.java:38-50 | With at most two vertices and a zero diagonal, the solve returns its input unchanged. |
| ShortestPaths.RoundsOptimal | FA_GUI3.java:139-158 | After `k` rounds, no walk with interior vertices below `k` weighs less than the entry. |
| ShortestPaths.RoundsWitness | FA_GUI3.java:139-158 | After `k` rounds, a finite entry is the weight of some walk with interior vertices below `k`. |
| ShortestPaths.SolveIsShortest | FloydAlgorithm.java:38-50 | After all rounds, each entry is the minimum directed walk weight. It is `INF` exactly when every walk weighs at least `INF`, which includes the case where no walk exists. |
| ShortestPaths.SolveTriangle | FA_GUI3.java:148-157 | After the solve, `d[i][j] <= d[i][v] + d[v][j]` for all `i, v, j`. |
| ShortestPaths.SolveIdempotent | FA_GUI1.java:135-149 | Solving a solved matrix changes nothing. So re-running the in-place solve on every query is harmless. |
| Relaxation.RelaxRound | FA_GUI7.java:163-172 | The two inner loops of round `k`, with the Java guard and int32 addition, compute `Round(d, k)`. |
| Relaxation.FloydWarshall | FloydAlgorithm.java:38-50 | Exactly `V` rounds of in-place guarded relaxation give `Solve(graph)`. The result stays in `[0, INF]` and never exceeds the input. |
| Relaxation.CopyMatrix | FA_GUI7.java:157-161 | The copy loop makes `shortests` an exact copy of `graph`, whatever `shortests` held before. |
| Relaxation.PerformFloydWarshall | FA_GUI7.java:154-173 | Copy-then-relax produces `Solve(graph)`. `graph` is an input value and is not written. FA_GUI3.java:139-158 is the same procedure. |
| Relaxation.FloydWarshallQuery | FA_GUI1.java:135-149 | The in-place solve leaves `graph` equal to `Solve(graph)`, still in `[0, INF]` and a fixpoint of the solve. The next query can therefore run on it, and re-running the solve per query is harmless. The returned value is `Solve(graph)[source][destination]`, and it exists exactly when both indices are in range. The same routine appears at FloydAlgorithmGUIss.java:134-148, FloydAlgorithmGUIs.java:118-132 and FloydAlgorithmGUI.java:91-105; the last one runs on a possibly non-symmetric dense matrix. |
| Relaxation.RelaxRoundMirrored | FA_GUI11.java:168-178 | One round of the lower-triangle loop that mirrors each write. On a symmetric matrix it agrees with `Round(d, k)` off the diagonal, and it leaves the diagonal as it was. |
| Relaxation.PerformFloydWarshallMirrored | FA_GUI11.java:158-178 | Copy then triangle rounds give a symmetric result. Off the diagonal it equals `Solve(graph)`, and the diagonal keeps `graph`'s values. It equals `Solve(graph)` whenever the diagonal is zero. |
| Decimal.NatToDecimal | FloydAlgorithmGUI.java:39-42 | The numeral is non-empty and all digits, with no leading zero except for `0` itself. |
| Decimal.DecimalRoundTrip | FloydAlgorithmGUI.java:39-42 | Reading the numeral back gives the number. |
| Decimal.DecimalInjective | FloydAlgorithmGUI.java:39-42 | Distinct numbers have distinct numerals. |
| Matrices.EmptyGraphFacts | FA_GUI7.java:75-80 | The initial matrix (0 on the diagonal, `INF` elsewhere) is in range, symmetric and has a zero diagonal. |
| Loading.InitMatrix | FA_GUI7.java:75-80 | The full initialisation loop sets `(i, j)` to 0 when `i == j` and to `INF` otherwise. |
| Loading.InitMatricesMirrored | FA_GUI11.java:79-84 | The triangle initialisation gives both `graph` and `shortests` 0 on the diagonal and `INF` everywhere else. |
| Loading.ApplyTriple | FA_GUI11.java:86-101 | An in-range record `(s, w, d)` sets both `(s-1, d-1)` and `(d-1, s-1)` to `w` and changes no other cell. An out-of-range record leaves the matrix unchanged. |
| Loading.LoadEdges | FA_GUI7.java:82-97 | The loading loop applies the records in file order. |
| Loading.LoadLastWins | FA_GUI11.java:96-97 | Each cell holds the weight of the last in-range record joining its two positions. It keeps its initial value if no record joins them. |
| Loading.LoadKeepsSymmetric | FloydAlgorithmGUIss.java:117-118 | Loading records keeps a symmetric matrix symmetric. |
| Loading.LoadKeepsInRange | FA_GUI3.java:114-120 | Weights in `[0, INF]` keep every entry in `[0, INF]`. |
| Loading.LoadKeepsZeroDiagonal | FA_GUI1.java:102-119 | Records with no in-range self-loop keep the diagonal zero. |
| Loading.SelfLoopReachesDiagonal | FA_GUI11.java:94-97 | The loader does not reject a self-loop: record `1 5 1` puts 5 on the diagonal. |
| Loading.LoadedGraphFacts | FloydAlgorithmGUIs.java:89-110 | Initialisation followed by loading gives an in-range symmetric matrix. Without self-loops it also has a zero diagonal. |
| Loading.AddingShorterEdgeNeverIncreases | FA_GUI11.java:96-97 | A record whose weight does not exceed the cells it overwrites never raises any solved distance. |
| Loading.OverwritingEdgeCanIncrease | FA_GUI11.java:96-97 | Re-adding road 1–2 with weight 10 over weight 3 raises the solved distance from 3 to 10, because the last write wins. |
| Loading.ReadTriples | FA_GUI3.java:106-111 | Exactly `count` records of three tokens are read, in order. The read fails exactly when fewer than `3 * count` tokens remain. |
| Loading.ReadEdgeFile | FA_GUI3.java:54 | The first token is the record count. A negative count reads no records, and exactly `count` records are consumed. |
| Loading.ReadTriplesRoundTrip | FA_GUI3.java:106-111 | Reading back the tokens of written records gives those records, whatever follows them. |
| Loading.EdgeFileRoundTrip | FA_GUI3.java:54 | A written count-prefixed file reads back as the same records. |
| DenseInput.DecodeWeight | FloydAlgorithmGUI.java:77-83 | `-1` becomes `INF`, and every other value is kept verbatim, diagonal included. |
| DenseInput.EncodeWeight | FloydAlgorithm.java:14-20 | The inverse of the reader's `-1`-for-INF decoding: encoding then decoding gives back every stored value except `-1`. No Java program writes dense files; this only states the round trip. |
| DenseInput.ReadRows | FloydAlgorithm.java:15-20 | A successful read has exactly `rows` rows of `width` entries. |
| DenseInput.ReadRowsSome | FloydAlgorithm.java:15-20 | The row read fails exactly when fewer than `rows * width` tokens remain. |
| DenseInput.ReadRowsEntry | FloydAlgorithm.java:15-20 | Entry `(i, j)` is the decoded token at row-major position `(i, j)`. |
| DenseInput.ReadDenseFileFacts | FloydAlgorithm.java:12-20 | The file loads exactly when its count is non-negative and at least `n * n` tokens follow. The result is then an `n × n` matrix. |
| DenseInput.ReadDenseFileEntry | FloydAlgorithmGUI.java:77-83 | Entry `(i, j)` is the decoded token at position `1 + i * n + j` of the file. |
| DenseInput.DenseRoundTrip | FloydAlgorithm.java:14-20 | A written dense file reads back as the same square matrix, when no entry is `-1`. |
| DenseInput.VertexLabels | FloydAlgorithmGUI.java:39-42 | Label `i` is the decimal numeral of `i + 1`. |
| DenseInput.VertexLabelsFaithful | FloydAlgorithmGUI.java:39-42 | Label `i` reads back as vertex number `i + 1`, and no two labels are the same. |
| DenseInput.SolvedDiagonalBounds | FloydAlgorithmGUI.java:97-98 | For an input with entries in `[0, INF]`, each solved diagonal entry lies between 0 and its input value. |
| DenseInput.DiagonalCanDrop | FloydAlgorithmGUI.java:97-98 | A positive diagonal input can drop: `[[10, 1], [1, 0]]` solves to 2 at `(0, 0)`. |
| Records.TrimFacts | FA_GUI11.java:219 | `trim().isEmpty()` holds exactly when every character is at most U+0020. A name with no such character at either end is kept as it is. |
| Records.RecordFields | FA_GUI11.java:223 | A written line `id name` splits back into its fields: the id's digits (which parse to the id), one space, and the name exactly as typed. |
| Records.ParseRecord | FA_GUI11.java:353-357 | The cities-table reader (`nextInt`, then `nextLine().trim()`) accepts a line exactly when it starts with one or more digits followed by a space. The name it returns has no blank at either end. Any other line yields `None`. |
| Records.RecordRoundTrip | FA_GUI11.java:353-357 | A written `id name` line reads back as the id and the trimmed name. |
| Records.TakeToken | FA_GUI11.java:190 | `Scanner.next` once leading blanks are skipped: the longest blank-free prefix, stopping at a blank or at the end. |
| Records.FirstWordFacts | FA_GUI11.java:188-191 | The first word of a name is empty exactly when the name is blank. For a non-blank name it equals the trimmed name exactly when no blank remains inside. |
| Records.ParseNameToken | FA_GUI11.java:188-191 | The name-map reader (`nextInt`, then `next()`) reads a line exactly when the cities-table reader finds a non-empty name there. It returns the same id, and as the name the first blank-free word of that trimmed name, ending at a blank or at the end. |
| Records.NameTokenReadsFirstWord | FA_GUI11.java:188-191 | The name-map reader (`nextInt`, then `next()`) reads a written line back as its id and only the first word of the name, and reads nothing from a blank name. |
| Records.TwoWordNameTruncated | FA_GUI11.java:188-191 | For any name made of two blank-free words, the cities table reads the whole name back, but the name-map reader gets only the first word. |
| Records.SpacedNameTruncated | FA_GUI11.java:223 | A city added as "New York" is written whole and read back whole by the cities table, but the name-map reader gets only "New". |
| Records.UpdateCityName | FA_GUI11.java:435-443 | For `0 < cityId <= lines.size()`, only line `cityId - 1` changes. It becomes `cityId + " " + newName` with the name exactly as typed, and reads back as `(cityId, Trim(newName))`. Any other id leaves every line unchanged. FA_GUI7.java:338-347 renames in the same way. |
| Records.RenameKeepsNumbering | FA_GUI11.java:435-437 | Rename keeps "line `i` carries id `i + 1`". |
| Records.AddCity | FA_GUI11.java:219-223 | A non-cancelled, non-blank name appends a line with id `rowCount + 1` and changes no earlier line. Otherwise nothing changes. |
| Records.AddCityKeepsNumbering | FA_GUI11.java:222-223 | Add-city keeps "line `i` carries id `i + 1`". |
| Records.GetKeyByValue | FA_GUI11.java:450-457 | Returns -1 exactly when no city has the name. Otherwise it returns the id of the first city with that name. |
| Records.AddPath | FA_GUI11.java:283-306 | A record is appended exactly when no dialog was cancelled, both names exist and differ, and the distance parses. The record's ids name the chosen cities and differ. "Same city" is reported exactly when the two lookups return the same id. |
| Records.AppendedRecordsKeepZeroDiagonal | FA_GUI11.java:287 | Records the add-path button writes never join a city to itself, so loading them keeps the zero diagonal. |
| Query.QueryReported | FA_GUI11.java:119-134 | In range, it reports "no valid path" exactly when the entry is `INF`, and otherwise the entry with both city names. Out of range, it reports an invalid selection. |
| Query.ReportedMeansShortest | FA_GUI11.java:122-131 | On a solved matrix, "no valid path" holds exactly when every walk weighs at least `INF`. A reported distance is achieved by some walk and is beaten by none. |
| Query.QueryRaw | FA_GUI7.java:115-126 | It checks bounds only, and shows the stored value as it is. |
| Query.QueriesAgree | FA_GUI7.java:115-126 | For a selected pair with a finite entry, all three query forms give the same report. |
| Query.RawQueryShowsSentinel | FA_GUI7.java:118-124 | For two unconnected cities, FA_GUI7 shows 1073741823 as a distance, where FA_GUI11 shows "no valid path". |
| Query.QueryUnchecked | FA_GUI3.java:75-84 | The entry is returned exactly with no checks. An index outside the matrix faults. |

## Left out

- The Swing user interface is not modelled: frames, tabs, combo boxes, tables, renderers, editors, dialogs, and the dispose-and-reinitialise cycle. It is event-driven glue. A dialog's answer is a parameter, with `None` for a cancelled dialog.
- File I/O and `Scanner` tokenisation are not modelled (`readVertexNames`, `readCitiesFromFile`, `readPathsFromFile`, `countLines`, writers). File contents are passed in as token sequences or line sequences.
- FA_GUI11 and FA_GUI7 read as many records as `input.txt` has lines. The model passes that record list directly.
- `Integer.parseInt` is a library call. Its result is passed in, with `Some(None)` standing for `NumberFormatException`.
- `GraphPanel` drawing is not modelled. It uses `Math.cos`/`Math.sin` and double arithmetic.
- Timing with `LocalDateTime`/`Duration` in FA_GUI11 is not modelled. It does not affect results.
- `HashMap` iteration order is library-defined. The model assumes ascending ids, so position `i` is city `i + 1`.
- The rename dialog's own input checks in `ButtonEditor` are not modelled: it is UI code. `UpdateCityName` takes any id and any name.
- FA_GUI3's paths table shows records in a different field order. This is display only.
- FA_GUI11.java declares class `FA_GUI9`. This is a naming slip with no behaviour.
- Negative weights and negative cycles are not modelled. No program checks for them, and every solve here requires entries in `[0, INF]`.
- Weights above `INF` are not modelled by any solve. The programs store them unchanged (FA_GUI11.java:96-97, FA_GUI11.java:289, FloydAlgorithm.java:15-20). Two of them pass the `!= INF` guards, and their sum wraps to a negative distance, as `FloydSpec.HeavyWeightsWrap` shows. Every solve's precondition excludes them.
- FloydSpec.HeavyWeightsWrap: states the wrap for `Solve`, the round-by-round recurrence. The in-place loops are proved equal to `Solve` only for entries in `[0, INF]`, so the lemma does not state what a particular Java loop leaves on such an input.
- Logging is not modelled: the `System.out` and `System.err` messages, such as the warning for a skipped record with invalid ids (FA_GUI11.java:99), the one for an out-of-range rename (FA_GUI11.java:443), and the I/O error reports.
- Relaxation.FloydWarshall: requires entries in `[0, INF]`. FloydAlgorithm stores any int the file holds, including negative values.
- Relaxation.PerformFloydWarshallMirrored: requires a symmetric input. The triangle loop only makes sense for undirected graphs, and edge loading always produces symmetric matrices.
- Records.ParseRecord: reads the id as the digits up to the first space. A line in another shape yields `None`, whereas `Scanner` would skip other whitespace or throw.
- Records.ParseNameToken: treats a character no greater than U+0020 as a blank, where `Scanner` splits on Java whitespace. It yields `None` for a line with no word after the id, where `Scanner` would go on and read the next line's id as the name. The model reads one line at a time and drops the words after the first. In Java `next()` leaves those words in the stream, so for a name like "New York" the following `nextInt()` meets "York", throws `InputMismatchException`, and `initialize()` aborts.
- The name list's `vertexNames.get(i + 1)` returning `null` for a missing id cannot arise in the model, because names are a sequence indexed by position.
- An empty city list makes `options[0]` in the add-path dialog throw. This is UI behaviour and is not modelled.

## Findings

| source | as written | input that shows it | evidently intended | confidence | as-written member | corrected member |
|---|---|---|---|---|---|---|
| FA_GUI7.java:118-124 | The query prints `shortests[src][dst]` with no `INF` check. | Two cities and no road: the text reads "Shortest distance between A and B: 1073741823". | Report "no valid path" when the entry is `INF`, as FA_GUI11.java:125-131 does. | not executed | Query.RawQueryShowsSentinel | Query.ReportedMeansShortest |
| FA_GUI11.java:188-191 | The name map reads each city name with `scanner.next()`, one blank-delimited word. Add-city (FA_GUI11.java:223) and rename (FA_GUI11.java:436) write the name exactly as typed. | A city added as "New York" is written as `1 New York`. The map receives "New", and the loop's next `nextInt` meets "York". | Read the rest of the line and trim it, as the cities table does (FA_GUI11.java:353-357). | not executed | Records.SpacedNameTruncated | Records.RecordRoundTrip |
| FA_GUI1.java:138-146 | The update guards only against the `INF` sentinel. Weights are read unchecked (FA_GUI1.java:110-119, FA_GUI11.java:96-97, FA_GUI11.java:289), so two weights above `INF` are added and the sum wraps. | Roads of weight 1073741824 from city 1 to 2 and from 2 to 3: the distance from 1 to 3 becomes -2147483648. | Weights restricted to `[0, INF]`, where no sum wraps and every distance is a walk weight. | not executed | FloydSpec.HeavyWeightsWrap | FloydSpec.EntrySumsFit |
