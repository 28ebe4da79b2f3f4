/** The city and path records kept beside the matrix: the `id name` lines of
    the city file, the rename that rewrites one of them, the new-city id,
    the reverse name-to-id lookup and the add-path validation that appends
    an edge record. City i + 1 sits at position i of the name list. */
module Records {
  import opened Matrices
  import opened Decimal
  import opened Loading

  /** Java's `String.trim` blank: a character no greater than U+0020. */
  predicate IsBlankChar(c: char) {
    c <= ' '
  }

  /** Drops leading blanks. */
  function TrimStart(s: string): (r: string)
    ensures |r| <= |s| && r == s[|s| - |r|..]
    ensures |r| > 0 ==> !IsBlankChar(r[0])
    ensures forall t :: 0 <= t < |s| - |r| ==> IsBlankChar(s[t])
    decreases |s|
  {
    if |s| > 0 && IsBlankChar(s[0]) then
      var r := TrimStart(s[1..]);
      assert s[1..][|s| - 1 - |r|..] == s[|s| - |r|..];
      assert forall t :: 1 <= t < |s| - |r| ==> s[t] == s[1..][t - 1];
      r
    else s
  }

  /** Drops trailing blanks. */
  function TrimEnd(s: string): (r: string)
    ensures |r| <= |s| && r == s[..|r|]
    ensures |r| > 0 ==> !IsBlankChar(r[|r| - 1])
    ensures forall t :: |r| <= t < |s| ==> IsBlankChar(s[t])
    decreases |s|
  {
    if |s| > 0 && IsBlankChar(s[|s| - 1]) then
      var r := TrimEnd(s[..|s| - 1]);
      assert s[..|s| - 1][..|r|] == s[..|r|];
      r
    else s
  }

  /** `String.trim`: leading and trailing blanks removed. */
  function Trim(s: string): string {
    TrimEnd(TrimStart(s))
  }

  /** The city-name check of the add-city dialog: `trim().isEmpty()`. */
  predicate IsBlank(s: string) {
    |Trim(s)| == 0
  }

  /** Trimming is exactly "blank at both ends dropped": the result is empty
      just when every character is blank, and a name with no blank at either
      end is kept as it is. */
  lemma TrimFacts(s: string)
    ensures IsBlank(s) <==> forall t :: 0 <= t < |s| ==> IsBlankChar(s[t])
    ensures |s| > 0 && !IsBlankChar(s[0]) && !IsBlankChar(s[|s| - 1]) ==> Trim(s) == s
  {
  }

  /** One line of the city file: the id, a space, the name. */
  function FormatRecord(id: nat, name: string): string {
    NatToDecimal(id) + " " + name
  }

  /** The number of leading digits. */
  function DigitPrefix(s: string): (k: nat)
    ensures k <= |s| && AllDigits(s[..k])
    ensures k < |s| ==> !IsDigit(s[k])
    decreases |s|
  {
    if |s| > 0 && IsDigit(s[0]) then
      var k := 1 + DigitPrefix(s[1..]);
      assert s[..k] == [s[0]] + s[1..][..k - 1];
      k
    else 0
  }

  /** Reading a city line back: the leading digits are the id, one space
      follows, and the trimmed rest of the line is the name (the city
      table's `nextInt` and `nextLine().trim()`). None for a line of any
      other shape. */
  function ParseRecord(line: string): (r: Option<(nat, string)>)
    ensures r.Some? <==> exists k :: 0 < k < |line| && AllDigits(line[..k]) && line[k] == ' '
    ensures r.Some? ==> var name := r.value.1;
              |name| > 0 ==> !IsBlankChar(name[0]) && !IsBlankChar(name[|name| - 1])
  {
    var k := DigitPrefix(line);
    if k == 0 || k == |line| || line[k] != ' ' then
      assert !exists k' :: 0 < k' < |line| && AllDigits(line[..k']) && line[k'] == ' ' by {
        DigitPrefixExact(line);
      }
      None
    else
      var u := TrimStart(line[k + 1..]);
      var name := TrimEnd(u);
      assert |name| > 0 ==> name[0] == u[0];
      Some((ParseDecimal(line[..k]), name))
  }

  /** An all-digit prefix followed by a non-digit (or the end) is the
      digit prefix. */
  lemma {:induction false} DigitPrefixAt(line: string, k: nat)
    requires k <= |line| && AllDigits(line[..k]) && (k < |line| ==> !IsDigit(line[k]))
    ensures DigitPrefix(line) == k
    decreases k
  {
    if k > 0 {
      assert IsDigit(line[..k][0]);
      assert line[1..][..k - 1] == line[1..k];
      assert forall t :: 0 <= t < k - 1 ==> line[1..k][t] == line[..k][t + 1];
      DigitPrefixAt(line[1..], k - 1);
    }
  }

  lemma DigitPrefixExact(line: string)
    ensures forall k :: 0 <= k <= |line| && AllDigits(line[..k]) && (k < |line| ==> !IsDigit(line[k]))
              ==> DigitPrefix(line) == k
  {
    forall k | 0 <= k <= |line| && AllDigits(line[..k]) && (k < |line| ==> !IsDigit(line[k]))
      ensures DigitPrefix(line) == k
    {
      DigitPrefixAt(line, k);
    }
  }

  lemma {:induction false} DigitPrefixOfDigits(digits: string, rest: string)
    requires AllDigits(digits) && (|rest| > 0 ==> !IsDigit(rest[0]))
    ensures DigitPrefix(digits + rest) == |digits|
    decreases |digits|
  {
    if |digits| > 0 {
      assert (digits + rest)[1..] == digits[1..] + rest;
      DigitPrefixOfDigits(digits[1..], rest);
    }
  }

  /** The fields of a written line: the id's digits, one space, the name. */
  lemma RecordFields(id: nat, name: string)
    ensures var line := FormatRecord(id, name);
            var k := DigitPrefix(line);
            && 0 < k < |line| && line[k] == ' '
            && ParseDecimal(line[..k]) == id && line[k + 1..] == name
  {
    var digits := NatToDecimal(id);
    var line := FormatRecord(id, name);
    assert line == digits + (" " + name);
    DigitPrefixOfDigits(digits, " " + name);
    assert line[..|digits|] == digits;
    assert line[|digits| + 1..] == name;
    DecimalRoundTrip(id);
  }

  /** A written line reads back as its id and its trimmed name. */
  lemma RecordRoundTrip(id: nat, name: string)
    ensures ParseRecord(FormatRecord(id, name)) == Some((id, Trim(name)))
  {
    var line := FormatRecord(id, name);
    var k := DigitPrefix(line);
    RecordFields(id, name);
    assert line[k + 1..] == name;
  }

  /** The leading run of non-blank characters: what `Scanner.next` returns
      once the blanks before it are skipped. */
  function TakeToken(s: string): (r: string)
    ensures |r| <= |s| && r == s[..|r|]
    ensures forall t :: 0 <= t < |r| ==> !IsBlankChar(r[t])
    ensures |r| < |s| ==> IsBlankChar(s[|r|])
    decreases |s|
  {
    if |s| > 0 && !IsBlankChar(s[0]) then
      var r := [s[0]] + TakeToken(s[1..]);
      assert s[1..][..|r| - 1] == s[1..|r|];
      r
    else []
  }

  /** Reading a city line the way the name map of the graph view does:
      `nextInt` for the id, then `next()`, the next blank-delimited token.
      It reads a line exactly when the line reader finds a non-empty name
      there, with the same id, and then yields the first word of that name.
      None when the line has no token after the id (the scanner would run
      on into the next line). */
  function ParseNameToken(line: string): (r: Option<(nat, string)>)
    ensures r.Some? <==> ParseRecord(line).Some? && |ParseRecord(line).value.1| > 0
    ensures r.Some? ==> r.value.0 == ParseRecord(line).value.0
    ensures r.Some? ==> var w := ParseRecord(line).value.1; var t := r.value.1;
              && |t| <= |w| && t == w[..|t|]
              && (forall c :: 0 <= c < |t| ==> !IsBlankChar(t[c]))
              && (|t| < |w| ==> IsBlankChar(w[|t|]))
  {
    var k := DigitPrefix(line);
    if k == 0 || k == |line| || line[k] != ' ' then None
    else
      var rest := line[k + 1..];
      var name := TakeToken(TrimStart(rest));
      FirstWordFacts(rest);
      TokenIsFirstWord(TrimStart(rest));
      if |name| == 0 then None else Some((ParseDecimal(line[..k]), name))
  }

  /** The token of u is a prefix of u with its trailing blanks dropped,
      ending at a blank of it or at its end. */
  lemma TokenIsFirstWord(u: string)
    ensures var t := TakeToken(u); var w := TrimEnd(u);
            |t| <= |w| && t == w[..|t|] && (|t| < |w| ==> IsBlankChar(w[|t|]))
  {
    var t := TakeToken(u);
    var w := TrimEnd(u);
    assert forall c :: 0 <= c < |t| ==> !IsBlankChar(u[c]);
    assert |w| < |u| ==> IsBlankChar(u[|w|]);
    assert |t| <= |w|;
    assert w[..|t|] == u[..|t|];
    if |t| < |w| {
      assert w[|t|] == u[|t|];
    }
  }

  /** The first word of a name is empty just when the name is blank, and
      is the whole trimmed name just when no blank is left inside it. */
  lemma FirstWordFacts(name: string)
    ensures |TakeToken(TrimStart(name))| == 0 <==> IsBlank(name)
    ensures !IsBlank(name) ==>
              (TakeToken(TrimStart(name)) == Trim(name) <==>
                 forall t :: 0 <= t < |Trim(name)| ==> !IsBlankChar(Trim(name)[t]))
  {
    var u := TrimStart(name);
    var w := TrimEnd(u);
    assert w == Trim(name);
    if |u| == 0 {
      assert |w| == 0;
    } else {
      assert |TakeToken(u)| > 0;
      assert |w| > 0;
      if forall t :: 0 <= t < |w| ==> !IsBlankChar(w[t]) {
        TakeTokenPrefix(u, w);
      }
    }
  }

  /** A blank-free prefix of s followed by a blank (or the end) is its token. */
  lemma TakeTokenPrefix(s: string, w: string)
    requires |w| <= |s| && w == s[..|w|]
    requires forall t :: 0 <= t < |w| ==> !IsBlankChar(w[t])
    requires |w| == |s| || IsBlankChar(s[|w|])
    ensures TakeToken(s) == w
  {
  }

  /** The token reader gives back only the first word of a written name. */
  lemma NameTokenReadsFirstWord(id: nat, name: string)
    ensures ParseNameToken(FormatRecord(id, name))
              == if IsBlank(name) then None else Some((id, TakeToken(TrimStart(name))))
  {
    RecordFields(id, name);
    FirstWordFacts(name);
  }

  /** A name of two blank-free words is written whole, and read back whole
      by the cities table, but the name-map reader gets only the first word. */
  lemma TwoWordNameTruncated(id: nat, first: string, second: string)
    requires |first| > 0 && |second| > 0
    requires forall t :: 0 <= t < |first| ==> !IsBlankChar(first[t])
    requires forall t :: 0 <= t < |second| ==> !IsBlankChar(second[t])
    ensures ParseNameToken(FormatRecord(id, first + " " + second)) == Some((id, first))
    ensures ParseRecord(FormatRecord(id, first + " " + second)) == Some((id, first + " " + second))
  {
    var name := first + " " + second;
    assert name[0] == first[0] && name[|name| - 1] == second[|second| - 1];
    assert TrimStart(name) == name;
    assert TrimEnd(name) == name;
    assert name[..|first|] == first && name[|first|] == ' ';
    TakeTokenPrefix(name, first);
    NameTokenReadsFirstWord(id, name);
    RecordRoundTrip(id, name);
  }

  /** "New York" is written whole but read back as "New". */
  lemma SpacedNameTruncated()
    ensures ParseNameToken(FormatRecord(1, "New York")) == Some((1, "New"))
    ensures ParseRecord(FormatRecord(1, "New York")) == Some((1, "New York"))
  {
    assert "New York" == "New" + " " + "York";
    TwoWordNameTruncated(1, "New", "York");
  }

  /** Line i of the city file carries id i + 1. */
  predicate WellNumbered(lines: seq<string>) {
    forall i :: 0 <= i < |lines| ==> ParseRecord(lines[i]).Some? && ParseRecord(lines[i]).value.0 == i + 1
  }

  /** `updateCityNameInFile`: an id in 1..|lines| has its line replaced by
      the formatted record; any other id is "out of range" and changes
      nothing. */
  function UpdateCityName(lines: seq<string>, cityId: int, newName: string): (r: seq<string>)
    ensures |r| == |lines|
    ensures forall i :: 0 <= i < |lines| && i != cityId - 1 ==> r[i] == lines[i]
    ensures 0 < cityId <= |lines| ==> r[cityId - 1] == FormatRecord(cityId, newName)
    ensures 0 < cityId <= |lines| ==> ParseRecord(r[cityId - 1]) == Some((cityId, Trim(newName)))
    ensures !(0 < cityId <= |lines|) ==> r == lines
  {
    if 0 < cityId <= |lines| then
      RecordRoundTrip(cityId, newName);
      lines[cityId - 1 := FormatRecord(cityId, newName)]
    else lines
  }

  lemma RenameKeepsNumbering(lines: seq<string>, cityId: int, newName: string)
    requires WellNumbered(lines)
    ensures WellNumbered(UpdateCityName(lines, cityId, newName))
  {
    var r := UpdateCityName(lines, cityId, newName);
    forall i | 0 <= i < |r|
      ensures ParseRecord(r[i]).Some? && ParseRecord(r[i]).value.0 == i + 1
    {
      if i != cityId - 1 {
        assert r[i] == lines[i];
      }
    }
  }

  /** The add-city button: a dialog that was not cancelled and holds a
      non-blank name appends `rowCount + 1` and the name as written;
      anything else leaves the file as it is. */
  function AddCity(lines: seq<string>, input: Option<string>): (r: seq<string>)
    ensures input.Some? && !IsBlank(input.value) ==>
              |r| == |lines| + 1 && r[..|lines|] == lines &&
              r[|lines|] == FormatRecord(|lines| + 1, input.value) &&
              ParseRecord(r[|lines|]) == Some((|lines| + 1, Trim(input.value)))
    ensures input.None? || IsBlank(input.value) ==> r == lines
  {
    if input.Some? && !IsBlank(input.value) then
      RecordRoundTrip(|lines| + 1, input.value);
      lines + [FormatRecord(|lines| + 1, input.value)]
    else lines
  }

  lemma AddCityKeepsNumbering(lines: seq<string>, input: Option<string>)
    requires WellNumbered(lines)
    ensures WellNumbered(AddCity(lines, input))
  {
    var r := AddCity(lines, input);
    if r != lines {
      forall i | 0 <= i < |r|
        ensures ParseRecord(r[i]).Some? && ParseRecord(r[i]).value.0 == i + 1
      {
        if i < |lines| {
          assert r[i] == r[..|lines|][i] == lines[i];
        }
      }
    }
  }

  /** `getKeyByValue` over the name map visited in id order: the id of the
      first city with this name, or -1 when there is none. */
  method GetKeyByValue(names: seq<string>, value: string) returns (key: int)
    ensures key == -1 <==> value !in names
    ensures key != -1 ==> 1 <= key <= |names| && names[key - 1] == value && value !in names[..key - 1]
  {
    var i := 0;
    while i < |names|
      invariant 0 <= i <= |names|
      invariant value !in names[..i]
    {
      if names[i] == value {
        return i + 1;
      }
      assert names[..i + 1] == names[..i] + [names[i]];
      i := i + 1;
    }
    assert names[..i] == names;
    return -1;
  }

  /** What the add-path button does. */
  datatype PathOutcome =
    | Appended(record: Triple)  // the line `sourceID distance destinationID` is written
    | SameCity                  // "Source and destination cities cannot be the same."
    | BadDistance               // "Invalid distance format. ..."
    | Ignored                   // a dialog was cancelled, or only one city was found

  /** The add-path button. A cancelled dialog is None; the distance text has
      already gone through `Integer.parseInt`, Some(None) standing for its
      NumberFormatException. */
  method AddPath(names: seq<string>, source: Option<string>, destination: Option<string>,
                 distanceInput: Option<Option<int>>) returns (outcome: PathOutcome)
    ensures source.None? || destination.None? || distanceInput.None? ==> outcome == Ignored
    ensures outcome.Appended? <==>
              source.Some? && destination.Some? && distanceInput.Some? && distanceInput.value.Some? &&
              source.value in names && destination.value in names && source.value != destination.value
    ensures outcome.Appended? ==>
              InBounds(outcome.record, |names|) &&
              outcome.record.sourceId != outcome.record.destinationId &&
              names[outcome.record.sourceId - 1] == source.value &&
              names[outcome.record.destinationId - 1] == destination.value &&
              outcome.record.weight == distanceInput.value.value
    ensures outcome.SameCity? <==>
              source.Some? && destination.Some? && distanceInput.Some? &&
              (source.value == destination.value ||
               (source.value !in names && destination.value !in names))
    ensures outcome.BadDistance? <==>
              source.Some? && destination.Some? && distanceInput == Some(None) &&
              source.value in names && destination.value in names && source.value != destination.value
  {
    if source.None? || destination.None? || distanceInput.None? {
      return Ignored;
    }
    var sourceId := GetKeyByValue(names, source.value);
    var destinationId := GetKeyByValue(names, destination.value);
    if sourceId != -1 && destinationId != -1 && sourceId != destinationId {
      match distanceInput.value
      case None =>
        outcome := BadDistance;
      case Some(distance) =>
        outcome := Appended(Triple(sourceId, distance, destinationId));
    } else if sourceId == destinationId {
      outcome := SameCity;
    } else {
      outcome := Ignored;
    }
  }

  /** Records the add-path button appends never join a city to itself, so
      loading them keeps the zero diagonal of the distance matrix. */
  lemma AppendedRecordsKeepZeroDiagonal(graph: Matrix, triples: seq<Triple>)
    requires ZeroDiagonal(graph)
    requires forall t :: 0 <= t < |triples| ==>
               InBounds(triples[t], |graph|) && triples[t].sourceId != triples[t].destinationId
    ensures ZeroDiagonal(ApplyTriples(graph, triples))
  {
    LoadKeepsZeroDiagonal(graph, triples);
  }
}
