/** The integration-id side table: `loadIntegrationMappings` turns the text
    of `integration-ids.csv` into a map from API id to integration id. */
module IntegrationIds {
  import opened Wrappers
  import opened JsStrings

  /** The state of the side table on disk: absent, present but unreadable,
      or readable with the given text. */
  datatype CsvSource = Missing | Unreadable | Content(text: string)

  /** The lines after the first one, which is always taken for a header;
      the whole text is trimmed before it is split into lines. */
  function DataLines(text: string): seq<string> {
    Split(Trim(text), '\n')[1..]
  }

  /** The pair one data line contributes, if any: a non-blank line split on
      `,`, its first two columns trimmed, and both of them non-empty (an
      absent second column is `undefined`, which is as falsy as `""`). */
  function Row(line: string): Option<(string, string)> {
    if Trim(line) == "" then None
    else
      var cols := Split(line, ',');
      var apiId := Trim(cols[0]);
      var integrationId := if |cols| > 1 then Trim(cols[1]) else "";
      if apiId != "" && integrationId != "" then Some((apiId, integrationId)) else None
  }

  /** A pair comes only from a line with a comma, and both of its parts are
      non-empty, free of commas and already trimmed. */
  lemma RowFields(line: string)
    ensures Row(line).Some? ==> Row(line).value.0 != "" && Row(line).value.1 != ""
    ensures Row(line).Some? ==> ',' !in Row(line).value.0 && ',' !in Row(line).value.1
    ensures Row(line).Some? ==>
      Trim(Row(line).value.0) == Row(line).value.0 && Trim(Row(line).value.1) == Row(line).value.1
    ensures Row(line).Some? ==> ',' in line
  {
    if Row(line).Some? {
      RowSplit(line);
      var cols := Split(line, ',');
      SplitJoinsBack(line, ',');
      TrimIdempotent(cols[0]);
      TrimIdempotent(cols[1]);
    }
  }

  /** A line that yields a row has at least two columns, and the row is its
      first two, trimmed. */
  lemma RowSplit(line: string)
    ensures Row(line).Some? ==> ',' in line && |Split(line, ',')| > 1
    ensures Row(line).Some? ==> Row(line).value == (Trim(Split(line, ',')[0]), Trim(Split(line, ',')[1]))
  {
  }

  /** A line is stored exactly when it has a second column and its first two
      columns are non-empty once trimmed, and then the row is those two
      (so `apiX, 999` and `a,b,extra` are stored); the blank-line test only
      anticipates this. */
  lemma RowColumns(line: string)
    ensures Row(line) ==
      var cols := Split(line, ',');
      if |cols| > 1 && Trim(cols[0]) != "" && Trim(cols[1]) != ""
      then Some((Trim(cols[0]), Trim(cols[1]))) else None
  {
    var cols := Split(line, ',');
    if Trim(line) == "" {
      TrimEmpty(line);
      SplitFirstPrefix(line, ',');
      assert forall i :: 0 <= i < |cols[0]| ==> cols[0][i] == line[i];
      TrimEmpty(cols[0]);
    }
  }

  /** The first column of a split is a prefix of the line. */
  lemma SplitFirstPrefix(s: string, sep: char)
    ensures |Split(s, sep)[0]| <= |s| && Split(s, sep)[0] == s[..|Split(s, sep)[0]|]
  {
  }

  /** Trimming twice trims no more than trimming once. */
  lemma TrimIdempotent(s: string)
    ensures Trim(Trim(s)) == Trim(s)
  {
    var r := Trim(s);
    TrimUnchanged(r);
  }

  /** A string that neither starts nor ends with white space trims to itself. */
  lemma TrimUnchanged(s: string)
    requires s == [] || (!IsWhiteSpace(s[0]) && !IsWhiteSpace(s[|s| - 1]))
    ensures Trim(s) == s
  {
  }

  /** The row written as `apiId,integrationId` reads back as that pair. */
  lemma RowRoundTrip(apiId: string, integrationId: string)
    requires CleanPair(apiId, integrationId)
    ensures Row(apiId + "," + integrationId) == Some((apiId, integrationId))
  {
    var line := apiId + "," + integrationId;
    assert Join([apiId, integrationId], ',') == line;
    SplitJoin([apiId, integrationId], ',');
    TrimUnchanged(apiId);
    TrimUnchanged(integrationId);
    TrimEmpty(line);
    assert !IsWhiteSpace(line[0]);
  }

  /** The pairs the lines contribute, line by line. */
  function Rows(lines: seq<string>): (rows: seq<Option<(string, string)>>)
    ensures |rows| == |lines|
    ensures forall i :: 0 <= i < |lines| ==> rows[i] == Row(lines[i])
  {
    seq(|lines|, i requires 0 <= i < |lines| => Row(lines[i]))
  }

  /** One more line adds its row. */
  lemma RowsSnoc(lines: seq<string>, line: string)
    ensures Rows(lines + [line]) == Rows(lines) + [Row(line)]
  {
  }

  /** The row defines `apiId`. */
  predicate Defines(row: Option<(string, string)>, apiId: string) {
    row.Some? && row.value.0 == apiId
  }

  /** The map a sequence of rows builds, later rows overwriting earlier ones. */
  function Mappings(rows: seq<Option<(string, string)>>): map<string, string>
    decreases |rows|
  {
    if rows == [] then map[]
    else
      var m := Mappings(rows[..|rows| - 1]);
      match rows[|rows| - 1]
      case None => m
      case Some((apiId, integrationId)) => m[apiId := integrationId]
  }

  /** One more row updates the map with its pair, if it has one. */
  lemma MappingsSnoc(rows: seq<Option<(string, string)>>, row: Option<(string, string)>)
    ensures Mappings(rows + [row]) ==
      if row.None? then Mappings(rows) else Mappings(rows)[row.value.0 := row.value.1]
  {
    assert (rows + [row])[..|rows|] == rows;
  }

  /** What `loadIntegrationMappings` returns for the side table: nothing when
      it is absent or unreadable (the error is caught), else the map its data
      lines build. */
  function IntegrationMappings(source: CsvSource): map<string, string> {
    match source
    case Missing => map[]
    case Unreadable => map[]
    case Content(text) => Mappings(Rows(DataLines(text)))
  }

  /** `loadIntegrationMappings`: an absent or unreadable table maps
      nothing; otherwise the text is trimmed, split into lines, and every line
      after the first is added to the map. */
  method LoadIntegrationMappings(source: CsvSource) returns (mappings: map<string, string>)
    ensures mappings == IntegrationMappings(source)
  {
    if !source.Content? {
      return map[];
    }
    var lines := Split(Trim(source.text), '\n');
    mappings := AddRows(lines[1..]);
  }

  /** The loop of `loadIntegrationMappings`: each non-blank line whose first
      two columns are non-empty once trimmed sets its id's entry. */
  method AddRows(dataLines: seq<string>) returns (mappings: map<string, string>)
    ensures mappings == Mappings(Rows(dataLines))
  {
    mappings := map[];
    for i := 0 to |dataLines|
      invariant mappings == Mappings(Rows(dataLines[..i]))
    {
      var line := dataLines[i];
      assert dataLines[..i + 1] == dataLines[..i] + [line];
      RowsSnoc(dataLines[..i], line);
      MappingsSnoc(Rows(dataLines[..i]), Row(line));
      if Trim(line) != "" {
        var cols := Split(line, ',');
        var apiId := Trim(cols[0]);
        var integrationId := if |cols| > 1 then Trim(cols[1]) else "";
        if apiId != "" && integrationId != "" {
          mappings := mappings[apiId := integrationId];
        }
      }
    }
    assert dataLines[..|dataLines|] == dataLines;
  }

  /** An id is mapped exactly when some data line defines it. */
  lemma {:induction false} MappingsKeys(lines: seq<Option<(string, string)>>, apiId: string)
    ensures apiId in Mappings(lines) <==> exists i :: 0 <= i < |lines| && Defines(lines[i], apiId)
    decreases |lines|
  {
    if lines != [] {
      var front := lines[..|lines| - 1];
      MappingsKeys(front, apiId);
      if exists i :: 0 <= i < |front| && Defines(front[i], apiId) {
        var i :| 0 <= i < |front| && Defines(front[i], apiId);
        assert lines[i] == front[i];
      }
      if exists i :: 0 <= i < |lines| && Defines(lines[i], apiId) {
        var i :| 0 <= i < |lines| && Defines(lines[i], apiId);
        if i < |front| { assert front[i] == lines[i]; }
      }
    }
  }

  /** Last write wins: an id maps to a value exactly when some data line
      defines that pair and no later line defines the id again. */
  lemma {:induction false} MappingsLastWins(lines: seq<Option<(string, string)>>, apiId: string, integrationId: string)
    ensures (apiId in Mappings(lines) && Mappings(lines)[apiId] == integrationId) <==>
      exists i :: 0 <= i < |lines| && lines[i] == Some((apiId, integrationId)) &&
        forall j :: i < j < |lines| ==> !Defines(lines[j], apiId)
    decreases |lines|
  {
    if lines != [] {
      var n := |lines| - 1;
      var front := lines[..n];
      MappingsLastWins(front, apiId, integrationId);
      var m := Mappings(lines);
      if Defines(lines[n], apiId) {
        if apiId in m && m[apiId] == integrationId {
          assert lines[n] == Some((apiId, integrationId));
        }
      } else {
        assert apiId in m <==> apiId in Mappings(front);
        assert apiId in m ==> m[apiId] == Mappings(front)[apiId];
        if apiId in m && m[apiId] == integrationId {
          var i :| 0 <= i < |front| && front[i] == Some((apiId, integrationId)) &&
            forall j :: i < j < |front| ==> !Defines(front[j], apiId);
          assert lines[i] == front[i];
          assert forall j :: i < j < |lines| ==> !Defines(lines[j], apiId) by {
            forall j | i < j < |lines| ensures !Defines(lines[j], apiId) {
              if j < n { assert lines[j] == front[j]; }
            }
          }
        }
        if exists i :: 0 <= i < |lines| && lines[i] == Some((apiId, integrationId)) &&
            forall j :: i < j < |lines| ==> !Defines(lines[j], apiId) {
          var i :| 0 <= i < |lines| && lines[i] == Some((apiId, integrationId)) &&
            forall j :: i < j < |lines| ==> !Defines(lines[j], apiId);
          assert i < n;
          assert front[i] == lines[i];
          assert forall j :: i < j < |front| ==> !Defines(front[j], apiId) by {
            forall j | i < j < |front| ensures !Defines(front[j], apiId) {
              assert front[j] == lines[j];
            }
          }
        }
      }
    }
  }

  /** Every mapping has a non-empty id and a non-empty integration id. */
  lemma {:induction false} MappingsNonEmpty(lines: seq<Option<(string, string)>>)
    requires forall i :: 0 <= i < |lines| && lines[i].Some? ==> lines[i].value.0 != "" && lines[i].value.1 != ""
    ensures forall apiId :: apiId in Mappings(lines) ==> apiId != "" && Mappings(lines)[apiId] != ""
    decreases |lines|
  {
    if lines != [] {
      MappingsNonEmpty(lines[..|lines| - 1]);
    }
  }

  /** Every id the loader maps is non-empty and maps to a non-empty
      integration id. */
  lemma IntegrationMappingsNonEmpty(source: CsvSource)
    ensures forall apiId :: apiId in IntegrationMappings(source) ==>
      apiId != "" && IntegrationMappings(source)[apiId] != ""
  {
    if source.Content? {
      var lines := DataLines(source.text);
      forall i | 0 <= i < |lines| && Row(lines[i]).Some?
        ensures Row(lines[i]).value.0 != "" && Row(lines[i]).value.1 != ""
      {
        RowFields(lines[i]);
      }
      MappingsNonEmpty(Rows(DataLines(source.text)));
    }
  }

  /** The first line never contributes, so a table of a single line, header
      or not, maps nothing. */
  lemma SingleLineMapsNothing(text: string)
    requires '\n' !in Trim(text)
    ensures IntegrationMappings(Content(text)) == map[]
  {
  }

  /** The last character of a join is the last character of its last piece. */
  lemma {:induction false} JoinLast(parts: seq<string>, sep: char)
    requires |parts| >= 1 && parts[|parts| - 1] != []
    ensures |Join(parts, sep)| >= 1
    ensures Join(parts, sep)[|Join(parts, sep)| - 1] == parts[|parts| - 1][|parts[|parts| - 1]| - 1]
    decreases |parts|
  {
    if |parts| > 1 {
      JoinLast(parts[1..], sep);
    }
  }

  /** The lines of a table written as a header line and data lines joined by
      newlines, with any trailing white space, are exactly the data lines. */
  lemma HeaderThenLines(header: string, lines: seq<string>, trailing: string)
    requires header != [] && !IsWhiteSpace(header[0]) && '\n' !in header
    requires |lines| >= 1 && forall i :: 0 <= i < |lines| ==> '\n' !in lines[i]
    requires lines[|lines| - 1] != [] && !IsWhiteSpace(lines[|lines| - 1][|lines[|lines| - 1]| - 1])
    requires forall i :: 0 <= i < |trailing| ==> IsWhiteSpace(trailing[i])
    ensures DataLines(Join([header] + lines, '\n') + trailing) == lines
  {
    var parts := [header] + lines;
    var body := Join(parts, '\n');
    var text := body + trailing;
    assert parts[1..] == lines;
    assert body == header + "\n" + Join(lines, '\n');
    JoinLast(parts, '\n');
    assert text[0] == header[0];
    assert LeadingWhiteSpace(text) == 0;
    var r := Trim(text);
    assert !IsWhiteSpace(text[|body| - 1]);
    assert |r| >= |body|;
    assert r == body;
    forall i | 0 <= i < |parts| ensures '\n' !in parts[i] {
      if i > 0 { assert parts[i] == lines[i - 1]; }
    }
    SplitJoin(parts, '\n');
  }

  /** A well-formed `id,integration-id` pair. */
  predicate CleanPair(apiId: string, integrationId: string) {
    && apiId != "" && integrationId != ""
    && ',' !in apiId && ',' !in integrationId
    && '\n' !in apiId && '\n' !in integrationId
    && !IsWhiteSpace(apiId[0]) && !IsWhiteSpace(apiId[|apiId| - 1])
    && !IsWhiteSpace(integrationId[0]) && !IsWhiteSpace(integrationId[|integrationId| - 1])
  }

  /** The shape of the project's own smoke test: a header and two rows, each
      line ended by a newline, map the two ids, the second row winning when
      both name the same id. */
  lemma HeaderAndTwoRows(header: string, id1: string, value1: string, id2: string, value2: string)
    requires header != [] && !IsWhiteSpace(header[0]) && '\n' !in header
    requires CleanPair(id1, value1) && CleanPair(id2, value2)
    ensures IntegrationMappings(Content(Join([header, id1 + "," + value1, id2 + "," + value2], '\n') + "\n")) ==
      map[id1 := value1][id2 := value2]
  {
    var row1, row2 := id1 + "," + value1, id2 + "," + value2;
    assert [header, row1, row2] == [header] + [row1, row2];
    assert '\n' !in row1 && '\n' !in row2;
    assert row2[|row2| - 1] == value2[|value2| - 1];
    HeaderThenLines(header, [row1, row2], "\n");
    RowRoundTrip(id1, value1);
    RowRoundTrip(id2, value2);
    TwoRows(row1, row2);
  }

  /** Two data lines that each hold a pair map both, in order. */
  lemma TwoRows(row1: string, row2: string)
    ensures Row(row1).Some? && Row(row2).Some? ==>
      var p1, p2 := Row(row1).value, Row(row2).value;
      Mappings(Rows([row1, row2])) == map[p1.0 := p1.1][p2.0 := p2.1]
  {
    if Row(row1).Some? && Row(row2).Some? {
      var p1, p2 := Row(row1).value, Row(row2).value;
      assert Rows([row1, row2]) == [Some(p1), Some(p2)];
      MappingsOfTwo(p1, p2);
    }
  }

  /** Two rows set their pairs in order. */
  lemma MappingsOfTwo(p1: (string, string), p2: (string, string))
    ensures Mappings([Some(p1), Some(p2)]) == map[p1.0 := p1.1][p2.0 := p2.1]
  {
    MappingsSnoc([], Some(p1));
    assert [] + [Some(p1)] == [Some(p1)];
    MappingsSnoc([Some(p1)], Some(p2));
    assert [Some(p1)] + [Some(p2)] == [Some(p1), Some(p2)];
  }
}
