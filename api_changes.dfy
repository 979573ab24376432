/** Result assembly of `findApiChanges`: one record per API definition file
    whose declared paths some changed file matches, in catalog order. */
module ApiChanges {
  import opened Wrappers
  import opened JsValues
  import opened ApiCatalog
  import opened IntegrationIds
  import opened Resolution

  /** Which script assembles the records: the standalone script attaches the
      integration id it looks up in its mappings, the GitHub Action does
      not. */
  datatype Variant = Standalone(mappings: map<string, string>) | Action

  /** One element of `results`. */
  datatype ApiChange =
    | ScriptChange(apiId: JsValue, rootFile: JsValue, changedFiles: seq<string>, integrationId: JsValue)
    | ActionChange(apiId: JsValue, rootFile: JsValue, changedFiles: seq<string>)

  /** Reads and decodes an API definition file (`readFileSync` followed by
      the INI decoder). */
  type Reader = string -> Decoded

  /** `rootFiles.length > 0 ? rootFiles[0] : null`. */
  function RootFile(rootFiles: seq<JsValue>): JsValue {
    if |rootFiles| > 0 then rootFiles[0] else Null
  }

  /** `integrationMappings.get(apiId) || null`: a `Map` keyed by strings only
      answers a string id. */
  function IntegrationId(mappings: map<string, string>, apiId: JsValue): JsValue {
    Or(if apiId.Str? && apiId.s in mappings then Str(mappings[apiId.s]) else Undefined, Null)
  }

  /** The record pushed for an API definition and its matched files. */
  function Record(variant: Variant, data: ApiData, files: seq<string>): ApiChange {
    match variant
    case Standalone(mappings) =>
      ScriptChange(data.apiId, RootFile(data.rootFiles), files, IntegrationId(mappings, data.apiId))
    case Action => ActionChange(data.apiId, RootFile(data.rootFiles), files)
  }

  /** What one API definition file contributes: nothing when it is skipped or
      when no changed file matches, otherwise its record. */
  function FileChanges(variant: Variant, changed: seq<string>, apiFile: string, read: Reader,
                       parseJson: JsonParser, resolve: Resolver): Outcome<seq<ApiChange>>
  {
    match ParseApiFile(read(apiFile), parseJson)
    case None => Ok([])
    case Some(data) =>
      match ApiChangedFiles(changed, data.filePaths, resolve)
      case Threw => Threw
      case Ok(files) => Ok(if |files| > 0 then [Record(variant, data, files)] else [])
  }

  /** The records of the API definition files in catalog order, or the
      exception that ends the run. */
  function Changes(variant: Variant, changed: seq<string>, apiFiles: seq<string>, read: Reader,
                   parseJson: JsonParser, resolve: Resolver): Outcome<seq<ApiChange>>
    decreases |apiFiles|
  {
    if apiFiles == [] then Ok([])
    else
      Concat(Changes(variant, changed, apiFiles[..|apiFiles| - 1], read, parseJson, resolve),
             FileChanges(variant, changed, apiFiles[|apiFiles| - 1], read, parseJson, resolve))
  }

  /** Records gathered in two steps, raising when either step raises. */
  function Concat(x: Outcome<seq<ApiChange>>, y: Outcome<seq<ApiChange>>): Outcome<seq<ApiChange>> {
    if x.Threw? || y.Threw? then Threw else Ok(x.value + y.value)
  }

  /** Gathering in steps does not depend on how the steps are grouped. */
  lemma ConcatAssociative(x: Outcome<seq<ApiChange>>, y: Outcome<seq<ApiChange>>, z: Outcome<seq<ApiChange>>)
    ensures Concat(Concat(x, y), z) == Concat(x, Concat(y, z))
  {
    if x.Ok? && y.Ok? && z.Ok? {
      assert (x.value + y.value) + z.value == x.value + (y.value + z.value);
    }
  }

  /** A record as the source builds it from the definition parsed from
      `apiFile`: its id, its first root file or null, the changed files that
      match its declared paths, none of which is missing, and for the
      standalone script the integration id. */
  predicate RecordOf(variant: Variant, changed: seq<string>, apiFile: string, read: Reader,
                     parseJson: JsonParser, resolve: Resolver, r: ApiChange)
  {
    var parsed := ParseApiFile(read(apiFile), parseJson);
    && parsed.Some?
    && r.apiId == parsed.value.apiId
    && r.rootFile == (if parsed.value.rootFiles == [] then Null else parsed.value.rootFiles[0])
    && r.changedFiles == MatchedFiles(changed, parsed.value.filePaths, Comparer(resolve))
    && r.changedFiles != []
    && (r.ScriptChange? <==> variant.Standalone?)
    && (variant.Standalone? ==> r.integrationId == IntegrationId(variant.mappings, parsed.value.apiId))
  }

  /** One more API definition file adds its own records at the end. */
  lemma ChangesSnoc(variant: Variant, changed: seq<string>, apiFiles: seq<string>, apiFile: string,
                    read: Reader, parseJson: JsonParser, resolve: Resolver)
    ensures Changes(variant, changed, apiFiles + [apiFile], read, parseJson, resolve) ==
      Concat(Changes(variant, changed, apiFiles, read, parseJson, resolve),
             FileChanges(variant, changed, apiFile, read, parseJson, resolve))
  {
    assert (apiFiles + [apiFile])[..|apiFiles|] == apiFiles;
  }

  /** Appending API definition files appends their records, so records come
      in catalog order; the run raises when either part does. */
  lemma {:induction false} ChangesAppend(variant: Variant, changed: seq<string>, a: seq<string>, b: seq<string>,
                                         read: Reader, parseJson: JsonParser, resolve: Resolver)
    ensures Changes(variant, changed, a + b, read, parseJson, resolve) ==
      Concat(Changes(variant, changed, a, read, parseJson, resolve), Changes(variant, changed, b, read, parseJson, resolve))
    decreases |b|
  {
    if b == [] {
      assert a + b == a;
      var ra := Changes(variant, changed, a, read, parseJson, resolve);
      if ra.Ok? {
        assert ra.value + [] == ra.value;
      }
    } else {
      var b', last := b[..|b| - 1], b[|b| - 1];
      assert b == b' + [last];
      assert a + b == (a + b') + [last];
      ChangesAppend(variant, changed, a, b', read, parseJson, resolve);
      ChangesSnoc(variant, changed, a + b', last, read, parseJson, resolve);
      ChangesSnoc(variant, changed, b', last, read, parseJson, resolve);
      ConcatAssociative(Changes(variant, changed, a, read, parseJson, resolve),
                        Changes(variant, changed, b', read, parseJson, resolve),
                        FileChanges(variant, changed, last, read, parseJson, resolve));
    }
  }

  /** A file raises exactly when it parses and one of its declared paths
      makes a comparison raise. */
  lemma FileChangesThrows(variant: Variant, changed: seq<string>, apiFile: string, read: Reader,
                          parseJson: JsonParser, resolve: Resolver)
    ensures FileChanges(variant, changed, apiFile, read, parseJson, resolve).Threw? <==>
      var parsed := ParseApiFile(read(apiFile), parseJson);
      parsed.Some? && AnyThrows(changed, parsed.value.filePaths, Comparer(resolve))
  {
  }

  /** A file that does not raise yields at most one record, and one exactly
      when it parses and a changed file matches one of its declared paths. */
  lemma FileChangesRecord(variant: Variant, changed: seq<string>, apiFile: string, read: Reader,
                          parseJson: JsonParser, resolve: Resolver)
    requires FileChanges(variant, changed, apiFile, read, parseJson, resolve).Ok?
    ensures |FileChanges(variant, changed, apiFile, read, parseJson, resolve).value| <= 1
    ensures FileChanges(variant, changed, apiFile, read, parseJson, resolve).value != [] <==>
      var parsed := ParseApiFile(read(apiFile), parseJson);
      parsed.Some? && exists c :: c in changed && Matches(c, parsed.value.filePaths, Comparer(resolve))
    ensures forall r :: r in FileChanges(variant, changed, apiFile, read, parseJson, resolve).value ==>
      RecordOf(variant, changed, apiFile, read, parseJson, resolve, r)
  {
    var parsed := ParseApiFile(read(apiFile), parseJson);
    if parsed.Some? {
      var files := MatchedFiles(changed, parsed.value.filePaths, Comparer(resolve));
      if files != [] {
        MatchedFilesMembers(changed, parsed.value.filePaths, Comparer(resolve), files[0]);
      }
      forall c | c in changed && Matches(c, parsed.value.filePaths, Comparer(resolve))
        ensures files != []
      {
        MatchedFilesMembers(changed, parsed.value.filePaths, Comparer(resolve), c);
      }
    }
  }

  /** With no changed files nothing matches, so no record is built and
      nothing raises. */
  lemma {:induction false} NoChangedFilesNoChanges(variant: Variant, apiFiles: seq<string>, read: Reader,
                                                   parseJson: JsonParser, resolve: Resolver)
    ensures Changes(variant, [], apiFiles, read, parseJson, resolve) == Ok([])
    decreases |apiFiles|
  {
    if apiFiles != [] {
      NoChangedFilesNoChanges(variant, apiFiles[..|apiFiles| - 1], read, parseJson, resolve);
      var parsed := ParseApiFile(read(apiFiles[|apiFiles| - 1]), parseJson);
      if parsed.Some? {
        NothingMatchesNoChangedFiles(parsed.value.filePaths, resolve);
      }
      assert FileChanges(variant, [], apiFiles[|apiFiles| - 1], read, parseJson, resolve) == Ok([]);
      var none: seq<ApiChange> := [];
      assert none + none == none;
    }
  }

  /** The run raises exactly when some parsed definition declares a
      non-string path that some changed file is compared with and does not
      end with. */
  lemma {:induction false} ChangesThrows(variant: Variant, changed: seq<string>, apiFiles: seq<string>, read: Reader,
                                         parseJson: JsonParser, resolve: Resolver)
    ensures Changes(variant, changed, apiFiles, read, parseJson, resolve).Threw? <==>
      exists k :: 0 <= k < |apiFiles| && ParseApiFile(read(apiFiles[k]), parseJson).Some? &&
        AnyThrows(changed, ParseApiFile(read(apiFiles[k]), parseJson).value.filePaths, Comparer(resolve))
    decreases |apiFiles|
  {
    if apiFiles != [] {
      var prefix := apiFiles[..|apiFiles| - 1];
      ChangesThrows(variant, changed, prefix, read, parseJson, resolve);
      FileChangesThrows(variant, changed, apiFiles[|apiFiles| - 1], read, parseJson, resolve);
      assert forall k :: 0 <= k < |prefix| ==> prefix[k] == apiFiles[k];
    }
  }

  /** Every record comes from one of the API definition files, as
      `RecordOf` describes, and no file yields more than one. */
  lemma {:induction false} ChangesRecords(variant: Variant, changed: seq<string>, apiFiles: seq<string>, read: Reader,
                                          parseJson: JsonParser, resolve: Resolver)
    requires Changes(variant, changed, apiFiles, read, parseJson, resolve).Ok?
    ensures |Changes(variant, changed, apiFiles, read, parseJson, resolve).value| <= |apiFiles|
    ensures forall i :: 0 <= i < |Changes(variant, changed, apiFiles, read, parseJson, resolve).value| ==>
      exists k :: 0 <= k < |apiFiles| &&
        RecordOf(variant, changed, apiFiles[k], read, parseJson, resolve,
                 Changes(variant, changed, apiFiles, read, parseJson, resolve).value[i])
    decreases |apiFiles|
  {
    if apiFiles != [] {
      var prefix := apiFiles[..|apiFiles| - 1];
      var last := apiFiles[|apiFiles| - 1];
      ChangesRecords(variant, changed, prefix, read, parseJson, resolve);
      FileChangesRecord(variant, changed, last, read, parseJson, resolve);
      var rs := Changes(variant, changed, prefix, read, parseJson, resolve).value;
      var all := Changes(variant, changed, apiFiles, read, parseJson, resolve).value;
      forall i | 0 <= i < |all|
        ensures exists k :: 0 <= k < |apiFiles| && RecordOf(variant, changed, apiFiles[k], read, parseJson, resolve, all[i])
      {
        if i < |rs| {
          var k :| 0 <= k < |prefix| && RecordOf(variant, changed, prefix[k], read, parseJson, resolve, rs[i]);
          assert apiFiles[k] == prefix[k];
        } else {
          assert all[i] in FileChanges(variant, changed, last, read, parseJson, resolve).value;
        }
      }
    }
  }

  /** The run yields some record exactly when some parsed definition has a
      declared path that one of the changed files matches. */
  lemma {:induction false} ChangesNonEmpty(variant: Variant, changed: seq<string>, apiFiles: seq<string>, read: Reader,
                                           parseJson: JsonParser, resolve: Resolver)
    requires Changes(variant, changed, apiFiles, read, parseJson, resolve).Ok?
    ensures Changes(variant, changed, apiFiles, read, parseJson, resolve).value != [] <==>
      exists k, c :: 0 <= k < |apiFiles| && ParseApiFile(read(apiFiles[k]), parseJson).Some? &&
        c in changed && Matches(c, ParseApiFile(read(apiFiles[k]), parseJson).value.filePaths, Comparer(resolve))
    decreases |apiFiles|
  {
    if apiFiles != [] {
      var prefix := apiFiles[..|apiFiles| - 1];
      var last := apiFiles[|apiFiles| - 1];
      ChangesNonEmpty(variant, changed, prefix, read, parseJson, resolve);
      FileChangesRecord(variant, changed, last, read, parseJson, resolve);
      assert forall k :: 0 <= k < |prefix| ==> prefix[k] == apiFiles[k];
    }
  }

  /** The integration id of a record built from mappings the loader read is
      the mapped string itself, or null when the id is not a mapped string:
      the loader never stores an empty value, so `|| null` only replaces a
      missing one. */
  lemma IntegrationIdOfLoaded(source: CsvSource, apiId: JsValue)
    ensures IntegrationId(IntegrationMappings(source), apiId) ==
      if apiId.Str? && apiId.s in IntegrationMappings(source) then Str(IntegrationMappings(source)[apiId.s]) else Null
  {
    IntegrationMappingsNonEmpty(source);
  }

  /** The outer loop of `findApiChanges` over the API definition files, after
      the early return for an empty change list. */
  method CollectChanges(variant: Variant, changed: seq<string>, apiFiles: seq<string>, read: Reader,
                        parseJson: JsonParser, resolve: Resolver)
    returns (r: Outcome<seq<ApiChange>>)
    ensures r == Changes(variant, changed, apiFiles, read, parseJson, resolve)
  {
    if |changed| == 0 {
      NoChangedFilesNoChanges(variant, apiFiles, read, parseJson, resolve);
      return Ok([]);
    }
    var results: seq<ApiChange> := [];
    for k := 0 to |apiFiles|
      invariant Changes(variant, changed, apiFiles[..k], read, parseJson, resolve) == Ok(results)
    {
      var apiFile := apiFiles[k];
      assert apiFiles[..k + 1] == apiFiles[..k] + [apiFile];
      ChangesSnoc(variant, changed, apiFiles[..k], apiFile, read, parseJson, resolve);
      var more := CollectFileChanges(variant, changed, apiFile, read, parseJson, resolve);
      if more.Threw? {
        assert apiFiles == apiFiles[..k + 1] + apiFiles[k + 1..];
        ChangesAppend(variant, changed, apiFiles[..k + 1], apiFiles[k + 1..], read, parseJson, resolve);
        return Threw;
      }
      results := results + more.value;
    }
    assert apiFiles[..|apiFiles|] == apiFiles;
    return Ok(results);
  }

  /** The body of the outer loop for one API definition file: skip it when
      it does not parse, otherwise match the changed files against its
      declared paths and build its record when some matched. */
  method CollectFileChanges(variant: Variant, changed: seq<string>, apiFile: string, read: Reader,
                            parseJson: JsonParser, resolve: Resolver)
    returns (r: Outcome<seq<ApiChange>>)
    ensures r == FileChanges(variant, changed, apiFile, read, parseJson, resolve)
  {
    var apiData := ParseApiFile(read(apiFile), parseJson);
    if apiData.None? {
      return Ok([]);
    }
    var matched := MatchChangedFiles(changed, apiData.value.filePaths, resolve);
    if matched.Threw? {
      return Threw;
    }
    var apiChangedFiles := matched.value;
    if |apiChangedFiles| > 0 {
      return Ok([Record(variant, apiData.value, apiChangedFiles)]);
    }
    return Ok([]);
  }
}
