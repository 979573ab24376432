/** `findApiChanges` of the standalone script: the API definition files of
    `.postman`, the integration ids of `integration-ids.csv`, and the records
    of the APIs whose declared files changed, each with its integration id. */
module StandaloneScript {
  import opened Wrappers
  import opened JsValues
  import opened ApiCatalog
  import opened IntegrationIds
  import opened Resolution
  import opened ApiChanges

  /** The directory the script reads its API definition files from. */
  const PostmanDir: string := ".postman"

  /** What the script computes from the changed files (the output of
      `git diff`), the listing of `.postman`, the CSV file and the
      definition files; `Threw` when it stops with an exception. */
  function ScriptResults(changed: seq<string>, listing: Listing, csv: CsvSource, read: Reader,
                         parseJson: JsonParser, join: (string, string) -> string, resolve: Resolver)
    : Outcome<seq<ApiChange>>
  {
    match ApiFiles(PostmanDir, listing, join)
    case Threw => Threw
    case Ok(apiFiles) => Changes(Standalone(IntegrationMappings(csv)), changed, apiFiles, read, parseJson, resolve)
  }

  /** `findApiChanges`: lists the API definition files, loads the mappings
      and runs the matching loop. */
  method FindApiChanges(changed: seq<string>, listing: Listing, csv: CsvSource, read: Reader,
                        parseJson: JsonParser, join: (string, string) -> string, resolve: Resolver)
    returns (r: Outcome<seq<ApiChange>>)
    ensures r == ScriptResults(changed, listing, csv, read, parseJson, join, resolve)
  {
    var apiFiles := GetApiFiles(PostmanDir, listing, join);
    if apiFiles.Threw? {
      return Threw;
    }
    var integrationMappings := LoadIntegrationMappings(csv);
    r := CollectChanges(Standalone(integrationMappings), changed, apiFiles.value, read, parseJson, resolve);
  }

  /** An empty change list yields no records, provided listing the API
      definition files, which comes first, does not raise. */
  lemma NoChangedFiles(listing: Listing, csv: CsvSource, read: Reader,
                       parseJson: JsonParser, join: (string, string) -> string, resolve: Resolver)
    ensures ScriptResults([], listing, csv, read, parseJson, join, resolve) ==
      if ApiFiles(PostmanDir, listing, join).Threw? then Threw else Ok([])
  {
    if ApiFiles(PostmanDir, listing, join).Ok? {
      NoChangedFilesNoChanges(Standalone(IntegrationMappings(csv)), ApiFiles(PostmanDir, listing, join).value,
                              read, parseJson, resolve);
    }
  }

  /** Every record of the script carries an integration id: the value the
      CSV file maps its id to, or null when its id is not a mapped string. */
  lemma ResultIntegrationIds(changed: seq<string>, listing: Listing, csv: CsvSource, read: Reader,
                             parseJson: JsonParser, join: (string, string) -> string, resolve: Resolver)
    requires ScriptResults(changed, listing, csv, read, parseJson, join, resolve).Ok?
    ensures forall r :: r in ScriptResults(changed, listing, csv, read, parseJson, join, resolve).value ==>
      var mappings := IntegrationMappings(csv);
      && r.ScriptChange?
      && r.integrationId == if r.apiId.Str? && r.apiId.s in mappings then Str(mappings[r.apiId.s]) else Null
  {
    var apiFiles := ApiFiles(PostmanDir, listing, join).value;
    var variant := Standalone(IntegrationMappings(csv));
    ChangesRecords(variant, changed, apiFiles, read, parseJson, resolve);
    var results := Changes(variant, changed, apiFiles, read, parseJson, resolve).value;
    forall r | r in results
      ensures r.ScriptChange?
      ensures r.integrationId == IntegrationId(IntegrationMappings(csv), r.apiId)
    {
      var i :| 0 <= i < |results| && results[i] == r;
      var k :| 0 <= k < |apiFiles| && RecordOf(variant, changed, apiFiles[k], read, parseJson, resolve, results[i]);
    }
    forall r | r in results
      ensures IntegrationId(IntegrationMappings(csv), r.apiId) ==
        var mappings := IntegrationMappings(csv);
        if r.apiId.Str? && r.apiId.s in mappings then Str(mappings[r.apiId.s]) else Null
    {
      IntegrationIdOfLoaded(csv, r.apiId);
    }
  }
}
