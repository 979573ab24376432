/** The GitHub Action: `findApiChanges(postmanDir, baseRef)` and the outputs
    `run` sets from it. */
module GitHubAction {
  import opened Wrappers
  import opened JsValues
  import opened ApiCatalog
  import opened Resolution
  import opened ApiChanges

  const DefaultPostmanDir: string := ".postman"
  const DefaultBaseRef: string := "HEAD~1"

  /** `core.getInput(name) || fallback`: an empty input takes the default. */
  function Defaulted(input: string, fallback: string): (r: string)
    ensures r == input || r == fallback
    ensures r == input <==> input != "" || fallback == ""
    ensures fallback != "" ==> r != ""
  {
    if input != "" then input else fallback
  }

  /** What `findApiChanges(postmanDir, baseRef)` returns, given the changed
      files `git diff` reports for `baseRef` and the listing of
      `postmanDir`; its records carry no integration id. */
  function ActionResults(postmanDir: string, changed: seq<string>, listing: Listing, read: Reader,
                         parseJson: JsonParser, join: (string, string) -> string, resolve: Resolver)
    : Outcome<seq<ApiChange>>
  {
    match ApiFiles(postmanDir, listing, join)
    case Threw => Threw
    case Ok(apiFiles) => Changes(Action, changed, apiFiles, read, parseJson, resolve)
  }

  /** `findApiChanges(postmanDir, baseRef)`. */
  method FindApiChanges(postmanDir: string, changed: seq<string>, listing: Listing, read: Reader,
                        parseJson: JsonParser, join: (string, string) -> string, resolve: Resolver)
    returns (r: Outcome<seq<ApiChange>>)
    ensures r == ActionResults(postmanDir, changed, listing, read, parseJson, join, resolve)
  {
    var apiFiles := GetApiFiles(postmanDir, listing, join);
    if apiFiles.Threw? {
      return Threw;
    }
    r := CollectChanges(Action, changed, apiFiles.value, read, parseJson, resolve);
  }

  /** The `has-changes` output. */
  function HasChanges(results: seq<ApiChange>): (flag: string)
    ensures flag == "true" <==> results != []
    ensures flag == "false" <==> results == []
  {
    if |results| > 0 then "true" else "false"
  }

  /** What `run` ends with: `setFailed` after an exception, otherwise the
      records set as `api-changes` (before JSON encoding) and the
      `has-changes` flag. */
  datatype RunOutcome = Failed | Outputs(apiChanges: seq<ApiChange>, hasChanges: string)

  /** The outcome of `run` for the two inputs, `git diff` as `diff`, and the
      directory listing as `listDir`. */
  function RunResult(dirInput: string, baseRefInput: string, diff: string -> seq<string>,
                     listDir: string -> Listing, read: Reader, parseJson: JsonParser,
                     join: (string, string) -> string, resolve: Resolver): RunOutcome
  {
    var postmanDir := Defaulted(dirInput, DefaultPostmanDir);
    var baseRef := Defaulted(baseRefInput, DefaultBaseRef);
    match ActionResults(postmanDir, diff(baseRef), listDir(postmanDir), read, parseJson, join, resolve)
    case Threw => Failed
    case Ok(results) => Outputs(results, HasChanges(results))
  }

  /** `run`: reads the inputs with their defaults, finds the changes and
      sets the outputs. */
  method Run(dirInput: string, baseRefInput: string, diff: string -> seq<string>,
             listDir: string -> Listing, read: Reader, parseJson: JsonParser,
             join: (string, string) -> string, resolve: Resolver)
    returns (out: RunOutcome)
    ensures out == RunResult(dirInput, baseRefInput, diff, listDir, read, parseJson, join, resolve)
  {
    var postmanDir := Defaulted(dirInput, DefaultPostmanDir);
    var baseRef := Defaulted(baseRefInput, DefaultBaseRef);
    var changedFiles := diff(baseRef);
    var results := FindApiChanges(postmanDir, changedFiles, listDir(postmanDir), read, parseJson, join, resolve);
    if results.Threw? {
      return Failed;
    }
    return Outputs(results.value, HasChanges(results.value));
  }

  /** An empty change list gives no records, provided listing the directory
      does not raise. */
  lemma NoChangedFiles(postmanDir: string, listing: Listing, read: Reader,
                       parseJson: JsonParser, join: (string, string) -> string, resolve: Resolver)
    ensures ActionResults(postmanDir, [], listing, read, parseJson, join, resolve) ==
      if ApiFiles(postmanDir, listing, join).Threw? then Threw else Ok([])
  {
    if ApiFiles(postmanDir, listing, join).Ok? {
      NoChangedFilesNoChanges(Action, ApiFiles(postmanDir, listing, join).value, read, parseJson, resolve);
    }
  }

  /** Every record of the Action has just the fields `apiId`, `rootFile` and
      `changedFiles`, the last never empty. */
  lemma ActionRecords(postmanDir: string, changed: seq<string>, listing: Listing, read: Reader,
                      parseJson: JsonParser, join: (string, string) -> string, resolve: Resolver)
    requires ActionResults(postmanDir, changed, listing, read, parseJson, join, resolve).Ok?
    ensures forall r :: r in ActionResults(postmanDir, changed, listing, read, parseJson, join, resolve).value ==>
      r.ActionChange? && r.changedFiles != []
  {
    var apiFiles := ApiFiles(postmanDir, listing, join).value;
    ChangesRecords(Action, changed, apiFiles, read, parseJson, resolve);
    var results := Changes(Action, changed, apiFiles, read, parseJson, resolve).value;
    forall r | r in results
      ensures r.ActionChange? && r.changedFiles != []
    {
      var i :| 0 <= i < |results| && results[i] == r;
      var k :| 0 <= k < |apiFiles| && RecordOf(Action, changed, apiFiles[k], read, parseJson, resolve, results[i]);
    }
  }

  /** `has-changes` is `"true"` exactly when some API definition file in the
      directory parses and one of the changed files for the base ref matches
      one of its declared paths. */
  lemma HasChangesMeansMatch(dirInput: string, baseRefInput: string, diff: string -> seq<string>,
                             listDir: string -> Listing, read: Reader, parseJson: JsonParser,
                             join: (string, string) -> string, resolve: Resolver)
    requires RunResult(dirInput, baseRefInput, diff, listDir, read, parseJson, join, resolve).Outputs?
    ensures
      var postmanDir := Defaulted(dirInput, DefaultPostmanDir);
      var changed := diff(Defaulted(baseRefInput, DefaultBaseRef));
      var apiFiles := ApiFiles(postmanDir, listDir(postmanDir), join).value;
      RunResult(dirInput, baseRefInput, diff, listDir, read, parseJson, join, resolve).hasChanges == "true" <==>
        exists k, c :: 0 <= k < |apiFiles| && ParseApiFile(read(apiFiles[k]), parseJson).Some? &&
          c in changed && Matches(c, ParseApiFile(read(apiFiles[k]), parseJson).value.filePaths, Comparer(resolve))
  {
    var postmanDir := Defaulted(dirInput, DefaultPostmanDir);
    var changed := diff(Defaulted(baseRefInput, DefaultBaseRef));
    var apiFiles := ApiFiles(postmanDir, listDir(postmanDir), join).value;
    ChangesNonEmpty(Action, changed, apiFiles, read, parseJson, resolve);
  }
}
