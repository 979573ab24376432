# find-apis-action: change-to-API resolution engine

This project models the core of `find-apis-action`, which answers one question in CI: which API definitions does a commit touch? Two scripts carry near-identical copies of the engine: the standalone `src/find-api-changes.js` and the GitHub Action `action.js`. The engine runs in four steps:

- **Catalog filter.** Scan the `.postman` directory, or the Action's `postman-directory` input. Keep the regular files whose name starts with `api_`. An entry that cannot be stat-ed raises.
- **Definition records.** Parse each catalog file into an `apiId`, the declared file paths and the root files. A declared entry can be a plain string, a JSON string carrying a `path`, or an object with a `path`.
- **Integration ids.** The standalone script only. Load `integration-ids.csv` into a map. The first line is dropped. Each later line is split on `,` and its first two fields are trimmed. A pair is stored when both fields are non-empty, and later rows overwrite earlier ones.
- **Matching loop.** For every API, collect the changed files that match one of its declared paths, once each, in first-seen order. A match is equality, an `endsWith('/' + p)` suffix, or equal `path.resolve` results. An API with at least one matched file yields a record: `apiId`, `rootFile` (first root file or null), `changedFiles` and, in the standalone script, `integrationId`. The Action also sets `has-changes` to `"true"` or `"false"`.

The model is written in Dafny, in these modules:

- `Wrappers`: `Option` and `Outcome`. `Outcome.Threw` is an exception nothing catches until the top-level handler.
- `Seqs`: filtering, first indices and no-duplicates.
- `JsStrings`: JavaScript `trim`, `split`, `startsWith` and `endsWith` on `seq<char>`.
- `JsValues`: the JavaScript values the decoders produce, with `?.`, truthiness, `||` and string conversion.
- `ApiCatalog`: `getApiFiles` and `parseApiFile`.
- `IntegrationIds`: `loadIntegrationMappings`.
- `Resolution`: the match rules and the inner loops.
- `ApiChanges`: the outer loop and the result records.
- `StandaloneScript`: the standalone entry point.
- `GitHubAction`: the Action's `findApiChanges` and `run`.

The three loops (`getApiFiles`, the CSV loader and the nested matching loops) are methods with loop invariants. Each is proved equal to a specification function, and the properties are proved as lemmas about those functions.

The file system, `git`, the INI decoder, `JSON.parse`, `path.join` and `path.resolve` are inputs or function parameters:

- the directory listing is a `Listing`: `NoDirectory` when `existsSync` is false, `Unlistable` when `readdirSync` raises (the path is not a directory, or may not be read), or `Listed(entries)`, where each entry carries its `statSync` outcome;
- the CSV file is a `CsvSource`;
- reading and decoding a definition file is a `string -> Decoded` function, where `DecodeFailed` stands for either call raising;
- `JSON.parse` is a `string -> Option<JsValue>` function, where `None` means it raises.

### Behaviour of the code worth knowing

- **An empty change list does not guarantee an empty result.** `getApiFiles` runs before the early return for an empty change list. A directory `readdirSync` cannot list, or an entry `statSync` cannot stat, raises there, so the run fails even with no changed files. `StandaloneScript.NoChangedFiles` and `GitHubAction.NoChangedFiles` state exactly when the result is empty.
- **Non-string declared paths can end the run.** Only a string declared path can match by the equality and `path.resolve` rules. A non-string one, such as `undefined` from a JSON entry without `path`, can match only by the suffix rule, on its string form, for example `"/undefined"` (`Resolution.NonStringPathExamples`). Against any other changed file, `path.resolve` raises a `TypeError` that ends the whole run (`Resolution.CompareRules`, `ApiChanges.ChangesThrows`).
- **`apiId` need not be a string.** Any truthy `config.id` is accepted as the API's id. Only a string id can find an integration id.
- **Root files need not be strings.** Any array elements are passed through, and a non-array `rootFiles` counts as empty.

## Model

| member | source | states |
|---|---|---|
| JsStrings.Trim | src/find-api-changes.js:45 | the result is the slice of the input that starts after its leading white space; everything after it is white space; and it neither starts nor ends with white space (ECMAScript's WhiteSpace and LineTerminator characters) |
| JsStrings.TrimEmpty | src/find-api-changes.js:51 | `line.trim()` is falsy exactly when the line is all white space |
| JsStrings.Split | src/find-api-changes.js:45 | `split` always yields at least one piece |
| JsStrings.SplitJoinsBack | src/find-api-changes.js:52 | no piece of `s.split(sep)` contains `sep`, and joining the pieces with `sep` gives `s` back |
| JsStrings.SplitJoin | src/find-api-changes.js:52 | splitting a join of separator-free pieces gives the same pieces back |
| JsValues.Or | src/find-api-changes.js:106-107 | `a \|\| b` is one of its operands, and it is truthy exactly when either operand is; a truthy `a` is kept, and a falsy one is replaced by `b` |
| JsValues.NatToDecimal | src/find-api-changes.js:169 | the string form of a number in `'/' + p` is a non-empty run of decimal digits with no leading zero |
| JsValues.NatToDecimalValue | src/find-api-changes.js:169 | that string form reads back to the number |
| JsValues.StringForms | src/find-api-changes.js:169 | in `'/' + p`, a string `p` is itself. A non-negative number is a digit string that reads back to it, and a negative one is `-` before the digits of its magnitude. An empty array is `""`. A one-element array is its element's form, or `""` for `null` and `undefined` |
| JsValues.ArrayStringAppend | src/find-api-changes.js:169 | the string form of the concatenation of two non-empty arrays is their string forms joined by `,` |
| JsStrings.JoinAppend | src/find-api-changes.js:169 | joining two non-empty lists of pieces puts exactly one separator between their joins (the array-to-string join) |
| ApiCatalog.GetApiFiles | src/find-api-changes.js:66-88 | the loop returns `[]` for a missing directory; it raises when the directory cannot be listed or some entry cannot be stat-ed; otherwise it returns `join(dir, name)` of the regular `api_` files, in listing order |
| ApiCatalog.ApiFilesMembers | action.js:62-70 | a path is listed exactly when it is `join(dir, name)` of a regular file entry whose name starts with `api_` |
| ApiCatalog.ApiFilesOrder | action.js:62-70 | the catalog of a listing `a + b` is the catalog of `a` followed by that of `b` (listing order) |
| ApiCatalog.EntryPathCases | src/find-api-changes.js:110-121 | these cases determine the entry's path. A string `JSON.parse` rejects, or one that parses to `null`, stands for itself. A string parsed to any other value stands for that value's `path`, which is `undefined` unless the value is an object. A non-string entry stands for its `path` when that is truthy, and for null otherwise. Null arises only from such a non-string entry or from a parsed `path` that is null |
| ApiCatalog.FilePathsMembers | src/find-api-changes.js:110-122 | a value is declared exactly when it is the normalised form of some entry and is not null |
| ApiCatalog.FilePathsAppend | src/find-api-changes.js:110-122 | normalisation keeps entry order: the entries `a + b` declare those of `a` followed by those of `b` |
| ApiCatalog.PlainStringsDeclared | src/find-api-changes.js:111-117 | a list of strings `JSON.parse` rejects is declared unchanged, in order |
| ApiCatalog.UndefinedPathSurvives | src/find-api-changes.js:113-122 | a JSON object string without `path` declares `undefined`, which the `!== null` filter keeps |
| ApiCatalog.ParseApiFileCases | src/find-api-changes.js:93-133 | the record is null when reading or decoding fails. It is null when `config.id` or `config.relations.apiDefinition` is falsy, or when `files` is truthy but not an array. Otherwise the id is `config.id` and truthy. The declared paths are `[]` for a falsy `files`, else the normalised entries. The root files are `metaData.rootFiles` when that is an array, else `[]` |
| IntegrationIds.RowColumns | src/find-api-changes.js:51-54 | a line is stored exactly when it has a second column and its first two columns are non-empty once trimmed, and the row is then those two trimmed columns, whatever follows them; the `line.trim()` test rejects nothing more |
| IntegrationIds.RowSplit | src/find-api-changes.js:52 | a line yields a row only when it has at least two comma-separated columns; the row is the first two, trimmed |
| IntegrationIds.RowFields | src/find-api-changes.js:51-54 | both fields of a stored row are non-empty, contain no comma and are already trimmed |
| IntegrationIds.RowRoundTrip | src/find-api-changes.js:52-54 | a clean pair written as `id,value` is read back as that pair |
| IntegrationIds.LoadIntegrationMappings | src/find-api-changes.js:34-65 | the map is empty when the file is missing or unreadable. Otherwise it is the rows of the lines after the first of the trimmed text, each stored in turn |
| IntegrationIds.AddRows | src/find-api-changes.js:50-57 | the loop's map equals the rows of the data lines, each stored in turn |
| IntegrationIds.MappingsKeys | src/find-api-changes.js:50-57 | an id is mapped exactly when some row names it |
| IntegrationIds.MappingsLastWins | src/find-api-changes.js:54 | an id maps to a value exactly when some row holds that pair and no later row names the id |
| IntegrationIds.MappingsNonEmpty | src/find-api-changes.js:53 | folding rows with non-empty fields maps only non-empty ids to non-empty values |
| IntegrationIds.IntegrationMappingsNonEmpty | src/find-api-changes.js:50-55 | the loaded map has no empty id and no empty value |
| IntegrationIds.SingleLineMapsNothing | src/find-api-changes.js:45-48 | a file whose trimmed text is one line (the header) maps nothing |
| IntegrationIds.HeaderThenLines | src/find-api-changes.js:45-48 | a header line, data lines and trailing white space give exactly the data lines |
| IntegrationIds.HeaderAndTwoRows | test/test-integration-ids.js:19-22 | a header and two clean rows, each line ended by a newline, map both ids, the second row winning on a shared id |
| Resolution.CompareRules | src/find-api-changes.js:168-170 | a string declared path matches exactly when equality, the `'/' + p` suffix or equal `path.resolve` results hold, and never raises; another declared path matches exactly by the suffix on its string form, and raises otherwise |
| Resolution.NonStringPathExamples | src/find-api-changes.js:168-170 | a declared `undefined` matches exactly the changed files ending in `/undefined`, and an empty array exactly those ending in `/`; the comparison raises against any other changed file |
| Resolution.NothingMatchesNoChangedFiles | src/find-api-changes.js:164-179 | with no changed files an API collects nothing and nothing raises |
| Resolution.MatchedFilesMembers | src/find-api-changes.js:161-179 | a file is collected exactly when it is one of the changed files and matches some declared path |
| Resolution.MatchedFilesNoDuplicates | src/find-api-changes.js:172-176 | no file is collected twice, even when the changed files repeat it |
| Resolution.MatchedFilesOrder | src/find-api-changes.js:164-179 | collected files come in the order of their first occurrence among the changed files |
| Resolution.MatchChangedFiles | action.js:145-163 | the nested loops return the collected files, or raise exactly when some comparison raises |
| Resolution.MatchOneFile | src/find-api-changes.js:165-178 | the inner loop appends the changed file when some declared path matches and the file is not yet collected; it raises exactly when a comparison raises |
| ApiChanges.FileChangesThrows | src/find-api-changes.js:165-170 | a definition file makes the run raise exactly when it parses and one of its declared paths raises against a changed file |
| ApiChanges.FileChangesRecord | src/find-api-changes.js:182-195 | a definition file yields at most one record. It yields one exactly when it parses and some changed file matches one of its declared paths. That record has the fields `RecordOf` describes |
| ApiChanges.ChangesAppend | src/find-api-changes.js:152-196 | records come in catalog order: the records of files `a + b` are those of `a` followed by those of `b`, and the run raises when either part does |
| ApiChanges.NoChangedFilesNoChanges | src/find-api-changes.js:147-150 | with no changed files the loop over the catalog yields no records and cannot raise, so the early return changes nothing |
| ApiChanges.ChangesThrows | src/find-api-changes.js:152-179 | the run raises exactly when some parsed definition has a declared path that raises against some changed file |
| ApiChanges.ChangesRecords | src/find-api-changes.js:152-196 | there are at most as many records as definition files. Each record comes from a definition file that parses. It carries that file's `apiId`, its first root file or null, a non-empty list of exactly its matched files, and the integration id in the standalone variant |
| ApiChanges.ChangesNonEmpty | src/find-api-changes.js:182-195 | some record is produced exactly when some parsed definition has a declared path that one of the changed files matches |
| ApiChanges.IntegrationIdOfLoaded | src/find-api-changes.js:187 | with a loaded map, `get(apiId) \|\| null` is the mapped string, or null when the id is not a mapped string |
| ApiChanges.CollectChanges | src/find-api-changes.js:147-198 | the outer loop, with its early return for no changed files, returns the records of the catalog, or raises exactly when `ApiChanges.Changes` does |
| ApiChanges.CollectFileChanges | src/find-api-changes.js:153-195 | the loop body for one definition file returns exactly what that file contributes |
| StandaloneScript.FindApiChanges | src/find-api-changes.js:138-199 | the standalone run lists `.postman`, loads the CSV map and returns the records, or raises |
| StandaloneScript.NoChangedFiles | src/find-api-changes.js:139-150 | with no changed files the result is `[]`, unless listing `.postman` raises first |
| StandaloneScript.ResultIntegrationIds | src/find-api-changes.js:187-194 | every record carries an integration id: the value the CSV maps its id to, or null when the id is not a mapped string |
| GitHubAction.Defaulted | action.js:187-188 | an empty input takes the default; a non-empty one is kept; with a non-empty default the result is never empty |
| GitHubAction.FindApiChanges | action.js:123-179 | the Action's run lists `postmanDir` and returns the records without integration ids, or raises |
| GitHubAction.HasChanges | action.js:200 | `has-changes` is `"true"` exactly when there is a record and `"false"` exactly when there is none |
| GitHubAction.Run | action.js:184-220 | `run` applies the input defaults, fails when `findApiChanges` raises, and otherwise outputs the records and the flag |
| GitHubAction.NoChangedFiles | action.js:124-134 | with no changed files the result is `[]`, unless listing the directory raises first |
| GitHubAction.ActionRecords | action.js:166-175 | every record of the Action has only `apiId`, `rootFile` and a non-empty `changedFiles` |
| GitHubAction.HasChangesMeansMatch | action.js:195-200 | `has-changes` is `"true"` exactly when some definition file in the directory parses and a changed file for the base ref matches one of its declared paths |

## Left out

- `getChangedFiles` runs `git diff` in both scripts (asynchronously in the Action). It has a fallback command and returns `[]` when both fail, so it never raises. Its result is the input `changed` (the standalone script) or the function `diff` from base ref to changed files (the Action).
- `existsSync`, `readdirSync`, `statSync` and `readFileSync` are file-system calls and are replaced by input values: the `Listing` (`NoDirectory`, `Unlistable` for a `readdirSync` that raises, and `StatFailed` for a `statSync` that raises), the CSV source, and the reader of definition files.
- `iniParser.decode` (`./src/iniFileParser`, `./bin/iniFileParser`) is not part of this model, and neither is `JSON.parse`. Their outcomes are the `Decoded` values and the `JsonParser` parameter.
- `path.join` and `path.resolve` are Node functions that depend on the working directory. They are parameters, so the resolved-path rule is equality of `resolve` results.
- Console and `core` logging, `JSON.stringify` of the results, the `GITHUB_OUTPUT` file and its `%0A`/`%0D` escaping, `core.setOutput`, and the `process.exit` codes are CI plumbing. `GitHubAction.Run` returns the outputs as data instead.
- The Action's logging after the outputs (action.js:203-216) is left out, including the `output-format` input and the grouped log loop that reads fields the records do not have.
- `core.getInput` is part of `@actions/core`. Its own trimming of inputs is not modelled: `GitHubAction.Defaulted` receives the input as `getInput` returns it.
- JavaScript numbers are modelled as integers. The string form of fractions, exponents, `NaN` and `Infinity` in `'/' + p` is not modelled.
- Objects are plain data. An object declaring `toString`, `valueOf` or getters changes `'/' + p` in JavaScript, and this is not modelled.
- Running an external lint tool once per matched API is not modelled: neither `action.js` nor `src/find-api-changes.js` contains that step.
- `.github/scripts/find-api-changes.js` and the smoke scripts `test.js` and `test/test-integration-ids.js` are evidence only. The standalone CSV smoke test appears as `IntegrationIds.HeaderAndTwoRows`.
