/** The API catalog: which files of the definitions directory are individual
    API definitions (`getApiFiles`), and what one decoded definition record
    declares (`parseApiFile`). */
module ApiCatalog {
  import opened Wrappers
  import opened Seqs
  import opened JsStrings
  import opened JsValues

  // ---------------------------------------------------------------- listing

  /** What `fs.statSync` says of a directory entry; `StatFailed` is the
      exception it raises for an entry it cannot stat. */
  datatype Stat = RegularFile | NotRegularFile | StatFailed

  /** One name returned by `fs.readdirSync`, with its `stat` outcome. */
  datatype DirEntry = DirEntry(name: string, stat: Stat)

  /** The prefix that marks an individual API definition file; the aggregate
      `api` file does not carry it. */
  const ApiFilePrefix: string := "api_"

  /** An entry names an API definition when it is a regular file whose name
      carries the prefix. */
  predicate IsApiEntry(e: DirEntry) {
    e.stat == RegularFile && StartsWith(e.name, ApiFilePrefix)
  }

  /** What `fs.existsSync` and `fs.readdirSync` report for the definitions
      directory: it does not exist, it exists but `readdirSync` raises (it is
      not a directory, or it may not be read), or it lists these entries. */
  datatype Listing = NoDirectory | Unlistable | Listed(entries: seq<DirEntry>)

  /** The paths `path.join(dir, name)` of the given entries, in order. */
  function EntryPaths(dir: string, entries: seq<DirEntry>, join: (string, string) -> string): (r: seq<string>)
    ensures |r| == |entries|
  {
    seq(|entries|, k requires 0 <= k < |entries| => join(dir, entries[k].name))
  }

  /** What `getApiFiles` yields for directory `dir` whose listing is
      `listing`: nothing when the directory does not exist, and an exception
      when it cannot be listed. Every entry is stat-ed, so one that cannot be
      stat-ed raises as well. */
  function ApiFiles(dir: string, listing: Listing, join: (string, string) -> string): Outcome<seq<string>> {
    match listing
    case NoDirectory => Ok([])
    case Unlistable => Threw
    case Listed(entries) =>
      if exists i :: 0 <= i < |entries| && entries[i].stat == StatFailed then Threw
      else Ok(EntryPaths(dir, Filter(IsApiEntry, entries), join))
  }

  /** `getApiFiles`: walks the listing, pushing the joined path of every API
      definition entry. */
  method GetApiFiles(dir: string, listing: Listing, join: (string, string) -> string)
    returns (r: Outcome<seq<string>>)
    ensures r == ApiFiles(dir, listing, join)
  {
    if listing.NoDirectory? {
      return Ok([]);
    }
    if listing.Unlistable? {
      return Threw;
    }
    var entries := listing.entries;
    var apiFiles: seq<string> := [];
    for i := 0 to |entries|
      invariant forall j :: 0 <= j < i ==> entries[j].stat != StatFailed
      invariant apiFiles == EntryPaths(dir, Filter(IsApiEntry, entries[..i]), join)
    {
      var filePath := join(dir, entries[i].name);
      if entries[i].stat == StatFailed {
        return Threw;
      }
      ApiEntriesSnoc(dir, entries, i, join);
      if entries[i].stat == RegularFile && StartsWith(entries[i].name, ApiFilePrefix) {
        apiFiles := apiFiles + [filePath];
      }
    }
    assert entries[..|entries|] == entries;
    return Ok(apiFiles);
  }

  /** One more entry of the listing adds its joined path when it names an API
      definition. */
  lemma ApiEntriesSnoc(dir: string, entries: seq<DirEntry>, i: nat, join: (string, string) -> string)
    requires i < |entries|
    ensures EntryPaths(dir, Filter(IsApiEntry, entries[..i + 1]), join) ==
      EntryPaths(dir, Filter(IsApiEntry, entries[..i]), join) +
        (if IsApiEntry(entries[i]) then [join(dir, entries[i].name)] else [])
  {
    var before := Filter(IsApiEntry, entries[..i]);
    assert entries[..i + 1][..i] == entries[..i];
    assert Filter(IsApiEntry, entries[..i + 1]) == if IsApiEntry(entries[i]) then before + [entries[i]] else before;
  }

  /** A listed path is exactly the joined path of some regular file whose name
      carries the prefix; a missing directory lists nothing. */
  lemma ApiFilesMembers(dir: string, listing: Listing, join: (string, string) -> string, p: string)
    requires ApiFiles(dir, listing, join).Ok?
    ensures p in ApiFiles(dir, listing, join).value <==>
      listing.Listed? && exists e :: e in listing.entries && IsApiEntry(e) && p == join(dir, e.name)
  {
    if listing.Listed? {
      var sel := Filter(IsApiEntry, listing.entries);
      if e :| e in listing.entries && IsApiEntry(e) && p == join(dir, e.name) {
        FilterKeeps(IsApiEntry, listing.entries, e);
        var k :| 0 <= k < |sel| && sel[k] == e;
        assert EntryPaths(dir, sel, join)[k] == p;
      }
    }
  }

  /** The listed paths follow the listing order: listing `a` then `b` lists
      the paths of `a` followed by those of `b`. */
  lemma ApiFilesOrder(dir: string, a: seq<DirEntry>, b: seq<DirEntry>, join: (string, string) -> string)
    requires ApiFiles(dir, Listed(a + b), join).Ok?
    ensures ApiFiles(dir, Listed(a), join).Ok? && ApiFiles(dir, Listed(b), join).Ok?
    ensures ApiFiles(dir, Listed(a + b), join).value ==
      ApiFiles(dir, Listed(a), join).value + ApiFiles(dir, Listed(b), join).value
  {
    forall i | 0 <= i < |a| ensures a[i].stat != StatFailed {
      assert (a + b)[i] == a[i];
    }
    forall i | 0 <= i < |b| ensures b[i].stat != StatFailed {
      assert (a + b)[|a| + i] == b[i];
    }
    FilterAppend(IsApiEntry, a, b);
  }

  // ---------------------------------------------------------------- records

  /** The outcome of reading one definition file and handing its text to the
      record decoder: the decoded value, or an exception from either. */
  datatype Decoded = Decoded(value: JsValue) | DecodeFailed

  /** What `JSON.parse` does with a string: its value, or `None` when it
      throws. */
  type JsonParser = string -> Option<JsValue>

  /** The record `parseApiFile` returns for a valid definition. */
  datatype ApiData = ApiData(apiId: JsValue, filePaths: seq<JsValue>, rootFiles: seq<JsValue>)

  /** `parsed.config?.id` */
  function ConfigId(parsed: JsValue): JsValue {
    Get(Get(parsed, "config"), "id")
  }

  /** `parsed.config?.relations?.apiDefinition` */
  function ApiDefinition(parsed: JsValue): JsValue {
    Get(Get(Get(parsed, "config"), "relations"), "apiDefinition")
  }

  /** The path one declared `files` entry stands for; `Null` when it stands
      for none. A string is first read as JSON: when that yields a value
      other than `null` the entry stands for the value's `path` property
      (`undefined` unless the value is an object holding one); when parsing
      fails or yields `null` it stands for the string itself. Any other entry
      stands for its `path` property when both it and that property are
      truthy. */
  function EntryPath(entry: JsValue, parseJson: JsonParser): JsValue
  {
    if entry.Str? then
      var parsed := parseJson(entry.s);
      // `parsed.path` on null or undefined raises inside the `try`, and the
      // `catch` returns the entry itself, as it does when parsing fails
      if parsed.None? || parsed.value.Null? || parsed.value.Undefined? then entry
      else Get(parsed.value, "path")
    else if Truthy(entry) && Truthy(Get(entry, "path")) then Get(entry, "path")
    else Null
  }

  /** Every case of `EntryPath`, and the only ways it yields `null`. */
  lemma EntryPathCases(entry: JsValue, parseJson: JsonParser)
    ensures entry.Str? && parseJson(entry.s).None? ==> EntryPath(entry, parseJson) == entry
    ensures entry.Str? && parseJson(entry.s).Some? ==>
      var v := parseJson(entry.s).value;
      (v.Null? || v.Undefined?) ==> EntryPath(entry, parseJson) == entry
    ensures entry.Str? && parseJson(entry.s).Some? ==>
      var v := parseJson(entry.s).value;
      (!v.Null? && !v.Undefined?) ==> EntryPath(entry, parseJson) == Get(v, "path")
    ensures entry.Str? && parseJson(entry.s).Some? ==>
      var v := parseJson(entry.s).value;
      (!v.Obj? && !v.Null? && !v.Undefined?) ==> EntryPath(entry, parseJson) == Undefined
    ensures !entry.Str? && Truthy(Get(entry, "path")) ==> EntryPath(entry, parseJson) == Get(entry, "path")
    ensures !entry.Str? && !Truthy(Get(entry, "path")) ==> EntryPath(entry, parseJson) == Null
    ensures !entry.Str? ==> EntryPath(entry, parseJson) == Null || (entry.Obj? && Truthy(EntryPath(entry, parseJson)))
    ensures EntryPath(entry, parseJson) == Null ==>
      (!entry.Str? && !Truthy(Get(entry, "path"))) ||
      (entry.Str? && parseJson(entry.s).Some? && Get(parseJson(entry.s).value, "path") == Null)
  {
  }

  predicate NotNull(v: JsValue) { v != Null }

  /** The declared paths: every entry normalised, and only `null` dropped. */
  function FilePaths(entries: seq<JsValue>, parseJson: JsonParser): seq<JsValue> {
    Filter(NotNull, seq(|entries|, i requires 0 <= i < |entries| => EntryPath(entries[i], parseJson)))
  }

  /** A value is declared exactly when it is not `null` and some entry stands
      for it. */
  lemma FilePathsMembers(entries: seq<JsValue>, parseJson: JsonParser, v: JsValue)
    ensures v in FilePaths(entries, parseJson) <==>
      v != Null && exists i :: 0 <= i < |entries| && EntryPath(entries[i], parseJson) == v
  {
    var mapped := seq(|entries|, i requires 0 <= i < |entries| => EntryPath(entries[i], parseJson));
    if v != Null && exists i :: 0 <= i < |entries| && EntryPath(entries[i], parseJson) == v {
      var i :| 0 <= i < |entries| && EntryPath(entries[i], parseJson) == v;
      assert mapped[i] == v;
      FilterKeeps(NotNull, mapped, v);
    }
  }

  /** Normalisation keeps the declaration order. */
  lemma FilePathsAppend(a: seq<JsValue>, b: seq<JsValue>, parseJson: JsonParser)
    ensures FilePaths(a + b, parseJson) == FilePaths(a, parseJson) + FilePaths(b, parseJson)
  {
    var ma := seq(|a|, i requires 0 <= i < |a| => EntryPath(a[i], parseJson));
    var mb := seq(|b|, i requires 0 <= i < |b| => EntryPath(b[i], parseJson));
    assert seq(|a + b|, i requires 0 <= i < |a + b| => EntryPath((a + b)[i], parseJson)) == ma + mb;
    FilterAppend(NotNull, ma, mb);
  }

  /** Plain path strings that are not JSON are declared as they are. */
  lemma {:induction false} PlainStringsDeclared(entries: seq<JsValue>, parseJson: JsonParser)
    requires forall i :: 0 <= i < |entries| ==> entries[i].Str? && parseJson(entries[i].s).None?
    ensures FilePaths(entries, parseJson) == entries
    decreases |entries|
  {
    if entries != [] {
      var front := entries[..|entries| - 1];
      PlainStringsDeclared(front, parseJson);
      FilePathsAppend(front, [entries[|entries| - 1]], parseJson);
      assert front + [entries[|entries| - 1]] == entries;
    }
  }

  /** The filter removes only `null`: a JSON string without a `path` field
      leaves an `undefined` declared path behind. */
  lemma UndefinedPathSurvives(s: string, props: map<string, JsValue>, parseJson: JsonParser)
    requires parseJson(s) == Some(Obj(props)) && "path" !in props
    ensures FilePaths([Str(s)], parseJson) == [Undefined]
  {
    assert seq(1, i requires 0 <= i < 1 => EntryPath([Str(s)][i], parseJson)) == [Undefined];
  }

  /** `parseApiFile`: `None` when the file cannot be read or decoded, when
      the record lacks a truthy `config.id` or `config.relations.apiDefinition`,
      or when its `files` is truthy but not an array (`files.map` then raises
      inside the `try`). A missing `files` declares nothing; a `rootFiles`
      that is not an array counts as empty. */
  function ParseApiFile(d: Decoded, parseJson: JsonParser): Option<ApiData>
  {
    match d
    case DecodeFailed => None
    case Decoded(parsed) =>
      var apiId := ConfigId(parsed);
      var apiDefinition := ApiDefinition(parsed);
      if !Truthy(apiId) || !Truthy(apiDefinition) then None
      else
        var files := Or(Get(apiDefinition, "files"), Arr([]));
        var rootFiles := Or(Get(Get(apiDefinition, "metaData"), "rootFiles"), Arr([]));
        if !files.Arr? then None
        else Some(ApiData(apiId, FilePaths(files.items, parseJson), if rootFiles.Arr? then rootFiles.items else []))
  }

  /** The cases of `parseApiFile`, stated on the decoded record. */
  lemma ParseApiFileCases(d: Decoded, parseJson: JsonParser)
    ensures d.DecodeFailed? ==> ParseApiFile(d, parseJson).None?
    ensures d.Decoded? ==>
      var def := ApiDefinition(d.value);
      (ParseApiFile(d, parseJson).Some? <==>
        Truthy(ConfigId(d.value)) && Truthy(def) && (!Truthy(Get(def, "files")) || Get(def, "files").Arr?))
    ensures ParseApiFile(d, parseJson).Some? ==>
      var data := ParseApiFile(d, parseJson).value;
      var def := ApiDefinition(d.value);
      var rf := Get(Get(def, "metaData"), "rootFiles");
      && data.apiId == ConfigId(d.value) && Truthy(data.apiId)
      && (!Truthy(Get(def, "files")) ==> data.filePaths == [])
      && (Get(def, "files").Arr? ==> data.filePaths == FilePaths(Get(def, "files").items, parseJson))
      && data.rootFiles == if rf.Arr? then rf.items else []
  {
    assert FilePaths([], parseJson) == [];
  }
}
