/** The matching loop of `findApiChanges`: which changed files belong to which
    API definition, and the result records built from them. */
module Resolution {
  import opened Wrappers
  import opened Seqs
  import opened JsStrings
  import opened JsValues
  import opened ApiCatalog

  /** Node's `path.resolve` on one string argument; it depends on the working
      directory, so it is left abstract. */
  type Resolver = string -> string

  /** What testing a changed file against one declared path comes to: a
      match, no match, or a `TypeError` from `path.resolve` on a declared
      path that is not a string. */
  datatype Verdict = Hit | Miss | Throws

  /** The three-rule test `c === p || c.endsWith('/' + p) ||
      path.resolve(c) === path.resolve(p)`, evaluated left to right. */
  function Compare(c: string, p: JsValue, resolve: Resolver): Verdict {
    if p.Str? && c == p.s then Hit
    else if EndsWith(c, "/" + ToJsString(p)) then Hit
    else if !p.Str? then Throws
    else if resolve(c) == resolve(p.s) then Hit
    else Miss
  }

  /** A string declared path matches when any one of the three rules holds
      and never raises; any other declared path matches only by the suffix
      rule, on its string form, and raises otherwise. */
  lemma CompareRules(c: string, p: JsValue, resolve: Resolver)
    ensures p.Str? ==> Compare(c, p, resolve) != Throws
    ensures p.Str? ==> (Compare(c, p, resolve) == Hit <==>
      c == p.s || EndsWith(c, "/" + p.s) || resolve(c) == resolve(p.s))
    ensures !p.Str? ==> (Compare(c, p, resolve) == Hit <==> EndsWith(c, "/" + ToJsString(p)))
    ensures !p.Str? ==> (Compare(c, p, resolve) == Throws <==> !EndsWith(c, "/" + ToJsString(p)))
  {
  }

  /** Two declared paths that are not strings: `undefined` (from a JSON entry
      without `path`) matches exactly the changed files ending in
      `/undefined`, and an empty array exactly those ending in `/`; against
      any other changed file the comparison raises. */
  lemma NonStringPathExamples(c: string, resolve: Resolver)
    ensures Compare(c, Undefined, resolve) == Hit <==> EndsWith(c, "/undefined")
    ensures Compare(c, Undefined, resolve) != Hit ==> Compare(c, Undefined, resolve) == Throws
    ensures Compare(c, Arr([]), resolve) == Hit <==> EndsWith(c, "/")
    ensures Compare(c, Arr([]), resolve) != Hit ==> Compare(c, Arr([]), resolve) == Throws
  {
    CompareRules(c, Undefined, resolve);
    CompareRules(c, Arr([]), resolve);
    StringForms(Arr([]));
    assert "/" + "" == "/";
  }

  /** A verdict for each pair of a changed file and a declared path. */
  type Rule = (string, JsValue) -> Verdict

  /** The rule `findApiChanges` applies. */
  function Comparer(resolve: Resolver): Rule {
    (c, p) => Compare(c, p, resolve)
  }

  /** Some declared path matches `c`. */
  predicate Matches(c: string, paths: seq<JsValue>, test: Rule) {
    exists j :: 0 <= j < |paths| && test(c, paths[j]) == Hit
  }

  /** Comparing some changed file with some declared path raises. */
  predicate AnyThrows(changed: seq<string>, paths: seq<JsValue>, test: Rule) {
    exists i, j :: 0 <= i < |changed| && 0 <= j < |paths| && test(changed[i], paths[j]) == Throws
  }

  /** No declared path makes comparing `c` with it raise. */
  predicate NoThrows(c: string, paths: seq<JsValue>, test: Rule) {
    forall j :: 0 <= j < |paths| ==> test(c, paths[j]) != Throws
  }

  /** The matched changed files, each kept once, where it first appears. */
  function MatchedFiles(changed: seq<string>, paths: seq<JsValue>, test: Rule): seq<string>
    decreases |changed|
  {
    if changed == [] then []
    else
      var before := MatchedFiles(changed[..|changed| - 1], paths, test);
      var c := changed[|changed| - 1];
      if Matches(c, paths, test) && c !in before then before + [c] else before
  }

  /** The `apiChangedFiles` one API definition collects, or the exception
      that ends the run. */
  function ApiChangedFiles(changed: seq<string>, paths: seq<JsValue>, resolve: Resolver): Outcome<seq<string>> {
    if AnyThrows(changed, paths, Comparer(resolve)) then Threw else Ok(MatchedFiles(changed, paths, Comparer(resolve)))
  }

  /** With no changed files nothing is collected and nothing raises. */
  lemma NothingMatchesNoChangedFiles(paths: seq<JsValue>, resolve: Resolver)
    ensures ApiChangedFiles([], paths, resolve) == Ok([])
  {
  }

  /** A changed file is collected exactly when it is one of the changed files
      and matches some declared path. */
  lemma {:induction false} MatchedFilesMembers(changed: seq<string>, paths: seq<JsValue>, test: Rule, c: string)
    ensures c in MatchedFiles(changed, paths, test) <==> c in changed && Matches(c, paths, test)
    decreases |changed|
  {
    if changed != [] {
      var prefix := changed[..|changed| - 1];
      MatchedFilesMembers(prefix, paths, test, c);
      assert changed == prefix + [changed[|changed| - 1]];
    }
  }

  /** No changed file is collected twice, even when the input repeats it. */
  lemma {:induction false} MatchedFilesNoDuplicates(changed: seq<string>, paths: seq<JsValue>, test: Rule)
    ensures NoDuplicates(MatchedFiles(changed, paths, test))
    decreases |changed|
  {
    if changed != [] {
      MatchedFilesNoDuplicates(changed[..|changed| - 1], paths, test);
    }
  }

  /** The collected files keep the order in which they first appear among the
      changed files. */
  lemma {:induction false} MatchedFilesOrder(changed: seq<string>, paths: seq<JsValue>, test: Rule, x: string, y: string)
    requires x in MatchedFiles(changed, paths, test) && y in MatchedFiles(changed, paths, test)
    ensures x in changed && y in changed
    ensures FirstIndex(MatchedFiles(changed, paths, test), x) < FirstIndex(MatchedFiles(changed, paths, test), y)
        <==> FirstIndex(changed, x) < FirstIndex(changed, y)
    decreases |changed|
  {
    var prefix := changed[..|changed| - 1];
    var c := changed[|changed| - 1];
    var before := MatchedFiles(prefix, paths, test);
    assert changed == prefix + [c];
    MatchedFilesMembers(prefix, paths, test, x);
    MatchedFilesMembers(prefix, paths, test, y);
    MatchedFilesMembers(prefix, paths, test, c);
    if x in before {
      FirstIndexAppend(prefix, c, x);
      FirstIndexAppend(before, c, x);
    }
    if y in before {
      FirstIndexAppend(prefix, c, y);
      FirstIndexAppend(before, c, y);
    }
    if x in before && y in before {
      MatchedFilesOrder(prefix, paths, test, x, y);
    }
  }

  /** Matching one more changed file adds it at the end when it is new and
      matches, and otherwise changes nothing. */
  lemma MatchedFilesSnoc(changed: seq<string>, c: string, paths: seq<JsValue>, test: Rule)
    ensures MatchedFiles(changed + [c], paths, test) ==
      var before := MatchedFiles(changed, paths, test);
      if Matches(c, paths, test) && c !in before then before + [c] else before
  {
    assert (changed + [c])[..|changed|] == changed;
  }

  /** `MatchedFilesSnoc` for the prefixes of one list. */
  lemma MatchedFilesStep(changed: seq<string>, i: nat, paths: seq<JsValue>, test: Rule)
    requires i < |changed|
    ensures MatchedFiles(changed[..i + 1], paths, test) ==
      var before := MatchedFiles(changed[..i], paths, test);
      if Matches(changed[i], paths, test) && changed[i] !in before then before + [changed[i]] else before
  {
    TakeSnoc(changed, i);
    MatchedFilesSnoc(changed[..i], changed[i], paths, test);
  }

  /** A comparison raises among the first `i + 1` changed files exactly when
      one raises among the first `i` or for the next one. */
  lemma AnyThrowsStep(changed: seq<string>, i: nat, paths: seq<JsValue>, test: Rule)
    requires i < |changed|
    ensures AnyThrows(changed[..i + 1], paths, test) <==>
      AnyThrows(changed[..i], paths, test) || !NoThrows(changed[i], paths, test)
  {
    var longer := changed[..i + 1];
    if AnyThrows(longer, paths, test) {
      var a, b :| 0 <= a < |longer| && 0 <= b < |paths| && test(longer[a], paths[b]) == Throws;
      if a < i {
        assert changed[..i][a] == longer[a];
      }
    }
    if AnyThrows(changed[..i], paths, test) {
      var a, b :| 0 <= a < i && 0 <= b < |paths| && test(changed[..i][a], paths[b]) == Throws;
      assert longer[a] == changed[..i][a];
    }
    if !NoThrows(changed[i], paths, test) {
      assert longer[i] == changed[i];
    }
  }

  /** A comparison that raises among the first changed files raises for the
      whole list. */
  lemma AnyThrowsPrefix(changed: seq<string>, n: nat, paths: seq<JsValue>, test: Rule)
    requires n <= |changed| && AnyThrows(changed[..n], paths, test)
    ensures AnyThrows(changed, paths, test)
  {
    var a, b :| 0 <= a < n && 0 <= b < |paths| && test(changed[..n][a], paths[b]) == Throws;
    assert changed[a] == changed[..n][a];
  }

  /** The inner loop's test so far: one of the first declared paths matches. */
  lemma MatchesSnoc(c: string, paths: seq<JsValue>, j: nat, test: Rule)
    requires j < |paths|
    ensures Matches(c, paths[..j + 1], test) <==> Matches(c, paths[..j], test) || test(c, paths[j]) == Hit
  {
    if test(c, paths[j]) == Hit {
      assert paths[..j + 1][j] == paths[j];
    }
    if Matches(c, paths[..j + 1], test) {
      var k :| 0 <= k < j + 1 && test(c, paths[..j + 1][k]) == Hit;
      if k < j {
        assert paths[..j][k] == paths[..j + 1][k];
      }
    }
  }

  /** The nested loops over the changed files and the declared paths of one
      API definition, pushing each matching changed file not yet collected. */
  method MatchChangedFiles(changed: seq<string>, paths: seq<JsValue>, resolve: Resolver)
    returns (r: Outcome<seq<string>>)
    ensures r == ApiChangedFiles(changed, paths, resolve)
  {
    var apiChangedFiles: seq<string> := [];
    for i := 0 to |changed|
      invariant !AnyThrows(changed[..i], paths, Comparer(resolve))
      invariant apiChangedFiles == MatchedFiles(changed[..i], paths, Comparer(resolve))
    {
      var changedFile := changed[i];
      var step := MatchOneFile(apiChangedFiles, changedFile, paths, resolve);
      AnyThrowsStep(changed, i, paths, Comparer(resolve));
      if step.Threw? {
        AnyThrowsPrefix(changed, i + 1, paths, Comparer(resolve));
        return Threw;
      }
      MatchedFilesStep(changed, i, paths, Comparer(resolve));
      apiChangedFiles := step.value;
    }
    TakeAll(changed);
    return Ok(apiChangedFiles);
  }

  /** The inner loop for one changed file: walks the declared paths and
      pushes the file the first time one of them matches. */
  method MatchOneFile(apiChangedFiles: seq<string>, changedFile: string, paths: seq<JsValue>, resolve: Resolver)
    returns (r: Outcome<seq<string>>)
    ensures r.Threw? <==> !NoThrows(changedFile, paths, Comparer(resolve))
    ensures r.Ok? ==>
      r.value == if Matches(changedFile, paths, Comparer(resolve)) && changedFile !in apiChangedFiles
                 then apiChangedFiles + [changedFile] else apiChangedFiles
  {
    var files := apiChangedFiles;
    for j := 0 to |paths|
      invariant forall j' :: 0 <= j' < j ==> Comparer(resolve)(changedFile, paths[j']) != Throws
      invariant files ==
        if Matches(changedFile, paths[..j], Comparer(resolve)) && changedFile !in apiChangedFiles
        then apiChangedFiles + [changedFile] else apiChangedFiles
    {
      MatchesSnoc(changedFile, paths, j, Comparer(resolve));
      var verdict := Compare(changedFile, paths[j], resolve);
      assert verdict == Comparer(resolve)(changedFile, paths[j]);
      if verdict == Throws {
        return Threw;
      }
      if verdict == Hit && changedFile !in files {
        files := files + [changedFile];
      }
    }
    TakeAll(paths);
    return Ok(files);
  }
}
