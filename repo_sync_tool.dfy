/** The current script, `src/RepoSyncTool.py`: reading the start config,
    turning manifest entries into records, collecting and merging them, and
    running the reconcilers over the merged records.

    What the script would read from disk is given: the decoded start config,
    the walk of the search directory, the decoded array of each manifest
    file, the state of each target and the working directory `cwd`. */
module RepoSyncTool {
  import opened Values
  import opened Text
  import opened Paths
  import opened Scan
  import Merge
  import opened Reconcile

  /** A manifest entry that survived parsing. Git records carry a remote and
      a branch, svn records a revision. */
  datatype Record =
    | GitRecord(url: JVal, path: string, version: int, remote: JVal, branch: JVal)
    | SvnRecord(url: JVal, path: string, version: int, revision: JVal)

  /** Why an entry is skipped with a message and the loop goes on. */
  datatype Skip = InvalidType | MissingPath | InvalidVersion

  datatype Parsed = Keep(rec: Record) | Dropped(reason: Skip) | Failed(exc: Exc)

  const RootPathPlaceholder: string := "{rootPath}"

  /** `int(v)` for a decoded JSON value: `None` when it raises ValueError. */
  function IntOf(v: JVal): Result<Option<int>>
  {
    match v
    case Null => Err(TypeError)
    case Int(i) => Ok(Some(i))
    case Str(s) => Ok(ParseInt(s))
  }

  /** One iteration of the loop of `ExtractRepositoryConfigs`, in the order
      the script reads the keys. */
  function ParseEntry(e: Entry, filePath: string, rootPath: string, cwd: string): (r: Parsed)
    requires IsAbs(cwd)
    ensures r.Keep? ==> IsAbs(r.rec.path) && Present(r.rec.url) == e.url
    ensures r.Keep? ==> (r.rec.GitRecord? <==> e.repoType == Present(Str("git")))
    ensures r.Keep? ==> (r.rec.SvnRecord? <==> e.repoType == Present(Str("svn")))
  {
    if e.repoType.Absent? then Failed(KeyError("type"))
    else if !ValidType(e.repoType) then Dropped(InvalidType)
    else if e.url.Absent? then Failed(KeyError("url"))
    else if e.path.Absent? then Dropped(MissingPath)
    else if !e.path.v.Str? then Failed(AttributeError)
    else
      var path := ConvertToAbsolutePath(ReplaceAll(e.path.v.s, RootPathPlaceholder, rootPath), filePath, cwd);
      match IntOf(e.version.GetOr(Int(0)))
      case Err(x) => Failed(x)
      case Ok(None) => Dropped(InvalidVersion)
      case Ok(Some(version)) =>
        if e.repoType.v == Str("git") then
          Keep(GitRecord(e.url.v, path, version, e.remote.GetOr(Str("origin")), e.branch.GetOr(Str("master"))))
        else
          Keep(SvnRecord(e.url.v, path, version, e.revision.GetOr(Str("HEAD"))))
  }

  /** The records of one manifest, or the exception that ends the run. */
  function Extracted(data: seq<Entry>, filePath: string, rootPath: string, cwd: string): Result<seq<Record>>
    requires IsAbs(cwd)
    decreases |data|
  {
    if data == [] then Ok([])
    else
      match Extracted(data[..|data| - 1], filePath, rootPath, cwd)
      case Err(x) => Err(x)
      case Ok(before) =>
        match ParseEntry(data[|data| - 1], filePath, rootPath, cwd)
        case Failed(x) => Err(x)
        case Dropped(_) => Ok(before)
        case Keep(rec) => Ok(before + [rec])
  }

  lemma {:induction false} ExtractedFailurePersists(data: seq<Entry>, filePath: string, rootPath: string, cwd: string, n: nat)
    requires IsAbs(cwd) && n <= |data| && Extracted(data[..n], filePath, rootPath, cwd).Err?
    ensures Extracted(data, filePath, rootPath, cwd) == Extracted(data[..n], filePath, rootPath, cwd)
    decreases |data| - n
  {
    if n < |data| {
      assert data[..n + 1][..n] == data[..n];
      ExtractedFailurePersists(data, filePath, rootPath, cwd, n + 1);
    } else {
      assert data[..n] == data;
    }
  }

  /** `ExtractRepositoryConfigs(filePath, rootPath)`, given the decoded
      array `data` of the file. */
  method ExtractRepositoryConfigs(data: seq<Entry>, filePath: string, rootPath: string, cwd: string)
    returns (r: Result<seq<Record>>)
    requires IsAbs(cwd)
    ensures r == Extracted(data, filePath, rootPath, cwd)
  {
    var configs: seq<Record> := [];
    for i := 0 to |data|
      invariant Extracted(data[..i], filePath, rootPath, cwd) == Ok(configs)
    {
      var config := data[i];
      assert data[..i + 1][..i] == data[..i];
      if config.repoType.Absent? {
        ExtractedFailurePersists(data, filePath, rootPath, cwd, i + 1);
        return Err(KeyError("type"));
      }
      var repoType := config.repoType.v;
      if repoType != Str("git") && repoType != Str("svn") {
        continue;
      }
      if config.url.Absent? {
        ExtractedFailurePersists(data, filePath, rootPath, cwd, i + 1);
        return Err(KeyError("url"));
      }
      var url := config.url.v;
      var remote := config.remote.GetOr(Str("origin"));
      var branch := config.branch.GetOr(Str("master"));
      var revision := config.revision.GetOr(Str("HEAD"));
      if config.path.Absent? {
        continue;
      }
      if !config.path.v.Str? {
        ExtractedFailurePersists(data, filePath, rootPath, cwd, i + 1);
        return Err(AttributeError);
      }
      var path := ReplaceAll(config.path.v.s, RootPathPlaceholder, rootPath);
      path := ConvertToAbsolutePath(path, filePath, cwd);
      var version := config.version.GetOr(Int(0));
      if version.Null? {
        ExtractedFailurePersists(data, filePath, rootPath, cwd, i + 1);
        return Err(TypeError);
      }
      var number: int;
      if version.Int? {
        number := version.i;
      } else {
        var parsed := ParseInt(version.s);
        if parsed.None? {
          continue;
        }
        number := parsed.value;
      }
      var thisConfig: Record;
      if repoType == Str("git") {
        thisConfig := GitRecord(url, path, number, remote, branch);
      } else {
        thisConfig := SvnRecord(url, path, number, revision);
      }
      configs := configs + [thisConfig];
    }
    assert data[..|data|] == data;
    return Ok(configs);
  }

  function PathOf(r: Record): string { r.path }

  function VersionOf(r: Record): int { r.version }

  /** The records of the manifests `files`, one file after the other. */
  function Collected(files: seq<string>, manifests: string -> seq<Entry>, rootPath: string, cwd: string): Result<seq<Record>>
    requires IsAbs(cwd)
    decreases |files|
  {
    if files == [] then Ok([])
    else
      var file := files[|files| - 1];
      match Collected(files[..|files| - 1], manifests, rootPath, cwd)
      case Err(x) => Err(x)
      case Ok(before) =>
        match Extracted(manifests(file), file, rootPath, cwd)
        case Err(x) => Err(x)
        case Ok(here) => Ok(before + here)
  }

  lemma {:induction false} CollectedFailurePersists(files: seq<string>, manifests: string -> seq<Entry>, rootPath: string, cwd: string, n: nat)
    requires IsAbs(cwd) && n <= |files| && Collected(files[..n], manifests, rootPath, cwd).Err?
    ensures Collected(files, manifests, rootPath, cwd) == Collected(files[..n], manifests, rootPath, cwd)
    decreases |files| - n
  {
    if n < |files| {
      assert files[..n + 1][..n] == files[..n];
      CollectedFailurePersists(files, manifests, rootPath, cwd, n + 1);
    } else {
      assert files[..n] == files;
    }
  }

  /** The merged records of the manifests the walk finds. */
  function Retrieved(walk: seq<Listing>, prefix: JVal, rootPath: string, manifests: string -> seq<Entry>, cwd: string): Result<seq<Record>>
    requires IsAbs(cwd)
  {
    match Found(walk, prefix)
    case Err(x) => Err(x)
    case Ok(files) =>
      match Collected(files, manifests, rootPath, cwd)
      case Err(x) => Err(x)
      case Ok(configs) => Ok(Merge.Merged(configs, PathOf, VersionOf))
  }

  /** `RetrieveAndMergeRepositoryConfigs(path, prefix, rootPath)`, given the
      walk of `path` and the decoded array of each manifest file. */
  method RetrieveAndMergeRepositoryConfigs(walk: seq<Listing>, prefix: JVal, rootPath: string,
                                           manifests: string -> seq<Entry>, cwd: string)
    returns (r: Result<seq<Record>>)
    requires IsAbs(cwd)
    ensures r == Retrieved(walk, prefix, rootPath, manifests, cwd)
  {
    var configs: seq<Record> := [];
    var found := FindRepositoriesFiles(walk, prefix);
    if found.Err? {
      return Err(found.exc);
    }
    var repositoriesFiles := found.value;
    for i := 0 to |repositoriesFiles|
      invariant Collected(repositoriesFiles[..i], manifests, rootPath, cwd) == Ok(configs)
    {
      var file := repositoriesFiles[i];
      assert repositoriesFiles[..i + 1][..i] == repositoriesFiles[..i];
      var extracted := ExtractRepositoryConfigs(manifests(file), file, rootPath, cwd);
      if extracted.Err? {
        CollectedFailurePersists(repositoriesFiles, manifests, rootPath, cwd, i + 1);
        return Err(extracted.exc);
      }
      configs := configs + extracted.value;
    }
    assert repositoriesFiles[..|repositoriesFiles|] == repositoriesFiles;
    var merged := Merge.MergeRepositoryConfigs(configs, PathOf, VersionOf);
    return Ok(merged);
  }

  // ---------------------------------------------------------------------
  // Start config

  datatype StartConfig = NoPath | StartFailed(exc: Exc) | Loaded(config: map<string, JVal>)

  /** What `ReadStartConfig` returns for the decoded object `data`. */
  function StartConfigOf(data: map<string, JVal>, filePath: string, cwd: string): StartConfig
    requires IsAbs(cwd)
  {
    if "path" !in data then NoPath
    else if !data["path"].Str? then StartFailed(TypeError)
    else
      var withPath := data["path" := Str(ConvertToAbsolutePath(data["path"].s, filePath, cwd))];
      var withPrefix := withPath["prefix" := if "prefix" in withPath then withPath["prefix"] else Str("")];
      var rootPath := if "rootPath" in withPrefix then withPrefix["rootPath"] else Str("");
      if !rootPath.Str? then StartFailed(TypeError)
      else Loaded(withPrefix["rootPath" := Str(ConvertToAbsolutePath(rootPath.s, filePath, cwd))])
  }

  /** `ReadStartConfig(filePath)`, given the decoded object `data`: the
      dictionary is updated key by key. */
  method ReadStartConfig(data: map<string, JVal>, filePath: string, cwd: string) returns (r: StartConfig)
    requires IsAbs(cwd)
    ensures r == StartConfigOf(data, filePath, cwd)
  {
    var config := data;
    if "path" !in config {
      return NoPath;
    }
    var path := config["path"];
    if !path.Str? {
      return StartFailed(TypeError);
    }
    config := config["path" := Str(ConvertToAbsolutePath(path.s, filePath, cwd))];
    config := config["prefix" := if "prefix" in config then config["prefix"] else Str("")];
    var rootPath := if "rootPath" in config then config["rootPath"] else Str("");
    if !rootPath.Str? {
      return StartFailed(TypeError);
    }
    config := config["rootPath" := Str(ConvertToAbsolutePath(rootPath.s, filePath, cwd))];
    return Loaded(config);
  }

  // ---------------------------------------------------------------------
  // The whole run

  function ToJob(r: Record): Job
  {
    match r
    case GitRecord(url, path, _, remote, branch) => GitJob(url, remote, branch, path)
    case SvnRecord(url, path, _, revision) => SvnJob(url, revision, path)
  }

  /** What `Execute(configPath)` does. `isJsonFile` is whether `configPath`
      names a regular file ending in `.json`; `data` is its decoded object;
      `walks` gives the walk of a directory; `env` the state of a target. */
  function Execution(isJsonFile: bool, configPath: string, data: map<string, JVal>, walks: string -> seq<Listing>,
                     manifests: string -> seq<Entry>, env: string -> Local, cwd: string): Report
    requires IsAbs(cwd)
  {
    if !isJsonFile then Done([])
    else
      match StartConfigOf(data, configPath, cwd)
      case NoPath => Done([])
      case StartFailed(x) => Report([], Raised(x))
      case Loaded(c) =>
        if "path" in c && c["path"].Str? && "prefix" in c && "rootPath" in c && c["rootPath"].Str? then
          match Retrieved(walks(c["path"].s), c["prefix"], c["rootPath"].s, manifests, cwd)
          case Err(x) => Report([], Raised(x))
          case Ok(configs) => AllPlan(JobsOf(configs, ToJob), env)
        else Done([])
  }

  /** `Execute(configPath)`. */
  method Execute(isJsonFile: bool, configPath: string, data: map<string, JVal>, walks: string -> seq<Listing>,
                 manifests: string -> seq<Entry>, env: string -> Local, cwd: string)
    returns (r: Report)
    requires IsAbs(cwd)
    ensures r == Execution(isJsonFile, configPath, data, walks, manifests, env, cwd)
  {
    if !isJsonFile {
      return Done([]);
    }
    var startConfig := ReadStartConfig(data, configPath, cwd);
    if startConfig.NoPath? {
      return Done([]);
    }
    if startConfig.StartFailed? {
      return Report([], Raised(startConfig.exc));
    }
    StartConfigKeys(data, configPath, cwd);
    var c := startConfig.config;
    var configs := RetrieveAndMergeRepositoryConfigs(walks(c["path"].s), c["prefix"], c["rootPath"].s, manifests, cwd);
    if configs.Err? {
      return Report([], Raised(configs.exc));
    }
    r := UpdateAllRepositories(JobsOf(configs.value, ToJob), env);
  }

  // ---------------------------------------------------------------------
  // Properties of entry parsing

  /** An entry is skipped, and the loop goes on, in exactly three cases: a
      type other than "git" or "svn", a missing `path`, or a version string
      `int()` rejects. */
  lemma EntryDroppedExactly(e: Entry, filePath: string, rootPath: string, cwd: string)
    requires IsAbs(cwd)
    ensures ParseEntry(e, filePath, rootPath, cwd) == Dropped(InvalidType) <==>
      e.repoType.Present? && !ValidType(e.repoType)
    ensures ParseEntry(e, filePath, rootPath, cwd) == Dropped(MissingPath) <==>
      ValidType(e.repoType) && e.url.Present? && e.path.Absent?
    ensures ParseEntry(e, filePath, rootPath, cwd) == Dropped(InvalidVersion) <==>
      && ValidType(e.repoType) && e.url.Present? && e.path.Present? && e.path.v.Str?
      && e.version.Present? && e.version.v.Str? && ParseInt(e.version.v.s).None?
  {
  }

  /** An entry ends the run with an exception only when `type` or `url` is
      missing, `path` is not a string, or the version is null. */
  lemma EntryFailsExactly(e: Entry, filePath: string, rootPath: string, cwd: string)
    requires IsAbs(cwd)
    ensures ParseEntry(e, filePath, rootPath, cwd).Failed? <==>
      || e.repoType.Absent?
      || (ValidType(e.repoType) && e.url.Absent?)
      || (ValidType(e.repoType) && e.url.Present? && e.path.Present? && !e.path.v.Str?)
      || (ValidType(e.repoType) && e.url.Present? && e.path.Present? && e.path.v.Str? && e.version == Present(Null))
    ensures e.repoType.Absent? ==> ParseEntry(e, filePath, rootPath, cwd) == Failed(KeyError("type"))
    ensures ValidType(e.repoType) && e.url.Absent? ==> ParseEntry(e, filePath, rootPath, cwd) == Failed(KeyError("url"))
  {
  }

  /** Defaults apply only when the key is missing: a present value, even
      null or empty, is kept as it is. */
  lemma DefaultsOnlyWhenAbsent(e: Entry, filePath: string, rootPath: string, cwd: string)
    requires IsAbs(cwd) && ParseEntry(e, filePath, rootPath, cwd).Keep?
    ensures var rec := ParseEntry(e, filePath, rootPath, cwd).rec;
      && (rec.GitRecord? ==>
            && (rec.remote == Str("origin") <==> e.remote.Absent? || e.remote == Present(Str("origin")))
            && (rec.branch == Str("master") <==> e.branch.Absent? || e.branch == Present(Str("master")))
            && (e.remote.Present? ==> rec.remote == e.remote.v)
            && (e.branch.Present? ==> rec.branch == e.branch.v))
      && (rec.SvnRecord? ==>
            && (rec.revision == Str("HEAD") <==> e.revision.Absent? || e.revision == Present(Str("HEAD")))
            && (e.revision.Present? ==> rec.revision == e.revision.v))
      && (e.version.Absent? ==> rec.version == 0)
      && (e.version.Present? && e.version.v.Int? ==> rec.version == e.version.v.i)
  {
  }

  /** A version written as the decimal string of `n` reads as `n`, and a
      missing version as 0. */
  lemma VersionForms(e: Entry, n: int, filePath: string, rootPath: string, cwd: string)
    requires IsAbs(cwd)
    ensures ParseEntry(e.(version := Present(Str(Decimal(n)))), filePath, rootPath, cwd)
         == ParseEntry(e.(version := Present(Int(n))), filePath, rootPath, cwd)
    ensures ParseEntry(e.(version := Absent), filePath, rootPath, cwd)
         == ParseEntry(e.(version := Present(Int(0))), filePath, rootPath, cwd)
  {
    DecimalParsesBack(n);
    assert IntOf(Str(Decimal(n))) == IntOf(Int(n));
  }

  /** A path that starts with the `{rootPath}` placeholder lands under the
      root path, which the start config has already made absolute. */
  lemma RootPathSubstituted(e: Entry, rest: string, filePath: string, rootPath: string, cwd: string)
    requires IsAbs(cwd) && IsAbs(rootPath)
    requires e.path == Present(Str(RootPathPlaceholder + rest))
    requires forall i :: !OccursAt(rest, RootPathPlaceholder, i)
    requires ParseEntry(e, filePath, rootPath, cwd).Keep?
    ensures ParseEntry(e, filePath, rootPath, cwd).rec.path == rootPath + rest
  {
    var s := RootPathPlaceholder + rest;
    assert OccursAt(s, RootPathPlaceholder, 0) by {
      assert s[..|RootPathPlaceholder|] == RootPathPlaceholder;
    }
    ReplaceAllAtFirstOccurrence(s, RootPathPlaceholder, rootPath, 0);
    assert s[|RootPathPlaceholder|..] == rest;
    ReplaceAllWithoutOccurrence(rest, RootPathPlaceholder, rootPath);
    assert ReplaceAll(s, RootPathPlaceholder, rootPath) == rootPath + rest;
  }

  /** An instance: `{rootPath}/libs/foo` under the root `/abs/root`
      becomes `/abs/root/libs/foo`. */
  lemma RootPathExample(e: Entry, filePath: string, cwd: string)
    requires IsAbs(cwd)
    requires e.path == Present(Str("{rootPath}/libs/foo"))
    requires ParseEntry(e, filePath, "/abs/root", cwd).Keep?
    ensures ParseEntry(e, filePath, "/abs/root", cwd).rec.path == "/abs/root/libs/foo"
  {
    var rest := "/libs/foo";
    assert RootPathPlaceholder + rest == "{rootPath}/libs/foo";
    forall i ensures !OccursAt(rest, RootPathPlaceholder, i) {
    }
    RootPathSubstituted(e, rest, filePath, "/abs/root", cwd);
  }

  // ---------------------------------------------------------------------
  // Properties of a manifest's extraction

  /** The extraction fails exactly when some entry raises, and then with the
      exception of the first such entry. */
  lemma {:induction false} ExtractedFailsExactly(data: seq<Entry>, filePath: string, rootPath: string, cwd: string)
    requires IsAbs(cwd)
    ensures Extracted(data, filePath, rootPath, cwd).Err? <==>
      exists i :: 0 <= i < |data| && ParseEntry(data[i], filePath, rootPath, cwd).Failed?
    ensures forall i :: (0 <= i < |data| && ParseEntry(data[i], filePath, rootPath, cwd).Failed?
      && (forall j :: 0 <= j < i ==> !ParseEntry(data[j], filePath, rootPath, cwd).Failed?)
      ==> Extracted(data, filePath, rootPath, cwd) == Err(ParseEntry(data[i], filePath, rootPath, cwd).exc))
    decreases |data|
  {
    if data != [] {
      var n := |data| - 1;
      var init := data[..n];
      ExtractedFailsExactly(init, filePath, rootPath, cwd);
      assert forall i :: 0 <= i < n ==> init[i] == data[i];
    }
  }

  /** The kept records are, in input order, exactly the records of the
      entries that parse: `idx` lists those entries' positions. */
  lemma {:induction false} ExtractedKeepsOrder(data: seq<Entry>, filePath: string, rootPath: string, cwd: string)
    returns (idx: seq<nat>)
    requires IsAbs(cwd) && Extracted(data, filePath, rootPath, cwd).Ok?
    ensures var rs := Extracted(data, filePath, rootPath, cwd).value;
      && |idx| == |rs| <= |data|
      && (forall t :: 0 <= t < |idx| ==> idx[t] < |data| && ParseEntry(data[idx[t]], filePath, rootPath, cwd) == Keep(rs[t]))
      && (forall s, t :: 0 <= s < t < |idx| ==> idx[s] < idx[t])
      && (forall i :: 0 <= i < |data| && ParseEntry(data[i], filePath, rootPath, cwd).Keep? ==> i in idx)
    decreases |data|
  {
    if data == [] {
      idx := [];
    } else {
      var n := |data| - 1;
      var init := data[..n];
      assert forall i :: 0 <= i < n ==> init[i] == data[i];
      var before := ExtractedKeepsOrder(init, filePath, rootPath, cwd);
      if ParseEntry(data[n], filePath, rootPath, cwd).Keep? {
        idx := before + [n];
      } else {
        idx := before;
      }
    }
  }

  // ---------------------------------------------------------------------
  // Properties of the start config

  /** The keys of a loaded start config. */
  lemma StartConfigKeys(data: map<string, JVal>, filePath: string, cwd: string)
    requires IsAbs(cwd) && StartConfigOf(data, filePath, cwd).Loaded?
    ensures var c := StartConfigOf(data, filePath, cwd).config;
      "path" in c && c["path"].Str? && "prefix" in c && "rootPath" in c && c["rootPath"].Str?
  {
  }

  /** `ReadStartConfig` gives None exactly when `path` is missing; `path`
      and `rootPath` become absolute, `prefix` defaults to the empty string,
      a missing `rootPath` becomes the config file's own directory, and all
      other keys are kept. */
  lemma StartConfigNormalised(data: map<string, JVal>, filePath: string, cwd: string)
    requires IsAbs(cwd)
    ensures StartConfigOf(data, filePath, cwd) == NoPath <==> "path" !in data
    ensures StartConfigOf(data, filePath, cwd).StartFailed? <==>
      "path" in data && (!data["path"].Str? || ("rootPath" in data && !data["rootPath"].Str?))
    ensures StartConfigOf(data, filePath, cwd).Loaded? ==>
      var c := StartConfigOf(data, filePath, cwd).config;
      && c.Keys == data.Keys + {"path", "prefix", "rootPath"}
      && c["path"] == Str(ConvertToAbsolutePath(data["path"].s, filePath, cwd))
      && IsAbs(c["path"].s) && IsAbs(c["rootPath"].s)
      && c["prefix"] == (if "prefix" in data then data["prefix"] else Str(""))
      && ("rootPath" !in data ==> c["rootPath"] == Str(AbsPath(Dirname(filePath), cwd)))
      && ("rootPath" in data ==> c["rootPath"] == Str(ConvertToAbsolutePath(data["rootPath"].s, filePath, cwd)))
      && (forall k :: k in data && k != "path" && k != "prefix" && k != "rootPath" ==> c[k] == data[k])
  {
    if StartConfigOf(data, filePath, cwd).Loaded? && "rootPath" !in data {
      ConvertEmptyIsBasisDir(filePath, cwd);
    }
  }

  /** A start config without `path` stops the run before anything is done. */
  lemma ExecuteStopsWithoutPath(configPath: string, data: map<string, JVal>, walks: string -> seq<Listing>,
                                manifests: string -> seq<Entry>, env: string -> Local, cwd: string)
    requires IsAbs(cwd) && "path" !in data
    ensures Execution(true, configPath, data, walks, manifests, env, cwd) == Report([], Finished)
  {
  }
}
