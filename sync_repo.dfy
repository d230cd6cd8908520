/** The older script, `sync_repo.py`. It shares the path conversion, the
    manifest-name filter, the merge and the git reconciler with the current
    script, but reads manifest entries and the start config by stricter
    rules: `remote`, `branch`, `path` and `version` are required keys, an
    empty or null `remote`/`branch`/`version` takes a default, there is no
    `{rootPath}` placeholder and no `prefix` default, and svn checkouts
    always ask for revision `HEAD`.

    As for the current script, what would be read from disk is given. */
module SyncRepo {
  import opened Values
  import opened Text
  import opened Paths
  import opened Scan
  import Merge
  import opened Reconcile
  import RepoSyncTool

  datatype Kind = Git | Svn

  /** A manifest entry that survived parsing. Every record carries a remote
      and a branch, whatever its kind, and none carries a revision. */
  datatype LegacyRecord = LegacyRecord(kind: Kind, url: JVal, remote: JVal, branch: JVal, path: string, version: int)

  /** Why an entry is skipped with a message and the loop goes on. */
  datatype Skip = InvalidType | InvalidVersion

  datatype Parsed = Keep(rec: LegacyRecord) | Dropped(reason: Skip) | Failed(exc: Exc)

  /** `v == '' or v == None`. */
  predicate IsBlank(v: JVal)
  {
    v == Str("") || v == Null
  }

  /** A required key whose empty or null value is replaced by `default`. */
  function OrIfBlank(v: JVal, default: string): (r: JVal)
    ensures r == Str(default) <==> IsBlank(v) || v == Str(default)
    ensures !IsBlank(v) ==> r == v
  {
    if IsBlank(v) then Str(default) else v
  }

  /** The version read from a present `version` key: 0 when blank, else
      `int(version)`, `None` when that raises ValueError. */
  function VersionNumber(v: JVal): (r: Option<int>)
    ensures v.Int? ==> r == Some(v.i)
    ensures IsBlank(v) ==> r == Some(0)
  {
    if IsBlank(v) then Some(0)
    else if v.Int? then Some(v.i)
    else ParseInt(v.s)
  }

  /** One iteration of the loop of `ExtractRepositoryConfigs`, in the order
      the script reads the keys. */
  function ParseEntry(e: Entry, filePath: string, cwd: string): (r: Parsed)
    requires IsAbs(cwd)
    ensures r.Keep? ==> IsAbs(r.rec.path) && Present(r.rec.url) == e.url
    ensures r.Keep? ==> (r.rec.kind == Git <==> e.repoType == Present(Str("git")))
    ensures r.Keep? ==> (r.rec.kind == Svn <==> e.repoType == Present(Str("svn")))
    ensures r.Keep? ==> !IsBlank(r.rec.remote) && !IsBlank(r.rec.branch)
  {
    if e.repoType.Absent? then Failed(KeyError("type"))
    else if !ValidType(e.repoType) then Dropped(InvalidType)
    else if e.url.Absent? then Failed(KeyError("url"))
    else if e.remote.Absent? then Failed(KeyError("remote"))
    else if e.branch.Absent? then Failed(KeyError("branch"))
    else if e.path.Absent? then Failed(KeyError("path"))
    else if !e.path.v.Str? then Failed(TypeError)
    else if e.version.Absent? then Failed(KeyError("version"))
    else
      var path := ConvertToAbsolutePath(e.path.v.s, filePath, cwd);
      match VersionNumber(e.version.v)
      case None => Dropped(InvalidVersion)
      case Some(version) =>
        var kind := if e.repoType.v == Str("git") then Git else Svn;
        Keep(LegacyRecord(kind, e.url.v, OrIfBlank(e.remote.v, "origin"), OrIfBlank(e.branch.v, "main"), path, version))
  }

  /** The records of one manifest, or the exception that ends the run. */
  function Extracted(data: seq<Entry>, filePath: string, cwd: string): Result<seq<LegacyRecord>>
    requires IsAbs(cwd)
    decreases |data|
  {
    if data == [] then Ok([])
    else
      match Extracted(data[..|data| - 1], filePath, cwd)
      case Err(x) => Err(x)
      case Ok(before) =>
        match ParseEntry(data[|data| - 1], filePath, cwd)
        case Failed(x) => Err(x)
        case Dropped(_) => Ok(before)
        case Keep(rec) => Ok(before + [rec])
  }

  lemma {:induction false} ExtractedFailurePersists(data: seq<Entry>, filePath: string, cwd: string, n: nat)
    requires IsAbs(cwd) && n <= |data| && Extracted(data[..n], filePath, cwd).Err?
    ensures Extracted(data, filePath, cwd) == Extracted(data[..n], filePath, cwd)
    decreases |data| - n
  {
    if n < |data| {
      assert data[..n + 1][..n] == data[..n];
      ExtractedFailurePersists(data, filePath, cwd, n + 1);
    } else {
      assert data[..n] == data;
    }
  }

  /** One more entry after a prefix that has not failed. */
  lemma ExtractedStep(data: seq<Entry>, filePath: string, cwd: string, i: nat)
    requires IsAbs(cwd) && i < |data| && Extracted(data[..i], filePath, cwd).Ok?
    ensures Extracted(data[..i + 1], filePath, cwd) ==
      match ParseEntry(data[i], filePath, cwd)
      case Failed(x) => Err(x)
      case Dropped(_) => Extracted(data[..i], filePath, cwd)
      case Keep(rec) => Ok(Extracted(data[..i], filePath, cwd).value + [rec])
  {
    assert data[..i + 1][..i] == data[..i];
  }

  /** `ExtractRepositoryConfigs(filePath)`, given the decoded array `data`
      of the file. */
  method ExtractRepositoryConfigs(data: seq<Entry>, filePath: string, cwd: string)
    returns (r: Result<seq<LegacyRecord>>)
    requires IsAbs(cwd)
    ensures r == Extracted(data, filePath, cwd)
  {
    var configs: seq<LegacyRecord> := [];
    for i := 0 to |data|
      invariant Extracted(data[..i], filePath, cwd) == Ok(configs)
    {
      var config := data[i];
      ExtractedStep(data, filePath, cwd, i);
      if config.repoType.Absent? {
        ExtractedFailurePersists(data, filePath, cwd, i + 1);
        return Err(KeyError("type"));
      }
      var repoType := config.repoType.v;
      if repoType != Str("git") && repoType != Str("svn") {
        continue;
      }
      if config.url.Absent? {
        ExtractedFailurePersists(data, filePath, cwd, i + 1);
        return Err(KeyError("url"));
      }
      var url := config.url.v;
      if config.remote.Absent? {
        ExtractedFailurePersists(data, filePath, cwd, i + 1);
        return Err(KeyError("remote"));
      }
      var remote := config.remote.v;
      if remote == Str("") || remote == Null {
        remote := Str("origin");
      }
      if config.branch.Absent? {
        ExtractedFailurePersists(data, filePath, cwd, i + 1);
        return Err(KeyError("branch"));
      }
      var branch := config.branch.v;
      if branch == Str("") || branch == Null {
        branch := Str("main");
      }
      if config.path.Absent? {
        ExtractedFailurePersists(data, filePath, cwd, i + 1);
        return Err(KeyError("path"));
      }
      if !config.path.v.Str? {
        ExtractedFailurePersists(data, filePath, cwd, i + 1);
        return Err(TypeError);
      }
      var path := ConvertToAbsolutePath(config.path.v.s, filePath, cwd);
      if config.version.Absent? {
        ExtractedFailurePersists(data, filePath, cwd, i + 1);
        return Err(KeyError("version"));
      }
      var version := config.version.v;
      var number: int;
      if version == Str("") || version == Null {
        number := 0;
      } else if version.Int? {
        number := version.i;
      } else {
        var parsed := ParseInt(version.s);
        if parsed.None? {
          continue;
        }
        number := parsed.value;
      }
      var kind := if repoType == Str("git") then Git else Svn;
      configs := configs + [LegacyRecord(kind, url, remote, branch, path, number)];
    }
    assert data[..|data|] == data;
    return Ok(configs);
  }

  function PathOf(r: LegacyRecord): string { r.path }

  function VersionOf(r: LegacyRecord): int { r.version }

  /** The records of the manifests `files`, one file after the other. */
  function Collected(files: seq<string>, manifests: string -> seq<Entry>, cwd: string): Result<seq<LegacyRecord>>
    requires IsAbs(cwd)
    decreases |files|
  {
    if files == [] then Ok([])
    else
      var file := files[|files| - 1];
      match Collected(files[..|files| - 1], manifests, cwd)
      case Err(x) => Err(x)
      case Ok(before) =>
        match Extracted(manifests(file), file, cwd)
        case Err(x) => Err(x)
        case Ok(here) => Ok(before + here)
  }

  lemma {:induction false} CollectedFailurePersists(files: seq<string>, manifests: string -> seq<Entry>, cwd: string, n: nat)
    requires IsAbs(cwd) && n <= |files| && Collected(files[..n], manifests, cwd).Err?
    ensures Collected(files, manifests, cwd) == Collected(files[..n], manifests, cwd)
    decreases |files| - n
  {
    if n < |files| {
      assert files[..n + 1][..n] == files[..n];
      CollectedFailurePersists(files, manifests, cwd, n + 1);
    } else {
      assert files[..n] == files;
    }
  }

  /** The merged records of the manifests the walk finds. */
  function Retrieved(walk: seq<Listing>, prefix: JVal, manifests: string -> seq<Entry>, cwd: string): Result<seq<LegacyRecord>>
    requires IsAbs(cwd)
  {
    match Found(walk, prefix)
    case Err(x) => Err(x)
    case Ok(files) =>
      match Collected(files, manifests, cwd)
      case Err(x) => Err(x)
      case Ok(configs) => Ok(Merge.Merged(configs, PathOf, VersionOf))
  }

  /** `RetrieveAndMergeRepositoryConfigs(path, prefix)`, given the walk of
      `path` and the decoded array of each manifest file. */
  method RetrieveAndMergeRepositoryConfigs(walk: seq<Listing>, prefix: JVal, manifests: string -> seq<Entry>, cwd: string)
    returns (r: Result<seq<LegacyRecord>>)
    requires IsAbs(cwd)
    ensures r == Retrieved(walk, prefix, manifests, cwd)
  {
    var configs: seq<LegacyRecord> := [];
    var found := FindRepositoriesFiles(walk, prefix);
    if found.Err? {
      return Err(found.exc);
    }
    var repositoriesFiles := found.value;
    for i := 0 to |repositoriesFiles|
      invariant Collected(repositoriesFiles[..i], manifests, cwd) == Ok(configs)
    {
      var file := repositoriesFiles[i];
      assert repositoriesFiles[..i + 1][..i] == repositoriesFiles[..i];
      var extracted := ExtractRepositoryConfigs(manifests(file), file, cwd);
      if extracted.Err? {
        CollectedFailurePersists(repositoriesFiles, manifests, cwd, i + 1);
        return Err(extracted.exc);
      }
      configs := configs + extracted.value;
    }
    assert repositoriesFiles[..|repositoriesFiles|] == repositoriesFiles;
    var merged := Merge.MergeRepositoryConfigs(configs, PathOf, VersionOf);
    return Ok(merged);
  }

  // ---------------------------------------------------------------------
  // Start config

  datatype StartConfig = StartFailed(exc: Exc) | Loaded(config: map<string, JVal>)

  /** What `ReadStartConfig` returns for the decoded object `data`: only
      `path` is touched, and a missing `path` raises. */
  function StartConfigOf(data: map<string, JVal>, filePath: string, cwd: string): (r: StartConfig)
    requires IsAbs(cwd)
    ensures r.Loaded? ==> "path" in r.config && r.config["path"].Str? && IsAbs(r.config["path"].s)
  {
    if "path" !in data then StartFailed(KeyError("path"))
    else if !data["path"].Str? then StartFailed(TypeError)
    else Loaded(data["path" := Str(ConvertToAbsolutePath(data["path"].s, filePath, cwd))])
  }

  /** `ReadStartConfig(filePath)`, given the decoded object `data`: the
      dictionary's `path` is overwritten in place. */
  method ReadStartConfig(data: map<string, JVal>, filePath: string, cwd: string) returns (r: StartConfig)
    requires IsAbs(cwd)
    ensures r == StartConfigOf(data, filePath, cwd)
  {
    var config := data;
    if "path" !in config {
      return StartFailed(KeyError("path"));
    }
    var targetPath := config["path"];
    if !targetPath.Str? {
      return StartFailed(TypeError);
    }
    config := config["path" := Str(ConvertToAbsolutePath(targetPath.s, filePath, cwd))];
    return Loaded(config);
  }

  // ---------------------------------------------------------------------
  // The whole run

  /** What `UpdateAllRepositories` hands to the reconcilers: the svn
      reconciler is always asked for revision `HEAD`. */
  function ToJob(r: LegacyRecord): Job
  {
    match r.kind
    case Git => GitJob(r.url, r.remote, r.branch, r.path)
    case Svn => SvnJob(r.url, Str("HEAD"), r.path)
  }

  /** What `Execute(configPath)` does. `isJsonFile` is whether `configPath`
      names a regular file ending in `.json`; `data` is its decoded object;
      `walks` gives the walk of a directory; `env` the state of a target. */
  function Execution(isJsonFile: bool, configPath: string, data: map<string, JVal>, walks: string -> seq<Listing>,
                     manifests: string -> seq<Entry>, env: string -> Local, cwd: string): Report
    requires IsAbs(cwd)
  {
    if !isJsonFile then Done([])
    else
      match StartConfigOf(data, configPath, cwd)
      case StartFailed(x) => Report([], Raised(x))
      case Loaded(c) =>
        if "prefix" !in c then Report([], Raised(KeyError("prefix")))
        else
          match Retrieved(walks(c["path"].s), c["prefix"], manifests, cwd)
          case Err(x) => Report([], Raised(x))
          case Ok(configs) => AllPlan(JobsOf(configs, ToJob), env)
  }

  /** `Execute(configPath)`. */
  method Execute(isJsonFile: bool, configPath: string, data: map<string, JVal>, walks: string -> seq<Listing>,
                 manifests: string -> seq<Entry>, env: string -> Local, cwd: string)
    returns (r: Report)
    requires IsAbs(cwd)
    ensures r == Execution(isJsonFile, configPath, data, walks, manifests, env, cwd)
  {
    if !isJsonFile {
      return Done([]);
    }
    var startConfig := ReadStartConfig(data, configPath, cwd);
    if startConfig.StartFailed? {
      return Report([], Raised(startConfig.exc));
    }
    var c := startConfig.config;
    if "prefix" !in c {
      return Report([], Raised(KeyError("prefix")));
    }
    var configs := RetrieveAndMergeRepositoryConfigs(walks(c["path"].s), c["prefix"], manifests, cwd);
    if configs.Err? {
      return Report([], Raised(configs.exc));
    }
    r := UpdateAllRepositories(JobsOf(configs.value, ToJob), env);
  }

  // ---------------------------------------------------------------------
  // Properties of entry parsing

  /** An entry is skipped, and the loop goes on, in exactly two cases: a
      type other than "git" or "svn", or a non-blank version string `int()`
      rejects. */
  lemma EntryDroppedExactly(e: Entry, filePath: string, cwd: string)
    requires IsAbs(cwd)
    ensures ParseEntry(e, filePath, cwd) == Dropped(InvalidType) <==> e.repoType.Present? && !ValidType(e.repoType)
    ensures ParseEntry(e, filePath, cwd) == Dropped(InvalidVersion) <==>
      && ValidType(e.repoType) && e.url.Present? && e.remote.Present? && e.branch.Present?
      && e.path.Present? && e.path.v.Str?
      && e.version.Present? && e.version.v.Str? && e.version.v.s != "" && ParseInt(e.version.v.s).None?
  {
  }

  /** An entry ends the run with an exception exactly when `type` is
      missing, or when the type is valid and one of `url`, `remote`,
      `branch`, `path`, `version` is missing or `path` is not a string. */
  lemma EntryFailsExactly(e: Entry, filePath: string, cwd: string)
    requires IsAbs(cwd)
    ensures ParseEntry(e, filePath, cwd).Failed? <==>
      || e.repoType.Absent?
      || (ValidType(e.repoType) &&
          (e.url.Absent? || e.remote.Absent? || e.branch.Absent? || e.path.Absent?
           || !e.path.v.Str? || e.version.Absent?))
    ensures ValidType(e.repoType) && e.url.Present? && e.remote.Absent? ==>
      ParseEntry(e, filePath, cwd) == Failed(KeyError("remote"))
    ensures ValidType(e.repoType) && e.url.Present? && e.remote.Present? && e.branch.Absent? ==>
      ParseEntry(e, filePath, cwd) == Failed(KeyError("branch"))
    ensures ValidType(e.repoType) && e.url.Present? && e.remote.Present? && e.branch.Present? && e.path.Absent? ==>
      ParseEntry(e, filePath, cwd) == Failed(KeyError("path"))
  {
  }

  /** Blank values take the defaults: an empty or null remote becomes
      "origin", branch "main", version 0; any other value is kept, and the
      path is converted as written. */
  lemma BlankDefaults(e: Entry, filePath: string, cwd: string)
    requires IsAbs(cwd) && ParseEntry(e, filePath, cwd).Keep?
    ensures var rec := ParseEntry(e, filePath, cwd).rec;
      && (rec.remote == Str("origin") <==> IsBlank(e.remote.v) || e.remote.v == Str("origin"))
      && (rec.branch == Str("main") <==> IsBlank(e.branch.v) || e.branch.v == Str("main"))
      && (!IsBlank(e.remote.v) ==> rec.remote == e.remote.v)
      && (!IsBlank(e.branch.v) ==> rec.branch == e.branch.v)
      && (IsBlank(e.version.v) ==> rec.version == 0)
      && (e.version.v.Int? ==> rec.version == e.version.v.i)
      && rec.path == ConvertToAbsolutePath(e.path.v.s, filePath, cwd)
  {
  }

  /** A version written as the decimal string of `n` reads as `n`. */
  lemma VersionForms(e: Entry, n: int, filePath: string, cwd: string)
    requires IsAbs(cwd)
    ensures ParseEntry(e.(version := Present(Str(Decimal(n)))), filePath, cwd)
         == ParseEntry(e.(version := Present(Int(n))), filePath, cwd)
    ensures ParseEntry(e.(version := Present(Str(""))), filePath, cwd)
         == ParseEntry(e.(version := Present(Int(0))), filePath, cwd)
  {
    DecimalParsesBack(n);
    SameVersionNumber(e, Str(Decimal(n)), Int(n), filePath, cwd);
    SameVersionNumber(e, Str(""), Int(0), filePath, cwd);
  }

  /** The parse reads the version only through `VersionNumber`. */
  lemma SameVersionNumber(e: Entry, v: JVal, w: JVal, filePath: string, cwd: string)
    requires IsAbs(cwd) && VersionNumber(v) == VersionNumber(w)
    ensures ParseEntry(e.(version := Present(v)), filePath, cwd) == ParseEntry(e.(version := Present(w)), filePath, cwd)
  {
  }

  /** An entry that is skipped leaves the rest of the file untouched: the
      result is that of the file without it. */
  lemma SkippedEntryIgnored(data: seq<Entry>, filePath: string, cwd: string, i: nat)
    requires IsAbs(cwd) && i < |data| && ParseEntry(data[i], filePath, cwd).Dropped?
    ensures Extracted(data, filePath, cwd) == Extracted(data[..i] + data[i + 1..], filePath, cwd)
  {
    SkippedEntryIgnoredUpTo(data, filePath, cwd, i, |data|);
    assert data[..|data|] == data;
    assert data[i + 1..|data|] == data[i + 1..];
  }

  lemma {:induction false} SkippedEntryIgnoredUpTo(data: seq<Entry>, filePath: string, cwd: string, i: nat, n: nat)
    requires IsAbs(cwd) && i < n <= |data| && ParseEntry(data[i], filePath, cwd).Dropped?
    ensures Extracted(data[..n], filePath, cwd) == Extracted(data[..i] + data[i + 1..n], filePath, cwd)
    decreases n
  {
    if n == i + 1 {
      assert data[..n][..i] == data[..i];
      assert data[..i] + data[i + 1..n] == data[..i];
    } else {
      SkippedEntryIgnoredUpTo(data, filePath, cwd, i, n - 1);
      var without := data[..i] + data[i + 1..n];
      assert data[..n][..n - 1] == data[..n - 1];
      assert without[..|without| - 1] == data[..i] + data[i + 1..n - 1];
      assert without[|without| - 1] == data[n - 1];
    }
  }

  /** The extraction fails exactly when some entry raises, and then with the
      exception of the first such entry. */
  lemma {:induction false} ExtractedFailsExactly(data: seq<Entry>, filePath: string, cwd: string)
    requires IsAbs(cwd)
    ensures Extracted(data, filePath, cwd).Err? <==>
      exists i :: 0 <= i < |data| && ParseEntry(data[i], filePath, cwd).Failed?
    ensures forall i :: (0 <= i < |data| && ParseEntry(data[i], filePath, cwd).Failed?
      && (forall j :: 0 <= j < i ==> !ParseEntry(data[j], filePath, cwd).Failed?)
      ==> Extracted(data, filePath, cwd) == Err(ParseEntry(data[i], filePath, cwd).exc))
    decreases |data|
  {
    if data != [] {
      var n := |data| - 1;
      var init := data[..n];
      ExtractedFailsExactly(init, filePath, cwd);
      assert forall i :: 0 <= i < n ==> init[i] == data[i];
    }
  }

  // ---------------------------------------------------------------------
  // Properties of the merge, the start config and the reconcilers

  /** `rs[w]` has the highest version on its path, and every later record
      of that path has a lower one: among equal versions it is the last. */
  predicate LatestMaximumAt(rs: seq<LegacyRecord>, w: nat)
    requires w < |rs|
  {
    && (forall j :: 0 <= j < |rs| && rs[j].path == rs[w].path ==> rs[j].version <= rs[w].version)
    && (forall j :: w < j < |rs| && rs[j].path == rs[w].path ==> rs[j].version < rs[w].version)
  }

  /** `r` is an input record of the highest version on its path and the last
      of that version. */
  predicate IsLatestMaximum(rs: seq<LegacyRecord>, r: LegacyRecord)
  {
    exists w :: 0 <= w < |rs| && r == rs[w] && LatestMaximumAt(rs, w)
  }

  /** Each merged record is the input record of the highest version on its
      path, and the last of that version. */
  lemma MergedLatestMaximum(rs: seq<LegacyRecord>)
    ensures var out := Merge.Merged(rs, PathOf, VersionOf);
      forall i :: 0 <= i < |out| ==> IsLatestMaximum(rs, out[i])
  {
    var out := Merge.Merged(rs, PathOf, VersionOf);
    forall i | 0 <= i < |out|
      ensures IsLatestMaximum(rs, out[i])
    {
      Merge.MergedKeepsLatestMaximum(rs, PathOf, VersionOf, i);
      var w :| 0 <= w < |rs| && out[i] == rs[w]
        && (forall j :: 0 <= j < |rs| && PathOf(rs[j]) == PathOf(rs[w]) ==> VersionOf(rs[j]) <= VersionOf(rs[w]))
        && (forall j :: w < j < |rs| && PathOf(rs[j]) == PathOf(rs[w]) ==> VersionOf(rs[j]) < VersionOf(rs[w]));
      assert LatestMaximumAt(rs, w);
    }
  }

  /** The merge of the older script: one record per distinct path, each the
      input record of the highest version on its path and the last of that
      version, listed in order of first occurrence. */
  lemma MergedByPath(rs: seq<LegacyRecord>)
    ensures var out := Merge.Merged(rs, PathOf, VersionOf);
      && |out| == |Merge.KeySet(rs, PathOf)|
      && (forall a, b :: 0 <= a < b < |out| ==> out[a].path != out[b].path)
      && (forall j :: 0 <= j < |rs| ==> exists i :: 0 <= i < |out| && out[i].path == rs[j].path)
      && (forall i :: 0 <= i < |out| ==> IsLatestMaximum(rs, out[i]))
      && (forall a, b :: 0 <= a < b < |out| ==>
            Merge.FirstIndex(rs, PathOf, out[a].path) < Merge.FirstIndex(rs, PathOf, out[b].path))
  {
    Merge.MergedOnePerPath(rs, PathOf, VersionOf);
    Merge.MergedInFirstOccurrenceOrder(rs, PathOf, VersionOf);
    MergedLatestMaximum(rs);
  }

  /** `ReadStartConfig` raises KeyError when `path` is missing; otherwise it
      only makes `path` absolute and keeps every other key as it is, adding
      none. */
  lemma StartConfigNormalised(data: map<string, JVal>, filePath: string, cwd: string)
    requires IsAbs(cwd)
    ensures StartConfigOf(data, filePath, cwd) == StartFailed(KeyError("path")) <==> "path" !in data
    ensures StartConfigOf(data, filePath, cwd) == StartFailed(TypeError) <==> "path" in data && !data["path"].Str?
    ensures StartConfigOf(data, filePath, cwd).Loaded? ==>
      var c := StartConfigOf(data, filePath, cwd).config;
      && c.Keys == data.Keys
      && c["path"] == Str(ConvertToAbsolutePath(data["path"].s, filePath, cwd))
      && (forall k :: k in data && k != "path" ==> c[k] == data[k])
  {
  }

  /** Without a `prefix` key the run raises KeyError before looking for
      manifests, where the current script would default it to "". */
  lemma ExecuteNeedsPrefix(configPath: string, data: map<string, JVal>, walks: string -> seq<Listing>,
                           manifests: string -> seq<Entry>, env: string -> Local, cwd: string)
    requires IsAbs(cwd) && "path" in data && data["path"].Str? && "prefix" !in data
    ensures Execution(true, configPath, data, walks, manifests, env, cwd) == Report([], Raised(KeyError("prefix")))
    ensures RepoSyncTool.StartConfigOf(data, configPath, cwd).Loaded? ==>
      RepoSyncTool.StartConfigOf(data, configPath, cwd).config["prefix"] == Str("")
  {
    RepoSyncTool.StartConfigNormalised(data, configPath, cwd);
  }

  /** The svn reconciler of the older script checks out revision `HEAD`
      whatever the record says, then updates and reverts. */
  lemma SvnAlwaysHead(r: LegacyRecord, local: Local)
    requires r.kind == Svn
    ensures r.url.Str? ==> JobPlan(ToJob(r), local) == Done(
      [Run(["svn", "checkout", "--force", r.url.s, "--revision", "HEAD", r.path]),
       Run(["svn", "update", "--force", "--accept=theirs-full", r.path]),
       Run(["svn", "revert", "--depth", "infinity", r.path])])
    ensures !r.url.Str? ==> JobPlan(ToJob(r), local) == Report([], Raised(TypeError))
  {
    SvnThreeCommands(r.url, Str("HEAD"), r.path);
  }

  /** The git reconciler of the older script behaves as the current one on
      the same url, remote, branch and path. The first ensures holds by
      construction: the older `UpdateGitRepository` is the current one's text
      with `Cmd` renamed, so both variants share `GitPlan`. The defaults make
      its remote and branch never blank, so every finished run ends with a
      checkout of a non-blank branch and a pull from a non-blank remote. */
  lemma GitAsCurrent(r: LegacyRecord, local: Local)
    requires r.kind == Git && !IsBlank(r.remote) && !IsBlank(r.branch)
    ensures JobPlan(ToJob(r), local)
         == JobPlan(RepoSyncTool.ToJob(RepoSyncTool.GitRecord(r.url, r.path, r.version, r.remote, r.branch)), local)
    ensures JobPlan(ToJob(r), local).ending == Finished ==>
      var t := JobPlan(ToJob(r), local).actions;
      && r.remote.Str? && r.branch.Str? && |t| >= 2
      && t[|t| - 2..] == [Run(["git", "-C", r.path, "checkout", r.branch.s, "--force"]),
                          Run(["git", "-C", r.path, "pull", r.remote.s, r.branch.s, "--force"])]
      && r.remote.s != "" && r.branch.s != ""
  {
    GitFinishesWithCheckoutThenPull(r.url, r.remote, r.branch, r.path, local);
  }

  // ---------------------------------------------------------------------
  // Where the two scripts read the same entry differently

  /** On a git entry that parses in both scripts, a null remote or branch is
      kept as null by the current script and replaced by "origin" or "main"
      here; a missing one takes "origin"/"master" in the current script and
      raises KeyError here. */
  lemma RemoteAndBranchDiffer(e: Entry, filePath: string, rootPath: string, cwd: string)
    requires IsAbs(cwd)
    requires e.repoType == Present(Str("git")) && e.url.Present?
    requires e.path.Present? && e.path.v.Str? && e.version.Present? && e.version.v.Int?
    ensures e.remote == Present(Null) && e.branch.Present? ==>
      && RepoSyncTool.ParseEntry(e, filePath, rootPath, cwd).rec.remote == Null
      && ParseEntry(e, filePath, cwd).rec.remote == Str("origin")
    ensures e.branch == Present(Null) && e.remote.Present? ==>
      && RepoSyncTool.ParseEntry(e, filePath, rootPath, cwd).rec.branch == Null
      && ParseEntry(e, filePath, cwd).rec.branch == Str("main")
    ensures e.remote.Absent? ==>
      && RepoSyncTool.ParseEntry(e, filePath, rootPath, cwd).rec.remote == Str("origin")
      && ParseEntry(e, filePath, cwd) == Failed(KeyError("remote"))
    ensures e.branch.Absent? ==>
      && RepoSyncTool.ParseEntry(e, filePath, rootPath, cwd).rec.branch == Str("master")
      && (e.remote.Present? ==> ParseEntry(e, filePath, cwd) == Failed(KeyError("branch")))
  {
  }

  /** The older script has no `{rootPath}` placeholder: a path starting with
      it is an ordinary relative path under the manifest's own directory,
      where the current script puts it under the root path. */
  lemma PlaceholderKeptLiterally(e: Entry, rest: string, filePath: string, rootPath: string, cwd: string)
    requires IsAbs(cwd) && IsAbs(rootPath)
    requires e.path == Present(Str(RepoSyncTool.RootPathPlaceholder + rest))
    requires forall i :: !OccursAt(rest, RepoSyncTool.RootPathPlaceholder, i)
    requires ParseEntry(e, filePath, cwd).Keep?
    requires RepoSyncTool.ParseEntry(e, filePath, rootPath, cwd).Keep?
    ensures Segments(ParseEntry(e, filePath, cwd).rec.path)
         == Resolve(Segments(AbsPath(Dirname(filePath), cwd)), Split(RepoSyncTool.RootPathPlaceholder + rest))
    ensures RepoSyncTool.ParseEntry(e, filePath, rootPath, cwd).rec.path == rootPath + rest
  {
    var p := RepoSyncTool.RootPathPlaceholder + rest;
    assert !IsAbs(p) by {
      assert p[0] == '{';
    }
    ConvertRelativeUnderBasisDir(p, filePath, cwd);
    RepoSyncTool.RootPathSubstituted(e, rest, filePath, rootPath, cwd);
  }
}
