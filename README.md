# RepoSyncTool, modelled in Dafny

RepoSyncTool keeps a set of working copies in step with the repositories
that JSON manifests declare. A run does four things:

1. It reads a start config, which gives the directory to search, an optional
   file-name prefix and an optional root path.
2. It walks that directory for manifest files named `<prefix>*.json`.
3. It turns the entries of every manifest into canonical records. Paths are
   made absolute and defaults are filled in.
4. It merges the records by target path and reconciles each target. A git
   target may be cloned, re-cloned through `temp_path`, force-checked-out and
   force-pulled. An svn target is checked out, updated and reverted.

The repository holds two variants of the script:
- `src/RepoSyncTool.py`, the current one;
- `sync_repo.py`, an older one. It uses different required keys and
  defaults, has no `{rootPath}` placeholder and always checks svn out at
  `HEAD`.

The model keeps the two apart.

The model is a set of Dafny modules:

| module | file | what it models |
|---|---|---|
| `Values` | values.dfy | decoded JSON values, manifest entries and the exceptions that end a run |
| `Text` | text.dfy | `str.replace` and Python's `int(str)` |
| `Paths` | paths.dfy | `posixpath` (`isabs`, `normpath`, `dirname`, `join`, `abspath`) and `ConvertToAbsolutePath` |
| `Scan` | scan.dfy | the name filter of `FindRepositoriesFiles` over a given directory walk |
| `Merge` | merge.dfy | `MergeRepositoryConfigs`, generic in the record type, for both variants |
| `Reconcile` | reconcile.dfy | `Cmd`, `UpdateGitRepository`, `UpdateSvnRepository` and `UpdateAllRepositories` |
| `RepoSyncTool` | repo_sync_tool.dfy | the current script's parsing, start config and `Execute` |
| `SyncRepo` | sync_repo.dfy | the older script's parsing, start config and `Execute`, and where the two differ |

Inputs replace the things the scripts would read from the outside world. These
inputs are:
- the decoded start config;
- the directory walk;
- each manifest's decoded array;
- what each target directory looks like (the `Local` record);
- the working directory `cwd`.

A reconciler does not touch a filesystem. Instead it yields a `Report`: the
ordered trace of commands and filesystem actions it issues, and how it ended.
A run can end in three ways:
- it finishes;
- the git reconciler returns early;
- an uncaught exception is raised.

An uncaught exception ends the whole run. The model represents it as an
`Err` or `Raised` value, never as a precondition.

Each loop of the scripts is a `method` with loop invariants. Each method is
proved equal to a recursive specification function, for example
`ExtractRepositoryConfigs` against `Extracted` and `MergeRepositoryConfigs`
against `Merged`. The properties the scripts promise are then proved as
lemmas about those functions.

Some behaviour of the code is easy to misread, and the model follows
the code exactly:
- **Merge ties.** At src/RepoSyncTool.py:99-101 an existing record is
  replaced when `existing - incoming <= 0`. So among records of equal
  version the later one wins. `Merge.MergedKeepsLatestMaximum` proves this
  form.
- **Failed URL query.** When `git config --get` fails, the
  `CalledProcessError` handler at src/RepoSyncTool.py:59-69 returns from
  `UpdateGitRepository`. No reclone follows and no further command runs.
- **Missing `temp_path`.** `shutil.rmtree(tempPath)` at
  src/RepoSyncTool.py:81 has no `ignore_errors`. So a missing `temp_path`
  raises FileNotFoundError and ends the run. Likewise, a non-string value
  reaching a command line, or `'remote.' + remote`, raises TypeError and
  ends the run.
- **Start config without `path`.** At src/RepoSyncTool.py:193-197 the
  current script prints a message and returns `None`, and `Execute` stops
  without raising. The older script raises KeyError.
- **White space around a version.** `int()` strips ASCII white space and
  the Unicode spaces above U+007F, but not the separators U+001C to U+001F.
  A version such as `"\u001c5"` is rejected and its entry skipped.

## Model

| member | source | states |
|---|---|---|
| Paths.ConvertToAbsolutePath | src/RepoSyncTool.py:8-13 | the result is always absolute, and an absolute input comes back unchanged |
| Paths.ConvertIdempotent | src/RepoSyncTool.py:8-13 | converting a converted path again changes nothing |
| Paths.ConvertRelativeUnderBasisDir | src/RepoSyncTool.py:13 | a relative path resolves to the names of the basis file's absolute directory followed by the path's own names, with `.`, `..` and empty pieces resolved |
| Paths.ConvertedRelativeIsNormal | src/RepoSyncTool.py:13 | a converted relative path is already in `normpath` form |
| Paths.ConvertEmptyIsBasisDir | src/RepoSyncTool.py:202-203 | converting the empty path gives the absolute directory of the basis file, which is how a missing `rootPath` is resolved |
| Paths.NormAbsIdempotent | src/RepoSyncTool.py:13 | `normpath` of an absolute path is idempotent |
| Paths.SegmentsOfNormAbs | src/RepoSyncTool.py:13 | `normpath` keeps the resolved names of a path |
| Paths.AbsPath | src/RepoSyncTool.py:13 | `abspath` always yields an absolute path |
| Paths.Join | src/RepoSyncTool.py:13 | `join` with an absolute second part yields that part, and joining to an absolute first part stays absolute |
| Text.ReplaceAllAtFirstOccurrence | src/RepoSyncTool.py:132 | `str.replace` keeps the text before the first occurrence, substitutes it, and continues after it |
| Text.ReplaceAllWithoutOccurrence | src/RepoSyncTool.py:132 | `str.replace` leaves a string without the pattern unchanged |
| Text.DecimalParsesBack | src/RepoSyncTool.py:138 | `int(str(n)) == n` for every integer `n` |
| Text.ParseUnsignedRun | src/RepoSyncTool.py:138 | `int()` of a run of decimal digits, with single underscores allowed between digits, is the number they spell |
| Text.ParseNegativeRun | src/RepoSyncTool.py:138 | `int()` of `-` followed by such a run is the negated number |
| Text.ParseRejectsSeparatorPrefix | src/RepoSyncTool.py:137-142 | `int()` rejects a digit run behind U+001C, which it does not strip, so such a version is an error |
| Scan.FindRepositoriesFiles | src/RepoSyncTool.py:158-166 | the nested loop returns exactly the filter's specification `Found`, including the TypeError for a non-string prefix |
| Scan.FoundExactly | src/RepoSyncTool.py:161-165 | with a string prefix the result contains a path exactly when some directory of the walk holds a regular file with that joined path whose name starts with the prefix and ends with `.json` |
| Scan.FoundInExactly | src/RepoSyncTool.py:162-165 | within one directory, the kept paths are exactly the joined names of the matching regular files |
| Scan.EmptyPrefixOnlySuffix | src/RepoSyncTool.py:164 | with the empty prefix, only the `.json` suffix decides |
| Scan.FoundFailsOnlyOnNonStringPrefix | src/RepoSyncTool.py:164 | the filter raises exactly when the prefix is not a string and the walk reaches a regular file |
| Merge.MergeRepositoryConfigs | src/RepoSyncTool.py:92-104 | the dictionary loop returns exactly `Merged`, the declarative merge (one winner per key, keys in insertion order) |
| Merge.ValuesInOrder | src/RepoSyncTool.py:104 | `list(d.values())` lists the dictionary's values in key-insertion order |
| Merge.Order | src/RepoSyncTool.py:96-103 | the dictionary's keys are distinct, and they are exactly the paths that occur in the input |
| Merge.WinnerIndex | src/RepoSyncTool.py:98-101 | the kept record for a path has the highest version on that path, and every later record on the path has a strictly lower version |
| Merge.WinnerIsInput | src/RepoSyncTool.py:101-103 | the kept record is one of the inputs and has the path it is kept for |
| Merge.MergedOnePerPath | src/RepoSyncTool.py:92-104 | the output has one record per distinct path, as many records as there are distinct paths, and every input path is represented |
| Merge.MergedKeepsLatestMaximum | src/RepoSyncTool.py:99-101 | each output record is an input `rs[w]` with the maximum version of its path, and no later record on that path has an equal or higher version, so ties go to the later record |
| Merge.MergedInFirstOccurrenceOrder | src/RepoSyncTool.py:103-104 | paths come out in the order of their first occurrence in the input |
| Merge.OrderIsFirstOccurrence | src/RepoSyncTool.py:96-103 | the key order is increasing in first-occurrence index |
| Reconcile.CmdOfStrings | src/RepoSyncTool.py:19 | a command made only of strings runs as written |
| Reconcile.CmdOfNonString | src/RepoSyncTool.py:19 | a command holding a non-string raises TypeError before anything runs |
| Reconcile.UpdateGitRepository | src/RepoSyncTool.py:40-89 | the flag-driven procedure yields exactly the decision table `GitPlan` |
| Reconcile.UpdateSvnRepository | src/RepoSyncTool.py:26-37 | the three svn commands yield exactly `SvnPlan` |
| Reconcile.UpdateAllRepositories | src/RepoSyncTool.py:169-176 | the dispatch loop yields exactly `AllPlan` |
| Reconcile.AllPlan | src/RepoSyncTool.py:169-176 | a whole run never ends in an early return, because an early return ends only its own record |
| Reconcile.AllPlanDispatchesInOrder | src/RepoSyncTool.py:171-175 | each record is dispatched once, in list order. While none raises, the trace is the records' traces in sequence. The first to raise ends the run with its own trace last |
| Reconcile.AllPlanCrashPersists | src/RepoSyncTool.py:171-175 | once a record raises, no later record is dispatched |
| Reconcile.GitTraceByState | src/RepoSyncTool.py:47-88 | the decision table with string values, for every state of the target: missing target → plain clone; no `.git` → temp-clone sequence; URL matches → no clone; URL differs → rmtree `.git`, then the temp-clone sequence; remote not configured → early return; and, where the temp clone is needed, a missing `temp_path` raises before the clone and a clone without `.git` raises after it |
| Reconcile.GitFinishesWithCheckoutThenPull | src/RepoSyncTool.py:59-88 | a finished run ends with `checkout <branch> --force` then `pull <remote> <branch> --force`. It returns early exactly when the URL query fails, and then nothing follows the query |
| Reconcile.GitTouchesOnlyGitAndTemp | src/RepoSyncTool.py:70-84 | the only trees removed or moved are the target's `.git` and `temp_path` |
| Reconcile.GitRaisesOnlyOn | src/RepoSyncTool.py:59-84 | the reconciler raises only on a non-string value, or when a temp clone is needed and `temp_path` is missing or the clone leaves no `.git`. With no `.git`, a missing `temp_path` raises before any command; when the URL differs, the query runs and `.git` is removed before the missing `temp_path` raises |
| Reconcile.FinishOutcome | src/RepoSyncTool.py:85-88 | checkout and pull run exactly when branch and remote are strings |
| Reconcile.RecloneOutcome | src/RepoSyncTool.py:80-84 | the temp clone finishes exactly when the URL is a string, `temp_path` exists and the clone yields `.git` |
| Reconcile.CloneOutcome | src/RepoSyncTool.py:50 | a missing target is cloned with `git clone url targetPath` |
| Reconcile.SvnThreeCommands | src/RepoSyncTool.py:32-36 | svn issues exactly checkout `--revision`, update `--accept=theirs-full` and revert `--depth infinity`, in this order, unless URL or revision is not a string |
| RepoSyncTool.ParseEntry | src/RepoSyncTool.py:112-154 | a kept record has an absolute path and the entry's URL. It is a git record iff the type is "git" and an svn record iff the type is "svn" |
| RepoSyncTool.ExtractRepositoryConfigs | src/RepoSyncTool.py:107-155 | the loop with its `continue`s returns exactly `Extracted` |
| RepoSyncTool.EntryDroppedExactly | src/RepoSyncTool.py:114-142 | an entry is skipped for its type iff the type is present but neither "git" nor "svn"; for its path iff the type is valid, `url` is present and `path` is absent; for its version iff the type is valid, `url` and a string `path` are present and the version is a string `int()` rejects |
| RepoSyncTool.EntryFailsExactly | src/RepoSyncTool.py:113-138 | an entry ends the run iff `type` is missing; or the type is valid and `url` is missing; or the type is valid, `url` is present and `path` is present but not a string; or the type is valid, `url` and a string `path` are present and the version is null. A missing `type` raises KeyError("type"), and a valid type without `url` raises KeyError("url") |
| RepoSyncTool.DefaultsOnlyWhenAbsent | src/RepoSyncTool.py:120-135 | remote "origin", branch "master", revision "HEAD" and version 0 apply only when the key is absent. A present value, even null, is kept |
| RepoSyncTool.VersionForms | src/RepoSyncTool.py:135-138 | a version written as the decimal string of `n` parses like the number `n`, and a missing version like 0 |
| RepoSyncTool.RootPathSubstituted | src/RepoSyncTool.py:132-133 | with an absolute root path, a path `{rootPath}` + rest, where rest holds no further `{rootPath}`, becomes the root path followed by rest |
| RepoSyncTool.RootPathExample | src/RepoSyncTool.py:132-133 | `{rootPath}/libs/foo` under the root `/abs/root` becomes `/abs/root/libs/foo` |
| RepoSyncTool.ExtractedFailsExactly | src/RepoSyncTool.py:112-154 | a manifest fails iff one of its entries raises, and then with the first such entry's exception |
| RepoSyncTool.ExtractedKeepsOrder | src/RepoSyncTool.py:143-154 | the kept records are those of the entries that parse, in input order, so there are never more records than entries |
| RepoSyncTool.RetrieveAndMergeRepositoryConfigs | src/RepoSyncTool.py:179-185 | filter, then every manifest's records in file order, then the merge: exactly `Retrieved` |
| RepoSyncTool.ReadStartConfig | src/RepoSyncTool.py:188-204 | the in-place dictionary updates give exactly `StartConfigOf` |
| RepoSyncTool.StartConfigNormalised | src/RepoSyncTool.py:193-203 | the result is None iff `path` is missing. `path` and `rootPath` become absolute, `prefix` defaults to "", a present `rootPath` is converted against the config file, a missing one becomes the config file's directory, and no other key changes |
| RepoSyncTool.StartConfigKeys | src/RepoSyncTool.py:198-203 | a loaded start config has string `path` and `rootPath` and a `prefix` |
| RepoSyncTool.Execute | src/RepoSyncTool.py:207-221 | the whole run yields exactly `Execution` |
| RepoSyncTool.ExecuteStopsWithoutPath | src/RepoSyncTool.py:210-212 | without `path` the run stops before any command |
| SyncRepo.OrIfBlank | sync_repo.py:36-40 | the default replaces the value exactly when it is `''` or None. Any other value is kept |
| SyncRepo.VersionNumber | sync_repo.py:44-48 | a blank version reads as 0 and a number as itself |
| SyncRepo.ParseEntry | sync_repo.py:29-59 | a kept record has an absolute path and the entry's URL, its kind matches the type, and its remote and branch are never blank |
| SyncRepo.ExtractRepositoryConfigs | sync_repo.py:25-60 | the loop, with `remote`, `branch` and `version` reassigned, returns exactly `Extracted` |
| SyncRepo.EntryDroppedExactly | sync_repo.py:30-51 | an entry is skipped for its type iff the type is present but neither "git" nor "svn"; for its version iff the type is valid, `url`, `remote`, `branch` and a string `path` are present and the version is a non-empty string `int()` rejects |
| SyncRepo.EntryFailsExactly | sync_repo.py:30-44 | an entry ends the run iff `type` is missing, or the type is valid and one of `url`, `remote`, `branch`, `path`, `version` is missing, or `path` is not a string |
| SyncRepo.BlankDefaults | sync_repo.py:35-48 | an empty or null remote becomes "origin", branch "main" and version 0. Other values are kept, and the path is converted as written |
| SyncRepo.VersionForms | sync_repo.py:42-48 | the decimal string of `n` reads as `n`, and `''` reads as 0 |
| SyncRepo.SkippedEntryIgnored | sync_repo.py:30-33 | a skipped entry leaves the result equal to that of the file without it, so later entries are still processed |
| SyncRepo.ExtractedFailsExactly | sync_repo.py:29-59 | a manifest fails iff one of its entries raises, and then with the first such entry's exception |
| SyncRepo.RetrieveAndMergeRepositoryConfigs | sync_repo.py:77-82 | filter, extraction and merge of the older script give exactly `Retrieved` |
| SyncRepo.MergedByPath | sync_repo.py:63-74 | the older merge keeps one record per path, each the input record of the maximum version on its path and the last of that version, listed in first-occurrence order |
| SyncRepo.MergedLatestMaximum | sync_repo.py:68-71 | each merged record is an input record of the highest version on its path, and no later record of that path has an equal or higher version |
| SyncRepo.StartConfigOf | sync_repo.py:84-89 | a loaded start config has an absolute string `path` |
| SyncRepo.ReadStartConfig | sync_repo.py:84-89 | overwriting `data['path']` gives exactly `StartConfigOf` |
| SyncRepo.StartConfigNormalised | sync_repo.py:84-89 | a missing `path` raises KeyError and a non-string one TypeError. Otherwise only `path` changes and no key is added |
| SyncRepo.ExecuteNeedsPrefix | sync_repo.py:172 | without `prefix` the older run raises KeyError, where the current script defaults it to "" |
| SyncRepo.Execute | sync_repo.py:167-177 | the older run yields exactly `Execution` |
| SyncRepo.SvnAlwaysHead | sync_repo.py:148-157 | the older svn reconciler checks out revision `HEAD`, then updates, then reverts |
| SyncRepo.GitAsCurrent | sync_repo.py:99-146 | the older git reconciler has the same states and trace as the current one. This holds by construction: its text at sync_repo.py:99-146 is that of src/RepoSyncTool.py:40-89 with the command helper renamed, so both variants share `Reconcile.GitPlan`. What is proved is that a finished older run ends with checkout and pull of a non-empty branch and remote |
| SyncRepo.RemoteAndBranchDiffer | sync_repo.py:34-40 | a null remote or branch stays null in the current script but becomes "origin" or "main" here. A missing remote or branch defaults in the current script but raises KeyError here |
| SyncRepo.PlaceholderKeptLiterally | sync_repo.py:41 | `{rootPath}` is not substituted: the path resolves under the manifest's directory, where the current script puts it under the root path |

## Left out

- The `os.walk` traversal and its order: the walk is an input, and the result follows the order given.
- JSON decoding: a malformed file, a top-level value that is not an array, and entries that are not objects are not modelled. Floats, booleans, arrays and objects as values are not modelled either.
- Text.ParseInt: it does not model `int()` of floats or booleans, non-ASCII Unicode digits, or Python's 4300-digit limit on conversion.
- Reconcile.Local: it holds the remote URLs as the `strip()`ped output of `git config --get`, and the stripping itself is not modelled.
- The filesystem is a per-target observation (`Local`). The model does not cover one reconciler's effects on another target's observation, as with nested target paths. Nor does it cover `.git` or the target being a regular file.
- Real subprocess and filesystem effects are not modelled. That includes a missing `git` or `svn` binary, which raises FileNotFoundError from `subprocess.run`.
- Paths: only POSIX `posixpath` is modelled. Windows `ntpath` semantics are not.
- `print` logging, `Main`, `sys.argv` and `input()` are not modelled.
- build.py is PyInstaller packaging and is not part of this model.
