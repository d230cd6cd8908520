/** The name filter of `FindRepositoriesFiles`, identical in both variants:
    of the files a directory walk reports, keep the regular files whose name
    starts with the configured prefix and ends with `.json`. The walk itself
    is an input. */
module Scan {
  import opened Values
  import opened Text
  import opened Paths

  /** A file name the walk reported, and whether `os.path.isfile` holds of it. */
  datatype FileEntry = FileEntry(name: string, isFile: bool)

  /** One `(root, dirs, files)` triple produced by `os.walk`. */
  datatype Listing = Listing(root: string, files: seq<FileEntry>)

  predicate IsManifestName(name: string, prefix: string)
  {
    StartsWith(name, prefix) && EndsWith(name, ".json")
  }

  predicate Qualifies(f: FileEntry, prefix: string)
  {
    f.isFile && IsManifestName(f.name, prefix)
  }

  /** The paths kept from one directory, in listing order. `startswith` is
      only reached for regular files, and raises TypeError when the prefix
      is not a string. */
  function FoundIn(root: string, files: seq<FileEntry>, prefix: JVal): Result<seq<string>>
    decreases |files|
  {
    if files == [] then Ok([])
    else
      var f := files[|files| - 1];
      match FoundIn(root, files[..|files| - 1], prefix)
      case Err(e) => Err(e)
      case Ok(found) =>
        if !f.isFile then Ok(found)
        else if !prefix.Str? then Err(TypeError)
        else if IsManifestName(f.name, prefix.s) then Ok(found + [Join(root, f.name)])
        else Ok(found)
  }

  /** The paths kept from the whole walk, directory by directory. */
  function Found(walk: seq<Listing>, prefix: JVal): Result<seq<string>>
    decreases |walk|
  {
    if walk == [] then Ok([])
    else
      var d := walk[|walk| - 1];
      match Found(walk[..|walk| - 1], prefix)
      case Err(e) => Err(e)
      case Ok(before) =>
        match FoundIn(d.root, d.files, prefix)
        case Err(e) => Err(e)
        case Ok(here) => Ok(before + here)
  }

  /** `FindRepositoriesFiles(path, prefix)`, given the walk of `path`. */
  method FindRepositoriesFiles(walk: seq<Listing>, prefix: JVal) returns (r: Result<seq<string>>)
    ensures r == Found(walk, prefix)
  {
    var repositoriesFiles: seq<string> := [];
    for i := 0 to |walk|
      invariant Found(walk[..i], prefix) == Ok(repositoriesFiles)
    {
      var root, files := walk[i].root, walk[i].files;
      ghost var before, here := repositoriesFiles, [];
      assert files[..0] == [];
      for j := 0 to |files|
        invariant repositoriesFiles == before + here
        invariant FoundIn(root, files[..j], prefix) == Ok(here)
      {
        var file := files[j];
        assert files[..j + 1][..j] == files[..j];
        if file.isFile {
          if !prefix.Str? {
            assert FoundIn(root, files[..j + 1], prefix) == Err(TypeError);
            FoundInErrPersists(root, files, prefix, j + 1);
            assert walk[..i + 1][..i] == walk[..i];
            assert Found(walk[..i + 1], prefix) == Err(TypeError);
            FoundErrPersists(walk, prefix, i + 1);
            return Err(TypeError);
          }
          if IsManifestName(file.name, prefix.s) {
            repositoriesFiles := repositoriesFiles + [Join(root, file.name)];
            here := here + [Join(root, file.name)];
          }
        }
      }
      assert files[..|files|] == files;
      assert walk[..i + 1][..i] == walk[..i];
    }
    assert walk[..|walk|] == walk;
    return Ok(repositoriesFiles);
  }

  lemma {:induction false} FoundInErrPersists(root: string, files: seq<FileEntry>, prefix: JVal, n: nat)
    requires n <= |files| && FoundIn(root, files[..n], prefix).Err?
    ensures FoundIn(root, files, prefix) == FoundIn(root, files[..n], prefix)
    decreases |files| - n
  {
    if n < |files| {
      assert files[..n + 1][..n] == files[..n];
      FoundInErrPersists(root, files, prefix, n + 1);
    } else {
      assert files[..n] == files;
    }
  }

  lemma {:induction false} FoundErrPersists(walk: seq<Listing>, prefix: JVal, n: nat)
    requires n <= |walk| && Found(walk[..n], prefix).Err?
    ensures Found(walk, prefix) == Found(walk[..n], prefix)
    decreases |walk| - n
  {
    if n < |walk| {
      assert walk[..n + 1][..n] == walk[..n];
      FoundErrPersists(walk, prefix, n + 1);
    } else {
      assert walk[..n] == walk;
    }
  }

  // ---------------------------------------------------------------------
  // Properties

  /** Some regular file of `files` with a matching name joins to `x`. */
  predicate Yields(root: string, files: seq<FileEntry>, prefix: string, x: string)
  {
    exists j :: 0 <= j < |files| && YieldsAt(root, files, prefix, x, j)
  }

  /** The file at index `j` is a regular file with a matching name that
      joins to `x`. */
  predicate YieldsAt(root: string, files: seq<FileEntry>, prefix: string, x: string, j: int)
    requires 0 <= j < |files|
  {
    Qualifies(files[j], prefix) && x == Join(root, files[j].name)
  }

  lemma YieldsStep(root: string, files: seq<FileEntry>, prefix: string, x: string)
    requires files != []
    ensures Yields(root, files, prefix, x) <==>
      (Yields(root, files[..|files| - 1], prefix, x) || YieldsAt(root, files, prefix, x, |files| - 1))
  {
    var n := |files| - 1;
    var init := files[..n];
    if Yields(root, files, prefix, x) {
      var j :| 0 <= j < |files| && YieldsAt(root, files, prefix, x, j);
      if j < n {
        assert init[j] == files[j];
        assert YieldsAt(root, init, prefix, x, j);
      }
    }
    if Yields(root, init, prefix, x) {
      var j :| 0 <= j < |init| && YieldsAt(root, init, prefix, x, j);
      assert files[j] == init[j];
      assert YieldsAt(root, files, prefix, x, j);
    }
  }

  /** With a string prefix one directory yields exactly the paths of its
      regular files whose names match. */
  lemma {:induction false} FoundInExactly(root: string, files: seq<FileEntry>, prefix: string)
    ensures FoundIn(root, files, Str(prefix)).Ok?
    ensures forall x :: x in FoundIn(root, files, Str(prefix)).value <==> Yields(root, files, prefix, x)
    decreases |files|
  {
    if files != [] {
      var n := |files| - 1;
      FoundInExactly(root, files[..n], prefix);
      forall x ensures x in FoundIn(root, files, Str(prefix)).value <==> Yields(root, files, prefix, x) {
        YieldsStep(root, files, prefix, x);
      }
    }
  }

  /** Some directory of the walk yields `x`. */
  predicate InWalk(walk: seq<Listing>, prefix: string, x: string)
  {
    exists i :: 0 <= i < |walk| && Yields(walk[i].root, walk[i].files, prefix, x)
  }

  /** Soundness and completeness of the filter: with a string prefix the
      result holds exactly the joined paths of the walk's regular files whose
      name starts with the prefix and ends with `.json`. */
  lemma {:induction false} FoundExactly(walk: seq<Listing>, prefix: string)
    ensures Found(walk, Str(prefix)).Ok?
    ensures forall x :: x in Found(walk, Str(prefix)).value <==> InWalk(walk, prefix, x)
    decreases |walk|
  {
    if walk != [] {
      var n := |walk| - 1;
      var init := walk[..n];
      FoundExactly(init, prefix);
      FoundInExactly(walk[n].root, walk[n].files, prefix);
      var before := Found(init, Str(prefix)).value;
      var here := FoundIn(walk[n].root, walk[n].files, Str(prefix)).value;
      assert Found(walk, Str(prefix)).value == before + here;
      forall x ensures x in Found(walk, Str(prefix)).value <==> InWalk(walk, prefix, x) {
        InWalkStep(walk, prefix, x);
      }
    }
  }

  lemma InWalkStep(walk: seq<Listing>, prefix: string, x: string)
    requires walk != []
    ensures InWalk(walk, prefix, x) <==>
      (InWalk(walk[..|walk| - 1], prefix, x) || Yields(walk[|walk| - 1].root, walk[|walk| - 1].files, prefix, x))
  {
    var n := |walk| - 1;
    var init := walk[..n];
    if InWalk(walk, prefix, x) {
      var i :| 0 <= i < |walk| && Yields(walk[i].root, walk[i].files, prefix, x);
      if i < n {
        assert init[i] == walk[i];
        assert InWalk(init, prefix, x);
      }
    }
    if InWalk(init, prefix, x) {
      var i :| 0 <= i < n && Yields(init[i].root, init[i].files, prefix, x);
      assert walk[i] == init[i];
    }
  }

  /** With an empty prefix only the `.json` suffix decides. */
  lemma EmptyPrefixOnlySuffix(name: string)
    ensures IsManifestName(name, "") <==> EndsWith(name, ".json")
  {
  }

  /** The filter fails only when the prefix is not a string and the walk
      reaches a regular file. */
  lemma {:induction false} FoundFailsOnlyOnNonStringPrefix(walk: seq<Listing>, prefix: JVal)
    ensures Found(walk, prefix).Err? <==>
      (!prefix.Str? && exists i, j :: 0 <= i < |walk| && 0 <= j < |walk[i].files| && walk[i].files[j].isFile)
    decreases |walk|
  {
    if prefix.Str? {
      FoundExactly(walk, prefix.s);
    } else if walk != [] {
      var n := |walk| - 1;
      FoundFailsOnlyOnNonStringPrefix(walk[..n], prefix);
      FoundInFailsOnRegularFile(walk[n].root, walk[n].files, prefix);
      if exists i, j :: 0 <= i < |walk| && 0 <= j < |walk[i].files| && walk[i].files[j].isFile {
        var i, j :| 0 <= i < |walk| && 0 <= j < |walk[i].files| && walk[i].files[j].isFile;
        if i < n {
          assert walk[..n][i] == walk[i];
        }
      }
      if exists i, j :: 0 <= i < n && 0 <= j < |walk[..n][i].files| && walk[..n][i].files[j].isFile {
        var i, j :| 0 <= i < n && 0 <= j < |walk[..n][i].files| && walk[..n][i].files[j].isFile;
        assert walk[i] == walk[..n][i];
      }
    }
  }

  lemma {:induction false} FoundInFailsOnRegularFile(root: string, files: seq<FileEntry>, prefix: JVal)
    requires !prefix.Str?
    ensures FoundIn(root, files, prefix).Err? <==> exists j :: 0 <= j < |files| && files[j].isFile
    ensures FoundIn(root, files, prefix).Ok? ==> FoundIn(root, files, prefix).value == []
    decreases |files|
  {
    if files != [] {
      var n := |files| - 1;
      FoundInFailsOnRegularFile(root, files[..n], prefix);
      if exists j :: 0 <= j < |files| && files[j].isFile {
        var j :| 0 <= j < |files| && files[j].isFile;
        if j < n {
          assert files[..n][j] == files[j];
        }
      }
      if exists j :: 0 <= j < n && files[..n][j].isFile {
        var j :| 0 <= j < n && files[..n][j].isFile;
        assert files[j] == files[..n][j];
      }
    }
  }
}
