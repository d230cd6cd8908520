/** POSIX path handling as Python's `posixpath` does it (`isabs`, `split`
    on '/', `normpath`, `dirname`, `join`, `abspath`), and the scripts'
    `ConvertToAbsolutePath`, which both variants share. */
module Paths {

  predicate IsAbs(p: string)
  {
    |p| > 0 && p[0] == '/'
  }

  predicate EndsWithSlash(p: string)
  {
    |p| > 0 && p[|p| - 1] == '/'
  }

  // ---------------------------------------------------------------------
  // Segments

  /** `p.split('/')`: the pieces between slashes, empty ones included. */
  function Split(p: string): (parts: seq<string>)
    ensures |parts| >= 1
    decreases |p|
  {
    if |p| == 0 then [""]
    else if p[0] == '/' then [""] + Split(p[1..])
    else
      var rest := Split(p[1..]);
      [[p[0]] + rest[0]] + rest[1..]
  }

  /** `'/'.join(segments)`. */
  function JoinSegments(segments: seq<string>): string
    decreases |segments|
  {
    if segments == [] then ""
    else if |segments| == 1 then segments[0]
    else segments[0] + "/" + JoinSegments(segments[1..])
  }

  /** A segment that survives normalisation. */
  predicate IsName(c: string)
  {
    c != "" && c != "." && c != ".." && '/' !in c
  }

  predicate AllNames(cs: seq<string>)
  {
    forall i :: 0 <= i < |cs| ==> IsName(cs[i])
  }

  /** The loop of `posixpath.normpath` for a path that starts with a slash:
      empty and `.` segments are dropped, `..` removes the previous name
      and is dropped at the root. */
  function Resolve(stack: seq<string>, comps: seq<string>): seq<string>
    decreases |comps|
  {
    if comps == [] then stack
    else
      var c := comps[0];
      if c == "" || c == "." then Resolve(stack, comps[1..])
      else if c == ".." then Resolve(if stack == [] then [] else stack[..|stack| - 1], comps[1..])
      else Resolve(stack + [c], comps[1..])
  }

  /** The names of a path once `.`, `..` and empty segments are resolved
      from the root. */
  function Segments(p: string): seq<string>
  {
    Resolve([], Split(p))
  }

  // ---------------------------------------------------------------------
  // normpath, dirname, join, abspath

  /** The leading slashes `normpath` keeps: POSIX lets exactly two stand,
      three or more collapse to one. */
  function Lead(p: string): string
    requires IsAbs(p)
  {
    if |p| >= 2 && p[1] == '/' && !(|p| >= 3 && p[2] == '/') then "//" else "/"
  }

  /** `posixpath.normpath` of an absolute path. */
  function NormAbs(p: string): (r: string)
    requires IsAbs(p)
    ensures IsAbs(r)
  {
    Lead(p) + JoinSegments(Segments(p))
  }

  /** Index of the last '/', or -1. */
  function LastSlash(p: string): (i: int)
    ensures -1 <= i < |p|
    ensures i >= 0 ==> p[i] == '/'
    ensures forall j :: i < j < |p| ==> p[j] != '/'
    decreases |p|
  {
    if p == [] then -1
    else if p[|p| - 1] == '/' then |p| - 1
    else LastSlash(p[..|p| - 1])
  }

  function RStripSlashes(h: string): string
    decreases |h|
  {
    if EndsWithSlash(h) then RStripSlashes(h[..|h| - 1]) else h
  }

  predicate AllSlashes(h: string)
  {
    forall i :: 0 <= i < |h| ==> h[i] == '/'
  }

  /** `posixpath.dirname`: everything up to the last slash, with trailing
      slashes removed unless the head is made of slashes only. */
  function Dirname(p: string): string
  {
    var head := p[..LastSlash(p) + 1];
    if head != "" && !AllSlashes(head) then RStripSlashes(head) else head
  }

  /** `posixpath.join(a, b)` for two arguments. */
  function Join(a: string, b: string): (r: string)
    ensures IsAbs(a) ==> IsAbs(r)
    ensures IsAbs(b) ==> r == b
  {
    if IsAbs(b) then b
    else if a == "" || EndsWithSlash(a) then a + b
    else a + "/" + b
  }

  /** `posixpath.abspath`, with the process's working directory `cwd`
      (always absolute) passed in. */
  function AbsPath(p: string, cwd: string): (r: string)
    requires IsAbs(cwd)
    ensures IsAbs(r)
  {
    NormAbs(if IsAbs(p) then p else Join(cwd, p))
  }

  /** `ConvertToAbsolutePath(path, configFilePath)`: an absolute path is
      returned as it is; a relative one is joined to the directory of the
      basis file and normalised. */
  function ConvertToAbsolutePath(path: string, basis: string, cwd: string): (r: string)
    requires IsAbs(cwd)
    ensures IsAbs(r)
    ensures IsAbs(path) ==> r == path
  {
    if IsAbs(path) then path else AbsPath(Join(Dirname(basis), path), cwd)
  }

  // ---------------------------------------------------------------------
  // Lemmas about split and resolve

  lemma {:induction false} SplitWithoutSlash(x: string)
    requires '/' !in x
    ensures Split(x) == [x]
    decreases |x|
  {
    if |x| > 0 {
      assert x[0] in x;
      assert forall c :: c in x[1..] ==> c in x;
      SplitWithoutSlash(x[1..]);
      assert [x[0]] + x[1..] == x;
    }
  }

  /** Splitting at a slash splits the pieces on either side independently. */
  lemma {:induction false} SplitAround(a: string, b: string)
    ensures Split(a + "/" + b) == Split(a) + Split(b)
    decreases |a|
  {
    if |a| == 0 {
      SplitStep(a + "/" + b);
      assert (a + "/" + b)[1..] == b;
    } else {
      var s := a + "/" + b;
      var rest := a[1..] + "/" + b;
      assert s[0] == a[0] && s[1..] == rest;
      SplitStep(s);
      SplitStep(a);
      SplitAround(a[1..], b);
      var ra, rb := Split(a[1..]), Split(b);
      if a[0] == '/' {
        assert [""] + (ra + rb) == ([""] + ra) + rb;
      } else {
        assert (ra + rb)[0] == ra[0];
        assert (ra + rb)[1..] == ra[1..] + rb;
        assert [[a[0]] + ra[0]] + (ra[1..] + rb) == ([[a[0]] + ra[0]] + ra[1..]) + rb;
      }
    }
  }

  /** One step of `Split`: the first character either opens a new part or
      joins the first part of the rest. */
  lemma SplitStep(p: string)
    requires |p| > 0
    ensures p[0] == '/' ==> Split(p) == [""] + Split(p[1..])
    ensures p[0] != '/' ==> Split(p) == [[p[0]] + Split(p[1..])[0]] + Split(p[1..])[1..]
  {
  }

  /** Splitting a join of slash-free segments gives the segments back. */
  lemma {:induction false} SplitJoin(segments: seq<string>)
    requires |segments| >= 1
    requires forall i :: 0 <= i < |segments| ==> '/' !in segments[i]
    ensures Split(JoinSegments(segments)) == segments
    decreases |segments|
  {
    if |segments| == 1 {
      SplitWithoutSlash(segments[0]);
    } else {
      SplitWithoutSlash(segments[0]);
      SplitJoin(segments[1..]);
      SplitAround(segments[0], JoinSegments(segments[1..]));
      assert [segments[0]] + segments[1..] == segments;
    }
  }

  /** Resolving a concatenation is resolving the parts one after the other. */
  lemma {:induction false} ResolveAppend(stack: seq<string>, x: seq<string>, y: seq<string>)
    ensures Resolve(stack, x + y) == Resolve(Resolve(stack, x), y)
    decreases |x|
  {
    if x != [] {
      assert (x + y)[0] == x[0];
      assert (x + y)[1..] == x[1..] + y;
      var c := x[0];
      var next := if c == "" || c == "." then stack
                  else if c == ".." then (if stack == [] then [] else stack[..|stack| - 1])
                  else stack + [c];
      ResolveAppend(next, x[1..], y);
    } else {
      assert x + y == y;
    }
  }

  /** Resolution only ever keeps names. */
  lemma {:induction false} ResolveKeepsNames(stack: seq<string>, comps: seq<string>)
    requires AllNames(stack)
    requires forall i :: 0 <= i < |comps| ==> '/' !in comps[i]
    ensures AllNames(Resolve(stack, comps))
    decreases |comps|
  {
    if comps != [] {
      var c := comps[0];
      if c == "" || c == "." {
      } else if c == ".." {
      } else {
        assert AllNames(stack + [c]);
      }
      var next := if c == "" || c == "." then stack
                  else if c == ".." then (if stack == [] then [] else stack[..|stack| - 1])
                  else stack + [c];
      ResolveKeepsNames(next, comps[1..]);
    }
  }

  /** Names are pushed as they are. */
  lemma {:induction false} ResolveNames(stack: seq<string>, names: seq<string>)
    requires AllNames(names)
    ensures Resolve(stack, names) == stack + names
    decreases |names|
  {
    if names != [] {
      assert IsName(names[0]);
      ResolveNames(stack + [names[0]], names[1..]);
      assert stack + [names[0]] + names[1..] == stack + names;
    }
  }

  /** No piece of a split holds a slash. */
  lemma {:induction false} SplitPartsSlashFree(p: string)
    ensures forall i :: 0 <= i < |Split(p)| ==> '/' !in Split(p)[i]
    decreases |p|
  {
    if |p| > 0 {
      SplitPartsSlashFree(p[1..]);
      if p[0] != '/' {
        var rest := Split(p[1..]);
        assert forall i :: 1 <= i < |Split(p)| ==> Split(p)[i] == rest[i];
        assert Split(p)[0] == [p[0]] + rest[0];
      }
    }
  }

  lemma SegmentsAreNames(p: string)
    ensures AllNames(Segments(p))
  {
    SplitPartsSlashFree(p);
    ResolveKeepsNames([], Split(p));
  }

  /** A relative `b` joined to `a` resolves as `a`'s pieces followed by
      `b`'s, whichever way `join` glued them. */
  lemma ResolveJoin(stack: seq<string>, a: string, b: string)
    requires !IsAbs(b)
    ensures Resolve(stack, Split(Join(a, b))) == Resolve(Resolve(stack, Split(a)), Split(b))
  {
    if a == "" {
      assert Join(a, b) == b;
      assert Resolve(stack, [""]) == stack;
    } else if EndsWithSlash(a) {
      var a' := a[..|a| - 1];
      assert a == a' + "/" + "";
      assert Join(a, b) == a' + "/" + b;
      SplitAround(a', b);
      SplitAround(a', "");
      ResolveAppend(stack, Split(a'), Split(b));
      ResolveAppend(stack, Split(a'), [""]);
    } else {
      SplitAround(a, b);
      ResolveAppend(stack, Split(a), Split(b));
    }
  }

  // ---------------------------------------------------------------------
  // Lemmas about normpath

  lemma {:induction false} JoinedNamesStartWithName(segments: seq<string>)
    requires |segments| > 0 && AllNames(segments)
    ensures |JoinSegments(segments)| > 0 && JoinSegments(segments)[0] != '/'
  {
    assert IsName(segments[0]);
    if |segments| > 1 {
      assert JoinSegments(segments)[0] == segments[0][0];
    }
    assert segments[0][0] in segments[0];
  }

  /** A leading slash adds one empty segment, which resolution drops. */
  lemma SlashThenResolve(x: string)
    ensures Split("/" + x) == [""] + Split(x)
    ensures Resolve([], Split("/" + x)) == Resolve([], Split(x))
  {
    assert ("/" + x)[1..] == x;
    assert ([""] + Split(x))[1..] == Split(x);
  }

  /** Normalising keeps the names of the path. */
  lemma SegmentsOfNormAbs(p: string)
    requires IsAbs(p)
    ensures Segments(NormAbs(p)) == Segments(p)
  {
    var names := Segments(p);
    SegmentsAreNames(p);
    var joined := JoinSegments(names);
    assert Resolve([], Split(joined)) == names by {
      if names == [] {
        assert Split(joined) == [""];
        assert Resolve([], [""]) == [];
      } else {
        forall i | 0 <= i < |names| ensures '/' !in names[i] {
          assert IsName(names[i]);
        }
        SplitJoin(names);
        ResolveNames([], names);
      }
    }
    SlashThenResolve(joined);
    if Lead(p) == "//" {
      SlashThenResolve("/" + joined);
      assert NormAbs(p) == "/" + ("/" + joined);
    } else {
      assert NormAbs(p) == "/" + joined;
    }
  }

  /** `normpath` is idempotent. */
  lemma NormAbsIdempotent(p: string)
    requires IsAbs(p)
    ensures NormAbs(NormAbs(p)) == NormAbs(p)
  {
    var q := NormAbs(p);
    SegmentsOfNormAbs(p);
    var names := Segments(p);
    SegmentsAreNames(p);
    if names != [] {
      JoinedNamesStartWithName(names);
    }
    assert Lead(q) == Lead(p);
  }

  /** A trailing slash makes no difference to `normpath`. */
  lemma NormAbsTrailingSlash(x: string)
    requires IsAbs(x) && !EndsWithSlash(x)
    ensures NormAbs(x + "/") == NormAbs(x)
  {
    SplitAround(x, "");
    assert x + "/" == x + "/" + "";
    ResolveAppend([], Split(x), [""]);
    assert Segments(x + "/") == Segments(x);
    assert Lead(x + "/") == Lead(x);
  }

  // ---------------------------------------------------------------------
  // Lemmas about ConvertToAbsolutePath

  /** Converting twice is converting once. */
  lemma ConvertIdempotent(path: string, basis: string, cwd: string)
    requires IsAbs(cwd)
    ensures ConvertToAbsolutePath(ConvertToAbsolutePath(path, basis, cwd), basis, cwd)
         == ConvertToAbsolutePath(path, basis, cwd)
  {
  }

  /** A converted relative path is already in normal form. */
  lemma ConvertedRelativeIsNormal(path: string, basis: string, cwd: string)
    requires IsAbs(cwd) && !IsAbs(path)
    ensures NormAbs(ConvertToAbsolutePath(path, basis, cwd)) == ConvertToAbsolutePath(path, basis, cwd)
  {
    var j := Join(Dirname(basis), path);
    NormAbsIdempotent(if IsAbs(j) then j else Join(cwd, j));
  }

  /** A relative path lands under the basis file's directory: its names are
      that directory's names followed by the path's own, with `.` and `..`
      resolved. */
  lemma ConvertRelativeUnderBasisDir(path: string, basis: string, cwd: string)
    requires IsAbs(cwd) && !IsAbs(path)
    ensures Segments(ConvertToAbsolutePath(path, basis, cwd))
         == Resolve(Segments(AbsPath(Dirname(basis), cwd)), Split(path))
  {
    var d := Dirname(basis);
    var j := Join(d, path);
    if IsAbs(d) {
      assert IsAbs(j);
      SegmentsOfNormAbs(j);
      SegmentsOfNormAbs(d);
      ResolveJoin([], d, path);
    } else {
      assert !IsAbs(j) by {
        if d != "" {
          assert j[0] == d[0];
        }
      }
      var x := Join(cwd, j);
      SegmentsOfNormAbs(x);
      SegmentsOfNormAbs(Join(cwd, d));
      ResolveJoin([], cwd, j);
      ResolveJoin(Segments(cwd), d, path);
      ResolveJoin([], cwd, d);
    }
  }

  /** Converting the empty path gives the basis file's own directory. */
  lemma ConvertEmptyIsBasisDir(basis: string, cwd: string)
    requires IsAbs(cwd)
    ensures ConvertToAbsolutePath("", basis, cwd) == AbsPath(Dirname(basis), cwd)
  {
    var d := Dirname(basis);
    if d == "" {
    } else if EndsWithSlash(d) {
      assert Join(d, "") == d;
    } else if IsAbs(d) {
      assert Join(d, "") == d + "/";
      NormAbsTrailingSlash(d);
    } else {
      assert Join(d, "") == d + "/";
      assert Join(cwd, d + "/") == Join(cwd, d) + "/";
      NormAbsTrailingSlash(Join(cwd, d));
    }
  }
}
