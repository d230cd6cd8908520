/** `MergeRepositoryConfigs`, identical in both variants: one record per
    target path, the one of highest version, the later record winning on
    equal versions, in order of each path's first occurrence.

    The merge is generic in the record type; `key` reads a record's target
    path and `version` its version number. */
module Merge {

  predicate HasKey<R>(rs: seq<R>, key: R -> string, k: string)
  {
    exists j :: 0 <= j < |rs| && key(rs[j]) == k
  }

  lemma HasKeyStep<R>(rs: seq<R>, key: R -> string)
    requires rs != []
    ensures forall k :: HasKey(rs, key, k) <==>
      (HasKey(rs[..|rs| - 1], key, k) || key(rs[|rs| - 1]) == k)
  {
    var n := |rs| - 1;
    forall k ensures HasKey(rs, key, k) <==> (HasKey(rs[..n], key, k) || key(rs[n]) == k) {
      if HasKey(rs, key, k) {
        var j :| 0 <= j < |rs| && key(rs[j]) == k;
        if j < n {
          assert rs[..n][j] == rs[j];
        }
      }
      if HasKey(rs[..n], key, k) {
        var j :| 0 <= j < n && key(rs[..n][j]) == k;
        assert rs[j] == rs[..n][j];
      }
    }
  }

  /** The distinct keys of `rs`, in order of first occurrence. */
  function Order<R>(rs: seq<R>, key: R -> string): (order: seq<string>)
    ensures forall a, b :: 0 <= a < b < |order| ==> order[a] != order[b]
    ensures forall k :: k in order <==> HasKey(rs, key, k)
    decreases |rs|
  {
    if rs == [] then []
    else
      HasKeyStep(rs, key);
      var before := Order(rs[..|rs| - 1], key);
      var k := key(rs[|rs| - 1]);
      if k in before then before else before + [k]
  }

  /** The highest version among the records with key `k`. */
  function MaxVersion<R>(rs: seq<R>, key: R -> string, version: R -> int, k: string): (m: int)
    requires HasKey(rs, key, k)
    ensures forall j :: 0 <= j < |rs| && key(rs[j]) == k ==> version(rs[j]) <= m
    ensures exists j :: 0 <= j < |rs| && key(rs[j]) == k && version(rs[j]) == m
    decreases |rs|
  {
    HasKeyStep(rs, key);
    var n := |rs| - 1;
    var last := rs[n];
    var before := rs[..n];
    assert forall j :: 0 <= j < n ==> before[j] == rs[j];
    if key(last) != k then MaxVersion(before, key, version, k)
    else if HasKey(before, key, k) then
      var m := MaxVersion(before, key, version, k);
      if m < version(last) then version(last) else m
    else version(last)
  }

  /** The last index holding a record with key `k` and version `v`, or -1. */
  function LastIndexOf<R>(rs: seq<R>, key: R -> string, version: R -> int, k: string, v: int): (w: int)
    ensures -1 <= w < |rs|
    ensures w >= 0 ==> key(rs[w]) == k && version(rs[w]) == v
    ensures forall j :: w < j < |rs| ==> !(key(rs[j]) == k && version(rs[j]) == v)
    decreases |rs|
  {
    if rs == [] then -1
    else
      var n := |rs| - 1;
      if key(rs[n]) == k && version(rs[n]) == v then n
      else
        assert forall j :: 0 <= j < n ==> rs[..n][j] == rs[j];
        LastIndexOf(rs[..n], key, version, k, v)
  }

  /** Where the record kept for key `k` sits: it has the highest version of
      its group, and every later record of the group has a strictly lower
      one, so an equal version seen later would have replaced it. */
  function WinnerIndex<R>(rs: seq<R>, key: R -> string, version: R -> int, k: string): (w: nat)
    requires HasKey(rs, key, k)
    ensures w < |rs| && key(rs[w]) == k
    ensures forall j :: 0 <= j < |rs| && key(rs[j]) == k ==> version(rs[j]) <= version(rs[w])
    ensures forall j :: w < j < |rs| && key(rs[j]) == k ==> version(rs[j]) < version(rs[w])
  {
    var m := MaxVersion(rs, key, version, k);
    var w := LastIndexOf(rs, key, version, k, m);
    assert w >= 0;
    w
  }

  function Winner<R>(rs: seq<R>, key: R -> string, version: R -> int, k: string): R
    requires HasKey(rs, key, k)
  {
    rs[WinnerIndex(rs, key, version, k)]
  }

  /** The merge result: for each distinct key, in order of first occurrence,
      the record kept for it. */
  function Merged<R>(rs: seq<R>, key: R -> string, version: R -> int): (out: seq<R>)
  {
    var order := Order(rs, key);
    seq(|order|, i requires 0 <= i < |order| => Winner(rs, key, version, order[i]))
  }

  /** Appending one record: it replaces the kept record of its key unless
      that one has a strictly higher version. */
  lemma WinnerStep<R>(rs: seq<R>, key: R -> string, version: R -> int, k: string)
    requires rs != [] && HasKey(rs, key, k)
    ensures
      var n := |rs| - 1;
      Winner(rs, key, version, k)
        == if key(rs[n]) != k then Winner(rs[..n], key, version, k)
           else if HasKey(rs[..n], key, k) && version(rs[n]) < version(Winner(rs[..n], key, version, k))
           then Winner(rs[..n], key, version, k)
           else rs[n]
  {
    var n := |rs| - 1;
    var before := rs[..n];
    HasKeyStep(rs, key);
    assert forall j :: 0 <= j < n ==> before[j] == rs[j];
    var m := MaxVersion(rs, key, version, k);
    if key(rs[n]) != k {
      assert m == MaxVersion(before, key, version, k);
      assert LastIndexOf(rs, key, version, k, m) == LastIndexOf(before, key, version, k, m);
    } else if HasKey(before, key, k) {
      var mb := MaxVersion(before, key, version, k);
      assert version(Winner(before, key, version, k)) == mb;
      if version(rs[n]) < mb {
        assert m == mb;
        assert LastIndexOf(rs, key, version, k, m) == LastIndexOf(before, key, version, k, m);
      }
    }
  }

  /** `m` and `order` hold the merge of `rs` so far: `order` lists the keys
      seen in order of first occurrence and `m` maps each to its record. */
  ghost predicate Tracks<R>(m: map<string, R>, order: seq<string>, rs: seq<R>, key: R -> string, version: R -> int)
  {
    && order == Order(rs, key)
    && (forall k :: k in m <==> k in order)
    && KeepsWinners(m, rs, key, version)
  }

  /** Each key of `m` maps to the record kept for it in `rs`. */
  ghost predicate KeepsWinners<R>(m: map<string, R>, rs: seq<R>, key: R -> string, version: R -> int)
  {
    forall k :: k in m ==> HasKey(rs, key, k) && m[k] == Winner(rs, key, version, k)
  }

  /** The records kept after one more record `x`: it replaces the record of
      its own key unless that one has a strictly higher version, and leaves
      the other keys alone. */
  lemma WinnersStep<R>(m: map<string, R>, order: seq<string>, rs: seq<R>, key: R -> string, version: R -> int, x: R,
                       replaced: bool, m': map<string, R>)
    requires Tracks(m, order, rs, key, version)
    requires replaced == !(key(x) in m && version(m[key(x)]) - version(x) > 0)
    requires m' == if replaced then m[key(x) := x] else m
    ensures KeepsWinners(m', rs + [x], key, version)
  {
    var seen := rs + [x];
    assert seen[..|rs|] == rs;
    HasKeyStep(seen, key);
    forall k | k in m'
      ensures HasKey(seen, key, k) && m'[k] == Winner(seen, key, version, k)
    {
      WinnerStep(seen, key, version, k);
    }
  }

  /** A record with a new key: the key joins the end of the order. */
  lemma TracksAdd<R>(m: map<string, R>, order: seq<string>, rs: seq<R>, key: R -> string, version: R -> int, x: R)
    requires Tracks(m, order, rs, key, version) && key(x) !in m
    ensures Tracks(m[key(x) := x], order + [key(x)], rs + [x], key, version)
  {
    assert (rs + [x])[..|rs|] == rs;
    WinnersStep(m, order, rs, key, version, x, true, m[key(x) := x]);
  }

  /** A record with a known key and a version at least the kept one's
      replaces it. */
  lemma TracksReplace<R>(m: map<string, R>, order: seq<string>, rs: seq<R>, key: R -> string, version: R -> int, x: R)
    requires Tracks(m, order, rs, key, version) && key(x) in m && version(m[key(x)]) - version(x) <= 0
    ensures Tracks(m[key(x) := x], order, rs + [x], key, version)
  {
    assert (rs + [x])[..|rs|] == rs;
    WinnersStep(m, order, rs, key, version, x, true, m[key(x) := x]);
  }

  /** A record with a known key and a lower version than the kept one is
      dropped. */
  lemma TracksKeep<R>(m: map<string, R>, order: seq<string>, rs: seq<R>, key: R -> string, version: R -> int, x: R)
    requires Tracks(m, order, rs, key, version) && key(x) in m && version(m[key(x)]) - version(x) > 0
    ensures Tracks(m, order, rs + [x], key, version)
  {
    assert (rs + [x])[..|rs|] == rs;
    WinnersStep(m, order, rs, key, version, x, false, m);
  }

  /** Reading the map in key order gives the merge. */
  lemma MergedFromTracks<R>(m: map<string, R>, order: seq<string>, rs: seq<R>, key: R -> string, version: R -> int, merged: seq<R>)
    requires Tracks(m, order, rs, key, version)
    requires |merged| == |order| && forall t :: 0 <= t < |order| ==> merged[t] == m[order[t]]
    ensures merged == Merged(rs, key, version)
  {
  }

  /** `list(d.values())` for a dictionary kept as a map and its keys in
      insertion order. */
  method ValuesInOrder<R>(m: map<string, R>, order: seq<string>) returns (values: seq<R>)
    requires forall k :: k in order ==> k in m
    ensures |values| == |order| && forall t :: 0 <= t < |order| ==> values[t] == m[order[t]]
  {
    values := [];
    for j := 0 to |order|
      invariant |values| == j
      invariant forall t :: 0 <= t < j ==> values[t] == m[order[t]]
    {
      values := values + [m[order[j]]];
    }
  }

  /** `MergeRepositoryConfigs(configs)`: a dictionary keyed by path, kept
      here as a map and the list of its keys in insertion order. */
  method MergeRepositoryConfigs<R>(configs: seq<R>, key: R -> string, version: R -> int)
    returns (merged: seq<R>)
    ensures merged == Merged(configs, key, version)
  {
    var mergedConfigs: map<string, R> := map[];
    var order: seq<string> := [];
    for i := 0 to |configs|
      invariant Tracks(mergedConfigs, order, configs[..i], key, version)
    {
      var config := configs[i];
      var path := key(config);
      assert configs[..i + 1] == configs[..i] + [config];
      if path in mergedConfigs {
        var versionGreater := version(mergedConfigs[path]) - version(config);
        if versionGreater <= 0 {
          TracksReplace(mergedConfigs, order, configs[..i], key, version, config);
          mergedConfigs := mergedConfigs[path := config];
        } else {
          TracksKeep(mergedConfigs, order, configs[..i], key, version, config);
        }
      } else {
        TracksAdd(mergedConfigs, order, configs[..i], key, version, config);
        mergedConfigs := mergedConfigs[path := config];
        order := order + [path];
      }
    }
    assert configs[..|configs|] == configs;
    merged := ValuesInOrder(mergedConfigs, order);
    MergedFromTracks(mergedConfigs, order, configs, key, version, merged);
  }

  // ---------------------------------------------------------------------
  // Properties of the merge

  function KeySet<R>(rs: seq<R>, key: R -> string): set<string>
  {
    set j | 0 <= j < |rs| :: key(rs[j])
  }

  lemma {:induction false} DistinctCardinality(s: seq<string>)
    requires forall a, b :: 0 <= a < b < |s| ==> s[a] != s[b]
    ensures |set x | x in s| == |s|
    decreases |s|
  {
    if s != [] {
      var n := |s| - 1;
      DistinctCardinality(s[..n]);
      assert (set x | x in s) == (set x | x in s[..n]) + {s[n]};
      assert s[n] !in (set x | x in s[..n]);
    }
  }

  /** The record kept for `k` is one of the inputs and has key `k`. */
  lemma WinnerIsInput<R>(rs: seq<R>, key: R -> string, version: R -> int, k: string)
    requires HasKey(rs, key, k)
    ensures Winner(rs, key, version, k) in rs
    ensures key(Winner(rs, key, version, k)) == k
  {
  }

  /** One record per distinct path: the output has as many records as
      there are distinct paths in the input, and no two share a path. */
  lemma MergedOnePerPath<R>(rs: seq<R>, key: R -> string, version: R -> int)
    ensures |Merged(rs, key, version)| == |KeySet(rs, key)|
    ensures forall a, b :: 0 <= a < b < |Merged(rs, key, version)| ==>
      key(Merged(rs, key, version)[a]) != key(Merged(rs, key, version)[b])
    ensures forall j :: 0 <= j < |rs| ==>
      exists i :: 0 <= i < |Merged(rs, key, version)| && key(Merged(rs, key, version)[i]) == key(rs[j])
  {
    var order := Order(rs, key);
    var out := Merged(rs, key, version);
    forall i | 0 <= i < |out| ensures key(out[i]) == order[i] {
      WinnerIsInput(rs, key, version, order[i]);
    }
    assert (set x | x in order) == KeySet(rs, key) by {
      forall x ensures x in order <==> x in KeySet(rs, key) {
        if x in KeySet(rs, key) {
          var j :| 0 <= j < |rs| && key(rs[j]) == x;
          assert HasKey(rs, key, x);
        }
      }
    }
    DistinctCardinality(order);
    forall j | 0 <= j < |rs|
      ensures exists i :: 0 <= i < |out| && key(out[i]) == key(rs[j])
    {
      assert HasKey(rs, key, key(rs[j]));
      var i :| 0 <= i < |order| && order[i] == key(rs[j]);
      assert key(out[i]) == key(rs[j]);
    }
  }

  /** Each kept record is an input record `rs[w]` of the highest version on
      its path, and every later record on that path has a lower version. */
  lemma MergedKeepsLatestMaximum<R>(rs: seq<R>, key: R -> string, version: R -> int, i: nat)
    requires i < |Merged(rs, key, version)|
    ensures exists w :: (0 <= w < |rs| && Merged(rs, key, version)[i] == rs[w]
      && (forall j :: 0 <= j < |rs| && key(rs[j]) == key(rs[w]) ==> version(rs[j]) <= version(rs[w]))
      && (forall j :: w < j < |rs| && key(rs[j]) == key(rs[w]) ==> version(rs[j]) < version(rs[w])))
  {
    var order := Order(rs, key);
    var w := WinnerIndex(rs, key, version, order[i]);
    assert Merged(rs, key, version)[i] == rs[w];
  }

  /** The first index holding a record with key `k`. */
  function FirstIndex<R>(rs: seq<R>, key: R -> string, k: string): (f: nat)
    requires HasKey(rs, key, k)
    ensures f < |rs| && key(rs[f]) == k
    ensures forall j :: 0 <= j < f ==> key(rs[j]) != k
    decreases |rs|
  {
    if key(rs[0]) == k then 0
    else
      assert HasKey(rs[1..], key, k) by {
        var j :| 0 <= j < |rs| && key(rs[j]) == k;
        assert rs[1..][j - 1] == rs[j];
      }
      1 + FirstIndex(rs[1..], key, k)
  }

  lemma FirstIndexOfPrefix<R>(rs: seq<R>, key: R -> string, n: nat, k: string)
    requires n <= |rs| && HasKey(rs[..n], key, k)
    ensures HasKey(rs, key, k)
    ensures FirstIndex(rs, key, k) == FirstIndex(rs[..n], key, k)
  {
    var a := FirstIndex(rs[..n], key, k);
    assert rs[a] == rs[..n][a];
    var b := FirstIndex(rs, key, k);
    assert b <= a;
    assert rs[..n][b] == rs[b];
  }

  /** Paths come out in the order of their first occurrence. */
  lemma {:induction false} OrderIsFirstOccurrence<R>(rs: seq<R>, key: R -> string)
    ensures forall a, b :: 0 <= a < b < |Order(rs, key)| ==>
      FirstIndex(rs, key, Order(rs, key)[a]) < FirstIndex(rs, key, Order(rs, key)[b])
    decreases |rs|
  {
    if rs != [] {
      var n := |rs| - 1;
      var before := rs[..n];
      OrderIsFirstOccurrence(before, key);
      var o := Order(before, key);
      var order := Order(rs, key);
      forall a | 0 <= a < |o| ensures FirstIndex(rs, key, o[a]) == FirstIndex(before, key, o[a]) {
        FirstIndexOfPrefix(rs, key, n, o[a]);
      }
      if order != o {
        var k := key(rs[n]);
        assert order == o + [k];
        assert !HasKey(before, key, k);
        assert FirstIndex(rs, key, k) == n by {
          forall j | 0 <= j < n ensures key(rs[j]) != k {
            assert before[j] == rs[j];
          }
        }
      }
    }
  }

  /** The merge lists paths in order of first occurrence. */
  lemma MergedInFirstOccurrenceOrder<R>(rs: seq<R>, key: R -> string, version: R -> int)
    ensures forall a, b :: 0 <= a < b < |Merged(rs, key, version)| ==>
      HasKey(rs, key, key(Merged(rs, key, version)[a]))
      && HasKey(rs, key, key(Merged(rs, key, version)[b]))
      && FirstIndex(rs, key, key(Merged(rs, key, version)[a]))
         < FirstIndex(rs, key, key(Merged(rs, key, version)[b]))
  {
    var order := Order(rs, key);
    var out := Merged(rs, key, version);
    forall i | 0 <= i < |out| ensures key(out[i]) == order[i] {
      WinnerIsInput(rs, key, version, order[i]);
    }
    OrderIsFirstOccurrence(rs, key);
  }
}
