/** The config diff of the audit log: a walk over two decoded configs that writes every changed
    place into one flat map under its dotted path.

    `Differs` is the independent description of what must be reported, by recursion on the path
    instead of on the trees. The walk is proved to record exactly that, for all configs; the
    theorems then say what the reported paths are good for. */
module ConfigDiffs {
  import opened Wrappers
  import opened JsonTrees
  import opened Redaction

  /** A place in a config, as the keys that lead to it. */
  type Path = seq<string>

  // ---------------------------------------------------------------- what is reported

  /** The configs differ at `path`: they are compared as objects on the way there, and at its end
      either both sides have a value and are not both objects, or one side has none and the other
      is not null. */
  predicate Differs(oldV: Json, newV: Json, path: Path) {
    if path == [] then
      !(oldV.Object? && newV.Object?) && oldV != newV
    else
      && oldV.Object? && newV.Object?
      && var key, before, after := path[0], oldV.members, newV.members;
         if key in before && key in after then Differs(before[key], after[key], path[1..])
         else
           && |path| == 1
           && (if key in before then before[key] != Null else key in after && after[key] != Null)
  }

  ghost function DifferingPaths(oldV: Json, newV: Json): iset<Path> {
    iset path: Path | Differs(oldV, newV, path)
  }

  // ---------------------------------------------------------------- dotted paths

  function ChildPath(prefix: string, key: string): string {
    if prefix == "" then key else prefix + "." + key
  }

  /** The final segment of a dotted path. */
  function LastKey(path: string): string {
    if path == "" || path[|path| - 1] == '.' then ""
    else LastKey(path[..|path| - 1]) + [path[|path| - 1]]
  }

  /** The text under which a place below `prefix` is recorded. */
  function Dotted(prefix: string, path: Path): string
    decreases path
  {
    if path == [] then prefix else Dotted(ChildPath(prefix, path[0]), path[1..])
  }

  // ---------------------------------------------------------------- the walk

  datatype Change =
    | Added(to: Json)
    | Removed(from: Json)
    | Replaced(from: Json, to: Json)

  /** What is recorded for a reported place. */
  function ChangeAt(prefix: string, oldV: Json, newV: Json, path: Path): Change
    requires Differs(oldV, newV, path)
    decreases path
  {
    if path == [] then
      Replaced(RedactedLeaf(LastKey(prefix), oldV), RedactedLeaf(LastKey(prefix), newV))
    else
      var key := path[0];
      if key in oldV.members && key in newV.members then
        ChangeAt(ChildPath(prefix, key), oldV.members[key], newV.members[key], path[1..])
      else if key in oldV.members then Removed(RedactedLeaf(key, oldV.members[key]))
      else Added(RedactedLeaf(key, newV.members[key]))
  }

  /** The entry comes from one of the places. */
  ghost predicate ComesFrom(entry: Change, text: string, prefix: string, oldV: Json, newV: Json, paths: iset<Path>)
    requires forall p <- paths :: Differs(oldV, newV, p)
  {
    exists p <- paths :: Dotted(prefix, p) == text && entry == ChangeAt(prefix, oldV, newV, p)
  }

  /** `after` is `before` with the places `paths` written over it, and nothing else changed. Two
      places can share one dotted text; then one of them is kept. */
  ghost predicate Records(before: map<string, Change>, after: map<string, Change>,
                          prefix: string, oldV: Json, newV: Json, paths: iset<Path>)
    requires forall p <- paths :: Differs(oldV, newV, p)
  {
    && (forall p <- paths :: Dotted(prefix, p) in after)
    && (forall s <- before :: s in after)
    && forall s <- after ::
         || (s in before && after[s] == before[s] && forall p <- paths :: Dotted(prefix, p) != s)
         || ComesFrom(after[s], s, prefix, oldV, newV, paths)
  }

  /** The reported places that start with one of `keys`. */
  ghost function PathsUnder(oldV: Json, newV: Json, keys: set<string>): iset<Path> {
    iset path: Path | Differs(oldV, newV, path) && path != [] && path[0] in keys
  }

  lemma ComesFromMore(entry: Change, text: string, prefix: string, oldV: Json, newV: Json, paths: iset<Path>,
                      more: iset<Path>)
    requires (forall p <- more :: Differs(oldV, newV, p)) && paths <= more
    requires ComesFrom(entry, text, prefix, oldV, newV, paths)
    ensures ComesFrom(entry, text, prefix, oldV, newV, more)
  {
  }

  lemma RecordsBothAt(a: map<string, Change>, b: map<string, Change>, c: map<string, Change>,
                      prefix: string, oldV: Json, newV: Json, first: iset<Path>, second: iset<Path>, s: string)
    requires forall p <- first + second :: Differs(oldV, newV, p)
    requires Records(a, b, prefix, oldV, newV, first)
    requires Records(b, c, prefix, oldV, newV, second)
    requires s in c
    ensures
      || (s in a && c[s] == a[s] && forall p <- first + second :: Dotted(prefix, p) != s)
      || ComesFrom(c[s], s, prefix, oldV, newV, first + second)
  {
    if ComesFrom(c[s], s, prefix, oldV, newV, second) {
      ComesFromMore(c[s], s, prefix, oldV, newV, second, first + second);
    } else {
      assert s in b && c[s] == b[s];
      if ComesFrom(b[s], s, prefix, oldV, newV, first) {
        ComesFromMore(b[s], s, prefix, oldV, newV, first, first + second);
      }
    }
  }

  lemma RecordsBoth(a: map<string, Change>, b: map<string, Change>, c: map<string, Change>,
                    prefix: string, oldV: Json, newV: Json, first: iset<Path>, second: iset<Path>)
    requires forall p <- first + second :: Differs(oldV, newV, p)
    requires Records(a, b, prefix, oldV, newV, first)
    requires Records(b, c, prefix, oldV, newV, second)
    ensures Records(a, c, prefix, oldV, newV, first + second)
  {
    forall s | s in c
      ensures
        || (s in a && c[s] == a[s] && forall p <- first + second :: Dotted(prefix, p) != s)
        || ComesFrom(c[s], s, prefix, oldV, newV, first + second)
    {
      RecordsBothAt(a, b, c, prefix, oldV, newV, first, second, s);
    }
  }

  lemma RecordsNextKey(a: map<string, Change>, b: map<string, Change>, c: map<string, Change>,
                       prefix: string, oldV: Json, newV: Json, done: set<string>, key: string)
    requires Records(a, b, prefix, oldV, newV, PathsUnder(oldV, newV, done))
    requires Records(b, c, prefix, oldV, newV, PathsUnder(oldV, newV, {key}))
    ensures Records(a, c, prefix, oldV, newV, PathsUnder(oldV, newV, done + {key}))
  {
    var first, second := PathsUnder(oldV, newV, done), PathsUnder(oldV, newV, {key});
    RecordsBoth(a, b, c, prefix, oldV, newV, first, second);
    assert PathsUnder(oldV, newV, done + {key}) == first + second;
  }

  lemma RecordsBelow(a: map<string, Change>, b: map<string, Change>, prefix: string, oldV: Json, newV: Json,
                     key: string)
    requires oldV.Object? && newV.Object? && key in oldV.members && key in newV.members
    requires
      var before, after := oldV.members[key], newV.members[key];
      Records(a, b, ChildPath(prefix, key), before, after, DifferingPaths(before, after))
    ensures Records(a, b, prefix, oldV, newV, PathsUnder(oldV, newV, {key}))
  {
    var before, after := oldV.members[key], newV.members[key];
    forall p | p in PathsUnder(oldV, newV, {key})
      ensures p[1..] in DifferingPaths(before, after) && Dotted(prefix, p) == Dotted(ChildPath(prefix, key), p[1..])
    {}
    forall s | s in b && exists q <- DifferingPaths(before, after) ::
        Dotted(ChildPath(prefix, key), q) == s && b[s] == ChangeAt(ChildPath(prefix, key), before, after, q)
      ensures exists p <- PathsUnder(oldV, newV, {key}) ::
                Dotted(prefix, p) == s && b[s] == ChangeAt(prefix, oldV, newV, p)
    {
      var q :| q in DifferingPaths(before, after)
               && Dotted(ChildPath(prefix, key), q) == s && b[s] == ChangeAt(ChildPath(prefix, key), before, after, q);
      var p := [key] + q;
      assert p[1..] == q;
      assert p in PathsUnder(oldV, newV, {key});
    }
  }

  lemma RecordsOneKey(a: map<string, Change>, b: map<string, Change>, prefix: string, oldV: Json, newV: Json,
                      key: string)
    requires Differs(oldV, newV, [key]) && !(key in oldV.members && key in newV.members)
    requires b == a[ChildPath(prefix, key) := ChangeAt(prefix, oldV, newV, [key])]
    ensures Records(a, b, prefix, oldV, newV, PathsUnder(oldV, newV, {key}))
  {
    forall p | p in PathsUnder(oldV, newV, {key})
      ensures p == [key]
    {
      assert |p| == 1;
    }
    assert [key] in PathsUnder(oldV, newV, {key});
    assert Dotted(prefix, [key]) == ChildPath(prefix, key);
  }

  lemma RecordsNoChange(a: map<string, Change>, prefix: string, oldV: Json, newV: Json, key: string)
    requires oldV.Object? && newV.Object? && !(key in oldV.members && key in newV.members)
    requires !Differs(oldV, newV, [key])
    ensures Records(a, a, prefix, oldV, newV, PathsUnder(oldV, newV, {key}))
  {
    assert forall p: Path | |p| == 1 && p[0] == key :: p == [key];
  }

  /** The map that the recursive walk shares and fills. */
  class ChangeLog {
    var entries: map<string, Change>

    constructor ()
      ensures entries == map[]
    {
      entries := map[];
    }

    method DiffConfigValues(prefix: string, oldV: Json, newV: Json)
      modifies this
      ensures Records(old(entries), entries, prefix, oldV, newV, DifferingPaths(oldV, newV))
      decreases oldV, 1
    {
      if oldV.Object? && newV.Object? {
        DiffConfigMaps(prefix, oldV.members, newV.members);
        return;
      }
      if oldV != newV {
        var k := LastKey(prefix);
        entries := entries[prefix := Replaced(RedactedLeaf(k, oldV), RedactedLeaf(k, newV))];
        assert [] in DifferingPaths(oldV, newV);
      }
    }

    method DiffConfigMaps(prefix: string, oldMap: map<string, Json>, newMap: map<string, Json>)
      modifies this
      ensures Records(old(entries), entries, prefix, Object(oldMap), Object(newMap),
                      DifferingPaths(Object(oldMap), Object(newMap)))
      decreases Object(oldMap), 0
    {
      ghost var oldV, newV := Object(oldMap), Object(newMap);
      var keys := oldMap.Keys;
      ghost var done: set<string> := {};
      while keys != {}
        invariant keys <= oldMap.Keys && done == oldMap.Keys - keys
        invariant Records(old(entries), entries, prefix, oldV, newV, PathsUnder(oldV, newV, done))
      {
        var k :| k in keys;
        ghost var was := entries;
        if k in newMap {
          DiffConfigValues(ChildPath(prefix, k), oldMap[k], newMap[k]);
          RecordsBelow(was, entries, prefix, oldV, newV, k);
        } else if oldMap[k] != Null {
          entries := entries[ChildPath(prefix, k) := Removed(RedactedLeaf(k, oldMap[k]))];
          RecordsOneKey(was, entries, prefix, oldV, newV, k);
        } else {
          RecordsNoChange(entries, prefix, oldV, newV, k);
        }
        RecordsNextKey(old(entries), was, entries, prefix, oldV, newV, done, k);
        keys, done := keys - {k}, done + {k};
      }
      keys := newMap.Keys;
      while keys != {}
        invariant keys <= newMap.Keys && done == oldMap.Keys + (newMap.Keys - keys)
        invariant Records(old(entries), entries, prefix, oldV, newV, PathsUnder(oldV, newV, done))
      {
        var k :| k in keys;
        keys := keys - {k};
        if k in oldMap {
          continue;
        }
        ghost var was := entries;
        if newMap[k] != Null {
          entries := entries[ChildPath(prefix, k) := Added(RedactedLeaf(k, newMap[k]))];
          RecordsOneKey(was, entries, prefix, oldV, newV, k);
        } else {
          RecordsNoChange(entries, prefix, oldV, newV, k);
        }
        RecordsNextKey(old(entries), was, entries, prefix, oldV, newV, done, k);
        done := done + {k};
      }
      assert PathsUnder(oldV, newV, done) == DifferingPaths(oldV, newV);
    }
  }

  /** The audit record of a config update; an undecodable side counts as null. */
  method DiffConfigForAudit(oldRaw: Option<Json>, newRaw: Option<Json>) returns (changed: Option<map<string, Change>>)
    ensures
      var oldV, newV := Decoded(oldRaw), Decoded(newRaw);
      if DifferingPaths(oldV, newV) == iset{} then changed == None
      else changed.Some? && Records(map[], changed.value, "", oldV, newV, DifferingPaths(oldV, newV))
  {
    var oldV, newV := Decoded(oldRaw), Decoded(newRaw);
    var out := new ChangeLog();
    out.DiffConfigValues("", oldV, newV);
    if |out.entries| == 0 {
      assert forall p <- DifferingPaths(oldV, newV) :: Dotted("", p) in out.entries;
      return None;
    }
    assert exists s :: s in out.entries by {
      assert out.entries.Keys != {};
    }
    return Some(out.entries);
  }

  function Decoded(raw: Option<Json>): Json {
    if raw.Some? then raw.value else Null
  }

  // ---------------------------------------------------------------- when nothing is reported

  /** Nothing is reported exactly when the configs are equal up to null-valued object members.
      Being the kernel of `StripNulls`, that relation is an equivalence. */
  lemma {:induction false} NothingReportedIffEqualUpToNulls(oldV: Json, newV: Json)
    ensures DifferingPaths(oldV, newV) == iset{} <==> StripNulls(oldV) == StripNulls(newV)
  {
    if StripNulls(oldV) == StripNulls(newV) {
      forall p ensures !Differs(oldV, newV, p) { EqualReportsNothing(oldV, newV, p); }
    } else {
      var p := FirstDifference(oldV, newV);
      assert p in DifferingPaths(oldV, newV);
    }
  }

  lemma {:induction false} EqualReportsNothing(oldV: Json, newV: Json, path: Path)
    requires StripNulls(oldV) == StripNulls(newV)
    ensures !Differs(oldV, newV, path)
    decreases path
  {
    if path != [] && oldV.Object? && newV.Object? {
      var key := path[0];
      var s, t := StripNulls(oldV).members, StripNulls(newV).members;
      assert key in s <==> key in t;
      if key in oldV.members && key in newV.members {
        assert key in s ==> s[key] == t[key];
        EqualReportsNothing(oldV.members[key], newV.members[key], path[1..]);
      }
    }
  }

  lemma {:induction false} FirstDifference(oldV: Json, newV: Json) returns (path: Path)
    requires StripNulls(oldV) != StripNulls(newV)
    ensures Differs(oldV, newV, path)
    decreases oldV
  {
    path := [];
    if oldV.Object? && newV.Object? {
      var s, t := StripNulls(oldV).members, StripNulls(newV).members;
      var key :| key in s.Keys + t.Keys && !(key in s && key in t && s[key] == t[key]);
      path := [key];
      if key in oldV.members && key in newV.members {
        var rest := FirstDifference(oldV.members[key], newV.members[key]);
        path := [key] + rest;
        assert path[1..] == rest;
      }
    }
  }

  // ---------------------------------------------------------------- the reported paths

  /** No reported place lies inside another. */
  lemma {:induction false} ReportedPathsArePrefixFree(oldV: Json, newV: Json, p: Path, q: Path)
    requires Differs(oldV, newV, p) && Differs(oldV, newV, q) && p <= q
    ensures p == q
    decreases p
  {
    if p != [] {
      assert p[0] == q[0];
      if p[0] in oldV.members && p[0] in newV.members {
        ReportedPathsArePrefixFree(oldV.members[p[0]], newV.members[p[0]], p[1..], q[1..]);
      }
      assert p == [p[0]] + p[1..] && q == [q[0]] + q[1..];
    }
  }

  /** The value at a place, if there is one. */
  function ValueAt(v: Json, path: Path): Option<Json> {
    if path == [] then Some(v)
    else if v.Object? && path[0] in v.members then ValueAt(v.members[path[0]], path[1..])
    else None
  }

  /** The config with the value at one place overwritten, or removed. */
  function WriteAt(v: Json, path: Path, value: Option<Json>): Json
    decreases path
  {
    if path == [] then (if value.Some? then value.value else v)
    else if !v.Object? then v
    else if |path| == 1 then
      Object(if value.Some? then v.members[path[0] := value.value] else v.members - {path[0]})
    else if path[0] in v.members then
      Object(v.members[path[0] := WriteAt(v.members[path[0]], path[1..], value)])
    else v
  }

  /** Overwriting one reported place with the new config's value there (or removing it, when the
      new config has none) takes that place out of the diff and no other. */
  lemma {:induction false} OverwritingOnePlace(oldV: Json, newV: Json, p: Path, q: Path)
    requires Differs(oldV, newV, p)
    ensures Differs(WriteAt(oldV, p, ValueAt(newV, p)), newV, q) <==> Differs(oldV, newV, q) && q != p
    decreases p
  {
    if p == [] {
      EqualReportsNothing(newV, newV, q);
    } else {
      var key := p[0];
      assert p == [key] + p[1..] && (q != [] ==> q == [q[0]] + q[1..]);
      assert ValueAt(newV, [key]) == if key in newV.members then Some(newV.members[key]) else None;
      if key in oldV.members && key in newV.members && q != [] {
        OverwritingOnePlace(oldV.members[key], newV.members[key], p[1..], q[1..]);
      } else if key in newV.members && q != [] {
        EqualReportsNothing(newV.members[key], newV.members[key], q[1..]);
      }
    }
  }

  function OverwriteAll(oldV: Json, newV: Json, paths: seq<Path>): Json
    decreases |paths|
  {
    if paths == [] then oldV
    else OverwriteAll(WriteAt(oldV, paths[0], ValueAt(newV, paths[0])), newV, paths[1..])
  }

  /** Completeness: overwriting the old config at exactly the reported places, in any order, gives
      the new config up to null-valued members. */
  lemma {:induction false} OverwritingAllReported(oldV: Json, newV: Json, paths: seq<Path>)
    requires forall p :: p in paths <==> Differs(oldV, newV, p)
    requires forall i, j | 0 <= i < j < |paths| :: paths[i] != paths[j]
    ensures StripNulls(OverwriteAll(oldV, newV, paths)) == StripNulls(newV)
    decreases |paths|
  {
    if paths == [] {
      NothingReportedIffEqualUpToNulls(oldV, newV);
    } else {
      var p, rest := paths[0], paths[1..];
      var next := WriteAt(oldV, p, ValueAt(newV, p));
      forall q ensures q in rest <==> Differs(next, newV, q) {
        OverwritingOnePlace(oldV, newV, p, q);
        assert q in paths <==> q == p || q in rest;
      }
      OverwritingAllReported(next, newV, rest);
    }
  }

  ghost predicate EnumeratesPaths(paths: seq<Path>, reported: iset<Path>) {
    && (forall p :: p in paths <==> p in reported)
    && forall i, j | 0 <= i < j < |paths| :: paths[i] != paths[j]
  }

  /** The reported places are finitely many. */
  lemma {:induction false} ReportedPlaces(oldV: Json, newV: Json) returns (paths: seq<Path>)
    ensures EnumeratesPaths(paths, DifferingPaths(oldV, newV))
    decreases oldV, 1, 0
  {
    if oldV.Object? && newV.Object? {
      var keys := oldV.members.Keys + newV.members.Keys;
      paths := ReportedUnder(oldV, newV, keys);
      assert PathsUnder(oldV, newV, keys) == DifferingPaths(oldV, newV);
    } else {
      paths := if oldV != newV then [[]] else [];
    }
  }

  lemma {:induction false} ReportedUnder(oldV: Json, newV: Json, keys: set<string>) returns (paths: seq<Path>)
    requires oldV.Object? && newV.Object?
    ensures EnumeratesPaths(paths, PathsUnder(oldV, newV, keys))
    decreases oldV, 0, |keys|
  {
    if keys == {} {
      return [];
    }
    var key :| key in keys;
    var others := ReportedUnder(oldV, newV, keys - {key});
    var own := [];
    if key in oldV.members && key in newV.members {
      var below := ReportedPlaces(oldV.members[key], newV.members[key]);
      own := Below(key, below);
      BelowEnumerates(key, below, oldV, newV);
    } else if Differs(oldV, newV, [key]) {
      own := [[key]];
      assert forall p: Path | |p| == 1 && p[0] == key :: p == [key];
    } else {
      assert forall p: Path | |p| == 1 && p[0] == key :: p == [key];
    }
    paths := own + others;
    BothEnumerate(own, PathsUnder(oldV, newV, {key}), others, PathsUnder(oldV, newV, keys - {key}));
    assert PathsUnder(oldV, newV, keys) == PathsUnder(oldV, newV, {key}) + PathsUnder(oldV, newV, keys - {key});
  }

  function Below(key: string, paths: seq<Path>): (r: seq<Path>)
    ensures |r| == |paths| && forall i | 0 <= i < |paths| :: r[i] == [key] + paths[i]
  {
    if paths == [] then [] else [[key] + paths[0]] + Below(key, paths[1..])
  }

  lemma BelowHolds(key: string, paths: seq<Path>, p: Path)
    ensures p in Below(key, paths) <==> p != [] && p[0] == key && p[1..] in paths
  {
    var r := Below(key, paths);
    if p in r {
      var i :| 0 <= i < |r| && r[i] == p;
      assert p[1..] == paths[i];
    }
    if p != [] && p[0] == key && p[1..] in paths {
      var i :| 0 <= i < |paths| && paths[i] == p[1..];
      assert p == [key] + p[1..] && r[i] == p;
    }
  }

  lemma BelowEnumerates(key: string, paths: seq<Path>, oldV: Json, newV: Json)
    requires oldV.Object? && newV.Object? && key in oldV.members && key in newV.members
    requires EnumeratesPaths(paths, DifferingPaths(oldV.members[key], newV.members[key]))
    ensures EnumeratesPaths(Below(key, paths), PathsUnder(oldV, newV, {key}))
  {
    var r := Below(key, paths);
    forall p
      ensures p in r <==> p in PathsUnder(oldV, newV, {key})
    {
      BelowHolds(key, paths, p);
    }
    forall i, j | 0 <= i < j < |r|
      ensures r[i] != r[j]
    {
      assert r[i][1..] == paths[i] && r[j][1..] == paths[j];
    }
  }

  lemma BothEnumerate(a: seq<Path>, first: iset<Path>, b: seq<Path>, second: iset<Path>)
    requires EnumeratesPaths(a, first) && EnumeratesPaths(b, second) && first !! second
    ensures EnumeratesPaths(a + b, first + second)
  {
    forall i, j | 0 <= i < j < |a + b|
      ensures (a + b)[i] != (a + b)[j]
    {
      if i < |a| <= j {
        assert a[i] in a && b[j - |a|] in b;
      }
    }
  }

  /** For any two configs there is a finite list of places, the reported ones, such that overwriting the old
      config there gives the new one up to null-valued members. */
  lemma {:induction false} DiffIsComplete(oldV: Json, newV: Json) returns (paths: seq<Path>)
    ensures EnumeratesPaths(paths, DifferingPaths(oldV, newV))
    ensures StripNulls(OverwriteAll(oldV, newV, paths)) == StripNulls(newV)
  {
    paths := ReportedPlaces(oldV, newV);
    assert forall p :: p in paths <==> p in DifferingPaths(oldV, newV);
    OverwritingAllReported(oldV, newV, paths);
  }

  /** After a merge patch, every reported place is one that the patch itself names. */
  lemma {:induction false} MergePatchReportsOnlyNamedPlaces(config: Json, patch: Json, path: Path)
    requires Differs(config, MergePatch(config, patch), path)
    ensures Names(patch, path)
    decreases path
  {
    if path != [] {
      var key := path[0];
      if key !in patch.members {
        EqualReportsNothing(config.members[key], config.members[key], path[1..]);
      } else if key in config.members && patch.members[key] != Null {
        MergePatchReportsOnlyNamedPlaces(config.members[key], patch.members[key], path[1..]);
      }
    }
  }
}
