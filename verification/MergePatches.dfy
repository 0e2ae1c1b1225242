/** What a merge patch makes of a config, place by place. */
module MergePatches {
  import opened Wrappers
  import opened JsonTrees
  import opened ConfigDiffs

  /** The patch names exactly the places at which it has a value. */
  lemma {:induction false} NamedPlaces(patch: Json, path: Path)
    ensures Names(patch, path) <==> ValueAt(patch, path).Some?
    decreases path
  {
    if path != [] && patch.Object? && path[0] in patch.members {
      NamedPlaces(patch.members[path[0]], path[1..]);
    }
  }

  /** A named place: null takes it away, an object makes it an object, and anything else is put there. */
  lemma {:induction false} NamedPlaceIsSet(target: Json, patch: Json, path: Path)
    requires ValueAt(patch, path).Some?
    ensures
      var named, merged := ValueAt(patch, path).value, ValueAt(MergePatch(target, patch), path);
      if named.Object? then merged.Some? && merged.value.Object?
      else merged == if named == Null && path != [] then None else Some(named)
    decreases path
  {
    if path != [] {
      var key, base := path[0], if target.Object? then target.members else map[];
      if patch.members[key] != Null {
        NamedPlaceIsSet(if key in base then base[key] else Null, patch.members[key], path[1..]);
      } else {
        assert path[1..] == [];
      }
    }
  }

  /** The patch has objects down to the last place that it names on the path. */
  ghost predicate LeavesAnObject(patch: Json, path: Path) {
    forall i | 0 <= i <= |path| && ValueAt(patch, path[..i]).Some? :: ValueAt(patch, path[..i]).value.Object?
  }

  lemma LeavesAnObjectBelow(patch: Json, path: Path)
    requires path != [] && patch.Object? && path[0] in patch.members && LeavesAnObject(patch, path)
    ensures LeavesAnObject(patch.members[path[0]], path[1..])
  {
    forall i | 0 <= i <= |path| - 1 && ValueAt(patch.members[path[0]], path[1..][..i]).Some?
      ensures ValueAt(patch.members[path[0]], path[1..][..i]).value.Object?
    {
      assert path[..i + 1][1..] == path[1..][..i];
      assert ValueAt(patch, path[..i + 1]) == ValueAt(patch.members[path[0]], path[1..][..i]);
    }
  }

  /** A place that the patch does not name, beside its named ones, stays as it was. */
  lemma {:induction false} UnnamedPlaceStays(target: Json, patch: Json, path: Path)
    requires ValueAt(patch, path).None? && LeavesAnObject(patch, path)
    ensures ValueAt(MergePatch(target, patch), path) == ValueAt(target, path)
    decreases path
  {
    assert path[..0] == [] && ValueAt(patch, path[..0]) == Some(patch);
    var key, base := path[0], if target.Object? then target.members else map[];
    if key in patch.members {
      LeavesAnObjectBelow(patch, path);
      assert path[..1][1..] == [] && ValueAt(patch, path[..1]) == Some(patch.members[key]);
      UnnamedPlaceStays(if key in base then base[key] else Null, patch.members[key], path[1..]);
    }
  }

  /** Inside a place to which the patch gives a value that is no object, or which it takes away, nothing is left. */
  lemma {:induction false} NothingBelowALeaf(target: Json, patch: Json, path: Path, i: nat)
    requires i < |path| && ValueAt(patch, path[..i]).Some? && !ValueAt(patch, path[..i]).value.Object?
    ensures ValueAt(MergePatch(target, patch), path) == None
    decreases path
  {
    if i > 0 {
      var key, base := path[0], if target.Object? then target.members else map[];
      assert path[..i][0] == key && path[..i][1..] == path[1..][..i - 1];
      NothingBelowALeaf(if key in base then base[key] else Null, patch.members[key], path[1..], i - 1);
    }
  }
}
