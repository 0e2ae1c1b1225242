/** Decoded JSON, equality up to null-valued object members, and the merge patch of
    section 2 of RFC 7396. */
module JsonTrees {

  datatype Json =
    | Null
    | Bool(value: bool)
    | Number(number: real)
    | String(text: string)
    | Array(items: seq<Json>)
    | Object(members: map<string, Json>)

  /** The tree without the null-valued members of its objects. Arrays are left as they are. */
  function StripNulls(v: Json): Json {
    match v
    case Object(members) => Object(map k | k in members && members[k] != Null :: StripNulls(members[k]))
    case _ => v
  }

  /** RFC 7396, section 2: a patch object is merged member by member, a null member removes, and
      anything else replaces the target. */
  function MergePatch(target: Json, patch: Json): Json
    decreases patch
  {
    if patch.Object? then
      var base := if target.Object? then target.members else map[];
      Object(map k | k in base.Keys + patch.members.Keys && (k in patch.members ==> patch.members[k] != Null)
               :: if k in patch.members
                  then MergePatch(if k in base then base[k] else Null, patch.members[k])
                  else base[k])
    else
      patch
  }

  /** The patch names every member it mentions, at any depth, and the root. */
  predicate Names(patch: Json, path: seq<string>) {
    path == [] || (patch.Object? && path[0] in patch.members && Names(patch.members[path[0]], path[1..]))
  }

  /** Applying a merge patch a second time changes nothing. */
  lemma {:induction false} MergePatchTwice(target: Json, patch: Json)
    ensures MergePatch(MergePatch(target, patch), patch) == MergePatch(target, patch)
    decreases patch
  {
    if patch.Object? {
      var base := if target.Object? then target.members else map[];
      var once := MergePatch(target, patch);
      var twice := MergePatch(once, patch);
      forall k | k in patch.members {
        MergePatchTwice(if k in base then base[k] else Null, patch.members[k]);
      }
      assert twice.members == once.members;
    }
  }
}
