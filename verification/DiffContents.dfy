/** What the entries of the config diff tell about the places they stand for. */
module DiffContents {
  import opened Wrappers
  import opened JsonTrees
  import opened Redaction
  import opened ConfigDiffs
  import opened DiffSecrets

  predicate HasFrom(entry: Change) {
    entry.Removed? || entry.Replaced?
  }

  predicate HasTo(entry: Change) {
    entry.Added? || entry.Replaced?
  }

  /** The value is shown: in full except for what stands under sensitive keys in it, or not at all. */
  ghost predicate Shows(shown: Json, hidden: bool, v: Json) {
    if hidden then shown == String("[REDACTED]")
    else AgreeExceptSecrets(shown, v) && RedactConfigValue(shown) == shown
  }

  lemma RedactedLeafShows(key: string, v: Json)
    ensures Shows(RedactedLeaf(key, v), IsSensitiveConfigKey(key), v)
  {
    RedactionKeepsTheRest(v);
    RedactingTwice(v);
  }

  /** The entry tells what the place had and has: each side is there exactly when there is a value, and shows that
      value unless the given key is sensitive. */
  ghost predicate Tells(entry: Change, key: string, oldV: Json, newV: Json, path: Path) {
    var before, after := ValueAt(oldV, path), ValueAt(newV, path);
    && (HasFrom(entry) <==> before.Some?) && (HasTo(entry) <==> after.Some?)
    && (HasFrom(entry) ==> Shows(entry.from, IsSensitiveConfigKey(key), before.value))
    && (HasTo(entry) ==> Shows(entry.to, IsSensitiveConfigKey(key), after.value))
  }

  lemma {:induction false} EveryEntryTellsBy(prefix: string, oldV: Json, newV: Json, path: Path)
    requires Differs(oldV, newV, path)
    ensures
      var key := if Changes(oldV, newV, path) then LastKey(Dotted(prefix, path)) else path[|path| - 1];
      Tells(ChangeAt(prefix, oldV, newV, path), key, oldV, newV, path)
    decreases path
  {
    if path == [] {
      RedactedLeafShows(LastKey(prefix), oldV);
      RedactedLeafShows(LastKey(prefix), newV);
    } else {
      var key := path[0];
      if key in oldV.members && key in newV.members {
        EveryEntryTellsBy(ChildPath(prefix, key), oldV.members[key], newV.members[key], path[1..]);
      } else {
        assert path[1..] == [] && path[|path| - 1] == key;
        RedactedLeafShows(key, if key in oldV.members then oldV.members[key] else newV.members[key]);
      }
    }
  }

  /** The key that decides whether the value of a changed place is hidden: the last one, or only its last segment,
      if the place had a value and has one. */
  function DecidingKey(oldV: Json, newV: Json, path: Path): string {
    if path == [] then ""
    else if Changes(oldV, newV, path) then LastKey(path[|path| - 1]) else path[|path| - 1]
  }

  /** For every changed place of any two configs, the entry made for it tells the change. */
  lemma EveryEntryTells(oldV: Json, newV: Json, path: Path)
    requires Differs(oldV, newV, path)
    ensures Tells(ChangeAt("", oldV, newV, path), DecidingKey(oldV, newV, path), oldV, newV, path)
  {
    EveryEntryTellsBy("", oldV, newV, path);
    if path != [] {
      LastKeyOfAnyPath("", path);
    }
  }

  /** So does every entry of an audit record, for some changed place that has its text. */
  lemma EveryRecordedEntryTells(oldV: Json, newV: Json, record: map<string, Change>, text: string) returns (path: Path)
    requires Records(map[], record, "", oldV, newV, DifferingPaths(oldV, newV)) && text in record
    ensures Differs(oldV, newV, path) && Dotted("", path) == text
    ensures Tells(record[text], DecidingKey(oldV, newV, path), oldV, newV, path)
  {
    path :| path in DifferingPaths(oldV, newV) && Dotted("", path) == text
            && record[text] == ChangeAt("", oldV, newV, path);
    EveryEntryTells(oldV, newV, path);
  }

  /** A side that cannot be decoded counts as null: beside it any other config is one change, of the whole. */
  lemma UndecodableSide(v: Json, path: Path)
    requires v != Null
    ensures Differs(Decoded(None), v, path) <==> path == []
    ensures ChangeAt("", Decoded(None), Decoded(Some(v)), []) == Replaced(Null, RedactConfigValue(v))
    ensures ChangeAt("", Decoded(Some(v)), Decoded(None), []) == Replaced(RedactConfigValue(v), Null)
  {
    NothingSensitiveAboutNothing();
  }
}
