/** What the config diff shows of the values under sensitive keys. */
module DiffSecrets {
  import opened Wrappers
  import opened JsonTrees
  import opened Redaction
  import opened ConfigDiffs
  import opened DiffTexts

  // ---------------------------------------------------------------- the key that decides

  /** The last segment of a path text is the last segment of its last key. */
  lemma {:induction false} LastKeyOfAnyChild(prefix: string, key: string)
    ensures LastKey(ChildPath(prefix, key)) == LastKey(key)
    decreases key
  {
    var text := ChildPath(prefix, key);
    if key != "" && key[|key| - 1] != '.' {
      var init := key[..|key| - 1];
      LastKeyOfAnyChild(prefix, init);
      assert text[|text| - 1] == key[|key| - 1];
      if init == "" && prefix == "" {
        assert text[..|text| - 1] == "";
      } else {
        assert text[..|text| - 1] == ChildPath(prefix, init);
      }
    } else if key != "" {
      assert text[|text| - 1] == '.';
    }
  }

  lemma LastKeyOfAnyPath(prefix: string, path: Path)
    requires path != []
    ensures LastKey(Dotted(prefix, path)) == LastKey(path[|path| - 1])
  {
    var last := |path| - 1;
    assert path == path[..last] + [path[last]];
    DottedSnoc(prefix, path[..last], path[last]);
    LastKeyOfAnyChild(Dotted(prefix, path[..last]), path[last]);
  }

  lemma {:induction false} ContainsInSuffix(before: string, s: string, fragment: string)
    requires Contains(s, fragment)
    ensures Contains(before + s, fragment)
  {
    if before == "" {
      assert before + s == s;
    } else {
      ContainsInSuffix(before[1..], s, fragment);
      assert (before + s)[1..] == before[1..] + s;
    }
  }

  lemma {:induction false} LastKeyIsSuffix(key: string) returns (before: string)
    ensures key == before + LastKey(key)
  {
    if key == "" || key[|key| - 1] == '.' {
      return key;
    }
    before := LastKeyIsSuffix(key[..|key| - 1]);
    assert key == key[..|key| - 1] + [key[|key| - 1]];
  }

  /** A key whose last segment is sensitive is sensitive. */
  lemma SensitiveLastKey(key: string)
    requires IsSensitiveConfigKey(LastKey(key))
    ensures IsSensitiveConfigKey(key)
  {
    var before := LastKeyIsSuffix(key);
    var fragment :| fragment in SENSITIVE_FRAGMENTS && Contains(ToLower(LastKey(key)), fragment);
    assert ToLower(key) == ToLower(before) + ToLower(LastKey(key));
    ContainsInSuffix(ToLower(before), ToLower(LastKey(key)), fragment);
  }

  // ---------------------------------------------------------------- places that hide secrets

  /** The path goes through no sensitive key before its end. */
  predicate Open(path: Path) {
    forall i | 0 <= i < |path| - 1 :: !IsSensitiveConfigKey(path[i])
  }

  /** The key is sensitive, and the segment behind its last dot is not. */
  predicate Disguised(key: string) {
    IsSensitiveConfigKey(key) && !IsSensitiveConfigKey(LastKey(key))
  }

  /** The value at the place changes, rather than being added or removed. */
  predicate Changes(oldV: Json, newV: Json, path: Path) {
    ValueAt(oldV, path).Some? && ValueAt(newV, path).Some?
  }

  /** The record of a changed place hides all secrets: no sensitive key stands before the end of the path, and
      if the value changes, the last key is not one whose last segment alone looks harmless. */
  predicate Hides(oldV: Json, newV: Json, path: Path) {
    Open(path) && !(path != [] && Changes(oldV, newV, path) && Disguised(path[|path| - 1]))
  }

  lemma HidesBelow(oldV: Json, newV: Json, path: Path)
    requires |path| > 1 && Differs(oldV, newV, path) && Hides(oldV, newV, path)
    ensures Hides(oldV.members[path[0]], newV.members[path[0]], path[1..]) && !IsSensitiveConfigKey(path[0])
  {
    var rest := path[1..];
    assert forall i | 0 <= i < |rest| - 1 :: rest[i] == path[i + 1];
    assert rest[|rest| - 1] == path[|path| - 1];
  }

  /** At such a place, two pairs of configs that differ in secrets only are recorded the same. */
  lemma {:induction false} SecretsDoNotShow(prefix: string, oldV: Json, newV: Json, oldV': Json, newV': Json,
                                            path: Path)
    requires Differs(oldV, newV, path) && Differs(oldV', newV', path)
    requires AgreeExceptSecrets(oldV, oldV') && AgreeExceptSecrets(newV, newV')
    requires Hides(oldV, newV, path) && (path == [] ==> !IsSensitiveConfigKey(LastKey(prefix)))
    ensures ChangeAt(prefix, oldV, newV, path) == ChangeAt(prefix, oldV', newV', path)
    decreases path
  {
    RedactionShowsAllButSecrets(oldV, oldV');
    RedactionShowsAllButSecrets(newV, newV');
    if path != [] {
      var key := path[0];
      if key in oldV.members && key in newV.members {
        if |path| == 1 {
          assert path[1..] == [];
          assert ValueAt(oldV, path) == Some(oldV.members[key]);
          assert ValueAt(newV, path) == Some(newV.members[key]);
          LastKeyOfAnyChild(prefix, key);
          ChangeShowsNoSecret(key, oldV, oldV');
          ChangeShowsNoSecret(key, newV, newV');
        } else {
          HidesBelow(oldV, newV, path);
          SecretsDoNotShow(ChildPath(prefix, key), oldV.members[key], newV.members[key],
                           oldV'.members[key], newV'.members[key], path[1..]);
        }
      } else if key in oldV.members {
        LeafShowsNoSecret(key, oldV, oldV');
      } else {
        LeafShowsNoSecret(key, newV, newV');
      }
    }
  }

  lemma LeafShowsNoSecret(key: string, v: Json, w: Json)
    requires v.Object? && w.Object? && AgreeExceptSecrets(v, w) && key in v.members
    ensures key in w.members && RedactedLeaf(key, v.members[key]) == RedactedLeaf(key, w.members[key])
  {
    if !IsSensitiveConfigKey(key) {
      RedactionShowsAllButSecrets(v.members[key], w.members[key]);
    }
  }

  /** A changed value is redacted by the last segment of its key. */
  lemma ChangeShowsNoSecret(key: string, v: Json, w: Json)
    requires v.Object? && w.Object? && AgreeExceptSecrets(v, w) && key in v.members && !Disguised(key)
    ensures key in w.members
    ensures RedactedLeaf(LastKey(key), v.members[key]) == RedactedLeaf(LastKey(key), w.members[key])
  {
    if !IsSensitiveConfigKey(LastKey(key)) {
      RedactionShowsAllButSecrets(v.members[key], w.members[key]);
    }
  }

  // ---------------------------------------------------------------- places that show them

  lemma {:induction false} AgreesWithItself(v: Json)
    ensures AgreeExceptSecrets(v, v)
  {
    RedactionShowsAllButSecrets(v, v);
  }

  /** Both configs have objects all the way and a value under the key. */
  predicate BothHold(oldV: Json, newV: Json, key: string) {
    oldV.Object? && newV.Object? && key in oldV.members && key in newV.members
  }

  lemma WritingRightUnderASecret(prefix: string, oldV: Json, newV: Json, path: Path, oldSub: Json, newSub: Json)
    requires path != [] && IsSensitiveConfigKey(path[0]) && BothHold(oldV, newV, path[0])
    requires Differs(oldSub, newSub, path[1..])
    ensures
      var old', new' := WriteAt(oldV, path[..1], Some(oldSub)), WriteAt(newV, path[..1], Some(newSub));
      && AgreeExceptSecrets(oldV, old') && AgreeExceptSecrets(newV, new')
      && Differs(old', new', path)
      && ChangeAt(prefix, old', new', path) == ChangeAt(Dotted(prefix, path[..1]), oldSub, newSub, path[1..])
  {
    forall k | k in oldV.members { AgreesWithItself(oldV.members[k]); }
    forall k | k in newV.members { AgreesWithItself(newV.members[k]); }
    assert path[..1][1..] == [];
  }

  lemma AgreeOneKeyUp(v: Json, key: string, sub: Json)
    requires v.Object? && key in v.members && AgreeExceptSecrets(v.members[key], sub)
    ensures AgreeExceptSecrets(v, Object(v.members[key := sub]))
  {
    forall k | k in v.members { AgreesWithItself(v.members[k]); }
  }

  /** Under a sensitive key a config can be given anything without a difference outside the secrets. */
  lemma {:induction false} WritingUnderASecret(prefix: string, oldV: Json, newV: Json, path: Path, i: nat,
                                               oldSub: Json, newSub: Json)
    requires i < |path| && IsSensitiveConfigKey(path[i]) && Differs(oldV, newV, path)
    requires i < |path| - 1 || Changes(oldV, newV, path)
    requires Differs(oldSub, newSub, path[i + 1..])
    ensures
      var old', new' := WriteAt(oldV, path[..i + 1], Some(oldSub)), WriteAt(newV, path[..i + 1], Some(newSub));
      && AgreeExceptSecrets(oldV, old') && AgreeExceptSecrets(newV, new')
      && Differs(old', new', path)
      && ChangeAt(prefix, old', new', path) == ChangeAt(Dotted(prefix, path[..i + 1]), oldSub, newSub, path[i + 1..])
    decreases i
  {
    assert BothHold(oldV, newV, path[0]);
    if i == 0 {
      WritingRightUnderASecret(prefix, oldV, newV, path, oldSub, newSub);
    } else {
      var key, top, rest := path[0], path[..i + 1], path[1..];
      assert top[0] == key && top[1..] == rest[..i];
      assert rest[i..] == path[i + 1..] && rest[i - 1] == path[i];
      WritingUnderASecret(ChildPath(prefix, key), oldV.members[key], newV.members[key], rest, i - 1, oldSub, newSub);
      AgreeOneKeyUp(oldV, key, WriteAt(oldV.members[key], rest[..i], Some(oldSub)));
      AgreeOneKeyUp(newV, key, WriteAt(newV.members[key], rest[..i], Some(newSub)));
    }
  }

  /** What is recorded for the place is the same for all configs that differ from these in secrets only. */
  ghost predicate IndependentOfSecrets(oldV: Json, newV: Json, path: Path)
    requires Differs(oldV, newV, path)
  {
    forall old', new' |
        AgreeExceptSecrets(oldV, old') && AgreeExceptSecrets(newV, new') && Differs(old', new', path) ::
      ChangeAt("", old', new', path) == ChangeAt("", oldV, newV, path)
  }

  /** Below a sensitive key even the kind of the change is a secret that shows. */
  lemma SecretsShowBelow(oldV: Json, newV: Json, path: Path, i: nat)
    requires Differs(oldV, newV, path) && i < |path| - 1 && IsSensitiveConfigKey(path[i])
    ensures !IndependentOfSecrets(oldV, newV, path)
  {
    var rest := path[i + 1..];
    BareDiffers(Dotted("", path[..i + 1]), rest, rest);
    WritingUnderASecret("", oldV, newV, path, i, Bare(rest), Leaf(rest, Number(1.0)));
    WritingUnderASecret("", oldV, newV, path, i, Leaf(rest, Number(1.0)), Bare(rest));
  }

  /** Under a disguised key every changed value shows. */
  lemma SecretsShowUnder(oldV: Json, newV: Json, path: Path)
    requires Differs(oldV, newV, path) && path != []
    requires Changes(oldV, newV, path) && Disguised(path[|path| - 1])
    ensures !IndependentOfSecrets(oldV, newV, path)
  {
    var last := |path| - 1;
    assert path[last + 1..] == [] && path[..last + 1] == path;
    LastKeyOfAnyPath("", path);
    WritingUnderASecret("", oldV, newV, path, last, Number(1.0), Number(2.0));
    WritingUnderASecret("", oldV, newV, path, last, Number(3.0), Number(4.0));
  }

  /** Exactly: what the diff records for a changed place is independent of everything under sensitive keys just
      when no sensitive key stands before the end of the path, and if the value changes, the last key is not
      sensitive by what stands before its last dot only. */
  lemma {:induction false} RecordedChangeHidesSecretsIff(oldV: Json, newV: Json, path: Path)
    requires Differs(oldV, newV, path)
    ensures IndependentOfSecrets(oldV, newV, path) <==> Hides(oldV, newV, path)
  {
    if Hides(oldV, newV, path) {
      NothingSensitiveAboutNothing();
      forall old', new' | AgreeExceptSecrets(oldV, old') && AgreeExceptSecrets(newV, new') && Differs(old', new', path)
        ensures ChangeAt("", old', new', path) == ChangeAt("", oldV, newV, path)
      {
        SecretsDoNotShow("", oldV, newV, old', new', path);
      }
    } else if !Open(path) {
      var i :| 0 <= i < |path| - 1 && IsSensitiveConfigKey(path[i]);
      SecretsShowBelow(oldV, newV, path, i);
    } else {
      SecretsShowUnder(oldV, newV, path);
    }
  }

  lemma NothingSensitiveAboutNothing()
    ensures !IsSensitiveConfigKey(LastKey(""))
  {
    assert forall fragment <- SENSITIVE_FRAGMENTS :: fragment != "";
    assert forall fragment <- SENSITIVE_FRAGMENTS :: !Contains("", fragment);
  }

  /** A key that has no dot is never disguised, so for clean keys only the way to the place counts. */
  lemma CleanPathHidesIffOpen(oldV: Json, newV: Json, path: Path)
    requires CleanPath(path)
    ensures Hides(oldV, newV, path) <==> Open(path)
  {
    if path != [] {
      var key := path[|path| - 1];
      assert CleanKey(key);
      LastKeyOfChild("", key);
    }
  }

  /** Redaction hides the value of any key that is sensitive; the diff shows it when the key is disguised. */
  lemma DisguisedKeyShows(key: string, s: string, t: string)
    requires Disguised(key) && s != t
    ensures
      var oldV, newV := Object(map[key := String(s)]), Object(map[key := String(t)]);
      && RedactConfigValue(oldV) == RedactConfigValue(newV)
      && Differs(oldV, newV, [key])
      && ChangeAt("", oldV, newV, [key]) == Replaced(String(s), String(t))
  {}

  /** Such keys exist. */
  lemma TokenWithADotIsDisguised()
    ensures Disguised("token.x")
  {
    var key := "token.x";
    assert LastKey("token.") == "" && key[..6] == "token." && key[6] == 'x';
    assert LastKey(key) == LastKey(key[..6]) + ['x'] == "x";
    assert ToLower(key) == key && "token" <= key;
    assert Contains(ToLower(key), "token") && SENSITIVE_FRAGMENTS[3] == "token";
    assert ToLower("x") == "x";
    forall fragment | fragment in SENSITIVE_FRAGMENTS
      ensures !Contains("x", fragment)
    {
      assert |fragment| > 1;
      assert "x"[1..] == "" && !Contains("", fragment);
    }
  }
}
