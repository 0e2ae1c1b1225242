/** The dotted texts under which changed places are recorded: with which keys they tell the places apart, and
    what is lost when they do not. */
module DiffTexts {
  import opened Wrappers
  import opened JsonTrees
  import opened Redaction
  import opened ConfigDiffs

  /** Keys for which a dotted text says where it points. */
  predicate CleanKey(key: string) {
    key != "" && '.' !in key
  }

  predicate CleanPath(path: Path) {
    forall key <- path :: CleanKey(key)
  }

  ghost predicate PathOver(path: Path, keys: iset<string>) {
    forall key <- path :: key in keys
  }

  ghost predicate OverKeys(v: Json, keys: iset<string>) {
    v.Object? ==> forall key <- v.members :: key in keys && OverKeys(v.members[key], keys)
  }

  lemma {:induction false} ReportedPathsAreOver(oldV: Json, newV: Json, keys: iset<string>, path: Path)
    requires OverKeys(oldV, keys) && OverKeys(newV, keys) && Differs(oldV, newV, path)
    ensures PathOver(path, keys)
    decreases path
  {
    if path != [] {
      var key := path[0];
      if key in oldV.members && key in newV.members {
        ReportedPathsAreOver(oldV.members[key], newV.members[key], keys, path[1..]);
      }
      assert path == [key] + path[1..];
    }
  }

  ghost function CleanKeys(): iset<string> {
    iset key | CleanKey(key)
  }

  ghost predicate Clean(v: Json) {
    OverKeys(v, CleanKeys())
  }

  lemma CleanConfigsReportCleanPaths(oldV: Json, newV: Json, path: Path)
    requires Clean(oldV) && Clean(newV) && Differs(oldV, newV, path)
    ensures CleanPath(path)
  {
    ReportedPathsAreOver(oldV, newV, CleanKeys(), path);
  }

  /** The text of the keys after the first. */
  function Tail(path: Path): string {
    if path == [] then "" else "." + path[0] + Tail(path[1..])
  }

  lemma {:induction false} DottedIsTail(prefix: string, path: Path)
    requires prefix != ""
    ensures Dotted(prefix, path) == prefix + Tail(path)
    decreases path
  {
    if path != [] {
      DottedIsTail(prefix + "." + path[0], path[1..]);
    }
  }

  /** Two texts that start with a dot-free key and go on at a dot, or end, have the same key. */
  lemma SameKey(a: string, s: string, b: string, t: string)
    requires '.' !in a && '.' !in b
    requires (s == "" || s[0] == '.') && (t == "" || t[0] == '.')
    requires a + s == b + t
    ensures a == b && s == t
  {
    assert a == (a + s)[..|a|] == (b + t)[..|b|] == b;
    assert s == (a + s)[|a|..] == (b + t)[|b|..] == t;
  }

  /** A clean tail that is, or continues at a dot, another clean tail belongs to the same path or
      to one inside it. */
  lemma {:induction false} TailContinues(p: Path, q: Path, rest: string)
    requires CleanPath(p) && CleanPath(q)
    requires rest == "" || rest[0] == '.'
    requires Tail(p) + rest == Tail(q)
    ensures p <= q && (rest == "" ==> p == q)
  {
    if p != [] {
      var pr, qr := p[1..], q[1..];
      assert p == [p[0]] + pr && q == [q[0]] + qr;
      assert CleanKey(p[0]) && CleanKey(q[0]);
      assert Tail(p) + rest == "." + (p[0] + (Tail(pr) + rest));
      assert Tail(q) == "." + (q[0] + Tail(qr));
      assert p[0] + (Tail(pr) + rest) == (Tail(p) + rest)[1..] == Tail(q)[1..] == q[0] + Tail(qr);
      SameKey(p[0], Tail(pr) + rest, q[0], Tail(qr));
      TailContinues(pr, qr, rest);
    }
  }

  lemma TextOfCleanPath(path: Path)
    requires CleanPath(path) && path != []
    ensures Tail(path) == "." + Dotted("", path)
  {
    assert CleanKey(path[0]);
    DottedIsTail(path[0], path[1..]);
    assert Tail(path) == "." + (path[0] + Tail(path[1..]));
  }

  /** Clean paths: the text of one is the text of another, or goes on from it at a dot, only for
      the same path or one inside it. */
  lemma TextContinues(p: Path, q: Path, rest: string)
    requires CleanPath(p) && CleanPath(q) && p != []
    requires rest == "" || rest[0] == '.'
    requires Dotted("", p) + rest == Dotted("", q)
    ensures p <= q && (rest == "" ==> p == q)
  {
    TextOfCleanPath(p);
    assert CleanKey(p[0]) && |Tail(p)| > 1;
    if q != [] {
      TextOfCleanPath(q);
      assert Tail(p) + rest == "." + (Dotted("", p) + rest) == Tail(q);
      TailContinues(p, q, rest);
    }
  }

  /** For configs with clean keys no reported text is another one or goes on from it at a dot. */
  lemma ReportedTextsArePrefixFree(oldV: Json, newV: Json, p: Path, q: Path, rest: string)
    requires Clean(oldV) && Clean(newV) && Differs(oldV, newV, p) && Differs(oldV, newV, q)
    requires rest == "" || rest[0] == '.'
    requires Dotted("", p) + rest == Dotted("", q)
    ensures p == q && rest == ""
  {
    CleanConfigsReportCleanPaths(oldV, newV, p);
    CleanConfigsReportCleanPaths(oldV, newV, q);
    if p != [] {
      TextContinues(p, q, rest);
    }
    ReportedPathsArePrefixFree(oldV, newV, p, q);
  }

  /** For configs with clean keys the flat map is exact: every changed place has its own entry
      with its own change, ... */
  lemma CleanDiffHasEveryChange(oldV: Json, newV: Json, out: map<string, Change>, p: Path)
    requires Clean(oldV) && Clean(newV)
    requires Records(map[], out, "", oldV, newV, DifferingPaths(oldV, newV))
    requires Differs(oldV, newV, p)
    ensures Dotted("", p) in out && out[Dotted("", p)] == ChangeAt("", oldV, newV, p)
  {
    var s := Dotted("", p);
    assert p in DifferingPaths(oldV, newV);
    var q := CleanDiffHasNothingElse(oldV, newV, out, s);
    assert s + "" == s;
    ReportedTextsArePrefixFree(oldV, newV, p, q, "");
  }

  /** ... every entry is a changed place, ... */
  lemma CleanDiffHasNothingElse(oldV: Json, newV: Json, out: map<string, Change>, s: string) returns (p: Path)
    requires Records(map[], out, "", oldV, newV, DifferingPaths(oldV, newV))
    requires s in out
    ensures Differs(oldV, newV, p) && Dotted("", p) == s && out[s] == ChangeAt("", oldV, newV, p)
  {
    p :| p in DifferingPaths(oldV, newV) && Dotted("", p) == s && out[s] == ChangeAt("", oldV, newV, p);
  }

  /** ... and no recorded text extends another. */
  lemma CleanDiffIsPrefixFree(oldV: Json, newV: Json, out: map<string, Change>, s: string, t: string)
    requires Clean(oldV) && Clean(newV)
    requires Records(map[], out, "", oldV, newV, DifferingPaths(oldV, newV))
    requires s in out && t in out
    ensures !(s + "." <= t)
  {
    var p := CleanDiffHasNothingElse(oldV, newV, out, s);
    var q := CleanDiffHasNothingElse(oldV, newV, out, t);
    if s + "." <= t {
      assert s + t[|s|..] == t;
      ReportedTextsArePrefixFree(oldV, newV, p, q, t[|s|..]);
    }
  }

  lemma {:induction false} DottedSnoc(prefix: string, path: Path, key: string)
    ensures Dotted(prefix, path + [key]) == ChildPath(Dotted(prefix, path), key)
    decreases path
  {
    if path != [] {
      assert (path + [key])[1..] == path[1..] + [key];
      DottedSnoc(ChildPath(prefix, path[0]), path[1..], key);
    }
  }

  lemma {:induction false} LastKeyOfChild(prefix: string, key: string)
    requires '.' !in key
    ensures LastKey(ChildPath(prefix, key)) == key
    decreases key
  {
    var text := ChildPath(prefix, key);
    if key != "" {
      var init := key[..|key| - 1];
      assert text[|text| - 1] == key[|key| - 1];
      if init == "" && prefix == "" {
        assert text[..|text| - 1] == "";
      } else {
        assert text[..|text| - 1] == ChildPath(prefix, init);
        LastKeyOfChild(prefix, init);
      }
      assert key == init + [key[|key| - 1]];
    }
  }

  /** The key that decides about redaction, cut out of the text, is the last key of the place. */
  lemma LastKeyOfText(path: Path, key: string)
    requires '.' !in key
    ensures LastKey(Dotted("", path + [key])) == key
  {
    DottedSnoc("", path, key);
    LastKeyOfChild(Dotted("", path), key);
  }

  // ---------------------------------------------------------------- which keys keep the map exact

  /** Every changed place has its own entry with its own change. */
  ghost predicate Exact(oldV: Json, newV: Json, out: map<string, Change>) {
    forall p | Differs(oldV, newV, p) :: Dotted("", p) in out && out[Dotted("", p)] == ChangeAt("", oldV, newV, p)
  }

  ghost predicate IsDiff(oldV: Json, newV: Json, out: map<string, Change>) {
    Records(map[], out, "", oldV, newV, DifferingPaths(oldV, newV))
  }

  /** Whatever configs are written with these keys, their diff is exact. */
  ghost predicate KeepDiffsExact(keys: iset<string>) {
    forall oldV, newV, out | OverKeys(oldV, keys) && OverKeys(newV, keys) && IsDiff(oldV, newV, out) ::
      Exact(oldV, newV, out)
  }

  predicate Comparable(p: Path, q: Path) {
    p <= q || q <= p
  }

  /** Paths of these keys with the same text lie inside one another. */
  ghost predicate KeepTextsApart(keys: iset<string>) {
    forall p: Path, q: Path | PathOver(p, keys) && PathOver(q, keys) && Dotted("", p) == Dotted("", q) ::
      Comparable(p, q)
  }

  /** A value with nothing in it but one place. */
  function Leaf(path: Path, value: Json): Json {
    if path == [] then value else Object(map[path[0] := Leaf(path[1..], value)])
  }

  /** The same without the place itself. */
  function Bare(path: Path): (v: Json)
    requires path != []
    ensures v.Object?
  {
    if |path| == 1 then Object(map[]) else Object(map[path[0] := Bare(path[1..])])
  }

  /** Two configs that differ at `p`, where a number changes, and at `q`, where one is added. */
  function OldAt(p: Path, q: Path): Json
    requires !Comparable(p, q)
  {
    if p[0] == q[0] then ComparableTail(p, q); Object(map[p[0] := OldAt(p[1..], q[1..])])
    else Object(map[p[0] := Leaf(p[1..], Number(1.0))] + Bare(q).members)
  }

  function NewAt(p: Path, q: Path): Json
    requires !Comparable(p, q)
  {
    if p[0] == q[0] then ComparableTail(p, q); Object(map[p[0] := NewAt(p[1..], q[1..])])
    else Object(map[p[0] := Leaf(p[1..], Number(2.0)), q[0] := Leaf(q[1..], Number(1.0))])
  }

  lemma ComparableTail(p: Path, q: Path)
    requires p != [] && q != [] && p[0] == q[0]
    ensures Comparable(p[1..], q[1..]) <==> Comparable(p, q)
  {
    assert p == [p[0]] + p[1..] && q == [q[0]] + q[1..];
  }

  lemma {:induction false} LeavesDiffer(path: Path, r: Path)
    ensures Differs(Leaf(path, Number(1.0)), Leaf(path, Number(2.0)), r) <==> r == path
    decreases path
  {
    if path != [] && r != [] {
      assert path == [path[0]] + path[1..] && r == [r[0]] + r[1..];
      LeavesDiffer(path[1..], r[1..]);
    }
  }

  lemma {:induction false} BareDiffers(prefix: string, path: Path, r: Path)
    requires path != []
    ensures Differs(Bare(path), Leaf(path, Number(1.0)), r) <==> r == path
    ensures Differs(Bare(path), Leaf(path, Number(1.0)), path)
    ensures ChangeAt(prefix, Bare(path), Leaf(path, Number(1.0)), path).Added?
    ensures Differs(Leaf(path, Number(1.0)), Bare(path), path)
    ensures ChangeAt(prefix, Leaf(path, Number(1.0)), Bare(path), path).Removed?
    decreases path
  {
    assert path == [path[0]] + path[1..];
    if r != [] {
      assert r == [r[0]] + r[1..];
    }
    if |path| > 1 {
      BareDiffers(ChildPath(prefix, path[0]), path[1..], if r == [] then r else r[1..]);
    }
  }

  lemma {:induction false} DiffersAtBoth(prefix: string, p: Path, q: Path, r: Path)
    requires !Comparable(p, q)
    ensures Differs(OldAt(p, q), NewAt(p, q), r) <==> r == p || r == q
    ensures Differs(OldAt(p, q), NewAt(p, q), q) && ChangeAt(prefix, OldAt(p, q), NewAt(p, q), q).Added?
    ensures Differs(OldAt(p, q), NewAt(p, q), p) && ChangeAt(prefix, OldAt(p, q), NewAt(p, q), p).Replaced?
    decreases p
  {
    assert p == [p[0]] + p[1..] && q == [q[0]] + q[1..] && (r != [] ==> r == [r[0]] + r[1..]);
    if p[0] == q[0] {
      ComparableTail(p, q);
      DiffersAtBoth(ChildPath(prefix, p[0]), p[1..], q[1..], if r == [] then r else r[1..]);
    } else {
      BranchesDiffer(prefix, p, q, p);
      BranchesDiffer(prefix, p, q, q);
      BranchesDiffer(prefix, p, q, r);
    }
  }

  lemma BranchesDiffer(prefix: string, p: Path, q: Path, r: Path)
    requires p != [] && q != [] && p[0] != q[0]
    ensures Differs(OldAt(p, q), NewAt(p, q), r) <==> r == p || r == q
    ensures r == p ==> ChangeAt(prefix, OldAt(p, q), NewAt(p, q), r).Replaced?
    ensures r == q ==> ChangeAt(prefix, OldAt(p, q), NewAt(p, q), r).Added?
  {
    assert p == [p[0]] + p[1..] && q == [q[0]] + q[1..];
    if r != [] {
      assert r == [r[0]] + r[1..];
      if r[0] == p[0] {
        LeavesDiffer(p[1..], r[1..]);
        LeavesAreReplaced(ChildPath(prefix, p[0]), p[1..]);
      } else if r[0] == q[0] && |q| > 1 {
        BareDiffers(ChildPath(prefix, q[0]), q[1..], r[1..]);
      }
    }
  }

  lemma {:induction false} LeavesAreReplaced(prefix: string, path: Path)
    ensures Differs(Leaf(path, Number(1.0)), Leaf(path, Number(2.0)), path)
    ensures ChangeAt(prefix, Leaf(path, Number(1.0)), Leaf(path, Number(2.0)), path).Replaced?
    decreases path
  {
    LeavesDiffer(path, path);
    if path != [] {
      LeavesAreReplaced(ChildPath(prefix, path[0]), path[1..]);
    }
  }

  lemma {:induction false} ConfigsAtAreOver(p: Path, q: Path, keys: iset<string>)
    requires !Comparable(p, q) && PathOver(p, keys) && PathOver(q, keys)
    ensures OverKeys(OldAt(p, q), keys) && OverKeys(NewAt(p, q), keys)
    decreases p
  {
    assert forall k <- p[1..] :: k in p;
    assert forall k <- q[1..] :: k in q;
    if p[0] == q[0] {
      ComparableTail(p, q);
      ConfigsAtAreOver(p[1..], q[1..], keys);
    } else {
      LeafIsOver(p[1..], Number(1.0), keys);
      LeafIsOver(p[1..], Number(2.0), keys);
      LeafIsOver(q[1..], Number(1.0), keys);
      BareIsOver(q, keys);
    }
  }

  lemma {:induction false} LeafIsOver(path: Path, value: Json, keys: iset<string>)
    requires PathOver(path, keys) && OverKeys(value, keys)
    ensures OverKeys(Leaf(path, value), keys)
  {
    if path != [] {
      assert forall k <- path[1..] :: k in path;
      LeafIsOver(path[1..], value, keys);
    }
  }

  lemma {:induction false} BareIsOver(path: Path, keys: iset<string>)
    requires path != [] && PathOver(path, keys)
    ensures OverKeys(Bare(path), keys)
  {
    if |path| > 1 {
      assert forall k <- path[1..] :: k in path;
      BareIsOver(path[1..], keys);
    }
  }

  /** Two places with one text that do not lie inside one another: there are configs that change both, and
      whatever map the walk records for them, one of the two changes is lost. */
  lemma {:induction false} CollidingPlacesLoseAChange(p: Path, q: Path) returns (out: map<string, Change>)
    requires !Comparable(p, q) && Dotted("", p) == Dotted("", q)
    ensures
      var oldV, newV := OldAt(p, q), NewAt(p, q);
      && Differs(oldV, newV, p) && Differs(oldV, newV, q)
      && IsDiff(oldV, newV, out)
      && forall any | IsDiff(oldV, newV, any) :: !Exact(oldV, newV, any)
  {
    var oldV, newV, text := OldAt(p, q), NewAt(p, q), Dotted("", p);
    DiffersAtBoth("", p, q, p);
    out := map[text := ChangeAt("", oldV, newV, p)];
    forall r
      ensures Differs(oldV, newV, r) <==> r == p || r == q
    {
      DiffersAtBoth("", p, q, r);
    }
    assert p in DifferingPaths(oldV, newV);
  }

  /** Exactly: with keys from a given set every diff is exact just when no two places of these keys share a
      text, unless one lies inside the other. */
  lemma DiffsAreExactIffTextsAreApart(keys: iset<string>)
    ensures KeepDiffsExact(keys) <==> KeepTextsApart(keys)
  {
    if KeepTextsApart(keys) {
      forall oldV, newV, out | OverKeys(oldV, keys) && OverKeys(newV, keys) && IsDiff(oldV, newV, out)
        ensures Exact(oldV, newV, out)
      {
        forall p | Differs(oldV, newV, p)
          ensures Dotted("", p) in out && out[Dotted("", p)] == ChangeAt("", oldV, newV, p)
        {
          OwnEntry(oldV, newV, keys, out, p);
        }
      }
    } else {
      var p: Path, q: Path :| PathOver(p, keys) && PathOver(q, keys) && Dotted("", p) == Dotted("", q)
                              && !Comparable(p, q);
      ConfigsAtAreOver(p, q, keys);
      var out := CollidingPlacesLoseAChange(p, q);
    }
  }

  lemma OwnEntry(oldV: Json, newV: Json, keys: iset<string>, out: map<string, Change>, p: Path)
    requires KeepTextsApart(keys) && OverKeys(oldV, keys) && OverKeys(newV, keys)
    requires IsDiff(oldV, newV, out) && Differs(oldV, newV, p)
    ensures Dotted("", p) in out && out[Dotted("", p)] == ChangeAt("", oldV, newV, p)
  {
    assert p in DifferingPaths(oldV, newV);
    var q := CleanDiffHasNothingElse(oldV, newV, out, Dotted("", p));
    ReportedPathsAreOver(oldV, newV, keys, p);
    ReportedPathsAreOver(oldV, newV, keys, q);
    assert Comparable(p, q);
    if p <= q {
      ReportedPathsArePrefixFree(oldV, newV, p, q);
    } else {
      ReportedPathsArePrefixFree(oldV, newV, q, p);
    }
  }

  lemma TextOfTwo(top: string, key: string)
    ensures Dotted("", [top]) == top && Dotted("", [top, key]) == ChildPath(top, key)
  {
    assert Dotted(top, []) == top && Dotted(ChildPath(top, key), []) == ChildPath(top, key);
    assert [top][1..] == [] && [top, key][1..] == [key] && [key][1..] == [];
    assert Dotted("", [top, key]) == Dotted(top, [key]) == Dotted(ChildPath(top, key), []);
  }

  /** A key with a dot behind its start collides with its parts, ... */
  lemma DottedKeyCollides(a: string, b: string)
    requires a != ""
    ensures !Comparable([a + "." + b], [a, b]) && Dotted("", [a + "." + b]) == Dotted("", [a, b])
  {
    TextOfTwo(a, b);
    TextOfTwo(a + "." + b, b);
    assert |a| < |a + "." + b|;
    assert [a + "." + b][0] != [a, b][0];
  }

  /** ... the empty key vanishes at the top, ... */
  lemma EmptyKeyCollides(key: string)
    requires key != ""
    ensures !Comparable(["", key], [key]) && Dotted("", ["", key]) == Dotted("", [key])
  {
    TextOfTwo("", key);
    TextOfTwo(key, key);
    assert ["", key][0] != [key][0];
  }

  /** ... and a key that starts with a dot collides, below another key, with the empty key. */
  lemma LeadingDotCollides(top: string, key: string)
    requires top != ""
    ensures !Comparable([top, "." + key], [top, "", key])
    ensures Dotted("", [top, "." + key]) == Dotted("", [top, "", key])
  {
    TextOfTwo(top, "." + key);
    TextOfTwo(top, "");
    DottedSnoc("", [top, ""], key);
    assert [top, ""] + [key] == [top, "", key];
    assert top + "." + ("." + key) == top + "." + "" + "." + key;
    assert [top, "." + key][1] != [top, "", key][1];
  }

  /** A set of keys that has, with a key, its parts on both sides of any dot. */
  ghost predicate HasParts(keys: iset<string>) {
    forall a, b | a + "." + b in keys :: a in keys && b in keys
  }

  /** For such a set with anything but the empty key in it: every diff is exact just when all keys are clean. */
  lemma DiffsAreExactIffKeysAreClean(keys: iset<string>, some: string)
    requires HasParts(keys) && some in keys && some != ""
    ensures KeepDiffsExact(keys) <==> forall key <- keys :: CleanKey(key)
  {
    DiffsAreExactIffTextsAreApart(keys);
    if forall key <- keys :: CleanKey(key) {
      forall p: Path, q: Path | PathOver(p, keys) && PathOver(q, keys) && Dotted("", p) == Dotted("", q)
        ensures Comparable(p, q)
      {
        assert Dotted("", p) + "" == Dotted("", q);
        if p != [] {
          TextContinues(p, q, "");
        }
      }
    } else {
      var key :| key in keys && !CleanKey(key);
      var p, q := CollisionWithKey(keys, some, key);
      assert !Comparable(p, q);
    }
  }

  lemma CollisionWithKey(keys: iset<string>, some: string, key: string) returns (p: Path, q: Path)
    requires HasParts(keys) && some in keys && some != "" && key in keys && !CleanKey(key)
    ensures PathOver(p, keys) && PathOver(q, keys) && Dotted("", p) == Dotted("", q) && !Comparable(p, q)
  {
    if key == "" {
      EmptyKeyCollides(some);
      return ["", some], [some];
    }
    var i :| 0 <= i < |key| && key[i] == '.';
    var a, b := key[..i], key[i + 1..];
    assert key == a + "." + b;
    if a == "" {
      EmptyKeyCollides(key);
      return ["", key], [key];
    }
    DottedKeyCollides(a, b);
    return [key], [a, b];
  }
}
