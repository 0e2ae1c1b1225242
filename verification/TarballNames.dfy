/** Which images the names of tarballs tell apart. A name is the repository, the image name and the tag, each
    with some characters replaced, joined by a double hyphen. */
module TarballNames {
  import opened Changes
  import opened DirectDelivery

  predicate SamePlace(e: Entity, f: Entity) {
    e.repository == f.repository && e.name == f.name && e.tag == f.tag
  }

  function Join(first: string, second: string): string {
    first + "--" + second
  }

  /** What stands in the filename before its ending. */
  function Stem(e: Entity): string {
    Join(Safe(e.repository), Join(Safe(e.name), Safe(e.tag)))
  }

  lemma FilenameIsStem(e: Entity)
    ensures TarballFilename(e) == Stem(e) + ".tar"
  {
    var r, n, t := Safe(e.repository), Safe(e.name), Safe(e.tag);
    assert r + "--" + n + "--" + t + ".tar" == r + "--" + (n + "--" + t) + ".tar";
  }

  lemma SameFilenameIsSameStem(e: Entity, f: Entity)
    ensures TarballFilename(e) == TarballFilename(f) <==> Stem(e) == Stem(f)
  {
    FilenameIsStem(e);
    FilenameIsStem(f);
    if TarballFilename(e) == TarballFilename(f) {
      var name, other := Stem(e) + ".tar", Stem(f) + ".tar";
      assert Stem(e) == name[..|name| - 4] == other[..|other| - 4] == Stem(f);
    }
  }

  // ---------------------------------------------------------------- two joined texts

  /** Two joined texts are alike only if they are joined from the same parts, or the delimiter was found one
      place further on, or two delimiters were confused. */
  lemma JoinedAlike(a: string, b: string, c: string, d: string) returns (x: string)
    requires Join(a, b) == Join(c, d) && |a| <= |c|
    ensures
      || (a == c && b == d)
      || (c == a + "-" && b == "-" + d)
      || (c == Join(a, x) && b == Join(x, d))
  {
    var whole, n, m := Join(a, b), |a|, |c|;
    x := "";
    assert a == whole[..n] && b == whole[n + 2..] && c == whole[..m] && d == whole[m + 2..];
    if m == n + 1 {
      assert c == a + [whole[n]] && b == [whole[m + 1]] + d;
      assert whole[n] == '-' && whole[m + 1] == '-';
    } else if m > n + 1 {
      x := whole[n + 2..m];
      assert whole == whole[..n] + whole[n..n + 2] + whole[n + 2..m] + whole[m..m + 2] + whole[m + 2..];
      assert whole[n..n + 2] == "--" && whole[m..m + 2] == "--";
      assert c == a + "--" + x && b == x + "--" + d;
    }
  }

  /** No text of the first set and no text of the second can be continued into the other's place: by a hyphen
      at the end of the first and the start of the second, or by a text with a delimiter. */
  ghost predicate Apart(first: iset<string>, second: iset<string>) {
    && (forall a, b :: !(a in first && a + "-" in first && b in second && "-" + b in second))
    && forall a, x, b :: !(a in first && Join(a, x) in first && b in second && Join(x, b) in second)
  }

  /** Exactly: joined texts from two sets can be taken apart again just when the sets are apart. */
  lemma JoinDecidesIffApart(first: iset<string>, second: iset<string>)
    ensures
      (forall a, b, c, d | a in first && b in second && c in first && d in second && Join(a, b) == Join(c, d) ::
         a == c && b == d) <==>
      Apart(first, second)
  {
    if Apart(first, second) {
      forall a, b, c, d | a in first && b in second && c in first && d in second && Join(a, b) == Join(c, d)
        ensures a == c && b == d
      {
        if |a| <= |c| {
          var x := JoinedAlike(a, b, c, d);
        } else {
          var x := JoinedAlike(c, d, a, b);
        }
      }
    } else if a, b :| a in first && a + "-" in first && b in second && "-" + b in second {
      assert Join(a, "-" + b) == Join(a + "-", b);
    } else {
      var a, x, b :| a in first && Join(a, x) in first && b in second && Join(x, b) in second;
      assert Join(a, Join(x, b)) == Join(Join(a, x), b);
    }
  }

  // ---------------------------------------------------------------- filenames

  ghost predicate SafeDecides(texts: iset<string>) {
    forall s, t | s in texts && t in texts && Safe(s) == Safe(t) :: s == t
  }

  ghost function SafeTexts(texts: iset<string>): iset<string> {
    iset s | s in texts :: Safe(s)
  }

  /** What a name and a tag become in a filename. */
  ghost function Images(names: iset<string>, tags: iset<string>): iset<string> {
    iset n, t | n in names && t in tags :: Join(Safe(n), Safe(t))
  }

  ghost predicate Over(e: Entity, repositories: iset<string>, names: iset<string>, tags: iset<string>) {
    e.repository in repositories && e.name in names && e.tag in tags
  }

  ghost predicate FilenamesDecide(repositories: iset<string>, names: iset<string>, tags: iset<string>) {
    forall e, f |
        Over(e, repositories, names, tags) && Over(f, repositories, names, tags)
        && TarballFilename(e) == TarballFilename(f) ::
      SamePlace(e, f)
  }

  /** The conditions, field by field: no replaced character makes two texts of a field alike; no repository runs
      into the name and tag behind it; and no name runs into the tag behind it. Tags need nothing else. */
  ghost predicate FieldsDecide(repositories: iset<string>, names: iset<string>, tags: iset<string>) {
    && SafeDecides(repositories) && SafeDecides(names) && SafeDecides(tags)
    && Apart(SafeTexts(repositories), Images(names, tags))
    && Apart(SafeTexts(names), SafeTexts(tags))
  }

  lemma FieldsDecideFilenames(repositories: iset<string>, names: iset<string>, tags: iset<string>, e: Entity, f: Entity)
    requires FieldsDecide(repositories, names, tags)
    requires Over(e, repositories, names, tags) && Over(f, repositories, names, tags)
    requires TarballFilename(e) == TarballFilename(f)
    ensures SamePlace(e, f)
  {
    SameFilenameIsSameStem(e, f);
    JoinDecidesIffApart(SafeTexts(repositories), Images(names, tags));
    JoinDecidesIffApart(SafeTexts(names), SafeTexts(tags));
    assert Safe(e.repository) in SafeTexts(repositories) && Safe(f.repository) in SafeTexts(repositories);
    assert Join(Safe(e.name), Safe(e.tag)) in Images(names, tags);
    assert Join(Safe(f.name), Safe(f.tag)) in Images(names, tags);
    assert Safe(e.name) in SafeTexts(names) && Safe(f.name) in SafeTexts(names);
    assert Safe(e.tag) in SafeTexts(tags) && Safe(f.tag) in SafeTexts(tags);
  }

  /** Two entities whose repositories are the same, or whose names and tags are joined alike. */
  lemma DecidedFields(repositories: iset<string>, names: iset<string>, tags: iset<string>, e: Entity, f: Entity)
    requires FilenamesDecide(repositories, names, tags)
    requires Over(e, repositories, names, tags) && Over(f, repositories, names, tags) && Stem(e) == Stem(f)
    ensures SamePlace(e, f)
  {
    SameFilenameIsSameStem(e, f);
  }

  lemma DecidedAlone(repositories: iset<string>, names: iset<string>, tags: iset<string>, e: Entity)
    requires FilenamesDecide(repositories, names, tags) && Over(e, repositories, names, tags)
    ensures SafeDecides(repositories) && SafeDecides(names) && SafeDecides(tags)
  {
    forall s, t | s in repositories && t in repositories && Safe(s) == Safe(t)
      ensures s == t
    {
      DecidedFields(repositories, names, tags, e.(repository := s), e.(repository := t));
    }
    forall s, t | s in names && t in names && Safe(s) == Safe(t)
      ensures s == t
    {
      DecidedFields(repositories, names, tags, e.(name := s), e.(name := t));
    }
    forall s, t | s in tags && t in tags && Safe(s) == Safe(t)
      ensures s == t
    {
      DecidedFields(repositories, names, tags, e.(tag := s), e.(tag := t));
    }
  }

  lemma DecidedNamesAreApart(repositories: iset<string>, names: iset<string>, tags: iset<string>, e: Entity)
    requires FilenamesDecide(repositories, names, tags) && Over(e, repositories, names, tags)
    ensures Apart(SafeTexts(names), SafeTexts(tags))
  {
    forall a, b, c, d |
        a in SafeTexts(names) && b in SafeTexts(tags) && c in SafeTexts(names) && d in SafeTexts(tags)
        && Join(a, b) == Join(c, d)
      ensures a == c && b == d
    {
      var m :| m in names && Safe(m) == a;
      var n :| n in names && Safe(n) == c;
      var s :| s in tags && Safe(s) == b;
      var t :| t in tags && Safe(t) == d;
      DecidedFields(repositories, names, tags, e.(name := m, tag := s), e.(name := n, tag := t));
    }
    JoinDecidesIffApart(SafeTexts(names), SafeTexts(tags));
  }

  lemma DecidedRepositoriesAreApart(repositories: iset<string>, names: iset<string>, tags: iset<string>)
    requires FilenamesDecide(repositories, names, tags)
    ensures Apart(SafeTexts(repositories), Images(names, tags))
  {
    forall a, b, c, d |
        a in SafeTexts(repositories) && b in Images(names, tags)
        && c in SafeTexts(repositories) && d in Images(names, tags) && Join(a, b) == Join(c, d)
      ensures a == c && b == d
    {
      var q :| q in repositories && Safe(q) == a;
      var r :| r in repositories && Safe(r) == c;
      var m, s :| m in names && s in tags && Join(Safe(m), Safe(s)) == b;
      var n, t :| n in names && t in tags && Join(Safe(n), Safe(t)) == d;
      DecidedFields(repositories, names, tags, Entity(m, q, s, ""), Entity(n, r, t, ""));
    }
    JoinDecidesIffApart(SafeTexts(repositories), Images(names, tags));
  }

  /** Exactly: whatever repositories, names and tags there can be, filenames tell all images of them apart just
      when the fields meet their conditions. */
  lemma FilenamesDecideIff(repositories: iset<string>, names: iset<string>, tags: iset<string>, some: Entity)
    requires Over(some, repositories, names, tags)
    ensures FilenamesDecide(repositories, names, tags) <==> FieldsDecide(repositories, names, tags)
  {
    if FieldsDecide(repositories, names, tags) {
      forall e, f |
          Over(e, repositories, names, tags) && Over(f, repositories, names, tags)
          && TarballFilename(e) == TarballFilename(f)
        ensures SamePlace(e, f)
      {
        FieldsDecideFilenames(repositories, names, tags, e, f);
      }
    }
    if FilenamesDecide(repositories, names, tags) {
      DecidedAlone(repositories, names, tags, some);
      DecidedNamesAreApart(repositories, names, tags, some);
      DecidedRepositoriesAreApart(repositories, names, tags);
    }
  }

  // ---------------------------------------------------------------- fields that are always fine

  /** A text in which nothing is replaced, such as a tag or the first segment of a repository's path. */
  predicate Bare(s: string) {
    '/' !in s && ':' !in s && ' ' !in s
  }

  /** A text in which only slashes are replaced, and underscores do not occur. */
  predicate OnlySlashes(s: string) {
    ':' !in s && ' ' !in s && '_' !in s
  }

  /** A text that holds no delimiter and does not end within one. */
  ghost predicate Unsplit(s: string) {
    && (forall i | 0 <= i < |s| - 1 :: !(s[i] == '-' && s[i + 1] == '-'))
    && (s != "" ==> s[|s| - 1] != '-')
  }

  lemma BareIsSafe(s: string)
    requires Bare(s)
    ensures Safe(s) == s
  {
    forall i | 0 <= i < |s|
      ensures Safe(s)[i] == s[i]
    {
      assert s[i] in s;
    }
  }

  lemma OnlySlashesDecide(s: string, t: string)
    requires OnlySlashes(s) && OnlySlashes(t) && Safe(s) == Safe(t)
    ensures s == t
  {
    assert |s| == |Safe(s)| == |Safe(t)| == |t|;
    forall i | 0 <= i < |s|
      ensures s[i] == t[i]
    {
      assert Safe(s)[i] == Safe(t)[i] && s[i] in s && t[i] in t;
    }
  }

  /** What stands before the first delimiter can be read off. */
  lemma SameToken(a: string, b: string, c: string, d: string)
    requires Unsplit(a) && Unsplit(c) && Join(a, b) == Join(c, d)
    ensures a == c && b == d
  {
    if |a| <= |c| {
      var x := JoinedAlike(a, b, c, d);
      UnsplitStaysShort(a, c, x);
    } else {
      var x := JoinedAlike(c, d, a, b);
      UnsplitStaysShort(c, a, x);
    }
  }

  lemma UnsplitStaysShort(a: string, c: string, x: string)
    requires Unsplit(c)
    ensures c != a + "-" && c != Join(a, x)
  {
    var one, two := a + "-", Join(a, x);
    assert one[|one| - 1] == '-';
    assert two[|a|] == '-' && two[|a| + 1] == '-' && |a| < |two| - 1;
  }

  /** An image as a registry has it: bare repositories and tags, names with slashes and without underscores, and
      no delimiter in the way in repository and name. */
  ghost predicate InRegistryForm(e: Entity) {
    && Bare(e.repository) && Unsplit(e.repository)
    && OnlySlashes(e.name) && Unsplit(Safe(e.name))
    && Bare(e.tag)
  }

  /** Such images are told apart, whatever hyphens and underscores are in their tags. */
  lemma RegistryFormsAreToldApart(e: Entity, f: Entity)
    requires InRegistryForm(e) && InRegistryForm(f) && TarballFilename(e) == TarballFilename(f)
    ensures SamePlace(e, f)
  {
    SameFilenameIsSameStem(e, f);
    BareIsSafe(e.repository);
    BareIsSafe(f.repository);
    BareIsSafe(e.tag);
    BareIsSafe(f.tag);
    SameToken(e.repository, Join(Safe(e.name), e.tag), f.repository, Join(Safe(f.name), f.tag));
    SameToken(Safe(e.name), e.tag, Safe(f.name), f.tag);
    OnlySlashesDecide(e.name, f.name);
  }

  // ---------------------------------------------------------------- collisions

  predicate Replaced(c: char) {
    c in {'/', ':', ' ', '_'}
  }

  /** Replaced characters collide, in any text and in any field, ... */
  lemma ReplacedCharactersCollide(before: string, c: char, d: char, after: string)
    requires Replaced(c) && Replaced(d)
    ensures Safe(before + [c] + after) == Safe(before + [d] + after)
  {
  }

  lemma SafeOfJoin(a: string, b: string)
    ensures Safe(Join(a, b)) == Join(Safe(a), Safe(b))
  {
  }

  /** ... so do a repository and a name with a delimiter between their parts, ... */
  lemma NamesCollide(a: string, b: string, c: string, tag: string, digest: string)
    ensures TarballFilename(Entity(c, Join(a, b), tag, digest)) == TarballFilename(Entity(Join(b, c), a, tag, digest))
  {
    SafeOfJoin(a, b);
    SafeOfJoin(b, c);
    var e, f := Entity(c, Join(a, b), tag, digest), Entity(Join(b, c), a, tag, digest);
    SameFilenameIsSameStem(e, f);
    var x, y, z, t := Safe(a), Safe(b), Safe(c), Safe(tag);
    assert Join(Join(x, y), Join(z, t)) == Join(x, Join(Join(y, z), t));
  }

  /** ... a name and a tag, ... */
  lemma TagsCollide(repository: string, a: string, b: string, c: string, digest: string)
    ensures
      TarballFilename(Entity(a, repository, Join(b, c), digest)) ==
      TarballFilename(Entity(Join(a, b), repository, c, digest))
  {
    SafeOfJoin(a, b);
    SafeOfJoin(b, c);
    SameFilenameIsSameStem(Entity(a, repository, Join(b, c), digest), Entity(Join(a, b), repository, c, digest));
    assert Join(Safe(a), Join(Safe(b), Safe(c))) == Join(Join(Safe(a), Safe(b)), Safe(c));
  }

  /** ... and fields with a hyphen at the end, next to one with a hyphen at the start. */
  lemma EndHyphensCollide(a: string, b: string, tag: string, digest: string)
    ensures TarballFilename(Entity(b, a + "-", tag, digest)) == TarballFilename(Entity("-" + b, a, tag, digest))
  {
    assert Safe(a + "-") == Safe(a) + "-" && Safe("-" + b) == "-" + Safe(b);
    SameFilenameIsSameStem(Entity(b, a + "-", tag, digest), Entity("-" + b, a, tag, digest));
    var x, y, t := Safe(a), Safe(b), Safe(tag);
    assert Join(x + "-", Join(y, t)) == Join(x, Join("-" + y, t));
  }
}
