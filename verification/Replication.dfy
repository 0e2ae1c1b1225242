/** The local registry, the two loops that change it, and the theorem that a group's work lists
    bring it to the group's desired state. */
module Replication {
  import opened Wrappers
  import opened Changes

  /** Where an image lives in a registry. */
  datatype ImageRef = ImageRef(repository: string, name: string, tag: string)

  /** The digest stored under each reference. */
  type Registry = map<ImageRef, string>

  function Ref(e: Entity): ImageRef {
    ImageRef(e.repository, e.name, e.tag)
  }

  function Refs(entities: seq<Entity>): set<ImageRef> {
    set e | e in entities :: Ref(e)
  }

  /** Deleting the entities one by one, of which at most `healthy` calls reach the registry before
      a call fails or the context is cancelled. Deleting a missing reference is an error. */
  function Deleting(r: Registry, entities: seq<Entity>, healthy: nat): (Registry, bool) {
    if entities == [] then (r, true)
    else if healthy == 0 || Ref(entities[0]) !in r then (r, false)
    else Deleting(r - {Ref(entities[0])}, entities[1..], healthy - 1)
  }

  /** Copying the entities by tag, one by one, from a source registry. */
  function Replicating(r: Registry, source: Registry, entities: seq<Entity>, healthy: nat): (Registry, bool)
    decreases |entities|
  {
    if entities == [] then (r, true)
    else
      var ref := Ref(entities[0]);
      if healthy == 0 || ref !in source then (r, false)
      else Replicating(r[ref := source[ref]], source, entities[1..], healthy - 1)
  }

  class LocalRegistry {
    var images: Registry

    method DeleteReplicationEntity(entities: seq<Entity>, healthy: nat) returns (ok: bool)
      modifies this
      ensures (images, ok) == Deleting(old(images), entities, healthy)
    {
      for i := 0 to |entities|
        invariant i <= healthy
        invariant Deleting(old(images), entities, healthy) == Deleting(images, entities[i..], healthy - i)
      {
        if i == healthy || Ref(entities[i]) !in images {
          return false;
        }
        images := images - {Ref(entities[i])};
      }
      return true;
    }

    method Replicate(source: Registry, entities: seq<Entity>, healthy: nat) returns (ok: bool)
      modifies this
      ensures (images, ok) == Replicating(old(images), source, entities, healthy)
    {
      for i := 0 to |entities|
        invariant i <= healthy
        invariant Replicating(old(images), source, entities, healthy)
               == Replicating(images, source, entities[i..], healthy - i)
      {
        var ref := Ref(entities[i]);
        if i == healthy || ref !in source {
          return false;
        }
        if ref in images && images[ref] == source[ref] {
          assert images == images[ref := source[ref]];
        } else {
          images := images[ref := source[ref]];
        }
      }
      return true;
    }
  }

  /** A reference tells repository, name and tag. */
  lemma RefTellsThePlace(e: Entity, f: Entity)
    ensures Ref(e) == Ref(f) <==> e.repository == f.repository && e.name == f.name && e.tag == f.tag
  {}

  /** Deleting gets through the first `k` entities, takes away exactly those, and says whether these are all;
      otherwise the next call has failed, or its image is not there. */
  lemma {:induction false} DeletingGetsThrough(r: Registry, entities: seq<Entity>, healthy: nat) returns (k: nat)
    ensures
      var (r', ok) := Deleting(r, entities, healthy);
      && k <= |entities| && k <= healthy
      && r' == r - Refs(entities[..k])
      && (ok <==> k == |entities|)
      && (!ok ==> k == healthy || Ref(entities[k]) !in r')
  {
    assert entities[..0] == [] && Refs([]) == {};
    if entities == [] || healthy == 0 || Ref(entities[0]) !in r {
      k := 0;
    } else {
      var first, rest := Ref(entities[0]), entities[1..];
      var l := DeletingGetsThrough(r - {first}, rest, healthy - 1);
      k := l + 1;
      assert entities[..k] == [entities[0]] + rest[..l];
      assert Refs(entities[..k]) == {first} + Refs(rest[..l]);
      assert r - Refs(entities[..k]) == r - {first} - Refs(rest[..l]);
    }
  }

  /** Replicating gets through the first `k` entities, makes their references as in the source, changes no
      other, and says whether these are all; otherwise the next call has failed, or the source has no such image. */
  lemma {:induction false} ReplicatingGetsThrough(r: Registry, source: Registry, entities: seq<Entity>, healthy: nat)
      returns (k: nat)
    ensures
      var (r', ok) := Replicating(r, source, entities, healthy);
      && k <= |entities| && k <= healthy
      && (forall ref :: Value(r', ref) == if ref in Refs(entities[..k]) then Value(source, ref) else Value(r, ref))
      && (ok <==> k == |entities|)
      && (!ok ==> k == healthy || Ref(entities[k]) !in source)
      && (forall e <- entities[..k] :: Ref(e) in source)
    decreases |entities|
  {
    assert entities[..0] == [] && Refs([]) == {};
    if entities == [] || healthy == 0 || Ref(entities[0]) !in source {
      k := 0;
    } else {
      var first, rest := Ref(entities[0]), entities[1..];
      var l := ReplicatingGetsThrough(r[first := source[first]], source, rest, healthy - 1);
      k := l + 1;
      assert entities[..k] == [entities[0]] + rest[..l];
      assert Refs(entities[..k]) == {first} + Refs(rest[..l]);
    }
  }

  // ---------------------------------------------------------------- assumptions

  /** The lookup key (name and tag) decides which image is meant. */
  ghost predicate KeyDecidesImage(entities: seq<Entity>) {
    forall e <- entities, f <- entities | LookupKey(e) == LookupKey(f) :: Ref(e) == Ref(f)
  }

  /** Within one list, an image has one digest. */
  ghost predicate OneDigest(entities: seq<Entity>) {
    forall e <- entities, f <- entities | Ref(e) == Ref(f) :: e.digest == f.digest
  }

  /** The registry serves every entity with its digest. */
  ghost predicate Holds(r: Registry, entities: seq<Entity>) {
    forall e <- entities :: Ref(e) in r && r[Ref(e)] == e.digest
  }

  lemma SeparatorEndsTheName(e: Entity, f: Entity)
    requires '|' !in e.tag && LookupKey(e) == LookupKey(f)
    ensures |f.name| <= |e.name|
  {
    var k := LookupKey(e);
    assert forall i | |e.name| < i < |k| :: k[i] == e.tag[i - |e.name| - 1];
    assert LookupKey(f)[|f.name|] == '|';
  }

  /** The lookup key separates names and tags as long as no tag contains the separator. */
  lemma LookupKeyIsInjective(e: Entity, f: Entity)
    requires '|' !in e.tag && '|' !in f.tag
    requires LookupKey(e) == LookupKey(f)
    ensures e.name == f.name && e.tag == f.tag
  {
    SeparatorEndsTheName(e, f);
    SeparatorEndsTheName(f, e);
    var k := LookupKey(e);
    assert e.name == k[..|e.name|] && e.tag == k[|e.name| + 1..];
    assert f.name == k[..|f.name|] && f.tag == k[|f.name| + 1..];
  }

  lemma NameAndTagDecideImage(entities: seq<Entity>)
    requires forall e <- entities :: '|' !in e.tag
    requires forall e <- entities, f <- entities | e.name == f.name && e.tag == f.tag :: e.repository == f.repository
    ensures KeyDecidesImage(entities)
  {
    forall e, f | e in entities && f in entities && LookupKey(e) == LookupKey(f)
      ensures Ref(e) == Ref(f)
    {
      LookupKeyIsInjective(e, f);
    }
  }

  // ---------------------------------------------------------------- the work lists

  /** The images of a list, with their digests. */
  function Images(entities: seq<Entity>): Registry {
    if entities == [] then map[]
    else
      var init, e := entities[..|entities| - 1], entities[|entities| - 1];
      Images(init)[Ref(e) := e.digest]
  }

  lemma {:induction false} ImagesOfList(entities: seq<Entity>)
    requires OneDigest(entities)
    ensures Images(entities).Keys == Refs(entities)
    ensures forall e <- entities :: Images(entities)[Ref(e)] == e.digest
  {
    if entities != [] {
      ImagesOfList(entities[..|entities| - 1]);
      assert entities == entities[..|entities| - 1] + [entities[|entities| - 1]];
    }
  }

  /** What is scheduled for replication is listed, and what is listed but not scheduled is held
      unchanged. */
  lemma {:induction false} Scheduled(held: map<string, Entity>, entities: seq<Entity>)
    ensures forall e <- ToReplicate(held, entities) :: e in entities
    ensures forall e <- entities :: e in ToReplicate(held, entities)
                || (LookupKey(e) in held && held[LookupKey(e)].digest == e.digest)
  {
    if entities != [] {
      Scheduled(held, entities[..|entities| - 1]);
      assert entities == entities[..|entities| - 1] + [entities[|entities| - 1]];
    }
  }

  /** What is listed and not scheduled is held, with the digest it is listed with. */
  lemma UnscheduledIsHeld(oldEntities: seq<Entity>, newEntities: seq<Entity>, e: Entity) returns (x: Entity)
    requires KeyDecidesImage(oldEntities + newEntities) && e in newEntities
    requires e !in ToReplicate(Lookup(oldEntities), newEntities)
    ensures x in oldEntities && Ref(x) == Ref(e) && x.digest == e.digest
  {
    Scheduled(Lookup(oldEntities), newEntities);
    x := Lookup(oldEntities)[LookupKey(e)];
    assert x in oldEntities + newEntities && e in oldEntities + newEntities;
  }

  /** What is superseded is held under the key of a listed entity with another digest, ... */
  lemma {:induction false} SupersededIsHeld(held: map<string, Entity>, entities: seq<Entity>,
                                            x: Entity) returns (e: Entity)
    requires x in Superseded(held, entities)
    ensures e in entities && LookupKey(e) in held && held[LookupKey(e)] == x && x.digest != e.digest
  {
    var init, last := entities[..|entities| - 1], entities[|entities| - 1];
    if x in Superseded(held, init) {
      e := SupersededIsHeld(held, init, x);
    } else {
      e := last;
    }
  }

  /** ... all of that is superseded when the key has one digest in the list, ... */
  lemma {:induction false} ChangedIsSuperseded(held: map<string, Entity>, entities: seq<Entity>, e: Entity)
    requires e in entities && LookupKey(e) in held && held[LookupKey(e)].digest != e.digest
    requires forall f <- entities | LookupKey(f) == LookupKey(e) :: f.digest == e.digest
    ensures held[LookupKey(e)] in Superseded(held, entities)
  {
    var init, last := entities[..|entities| - 1], entities[|entities| - 1];
    assert forall f <- init :: f in entities;
    if LookupKey(e) in Keys(init) {
      var f :| f in init && LookupKey(f) == LookupKey(e);
      ChangedIsSuperseded(held, init, f);
    }
  }

  /** ... and each key is met once. */
  lemma {:induction false} SupersededOnce(held: map<string, Entity>, entities: seq<Entity>)
    requires forall key <- held :: LookupKey(held[key]) == key
    ensures NoDuplicates(Superseded(held, entities))
  {
    if entities != [] {
      var init, last := entities[..|entities| - 1], entities[|entities| - 1];
      SupersededOnce(held, init);
      forall x | x in Superseded(held, init)
        ensures LookupKey(x) in Keys(init)
      {
        var e := SupersededIsHeld(held, init, x);
      }
    }
  }

  /** The work lists of a group whose lists are unambiguous. */
  ghost predicate Plan(oldEntities: seq<Entity>, newEntities: seq<Entity>, toDelete: seq<Entity>,
                       toReplicate: seq<Entity>) {
    && IsChanges(oldEntities, newEntities, toDelete, toReplicate)
    && KeyDecidesImage(oldEntities + newEntities)
    && OneDigest(newEntities)
  }

  /** What is on the delete list is superseded, or its key is not listed any more. */
  lemma DeletedIsHeld(oldEntities: seq<Entity>, newEntities: seq<Entity>, toDelete: seq<Entity>,
                      toReplicate: seq<Entity>,
                      x: Entity)
    requires IsChanges(oldEntities, newEntities, toDelete, toReplicate) && x in toDelete
    ensures x in oldEntities && LookupKey(x) in Lookup(oldEntities) && Lookup(oldEntities)[LookupKey(x)] == x
    ensures x in Superseded(Lookup(oldEntities), newEntities) || LookupKey(x) !in Keys(newEntities)
  {
    var superseded := Superseded(Lookup(oldEntities), newEntities);
    assert toDelete == superseded + toDelete[|superseded|..];
    if x in superseded {
      var e := SupersededIsHeld(Lookup(oldEntities), newEntities, x);
    } else {
      assert x in toDelete[|superseded|..];
    }
  }

  /** Everything on the delete list is held, and not listed any more with its digest. */
  lemma {:induction false} DeletedIsOutdated(oldEntities: seq<Entity>, newEntities: seq<Entity>, toDelete: seq<Entity>,
                          toReplicate: seq<Entity>,
                          x: Entity)
    requires Plan(oldEntities, newEntities, toDelete, toReplicate) && x in toDelete
    ensures x in oldEntities && LookupKey(x) in Lookup(oldEntities) && Lookup(oldEntities)[LookupKey(x)] == x
    ensures forall e <- newEntities | Ref(e) == Ref(x) :: e.digest != x.digest
  {
    DeletedIsHeld(oldEntities, newEntities, toDelete, toReplicate, x);
    if x in Superseded(Lookup(oldEntities), newEntities) {
      var e := SupersededIsHeld(Lookup(oldEntities), newEntities, x);
      assert x in oldEntities + newEntities && e in oldEntities + newEntities;
      assert LookupKey(e) == LookupKey(x);
    } else {
      assert forall e <- newEntities | Ref(e) == Ref(x) :: LookupKey(e) in Keys(newEntities);
    }
  }

  /** Everything held that is not on the delete list is listed with its digest. */
  lemma {:induction false} KeptIsListed(oldEntities: seq<Entity>, newEntities: seq<Entity>, toDelete: seq<Entity>,
                     toReplicate: seq<Entity>,
                     x: Entity) returns (e: Entity)
    requires Plan(oldEntities, newEntities, toDelete, toReplicate)
    requires LookupKey(x) in Lookup(oldEntities) && Lookup(oldEntities)[LookupKey(x)] == x && x !in toDelete
    ensures e in newEntities && Ref(e) == Ref(x) && e.digest == x.digest
  {
    var held := Lookup(oldEntities);
    var superseded := Superseded(held, newEntities);
    var rest := toDelete[|superseded|..];
    assert toDelete == superseded + rest;
    assert x !in rest && x !in superseded;
    assert LookupKey(x) in Keys(newEntities);
    e :| e in newEntities && LookupKey(e) == LookupKey(x);
    assert x in oldEntities + newEntities && e in oldEntities + newEntities;
    forall f | f in newEntities && LookupKey(f) == LookupKey(e)
      ensures f.digest == e.digest
    {
      assert f in oldEntities + newEntities;
    }
    if e.digest != x.digest {
      ChangedIsSuperseded(held, newEntities, e);
    }
  }

  /** A reference that is held and not listed any more is deleted. */
  lemma UnlistedIsDeleted(oldEntities: seq<Entity>, newEntities: seq<Entity>, toDelete: seq<Entity>,
                          toReplicate: seq<Entity>,
                          x: Entity)
    requires Plan(oldEntities, newEntities, toDelete, toReplicate) && x in oldEntities && Ref(x) !in Refs(newEntities)
    ensures Ref(x) in Refs(toDelete)
  {
    var y := Lookup(oldEntities)[LookupKey(x)];
    assert x in oldEntities + newEntities && y in oldEntities + newEntities;
    if y !in toDelete {
      var e := KeptIsListed(oldEntities, newEntities, toDelete, toReplicate, y);
    }
  }

  lemma NoDuplicatesInBoth(a: seq<Entity>, b: seq<Entity>)
    requires NoDuplicates(a) && NoDuplicates(b)
    requires forall x <- a :: x !in b
    ensures NoDuplicates(a + b)
  {
    forall i, j | 0 <= i < j < |a + b|
      ensures (a + b)[i] != (a + b)[j]
    {
      if i < |a| <= j {
        assert a[i] in a && b[j - |a|] in b;
      }
    }
  }

  lemma NothingIsDeletedTwice(oldEntities: seq<Entity>, newEntities: seq<Entity>, toDelete: seq<Entity>,
                              toReplicate: seq<Entity>)
    requires IsChanges(oldEntities, newEntities, toDelete, toReplicate)
    ensures NoDuplicates(toDelete)
  {
    var held := Lookup(oldEntities);
    var superseded := Superseded(held, newEntities);
    var rest := toDelete[|superseded|..];
    SupersededOnce(held, newEntities);
    forall x | x in superseded
      ensures x !in rest
    {
      var e := SupersededIsHeld(held, newEntities, x);
      assert LookupKey(x) in Keys(newEntities);
    }
    NoDuplicatesInBoth(superseded, rest);
    assert toDelete == superseded + rest;
  }

  // ---------------------------------------------------------------- carrying the plan out

  /** The digest under a reference, if there is one. */
  function Value(r: Registry, ref: ImageRef): Option<string> {
    if ref in r then Some(r[ref]) else None
  }

  /** What a reference will hold once the pending work is done. */
  function Pending(r: Registry, toDelete: seq<Entity>, toReplicate: seq<Entity>, source: Registry,
                   ref: ImageRef): Option<string> {
    if ref in Refs(toReplicate) then Value(source, ref)
    else if ref in Refs(toDelete) then None
    else Value(r, ref)
  }

  /** What a managed reference should hold. */
  function Desired(listed: seq<Entity>, ref: ImageRef): Option<string> {
    Value(Images(listed), ref)
  }

  /** A plan leads every reference its group manages to the desired digest. */
  lemma PlanLeadsToDesired(r: Registry, source: Registry, oldEntities: seq<Entity>, newEntities: seq<Entity>,
                           toDelete: seq<Entity>, toReplicate: seq<Entity>, ref: ImageRef)
    requires Plan(oldEntities, newEntities, toDelete, toReplicate)
    requires Holds(r, oldEntities) && Holds(source, newEntities)
    requires ref in Refs(oldEntities) + Refs(newEntities)
    ensures Pending(r, toDelete, toReplicate, source, ref) == Desired(newEntities, ref)
  {
    ImagesOfList(newEntities);
    Scheduled(Lookup(oldEntities), newEntities);
    if ref in Refs(newEntities) {
      var e :| e in newEntities && Ref(e) == ref;
      if ref in Refs(toReplicate) {
        var f :| f in toReplicate && Ref(f) == ref;
      } else {
        assert e !in toReplicate;
        var x := Lookup(oldEntities)[LookupKey(e)];
        assert x in oldEntities + newEntities && e in oldEntities + newEntities;
        if ref in Refs(toDelete) {
          var y :| y in toDelete && Ref(y) == ref;
          DeletedIsOutdated(oldEntities, newEntities, toDelete, toReplicate, y);
        }
      }
    } else {
      var x :| x in oldEntities && Ref(x) == ref;
      UnlistedIsDeleted(oldEntities, newEntities, toDelete, toReplicate, x);
    }
  }

  ghost predicate DistinctRefs(entities: seq<Entity>) {
    forall i, j | 0 <= i < j < |entities| :: Ref(entities[i]) != Ref(entities[j])
  }

  lemma {:induction false} DeletingAll(r: Registry, entities: seq<Entity>, healthy: nat, ref: ImageRef)
    requires healthy >= |entities|
    requires DistinctRefs(entities) && forall e <- entities :: Ref(e) in r
    ensures
      var (r', ok) := Deleting(r, entities, healthy);
      ok && Value(r', ref) == if ref in Refs(entities) then None else Value(r, ref)
  {
    if entities != [] {
      var first, rest := Ref(entities[0]), entities[1..];
      assert entities == [entities[0]] + rest;
      assert Refs(entities) == {first} + Refs(rest);
      FirstRefIsGone(entities);
      forall e | e in rest
        ensures Ref(e) in r - {first}
      {
        assert Ref(e) in Refs(rest);
      }
      DeletingAll(r - {first}, rest, healthy - 1, ref);
      assert Deleting(r, entities, healthy) == Deleting(r - {first}, rest, healthy - 1) by {
        assert entities[0] in entities;
      }
    }
  }

  lemma FirstRefIsGone(entities: seq<Entity>)
    requires DistinctRefs(entities) && entities != []
    ensures DistinctRefs(entities[1..]) && Ref(entities[0]) !in Refs(entities[1..])
  {
    forall e | e in entities[1..]
      ensures Ref(e) != Ref(entities[0])
    {
      var j :| 0 <= j < |entities| - 1 && entities[1..][j] == e;
      assert e == entities[j + 1];
    }
  }

  lemma {:induction false} ReplicatingAll(r: Registry, source: Registry, entities: seq<Entity>, healthy: nat,
                                          ref: ImageRef)
    requires healthy >= |entities|
    requires forall e <- entities :: Ref(e) in source
    ensures
      var (r', ok) := Replicating(r, source, entities, healthy);
      ok && Value(r', ref) == if ref in Refs(entities) then Value(source, ref) else Value(r, ref)
    decreases |entities|
  {
    if entities != [] {
      var first, rest := Ref(entities[0]), entities[1..];
      assert entities == [entities[0]] + rest;
      assert Refs(entities) == {first} + Refs(rest);
      ReplicatingAll(r[first := source[first]], source, rest, healthy - 1, ref);
    }
  }

  lemma DeleteListRefs(oldEntities: seq<Entity>, newEntities: seq<Entity>, toDelete: seq<Entity>,
                       toReplicate: seq<Entity>)
    requires Plan(oldEntities, newEntities, toDelete, toReplicate)
    ensures forall x <- toDelete :: x in oldEntities
    ensures DistinctRefs(toDelete)
  {
    NothingIsDeletedTwice(oldEntities, newEntities, toDelete, toReplicate);
    forall x | x in toDelete
      ensures x in oldEntities && LookupKey(x) in Lookup(oldEntities) && Lookup(oldEntities)[LookupKey(x)] == x
    {
      DeletedIsOutdated(oldEntities, newEntities, toDelete, toReplicate, x);
    }
    forall i, j | 0 <= i < j < |toDelete|
      ensures Ref(toDelete[i]) != Ref(toDelete[j])
    {
      var x, y := toDelete[i], toDelete[j];
      assert Ref(x) == Ref(y) ==> LookupKey(x) == LookupKey(y);
    }
  }

  /** Carrying out the work lists leaves under each reference what is pending for it. */
  lemma CarriedOut(r: Registry, source: Registry, toDelete: seq<Entity>, toReplicate: seq<Entity>, ref: ImageRef)
    requires DistinctRefs(toDelete) && forall x <- toDelete :: Ref(x) in r
    requires forall x <- toReplicate :: Ref(x) in source
    ensures
      var (r1, deleted) := Deleting(r, toDelete, |toDelete|);
      var (r2, replicated) := Replicating(r1, source, toReplicate, |toReplicate|);
      deleted && replicated && Value(r2, ref) == Pending(r, toDelete, toReplicate, source, ref)
  {
    DeletingAll(r, toDelete, |toDelete|, ref);
    ReplicatingAll(Deleting(r, toDelete, |toDelete|).0, source, toReplicate, |toReplicate|, ref);
  }

  /** Deleting and then replicating a group's work lists turns a registry that holds the old
      entities into one that holds exactly the listed ones, and leaves every other reference alone;
      no delete hits a missing reference. */
  lemma {:induction false} PlanReachesListedState(r: Registry, source: Registry, oldEntities: seq<Entity>,
                                                  newEntities: seq<Entity>,
                               toDelete: seq<Entity>, toReplicate: seq<Entity>)
    requires Plan(oldEntities, newEntities, toDelete, toReplicate)
    requires Holds(r, oldEntities) && Holds(source, newEntities)
    ensures
      var (r1, deleted) := Deleting(r, toDelete, |toDelete|);
      var (r2, replicated) := Replicating(r1, source, toReplicate, |toReplicate|);
      deleted && replicated && r2 == (r - Refs(oldEntities)) + Images(newEntities)
  {
    DeleteListRefs(oldEntities, newEntities, toDelete, toReplicate);
    Scheduled(Lookup(oldEntities), newEntities);
    ImagesOfList(newEntities);
    var r2 := Replicating(Deleting(r, toDelete, |toDelete|).0, source, toReplicate, |toReplicate|).0;
    var goal := (r - Refs(oldEntities)) + Images(newEntities);
    forall ref
      ensures Value(r2, ref) == Value(goal, ref)
    {
      CarriedOut(r, source, toDelete, toReplicate, ref);
      if ref in Refs(oldEntities) + Refs(newEntities) {
        PlanLeadsToDesired(r, source, oldEntities, newEntities, toDelete, toReplicate, ref);
      }
    }
    SameValues(r2, goal);
    CarriedOut(r, source, toDelete, toReplicate, ImageRef("", "", ""));
  }

  lemma SameValues(a: Registry, b: Registry)
    requires forall ref :: Value(a, ref) == Value(b, ref)
    ensures a == b
  {
    assert forall ref :: (ref in a <==> Value(a, ref).Some?) && (ref in b <==> Value(b, ref).Some?);
    assert a.Keys == b.Keys;
    assert forall ref <- a :: Value(a, ref) == Some(a[ref]) && Value(b, ref) == Some(b[ref]);
  }

  /** An entity held and listed with the same digest is never deleted, and is replicated exactly
      when the list repeats it: its key leaves the lookup map at the first occurrence. */
  lemma {:induction false} UnchangedEntity(oldEntities: seq<Entity>, newEntities: seq<Entity>, toDelete: seq<Entity>,
                        toReplicate: seq<Entity>,
                        x: Entity)
    requires Plan(oldEntities, newEntities, toDelete, toReplicate)
    requires LookupKey(x) in Lookup(oldEntities) && Lookup(oldEntities)[LookupKey(x)] == x && x in newEntities
    ensures x !in toDelete
    ensures x in toReplicate <==> exists i, j | 0 <= i < j < |newEntities| :: newEntities[i] == x && newEntities[j] == x
  {
    if x in toDelete {
      DeletedIsOutdated(oldEntities, newEntities, toDelete, toReplicate, x);
    }
    forall e | e in newEntities && LookupKey(e) == LookupKey(x)
      ensures e == x
    {
      assert e in oldEntities + newEntities && x in oldEntities + newEntities;
    }
    RepeatedIsReplicated(Lookup(oldEntities), newEntities, x);
  }

  /** A list that repeats an entity that is held: it is scheduled again, though nothing has changed. */
  lemma RepeatedEntityIsScheduledAgain(x: Entity, toDelete: seq<Entity>, toReplicate: seq<Entity>)
    requires IsChanges([x], [x, x], toDelete, toReplicate)
    ensures toDelete == [] && toReplicate == [x]
  {
    var held := Lookup([x]);
    assert [x, x][..1] == [x] && [x][..0] == [];
    assert held == map[LookupKey(x) := x];
    assert ToReplicate(held, [x]) == ToReplicate(held, []) == [];
    assert Superseded(held, [x]) == Superseded(held, []) == [];
    if toDelete != [] {
      assert toDelete[0] in toDelete[|Superseded(held, [x, x])|..];
    }
  }

  lemma {:induction false} RepeatedIsReplicated(held: map<string, Entity>, entities: seq<Entity>, x: Entity)
    requires LookupKey(x) in held && held[LookupKey(x)].digest == x.digest
    requires forall e <- entities | LookupKey(e) == LookupKey(x) :: e == x
    ensures x in ToReplicate(held, entities) <==>
            exists i, j | 0 <= i < j < |entities| :: entities[i] == x && entities[j] == x
  {
    if entities != [] {
      var init, last := entities[..|entities| - 1], entities[|entities| - 1];
      assert entities == init + [last];
      RepeatedIsReplicated(held, init, x);
      if last == x {
        assert LookupKey(x) in Keys(init) <==> x in init;
        if x in init {
          var i :| 0 <= i < |init| && init[i] == x;
          assert entities[i] == x && entities[|init|] == x;
        }
      }
      if x in ToReplicate(held, init) {
        var i, j :| 0 <= i < j < |init| && init[i] == x && init[j] == x;
        assert entities[i] == x && entities[j] == x;
      }
      if i, j :| 0 <= i < j < |entities| && entities[i] == x && entities[j] == x {
        assert i < |init| && init[i] == x;
        if j < |init| {
          assert init[j] == x;
        }
      }
    }
  }

  /** Once a group's listed entities are what it holds, the next round has nothing to do. */
  lemma NextRoundIsEmpty(entities: seq<Entity>, toDelete: seq<Entity>, toReplicate: seq<Entity>)
    requires Plan(entities, entities, toDelete, toReplicate) && NoDuplicates(entities)
    ensures toDelete == [] && toReplicate == []
  {
    DeleteListRefs(entities, entities, toDelete, toReplicate);
    Scheduled(Lookup(entities), entities);
    if toDelete != [] {
      HeldAndListed(entities, toDelete, toReplicate, toDelete[0]);
    }
    if toReplicate != [] {
      HeldAndListed(entities, toDelete, toReplicate, toReplicate[0]);
    }
  }

  lemma HeldAndListed(entities: seq<Entity>, toDelete: seq<Entity>, toReplicate: seq<Entity>, x: Entity)
    requires Plan(entities, entities, toDelete, toReplicate) && NoDuplicates(entities)
    requires x in entities
    ensures x !in toDelete && x !in toReplicate
  {
    var y := Lookup(entities)[LookupKey(x)];
    assert x in entities + entities && y in entities + entities;
    UnchangedEntity(entities, entities, toDelete, toReplicate, x);
  }
}
