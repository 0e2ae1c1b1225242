/** What a satellite has to do to get from the entities it holds to the entities a group's state
    lists, and what doing it makes of the local registry. */
module Changes {
  import opened Wrappers

  datatype Entity = Entity(name: string, repository: string, tag: string, digest: string)

  datatype Artifact = Artifact(repository: string, name: string, tags: seq<string>, digest: string)

  // ---------------------------------------------------------------- entities of a state

  /** One entity per tag of the artifact, in order. */
  function EntitiesOf(a: Artifact): seq<Entity> {
    seq(|a.tags|, i requires 0 <= i < |a.tags| => Entity(a.name, a.repository, a.tags[i], a.digest))
  }

  function AllEntities(artifacts: seq<Artifact>): seq<Entity> {
    if artifacts == [] then []
    else AllEntities(artifacts[..|artifacts| - 1]) + EntitiesOf(artifacts[|artifacts| - 1])
  }

  function Tagged(artifacts: seq<Artifact>): seq<Artifact> {
    if artifacts == [] then []
    else
      var init, last := artifacts[..|artifacts| - 1], artifacts[|artifacts| - 1];
      if |last.tags| != 0 then Tagged(init) + [last] else Tagged(init)
  }

  /** A fetched group state; the reconciliation rewrites its artifact list in place. */
  class GroupState {
    var artifacts: seq<Artifact>

    constructor (artifacts: seq<Artifact>)
      ensures this.artifacts == artifacts
    {
      this.artifacts := artifacts;
    }

    method RemoveNullTagArtifacts()
      modifies this
      ensures artifacts == Tagged(old(artifacts))
    {
      var kept: seq<Artifact> := [];
      for i := 0 to |artifacts|
        invariant artifacts == old(artifacts)
        invariant kept == Tagged(artifacts[..i])
      {
        assert artifacts[..i + 1][..i] == artifacts[..i];
        if |artifacts[i].tags| != 0 {
          kept := kept + [artifacts[i]];
        }
      }
      assert artifacts[..|artifacts|] == artifacts;
      artifacts := kept;
    }

    method FetchEntities() returns (entities: seq<Entity>)
      ensures entities == AllEntities(artifacts)
    {
      entities := [];
      for i := 0 to |artifacts|
        invariant entities == AllEntities(artifacts[..i])
      {
        var a := artifacts[i];
        ghost var before := entities;
        for j := 0 to |a.tags|
          invariant entities == before + EntitiesOf(a)[..j]
        {
          entities := entities + [Entity(a.name, a.repository, a.tags[j], a.digest)];
        }
        assert EntitiesOf(a)[..|a.tags|] == EntitiesOf(a);
        assert artifacts[..i + 1][..i] == artifacts[..i];
      }
      assert artifacts[..|artifacts|] == artifacts;
    }
  }

  /** Dropping the untagged artifacts drops no entity. */
  lemma {:induction false} UntaggedArtifactsHaveNoEntities(artifacts: seq<Artifact>)
    ensures AllEntities(Tagged(artifacts)) == AllEntities(artifacts)
  {
    if artifacts != [] {
      var init, last := artifacts[..|artifacts| - 1], artifacts[|artifacts| - 1];
      UntaggedArtifactsHaveNoEntities(init);
      if |last.tags| != 0 {
        assert (Tagged(init) + [last])[..|Tagged(init)|] == Tagged(init);
      } else {
        assert AllEntities(init) + EntitiesOf(last) == AllEntities(init);
      }
    }
  }

  /** How many entities the first `k` artifacts have. */
  function EntitiesBefore(artifacts: seq<Artifact>, k: nat): nat
    requires k <= |artifacts|
  {
    if k == 0 then 0 else EntitiesBefore(artifacts, k - 1) + |artifacts[k - 1].tags|
  }

  /** The entity of tag `j` of artifact `k` has its place in the list, and the list has nothing else. */
  lemma {:induction false} EntityOfTag(artifacts: seq<Artifact>, k: nat, j: nat)
    requires k < |artifacts| && j < |artifacts[k].tags|
    ensures |AllEntities(artifacts)| == EntitiesBefore(artifacts, |artifacts|)
    ensures EntitiesBefore(artifacts, k) + j < |AllEntities(artifacts)|
    ensures
      var e := AllEntities(artifacts)[EntitiesBefore(artifacts, k) + j];
      && e.repository == artifacts[k].repository && e.name == artifacts[k].name
      && e.tag == artifacts[k].tags[j] && e.digest == artifacts[k].digest
    decreases |artifacts|
  {
    var n := |artifacts| - 1;
    LengthOfEntities(artifacts, |artifacts|);
    LengthOfEntities(artifacts, n);
    EntitiesBeforeIsStable(artifacts, n, k);
    assert artifacts[..|artifacts|] == artifacts;
    if k < n {
      EntityOfTag(artifacts[..n], k, j);
    }
  }

  lemma {:induction false} LengthOfEntities(artifacts: seq<Artifact>, n: nat)
    requires n <= |artifacts|
    ensures |AllEntities(artifacts[..n])| == EntitiesBefore(artifacts, n)
    decreases n
  {
    if n > 0 {
      LengthOfEntities(artifacts, n - 1);
      assert artifacts[..n][..n - 1] == artifacts[..n - 1];
    }
  }

  lemma {:induction false} EntitiesBeforeIsStable(artifacts: seq<Artifact>, n: nat, k: nat)
    requires k <= n <= |artifacts|
    ensures EntitiesBefore(artifacts[..n], k) == EntitiesBefore(artifacts, k)
    decreases k
  {
    if k > 0 {
      EntitiesBeforeIsStable(artifacts, n, k - 1);
    }
  }

  /** What stays is every tagged artifact, as often as it was there, and in order: list by list. */
  lemma {:induction false} TaggedArtifactsStay(artifacts: seq<Artifact>, more: seq<Artifact>, a: Artifact)
    ensures multiset(Tagged(artifacts))[a] == if a.tags == [] then 0 else multiset(artifacts)[a]
    ensures Tagged(artifacts + more) == Tagged(artifacts) + Tagged(more)
  {
    TaggedCount(artifacts, a);
    if more == [] {
      assert artifacts + more == artifacts;
    } else {
      var n := |more| - 1;
      assert (artifacts + more)[..|artifacts| + n] == artifacts + more[..n];
      TaggedArtifactsStay(artifacts, more[..n], a);
    }
  }

  lemma {:induction false} TaggedCount(artifacts: seq<Artifact>, a: Artifact)
    ensures multiset(Tagged(artifacts))[a] == if a.tags == [] then 0 else multiset(artifacts)[a]
  {
    if artifacts != [] {
      var init, last := artifacts[..|artifacts| - 1], artifacts[|artifacts| - 1];
      assert artifacts == init + [last];
      TaggedCount(init, a);
    }
  }

  // ---------------------------------------------------------------- the diff

  /** The key of the lookup map. */
  function LookupKey(e: Entity): string {
    e.name + "|" + e.tag
  }

  /** The lookup map over the old entities; a later entity replaces an earlier one. */
  function Lookup(entities: seq<Entity>): (m: map<string, Entity>)
    ensures forall key <- m :: LookupKey(m[key]) == key
    ensures forall e <- entities :: LookupKey(e) in m
    ensures forall key <- m :: m[key] in entities
  {
    if entities == [] then map[]
    else
      var init, last := entities[..|entities| - 1], entities[|entities| - 1];
      Lookup(init)[LookupKey(last) := last]
  }

  function Keys(entities: seq<Entity>): set<string> {
    set e | e in entities :: LookupKey(e)
  }

  /** The entity under a key is the last one in the list that has the key. */
  lemma {:induction false} LookupFindsTheLast(entities: seq<Entity>, i: nat, key: string)
    requires i < |entities| && LookupKey(entities[i]) == key
    requires forall j | i < j < |entities| :: LookupKey(entities[j]) != key
    ensures key in Lookup(entities) && Lookup(entities)[key] == entities[i]
  {
    var init, last := entities[..|entities| - 1], entities[|entities| - 1];
    LookupOfLast(entities);
    if i < |init| {
      assert init[i] == entities[i] && forall j | i < j < |init| :: init[j] == entities[j];
      LookupFindsTheLast(init, i, key);
    }
  }

  lemma LookupOfLast(entities: seq<Entity>)
    requires entities != []
    ensures
      var init, last := entities[..|entities| - 1], entities[|entities| - 1];
      Lookup(entities) == Lookup(init)[LookupKey(last) := last]
  {}

  /** The entities to replicate: those whose key is not (or no longer) in the map, or has another
      digest there. Each entity takes its key out of the map. */
  function ToReplicate(held: map<string, Entity>, entities: seq<Entity>): seq<Entity> {
    if entities == [] then []
    else
      var init, e := entities[..|entities| - 1], entities[|entities| - 1];
      if LookupKey(e) in held && LookupKey(e) !in Keys(init) && held[LookupKey(e)].digest == e.digest
      then ToReplicate(held, init)
      else ToReplicate(held, init) + [e]
  }

  /** The old versions of entities whose digest changed. */
  function Superseded(held: map<string, Entity>, entities: seq<Entity>): seq<Entity> {
    if entities == [] then []
    else
      var init, e := entities[..|entities| - 1], entities[|entities| - 1];
      if LookupKey(e) in held && LookupKey(e) !in Keys(init) && held[LookupKey(e)].digest != e.digest
      then Superseded(held, init) + [held[LookupKey(e)]]
      else Superseded(held, init)
  }

  /** Both lists are made in the order of the new entities, each of which takes its key out of the map. */
  lemma {:induction false} ScheduledInOrder(held: map<string, Entity>, first: seq<Entity>, second: seq<Entity>)
    ensures ToReplicate(held, first + second) == ToReplicate(held, first) + ToReplicate(held - Keys(first), second)
    ensures Superseded(held, first + second) == Superseded(held, first) + Superseded(held - Keys(first), second)
  {
    if second == [] {
      assert first + second == first;
    } else {
      var init, e := second[..|second| - 1], second[|second| - 1];
      assert (first + second)[..|first + second| - 1] == first + init;
      assert Keys(first + init) == Keys(first) + Keys(init);
      ScheduledInOrder(held, first, init);
    }
  }

  ghost predicate NoDuplicates(es: seq<Entity>) {
    forall i, j | 0 <= i < j < |es| :: es[i] != es[j]
  }

  /** The two work lists: what is superseded, in the order of the new list, followed by what is
      listed no longer, in any order; and what to replicate. */
  ghost predicate IsChanges(oldEntities: seq<Entity>, newEntities: seq<Entity>, toDelete: seq<Entity>,
                            toReplicate: seq<Entity>) {
    var held := Lookup(oldEntities);
    var superseded := Superseded(held, newEntities);
    && toReplicate == ToReplicate(held, newEntities)
    && superseded <= toDelete
    && Enumerates(toDelete[|superseded|..], held - Keys(newEntities))
  }

  ghost predicate Enumerates(es: seq<Entity>, m: map<string, Entity>) {
    && NoDuplicates(es)
    && forall e :: e in es <==> LookupKey(e) in m && m[LookupKey(e)] == e
  }

  function OldEntities(oldEntities: Option<seq<Entity>>): seq<Entity> {
    if oldEntities.Some? then oldEntities.value else []
  }

  lemma {:induction false} NothingHeld(entities: seq<Entity>)
    ensures ToReplicate(map[], entities) == entities
    ensures Superseded(map[], entities) == []
  {
    if entities != [] {
      NothingHeld(entities[..|entities| - 1]);
    }
  }

  method GetChanges(newState: GroupState, oldEntities: Option<seq<Entity>>)
      returns (toDelete: seq<Entity>, toReplicate: seq<Entity>)
    modifies newState
    ensures newState.artifacts == Tagged(old(newState.artifacts))
    ensures IsChanges(OldEntities(oldEntities), AllEntities(newState.artifacts), toDelete, toReplicate)
  {
    newState.RemoveNullTagArtifacts();
    var newEntities := newState.FetchEntities();
    if oldEntities.None? {
      NothingHeld(newEntities);
      return [], newEntities;
    }
    var oldEntityMap := BuildLookup(oldEntities.value);
    ghost var held := oldEntityMap;
    toDelete, toReplicate, oldEntityMap := Compare(oldEntityMap, newEntities);
    var leftover := Drain(oldEntityMap);
    assert (toDelete + leftover)[|toDelete|..] == leftover;
    toDelete := toDelete + leftover;
  }

  method BuildLookup(entities: seq<Entity>) returns (m: map<string, Entity>)
    ensures m == Lookup(entities)
  {
    m := map[];
    for i := 0 to |entities|
      invariant m == Lookup(entities[..i])
    {
      assert entities[..i + 1][..i] == entities[..i];
      m := m[LookupKey(entities[i]) := entities[i]];
    }
    assert entities[..|entities|] == entities;
  }

  /** The loop over the new entities, which takes every key it meets out of the map. */
  method Compare(held: map<string, Entity>, newEntities: seq<Entity>)
      returns (toDelete: seq<Entity>, toReplicate: seq<Entity>, left: map<string, Entity>)
    ensures toReplicate == ToReplicate(held, newEntities)
    ensures toDelete == Superseded(held, newEntities)
    ensures left == held - Keys(newEntities)
  {
    toDelete, toReplicate, left := [], [], held;
    for i := 0 to |newEntities|
      invariant left == held - Keys(newEntities[..i])
      invariant toReplicate == ToReplicate(held, newEntities[..i])
      invariant toDelete == Superseded(held, newEntities[..i])
    {
      var newEntity := newEntities[i];
      var key := LookupKey(newEntity);
      assert newEntities[..i + 1] == newEntities[..i] + [newEntity];
      assert Keys(newEntities[..i + 1]) == Keys(newEntities[..i]) + {key};
      if key !in left {
        toReplicate := toReplicate + [newEntity];
      } else if newEntity.digest != left[key].digest {
        toReplicate := toReplicate + [newEntity];
        toDelete := toDelete + [left[key]];
      }
      left := left - {key};
    }
    assert newEntities[..|newEntities|] == newEntities;
  }

  /** The final loop over the map, in whatever order the map gives. */
  method Drain(m: map<string, Entity>) returns (es: seq<Entity>)
    requires forall key <- m :: LookupKey(m[key]) == key
    ensures Enumerates(es, m)
  {
    es := [];
    var keys := m.Keys;
    while keys != {}
      invariant keys <= m.Keys
      invariant NoDuplicates(es)
      invariant forall e :: e in es <==> LookupKey(e) in m && LookupKey(e) !in keys && m[LookupKey(e)] == e
    {
      var key :| key in keys;
      es := es + [m[key]];
      keys := keys - {key};
    }
  }
}
