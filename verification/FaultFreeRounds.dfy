/** Whole rounds of reconciliation in which no call fails: when they end in the union of everything that
    is listed, although groups may share images. */
module FaultFreeRounds {
  import opened Wrappers
  import opened Changes
  import opened Replication
  import opened GroupSync

  // ---------------------------------------------------------------- what is listed

  function AllListed(jobs: seq<Job>): seq<Entity> {
    if jobs == [] then [] else AllListed(jobs[..|jobs| - 1]) + jobs[|jobs| - 1].listed
  }

  function AllManaged(jobs: seq<Job>): set<ImageRef> {
    set job, ref | job in jobs && ref in job.Managed() :: ref
  }

  lemma {:induction false} ListedBySome(jobs: seq<Job>, e: Entity)
    ensures e in AllListed(jobs) <==> exists job <- jobs :: e in job.listed
  {
    if jobs != [] {
      assert jobs == jobs[..|jobs| - 1] + [jobs[|jobs| - 1]];
      ListedBySome(jobs[..|jobs| - 1], e);
    }
  }

  /** Because one source serves it all, what the groups list together has one digest per image. */
  lemma ListedTogether(source: Registry, registry: Registry, jobs: seq<Job>)
    requires GoodLists(registry, source, jobs)
    ensures Holds(source, AllListed(jobs)) && OneDigest(AllListed(jobs))
    ensures Refs(AllListed(jobs)) <= AllManaged(jobs)
  {
    forall e | e in AllListed(jobs)
      ensures Ref(e) in source && source[Ref(e)] == e.digest && Ref(e) in AllManaged(jobs)
    {
      ListedBySome(jobs, e);
      var job :| job in jobs && e in job.listed;
      assert Ref(e) in Refs(job.listed);
      assert Ref(e) in job.Managed();
    }
  }

  lemma ListedIn(jobs: seq<Job>, ref: ImageRef) returns (g: nat, e: Entity)
    requires ref in Refs(AllListed(jobs))
    ensures g < |jobs| && e in jobs[g].listed && Ref(e) == ref
  {
    e :| e in AllListed(jobs) && Ref(e) == ref;
    ListedBySome(jobs, e);
    var job :| job in jobs && e in job.listed;
    g :| 0 <= g < |jobs| && jobs[g] == job;
  }

  lemma ListedRefs(jobs: seq<Job>, g: nat)
    requires g < |jobs|
    ensures Refs(jobs[g].listed) <= Refs(AllListed(jobs))
  {
    forall e | e in jobs[g].listed
      ensures e in AllListed(jobs)
    {
      ListedBySome(jobs, e);
      assert jobs[g] in jobs;
    }
  }

  // ---------------------------------------------------------------- groups that get along

  /** No two groups delete the same reference, and what a group deletes without replicating it again is
      not listed by another group. */
  ghost predicate Compatible(jobs: seq<Job>) {
    forall g, h | 0 <= g < |jobs| && 0 <= h < |jobs| && g != h ::
      && Refs(jobs[g].toDelete) !! Refs(jobs[h].toDelete)
      && (Refs(jobs[g].toDelete) - Refs(jobs[g].toReplicate)) !! Refs(jobs[h].listed)
  }

  lemma GroupsThatDoNotClashAreCompatible(jobs: seq<Job>)
    requires NoClash(jobs)
    ensures Compatible(jobs)
  {
    forall g, h | 0 <= g < |jobs| && 0 <= h < |jobs| && g != h
      ensures Refs(jobs[g].toDelete) !! Refs(jobs[h].toDelete)
      ensures (Refs(jobs[g].toDelete) - Refs(jobs[g].toReplicate)) !! Refs(jobs[h].listed)
    {
      assert Refs(jobs[g].toDelete) !! Refs(jobs[h].toDelete) + Refs(jobs[h].listed);
    }
  }

  /** What is deleted and listed, by whomever, is replicated by the group that deletes it. */
  lemma ListedDeletesAreReplicated(source: Registry, registry: Registry, jobs: seq<Job>, g: nat, ref: ImageRef)
    requires GoodLists(registry, source, jobs) && Compatible(jobs) && g < |jobs|
    requires ref in Refs(jobs[g].toDelete) && ref in Refs(AllListed(jobs))
    ensures ref in Refs(jobs[g].toReplicate)
  {
    var h, e := ListedIn(jobs, ref);
    assert ref in Refs(jobs[h].listed);
    if h == g {
      var job := jobs[g];
      assert job in jobs;
      var x :| x in job.toDelete && Ref(x) == ref;
      DeletedIsOutdated(OldEntities(job.held), job.listed, job.toDelete, job.toReplicate, x);
      Scheduled(Lookup(OldEntities(job.held)), job.listed);
      assert LookupKey(e) == LookupKey(x);
    } else {
      assert (Refs(jobs[g].toDelete) - Refs(jobs[g].toReplicate)) !! Refs(jobs[h].listed);
    }
  }

  // ---------------------------------------------------------------- the invariant

  /** A goroutine of a round without faults. */
  ghost predicate Sound(registry: Registry, source: Registry, p: Goroutine) {
    && p.phase != Failed
    && DistinctRefs(p.toDelete)
    && Refs(p.toDelete) <= Refs(p.job.toDelete) && Refs(p.toReplicate) <= Refs(p.job.toReplicate)
    && (p.toDelete != [] ==> p.toReplicate == p.job.toReplicate)
    && (forall x <- p.toDelete :: Ref(x) in registry)
    && (forall x <- p.toReplicate :: Ref(x) in source)
    && (p.phase == Committed ==> p.toDelete == [] && p.toReplicate == [] && p.entities == Some(p.job.listed))
  }

  ghost predicate AllSound(w: World, source: Registry, jobs: seq<Job>) {
    && |w.groups| == |jobs|
    && forall g | 0 <= g < |jobs| :: w.groups[g].job == jobs[g] && Sound(w.registry, source, w.groups[g])
  }

  ghost predicate ToBeDeleted(w: World, ref: ImageRef) {
    exists g :: 0 <= g < |w.groups| && ref in Refs(w.groups[g].toDelete)
  }

  ghost predicate ToBeReplicated(w: World, ref: ImageRef) {
    exists g :: 0 <= g < |w.groups| && ref in Refs(w.groups[g].toReplicate)
  }

  /** A listed reference is as in the source, or some group will still see to it; a managed one that is not
      listed is gone, or some group will still delete it; any other is as it was. */
  ghost predicate Settled(w: World, source: Registry, registry: Registry, listed: set<ImageRef>, managed: set<ImageRef>,
                          ref: ImageRef) {
    if ref in listed then Value(w.registry, ref) == Value(source, ref) || ToBeReplicated(w, ref)
    else if ref in managed then ref !in w.registry || ToBeDeleted(w, ref)
    else Value(w.registry, ref) == Value(registry, ref)
  }

  lemma LaunchIsSound(source: Registry, registry: Registry, jobs: seq<Job>, g: nat)
    requires GoodLists(registry, source, jobs) && g < |jobs|
    ensures Sound(registry, source, Launch(jobs[g]))
  {
    var job := jobs[g];
    assert job in jobs;
    DeleteListRefs(OldEntities(job.held), job.listed, job.toDelete, job.toReplicate);
    Scheduled(Lookup(OldEntities(job.held)), job.listed);
  }

  /** What a group lists it will replicate, or the registry has it already. */
  lemma ListedOrHeld(source: Registry, registry: Registry, job: Job, e: Entity)
    requires job.Planned() && Holds(registry, OldEntities(job.held)) && Holds(source, job.listed) && e in job.listed
    ensures Ref(e) in Refs(job.toReplicate) || Value(registry, Ref(e)) == Value(source, Ref(e))
  {
    if e !in job.toReplicate {
      var x := UnscheduledIsHeld(OldEntities(job.held), job.listed, e);
    }
  }

  lemma ManagedIn(jobs: seq<Job>, ref: ImageRef) returns (g: nat)
    requires ref in AllManaged(jobs)
    ensures g < |jobs| && ref in jobs[g].Managed()
  {
    var job :| job in jobs && ref in job.Managed();
    g :| 0 <= g < |jobs| && jobs[g] == job;
  }

  lemma StartIsSettled(source: Registry, registry: Registry, jobs: seq<Job>, ref: ImageRef)
    requires GoodLists(registry, source, jobs)
    ensures Settled(Start(registry, jobs), source, registry, Refs(AllListed(jobs)), AllManaged(jobs), ref)
  {
    var w := Start(registry, jobs);
    if ref in Refs(AllListed(jobs)) {
      var g, e := ListedIn(jobs, ref);
      assert jobs[g] in jobs;
      ListedOrHeld(source, registry, jobs[g], e);
      assert w.groups[g].toReplicate == jobs[g].toReplicate;
    } else if ref in AllManaged(jobs) {
      var g := ManagedIn(jobs, ref);
      assert jobs[g] in jobs;
      ListedRefs(jobs, g);
      ManagedIsListedOrDeleted(jobs[g]);
      assert ref in Refs(w.groups[g].toDelete);
    }
  }

  // ---------------------------------------------------------------- one step

  lemma AdvanceIsSound(registry: Registry, source: Registry, p: Goroutine)
    requires Sound(registry, source, p) && p.phase == Running
    ensures Sound(Advance(registry, source, p).0, source, Advance(registry, source, p).1)
    ensures forall ref :: ref in registry && ref !in Advance(registry, source, p).0 ==> ref in Refs(p.job.toDelete)
  {
    if p.toDelete != [] {
      var first, rest := p.toDelete[0], p.toDelete[1..];
      FirstRefIsGone(p.toDelete);
      assert p.toDelete == [first] + rest;
      assert Refs(p.toDelete) == {Ref(first)} + Refs(rest);
      forall x | x in rest
        ensures Ref(x) in registry - {Ref(first)}
      {
        assert Ref(x) in Refs(rest);
      }
    } else if p.toReplicate != [] {
      assert p.toReplicate == [p.toReplicate[0]] + p.toReplicate[1..];
      assert Refs(p.toReplicate) == {Ref(p.toReplicate[0])} + Refs(p.toReplicate[1..]);
    }
  }

  lemma NextIsSound(w: World, source: Registry, jobs: seq<Job>, g: nat)
    requires Compatible(jobs) && AllSound(w, source, jobs)
    ensures AllSound(Next(w, source, Go(g)), source, jobs)
  {
    if g < |w.groups| && w.groups[g].phase == Running {
      AdvanceIsSound(w.registry, source, w.groups[g]);
      var w' := Next(w, source, Go(g));
      forall h | 0 <= h < |jobs| && h != g
        ensures w'.groups[h].job == jobs[h] && Sound(w'.registry, source, w'.groups[h])
      {
        assert Refs(jobs[g].toDelete) !! Refs(jobs[h].toDelete);
        forall x | x in w.groups[h].toDelete
          ensures Ref(x) in w'.registry
        {
          assert Ref(x) in Refs(w.groups[h].toDelete);
        }
      }
    }
  }

  lemma StaysToBeDeleted(w: World, source: Registry, g: nat, ref: ImageRef)
    requires g < |w.groups| && ToBeDeleted(w, ref)
    requires ref in Refs(w.groups[g].toDelete) ==> ref in Refs(Next(w, source, Go(g)).groups[g].toDelete)
    ensures ToBeDeleted(Next(w, source, Go(g)), ref)
  {
    var h :| 0 <= h < |w.groups| && ref in Refs(w.groups[h].toDelete);
    assert ref in Refs(Next(w, source, Go(g)).groups[h].toDelete);
  }

  lemma StaysToBeReplicated(w: World, source: Registry, g: nat, ref: ImageRef)
    requires g < |w.groups| && ToBeReplicated(w, ref)
    requires ref in Refs(w.groups[g].toReplicate) ==> ref in Refs(Next(w, source, Go(g)).groups[g].toReplicate)
    ensures ToBeReplicated(Next(w, source, Go(g)), ref)
  {
    var h :| 0 <= h < |w.groups| && ref in Refs(w.groups[h].toReplicate);
    assert ref in Refs(Next(w, source, Go(g)).groups[h].toReplicate);
  }

  lemma FirstAndRest(entities: seq<Entity>)
    requires entities != []
    ensures Refs(entities) == {Ref(entities[0])} + Refs(entities[1..])
  {
    assert entities == [entities[0]] + entities[1..];
  }

  lemma DeletingOneKeepsSettled(w: World, source: Registry, registry: Registry,
                                listed: set<ImageRef>, managed: set<ImageRef>, g: nat, ref: ImageRef)
    requires g < |w.groups| && w.groups[g].phase == Running && w.groups[g].toDelete != []
    requires
      var first := Ref(w.groups[g].toDelete[0]);
      first in w.registry && first in managed && (first in listed ==> first in Refs(w.groups[g].toReplicate))
    requires Settled(w, source, registry, listed, managed, ref)
    ensures Settled(Next(w, source, Go(g)), source, registry, listed, managed, ref)
  {
    var p, w' := w.groups[g], Next(w, source, Go(g));
    FirstAndRest(p.toDelete);
    if ref in listed {
      if ref == Ref(p.toDelete[0]) {
        assert ref in Refs(w'.groups[g].toReplicate);
      } else if ToBeReplicated(w, ref) {
        StaysToBeReplicated(w, source, g, ref);
      }
    } else if ref in managed && ref != Ref(p.toDelete[0]) && ToBeDeleted(w, ref) {
      StaysToBeDeleted(w, source, g, ref);
    }
  }

  lemma ReplicatingOneKeepsSettled(w: World, source: Registry, registry: Registry,
                                   listed: set<ImageRef>, managed: set<ImageRef>, g: nat, ref: ImageRef)
    requires g < |w.groups| && w.groups[g].phase == Running
    requires w.groups[g].toDelete == [] && w.groups[g].toReplicate != []
    requires Ref(w.groups[g].toReplicate[0]) in source && Ref(w.groups[g].toReplicate[0]) in listed
    requires Settled(w, source, registry, listed, managed, ref)
    ensures Settled(Next(w, source, Go(g)), source, registry, listed, managed, ref)
  {
    var p := w.groups[g];
    FirstAndRest(p.toReplicate);
    if ref in listed && ref != Ref(p.toReplicate[0]) && ToBeReplicated(w, ref) {
      StaysToBeReplicated(w, source, g, ref);
    } else if ref !in listed && ref in managed && ToBeDeleted(w, ref) {
      StaysToBeDeleted(w, source, g, ref);
    }
  }

  lemma CommittingKeepsSettled(w: World, source: Registry, registry: Registry,
                               listed: set<ImageRef>, managed: set<ImageRef>, g: nat, ref: ImageRef)
    requires g < |w.groups| && w.groups[g].phase == Running
    requires w.groups[g].toDelete == [] && w.groups[g].toReplicate == []
    requires Settled(w, source, registry, listed, managed, ref)
    ensures Settled(Next(w, source, Go(g)), source, registry, listed, managed, ref)
  {
    if ToBeReplicated(w, ref) {
      StaysToBeReplicated(w, source, g, ref);
    }
    if ToBeDeleted(w, ref) {
      StaysToBeDeleted(w, source, g, ref);
    }
  }

  lemma NextKeepsSettled(w: World, source: Registry, registry: Registry, jobs: seq<Job>, g: nat, ref: ImageRef)
    requires GoodLists(registry, source, jobs) && Compatible(jobs) && AllSound(w, source, jobs)
    requires Settled(w, source, registry, Refs(AllListed(jobs)), AllManaged(jobs), ref)
    ensures Settled(Next(w, source, Go(g)), source, registry, Refs(AllListed(jobs)), AllManaged(jobs), ref)
  {
    if g < |w.groups| && w.groups[g].phase == Running {
      var listed, managed, p := Refs(AllListed(jobs)), AllManaged(jobs), w.groups[g];
      ListedTogether(source, registry, jobs);
      ListedRefs(jobs, g);
      assert jobs[g] in jobs;
      ManagedIsListedOrDeleted(jobs[g]);
      if p.toDelete != [] {
        FirstAndRest(p.toDelete);
        var first := Ref(p.toDelete[0]);
        assert p.toDelete[0] in p.toDelete && first in jobs[g].Managed();
        if first in listed {
          ListedDeletesAreReplicated(source, registry, jobs, g, first);
        }
        DeletingOneKeepsSettled(w, source, registry, listed, managed, g, ref);
      } else if p.toReplicate != [] {
        FirstAndRest(p.toReplicate);
        assert p.toReplicate[0] in p.toReplicate;
        ReplicatingOneKeepsSettled(w, source, registry, listed, managed, g, ref);
      } else {
        CommittingKeepsSettled(w, source, registry, listed, managed, g, ref);
      }
    }
  }

  lemma {:induction false} RunIsSettled(source: Registry, registry: Registry, jobs: seq<Job>, steps: seq<Step>,
                                        ref: ImageRef)
    requires GoodLists(registry, source, jobs) && Compatible(jobs)
    requires forall step <- steps :: step.Go?
    ensures
      var w := Run(Start(registry, jobs), source, steps);
      AllSound(w, source, jobs) && Settled(w, source, registry, Refs(AllListed(jobs)), AllManaged(jobs), ref)
  {
    if steps == [] {
      forall g | 0 <= g < |jobs|
        ensures Sound(registry, source, Launch(jobs[g]))
      {
        LaunchIsSound(source, registry, jobs, g);
      }
      StartIsSettled(source, registry, jobs, ref);
    } else {
      var init, last := steps[..|steps| - 1], steps[|steps| - 1];
      assert last in steps && forall step <- init :: step in steps;
      RunIsSettled(source, registry, jobs, init, ref);
      var w := Run(Start(registry, jobs), source, init);
      NextIsSound(w, source, jobs, last.group);
      NextKeepsSettled(w, source, registry, jobs, last.group, ref);
    }
  }

  // ---------------------------------------------------------------- the end of a round

  /** No call fails, and every goroutine has come to its end. */
  ghost predicate Finished(source: Registry, registry: Registry, jobs: seq<Job>, steps: seq<Step>) {
    && (forall step <- steps :: step.Go?)
    && forall g | 0 <= g < |jobs| :: Run(Start(registry, jobs), source, steps).groups[g].phase != Running
  }

  /** Every group has committed what it lists, and the registry is what it was on the unmanaged references
      and the union of all listed entities otherwise. */
  ghost predicate EndsRight(source: Registry, registry: Registry, jobs: seq<Job>, steps: seq<Step>) {
    var w := Run(Start(registry, jobs), source, steps);
    && (forall g | 0 <= g < |jobs| :: w.groups[g].phase == Committed && w.groups[g].entities == Some(jobs[g].listed))
    && w.registry == (registry - AllManaged(jobs)) + Images(AllListed(jobs))
  }

  lemma EndValue(source: Registry, registry: Registry, jobs: seq<Job>, steps: seq<Step>, ref: ImageRef)
    requires GoodLists(registry, source, jobs) && Compatible(jobs) && Finished(source, registry, jobs, steps)
    ensures
      var w := Run(Start(registry, jobs), source, steps);
      && (forall g | 0 <= g < |jobs| :: w.groups[g].phase == Committed && w.groups[g].entities == Some(jobs[g].listed))
      && Value(w.registry, ref) ==
         if ref in Refs(AllListed(jobs)) then Value(source, ref)
         else if ref in AllManaged(jobs) then None else Value(registry, ref)
  {
    RunIsSettled(source, registry, jobs, steps, ref);
    var w := Run(Start(registry, jobs), source, steps);
    assert !ToBeDeleted(w, ref) && !ToBeReplicated(w, ref);
  }

  lemma FaultFreeRound(source: Registry, registry: Registry, jobs: seq<Job>, steps: seq<Step>)
    requires GoodLists(registry, source, jobs) && Compatible(jobs) && Finished(source, registry, jobs, steps)
    ensures EndsRight(source, registry, jobs, steps)
  {
    var w := Run(Start(registry, jobs), source, steps);
    var goal := (registry - AllManaged(jobs)) + Images(AllListed(jobs));
    ListedTogether(source, registry, jobs);
    ImagesOfList(AllListed(jobs));
    EndValue(source, registry, jobs, steps, ImageRef("", "", ""));
    forall ref
      ensures Value(w.registry, ref) == Value(goal, ref)
    {
      EndValue(source, registry, jobs, steps, ref);
      if ref in Refs(AllListed(jobs)) {
        DesiredIsServed(source, AllListed(jobs), ref);
      }
    }
    SameValues(w.registry, goal);
  }

  // ---------------------------------------------------------------- only then

  /** Steps that bring one group to its end. */
  lemma FinishOne(w: World, source: Registry, g: nat) returns (steps: seq<Step>)
    requires g < |w.groups|
    ensures forall step <- steps :: step.Go?
    ensures
      var p := Run(w, source, steps).groups[g];
      && Run(w, source, steps).groups == w.groups[g := p]
      && p.phase != Running && (w.groups[g].phase != Running ==> p == w.groups[g])
  {
    var n := WorkLeft(w.groups[g]);
    OnlyIsAlone(w, source, g, n);
    FinishesAlone(w.registry, source, w.groups[g], n);
    return Only(g, n);
  }

  /** The groups below `n` have come to their end, except `skip`; what had ended and `skip` are the same. */
  ghost predicate Ended(before: seq<Goroutine>, after: seq<Goroutine>, n: nat, skip: nat) {
    && |after| == |before|
    && (forall h | 0 <= h < |before| && (h == skip || before[h].phase != Running) :: after[h] == before[h])
    && forall h | 0 <= h < |before| && h < n && h != skip :: after[h].phase != Running
  }

  lemma {:induction false} FinishOthers(w: World, source: Registry, n: nat, skip: nat) returns (steps: seq<Step>)
    requires n <= |w.groups|
    ensures forall step <- steps :: step.Go?
    ensures Ended(w.groups, Run(w, source, steps).groups, n, skip)
  {
    if n == 0 {
      return [];
    }
    steps := FinishOthers(w, source, n - 1, skip);
    if n - 1 != skip {
      var w1 := Run(w, source, steps);
      var more := FinishOne(w1, source, n - 1);
      RunOn(w, source, steps, more);
      steps := steps + more;
    }
  }

  /** Once a group has failed, the round cannot end right. */
  lemma FailureEndsWrong(source: Registry, registry: Registry, jobs: seq<Job>, steps: seq<Step>, failed: nat)
      returns (all: seq<Step>)
    requires forall step <- steps :: step.Go?
    requires failed < |jobs| && Run(Start(registry, jobs), source, steps).groups[failed].phase == Failed
    ensures Finished(source, registry, jobs, all) && !EndsRight(source, registry, jobs, all)
  {
    var w := Run(Start(registry, jobs), source, steps);
    var more := FinishOthers(w, source, |jobs|, |jobs|);
    RunOn(Start(registry, jobs), source, steps, more);
    return steps + more;
  }

  /** A group that goes last, and deletes what it does not replicate. */
  lemma LastDeletes(source: Registry, registry: Registry, jobs: seq<Job>, g: nat, ref: ImageRef)
      returns (all: seq<Step>)
    requires g < |jobs| && ref in Refs(jobs[g].toDelete) && ref !in Refs(jobs[g].toReplicate)
    ensures Finished(source, registry, jobs, all)
    ensures
      var w := Run(Start(registry, jobs), source, all);
      w.groups[g].phase == Failed || ref !in w.registry
  {
    var start, p := Start(registry, jobs), Launch(jobs[g]);
    var first := FinishOthers(start, source, |jobs|, g);
    var w := Run(start, source, first);
    var n := |p.toDelete|;
    var w1 := Run(w, source, Only(g, n));
    OnlyIsAlone(w, source, g, n);
    DeletesAlone(w.registry, source, p, n);
    var k := DeletedAt(p.toDelete, ref);
    var q, m := w1.groups[g], WorkLeft(w1.groups[g]);
    OnlyIsAlone(w1, source, g, m);
    FinishesAlone(w1.registry, source, q, m);
    if q.phase != Failed {
      AloneBringsBackOnlyItsOwn(w1.registry, source, q, m, ref);
    }
    RunOn(start, source, first, Only(g, n));
    RunOn(start, source, first + Only(g, n), Only(g, m));
    return first + Only(g, n) + Only(g, m);
  }

  /** Exactly: every finished round without faults ends right, in whatever interleaving, just when the
      groups get along. */
  lemma AlwaysEndsRightIffCompatible(source: Registry, registry: Registry, jobs: seq<Job>)
    requires GoodLists(registry, source, jobs)
    ensures
      (forall steps :: Finished(source, registry, jobs, steps) ==> EndsRight(source, registry, jobs, steps))
      <==> Compatible(jobs)
  {
    if Compatible(jobs) {
      forall steps | Finished(source, registry, jobs, steps)
        ensures EndsRight(source, registry, jobs, steps)
      {
        FaultFreeRound(source, registry, jobs, steps);
      }
    } else {
      var g, h :| 0 <= g < |jobs| && 0 <= h < |jobs| && g != h
                  && !(Refs(jobs[g].toDelete) !! Refs(jobs[h].toDelete)
                       && (Refs(jobs[g].toDelete) - Refs(jobs[g].toReplicate)) !! Refs(jobs[h].listed));
      if !(Refs(jobs[g].toDelete) !! Refs(jobs[h].toDelete)) {
        var ref :| ref in Refs(jobs[g].toDelete) && ref in Refs(jobs[h].toDelete);
        var steps, failed := SecondDeleteFails(registry, source, jobs, g, h, ref);
        var all := FailureEndsWrong(source, registry, jobs, steps, failed);
      } else {
        var ref :| ref in Refs(jobs[g].toDelete) && ref !in Refs(jobs[g].toReplicate) && ref in Refs(jobs[h].listed);
        var all := LastDeletes(source, registry, jobs, g, ref);
        ListedTogether(source, registry, jobs);
        ImagesOfList(AllListed(jobs));
        ListedRefs(jobs, h);
        assert ref in Images(AllListed(jobs));
        assert !EndsRight(source, registry, jobs, all);
      }
    }
  }

  /** In particular, groups that manage different references. */
  lemma DisjointGroupsEndRight(source: Registry, registry: Registry, jobs: seq<Job>, steps: seq<Step>)
    requires GoodLists(registry, source, jobs) && Finished(source, registry, jobs, steps)
    requires forall g, h | 0 <= g < h < |jobs| :: jobs[g].Managed() !! jobs[h].Managed()
    ensures EndsRight(source, registry, jobs, steps)
  {
    DisjointGroupsDoNotClash(registry, source, jobs);
    GroupsThatDoNotClashAreCompatible(jobs);
    FaultFreeRound(source, registry, jobs, steps);
  }

  // ---------------------------------------------------------------- two groups with one URL

  /** Two groups with the same URL hold and list the same. */
  predicate Twins(a: Job, b: Job) {
    a.held == b.held && a.listed == b.listed
  }

  lemma TwinsDeleteTheSame(a: Job, b: Job, x: Entity)
    requires a.Planned() && b.Planned() && Twins(a, b) && x in a.toDelete
    ensures x in b.toDelete && Ref(x) in Refs(a.toDelete) && Ref(x) in Refs(b.toDelete)
  {
    var held := Lookup(OldEntities(a.held));
    var superseded := Superseded(held, a.listed);
    assert a.toDelete == superseded + a.toDelete[|superseded|..];
    assert b.toDelete == superseded + b.toDelete[|superseded|..];
  }

  lemma CompatibleTwinsDeleteNothing(jobs: seq<Job>, g: nat, h: nat)
    requires g < |jobs| && h < |jobs| && g != h && Twins(jobs[g], jobs[h])
    requires jobs[g].Planned() && jobs[h].Planned() && Compatible(jobs)
    ensures jobs[g].toDelete == []
  {
    if jobs[g].toDelete != [] {
      TwinsDeleteTheSame(jobs[g], jobs[h], jobs[g].toDelete[0]);
    }
  }

  /** Two groups with the same URL: their rounds without faults always end right just as long as they have nothing
      to delete. The first image that the list drops or changes breaks them. */
  lemma TwinsEndRightIffNothingIsDeleted(source: Registry, registry: Registry, a: Job, b: Job)
    requires GoodLists(registry, source, [a, b]) && Twins(a, b)
    ensures
      (forall steps :: Finished(source, registry, [a, b], steps) ==> EndsRight(source, registry, [a, b], steps))
      <==> a.toDelete == []
  {
    AlwaysEndsRightIffCompatible(source, registry, [a, b]);
    assert a in [a, b] && b in [a, b];
    if Compatible([a, b]) {
      CompatibleTwinsDeleteNothing([a, b], 0, 1);
    }
    if a.toDelete == [] && b.toDelete != [] {
      TwinsDeleteTheSame(b, a, b.toDelete[0]);
    }
  }
}
