/** Rounds in which calls fail: what the registry holds after any number of them, and when a group that has
    failed gets on in the next round. */
module FaultyRounds {
  import opened Wrappers
  import opened Changes
  import opened Replication
  import opened GroupSync
  import opened FaultFreeRounds
  import opened Rounds
  import Persistence = StatePersistence

  // ---------------------------------------------------------------- what a group has done so far

  predicate IsRest(all: seq<Entity>, left: seq<Entity>) {
    |left| <= |all| && left == all[|all| - |left|..]
  }

  /** What a goroutine has left is the end of its work lists, and it replicates after it has deleted. */
  predicate InProgress(p: Goroutine) {
    && IsRest(p.job.toDelete, p.toDelete) && IsRest(p.job.toReplicate, p.toReplicate)
    && (p.toDelete != [] ==> p.toReplicate == p.job.toReplicate)
    && (p.phase == Committed ==> p.toDelete == [] && p.toReplicate == [])
    && p.entities == if p.phase == Committed then Some(p.job.listed) else p.job.held
  }

  /** The references of a work list without those of what is left of it. */
  function Done(all: seq<Entity>, left: seq<Entity>): set<ImageRef> {
    if |left| <= |all| then Refs(all[..|all| - |left|]) else {}
  }

  function Deleted(p: Goroutine): set<ImageRef> {
    Done(p.job.toDelete, p.toDelete)
  }

  function Replicated(p: Goroutine): set<ImageRef> {
    Done(p.job.toReplicate, p.toReplicate)
  }

  /** What the group has deleted and not got back. */
  function Lost(p: Goroutine): set<ImageRef> {
    Deleted(p) - Replicated(p)
  }

  ghost predicate AllInProgress(w: World, jobs: seq<Job>) {
    && |w.groups| == |jobs|
    && forall g | 0 <= g < |jobs| :: w.groups[g].job == jobs[g] && InProgress(w.groups[g])
  }

  ghost predicate AllPlanned(jobs: seq<Job>) {
    forall job <- jobs :: job.Planned()
  }

  lemma OneMoreDone(all: seq<Entity>, left: seq<Entity>)
    requires IsRest(all, left) && left != []
    ensures IsRest(all, left[1..]) && Done(all, left[1..]) == Done(all, left) + {Ref(left[0])}
    ensures Ref(left[0]) in Refs(all)
  {
    var n := |all| - |left|;
    assert all[..n + 1] == all[..n] + [all[n]];
    assert left[0] in all;
  }

  /** What a step of a goroutine does to a reference: nothing, or deletes it, or replicates it. */
  ghost predicate Progress(registry: Registry, source: Registry, p: Goroutine, r: Registry, q: Goroutine,
                           ref: ImageRef) {
    || (Value(r, ref) == Value(registry, ref)
        && (ref in Deleted(q) <==> ref in Deleted(p)) && (ref in Replicated(q) <==> ref in Replicated(p)))
    || (ref !in r && ref in Deleted(q) && ref !in Replicated(q) && ref !in Replicated(p))
    || (ref in source && Value(r, ref) == Value(source, ref) && ref in Replicated(q))
  }

  lemma NothingDone(all: seq<Entity>)
    ensures Done(all, all) == {}
  {
    assert all[..0] == [];
  }

  lemma DeletingIsProgress(registry: Registry, source: Registry, p: Goroutine, ref: ImageRef)
    requires InProgress(p) && p.phase == Running && p.toDelete != []
    ensures
      var q := p.(toDelete := p.toDelete[1..]);
      InProgress(q) && Progress(registry, source, p, registry - {Ref(p.toDelete[0])}, q, ref)
  {
    OneMoreDone(p.job.toDelete, p.toDelete);
    NothingDone(p.job.toReplicate);
    assert Replicated(p) == {};
  }

  lemma ReplicatingIsProgress(registry: Registry, source: Registry, p: Goroutine, ref: ImageRef)
    requires InProgress(p) && p.phase == Running && p.toDelete == [] && p.toReplicate != []
    requires Ref(p.toReplicate[0]) in source
    ensures
      var first, q := Ref(p.toReplicate[0]), p.(toReplicate := p.toReplicate[1..]);
      InProgress(q) && Progress(registry, source, p, registry[first := source[first]], q, ref)
  {
    OneMoreDone(p.job.toReplicate, p.toReplicate);
  }

  lemma StandingIsProgress(registry: Registry, source: Registry, p: Goroutine, phase: Phase, ref: ImageRef)
    requires InProgress(p) && p.phase == Running && (phase == Committed ==> p.toDelete == [] && p.toReplicate == [])
    ensures
      var q := p.(phase := phase, entities := if phase == Committed then Some(p.job.listed) else p.entities);
      InProgress(q) && Progress(registry, source, p, registry, q, ref)
  {}

  lemma AdvanceIsProgress(registry: Registry, source: Registry, p: Goroutine, ref: ImageRef)
    requires InProgress(p) && p.phase == Running
    ensures
      var (r, q) := Advance(registry, source, p);
      InProgress(q) && q.job == p.job && Progress(registry, source, p, r, q, ref)
  {
    if p.toDelete != [] && Ref(p.toDelete[0]) in registry {
      DeletingIsProgress(registry, source, p, ref);
    } else if p.toDelete == [] && p.toReplicate != [] && Ref(p.toReplicate[0]) in source {
      ReplicatingIsProgress(registry, source, p, ref);
    } else {
      StandingIsProgress(registry, source, p, if p.toDelete + p.toReplicate == [] then Committed else Failed, ref);
    }
  }

  lemma DoneIsOnTheLists(p: Goroutine)
    requires InProgress(p)
    ensures Deleted(p) <= Refs(p.job.toDelete) && Replicated(p) <= Refs(p.job.toReplicate)
    ensures p.toDelete != [] ==> Ref(p.toDelete[0]) in Refs(p.job.toDelete)
    ensures p.toReplicate != [] ==> Ref(p.toReplicate[0]) in Refs(p.job.toReplicate)
  {
    assert p.toDelete != [] ==> p.toDelete[0] in p.toDelete;
    assert p.toReplicate != [] ==> p.toReplicate[0] in p.toReplicate;
  }

  // ---------------------------------------------------------------- the registry at any moment

  ghost predicate SomeReplicated(groups: seq<Goroutine>, ref: ImageRef) {
    exists g :: 0 <= g < |groups| && ref in Replicated(groups[g])
  }

  ghost predicate SomeDeleted(groups: seq<Goroutine>, ref: ImageRef) {
    exists g :: 0 <= g < |groups| && ref in Deleted(groups[g])
  }

  /** What some group has replicated is as in the source; what some group has only deleted is gone; everything
      else is as it was. */
  ghost predicate Traced(w: World, source: Registry, registry: Registry, ref: ImageRef) {
    Value(w.registry, ref) ==
    if SomeReplicated(w.groups, ref) then Value(source, ref)
    else if SomeDeleted(w.groups, ref) then None else Value(registry, ref)
  }

  /** In a world that does not clash, what one group deletes no other has replicated. */
  lemma NoOtherReplicates(w: World, jobs: seq<Job>, g: nat, h: nat, ref: ImageRef)
    requires AllPlanned(jobs) && NoClash(jobs) && AllInProgress(w, jobs)
    requires g < |jobs| && h < |jobs| && g != h && ref in Refs(jobs[g].toDelete)
    ensures ref !in Replicated(w.groups[h]) && ref !in Refs(jobs[h].listed)
  {
    assert jobs[h] in jobs;
    ManagedIsListedOrDeleted(jobs[h]);
    DoneIsOnTheLists(w.groups[h]);
    assert Refs(jobs[g].toDelete) !! Refs(jobs[h].toDelete) + Refs(jobs[h].listed);
  }

  /** A step of one group that changes nothing about a reference in what that group has done. */
  lemma SameReplicated(groups: seq<Goroutine>, after: seq<Goroutine>, g: nat, ref: ImageRef)
    requires g < |groups| == |after| && after == groups[g := after[g]]
    requires ref in Replicated(after[g]) <==> ref in Replicated(groups[g])
    ensures SomeReplicated(groups, ref) <==> SomeReplicated(after, ref)
  {
    if h :| 0 <= h < |groups| && ref in Replicated(groups[h]) {
      assert ref in Replicated(after[h]);
    }
    if h :| 0 <= h < |after| && ref in Replicated(after[h]) {
      assert ref in Replicated(groups[h]);
    }
  }

  lemma SameDeleted(groups: seq<Goroutine>, after: seq<Goroutine>, g: nat, ref: ImageRef)
    requires g < |groups| == |after| && after == groups[g := after[g]]
    requires ref in Deleted(after[g]) <==> ref in Deleted(groups[g])
    ensures SomeDeleted(groups, ref) <==> SomeDeleted(after, ref)
  {
    if h :| 0 <= h < |groups| && ref in Deleted(groups[h]) {
      assert ref in Deleted(after[h]);
    }
    if h :| 0 <= h < |after| && ref in Deleted(after[h]) {
      assert ref in Deleted(groups[h]);
    }
  }

  /** What a group has deleted and not replicated, nobody has replicated. */
  lemma NobodyReplicates(w: World, jobs: seq<Job>, g: nat, ref: ImageRef)
    requires AllPlanned(jobs) && NoClash(jobs) && AllInProgress(w, jobs)
    requires g < |jobs| && ref in Refs(jobs[g].toDelete) && ref !in Replicated(w.groups[g])
    ensures !SomeReplicated(w.groups, ref)
  {
    forall h | 0 <= h < |jobs|
      ensures ref !in Replicated(w.groups[h])
    {
      if h != g {
        NoOtherReplicates(w, jobs, g, h, ref);
      }
    }
  }

  /** A step of group `g` to a world in which its progress is known. */
  lemma ProgressIsTraced(w: World, w': World, source: Registry, registry: Registry, g: nat, ref: ImageRef)
    requires g < |w.groups| == |w'.groups| && w'.groups == w.groups[g := w'.groups[g]]
    requires Progress(w.registry, source, w.groups[g], w'.registry, w'.groups[g], ref)
    requires ref in Deleted(w'.groups[g]) && ref !in Replicated(w'.groups[g]) ==> !SomeReplicated(w'.groups, ref)
    requires Traced(w, source, registry, ref)
    ensures Traced(w', source, registry, ref)
  {
    var p, q := w.groups[g], w'.groups[g];
    if (ref in Deleted(q) <==> ref in Deleted(p)) && (ref in Replicated(q) <==> ref in Replicated(p)) {
      SameReplicated(w.groups, w'.groups, g, ref);
      SameDeleted(w.groups, w'.groups, g, ref);
    } else if ref in Replicated(q) {
      assert SomeReplicated(w'.groups, ref);
    } else {
      assert SomeDeleted(w'.groups, ref);
    }
  }

  lemma NextIsInProgress(w: World, source: Registry, jobs: seq<Job>, step: Step)
    requires AllInProgress(w, jobs)
    ensures AllInProgress(Next(w, source, step), jobs)
  {
    if step.Go? && step.group < |jobs| && w.groups[step.group].phase == Running {
      AdvanceIsProgress(w.registry, source, w.groups[step.group], ImageRef("", "", ""));
    }
  }

  lemma NextIsTraced(w: World, source: Registry, registry: Registry, jobs: seq<Job>, step: Step, ref: ImageRef)
    requires AllPlanned(jobs) && NoClash(jobs) && AllInProgress(w, jobs) && Traced(w, source, registry, ref)
    ensures Traced(Next(w, source, step), source, registry, ref)
  {
    var g := step.group;
    NextIsInProgress(w, source, jobs, step);
    if g < |jobs| && w.groups[g].phase == Running {
      var w' := Next(w, source, step);
      if step.Go? {
        AdvanceIsProgress(w.registry, source, w.groups[g], ref);
      }
      DoneIsOnTheLists(w'.groups[g]);
      if ref in Deleted(w'.groups[g]) && ref !in Replicated(w'.groups[g]) {
        NobodyReplicates(w', jobs, g, ref);
      }
      ProgressIsTraced(w, w', source, registry, g, ref);
    }
  }

  /** At any moment of a round of groups that do not clash, whatever has failed and whatever the registry held at
      the start, it is as the groups' progress says. */
  lemma {:induction false} RegistryAtAnyMoment(source: Registry, registry: Registry, jobs: seq<Job>,
                                               steps: seq<Step>, ref: ImageRef)
    requires AllPlanned(jobs) && NoClash(jobs)
    ensures
      var w := Run(Start(registry, jobs), source, steps);
      AllInProgress(w, jobs) && Traced(w, source, registry, ref)
  {
    if steps == [] {
      var w := Start(registry, jobs);
      assert forall g | 0 <= g < |jobs| ::
          InProgress(w.groups[g]) && Deleted(w.groups[g]) == {} && Replicated(w.groups[g]) == {};
    } else {
      var init, last := steps[..|steps| - 1], steps[|steps| - 1];
      RegistryAtAnyMoment(source, registry, jobs, init, ref);
      NextIsInProgress(Run(Start(registry, jobs), source, init), source, jobs, last);
      NextIsTraced(Run(Start(registry, jobs), source, init), source, registry, jobs, last, ref);
    }
  }

  // ---------------------------------------------------------------- when a group commits

  /** A group that finds everything it has to delete. */
  ghost predicate Unhindered(registry: Registry, source: Registry, p: Goroutine) {
    && p.phase != Failed && DistinctRefs(p.toDelete)
    && (forall x <- p.toDelete :: Ref(x) in registry)
    && forall x <- p.toReplicate :: Ref(x) in source
  }

  /** A group that has still to delete a reference that is not there, or has failed before it could. */
  ghost predicate Blocked(registry: Registry, p: Goroutine, ref: ImageRef) {
    ref !in registry && p.toDelete != [] && p.phase != Committed && (p.phase == Running ==> ref in Refs(p.toDelete))
  }

  lemma OwnStepStaysUnhindered(registry: Registry, source: Registry, p: Goroutine)
    requires Unhindered(registry, source, p) && p.phase == Running
    ensures Unhindered(Advance(registry, source, p).0, source, Advance(registry, source, p).1)
  {
    if p.toDelete != [] {
      FirstRefIsGone(p.toDelete);
      forall x | x in p.toDelete[1..]
        ensures Ref(x) in registry - {Ref(p.toDelete[0])}
      {
        assert Ref(x) in Refs(p.toDelete[1..]);
      }
    }
  }

  /** What another group has to delete, or lists, no step of group `h` removes. */
  lemma OthersRemoveNothing(w: World, source: Registry, jobs: seq<Job>, g: nat, h: nat, ref: ImageRef)
    requires NoClash(jobs) && AllInProgress(w, jobs)
    requires g < |jobs| && h < |jobs| && g != h && w.groups[h].phase == Running
    requires ref in Refs(jobs[g].toDelete) && ref in w.registry
    ensures ref in Advance(w.registry, source, w.groups[h]).0
  {
    AdvanceIsProgress(w.registry, source, w.groups[h], ref);
    DoneIsOnTheLists(Advance(w.registry, source, w.groups[h]).1);
    assert Refs(jobs[h].toDelete) !! Refs(jobs[g].toDelete) + Refs(jobs[g].listed);
  }

  lemma OtherStepStaysUnhindered(w: World, source: Registry, jobs: seq<Job>, g: nat, h: nat)
    requires NoClash(jobs) && AllInProgress(w, jobs)
    requires g < |jobs| && h < |jobs| && g != h && Unhindered(w.registry, source, w.groups[g])
    ensures Unhindered(Next(w, source, Go(h)).registry, source, w.groups[g])
  {
    if w.groups[h].phase == Running {
      forall x | x in w.groups[g].toDelete
        ensures Ref(x) in Advance(w.registry, source, w.groups[h]).0
      {
        assert x in jobs[g].toDelete && Ref(x) in Refs(jobs[g].toDelete);
        OthersRemoveNothing(w, source, jobs, g, h, Ref(x));
      }
    }
  }

  lemma OwnStepStaysBlocked(registry: Registry, source: Registry, p: Goroutine, ref: ImageRef)
    requires Blocked(registry, p, ref) && p.phase == Running
    ensures Blocked(Advance(registry, source, p).0, Advance(registry, source, p).1, ref)
  {
    FirstAndRest(p.toDelete);
  }

  lemma OtherStepStaysBlocked(w: World, source: Registry, jobs: seq<Job>, g: nat, h: nat, ref: ImageRef)
    requires AllPlanned(jobs) && NoClash(jobs) && AllInProgress(w, jobs)
    requires g < |jobs| && h < |jobs| && g != h && w.groups[h].phase == Running
    requires ref in Refs(jobs[g].toDelete) && ref !in w.registry
    ensures ref !in Advance(w.registry, source, w.groups[h]).0
  {
    AdvanceIsProgress(w.registry, source, w.groups[h], ref);
    DoneIsOnTheLists(Advance(w.registry, source, w.groups[h]).1);
    assert jobs[h] in jobs;
    ManagedIsListedOrDeleted(jobs[h]);
    assert Refs(jobs[g].toDelete) !! Refs(jobs[h].toDelete) + Refs(jobs[h].listed);
  }

  lemma StepStaysBlocked(w: World, source: Registry, jobs: seq<Job>, g: nat, step: Step, ref: ImageRef)
    requires AllPlanned(jobs) && NoClash(jobs) && AllInProgress(w, jobs)
    requires g < |jobs| && ref in Refs(jobs[g].toDelete) && Blocked(w.registry, w.groups[g], ref)
    ensures Blocked(Next(w, source, step).registry, Next(w, source, step).groups[g], ref)
  {
    var h := step.group;
    if step.Go? && h < |jobs| && w.groups[h].phase == Running {
      if h == g {
        OwnStepStaysBlocked(w.registry, source, w.groups[g], ref);
      } else {
        OtherStepStaysBlocked(w, source, jobs, g, h, ref);
      }
    }
  }

  lemma {:induction false} StaysUnhindered(source: Registry, registry: Registry, jobs: seq<Job>, steps: seq<Step>,
                                           g: nat)
    requires AllPlanned(jobs) && NoClash(jobs) && g < |jobs| && Holds(source, jobs[g].listed)
    requires (forall step <- steps :: step.Go?) && Refs(jobs[g].toDelete) <= registry.Keys
    ensures
      var w := Run(Start(registry, jobs), source, steps);
      AllInProgress(w, jobs) && Unhindered(w.registry, source, w.groups[g])
  {
    RegistryAtAnyMoment(source, registry, jobs, steps, ImageRef("", "", ""));
    if steps == [] {
      var job := jobs[g];
      assert job in jobs;
      DeleteListRefs(OldEntities(job.held), job.listed, job.toDelete, job.toReplicate);
      Scheduled(Lookup(OldEntities(job.held)), job.listed);
      forall x | x in job.toDelete
        ensures Ref(x) in registry
      {
        assert Ref(x) in Refs(job.toDelete);
      }
    } else {
      var init, last := steps[..|steps| - 1], steps[|steps| - 1];
      assert last in steps && forall step <- init :: step in steps;
      StaysUnhindered(source, registry, jobs, init, g);
      var w := Run(Start(registry, jobs), source, init);
      if last.group == g && w.groups[g].phase == Running {
        OwnStepStaysUnhindered(w.registry, source, w.groups[g]);
      } else if last.group < |jobs| && last.group != g {
        OtherStepStaysUnhindered(w, source, jobs, g, last.group);
      }
    }
  }

  lemma {:induction false} StaysBlocked(source: Registry, registry: Registry, jobs: seq<Job>, steps: seq<Step>,
                                        g: nat, ref: ImageRef)
    requires AllPlanned(jobs) && NoClash(jobs) && g < |jobs| && ref in Refs(jobs[g].toDelete) && ref !in registry
    ensures
      var w := Run(Start(registry, jobs), source, steps);
      Blocked(w.registry, w.groups[g], ref)
  {
    if steps != [] {
      var init, last := steps[..|steps| - 1], steps[|steps| - 1];
      RegistryAtAnyMoment(source, registry, jobs, init, ref);
      StaysBlocked(source, registry, jobs, init, g, ref);
      StepStaysBlocked(Run(Start(registry, jobs), source, init), source, jobs, g, last, ref);
    }
  }

  /** In a round without faults, wherever the registry comes from: a group commits just when everything that it
      has to delete is there. */
  lemma CommitsIffNothingIsMissing(source: Registry, registry: Registry, jobs: seq<Job>, steps: seq<Step>, g: nat)
    requires AllPlanned(jobs) && NoClash(jobs) && g < |jobs| && Holds(source, jobs[g].listed)
    requires Finished(source, registry, jobs, steps)
    ensures
      Run(Start(registry, jobs), source, steps).groups[g].phase == Committed <==>
      Refs(jobs[g].toDelete) <= registry.Keys
  {
    if Refs(jobs[g].toDelete) <= registry.Keys {
      StaysUnhindered(source, registry, jobs, steps, g);
    } else {
      var ref :| ref in Refs(jobs[g].toDelete) && ref !in registry;
      StaysBlocked(source, registry, jobs, steps, g, ref);
    }
  }

  // ---------------------------------------------------------------- after a failure

  lemma NoOtherDeletes(w: World, jobs: seq<Job>, g: nat, h: nat, ref: ImageRef)
    requires AllPlanned(jobs) && NoClash(jobs) && AllInProgress(w, jobs)
    requires g < |jobs| && h < |jobs| && g != h && ref in jobs[g].Managed()
    ensures ref !in Deleted(w.groups[h])
  {
    assert jobs[g] in jobs;
    ManagedIsListedOrDeleted(jobs[g]);
    DoneIsOnTheLists(w.groups[h]);
    assert Refs(jobs[h].toDelete) !! Refs(jobs[g].toDelete) + Refs(jobs[g].listed);
  }

  lemma ReplicatedIsServed(source: Registry, registry: Registry, jobs: seq<Job>, w: World, h: nat, ref: ImageRef)
    requires GoodStart(registry, source, jobs) && AllInProgress(w, jobs) && h < |jobs| && ref in Replicated(w.groups[h])
    ensures ref in source
  {
    assert jobs[h] in jobs;
    DoneIsOnTheLists(w.groups[h]);
    ManagedIsListedOrDeleted(jobs[h]);
    DesiredIsServed(source, jobs[h].listed, ref);
    ImagesOfList(jobs[h].listed);
  }

  /** What a group manages is lost only by that group. */
  lemma OnlyLostByItsGroup(source: Registry, registry: Registry, jobs: seq<Job>, w: World, g: nat, ref: ImageRef)
    requires GoodStart(registry, source, jobs) && AllInProgress(w, jobs) && Traced(w, source, registry, ref)
    requires g < |jobs| && ref in registry && ref in jobs[g].Managed()
    ensures ref in w.registry <==> ref !in Lost(w.groups[g])
  {
    assert ref in Deleted(w.groups[g]) ==> SomeDeleted(w.groups, ref);
    if h :| 0 <= h < |w.groups| && ref in Replicated(w.groups[h]) {
      ReplicatedIsServed(source, registry, jobs, w, h, ref);
      if h != g && ref in Deleted(w.groups[g]) {
        DoneIsOnTheLists(w.groups[g]);
        NoOtherReplicates(w, jobs, g, h, ref);
      }
    } else if h :| 0 <= h < |w.groups| && ref in Deleted(w.groups[h]) {
      if h != g {
        NoOtherDeletes(w, jobs, g, h, ref);
      }
    }
  }

  /** What a group holds that has not committed is in the registry, except for what it has lost. */
  lemma {:induction false} HeldAfterFailure(source: Registry, registry: Registry, jobs: seq<Job>, steps: seq<Step>,
                                            g: nat, ref: ImageRef)
    requires GoodStart(registry, source, jobs) && g < |jobs|
    requires ref in Refs(OldEntities(jobs[g].held))
    ensures
      var w := Run(Start(registry, jobs), source, steps);
      InProgress(w.groups[g]) && (ref in w.registry <==> ref !in Lost(w.groups[g]))
  {
    assert jobs[g] in jobs;
    RegistryAtAnyMoment(source, registry, jobs, steps, ref);
    OnlyLostByItsGroup(source, registry, jobs, Run(Start(registry, jobs), source, steps), g, ref);
  }

  /** The next round of a group that failed, or was cut off, without faults and among groups that do not clash: it
      commits just when nothing that it deleted before, and has not got back, is on its delete list again. */
  lemma RetryCommitsIff(source: Registry, registry: Registry, jobs: seq<Job>, steps: seq<Step>, g: nat,
                        source': Registry, jobs': seq<Job>, steps': seq<Step>, k: nat)
    requires GoodStart(registry, source, jobs) && g < |jobs|
    requires Run(Start(registry, jobs), source, steps).groups[g].phase != Committed
    requires AllPlanned(jobs') && NoClash(jobs') && k < |jobs'| && Holds(source', jobs'[k].listed)
    requires jobs'[k].held == Run(Start(registry, jobs), source, steps).groups[g].entities
    requires Finished(source', Run(Start(registry, jobs), source, steps).registry, jobs', steps')
    ensures
      var w := Run(Start(registry, jobs), source, steps);
      && InProgress(w.groups[g])
      && (Run(Start(w.registry, jobs'), source', steps').groups[k].phase == Committed <==>
          Refs(jobs'[k].toDelete) !! Lost(w.groups[g]))
  {
    var w, job := Run(Start(registry, jobs), source, steps), jobs'[k];
    RegistryAtAnyMoment(source, registry, jobs, steps, ImageRef("", "", ""));
    assert job in jobs' && job.held == jobs[g].held;
    CommitsIffNothingIsMissing(source', w.registry, jobs', steps', k);
    DeleteListRefs(OldEntities(job.held), job.listed, job.toDelete, job.toReplicate);
    forall ref | ref in Refs(job.toDelete)
      ensures ref in w.registry <==> ref !in Lost(w.groups[g])
    {
      HeldAfterFailure(source, registry, jobs, steps, g, ref);
    }
  }

  // ---------------------------------------------------------------- many rounds

  /** A round of groups that do not clash, in which anything may fail, and which may be cut off. */
  ghost predicate AnyRound(s: Satellite, round: Round) {
    var groups := Persistence.Updated(s.stateMap, round.states);
    && |round.jobs| == |groups| && (forall g | 0 <= g < |groups| :: round.jobs[g].held == groups[g].entities)
    && AllPlanned(round.jobs) && NoClash(round.jobs)
  }

  ghost predicate AnyRounds(s: Satellite, rounds: seq<Round>) {
    rounds != [] ==>
      AnyRounds(s, rounds[..|rounds| - 1]) && AnyRound(AfterAll(s, rounds[..|rounds| - 1]), rounds[|rounds| - 1])
  }

  /** What the rounds leave under a reference: what the last round left that replicated it, or deleted it. */
  ghost function LeftByAny(s: Satellite, rounds: seq<Round>, ref: ImageRef): Option<string> {
    if rounds == [] then Value(s.registry, ref)
    else
      var init, last := rounds[..|rounds| - 1], rounds[|rounds| - 1];
      var w := Run(Start(AfterAll(s, init).registry, last.jobs), last.source, last.steps);
      if SomeReplicated(w.groups, ref) then Value(last.source, ref)
      else if SomeDeleted(w.groups, ref) then None
      else LeftByAny(s, init, ref)
  }

  /** After any number of rounds, with any failures and changes of the group list, every reference holds what
      the last group left there that replicated or deleted it. */
  lemma {:induction false} RegistryAfterAnyRounds(s: Satellite, rounds: seq<Round>, ref: ImageRef)
    requires AnyRounds(s, rounds)
    ensures Value(AfterAll(s, rounds).registry, ref) == LeftByAny(s, rounds, ref)
  {
    if rounds != [] {
      var init, last := rounds[..|rounds| - 1], rounds[|rounds| - 1];
      RegistryAfterAnyRounds(s, init, ref);
      RegistryAtAnyMoment(last.source, AfterAll(s, init).registry, last.jobs, last.steps, ref);
    }
  }

  // ---------------------------------------------------------------- a group that is stuck

  ghost predicate Commits(s: Satellite, round: Round, g: nat) {
    g < |round.jobs| && Run(Start(s.registry, round.jobs), round.source, round.steps).groups[g].phase == Committed
  }

  /** As long as every round has a group that deletes a reference, and it is not there, it stays away, and no
      such group ever commits, whatever else fails or succeeds. */
  lemma {:induction false} StuckForGood(s: Satellite, rounds: seq<Round>, ref: ImageRef)
    requires AnyRounds(s, rounds) && ref !in s.registry
    requires forall round <- rounds :: exists job <- round.jobs :: ref in Refs(job.toDelete)
    ensures ref !in AfterAll(s, rounds).registry
    ensures rounds != [] ==>
              var last := rounds[|rounds| - 1];
              forall g | 0 <= g < |last.jobs| && ref in Refs(last.jobs[g].toDelete) ::
                !Commits(AfterAll(s, rounds[..|rounds| - 1]), last, g)
  {
    if rounds != [] {
      var init, last := rounds[..|rounds| - 1], rounds[|rounds| - 1];
      StuckForGood(s, init, ref);
      var before := AfterAll(s, init).registry;
      forall g | 0 <= g < |last.jobs| && ref in Refs(last.jobs[g].toDelete)
        ensures
          var w := Run(Start(before, last.jobs), last.source, last.steps);
          Blocked(w.registry, w.groups[g], ref)
      {
        StaysBlocked(last.source, before, last.jobs, last.steps, g, ref);
      }
      assert last in rounds;
      var job :| job in last.jobs && ref in Refs(job.toDelete);
    }
  }

  /** A group that drops an image, deletes it, and fails before it commits: in the next round it deletes the
      image again, which is gone, and fails without a fault. */
  lemma StuckGroup(x: Entity, source: Registry)
    ensures
      var job := Job(Some([x]), [], [x], []);
      var w := Run(Start(map[Ref(x) := x.digest], [job]), source, [Go(0), Break(0)]);
      && job.Planned() && w.groups[0].phase == Failed && w.groups[0].entities == Some([x])
      && Run(Start(w.registry, [job]), source, [Go(0)]).groups[0].phase == Failed
  {
    SharedImagePlans(x);
    var job := Job(Some([x]), [], [x], []);
    var start := Start(map[Ref(x) := x.digest], [job]);
    assert [Go(0), Break(0)][..1] == [Go(0)] && [Go(0)][..0] == [];
    assert Run(start, source, []) == start;
    assert Run(start, source, [Go(0)]) == Next(start, source, Go(0));
    assert Run(start, source, [Go(0), Break(0)]) == Next(Next(start, source, Go(0)), source, Break(0));
    var again := Start(Run(start, source, [Go(0), Break(0)]).registry, [job]);
    assert Run(again, source, []) == again;
    assert Run(again, source, [Go(0)]) == Next(again, source, Go(0));
  }
}
