/** One reconciliation round: every group's goroutine carries out its work lists against the one
    local registry, in any interleaving, and then commits its new entity list under the lock. */
module GroupSync {
  import opened Wrappers
  import opened Changes
  import opened Replication

  /** A group at the start of the round: what it holds, what its state lists, and the work lists
      that `GetChanges` made of the two. */
  datatype Job = Job(held: Option<seq<Entity>>, listed: seq<Entity>, toDelete: seq<Entity>, toReplicate: seq<Entity>) {

    ghost predicate Planned() {
      Plan(OldEntities(held), listed, toDelete, toReplicate)
    }

    /** The references the group is responsible for. */
    function Managed(): set<ImageRef> {
      Refs(OldEntities(held)) + Refs(listed)
    }
  }

  datatype Phase = Running | Committed | Failed

  /** A group's goroutine: the work it has left and the entity list the process keeps for it. */
  datatype Goroutine = Goroutine(
    job: Job, toDelete: seq<Entity>, toReplicate: seq<Entity>, phase: Phase, entities: Option<seq<Entity>>)

  datatype World = World(registry: Registry, groups: seq<Goroutine>)

  function Launch(job: Job): Goroutine {
    Goroutine(job, job.toDelete, job.toReplicate, Running, job.held)
  }

  function Start(registry: Registry, jobs: seq<Job>): World {
    World(registry, seq(|jobs|, g requires 0 <= g < |jobs| => Launch(jobs[g])))
  }

  /** The next thing a running goroutine does: delete one entity, else replicate one, else commit.
      A registry call that cannot be served ends the goroutine. */
  function Advance(registry: Registry, source: Registry, p: Goroutine): (Registry, Goroutine) {
    if p.toDelete != [] then
      var ref := Ref(p.toDelete[0]);
      if ref in registry then (registry - {ref}, p.(toDelete := p.toDelete[1..]))
      else (registry, p.(phase := Failed))
    else if p.toReplicate != [] then
      var ref := Ref(p.toReplicate[0]);
      if ref in source then (registry[ref := source[ref]], p.(toReplicate := p.toReplicate[1..]))
      else (registry, p.(phase := Failed))
    else
      (registry, p.(phase := Committed, entities := Some(p.job.listed)))
  }

  /** What the scheduler does next: let a group go on, or make its next call fail. */
  datatype Step = Go(group: nat) | Break(group: nat)

  function Next(w: World, source: Registry, step: Step): (w': World)
    ensures |w'.groups| == |w.groups|
  {
    if step.group >= |w.groups| || w.groups[step.group].phase != Running then w
    else
      var p := w.groups[step.group];
      match step
      case Go(g) =>
        var (registry, q) := Advance(w.registry, source, p);
        World(registry, w.groups[g := q])
      case Break(g) => w.(groups := w.groups[g := p.(phase := Failed)])
  }

  function Run(w: World, source: Registry, steps: seq<Step>): (w': World)
    ensures |w'.groups| == |w.groups|
  {
    if steps == [] then w
    else Next(Run(w, source, steps[..|steps| - 1]), source, steps[|steps| - 1])
  }

  // ---------------------------------------------------------------- the invariant

  /** The start of a round: every group has its plan, the registry holds what the groups hold, and
      the source serves what they list. */
  ghost predicate GoodLists(registry: Registry, source: Registry, jobs: seq<Job>) {
    forall job <- jobs :: job.Planned() && Holds(registry, OldEntities(job.held)) && Holds(source, job.listed)
  }

  /** No group deletes what another group deletes or lists. Groups may share images otherwise. */
  ghost predicate NoClash(jobs: seq<Job>) {
    forall g, h | 0 <= g < |jobs| && 0 <= h < |jobs| && g != h ::
      Refs(jobs[g].toDelete) !! Refs(jobs[h].toDelete) + Refs(jobs[h].listed)
  }

  ghost predicate GoodStart(registry: Registry, source: Registry, jobs: seq<Job>) {
    GoodLists(registry, source, jobs) && NoClash(jobs)
  }

  /** What a group manages is what it lists and what it deletes. */
  lemma ManagedIsListedOrDeleted(job: Job)
    requires job.Planned()
    ensures job.Managed() == Refs(job.listed) + Refs(job.toDelete)
    ensures Refs(job.toReplicate) <= Refs(job.listed)
  {
    var oldEntities := OldEntities(job.held);
    DeleteListRefs(oldEntities, job.listed, job.toDelete, job.toReplicate);
    Scheduled(Lookup(oldEntities), job.listed);
    forall ref | ref in Refs(oldEntities) && ref !in Refs(job.listed)
      ensures ref in Refs(job.toDelete)
    {
      var x :| x in oldEntities && Ref(x) == ref;
      UnlistedIsDeleted(oldEntities, job.listed, job.toDelete, job.toReplicate, x);
    }
  }

  /** What a goroutine can rely on while the others run. */
  ghost predicate OnTrack(registry: Registry, source: Registry, p: Goroutine) {
    && DistinctRefs(p.toDelete)
    && Refs(p.toDelete) <= Refs(p.job.toDelete) && Refs(p.toReplicate) <= Refs(p.job.listed)
    && (p.phase == Failed ==> p.entities == p.job.held)
    && (p.phase == Running ==>
          && p.entities == p.job.held
          && (forall x <- p.toDelete :: Ref(x) in registry)
          && (forall x <- p.toReplicate :: Ref(x) in source))
    && (p.phase == Committed ==> p.entities == Some(p.job.listed) && p.toDelete == [] && p.toReplicate == [])
    && (p.phase != Failed ==>
          forall ref <- p.job.Managed() ::
            Pending(registry, p.toDelete, p.toReplicate, source, ref) == Desired(p.job.listed, ref))
  }

  /** Two registries in which every reference that the goroutine manages is the same, or is listed by it,
      not deleted by it, and now as in the source, are the same to it. */
  lemma OthersDoNotMatter(registry: Registry, registry': Registry, source: Registry, p: Goroutine)
    requires p.job.Planned() && Holds(source, p.job.listed)
    requires OnTrack(registry, source, p)
    requires forall ref <- p.job.Managed() ::
      || Value(registry', ref) == Value(registry, ref)
      || (ref !in Refs(p.job.toDelete) && Value(registry', ref) == Value(source, ref))
    ensures OnTrack(registry', source, p)
  {
    ManagedIsListedOrDeleted(p.job);
    forall x | x in p.toDelete
      ensures Ref(x) in p.job.Managed() && (Ref(x) in registry <==> Ref(x) in registry')
    {
      assert Ref(x) in Refs(p.toDelete);
      assert Value(registry', Ref(x)) == Value(registry, Ref(x));
    }
    forall ref | ref in p.job.Managed() && p.phase != Failed
      ensures Pending(registry', p.toDelete, p.toReplicate, source, ref) == Desired(p.job.listed, ref)
    {
      PendingStaysTheSame(registry, registry', source, p, ref);
    }
  }

  lemma PendingStaysTheSame(registry: Registry, registry': Registry, source: Registry, p: Goroutine, ref: ImageRef)
    requires p.job.Planned() && Holds(source, p.job.listed) && ref in p.job.Managed()
    requires Refs(p.toDelete) <= Refs(p.job.toDelete)
    requires Pending(registry, p.toDelete, p.toReplicate, source, ref) == Desired(p.job.listed, ref)
    requires Value(registry', ref) == Value(registry, ref)
             || (ref !in Refs(p.job.toDelete) && Value(registry', ref) == Value(source, ref))
    ensures Pending(registry', p.toDelete, p.toReplicate, source, ref) == Desired(p.job.listed, ref)
  {
    ManagedIsListedOrDeleted(p.job);
    if Value(registry', ref) != Value(registry, ref) {
      DesiredIsServed(source, p.job.listed, ref);
    }
  }

  lemma DesiredIsServed(source: Registry, listed: seq<Entity>, ref: ImageRef)
    requires Holds(source, listed) && ref in Refs(listed)
    ensures Desired(listed, ref) == Value(source, ref)
  {
    ImagesOfList(listed);
    var e :| e in listed && Ref(e) == ref;
  }

  lemma LaunchIsOnTrack(registry: Registry, source: Registry, job: Job)
    requires job.Planned() && Holds(registry, OldEntities(job.held)) && Holds(source, job.listed)
    ensures OnTrack(registry, source, Launch(job))
  {
    DeleteListRefs(OldEntities(job.held), job.listed, job.toDelete, job.toReplicate);
    Scheduled(Lookup(OldEntities(job.held)), job.listed);
    forall ref | ref in job.Managed()
      ensures Pending(registry, job.toDelete, job.toReplicate, source, ref) == Desired(job.listed, ref)
    {
      PlanLeadsToDesired(registry, source, OldEntities(job.held), job.listed, job.toDelete, job.toReplicate, ref);
    }
  }

  /** Doing one piece of pending work changes nothing about where the references end up. */
  lemma DeletingOneKeepsPending(registry: Registry, source: Registry, toDelete: seq<Entity>, toReplicate: seq<Entity>,
                                ref: ImageRef)
    requires toDelete != [] && DistinctRefs(toDelete)
    ensures Pending(registry - {Ref(toDelete[0])}, toDelete[1..], toReplicate, source, ref)
         == Pending(registry, toDelete, toReplicate, source, ref)
  {
    FirstRefIsGone(toDelete);
    assert toDelete == [toDelete[0]] + toDelete[1..];
    assert Refs(toDelete) == {Ref(toDelete[0])} + Refs(toDelete[1..]);
  }

  lemma ReplicatingOneKeepsPending(registry: Registry, source: Registry, toReplicate: seq<Entity>, ref: ImageRef)
    requires toReplicate != [] && Ref(toReplicate[0]) in source
    ensures
      var first := Ref(toReplicate[0]);
      Pending(registry[first := source[first]], [], toReplicate[1..], source, ref)
      == Pending(registry, [], toReplicate, source, ref)
  {
    assert toReplicate == [toReplicate[0]] + toReplicate[1..];
    assert Refs(toReplicate) == {Ref(toReplicate[0])} + Refs(toReplicate[1..]);
  }

  lemma DeletingOneKeepsOnTrack(registry: Registry, source: Registry, p: Goroutine)
    requires OnTrack(registry, source, p) && p.phase == Running && p.toDelete != []
    ensures Ref(p.toDelete[0]) in registry && Ref(p.toDelete[0]) in Refs(p.job.toDelete)
    ensures OnTrack(registry - {Ref(p.toDelete[0])}, source, p.(toDelete := p.toDelete[1..]))
  {
    var ref, rest := Ref(p.toDelete[0]), p.toDelete[1..];
    FirstRefIsGone(p.toDelete);
    assert p.toDelete == [p.toDelete[0]] + rest;
    assert Refs(p.toDelete) == {ref} + Refs(rest);
    forall x | x in rest
      ensures Ref(x) in registry - {ref}
    {
      assert Ref(x) in Refs(rest);
    }
    forall other | other in p.job.Managed()
      ensures Pending(registry - {ref}, rest, p.toReplicate, source, other) == Desired(p.job.listed, other)
    {
      DeletingOneKeepsPending(registry, source, p.toDelete, p.toReplicate, other);
    }
  }

  lemma ReplicatingOneKeepsOnTrack(registry: Registry, source: Registry, p: Goroutine)
    requires OnTrack(registry, source, p) && p.phase == Running && p.toDelete == [] && p.toReplicate != []
    ensures Ref(p.toReplicate[0]) in source && Ref(p.toReplicate[0]) in Refs(p.job.listed)
    ensures OnTrack(registry[Ref(p.toReplicate[0]) := source[Ref(p.toReplicate[0])]], source,
                    p.(toReplicate := p.toReplicate[1..]))
  {
    var ref, rest := Ref(p.toReplicate[0]), p.toReplicate[1..];
    assert p.toReplicate == [p.toReplicate[0]] + rest;
    assert Refs(p.toReplicate) == {ref} + Refs(rest);
    forall other | other in p.job.Managed()
      ensures Pending(registry[ref := source[ref]], [], rest, source, other) == Desired(p.job.listed, other)
    {
      ReplicatingOneKeepsPending(registry, source, p.toReplicate, other);
    }
  }

  /** What a goroutine does to the registry: it deletes what its group deletes, or makes what its group
      lists as in the source. */
  ghost predicate Touches(registry: Registry, registry': Registry, source: Registry, job: Job) {
    forall ref ::
      || Value(registry', ref) == Value(registry, ref)
      || ref in Refs(job.toDelete)
      || (ref in Refs(job.listed) && Value(registry', ref) == Value(source, ref))
  }

  /** A goroutine that is on track never runs into a call that cannot be served; it stays on track
      and touches only what it manages. */
  lemma {:induction false} AdvanceKeepsOnTrack(registry: Registry, source: Registry, p: Goroutine)
    requires OnTrack(registry, source, p) && p.phase == Running
    ensures
      var (registry', q) := Advance(registry, source, p);
      && q.phase != Failed && q.job == p.job
      && OnTrack(registry', source, q)
      && Touches(registry, registry', source, p.job)
  {
    if p.toDelete != [] {
      DeletingOneKeepsOnTrack(registry, source, p);
    } else if p.toReplicate != [] {
      ReplicatingOneKeepsOnTrack(registry, source, p);
    }
  }

  // ---------------------------------------------------------------- every interleaving

  ghost predicate Unmanaged(jobs: seq<Job>, ref: ImageRef) {
    forall job <- jobs :: ref !in job.Managed()
  }

  /** What holds in every world that a good start can lead to: every goroutine is on track, and
      nothing unmanaged has changed. */
  ghost predicate Invariant(w: World, source: Registry, registry: Registry, jobs: seq<Job>) {
    && |w.groups| == |jobs|
    && (forall g | 0 <= g < |jobs| :: w.groups[g].job == jobs[g] && OnTrack(w.registry, source, w.groups[g]))
    && forall ref | Unmanaged(jobs, ref) :: Value(w.registry, ref) == Value(registry, ref)
  }

  /** What group `g` does leaves every other group on track. */
  lemma OtherGroupsStayOnTrack(w: World, registry': Registry, source: Registry, jobs: seq<Job>, g: nat, h: nat)
    requires NoClash(jobs) && |w.groups| == |jobs| && g < |jobs| && h < |jobs| && g != h
    requires jobs[h].Planned() && Holds(source, jobs[h].listed)
    requires w.groups[h].job == jobs[h] && OnTrack(w.registry, source, w.groups[h])
    requires Touches(w.registry, registry', source, jobs[g])
    ensures OnTrack(registry', source, w.groups[h])
  {
    ManagedIsListedOrDeleted(jobs[h]);
    assert Refs(jobs[g].toDelete) !! Refs(jobs[h].toDelete) + Refs(jobs[h].listed);
    assert Refs(jobs[h].toDelete) !! Refs(jobs[g].toDelete) + Refs(jobs[g].listed);
    OthersDoNotMatter(w.registry, registry', source, w.groups[h]);
  }

  lemma {:induction false} NextKeepsInvariant(w: World, source: Registry, registry: Registry, jobs: seq<Job>,
                                              step: Step)
    requires GoodStart(registry, source, jobs)
    requires Invariant(w, source, registry, jobs)
    ensures Invariant(Next(w, source, step), source, registry, jobs)
    ensures forall g | 0 <= g < |jobs| && Next(w, source, step).groups[g].phase == Failed ::
              w.groups[g].phase == Failed || step == Break(g)
  {
    var g := step.group;
    if g < |w.groups| && w.groups[g].phase == Running && step.Go? {
      var (registry', q) := Advance(w.registry, source, w.groups[g]);
      AdvanceKeepsOnTrack(w.registry, source, w.groups[g]);
      forall h | 0 <= h < |jobs| && h != g
        ensures OnTrack(registry', source, w.groups[h])
      {
        OtherGroupsStayOnTrack(w, registry', source, jobs, g, h);
      }
      assert jobs[g] in jobs;
      ManagedIsListedOrDeleted(jobs[g]);
      forall ref | Unmanaged(jobs, ref)
        ensures Value(registry', ref) == Value(registry, ref)
      {
        assert ref !in jobs[g].Managed();
      }
      assert Next(w, source, step) == World(registry', w.groups[g := q]);
    }
  }

  lemma {:induction false} RunKeepsInvariant(source: Registry, registry: Registry, jobs: seq<Job>, steps: seq<Step>)
    requires GoodStart(registry, source, jobs)
    ensures Invariant(Run(Start(registry, jobs), source, steps), source, registry, jobs)
    ensures forall g | 0 <= g < |jobs| && Run(Start(registry, jobs), source, steps).groups[g].phase == Failed ::
              Break(g) in steps
  {
    if steps == [] {
      forall g | 0 <= g < |jobs|
        ensures OnTrack(registry, source, Launch(jobs[g]))
      {
        LaunchIsOnTrack(registry, source, jobs[g]);
      }
    } else {
      var init, last := steps[..|steps| - 1], steps[|steps| - 1];
      RunKeepsInvariant(source, registry, jobs, init);
      NextKeepsInvariant(Run(Start(registry, jobs), source, init), source, registry, jobs, last);
      assert steps == init + [last];
    }
  }

  /** What a round should make of the world, wherever it has got to: a group that has committed holds its
      listed entities and the registry has exactly those under everything the group manages; a group
      that failed keeps its old entities, and it failed because its own call did, never because an
      entity to delete was missing. Nothing unmanaged changes. */
  ghost predicate Right(source: Registry, registry: Registry, jobs: seq<Job>, steps: seq<Step>) {
    var w := Run(Start(registry, jobs), source, steps);
    && (forall g | 0 <= g < |jobs| ::
          && (w.groups[g].phase == Committed ==>
                && w.groups[g].entities == Some(jobs[g].listed)
                && forall ref <- jobs[g].Managed() :: Value(w.registry, ref) == Desired(jobs[g].listed, ref))
          && (w.groups[g].phase != Committed ==> w.groups[g].entities == jobs[g].held)
          && (w.groups[g].phase == Failed ==> Break(g) in steps))
    && forall ref | Unmanaged(jobs, ref) :: Value(w.registry, ref) == Value(registry, ref)
  }

  /** Groups that do not clash: every interleaving, with any calls failing, is right at every moment. */
  lemma {:induction false} EveryInterleaving(source: Registry, registry: Registry, jobs: seq<Job>, steps: seq<Step>)
    requires GoodStart(registry, source, jobs)
    ensures Right(source, registry, jobs, steps)
  {
    RunKeepsInvariant(source, registry, jobs, steps);
    var w := Run(Start(registry, jobs), source, steps);
    forall g, ref | 0 <= g < |jobs| && w.groups[g].phase == Committed && ref in jobs[g].Managed()
      ensures Value(w.registry, ref) == Desired(jobs[g].listed, ref)
    {
      var p := w.groups[g];
      assert Pending(w.registry, p.toDelete, p.toReplicate, source, ref) == Value(w.registry, ref);
    }
  }

  // ---------------------------------------------------------------- progress

  /** How many more steps the goroutine takes. */
  function WorkLeft(p: Goroutine): nat {
    if p.phase == Running then |p.toDelete| + |p.toReplicate| + 1 else 0
  }

  lemma AdvanceIsProgress(w: World, source: Registry, g: nat)
    requires g < |w.groups| && w.groups[g].phase == Running && OnTrack(w.registry, source, w.groups[g])
    ensures
      var q := Next(w, source, Go(g)).groups[g];
      q.phase != Failed && WorkLeft(q) == WorkLeft(w.groups[g]) - 1
  {
    AdvanceKeepsOnTrack(w.registry, source, w.groups[g]);
  }

  /** A running goroutine can always go on, whatever the others did or failed to do, and gets
      nearer to its end with every step. */
  lemma {:induction false} EveryStepIsProgress(source: Registry, registry: Registry, jobs: seq<Job>, steps: seq<Step>,
                                               g: nat)
    requires GoodStart(registry, source, jobs) && g < |jobs|
    requires Run(Start(registry, jobs), source, steps).groups[g].phase == Running
    ensures
      var p := Run(Start(registry, jobs), source, steps).groups[g];
      var q := Run(Start(registry, jobs), source, steps + [Go(g)]).groups[g];
      q.phase != Failed && WorkLeft(q) == WorkLeft(p) - 1
  {
    RunKeepsInvariant(source, registry, jobs, steps);
    AdvanceIsProgress(Run(Start(registry, jobs), source, steps), source, g);
    assert (steps + [Go(g)])[..|steps|] == steps;
  }

  // ---------------------------------------------------------------- when groups clash

  /** A group going on alone for `n` steps. */
  function Only(g: nat, n: nat): (steps: seq<Step>)
    ensures |steps| == n && forall step <- steps :: step == Go(g)
  {
    if n == 0 then [] else Only(g, n - 1) + [Go(g)]
  }

  lemma {:induction false} RunOn(w: World, source: Registry, first: seq<Step>, more: seq<Step>)
    ensures Run(w, source, first + more) == Run(Run(w, source, first), source, more)
  {
    if more == [] {
      assert first + more == first;
    } else {
      var init := more[..|more| - 1];
      assert (first + more)[..|first + more| - 1] == first + init;
      RunOn(w, source, first, init);
    }
  }

  function Alone(registry: Registry, source: Registry, p: Goroutine, n: nat): (Registry, Goroutine) {
    if n == 0 then (registry, p)
    else
      var (r, q) := Alone(registry, source, p, n - 1);
      GoOn(r, source, q)
  }

  function GoOn(registry: Registry, source: Registry, p: Goroutine): (Registry, Goroutine) {
    if p.phase == Running then Advance(registry, source, p) else (registry, p)
  }

  lemma RunOneMore(w: World, source: Registry, steps: seq<Step>, step: Step)
    ensures Run(w, source, steps + [step]) == Next(Run(w, source, steps), source, step)
  {
    assert (steps + [step])[..|steps|] == steps;
  }

  lemma OneMoreAlone(w: World, source: Registry, g: nat, n: nat, r: Registry, q: Goroutine)
    requires g < |w.groups| && n > 0 && Run(w, source, Only(g, n - 1)) == World(r, w.groups[g := q])
    ensures
      var (r', q') := GoOn(r, source, q);
      Run(w, source, Only(g, n)) == World(r', w.groups[g := q'])
  {
    RunOneMore(w, source, Only(g, n - 1), Go(g));
    GoIsGoOn(w.groups, source, g, r, q);
  }

  lemma GoIsGoOn(groups: seq<Goroutine>, source: Registry, g: nat, r: Registry, q: Goroutine)
    requires g < |groups|
    ensures
      var (r', q') := GoOn(r, source, q);
      Next(World(r, groups[g := q]), source, Go(g)) == World(r', groups[g := q'])
  {
    assert groups[g := q][g := GoOn(r, source, q).1] == groups[g := GoOn(r, source, q).1];
  }

  lemma {:induction false} OnlyIsAlone(w: World, source: Registry, g: nat, n: nat)
    requires g < |w.groups|
    ensures
      var (r, q) := Alone(w.registry, source, w.groups[g], n);
      Run(w, source, Only(g, n)) == World(r, w.groups[g := q])
  {
    if n == 0 {
      assert w.groups[g := w.groups[g]] == w.groups;
    } else {
      OnlyIsAlone(w, source, g, n - 1);
      var (r, q) := Alone(w.registry, source, w.groups[g], n - 1);
      OneMoreAlone(w, source, g, n, r, q);
    }
  }

  /** A group alone, deleting: it fails, or the first entities of its list are gone. */
  lemma {:induction false} DeletesAlone(registry: Registry, source: Registry, p: Goroutine, n: nat)
    requires p.phase == Running && n <= |p.toDelete|
    ensures
      var (r, q) := Alone(registry, source, p, n);
      && r.Keys <= registry.Keys
      && (q == p.(toDelete := p.toDelete[n..]) || q.phase == Failed)
      && (q.phase != Failed ==> forall k | 0 <= k < n :: Ref(p.toDelete[k]) !in r)
  {
    if n > 0 {
      DeletesAlone(registry, source, p, n - 1);
      var (r, q) := Alone(registry, source, p, n - 1);
      if q.phase != Failed {
        assert q.toDelete[0] == p.toDelete[n - 1] && q.toDelete[1..] == p.toDelete[n..];
      }
    }
  }

  /** A group alone never brings back what it does not replicate. */
  lemma {:induction false} AloneBringsBackOnlyItsOwn(registry: Registry, source: Registry, p: Goroutine, n: nat,
                                                     ref: ImageRef)
    requires ref !in Refs(p.toReplicate)
    ensures
      var (r, q) := Alone(registry, source, p, n);
      ref !in Refs(q.toReplicate) && (ref in r ==> ref in registry)
  {
    if n > 0 {
      AloneBringsBackOnlyItsOwn(registry, source, p, n - 1, ref);
    }
  }

  /** A group alone comes to its end. */
  lemma {:induction false} FinishesAlone(registry: Registry, source: Registry, p: Goroutine, n: nat)
    ensures
      var (r, q) := Alone(registry, source, p, n);
      && WorkLeft(q) <= (if n <= WorkLeft(p) then WorkLeft(p) - n else 0)
      && (p.phase != Running ==> (r, q) == (registry, p))
  {
    if n > 0 {
      FinishesAlone(registry, source, p, n - 1);
    }
  }

  // ---------------------------------------------------------------- a goroutine and the two loops

  lemma {:induction false} AloneFromTheFront(registry: Registry, source: Registry, p: Goroutine, n: nat)
    requires n > 0
    ensures
      var (r, q) := GoOn(registry, source, p);
      Alone(registry, source, p, n) == Alone(r, source, q, n - 1)
  {
    if n > 1 {
      AloneFromTheFront(registry, source, p, n - 1);
    }
  }

  function Least(a: nat, b: nat): nat {
    if a < b then a else b
  }

  /** A goroutine alone, for as many steps as its calls are healthy, deletes as the loop does: it ends with nothing
      left to delete when the loop succeeds; otherwise it has failed, or the next call of its own will. */
  lemma {:induction false} AloneDeletes(registry: Registry, source: Registry, p: Goroutine, healthy: nat)
    requires p.phase == Running
    ensures
      var (r, ok) := Deleting(registry, p.toDelete, healthy);
      var (r', q) := Alone(registry, source, p, Least(healthy, |p.toDelete|));
      && r' == r && q.entities == p.entities
      && (ok ==> q == p.(toDelete := []))
      && (!ok ==> q.phase == Failed || (q.phase == Running && q.toDelete != []))
    decreases |p.toDelete|
  {
    if p.toDelete != [] && healthy > 0 {
      var n := Least(healthy, |p.toDelete|);
      AloneFromTheFront(registry, source, p, n);
      var (r, q) := GoOn(registry, source, p);
      if Ref(p.toDelete[0]) in registry {
        AloneDeletes(r, source, q, healthy - 1);
      } else {
        FinishesAlone(r, source, q, n - 1);
      }
    }
  }

  /** ... and replicates as the other loop does. */
  lemma {:induction false} AloneReplicates(registry: Registry, source: Registry, p: Goroutine, healthy: nat)
    requires p.phase == Running && p.toDelete == []
    ensures
      var (r, ok) := Replicating(registry, source, p.toReplicate, healthy);
      var (r', q) := Alone(registry, source, p, Least(healthy, |p.toReplicate|));
      && r' == r && q.entities == p.entities
      && (ok ==> q == p.(toReplicate := []))
      && (!ok ==> q.phase == Failed || (q.phase == Running && q.toDelete == [] && q.toReplicate != []))
    decreases |p.toReplicate|
  {
    if p.toReplicate != [] && healthy > 0 {
      var n := Least(healthy, |p.toReplicate|);
      AloneFromTheFront(registry, source, p, n);
      var (r, q) := GoOn(registry, source, p);
      if Ref(p.toReplicate[0]) in source {
        AloneReplicates(r, source, q, healthy - 1);
      } else {
        FinishesAlone(r, source, q, n - 1);
      }
    }
  }

  lemma DeletesOrFails(w: World, source: Registry, g: nat, healthy: nat) returns (steps: seq<Step>, q: Goroutine)
    requires g < |w.groups| && w.groups[g].phase == Running
    ensures forall step <- steps :: step.group == g
    ensures
      var (r, ok) := Deleting(w.registry, w.groups[g].toDelete, healthy);
      && Run(w, source, steps) == World(r, w.groups[g := q])
      && (if ok then q == w.groups[g].(toDelete := [])
          else q.phase == Failed && q.entities == w.groups[g].entities)
  {
    var p, n := w.groups[g], Least(healthy, |w.groups[g].toDelete|);
    AloneDeletes(w.registry, source, p, healthy);
    OnlyIsAlone(w, source, g, n);
    steps, q := Only(g, n), Alone(w.registry, source, p, n).1;
    if q.phase == Running && q.toDelete != [] {
      RunOneMore(w, source, steps, Break(g));
      steps, q := steps + [Break(g)], q.(phase := Failed);
    }
  }

  lemma ReplicatesOrFails(w: World, source: Registry, g: nat, healthy: nat) returns (steps: seq<Step>, q: Goroutine)
    requires g < |w.groups| && w.groups[g].phase == Running && w.groups[g].toDelete == []
    ensures forall step <- steps :: step.group == g
    ensures
      var (r, ok) := Replicating(w.registry, source, w.groups[g].toReplicate, healthy);
      && Run(w, source, steps) == World(r, w.groups[g := q])
      && q.phase == (if ok then Committed else Failed)
      && q.entities == (if ok then Some(w.groups[g].job.listed) else w.groups[g].entities)
  {
    var p, n := w.groups[g], Least(healthy, |w.groups[g].toReplicate|);
    AloneReplicates(w.registry, source, p, healthy);
    OnlyIsAlone(w, source, g, n);
    var w1 := Run(w, source, Only(g, n));
    steps, q := Only(g, n), w1.groups[g];
    if q.phase == Running {
      var step, last := LastStep(w1, source, g);
      RunOneMore(w, source, steps, step);
      assert w1.groups[g := last] == w.groups[g := last];
      steps, q := steps + [step], last;
    }
  }

  /** A goroutine that has nothing left commits; one that has something left can fail. */
  lemma LastStep(w: World, source: Registry, g: nat) returns (step: Step, q: Goroutine)
    requires g < |w.groups| && w.groups[g].phase == Running && w.groups[g].toDelete == []
    ensures step.group == g && Next(w, source, step) == World(w.registry, w.groups[g := q])
    ensures
      var done := w.groups[g].toReplicate == [];
      && q.phase == (if done then Committed else Failed)
      && q.entities == (if done then Some(w.groups[g].job.listed) else w.groups[g].entities)
  {
    step := if w.groups[g].toReplicate == [] then Go(g) else Break(g);
    q := Next(w, source, step).groups[g];
  }

  /** The steps of a goroutine compute the two loops: left alone, with as many healthy calls in each, a goroutine
      makes of the registry what deleting and then replicating makes of it; it commits when both succeed, and fails
      otherwise. */
  lemma {:induction false} GoroutineIsTheTwoLoops(w: World, source: Registry, g: nat, deletes: nat,
                                                  copies: nat) returns (steps: seq<Step>)
    requires g < |w.groups| && w.groups[g].phase == Running
    ensures forall step <- steps :: step.group == g
    ensures
      var p, w' := w.groups[g], Run(w, source, steps);
      var (r1, deleted) := Deleting(w.registry, p.toDelete, deletes);
      var (r2, replicated) := Replicating(r1, source, p.toReplicate, copies);
      && w'.registry == (if deleted then r2 else r1)
      && w'.groups[g].phase == (if deleted && replicated then Committed else Failed)
      && w'.groups[g].entities == (if deleted && replicated then Some(p.job.listed) else p.entities)
      && forall h | 0 <= h < |w.groups| && h != g :: w'.groups[h] == w.groups[h]
  {
    var q;
    steps, q := DeletesOrFails(w, source, g, deletes);
    if q.phase != Failed {
      var w1 := Run(w, source, steps);
      var more, q2 := ReplicatesOrFails(w1, source, g, copies);
      RunOn(w, source, steps, more);
      steps := steps + more;
    }
  }

  lemma DeletedAt(entities: seq<Entity>, ref: ImageRef) returns (k: nat)
    requires ref in Refs(entities)
    ensures k < |entities| && Ref(entities[k]) == ref
  {
    var x :| x in entities && Ref(x) == ref;
    k :| 0 <= k < |entities| && entities[k] == x;
  }

  /** A group that comes to delete what is not there fails. */
  lemma DeletesWhatIsGone(w: World, source: Registry, h: nat, job: Job, ref: ImageRef) returns (steps: seq<Step>)
    requires h < |w.groups| && w.groups[h] == Launch(job) && ref in Refs(job.toDelete) && ref !in w.registry
    ensures (forall step <- steps :: step.Go?) && Run(w, source, steps).groups[h].phase == Failed
  {
    var j := DeletedAt(job.toDelete, ref);
    OnlyIsAlone(w, source, h, j + 1);
    DeletesAlone(w.registry, source, Launch(job), j);
    return Only(h, j + 1);
  }

  /** A group that has yet to begin comes to delete its entities one by one: it fails, or the image is gone. */
  lemma DeletesItsOwn(w: World, source: Registry, g: nat, job: Job, ref: ImageRef) returns (steps: seq<Step>)
    requires g < |w.groups| && w.groups[g] == Launch(job) && ref in Refs(job.toDelete)
    ensures forall step <- steps :: step.Go?
    ensures
      var w' := Run(w, source, steps);
      && (w'.groups[g].phase == Failed || ref !in w'.registry)
      && forall h | 0 <= h < |w.groups| && h != g :: w'.groups[h] == w.groups[h]
  {
    var i := DeletedAt(job.toDelete, ref);
    OnlyIsAlone(w, source, g, i + 1);
    DeletesAlone(w.registry, source, Launch(job), i + 1);
    return Only(g, i + 1);
  }

  /** Two groups that delete the same reference: whichever comes second fails. */
  lemma {:induction false} SecondDeleteFails(registry: Registry, source: Registry, jobs: seq<Job>, g: nat, h: nat,
                                             ref: ImageRef)
      returns (steps: seq<Step>, failed: nat)
    requires g < |jobs| && h < |jobs| && g != h && ref in Refs(jobs[g].toDelete) && ref in Refs(jobs[h].toDelete)
    ensures forall step <- steps :: step.Go?
    ensures failed < |jobs| && Run(Start(registry, jobs), source, steps).groups[failed].phase == Failed
  {
    var start := Start(registry, jobs);
    var first := DeletesItsOwn(start, source, g, jobs[g], ref);
    var w := Run(start, source, first);
    if w.groups[g].phase == Failed {
      return first, g;
    }
    var second := DeletesWhatIsGone(w, source, h, jobs[h], ref);
    RunOn(start, source, first, second);
    return first + second, h;
  }

  /** A group that has committed, then another that deletes what the first lists: one of them fails, or
      the image is gone. */
  lemma {:induction false} DeletesWhatIsListed(registry: Registry, source: Registry, jobs: seq<Job>, g: nat, h: nat,
                                               ref: ImageRef)
      returns (steps: seq<Step>)
    requires g < |jobs| && h < |jobs| && g != h && ref in Refs(jobs[g].toDelete)
    ensures forall step <- steps :: step.Go?
    ensures
      var w := Run(Start(registry, jobs), source, steps);
      || w.groups[g].phase == Failed || w.groups[h].phase == Failed
      || (w.groups[h].phase == Committed && ref !in w.registry)
  {
    var start, n := Start(registry, jobs), WorkLeft(Launch(jobs[h]));
    OnlyIsAlone(start, source, h, n);
    FinishesAlone(registry, source, Launch(jobs[h]), n);
    var w := Run(start, source, Only(h, n));
    var more := DeletesItsOwn(w, source, g, jobs[g], ref);
    RunOn(start, source, Only(h, n), more);
    return Only(h, n) + more;
  }

  /** Exactly: whatever the interleaving and whatever calls fail, the world is right at every moment, just
      when no group deletes what another group deletes or lists. */
  lemma {:induction false} AlwaysRightIffNoClash(source: Registry, registry: Registry, jobs: seq<Job>)
    requires GoodLists(registry, source, jobs)
    ensures (forall steps :: Right(source, registry, jobs, steps)) <==> NoClash(jobs)
  {
    if NoClash(jobs) {
      forall steps
        ensures Right(source, registry, jobs, steps)
      {
        EveryInterleaving(source, registry, jobs, steps);
      }
    } else {
      var g, h :| 0 <= g < |jobs| && 0 <= h < |jobs| && g != h
                  && !(Refs(jobs[g].toDelete) !! Refs(jobs[h].toDelete) + Refs(jobs[h].listed));
      var ref :| ref in Refs(jobs[g].toDelete) && ref in Refs(jobs[h].toDelete) + Refs(jobs[h].listed);
      if ref in Refs(jobs[h].toDelete) {
        var steps, failed := SecondDeleteFails(registry, source, jobs, g, h, ref);
        assert Break(failed) !in steps;
        assert !Right(source, registry, jobs, steps);
      } else {
        var steps := DeletesWhatIsListed(registry, source, jobs, g, h, ref);
        assert jobs[h] in jobs && ref in jobs[h].Managed();
        DesiredIsServed(source, jobs[h].listed, ref);
        ImagesOfList(jobs[h].listed);
        assert Break(g) !in steps && Break(h) !in steps;
        assert !Right(source, registry, jobs, steps);
      }
    }
  }

  /** Groups that manage different references never clash. */
  lemma DisjointGroupsDoNotClash(registry: Registry, source: Registry, jobs: seq<Job>)
    requires GoodLists(registry, source, jobs)
    requires forall g, h | 0 <= g < h < |jobs| :: jobs[g].Managed() !! jobs[h].Managed()
    ensures NoClash(jobs)
  {
    forall g, h | 0 <= g < |jobs| && 0 <= h < |jobs| && g != h
      ensures Refs(jobs[g].toDelete) !! Refs(jobs[h].toDelete) + Refs(jobs[h].listed)
    {
      assert jobs[g] in jobs && jobs[h] in jobs;
      ManagedIsListedOrDeleted(jobs[g]);
      ManagedIsListedOrDeleted(jobs[h]);
      if g < h {
        assert jobs[g].Managed() !! jobs[h].Managed();
      } else {
        assert jobs[h].Managed() !! jobs[g].Managed();
      }
    }
  }

  // ---------------------------------------------------------------- groups that share an image

  lemma SharedImagePlans(x: Entity)
    ensures Job(Some([x]), [], [x], []).Planned() && Job(Some([x]), [x], [], []).Planned()
  {
    var held := Lookup([x]);
    assert [x][..0] == [] && Lookup([]) == map[];
    assert held == map[LookupKey(x) := x];
    assert Keys([]) == {} && Keys([x]) == {LookupKey(x)};
    assert held - {} == held && held - {LookupKey(x)} == map[];
    assert Superseded(held, []) == [] && ToReplicate(held, []) == [];
    assert Superseded(held, [x]) == Superseded(held, [x][..0]);
    assert ToReplicate(held, [x]) == ToReplicate(held, [x][..0]);
    assert [x][|Superseded(held, [])|..] == [x];
    assert forall e :: e in [x] <==> e == x;
  }

  /** Why groups must not clash: when one group drops an image that another still lists, the
      first deletes it, the second has nothing to do, and both commit; the image is gone although a
      committed group lists it. */
  lemma {:induction false} SharedImageIsLost(x: Entity, source: Registry)
    ensures
      var dropping, keeping := Job(Some([x]), [], [x], []), Job(Some([x]), [x], [], []);
      var registry := map[Ref(x) := x.digest];
      var w := Run(Start(registry, [dropping, keeping]), source, [Go(0), Go(0), Go(1)]);
      && dropping.Planned() && keeping.Planned()
      && w.groups[0].phase == Committed && w.groups[1].phase == Committed
      && w.groups[1].entities == Some([x]) && Ref(x) !in w.registry
  {
    var dropping, keeping := Job(Some([x]), [], [x], []), Job(Some([x]), [x], [], []);
    SharedImagePlans(x);
    var registry := map[Ref(x) := x.digest];
    var w := Start(registry, [dropping, keeping]);
    var steps := [Go(0), Go(0), Go(1)];
    assert steps[..2] == [Go(0), Go(0)] && [Go(0), Go(0)][..1] == [Go(0)] && [Go(0)][..0] == [];
    assert Run(w, source, []) == w;
    assert Run(w, source, [Go(0)]) == Next(w, source, Go(0));
    assert Run(w, source, [Go(0), Go(0)]) == Next(Next(w, source, Go(0)), source, Go(0));
    assert Run(w, source, steps) == Next(Next(Next(w, source, Go(0)), source, Go(0)), source, Go(1));
  }
}
