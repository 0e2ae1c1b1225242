/** Any number of reconciliation rounds, one after the other, with groups coming and going in between. */
module Rounds {
  import opened Wrappers
  import opened Changes
  import opened Replication
  import opened GroupSync
  import opened FaultFreeRounds
  import Persistence = StatePersistence

  /** What a satellite holds between two rounds. */
  datatype Satellite = Satellite(stateMap: seq<Persistence.StateMap>, registry: Registry)

  /** A round: the listed groups, the work of each of them, and the interleaving in which it was done. */
  datatype Round = Round(states: seq<string>, source: Registry, jobs: seq<Job>, steps: seq<Step>)

  /** A round without faults on the satellite's groups: every group's work lists come from what the process
      has for it, and the groups get along. */
  ghost predicate GoodRound(s: Satellite, round: Round) {
    var groups := Persistence.Updated(s.stateMap, round.states);
    && |round.jobs| == |groups|
    && (forall g | 0 <= g < |groups| ::
          && round.jobs[g].held == groups[g].entities && round.jobs[g].Planned()
          && Holds(round.source, round.jobs[g].listed))
    && Compatible(round.jobs)
    && Finished(round.source, s.registry, round.jobs, round.steps)
  }

  function After(s: Satellite, round: Round): Satellite {
    var groups := Persistence.Updated(s.stateMap, round.states);
    var w := Run(Start(s.registry, round.jobs), round.source, round.steps);
    Satellite(seq(|groups|, g requires 0 <= g < |groups| =>
                groups[g].(entities := if g < |w.groups| then w.groups[g].entities else groups[g].entities)),
              w.registry)
  }

  function AfterAll(s: Satellite, rounds: seq<Round>): Satellite {
    if rounds == [] then s else After(AfterAll(s, rounds[..|rounds| - 1]), rounds[|rounds| - 1])
  }

  ghost predicate GoodRounds(s: Satellite, rounds: seq<Round>) {
    rounds != [] ==>
      GoodRounds(s, rounds[..|rounds| - 1]) && GoodRound(AfterAll(s, rounds[..|rounds| - 1]), rounds[|rounds| - 1])
  }

  /** What the process has for its groups is in the registry. */
  ghost predicate InRegistry(s: Satellite) {
    forall sm <- s.stateMap :: Holds(s.registry, OldEntities(sm.entities))
  }

  lemma RoundStartsGood(s: Satellite, round: Round)
    requires InRegistry(s) && GoodRound(s, round)
    ensures GoodLists(s.registry, round.source, round.jobs)
  {
    var groups := Persistence.Updated(s.stateMap, round.states);
    Persistence.KeptGroups(s.stateMap, round.states);
    Persistence.AddedGroups(s.stateMap, round.states);
    forall job | job in round.jobs
      ensures Holds(s.registry, OldEntities(job.held)) && job.Planned() && Holds(round.source, job.listed)
    {
      var g :| 0 <= g < |groups| && round.jobs[g] == job;
      assert groups[g] in groups;
    }
  }

  /** A round ends with the listed entities in the registry and in memory. */
  lemma RoundEndsRight(s: Satellite, round: Round, ref: ImageRef)
    requires InRegistry(s) && GoodRound(s, round)
    ensures InRegistry(After(s, round))
    ensures
      Value(After(s, round).registry, ref) ==
      if ref in Refs(AllListed(round.jobs)) then Value(round.source, ref)
      else if ref in AllManaged(round.jobs) then None else Value(s.registry, ref)
  {
    RoundStartsGood(s, round);
    EndValue(round.source, s.registry, round.jobs, round.steps, ref);
    var t := After(s, round);
    forall sm | sm in t.stateMap
      ensures Holds(t.registry, OldEntities(sm.entities))
    {
      var g :| 0 <= g < |t.stateMap| && t.stateMap[g] == sm;
      assert OldEntities(sm.entities) == round.jobs[g].listed;
      ListedRefs(round.jobs, g);
      forall e | e in round.jobs[g].listed
        ensures Ref(e) in t.registry && t.registry[Ref(e)] == e.digest
      {
        EndValue(round.source, s.registry, round.jobs, round.steps, Ref(e));
      }
    }
  }

  /** What the rounds leave under a reference: what the last round left that managed it. */
  ghost function Left(s: Satellite, rounds: seq<Round>, ref: ImageRef): Option<string> {
    if rounds == [] then Value(s.registry, ref)
    else
      var last := rounds[|rounds| - 1];
      if ref in Refs(AllListed(last.jobs)) then Value(last.source, ref)
      else if ref in AllManaged(last.jobs) then None
      else Left(s, rounds[..|rounds| - 1], ref)
  }

  /** After any number of rounds without faults, and of changes to the group list, every reference holds what
      the last round left there that managed it; references that no round managed are as they were. */
  lemma {:induction false} RegistryAfterRounds(s: Satellite, rounds: seq<Round>, ref: ImageRef)
    requires InRegistry(s) && GoodRounds(s, rounds)
    ensures InRegistry(AfterAll(s, rounds))
    ensures Value(AfterAll(s, rounds).registry, ref) == Left(s, rounds, ref)
  {
    if rounds != [] {
      var init := rounds[..|rounds| - 1];
      RegistryAfterRounds(s, init, ref);
      RoundEndsRight(AfterAll(s, init), rounds[|rounds| - 1], ref);
    }
  }

  /** An image that a round listed, and that no later round manages any more, because its groups were
      dropped from the list, stays in the registry for good. */
  lemma {:induction false} DroppedImagesStay(s: Satellite, rounds: seq<Round>, k: nat, ref: ImageRef)
    requires InRegistry(s) && GoodRounds(s, rounds)
    requires k < |rounds| && ref in Refs(AllListed(rounds[k].jobs))
    requires forall j | k < j < |rounds| :: ref !in AllManaged(rounds[j].jobs)
    ensures Value(AfterAll(s, rounds).registry, ref) == Value(rounds[k].source, ref)
    decreases |rounds|
  {
    var last := |rounds| - 1;
    RegistryAfterRounds(s, rounds, ref);
    if k < last {
      DroppedImagesStay(s, rounds[..last], k, ref);
      RegistryAfterRounds(s, rounds[..last], ref);
      RegistryAfterRounds(s, rounds, ref);
      GoodRoundsListWhatTheyManage(s, rounds, ref);
    }
  }

  lemma GoodRoundsListWhatTheyManage(s: Satellite, rounds: seq<Round>, ref: ImageRef)
    requires InRegistry(s) && GoodRounds(s, rounds) && rounds != []
    ensures ref in Refs(AllListed(rounds[|rounds| - 1].jobs)) ==> ref in AllManaged(rounds[|rounds| - 1].jobs)
  {
    var init, last := rounds[..|rounds| - 1], rounds[|rounds| - 1];
    RegistryAfterRounds(s, init, ref);
    RoundStartsGood(AfterAll(s, init), last);
    ListedTogether(last.source, AfterAll(s, init).registry, last.jobs);
  }
}
