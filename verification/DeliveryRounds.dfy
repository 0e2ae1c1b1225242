/** What a group's work lists make of the directory of tarballs, in one round and over many. */
module DeliveryRounds {
  import opened Wrappers
  import opened Changes
  import opened Replication
  import opened DirectDelivery

  function Files(entities: seq<Entity>): set<string> {
    set e | e in entities :: TarballFilename(e)
  }

  /** A deletion in which nothing fails removes the files of its entities. */
  lemma FaultlessDeletion(entities: seq<Entity>, outcomes: seq<RemoveOutcome>)
    requires |outcomes| == |entities| && forall outcome <- outcomes :: outcome.Removed?
    ensures RemovedFiles(entities, outcomes) == Files(entities)
  {
    forall f
      ensures f in RemovedFiles(entities, outcomes) <==> f in Files(entities)
    {
      RemovedFileOf(entities, outcomes, f);
      if f in Files(entities) {
        var e :| e in entities && TarballFilename(e) == f;
        var i :| 0 <= i < |entities| && entities[i] == e;
        assert outcomes[i] in outcomes;
      }
    }
  }

  /** A delivery changes no file but those of its entities. */
  lemma {:induction false} DeliveryTouchesItsFiles(tarballs: Tarballs, snapshot: map<string, string>,
                                                   entities: seq<Entity>, outcomes: seq<WriteOutcome>, f: string)
    requires |outcomes| == |entities| && f !in Files(entities)
    ensures
      var d := DeliverAll(tarballs, snapshot, entities, outcomes);
      (f in d.tarballs <==> f in tarballs) && (f in tarballs ==> d.tarballs[f] == tarballs[f])
    decreases |entities|
  {
    if entities != [] {
      var n := |entities| - 1;
      assert entities[n] in entities && forall e <- entities[..n] :: e in entities;
      DeliveryTouchesItsFiles(tarballs, snapshot, entities[..n], outcomes[..n], f);
    }
  }

  /** What the directory holds after a group's deletions and deliveries. */
  ghost function AfterChanges(dir: Directory, toDelete: seq<Entity>, removed: seq<RemoveOutcome>,
                              toReplicate: seq<Entity>, written: seq<WriteOutcome>): Directory
    requires |removed| == |toDelete| && |written| == |toReplicate|
  {
    Perform(Perform(dir, DeleteCall(toDelete, removed)), DeliverCall(toReplicate, written))
  }

  /** No listed image that is not delivered anew has the filename of a deleted one. */
  ghost predicate NothingListedIsRemoved(listed: seq<Entity>, toDelete: seq<Entity>, toReplicate: seq<Entity>) {
    (Files(toDelete) - Files(toReplicate)) !! Files(listed)
  }

  lemma DeliveredOrKept(tarballs: Tarballs, snapshot: map<string, string>, listed: seq<Entity>,
                        toReplicate: seq<Entity>, written: seq<WriteOutcome>, e: Entity)
    requires |written| == |toReplicate| && forall outcome <- written :: outcome.Written?
    requires Agrees(tarballs, snapshot) && NoConflict(listed) && e in listed && forall r <- toReplicate :: r in listed
    requires
      var f := TarballFilename(e);
      f !in Files(toReplicate) ==> f in tarballs && tarballs[f] == e.digest
    ensures
      var d, f := DeliverAll(tarballs, snapshot, toReplicate, written), TarballFilename(e);
      f in d.tarballs && d.tarballs[f] == e.digest
  {
    var f := TarballFilename(e);
    if f in Files(toReplicate) {
      UndisputedFile(tarballs, snapshot, toReplicate, written, f, e.digest);
      assert exists r <- toReplicate :: TarballFilename(r) == f;
    } else {
      DeliveryTouchesItsFiles(tarballs, snapshot, toReplicate, written, f);
    }
  }

  lemma KeptOnDisk(tarballs: Tarballs, held: seq<Entity>, listed: seq<Entity>,
                   toDelete: seq<Entity>, toReplicate: seq<Entity>, e: Entity)
    requires Plan(held, listed, toDelete, toReplicate) && AllOnDisk(tarballs, held)
    requires e in listed && TarballFilename(e) !in Files(toReplicate)
    requires NothingListedIsRemoved(listed, toDelete, toReplicate)
    ensures
      var f := TarballFilename(e);
      f in tarballs - Files(toDelete) && tarballs[f] == e.digest
  {
    assert TarballFilename(e) in Files(listed);
    assert e !in toReplicate;
    var x := UnscheduledIsHeld(held, listed, e);
    assert TarballFilename(x) == TarballFilename(e);
  }

  lemma ListedFileAfterChanges(dir: Directory, held: seq<Entity>, listed: seq<Entity>,
                               toDelete: seq<Entity>, removed: seq<RemoveOutcome>,
                               toReplicate: seq<Entity>, written: seq<WriteOutcome>, e: Entity)
    requires Plan(held, listed, toDelete, toReplicate) && e in listed
    requires Agrees(dir.tarballs, Loaded(dir.digestFile)) && AllOnDisk(dir.tarballs, held)
    requires |removed| == |toDelete| && forall outcome <- removed :: outcome.Removed?
    requires |written| == |toReplicate| && forall outcome <- written :: outcome.Written?
    requires NoConflict(listed) && NothingListedIsRemoved(listed, toDelete, toReplicate)
    ensures
      var tarballs, f := AfterChanges(dir, toDelete, removed, toReplicate, written).tarballs, TarballFilename(e);
      f in tarballs && tarballs[f] == e.digest
  {
    FaultlessDeletion(toDelete, removed);
    Scheduled(Lookup(held), listed);
    var middle := Perform(dir, DeleteCall(toDelete, removed));
    assert Loaded(middle.digestFile) == Loaded(dir.digestFile) - Files(toDelete);
    if TarballFilename(e) !in Files(toReplicate) {
      KeptOnDisk(dir.tarballs, held, listed, toDelete, toReplicate, e);
    }
    DeliveredOrKept(middle.tarballs, Loaded(middle.digestFile), listed, toReplicate, written, e);
  }

  /** After the deletions and deliveries of a group's work lists, without faults, every listed image is in the
      directory exactly when no two listed images share a filename with different digests and no listed
      image that is not delivered anew has the filename of a deleted one. In any case the files of images
      that are not listed any more are gone, and files of other images are untouched. */
  lemma {:induction false} DirectoryFollowsTheList(dir: Directory, held: seq<Entity>, listed: seq<Entity>,
                                toDelete: seq<Entity>, removed: seq<RemoveOutcome>,
                                toReplicate: seq<Entity>, written: seq<WriteOutcome>)
    requires Plan(held, listed, toDelete, toReplicate)
    requires Agrees(dir.tarballs, Loaded(dir.digestFile)) && AllOnDisk(dir.tarballs, held)
    requires |removed| == |toDelete| && forall outcome <- removed :: outcome.Removed?
    requires |written| == |toReplicate| && forall outcome <- written :: outcome.Written?
    ensures
      var after := AfterChanges(dir, toDelete, removed, toReplicate, written);
      && (AllOnDisk(after.tarballs, listed) <==>
            NoConflict(listed) && NothingListedIsRemoved(listed, toDelete, toReplicate))
      && Agrees(after.tarballs, Loaded(after.digestFile))
      && (forall f <- Files(held) - Files(listed) :: f !in after.tarballs)
      && forall f | f !in Files(held) + Files(listed) ::
           (f in after.tarballs <==> f in dir.tarballs) && (f in dir.tarballs ==> after.tarballs[f] == dir.tarballs[f])
  {
    var calls := [DeleteCall(toDelete, removed), DeliverCall(toReplicate, written)];
    var after := AfterChanges(dir, toDelete, removed, toReplicate, written);
    assert calls[..1] == [calls[0]] && [calls[0]][..0] == [];
    assert PerformAll(dir, [calls[0]]) == Perform(PerformAll(dir, []), calls[0]);
    assert PerformAll(dir, calls) == after;
    DigestMapNeverLies(dir, calls);
    FaultlessDeletion(toDelete, removed);
    Scheduled(Lookup(held), listed);
    DeleteListRefs(held, listed, toDelete, toReplicate);
    if NoConflict(listed) && NothingListedIsRemoved(listed, toDelete, toReplicate) {
      forall e | e in listed
        ensures TarballFilename(e) in after.tarballs && after.tarballs[TarballFilename(e)] == e.digest
      {
        ListedFileAfterChanges(dir, held, listed, toDelete, removed, toReplicate, written, e);
      }
    }
    var middle := Perform(dir, DeleteCall(toDelete, removed));
    forall f | f !in Files(toReplicate)
      ensures f in after.tarballs <==> f in middle.tarballs
      ensures f in middle.tarballs ==> after.tarballs[f] == middle.tarballs[f]
    {
      DeliveryTouchesItsFiles(middle.tarballs, Loaded(middle.digestFile), toReplicate, written, f);
    }
    forall f | f in Files(held) - Files(listed)
      ensures f !in after.tarballs
    {
      var x :| x in held && TarballFilename(x) == f;
      HeldFileIsDeleted(held, listed, toDelete, toReplicate, x);
    }
  }

  lemma HeldFileIsDeleted(held: seq<Entity>, listed: seq<Entity>, toDelete: seq<Entity>, toReplicate: seq<Entity>,
                          x: Entity)
    requires Plan(held, listed, toDelete, toReplicate) && x in held && TarballFilename(x) !in Files(listed)
    ensures TarballFilename(x) in Files(toDelete)
  {
    assert forall e <- listed | Ref(e) == Ref(x) :: TarballFilename(e) == TarballFilename(x);
    UnlistedIsDeleted(held, listed, toDelete, toReplicate, x);
    var y :| y in toDelete && Ref(y) == Ref(x);
  }

  /** The directory holds the tarballs of these entities, each with its image, and no others. */
  ghost predicate Mirrors(dir: Directory, entities: seq<Entity>) {
    && dir.tarballs.Keys == Files(entities) && AllOnDisk(dir.tarballs, entities)
    && Agrees(dir.tarballs, Loaded(dir.digestFile))
  }

  /** What one round lists, and what it does in the directory. */
  datatype Round = Round(listed: seq<Entity>, toDelete: seq<Entity>, removed: seq<RemoveOutcome>,
                         toReplicate: seq<Entity>, written: seq<WriteOutcome>)

  /** The round carries out its work lists without faults. */
  ghost predicate Faultless(held: seq<Entity>, round: Round) {
    && Plan(held, round.listed, round.toDelete, round.toReplicate)
    && |round.removed| == |round.toDelete| && (forall outcome <- round.removed :: outcome.Removed?)
    && |round.written| == |round.toReplicate| && (forall outcome <- round.written :: outcome.Written?)
  }

  /** No filename of the round stands for two images. */
  ghost predicate Tidy(round: Round) {
    NoConflict(round.listed) && NothingListedIsRemoved(round.listed, round.toDelete, round.toReplicate)
  }

  function HeldAfter(held: seq<Entity>, rounds: seq<Round>): seq<Entity> {
    if rounds == [] then held else rounds[|rounds| - 1].listed
  }

  ghost predicate AllFaultless(held: seq<Entity>, rounds: seq<Round>) {
    forall n | 0 <= n < |rounds| :: Faultless(HeldAfter(held, rounds[..n]), rounds[n])
  }

  ghost function AfterRounds(dir: Directory, held: seq<Entity>, rounds: seq<Round>): Directory
    requires AllFaultless(held, rounds)
  {
    if rounds == [] then dir
    else
      var init, last := rounds[..|rounds| - 1], rounds[|rounds| - 1];
      assert Faultless(HeldAfter(held, rounds[..|rounds| - 1]), last);
      AllFaultlessBefore(held, rounds, |rounds| - 1);
      AfterChanges(AfterRounds(dir, held, init), last.toDelete, last.removed, last.toReplicate, last.written)
  }

  lemma AllFaultlessBefore(held: seq<Entity>, rounds: seq<Round>, n: nat)
    requires AllFaultless(held, rounds) && n <= |rounds|
    ensures AllFaultless(held, rounds[..n])
  {
    forall k | 0 <= k < n
      ensures Faultless(HeldAfter(held, rounds[..n][..k]), rounds[..n][k])
    {
      assert rounds[..n][..k] == rounds[..k];
    }
  }

  lemma OneRoundMirrors(dir: Directory, held: seq<Entity>, round: Round)
    requires Faultless(held, round) && Mirrors(dir, held)
    ensures
      Mirrors(AfterChanges(dir, round.toDelete, round.removed, round.toReplicate, round.written), round.listed) <==>
      Tidy(round)
  {
    DirectoryFollowsTheList(dir, held, round.listed, round.toDelete, round.removed, round.toReplicate, round.written);
    var after := AfterChanges(dir, round.toDelete, round.removed, round.toReplicate, round.written);
    if Tidy(round) {
      forall f
        ensures f in after.tarballs <==> f in Files(round.listed)
      {
        if f in Files(round.listed) {
          var e :| e in round.listed && TarballFilename(e) == f;
        }
      }
    }
  }

  ghost predicate MirrorsAfter(dir: Directory, held: seq<Entity>, rounds: seq<Round>, n: nat)
    requires AllFaultless(held, rounds) && n <= |rounds|
  {
    AllFaultlessBefore(held, rounds, n);
    Mirrors(AfterRounds(dir, held, rounds[..n]), HeldAfter(held, rounds[..n]))
  }

  lemma NextRoundMirrors(dir: Directory, held: seq<Entity>, rounds: seq<Round>, n: nat)
    requires AllFaultless(held, rounds) && n < |rounds| && MirrorsAfter(dir, held, rounds, n)
    ensures MirrorsAfter(dir, held, rounds, n + 1) <==> Tidy(rounds[n])
  {
    AllFaultlessBefore(held, rounds, n);
    AllFaultlessBefore(held, rounds, n + 1);
    var first := rounds[..n + 1];
    assert first[..n] == rounds[..n] && first[n] == rounds[n];
    OneRoundMirrors(AfterRounds(dir, held, rounds[..n]), HeldAfter(held, rounds[..n]), rounds[n]);
  }

  lemma BeforeAnyRound(dir: Directory, held: seq<Entity>, rounds: seq<Round>)
    requires AllFaultless(held, rounds)
    ensures MirrorsAfter(dir, held, rounds, 0) <==> Mirrors(dir, held)
  {
    assert rounds[..0] == [];
  }

  lemma {:induction false} MirrorsWhileTidy(dir: Directory, held: seq<Entity>, rounds: seq<Round>, n: nat)
    requires AllFaultless(held, rounds) && Mirrors(dir, held) && n <= |rounds|
    requires forall k | 0 <= k < n :: Tidy(rounds[k])
    ensures MirrorsAfter(dir, held, rounds, n)
  {
    if n == 0 {
      BeforeAnyRound(dir, held, rounds);
    } else {
      MirrorsWhileTidy(dir, held, rounds, n - 1);
      NextRoundMirrors(dir, held, rounds, n - 1);
    }
  }

  /** Over any number of rounds without faults, the directory holds exactly the tarballs of what is listed, at
      every moment between rounds, just when no round has a filename that stands for two images. */
  lemma {:induction false} DirectoryMirrorsTheList(dir: Directory, held: seq<Entity>, rounds: seq<Round>)
    requires AllFaultless(held, rounds) && Mirrors(dir, held)
    ensures
      (forall n | 0 <= n <= |rounds| :: MirrorsAfter(dir, held, rounds, n)) <==>
      forall n | 0 <= n < |rounds| :: Tidy(rounds[n])
  {
    if forall n | 0 <= n < |rounds| :: Tidy(rounds[n]) {
      forall n | 0 <= n <= |rounds|
        ensures MirrorsAfter(dir, held, rounds, n)
      {
        MirrorsWhileTidy(dir, held, rounds, n);
      }
    } else {
      var n :| 0 <= n < |rounds| && !Tidy(rounds[n]);
      if MirrorsAfter(dir, held, rounds, n) {
        NextRoundMirrors(dir, held, rounds, n);
      }
    }
  }
}
