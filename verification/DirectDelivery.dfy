/** Direct delivery: image tarballs in a watched directory, and the digest map beside them that
    lets a delivery skip what is already there. */
module DirectDelivery {
  import opened Wrappers
  import opened Changes

  function Safe(s: string): string {
    seq(|s|, i requires 0 <= i < |s| => if s[i] in {'/', ':', ' '} then '_' else s[i])
  }

  function TarballFilename(e: Entity): string {
    Safe(e.repository) + "--" + Safe(e.name) + "--" + Safe(e.tag) + ".tar"
  }

  lemma FilenameInFull(digest: string)
    ensures TarballFilename(Entity("app", "project/repo", "v1.0", digest)) == "project_repo--app--v1.0.tar"
  {
    assert Safe("project/repo") == "project_repo" && Safe("app") == "app" && Safe("v1.0") == "v1.0";
  }

  /** Every tarball in the directory, with the digest of the image it was last written for. */
  type Tarballs = map<string, string>

  /** The content of the digest map file; `None` when there is none that can be read. */
  type DigestFile = Option<map<string, string>>

  function Loaded(file: DigestFile): map<string, string> {
    if file.Some? then file.value else map[]
  }

  /** The digest map promises nothing that is not on disk. */
  ghost predicate Agrees(tarballs: Tarballs, digests: map<string, string>) {
    forall f <- digests :: f in tarballs && tarballs[f] == digests[f]
  }

  // ---------------------------------------------------------------- one call, as values

  /** What the registry and the file system do about one entity. */
  datatype WriteOutcome = Written | PullFails | WriteFails

  datatype RemoveOutcome = Removed | RemoveFails

  /** What becomes of the file when the digest map is saved. */
  datatype SaveOutcome = Saved | SaveFails | FileLost

  function AfterSave(file: DigestFile, digests: map<string, string>, save: SaveOutcome): DigestFile {
    match save
    case Saved => Some(digests)
    case SaveFails => file
    case FileLost => None
  }

  /** A delivery on its way: the directory and the digests written so far. */
  datatype Delivery = Delivery(tarballs: Tarballs, updates: map<string, string>)

  predicate Skips(snapshot: map<string, string>, e: Entity) {
    var f := TarballFilename(e);
    f in snapshot && snapshot[f] == e.digest
  }

  function DeliverOne(d: Delivery, snapshot: map<string, string>, e: Entity, outcome: WriteOutcome): Delivery {
    if Skips(snapshot, e) || !outcome.Written? then d
    else
      var f := TarballFilename(e);
      Delivery(d.tarballs[f := e.digest], d.updates[f := e.digest])
  }

  function DeliverAll(tarballs: Tarballs, snapshot: map<string, string>, entities: seq<Entity>,
                      outcomes: seq<WriteOutcome>): Delivery
    requires |outcomes| == |entities|
    decreases |entities|
  {
    if entities == [] then Delivery(tarballs, map[])
    else
      var n := |entities| - 1;
      DeliverOne(DeliverAll(tarballs, snapshot, entities[..n], outcomes[..n]), snapshot, entities[n], outcomes[n])
  }

  /** The filenames that a deletion takes away. */
  function RemovedFiles(entities: seq<Entity>, outcomes: seq<RemoveOutcome>): set<string>
    requires |outcomes| == |entities|
    decreases |entities|
  {
    if entities == [] then {}
    else
      var n := |entities| - 1;
      RemovedFiles(entities[..n], outcomes[..n]) + if outcomes[n].Removed? then {TarballFilename(entities[n])} else {}
  }

  function Min(a: nat, b: nat): nat {
    if a < b then a else b
  }

  datatype Directory = Directory(tarballs: Tarballs, digestFile: DigestFile)

  /** A delivery of which the first `cancelAt` entities are gone through. Nothing is saved when it is cancelled, or
      when it has written nothing. */
  function Delivered(dir: Directory, entities: seq<Entity>, outcomes: seq<WriteOutcome>, cancelAt: nat,
                     save: SaveOutcome): Directory
    requires |outcomes| == |entities|
  {
    var n := Min(cancelAt, |entities|);
    var d := DeliverAll(dir.tarballs, Loaded(dir.digestFile), entities[..n], outcomes[..n]);
    Directory(d.tarballs,
              if n < |entities| || d.updates == map[] then dir.digestFile
              else AfterSave(dir.digestFile, Loaded(dir.digestFile) + d.updates, save))
  }

  function Deleted(dir: Directory, entities: seq<Entity>, outcomes: seq<RemoveOutcome>, cancelAt: nat,
                   save: SaveOutcome): Directory
    requires |outcomes| == |entities|
  {
    var n := Min(cancelAt, |entities|);
    var removed := RemovedFiles(entities[..n], outcomes[..n]);
    Directory(dir.tarballs - removed,
              if n < |entities| || removed == {} then dir.digestFile
              else AfterSave(dir.digestFile, Loaded(dir.digestFile) - removed, save))
  }

  // ---------------------------------------------------------------- the deliverer

  class DirectDeliverer {
    var tarballs: Tarballs
    var digestFile: DigestFile

    ghost function Dir(): Directory
      reads this
    {
      Directory(tarballs, digestFile)
    }

    /** `cancelAt` is the entity before which the context is seen to be cancelled. */
    method Deliver(entities: seq<Entity>, outcomes: seq<WriteOutcome>, cancelAt: nat, save: SaveOutcome)
      requires |outcomes| == |entities|
      modifies this
      ensures Dir() == Delivered(old(Dir()), entities, outcomes, cancelAt, save)
    {
      var currentDigests := Loaded(digestFile);
      var updates: map<string, string> := map[];
      for i := 0 to |entities|
        invariant i <= cancelAt && digestFile == old(digestFile)
        invariant Delivery(tarballs, updates) == DeliverAll(old(tarballs), currentDigests, entities[..i], outcomes[..i])
      {
        if i == cancelAt {
          return;
        }
        assert entities[..i + 1][..i] == entities[..i] && outcomes[..i + 1][..i] == outcomes[..i];
        var filename := TarballFilename(entities[i]);
        if filename in currentDigests && currentDigests[filename] == entities[i].digest {
          continue;
        }
        if outcomes[i].Written? {
          tarballs := tarballs[filename := entities[i].digest];
          updates := updates[filename := entities[i].digest];
        }
      }
      if |updates| == 0 {
        return;
      }
      digestFile := AfterSave(digestFile, Loaded(digestFile) + updates, save);
    }

    method Delete(entities: seq<Entity>, outcomes: seq<RemoveOutcome>, cancelAt: nat, save: SaveOutcome)
      requires |outcomes| == |entities|
      modifies this
      ensures Dir() == Deleted(old(Dir()), entities, outcomes, cancelAt, save)
    {
      var removed: seq<string> := [];
      for i := 0 to |entities|
        invariant i <= cancelAt && digestFile == old(digestFile)
        invariant (set f | f in removed) == RemovedFiles(entities[..i], outcomes[..i])
        invariant tarballs == old(tarballs) - RemovedFiles(entities[..i], outcomes[..i])
      {
        if i == cancelAt {
          return;
        }
        assert entities[..i + 1][..i] == entities[..i] && outcomes[..i + 1][..i] == outcomes[..i];
        if outcomes[i].RemoveFails? {
          continue;
        }
        tarballs := tarballs - {TarballFilename(entities[i])};
        removed := removed + [TarballFilename(entities[i])];
      }
      assert Min(cancelAt, |entities|) == |entities|;
      assert (set f | f in removed) == RemovedFiles(entities[..|entities|], outcomes[..|entities|]);
      if |removed| == 0 {
        return;
      }
      assert removed[0] in RemovedFiles(entities[..|entities|], outcomes[..|entities|]);
      digestFile := AfterSave(digestFile, Loaded(digestFile) - (set f | f in removed), save);
    }
  }

  // ---------------------------------------------------------------- what every call keeps

  /** While a delivery runs, what it wrote is what it will record, and everything else the snapshot
      promises is still there. */
  lemma {:induction false} DeliveryInProgress(tarballs: Tarballs, snapshot: map<string, string>,
                                              entities: seq<Entity>, outcomes: seq<WriteOutcome>)
    requires |outcomes| == |entities| && Agrees(tarballs, snapshot)
    ensures
      var d := DeliverAll(tarballs, snapshot, entities, outcomes);
      && Agrees(d.tarballs, snapshot + d.updates)
      && forall f :: f !in d.updates ==>
           (f in d.tarballs <==> f in tarballs) && (f in tarballs ==> d.tarballs[f] == tarballs[f])
    decreases |entities|
  {
    if entities != [] {
      var n := |entities| - 1;
      DeliveryInProgress(tarballs, snapshot, entities[..n], outcomes[..n]);
    }
  }

  datatype Call =
    | DeliverCall(entities: seq<Entity>, written: seq<WriteOutcome>)
    | DeleteCall(entities: seq<Entity>, removed: seq<RemoveOutcome>)

  predicate WellFormed(call: Call) {
    match call
    case DeliverCall(entities, written) => |written| == |entities|
    case DeleteCall(entities, removed) => |removed| == |entities|
  }

  /** An uncancelled call whose map save succeeds. */
  function Perform(dir: Directory, call: Call): Directory
    requires WellFormed(call)
  {
    match call
    case DeliverCall(entities, written) =>
      var d := DeliverAll(dir.tarballs, Loaded(dir.digestFile), entities, written);
      Directory(d.tarballs, if d.updates == map[] then dir.digestFile else Some(Loaded(dir.digestFile) + d.updates))
    case DeleteCall(entities, removed) =>
      var gone := RemovedFiles(entities, removed);
      Directory(dir.tarballs - gone, if gone == {} then dir.digestFile else Some(Loaded(dir.digestFile) - gone))
  }

  /** A call that is not cancelled and whose save succeeds is `Perform`. A call that is cancelled, or whose save fails,
      does the same to the tarballs it gets to and leaves the map file as it was, or loses it. */
  lemma UncancelledCallIsPerform(dir: Directory, call: Call, cancelAt: nat, save: SaveOutcome)
    requires WellFormed(call)
    ensures
      var done := match call
        case DeliverCall(entities, written) => Delivered(dir, entities, written, cancelAt, save)
        case DeleteCall(entities, removed) => Deleted(dir, entities, removed, cancelAt, save);
      && (cancelAt >= |call.entities| ==> done.tarballs == Perform(dir, call).tarballs)
      && (cancelAt >= |call.entities| && save == Saved ==> done == Perform(dir, call))
      && (cancelAt < |call.entities| || save == SaveFails ==> done.digestFile == dir.digestFile)
      && (save == FileLost ==> done.digestFile == dir.digestFile || done.digestFile == None)
  {
    match call
    case DeliverCall(entities, written) =>
      assert cancelAt >= |entities| ==> entities[..|entities|] == entities && written[..|entities|] == written;
    case DeleteCall(entities, removed) =>
      assert cancelAt >= |entities| ==> entities[..|entities|] == entities && removed[..|entities|] == removed;
  }

  function PerformAll(dir: Directory, calls: seq<Call>): Directory
    requires forall call <- calls :: WellFormed(call)
  {
    if calls == [] then dir
    else
      var last := calls[|calls| - 1];
      assert last in calls;
      Perform(PerformAll(dir, calls[..|calls| - 1]), last)
  }

  /** Over any sequence of deliveries and deletions, whatever pulls, writes and removals fail in them
      and whatever filenames collide, the digest map promises nothing that is not on disk. */
  lemma {:induction false} DigestMapNeverLies(dir: Directory, calls: seq<Call>)
    requires forall call <- calls :: WellFormed(call)
    requires Agrees(dir.tarballs, Loaded(dir.digestFile))
    ensures
      var dir' := PerformAll(dir, calls);
      Agrees(dir'.tarballs, Loaded(dir'.digestFile))
  {
    if calls != [] {
      var init, last := calls[..|calls| - 1], calls[|calls| - 1];
      assert last in calls;
      DigestMapNeverLies(dir, init);
      var before := PerformAll(dir, init);
      if last.DeliverCall? {
        DeliveryInProgress(before.tarballs, Loaded(before.digestFile), last.entities, last.written);
        var d := DeliverAll(before.tarballs, Loaded(before.digestFile), last.entities, last.written);
        assert d.updates == map[] ==> Loaded(before.digestFile) + d.updates == Loaded(before.digestFile);
      }
    }
  }

  /** No write that goes through puts another digest into a file that the map lists. */
  ghost predicate NoListedFileRewritten(snapshot: map<string, string>, entities: seq<Entity>,
                                        outcomes: seq<WriteOutcome>)
    requires |outcomes| == |entities|
  {
    forall i | 0 <= i < |entities| && outcomes[i].Written? ::
      TarballFilename(entities[i]) in snapshot ==> snapshot[TarballFilename(entities[i])] == entities[i].digest
  }

  lemma {:induction false} UpdatesOfListedFiles(tarballs: Tarballs, snapshot: map<string, string>,
                                                entities: seq<Entity>, outcomes: seq<WriteOutcome>)
    requires |outcomes| == |entities| && Agrees(tarballs, snapshot)
    ensures
      var d := DeliverAll(tarballs, snapshot, entities, outcomes);
      && (forall f <- d.updates :: f in snapshot ==> d.updates[f] != snapshot[f])
      && ((forall f <- d.updates :: f !in snapshot) <==> NoListedFileRewritten(snapshot, entities, outcomes))
    decreases |entities|
  {
    if entities != [] {
      var n := |entities| - 1;
      UpdatesOfListedFiles(tarballs, snapshot, entities[..n], outcomes[..n]);
      var before := DeliverAll(tarballs, snapshot, entities[..n], outcomes[..n]);
      var after := DeliverAll(tarballs, snapshot, entities, outcomes);
      var f := TarballFilename(entities[n]);
      if !NoListedFileRewritten(snapshot, entities[..n], outcomes[..n]) {
        var i :| 0 <= i < n && outcomes[..n][i].Written? && TarballFilename(entities[..n][i]) in snapshot
                 && snapshot[TarballFilename(entities[..n][i])] != entities[..n][i].digest;
        assert entities[i] == entities[..n][i] && outcomes[i] == outcomes[..n][i];
        var g :| g in before.updates && g in snapshot;
        assert g in after.updates;
      } else {
        assert forall i | 0 <= i < n :: entities[i] == entities[..n][i] && outcomes[i] == outcomes[..n][i];
        if outcomes[n].Written? && f in snapshot && snapshot[f] != entities[n].digest {
          assert f in after.updates;
        }
      }
    }
  }

  /** A delivery that is cancelled, or whose map save fails, leaves the old map beside the new tarballs.
      The map then still tells the truth exactly when no image was written, under a name that the map
      lists, with another digest. */
  lemma {:induction false} UnrecordedDelivery(tarballs: Tarballs, snapshot: map<string, string>,
                                              entities: seq<Entity>, outcomes: seq<WriteOutcome>)
    requires |outcomes| == |entities| && Agrees(tarballs, snapshot)
    ensures
      Agrees(DeliverAll(tarballs, snapshot, entities, outcomes).tarballs, snapshot) <==>
      NoListedFileRewritten(snapshot, entities, outcomes)
  {
    DeliveryInProgress(tarballs, snapshot, entities, outcomes);
    UpdatesOfListedFiles(tarballs, snapshot, entities, outcomes);
    var d := DeliverAll(tarballs, snapshot, entities, outcomes);
    assert forall f <- d.updates :: f in snapshot + d.updates && d.tarballs[f] == d.updates[f];
  }

  /** A delivery writes exactly the files of the entities whose pull and write go through and that the map does not
      have with their digest. */
  lemma {:induction false} WrittenFileOf(tarballs: Tarballs, snapshot: map<string, string>, entities: seq<Entity>,
                                         outcomes: seq<WriteOutcome>, f: string)
    requires |outcomes| == |entities|
    ensures
      var d := DeliverAll(tarballs, snapshot, entities, outcomes);
      f in d.updates <==>
      exists i :: 0 <= i < |entities| && outcomes[i].Written? && TarballFilename(entities[i]) == f
                  && !(f in snapshot && snapshot[f] == entities[i].digest)
    decreases |entities|
  {
    if entities != [] {
      var n := |entities| - 1;
      WrittenFileOf(tarballs, snapshot, entities[..n], outcomes[..n], f);
      var before := DeliverAll(tarballs, snapshot, entities[..n], outcomes[..n]);
      if f in before.updates {
        var i :| 0 <= i < n && outcomes[..n][i].Written? && TarballFilename(entities[..n][i]) == f
                 && !(f in snapshot && snapshot[f] == entities[..n][i].digest);
        assert outcomes[i].Written? && TarballFilename(entities[i]) == f;
      }
      if i :| 0 <= i < |entities| && outcomes[i].Written? && TarballFilename(entities[i]) == f
              && !(f in snapshot && snapshot[f] == entities[i].digest) {
        if i < n {
          assert outcomes[..n][i].Written? && TarballFilename(entities[..n][i]) == f;
        }
      }
    }
  }

  /** Of several writes to one file the last one stays. */
  lemma {:induction false} LastWriteStays(tarballs: Tarballs, snapshot: map<string, string>, entities: seq<Entity>,
                                          outcomes: seq<WriteOutcome>, i: nat)
    requires |outcomes| == |entities| && i < |entities| && outcomes[i].Written? && !Skips(snapshot, entities[i])
    requires forall j | i < j < |entities| :: TarballFilename(entities[j]) != TarballFilename(entities[i])
    ensures
      var d, f := DeliverAll(tarballs, snapshot, entities, outcomes), TarballFilename(entities[i]);
      && f in d.tarballs && d.tarballs[f] == entities[i].digest
      && f in d.updates && d.updates[f] == entities[i].digest
    decreases |entities|
  {
    var n := |entities| - 1;
    if i < n {
      LastWriteStays(tarballs, snapshot, entities[..n], outcomes[..n], i);
    }
  }

  lemma {:induction false} RemovedFileOf(entities: seq<Entity>, outcomes: seq<RemoveOutcome>, f: string)
    requires |outcomes| == |entities|
    ensures f in RemovedFiles(entities, outcomes) <==>
            exists i :: 0 <= i < |entities| && outcomes[i].Removed? && TarballFilename(entities[i]) == f
    decreases |entities|
  {
    if entities != [] {
      var n := |entities| - 1;
      RemovedFileOf(entities[..n], outcomes[..n], f);
      if f in RemovedFiles(entities[..n], outcomes[..n]) {
        var i :| 0 <= i < n && outcomes[..n][i].Removed? && TarballFilename(entities[..n][i]) == f;
        assert outcomes[i].Removed? && TarballFilename(entities[i]) == f;
      }
      if i :| 0 <= i < |entities| && outcomes[i].Removed? && TarballFilename(entities[i]) == f {
        if i < n {
          assert outcomes[..n][i].Removed? && TarballFilename(entities[..n][i]) == f;
        }
      }
    }
  }

  /** A deletion that is cancelled, or whose map save fails, leaves the old map beside fewer tarballs. The
      map then still tells the truth exactly when it lists none of the removed files. */
  lemma {:induction false} UnrecordedDeletion(tarballs: Tarballs, snapshot: map<string, string>, entities: seq<Entity>,
                           outcomes: seq<RemoveOutcome>)
    requires |outcomes| == |entities| && Agrees(tarballs, snapshot)
    ensures
      Agrees(tarballs - RemovedFiles(entities, outcomes), snapshot) <==>
      forall i | 0 <= i < |entities| && outcomes[i].Removed? :: TarballFilename(entities[i]) !in snapshot
  {
    var removed := RemovedFiles(entities, outcomes);
    if Agrees(tarballs - removed, snapshot) {
      forall i | 0 <= i < |entities| && outcomes[i].Removed?
        ensures TarballFilename(entities[i]) !in snapshot
      {
        RemovedFileOf(entities, outcomes, TarballFilename(entities[i]));
      }
    } else {
      var f :| f in snapshot && f in removed;
      RemovedFileOf(entities, outcomes, f);
    }
  }

  // ---------------------------------------------------------------- the skip check

  /** No two entities of the list that share a filename want different contents in it. */
  ghost predicate NoConflict(entities: seq<Entity>) {
    forall e <- entities, f <- entities | TarballFilename(e) == TarballFilename(f) :: e.digest == f.digest
  }

  ghost predicate AllOnDisk(tarballs: Tarballs, entities: seq<Entity>) {
    forall e <- entities :: TarballFilename(e) in tarballs && tarballs[TarballFilename(e)] == e.digest
  }

  /** A file that all its entities want to have the same content gets that content. */
  lemma {:induction false} UndisputedFile(tarballs: Tarballs, snapshot: map<string, string>,
                                          entities: seq<Entity>, outcomes: seq<WriteOutcome>, f: string, digest: string)
    requires |outcomes| == |entities| && Agrees(tarballs, snapshot)
    requires forall outcome <- outcomes :: outcome.Written?
    requires forall e <- entities | TarballFilename(e) == f :: e.digest == digest
    ensures
      var d := DeliverAll(tarballs, snapshot, entities, outcomes);
      && (f in d.updates ==> d.updates[f] == digest)
      && ((exists e <- entities :: TarballFilename(e) == f) ==> f in d.tarballs && d.tarballs[f] == digest)
    decreases |entities|
  {
    if entities != [] {
      var n := |entities| - 1;
      assert entities == entities[..n] + [entities[n]] && outcomes[n] in outcomes;
      UndisputedFile(tarballs, snapshot, entities[..n], outcomes[..n], f, digest);
      DeliveryInProgress(tarballs, snapshot, entities[..n], outcomes[..n]);
    }
  }

  /** The skip check compares with the map as it was before the call, so it can hide a tarball that
      the same call has overwritten. A delivery without faults leaves every entity's own image on
      disk exactly when no two entities of its list share a filename with different digests. */
  lemma {:induction false} DeliveryIsCompleteIffNoConflict(tarballs: Tarballs, snapshot: map<string, string>,
                                        entities: seq<Entity>, outcomes: seq<WriteOutcome>)
    requires |outcomes| == |entities| && Agrees(tarballs, snapshot)
    requires forall outcome <- outcomes :: outcome.Written?
    ensures AllOnDisk(DeliverAll(tarballs, snapshot, entities, outcomes).tarballs, entities) <==> NoConflict(entities)
  {
    if NoConflict(entities) {
      forall e | e in entities
        ensures
          var d := DeliverAll(tarballs, snapshot, entities, outcomes);
          TarballFilename(e) in d.tarballs && d.tarballs[TarballFilename(e)] == e.digest
      {
        UndisputedFile(tarballs, snapshot, entities, outcomes, TarballFilename(e), e.digest);
      }
    }
  }
}
