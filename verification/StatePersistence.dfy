/** The satellite's record of what it holds: the group list in memory, the state file on disk, and
    the saves that keep the two together. */
module StatePersistence {
  import opened Wrappers
  import opened Changes

  /** A group as the process keeps it. `state` is the last fetched state; it is not saved. */
  datatype StateMap = StateMap(url: string, state: Option<seq<Artifact>>, entities: Option<seq<Entity>>)

  datatype PersistedGroup = PersistedGroup(url: string, entities: Option<seq<Entity>>)

  datatype Persisted = Persisted(configDigest: string, groups: seq<PersistedGroup>)

  function PersistedOf(stateMap: seq<StateMap>, configDigest: string): Persisted {
    Persisted(configDigest,
              seq(|stateMap|, i requires 0 <= i < |stateMap| => PersistedGroup(stateMap[i].url, stateMap[i].entities)))
  }

  // ---------------------------------------------------------------- files

  /** A file holds a whole state, or something that cannot be decoded. */
  datatype Content = Whole(state: Persisted) | Torn

  /** A directory. `history` remembers every state the directory has been in, as a crash at any
      moment would leave it. */
  class Disk {
    var files: map<string, Content>
    ghost var history: seq<map<string, Content>>

    constructor (files: map<string, Content>)
      ensures this.files == files && history == [files]
    {
      this.files := files;
      history := [files];
    }

    method Write(path: string, content: Content)
      modifies this
      ensures files == old(files)[path := content] && history == old(history) + [files]
    {
      files := files[path := content];
      history := history + [files];
    }

    method Rename(from: string, to: string)
      requires from in files
      modifies this
      ensures files == (old(files) - {from})[to := old(files)[from]] && history == old(history) + [files]
    {
      files := (files - {from})[to := files[from]];
      history := history + [files];
    }

    method Remove(path: string)
      modifies this
      ensures files == old(files) - {path} && history == old(history) + [files]
    {
      files := files - {path};
      history := history + [files];
    }
  }

  function At(files: map<string, Content>, path: string): Option<Content> {
    if path in files then Some(files[path]) else None
  }

  /** Where a save goes wrong, if it does. */
  datatype Fault = NoFault | CreateFails | WriteFails | SyncFails | CloseFails | RenameFails

  /** Writes the state to a new temporary file and renames it over the target. The deferred cleanup
      runs on every path: after a successful rename it tries to remove a file that is gone. A process
      that dies at any moment of this leaves a file that loads as the state before or the one saved. */
  method SaveState(disk: Disk, path: string, stateMap: seq<StateMap>, configDigest: string, tmp: string, fault: Fault)
      returns (ok: bool)
    requires tmp !in disk.files && tmp != path
    modifies disk
    ensures ok <==> fault == NoFault
    ensures disk.files == if ok then old(disk.files)[path := Whole(PersistedOf(stateMap, configDigest))]
                          else old(disk.files)
    ensures old(disk.history) <= disk.history
    ensures forall i | |old(disk.history)| <= i < |disk.history| ::
              At(disk.history[i], path) in {At(old(disk.files), path), Some(Whole(PersistedOf(stateMap, configDigest)))}
    ensures forall i | |old(disk.history)| <= i < |disk.history| ::
              Loaded(At(disk.history[i], path)) in
                {Loaded(At(old(disk.files), path)), Success(Some(PersistedOf(stateMap, configDigest)))}
  {
    var groups: seq<PersistedGroup> := [];
    for i := 0 to |stateMap|
      invariant groups == PersistedOf(stateMap, configDigest).groups[..i]
    {
      groups := groups + [PersistedGroup(stateMap[i].url, stateMap[i].entities)];
    }
    assert groups == PersistedOf(stateMap, configDigest).groups;
    var persisted := Persisted(configDigest, groups);

    if fault == CreateFails {
      return false;
    }
    disk.Write(tmp, Torn);
    if fault != WriteFails {
      disk.Write(tmp, Whole(persisted));
    }
    ok := false;
    if fault !in {WriteFails, SyncFails, CloseFails, RenameFails} {
      disk.Rename(tmp, path);
      ok := true;
    }
    disk.Remove(tmp);
    assert fault == NoFault ==> disk.files == old(disk.files)[path := Whole(persisted)];
    assert fault != NoFault ==> disk.files == old(disk.files);
  }

  method LoadState(disk: Disk, path: string) returns (r: Result<Option<Persisted>, ()>)
    ensures r == Loaded(At(disk.files, path))
  {
    if path !in disk.files {
      return Success(None);
    }
    match disk.files[path] {
      case Torn => return Failure(());
      case Whole(state) => return Success(Some(state));
    }
  }

  /** What reading the state file gives. */
  function Loaded(content: Option<Content>): Result<Option<Persisted>, ()> {
    match content
    case None => Success(None)
    case Some(Torn) => Failure(())
    case Some(Whole(state)) => Success(Some(state))
  }

  // ---------------------------------------------------------------- the group list

  function Urls(stateMap: seq<StateMap>): set<string> {
    set sm | sm in stateMap :: sm.url
  }

  /** The groups whose URL is still listed, in order. */
  function Kept(stateMap: seq<StateMap>, states: seq<string>): seq<StateMap> {
    if stateMap == [] then []
    else
      var init, last := stateMap[..|stateMap| - 1], stateMap[|stateMap| - 1];
      if last.url in states then Kept(init, states) + [last] else Kept(init, states)
  }

  /** The listed URLs that no group has yet, in order, as groups that hold nothing. */
  function Added(stateMap: seq<StateMap>, states: seq<string>): seq<StateMap> {
    if states == [] then []
    else
      var init, last := states[..|states| - 1], states[|states| - 1];
      if last in Urls(stateMap) then Added(stateMap, init) else Added(stateMap, init) + [StateMap(last, None, None)]
  }

  function Updated(stateMap: seq<StateMap>, states: seq<string>): seq<StateMap> {
    Kept(stateMap, states) + Added(stateMap, states)
  }

  predicate ListChanges(stateMap: seq<StateMap>, states: seq<string>) {
    |Added(stateMap, states)| > 0 || |Kept(stateMap, states)| < |stateMap|
  }

  lemma {:induction false} KeptGroups(stateMap: seq<StateMap>, states: seq<string>)
    ensures |Kept(stateMap, states)| <= |stateMap|
    ensures |Kept(stateMap, states)| == |stateMap| ==> Kept(stateMap, states) == stateMap
    ensures forall sm :: sm in Kept(stateMap, states) <==> sm in stateMap && sm.url in states
  {
    if stateMap != [] {
      var init, last := stateMap[..|stateMap| - 1], stateMap[|stateMap| - 1];
      assert stateMap == init + [last];
      KeptGroups(init, states);
    }
  }

  lemma {:induction false} AddedGroups(stateMap: seq<StateMap>, states: seq<string>)
    ensures forall sm :: sm in Added(stateMap, states)
                <==> sm.url in states && sm.url !in Urls(stateMap) && sm == StateMap(sm.url, None, None)
  {
    if states != [] {
      var init, last := states[..|states| - 1], states[|states| - 1];
      assert states == init + [last];
      AddedGroups(stateMap, init);
    }
  }

  /** After an update the groups are exactly the listed URLs; the update reports a change exactly
      when that is not what they were before, and otherwise leaves the list as it is. */
  lemma UpdateFollowsTheList(stateMap: seq<StateMap>, states: seq<string>)
    ensures Urls(Updated(stateMap, states)) == set url | url in states
    ensures ListChanges(stateMap, states) <==> Urls(stateMap) != set url | url in states
    ensures !ListChanges(stateMap, states) ==> Updated(stateMap, states) == stateMap
  {
    KeptGroups(stateMap, states);
    AddedGroups(stateMap, states);
    var listed := set url | url in states;
    forall url
      ensures url in Urls(Updated(stateMap, states)) <==> url in listed
    {
      if url in listed && url !in Urls(stateMap) {
        assert StateMap(url, None, None) in Updated(stateMap, states);
      }
    }
    if |Added(stateMap, states)| > 0 {
      assert Added(stateMap, states)[0] in Added(stateMap, states);
    }
    if |Kept(stateMap, states)| < |stateMap| && Urls(stateMap) == listed {
      assert forall sm <- stateMap :: sm.url in Urls(stateMap);
      EveryGroupKept(stateMap, states);
    }
    if Urls(stateMap) != listed && Kept(stateMap, states) == stateMap {
      assert forall sm <- stateMap :: sm in Kept(stateMap, states);
      var url :| url in listed && url !in Urls(stateMap);
      assert StateMap(url, None, None) in Added(stateMap, states);
    }
  }

  /** Old groups stay in their order, and new ones come behind them in the order of the list. */
  lemma {:induction false} UpdateKeepsTheOrder(a: seq<StateMap>, b: seq<StateMap>, first: seq<string>,
                                               second: seq<string>, stateMap: seq<StateMap>, states: seq<string>)
    ensures Kept(a + b, states) == Kept(a, states) + Kept(b, states)
    ensures Added(stateMap, first + second) == Added(stateMap, first) + Added(stateMap, second)
    decreases |b| + |second|
  {
    if b != [] {
      assert (a + b)[..|a + b| - 1] == a + b[..|b| - 1];
      UpdateKeepsTheOrder(a, b[..|b| - 1], first, second, stateMap, states);
    } else if second != [] {
      assert a + b == a && (first + second)[..|first + second| - 1] == first + second[..|second| - 1];
      UpdateKeepsTheOrder(a, b, first, second[..|second| - 1], stateMap, states);
    } else {
      assert a + b == a && first + second == first;
    }
  }

  lemma {:induction false} EveryGroupKept(stateMap: seq<StateMap>, states: seq<string>)
    requires forall sm <- stateMap :: sm.url in states
    ensures Kept(stateMap, states) == stateMap
  {
    if stateMap != [] {
      assert stateMap == stateMap[..|stateMap| - 1] + [stateMap[|stateMap| - 1]];
      EveryGroupKept(stateMap[..|stateMap| - 1], states);
    }
  }

  // ---------------------------------------------------------------- URLs that are listed twice

  /** How many groups have the URL. */
  function GroupsOf(stateMap: seq<StateMap>, url: string): nat {
    if stateMap == [] then 0
    else
      GroupsOf(stateMap[..|stateMap| - 1], url) + if stateMap[|stateMap| - 1].url == url then 1 else 0
  }

  /** How often the URL is listed. */
  function TimesListed(states: seq<string>, url: string): nat {
    if states == [] then 0
    else TimesListed(states[..|states| - 1], url) + if states[|states| - 1] == url then 1 else 0
  }

  lemma {:induction false} GroupsOfBoth(a: seq<StateMap>, b: seq<StateMap>, url: string)
    ensures GroupsOf(a + b, url) == GroupsOf(a, url) + GroupsOf(b, url)
  {
    if b == [] {
      assert a + b == a;
    } else {
      assert (a + b)[..|a + b| - 1] == a + b[..|b| - 1];
      GroupsOfBoth(a, b[..|b| - 1], url);
    }
  }

  lemma {:induction false} GroupsKept(stateMap: seq<StateMap>, states: seq<string>, url: string)
    ensures GroupsOf(Kept(stateMap, states), url) == if url in states then GroupsOf(stateMap, url) else 0
  {
    if stateMap != [] {
      var init, last := stateMap[..|stateMap| - 1], stateMap[|stateMap| - 1];
      GroupsKept(init, states, url);
      GroupsOfBoth(Kept(init, states), [last], url);
      assert GroupsOf([last], url) == GroupsOf([last][..0], url) + if last.url == url then 1 else 0;
    }
  }

  lemma {:induction false} GroupsAdded(stateMap: seq<StateMap>, states: seq<string>, url: string)
    ensures GroupsOf(Added(stateMap, states), url) == if url in Urls(stateMap) then 0 else TimesListed(states, url)
  {
    if states != [] {
      var init, last := states[..|states| - 1], states[|states| - 1];
      GroupsAdded(stateMap, init, url);
      var added := [StateMap(last, None, None)];
      GroupsOfBoth(Added(stateMap, init), added, url);
      assert GroupsOf(added, url) == GroupsOf(added[..0], url) + if last == url then 1 else 0;
    }
  }

  lemma {:induction false} NotListedNever(states: seq<string>, url: string)
    ensures url in states <==> TimesListed(states, url) > 0
  {
    if states != [] {
      assert states == states[..|states| - 1] + [states[|states| - 1]];
      NotListedNever(states[..|states| - 1], url);
    }
  }

  /** How many groups a URL has after an update: as many as before, if it is listed and had any; as many as the
      times it is listed, if it had none. */
  lemma GroupsAfterUpdate(stateMap: seq<StateMap>, states: seq<string>, url: string)
    ensures GroupsOf(Updated(stateMap, states), url) ==
            if url !in states then 0
            else if url in Urls(stateMap) then GroupsOf(stateMap, url) else TimesListed(states, url)
  {
    GroupsOfBoth(Kept(stateMap, states), Added(stateMap, states), url);
    GroupsKept(stateMap, states, url);
    GroupsAdded(stateMap, states, url);
    NotListedNever(states, url);
    NoGroupsNoUrl(stateMap, url);
  }

  lemma {:induction false} NoGroupsNoUrl(stateMap: seq<StateMap>, url: string)
    ensures url in Urls(stateMap) <==> GroupsOf(stateMap, url) > 0
  {
    if stateMap != [] {
      var init, last := stateMap[..|stateMap| - 1], stateMap[|stateMap| - 1];
      assert stateMap == init + [last];
      NoGroupsNoUrl(init, url);
    }
  }

  /** No URL has two groups. */
  ghost predicate OneGroupEach(stateMap: seq<StateMap>) {
    forall url :: GroupsOf(stateMap, url) <= 1
  }

  /** A list without repetitions of new URLs, and only such a list, keeps every URL to one group. */
  lemma OneGroupEachIff(stateMap: seq<StateMap>, states: seq<string>)
    requires OneGroupEach(stateMap)
    ensures
      OneGroupEach(Updated(stateMap, states)) <==>
      forall url | url !in Urls(stateMap) :: TimesListed(states, url) <= 1
  {
    forall url
      ensures GroupsOf(Updated(stateMap, states), url) <= 1 <==>
              (url !in Urls(stateMap) ==> TimesListed(states, url) <= 1)
    {
      GroupsAfterUpdate(stateMap, states, url);
      NotListedNever(states, url);
    }
  }

  /** A URL with two groups keeps them as long as it is listed, however often, and no change is reported for it;
      it is down to one group only after a list without it. */
  lemma TwoGroupsStay(stateMap: seq<StateMap>, states: seq<string>, again: seq<string>, url: string)
    requires url !in Urls(stateMap) && url in states && url in again
    ensures GroupsOf(Updated(Updated(stateMap, states), again), url) == TimesListed(states, url)
    ensures !ListChanges(Updated(stateMap, states), states)
  {
    UpdateFollowsTheList(stateMap, states);
    UpdateFollowsTheList(Updated(stateMap, states), states);
    GroupsAfterUpdate(stateMap, states, url);
    GroupsAfterUpdate(Updated(stateMap, states), again, url);
  }

  // ---------------------------------------------------------------- the process

  /** What the process has in memory. */
  datatype Memory = Memory(stateMap: seq<StateMap>, configDigest: string) {

    function Saved(): Persisted {
      PersistedOf(stateMap, configDigest)
    }
  }

  function StateMapsOf(groups: seq<PersistedGroup>): seq<StateMap> {
    seq(|groups|, i requires 0 <= i < |groups| => StateMap(groups[i].url, None, groups[i].entities))
  }

  /** The memory of a process that starts from the given state file; a file that cannot be read
      starts it fresh. */
  function Rebuilt(file: Option<Content>): Memory {
    match Loaded(file)
    case Success(Some(state)) => Memory(StateMapsOf(state.groups), state.configDigest)
    case _ => Memory([], "")
  }

  class FetchAndReplicateStateProcess {
    var stateMap: seq<StateMap>
    var currentConfigDigest: string
    const stateFilePath: string
    const disk: Disk

    ghost function InMemory(): Memory
      reads this
    {
      Memory(stateMap, currentConfigDigest)
    }

    ghost function StateFile(): Option<Content>
      reads this, disk
    {
      At(disk.files, stateFilePath)
    }

    constructor (stateFilePath: string, disk: Disk)
      ensures this.stateFilePath == stateFilePath && this.disk == disk
      ensures InMemory() == Rebuilt(At(disk.files, stateFilePath))
    {
      this.stateFilePath := stateFilePath;
      this.disk := disk;
      stateMap := [];
      currentConfigDigest := "";
      new;
      var loaded := LoadState(disk, stateFilePath);
      if loaded.Success? && loaded.value.Some? {
        var persisted := loaded.value.value;
        currentConfigDigest := persisted.configDigest;
        for i := 0 to |persisted.groups|
          invariant stateMap == StateMapsOf(persisted.groups)[..i]
          invariant currentConfigDigest == persisted.configDigest
        {
          stateMap := stateMap + [StateMap(persisted.groups[i].url, None, persisted.groups[i].entities)];
        }
        assert stateMap == StateMapsOf(persisted.groups);
      }
    }

    method UpdateStateMap(states: seq<string>) returns (changed: bool)
      modifies this`stateMap
      ensures stateMap == Updated(old(stateMap), states)
      ensures changed == ListChanges(old(stateMap), states)
    {
      var newStates: seq<StateMap> := [];
      for i := 0 to |states|
        invariant newStates == Added(stateMap, states[..i])
        invariant stateMap == old(stateMap)
      {
        assert states[..i + 1][..i] == states[..i];
        var found := false;
        for j := 0 to |stateMap|
          invariant !found ==> forall k | 0 <= k < j :: stateMap[k].url != states[i]
          invariant found ==> states[i] in Urls(stateMap)
        {
          if stateMap[j].url == states[i] {
            assert stateMap[j] in stateMap;
            found := true;
            break;
          }
        }
        if !found {
          newStates := newStates + [StateMap(states[i], None, None)];
        }
      }
      assert states[..|states|] == states;

      var updatedStateMap: seq<StateMap> := [];
      var removed := 0;
      for i := 0 to |stateMap|
        invariant stateMap == old(stateMap)
        invariant updatedStateMap == Kept(stateMap[..i], states)
        invariant removed == i - |updatedStateMap|
      {
        assert stateMap[..i + 1][..i] == stateMap[..i];
        if stateMap[i].url in states {
          updatedStateMap := updatedStateMap + [stateMap[i]];
        } else {
          removed := removed + 1;
        }
      }
      assert stateMap[..|stateMap|] == stateMap;
      KeptGroups(stateMap, states);
      stateMap := updatedStateMap + newStates;
      return |newStates| > 0 || removed > 0;
    }

    /** The end of a group's goroutine, under the lock. */
    method CommitGroup(index: nat, newState: seq<Artifact>, tmp: string, fault: Fault)
      requires index < |stateMap|
      requires tmp !in disk.files && tmp != stateFilePath
      modifies this`stateMap, disk
      ensures InMemory() == Committed(old(InMemory()), index, newState)
      ensures StateFile() == if fault == NoFault then Some(Whole(InMemory().Saved())) else old(StateFile())
    {
      var entities := AllEntities(newState);
      stateMap := stateMap[index := stateMap[index].(state := Some(newState), entities := Some(entities))];
      var _ := SaveState(disk, stateFilePath, stateMap, currentConfigDigest, tmp, fault);
    }

    /** The end of the config goroutine, under the lock. */
    method CommitConfig(configDigest: string, tmp: string, fault: Fault)
      requires tmp !in disk.files && tmp != stateFilePath
      modifies this`currentConfigDigest, disk
      ensures InMemory() == old(InMemory()).(configDigest := configDigest)
      ensures StateFile() == if fault == NoFault then Some(Whole(InMemory().Saved())) else old(StateFile())
    {
      currentConfigDigest := configDigest;
      var _ := SaveState(disk, stateFilePath, stateMap, currentConfigDigest, tmp, fault);
    }

    method PersistState(tmp: string, fault: Fault) returns (ok: bool)
      requires tmp !in disk.files && tmp != stateFilePath
      modifies disk
      ensures ok <==> fault == NoFault
      ensures StateFile() == if ok then Some(Whole(InMemory().Saved())) else old(StateFile())
    {
      ok := SaveState(disk, stateFilePath, stateMap, currentConfigDigest, tmp, fault);
    }
  }

  function Committed(m: Memory, index: nat, newState: seq<Artifact>): Memory
    requires index < |m.stateMap|
  {
    var entities := AllEntities(newState);
    m.(stateMap := m.stateMap[index := m.stateMap[index].(state := Some(newState), entities := Some(entities))])
  }

  // ---------------------------------------------------------------- runs

  /** The process and its file between any two steps. A changed group list is saved in a step of its
      own, which `listPending` announces. `inUse` says that the file has been saved, or loaded, at
      least once. */
  datatype World = World(memory: Memory, file: Option<Content>, listPending: bool, inUse: bool)

  /** How a save goes: it succeeds, it fails and the process goes on, or the process dies in the middle of
      it, with the new file in place or not yet. After its death the process starts again. */
  datatype SaveOutcome = Saved | SaveFails | Dies(landed: bool)

  datatype Step =
    | UpdateList(states: seq<string>)
    | SaveList(save: SaveOutcome)
    | CommitStep(index: nat, newState: seq<Artifact>, save: SaveOutcome)
    | ConfigStep(configDigest: string, save: SaveOutcome)
    | PersistStep(save: SaveOutcome)
    | Restart

  function Save(w: World, save: SaveOutcome): World {
    match save
    case Saved => w.(file := Some(Whole(w.memory.Saved())), listPending := false, inUse := true)
    case SaveFails => w
    case Dies(landed) => Boot(if landed then Some(Whole(w.memory.Saved())) else w.file)
  }

  function Next(w: World, step: Step): World {
    match step
    case UpdateList(states) =>
      w.(memory := w.memory.(stateMap := Updated(w.memory.stateMap, states)),
         listPending := w.listPending || ListChanges(w.memory.stateMap, states))
    case SaveList(save) => if w.listPending then Save(w, save) else w
    case CommitStep(index, newState, save) =>
      if index < |w.memory.stateMap| then Save(w.(memory := Committed(w.memory, index, newState)), save) else w
    case ConfigStep(configDigest, save) => Save(w.(memory := w.memory.(configDigest := configDigest)), save)
    case PersistStep(save) => Save(w, save)
    case Restart => Boot(w.file)
  }

  function Boot(file: Option<Content>): World {
    World(Rebuilt(file), file, false, file.Some? && file.value.Whole?)
  }

  function Run(file: Option<Content>, steps: seq<Step>): World {
    if steps == [] then Boot(file) else Next(Run(file, steps[..|steps| - 1]), steps[|steps| - 1])
  }

  /** No save of the step fails and is gone over. */
  predicate NoFailedSave(step: Step) {
    match step
    case UpdateList(_) => true
    case SaveList(save) => save != SaveFails
    case CommitStep(_, _, save) => save != SaveFails
    case ConfigStep(_, save) => save != SaveFails
    case PersistStep(save) => save != SaveFails
    case Restart => true
  }

  predicate InSync(w: World) {
    w.file == Some(Whole(w.memory.Saved()))
  }

  /** Rebuilding a process from what it saved gives back everything but the fetched states; from nothing, or from what
      cannot be read, it gives an empty process. */
  lemma RebuildingKeepsWhatIsSaved(m: Memory)
    ensures Loaded(None) == Success(None) && Loaded(Some(Torn)).Failure?
    ensures Rebuilt(None) == Rebuilt(Some(Torn)) == Memory([], "")
    ensures Rebuilt(Some(Whole(m.Saved()))).Saved() == m.Saved()
    ensures |Rebuilt(Some(Whole(m.Saved()))).stateMap| == |m.stateMap|
    ensures forall i | 0 <= i < |m.stateMap| ::
              var sm := Rebuilt(Some(Whole(m.Saved()))).stateMap[i];
              sm.url == m.stateMap[i].url && sm.entities == m.stateMap[i].entities
  {
    var r := Rebuilt(Some(Whole(m.Saved())));
    assert PersistedOf(r.stateMap, r.configDigest).groups == m.Saved().groups;
  }

  /** A process that has just started is in sync with a file that it could read. */
  lemma BootIsInSync(file: Option<Content>)
    requires file.Some? && file.value.Whole?
    ensures InSync(Boot(file))
  {
    var state := file.value.state;
    assert PersistedOf(StateMapsOf(state.groups), state.configDigest).groups == state.groups;
  }

  lemma SaveKeepsSync(w: World, save: SaveOutcome)
    requires save != SaveFails
    ensures Save(w, save).inUse && !Save(w, save).listPending ==> InSync(Save(w, save))
  {
    if save.Dies? {
      var file := if save.landed then Some(Whole(w.memory.Saved())) else w.file;
      if file.Some? && file.value.Whole? {
        BootIsInSync(file);
      }
    }
  }

  /** In every reachable state, once the file is in use and no change of the group list waits for its
      save, the file holds exactly what is in memory, provided that no save fails; the process may
      restart at any time and die in the middle of any save. */
  lemma {:induction false} FileFollowsMemory(file: Option<Content>, steps: seq<Step>)
    requires forall step <- steps :: NoFailedSave(step)
    ensures
      var w := Run(file, steps);
      w.inUse && !w.listPending ==> InSync(w)
  {
    if steps == [] {
      if file.Some? && file.value.Whole? {
        BootIsInSync(file);
      }
    } else {
      var init, step := steps[..|steps| - 1], steps[|steps| - 1];
      assert step in steps && forall earlier <- init :: earlier in steps;
      FileFollowsMemory(file, init);
      var w := Run(file, init);
      match step {
        case UpdateList(states) => UpdateFollowsTheList(w.memory.stateMap, states);
        case Restart =>
          if w.file.Some? && w.file.value.Whole? {
            BootIsInSync(w.file);
          }
        case SaveList(save) => SaveKeepsSync(w, save);
        case CommitStep(index, newState, save) =>
          if index < |w.memory.stateMap| {
            SaveKeepsSync(w.(memory := Committed(w.memory, index, newState)), save);
          }
        case ConfigStep(configDigest, save) =>
          SaveKeepsSync(w.(memory := w.memory.(configDigest := configDigest)), save);
        case PersistStep(save) => SaveKeepsSync(w, save);
      }
    }
  }

  function WithSave(step: Step, save: SaveOutcome): Step {
    match step
    case SaveList(_) => SaveList(save)
    case CommitStep(index, newState, _) => CommitStep(index, newState, save)
    case ConfigStep(configDigest, _) => ConfigStep(configDigest, save)
    case PersistStep(_) => PersistStep(save)
    case _ => step
  }

  /** The step saves, and the new file comes into place. */
  predicate Lands(w: World, step: Step) {
    match step
    case SaveList(save) => w.listPending && InPlace(save)
    case CommitStep(index, _, save) => index < |w.memory.stateMap| && InPlace(save)
    case ConfigStep(_, save) => InPlace(save)
    case PersistStep(save) => InPlace(save)
    case _ => false
  }

  predicate InPlace(save: SaveOutcome) {
    save == Saved || save == Dies(true)
  }

  /** What the step saves, if it lands. */
  function SavedBy(w: World, step: Step): Persisted {
    Next(w, WithSave(step, Saved)).memory.Saved()
  }

  /** A commit gives one group exactly the entities of the fetched state; a config step changes the digest alone; the
      other saving steps save what there is. Whether the save succeeds makes no difference to the memory. */
  lemma WhatAStepSaves(w: World, step: Step)
    requires Lands(w, step)
    ensures
      var saved, before := SavedBy(w, step), w.memory.Saved();
      && (step.ConfigStep? ==> saved == Persisted(step.configDigest, before.groups))
      && (step.SaveList? || step.PersistStep? ==> saved == before)
      && (step.CommitStep? ==>
            && saved.configDigest == before.configDigest && |saved.groups| == |before.groups|
            && saved.groups[step.index].url == before.groups[step.index].url
            && saved.groups[step.index].entities == Some(AllEntities(step.newState))
            && forall i | 0 <= i < |before.groups| && i != step.index :: saved.groups[i] == before.groups[i])
    ensures Next(w, WithSave(step, SaveFails)).memory == Next(w, WithSave(step, Saved)).memory
  {}

  lemma LandingSaves(w: World, step: Step)
    requires Lands(w, step)
    ensures Next(w, step).file == Some(Whole(SavedBy(w, step)))
    ensures Rebuilt(Next(w, step).file).Saved() == SavedBy(w, step)
  {
    RebuildingKeepsWhatIsSaved(Next(w, WithSave(step, Saved)).memory);
  }

  lemma NotLandingChangesNothing(w: World, step: Step)
    requires !Lands(w, step)
    ensures Next(w, step).file == w.file
  {}

  /** Step `k - 1` of the run is the last whose save lands; with `k` zero, none does. */
  ghost predicate LastLanded(file: Option<Content>, steps: seq<Step>, k: nat) {
    && k <= |steps|
    && (k > 0 ==> Lands(Run(file, steps[..k - 1]), steps[k - 1]))
    && forall j | k <= j < |steps| :: !Lands(Run(file, steps[..j]), steps[j])
  }

  /** The file that the save of step `k - 1` has left. */
  function FileOf(file: Option<Content>, steps: seq<Step>, k: nat): Option<Content>
    requires k <= |steps|
  {
    if k == 0 then file else Some(Whole(SavedBy(Run(file, steps[..k - 1]), steps[k - 1])))
  }

  lemma LastLandedOfMore(file: Option<Content>, init: seq<Step>, last: Step, k: nat)
    requires LastLanded(file, init, k) && !Lands(Run(file, init), last)
    ensures LastLanded(file, init + [last], k) && FileOf(file, init + [last], k) == FileOf(file, init, k)
  {
    var steps := init + [last];
    assert forall j | 0 <= j <= |init| :: init[..j] == steps[..j];
    assert init[..|init|] == init;
  }

  lemma OneMoreStep(file: Option<Content>, init: seq<Step>, last: Step)
    ensures Run(file, init + [last]) == Next(Run(file, init), last)
    ensures Lands(Run(file, init), last) ==> LastLanded(file, init + [last], |init| + 1)
    ensures FileOf(file, init + [last], |init| + 1) == Some(Whole(SavedBy(Run(file, init), last)))
  {
    assert (init + [last])[..|init|] == init;
  }

  /** In every run, with saves failing and the process dying and restarting at will: the file is what the last
      save that landed has made of it, or, if none has, what it was at the start. A process that restarts goes on
      with exactly that. */
  lemma {:induction false} FileIsLastLandedSave(file: Option<Content>, steps: seq<Step>) returns (k: nat)
    ensures LastLanded(file, steps, k) && Run(file, steps).file == FileOf(file, steps, k)
  {
    if steps == [] {
      return 0;
    }
    var init, last := steps[..|steps| - 1], steps[|steps| - 1];
    assert steps == init + [last];
    OneMoreStep(file, init, last);
    if Lands(Run(file, init), last) {
      k := |steps|;
      LandingSaves(Run(file, init), last);
    } else {
      k := FileIsLastLandedSave(file, init);
      NotLandingChangesNothing(Run(file, init), last);
      LastLandedOfMore(file, init, last, k);
    }
  }

  lemma {:induction false} RestartGoesOnWithTheLastLandedSave(file: Option<Content>, steps: seq<Step>) returns (k: nat)
    ensures LastLanded(file, steps, k)
    ensures
      Next(Run(file, steps), Restart).memory.Saved() ==
      if k > 0 then SavedBy(Run(file, steps[..k - 1]), steps[k - 1]) else Rebuilt(file).Saved()
  {
    k := FileIsLastLandedSave(file, steps);
    if k > 0 {
      LandingSaves(Run(file, steps[..k - 1]), steps[k - 1]);
    }
  }

  /** Dying in the middle of a step loses that step or nothing: a process in sync that dies while it saves
      comes back with what it would have saved after the step, if the new file was in place, and with
      what it had before the step otherwise. */
  lemma DyingLosesAtMostTheStep(w: World, step: Step, landed: bool)
    requires InSync(w) && !w.listPending
    requires step.CommitStep? ==> step.index < |w.memory.stateMap|
    requires step.CommitStep? || step.ConfigStep? || step.PersistStep?
    ensures
      var died := Next(w, WithSave(step, Dies(landed)));
      && InSync(died)
      && died.memory.Saved() == if landed then Next(w, WithSave(step, Saved)).memory.Saved() else w.memory.Saved()
  {
    var memory := Next(w, WithSave(step, Saved)).memory;
    RebuildingKeepsWhatIsSaved(memory);
    RebuildingKeepsWhatIsSaved(w.memory);
    BootIsInSync(Some(Whole(memory.Saved())));
    BootIsInSync(w.file);
  }

  // ---------------------------------------------------------------- a restarted process

  /** The same groups with the same entities; the fetched states may differ. */
  predicate SameGroups(a: seq<StateMap>, b: seq<StateMap>) {
    && |a| == |b|
    && forall i | 0 <= i < |a| :: a[i].url == b[i].url && a[i].entities == b[i].entities
  }

  lemma {:induction false} KeptIsTheSame(a: seq<StateMap>, b: seq<StateMap>, states: seq<string>)
    requires SameGroups(a, b)
    ensures SameGroups(Kept(a, states), Kept(b, states))
  {
    if a != [] {
      KeptIsTheSame(a[..|a| - 1], b[..|b| - 1], states);
    }
  }

  lemma {:induction false} AddedIsTheSame(a: seq<StateMap>, b: seq<StateMap>, states: seq<string>)
    requires Urls(a) == Urls(b)
    ensures Added(a, states) == Added(b, states)
  {
    if states != [] {
      AddedIsTheSame(a, b, states[..|states| - 1]);
    }
  }

  lemma SameUrls(a: seq<StateMap>, b: seq<StateMap>)
    requires SameGroups(a, b)
    ensures Urls(a) == Urls(b)
  {
    forall url
      ensures url in Urls(a) <==> url in Urls(b)
    {
      if url in Urls(a) {
        var sm :| sm in a && sm.url == url;
        var i :| 0 <= i < |a| && a[i] == sm;
        assert b[i] in b;
      }
      if url in Urls(b) {
        var sm :| sm in b && sm.url == url;
        var i :| 0 <= i < |b| && b[i] == sm;
        assert a[i] in a;
      }
    }
  }

  lemma UpdatedIsTheSame(a: seq<StateMap>, b: seq<StateMap>, states: seq<string>)
    requires SameGroups(a, b)
    ensures SameGroups(Updated(a, states), Updated(b, states)) && (ListChanges(a, states) <==> ListChanges(b, states))
  {
    KeptIsTheSame(a, b, states);
    SameUrls(a, b);
    AddedIsTheSame(a, b, states);
  }

  /** A process restarted from a file in sync goes on as the old one would: it has the same groups with the
      same entities and the same config digest, the next group list reports the same change and leads to
      the same saved state, and for every group the same work lists are possible. */
  lemma RestartChangesNothing(w: World, states: seq<string>, i: nat, newEntities: seq<Entity>,
                              toDelete: seq<Entity>, toReplicate: seq<Entity>)
    requires InSync(w) && i < |Updated(w.memory.stateMap, states)|
    ensures
      var r, m := Next(w, Restart).memory, w.memory;
      && SameGroups(r.stateMap, m.stateMap) && r.configDigest == m.configDigest && Next(w, Restart).file == w.file
      && (ListChanges(r.stateMap, states) <==> ListChanges(m.stateMap, states))
      && PersistedOf(Updated(r.stateMap, states), r.configDigest)
         == PersistedOf(Updated(m.stateMap, states), m.configDigest)
      && |Updated(r.stateMap, states)| == |Updated(m.stateMap, states)|
      && (IsChanges(OldEntities(Updated(r.stateMap, states)[i].entities), newEntities, toDelete, toReplicate)
          <==> IsChanges(OldEntities(Updated(m.stateMap, states)[i].entities), newEntities, toDelete, toReplicate))
  {
    RebuildingKeepsWhatIsSaved(w.memory);
    var r := Next(w, Restart).memory;
    UpdatedIsTheSame(r.stateMap, w.memory.stateMap, states);
    assert PersistedOf(Updated(r.stateMap, states), r.configDigest).groups
        == PersistedOf(Updated(w.memory.stateMap, states), w.memory.configDigest).groups;
  }
}
