/** Deliveries and deletions of several groups on one directory at the same time. Each works through its entities
    on its own and merges what it did into the digest map at the end, under the lock. A group's delivery begins
    when its deletion is done. */
module DeliveryRaces {
  import opened Wrappers
  import opened Changes
  import opened DirectDelivery

  /** A delivery of a group can come after the group's deletion, which is named by its number. */
  datatype Task = Delivering(entities: seq<Entity>, after: Option<nat>) | Deleting(entities: seq<Entity>)

  /** The number of the deletion that has to be done first, if there is one. */
  function Before(task: Task): Option<nat> {
    if task.Delivering? then task.after else None
  }

  predicate WellOrdered(tasks: seq<Task>) {
    forall i | 0 <= i < |tasks| ::
      Before(tasks[i]).Some? ==> Before(tasks[i]).value < i && tasks[Before(tasks[i]).value].Deleting?
  }

  /** Neither of the two tasks has to wait for the other. */
  predicate CanOverlap(tasks: seq<Task>, i: nat, j: nat)
    requires i < |tasks| && j < |tasks|
  {
    i != j && Before(tasks[i]) != Some(j) && Before(tasks[j]) != Some(i)
  }

  /** A call under way: `snapshot` is the map it loaded when it began, `next` the entity it has got to. */
  datatype Worker = Worker(
    task: Task, snapshot: Option<map<string, string>>, next: nat,
    updates: map<string, string>, removed: set<string>, merged: bool)

  datatype World = World(tarballs: Tarballs, digests: map<string, string>, workers: seq<Worker>)

  /** `ok`: the pull and the write, or the removal, succeeds. */
  datatype Step = Begin(worker: nat) | Handle(worker: nat, ok: bool) | Merge(worker: nat)

  function Start(tarballs: Tarballs, digests: map<string, string>, tasks: seq<Task>): World {
    World(tarballs, digests,
          seq(|tasks|, i requires 0 <= i < |tasks| => Worker(tasks[i], None, 0, map[], {}, false)))
  }

  predicate CanBegin(w: World, p: Worker) {
    && p.snapshot.None?
    && (Before(p.task).Some? ==> Before(p.task).value < |w.workers| && w.workers[Before(p.task).value].merged)
  }

  predicate CanHandle(p: Worker) {
    p.snapshot.Some? && p.next < |p.task.entities|
  }

  /** The next entity of a call. */
  function Handled(tarballs: Tarballs, p: Worker, ok: bool): (Tarballs, Worker)
    requires CanHandle(p)
  {
    var e, q := p.task.entities[p.next], p.(next := p.next + 1);
    var f := TarballFilename(e);
    if !ok || (p.task.Delivering? && Skips(p.snapshot.value, e)) then (tarballs, q)
    else if p.task.Delivering? then (tarballs[f := e.digest], q.(updates := q.updates[f := e.digest]))
    else (tarballs - {f}, q.(removed := q.removed + {f}))
  }

  function Next(w: World, step: Step): World {
    if step.worker >= |w.workers| then w
    else
      var i, p := step.worker, w.workers[step.worker];
      match step
      case Begin(_) =>
        if CanBegin(w, p) then w.(workers := w.workers[i := p.(snapshot := Some(w.digests))]) else w
      case Handle(_, ok) =>
        if CanHandle(p) then
          var (tarballs, q) := Handled(w.tarballs, p, ok);
          World(tarballs, w.digests, w.workers[i := q])
        else
          w
      case Merge(_) =>
        if p.snapshot.Some? && p.next >= |p.task.entities| && !p.merged then
          w.(digests := (w.digests + p.updates) - p.removed, workers := w.workers[i := p.(merged := true)])
        else
          w
  }

  function Run(w: World, steps: seq<Step>): World {
    if steps == [] then w else Next(Run(w, steps[..|steps| - 1]), steps[|steps| - 1])
  }

  predicate AllDone(w: World) {
    forall i | 0 <= i < |w.workers| :: w.workers[i].merged
  }

  // ---------------------------------------------------------------- calls that do not race

  /** Two calls that can overlap deliver different images under one name, or one delivers and the other deletes
      under one name. */
  ghost predicate Race(tasks: seq<Task>, i: nat, j: nat, e: Entity, f: Entity) {
    && i < |tasks| && j < |tasks| && CanOverlap(tasks, i, j)
    && e in tasks[i].entities && f in tasks[j].entities && TarballFilename(e) == TarballFilename(f)
    && tasks[i].Delivering? && !(tasks[j].Delivering? && e.digest == f.digest)
  }

  ghost predicate NoRace(tasks: seq<Task>) {
    forall i, j, e, f :: !Race(tasks, i, j, e, f)
  }

  /** What a call has written and removed comes from its entities, and it merges when it is through them. */
  ghost predicate Genuine(p: Worker) {
    && (p.merged ==> p.next >= |p.task.entities|)
    && (p.snapshot.None? ==> p.updates == map[] && p.removed == {} && !p.merged)
    && (forall f <- p.updates ::
          p.task.Delivering? && exists e <- p.task.entities :: TarballFilename(e) == f && e.digest == p.updates[f])
    && (forall f <- p.removed :: p.task.Deleting? && exists e <- p.task.entities :: TarballFilename(e) == f)
  }

  ghost predicate AllGenuine(w: World, tasks: seq<Task>) {
    && |w.workers| == |tasks|
    && (forall i | 0 <= i < |tasks| :: w.workers[i].task == tasks[i] && Genuine(w.workers[i]))
    && forall i | 0 <= i < |tasks| && w.workers[i].snapshot.Some? && Before(tasks[i]).Some? ::
         Before(tasks[i]).value < |tasks| && w.workers[Before(tasks[i]).value].merged
  }

  predicate Concerns(p: Worker, f: string) {
    !p.merged && (f in p.updates || f in p.removed)
  }

  /** The file is as the map says, unless a call has still to merge something about it; and what a call has
      still to merge is on disk. */
  ghost predicate Truthful(w: World, f: string) {
    && (forall i | 0 <= i < |w.workers| && !w.workers[i].merged && f in w.workers[i].updates ::
          f in w.tarballs && w.tarballs[f] == w.workers[i].updates[f])
    && (f in w.digests && (forall i | 0 <= i < |w.workers| :: !Concerns(w.workers[i], f)) ==>
          f in w.tarballs && w.tarballs[f] == w.digests[f])
  }

  lemma NextKeepsGenuine(w: World, tasks: seq<Task>, step: Step)
    requires AllGenuine(w, tasks)
    ensures AllGenuine(Next(w, step), tasks)
  {
    assert forall i | 0 <= i < |w.workers| :: w.workers[i].merged ==> Next(w, step).workers[i].merged;
    if step.Handle? && step.worker < |tasks| && CanHandle(w.workers[step.worker]) {
      var p := w.workers[step.worker];
      assert p.task.entities[p.next] in p.task.entities;
      assert Genuine(Handled(w.tarballs, p, step.ok).1);
    }
  }

  /** Other calls have nothing to merge about a file that a call handles, except the same image. */
  lemma OthersWriteTheSame(w: World, tasks: seq<Task>, i: nat, j: nat)
    requires NoRace(tasks) && AllGenuine(w, tasks) && i < |tasks| && j < |tasks| && j != i
    requires CanHandle(w.workers[i]) && !w.workers[j].merged
    requires TarballFilename(w.workers[i].task.entities[w.workers[i].next]) in w.workers[j].updates
    ensures
      var e := w.workers[i].task.entities[w.workers[i].next];
      tasks[i].Delivering? && w.workers[j].updates[TarballFilename(e)] == e.digest
  {
    var e, updates := w.workers[i].task.entities[w.workers[i].next], w.workers[j].updates;
    var f := TarballFilename(e);
    var x :| x in tasks[j].entities && TarballFilename(x) == f && x.digest == updates[f];
    assert e in tasks[i].entities && CanOverlap(tasks, i, j);
    assert !Race(tasks, i, j, e, x) && !Race(tasks, j, i, x, e);
  }

  lemma WritingIsTruthful(w: World, tasks: seq<Task>, i: nat, ok: bool, f: string)
    requires NoRace(tasks) && AllGenuine(w, tasks) && Truthful(w, f)
    requires i < |tasks| && CanHandle(w.workers[i])
    ensures Truthful(Next(w, Handle(i, ok)), f)
  {
    var p, w' := w.workers[i], Next(w, Handle(i, ok));
    var e := p.task.entities[p.next];
    forall j | 0 <= j < |w'.workers| && !w'.workers[j].merged && f in w'.workers[j].updates
      ensures f in w'.tarballs && w'.tarballs[f] == w'.workers[j].updates[f]
    {
      if j != i {
        assert w'.workers[j] == w.workers[j];
        if TarballFilename(e) == f {
          OthersWriteTheSame(w, tasks, i, j);
        }
      }
    }
    if forall j | 0 <= j < |w'.workers| :: !Concerns(w'.workers[j], f) {
      assert !Concerns(w'.workers[i], f);
      forall j | 0 <= j < |w.workers|
        ensures !Concerns(w.workers[j], f)
      {
        assert !Concerns(w'.workers[j], f);
      }
    }
  }

  lemma MergingIsTruthful(w: World, tasks: seq<Task>, i: nat, f: string)
    requires NoRace(tasks) && AllGenuine(w, tasks) && Truthful(w, f) && i < |tasks|
    ensures Truthful(Next(w, Merge(i)), f)
  {
    var p, w' := w.workers[i], Next(w, Merge(i));
    if w' != w {
      assert forall j | 0 <= j < |w.workers| && j != i :: w'.workers[j] == w.workers[j];
      if forall j | 0 <= j < |w'.workers| :: !Concerns(w'.workers[j], f) {
        if f in p.updates {
          assert f !in p.removed;
        } else if f !in p.removed {
          assert forall j | 0 <= j < |w.workers| :: !Concerns(w.workers[j], f);
        }
      }
    }
  }

  lemma NextIsTruthful(w: World, tasks: seq<Task>, step: Step, f: string)
    requires NoRace(tasks) && AllGenuine(w, tasks) && Truthful(w, f)
    ensures Truthful(Next(w, step), f)
  {
    var i := step.worker;
    if i < |tasks| {
      match step
      case Begin(_) =>
        var w' := Next(w, step);
        assert forall j | 0 <= j < |w.workers| :: Concerns(w'.workers[j], f) == Concerns(w.workers[j], f);
        assert forall j | 0 <= j < |w.workers| ::
            w'.workers[j].merged == w.workers[j].merged && w'.workers[j].updates == w.workers[j].updates;
      case Handle(_, ok) =>
        if CanHandle(w.workers[i]) {
          WritingIsTruthful(w, tasks, i, ok, f);
        }
      case Merge(_) => MergingIsTruthful(w, tasks, i, f);
    }
  }

  lemma {:induction false} RunIsTruthful(tarballs: Tarballs, digests: map<string, string>, tasks: seq<Task>,
                                         steps: seq<Step>, f: string)
    requires NoRace(tasks) && Agrees(tarballs, digests)
    ensures
      var w := Run(Start(tarballs, digests, tasks), steps);
      AllGenuine(w, tasks) && Truthful(w, f)
  {
    if steps != [] {
      var init, last := steps[..|steps| - 1], steps[|steps| - 1];
      RunIsTruthful(tarballs, digests, tasks, init, f);
      NextKeepsGenuine(Run(Start(tarballs, digests, tasks), init), tasks, last);
      NextIsTruthful(Run(Start(tarballs, digests, tasks), init), tasks, last, f);
    }
  }

  lemma {:induction false} WithoutRacesTheMapIsTrue(tarballs: Tarballs, digests: map<string, string>,
                                                    tasks: seq<Task>, steps: seq<Step>)
    requires NoRace(tasks) && Agrees(tarballs, digests)
    requires AllDone(Run(Start(tarballs, digests, tasks), steps))
    ensures
      var w := Run(Start(tarballs, digests, tasks), steps);
      Agrees(w.tarballs, w.digests)
  {
    var w := Run(Start(tarballs, digests, tasks), steps);
    forall f | f in w.digests
      ensures f in w.tarballs && w.tarballs[f] == w.digests[f]
    {
      RunIsTruthful(tarballs, digests, tasks, steps, f);
    }
  }

  // ---------------------------------------------------------------- calls that race

  lemma {:induction false} RunOn(w: World, first: seq<Step>, more: seq<Step>)
    ensures Run(w, first + more) == Run(Run(w, first), more)
  {
    if more == [] {
      assert first + more == first;
    } else {
      var init := more[..|more| - 1];
      assert (first + more)[..|first + more| - 1] == first + init;
      RunOn(w, first, init);
    }
  }

  lemma RunOne(w: World, steps: seq<Step>, step: Step)
    ensures Run(w, steps + [step]) == Next(Run(w, steps), step)
  {
    assert (steps + [step])[..|steps|] == steps;
  }

  /** What a call has done that has worked through its first `n` entities, of which only number `k` succeeded. */
  function Worked(tarballs: Tarballs, p: Worker, n: nat, k: nat): (Tarballs, Worker)
    requires n <= |p.task.entities|
  {
    var q := p.(next := n);
    if k >= n then (tarballs, q)
    else
      var e := p.task.entities[k];
      var f := TarballFilename(e);
      if p.task.Delivering? then (tarballs[f := e.digest], q.(updates := map[f := e.digest]))
      else (tarballs - {f}, q.(removed := {f}))
  }

  /** A call that has begun with an empty map and has done nothing yet. */
  predicate Fresh(p: Worker) {
    p.snapshot == Some(map[]) && p.next == 0 && p.updates == map[] && p.removed == {} && !p.merged
  }

  lemma HandledIsWorked(tarballs: Tarballs, p: Worker, n: nat, k: nat)
    requires Fresh(p) && n < |p.task.entities|
    ensures
      var (t, q) := Worked(tarballs, p, n, k);
      CanHandle(q) && Handled(t, q, n == k) == Worked(tarballs, p, n + 1, k)
  {
    var f := TarballFilename(p.task.entities[n]);
    assert p.updates[f := p.task.entities[n].digest] == map[f := p.task.entities[n].digest];
    assert p.removed + {f} == {f};
  }

  /** The world then: the other calls are as they were. */
  function AfterWorking(w: World, i: nat, n: nat, k: nat): World
    requires i < |w.workers| && n <= |w.workers[i].task.entities|
  {
    var (t, q) := Worked(w.tarballs, w.workers[i], n, k);
    World(t, w.digests, w.workers[i := q])
  }

  lemma OneMoreWorked(w: World, i: nat, n: nat, k: nat)
    requires i < |w.workers| && Fresh(w.workers[i]) && n < |w.workers[i].task.entities|
    ensures Next(AfterWorking(w, i, n, k), Handle(i, n == k)) == AfterWorking(w, i, n + 1, k)
  {
    var (t, q) := Worked(w.tarballs, w.workers[i], n, k);
    HandledIsWorked(w.tarballs, w.workers[i], n, k);
    HandleStep(w, i, t, q, n == k);
  }

  lemma NothingWorked(w: World, i: nat, k: nat)
    requires i < |w.workers| && Fresh(w.workers[i])
    ensures AfterWorking(w, i, 0, k) == w
  {
    assert w.workers[i].(next := 0) == w.workers[i];
    assert w.workers[i := w.workers[i]] == w.workers;
  }

  lemma {:induction false} Work(w: World, i: nat, n: nat, k: nat) returns (steps: seq<Step>)
    requires i < |w.workers| && Fresh(w.workers[i]) && n <= |w.workers[i].task.entities|
    ensures Run(w, steps) == AfterWorking(w, i, n, k)
  {
    if n == 0 {
      NothingWorked(w, i, k);
      return [];
    }
    var init := Work(w, i, n - 1, k);
    OneMoreWorked(w, i, n - 1, k);
    RunOne(w, init, Handle(i, n - 1 == k));
    return init + [Handle(i, n - 1 == k)];
  }

  lemma HandleStep(w: World, i: nat, tarballs: Tarballs, q: Worker, ok: bool)
    requires i < |w.workers| && CanHandle(q)
    ensures
      var (t, r) := Handled(tarballs, q, ok);
      Next(World(tarballs, w.digests, w.workers[i := q]), Handle(i, ok)) == World(t, w.digests, w.workers[i := r])
  {
    assert w.workers[i := q][i := Handled(tarballs, q, ok).1] == w.workers[i := Handled(tarballs, q, ok).1];
  }

  /** A call that has not begun comes to its end without doing anything: all that it tries fails. */
  lemma FinishIdly(w: World, i: nat) returns (steps: seq<Step>)
    requires i < |w.workers|
    requires w.workers[i] == Worker(w.workers[i].task, None, 0, map[], {}, false) && CanBegin(w, w.workers[i])
    ensures
      var w' := Run(w, steps);
      && w'.tarballs == w.tarballs && w'.digests == w.digests
      && |w'.workers| == |w.workers|
      && w'.workers == w.workers[i := w'.workers[i]]
      && w'.workers[i].merged && w'.workers[i].task == w.workers[i].task
  {
    var n := |w.workers[i].task.entities|;
    steps := [] + [Begin(i)];
    RunOne(w, [], Begin(i));
    var w1 := Run(w, steps);
    var more := Idling(w1, i, n);
    RunOn(w, steps, more);
    steps := steps + more;
    RunOne(w, steps, Merge(i));
    steps := steps + [Merge(i)];
  }

  lemma {:induction false} Idling(w: World, i: nat, n: nat) returns (steps: seq<Step>)
    requires i < |w.workers| && n <= |w.workers[i].task.entities|
    requires w.workers[i].snapshot.Some? && w.workers[i].next == 0
    ensures Run(w, steps) == w.(workers := w.workers[i := w.workers[i].(next := n)])
  {
    if n == 0 {
      assert w.workers[i := w.workers[i].(next := 0)] == w.workers;
      return [];
    }
    var init := Idling(w, i, n - 1);
    RunOne(w, init, Handle(i, false));
    steps := init + [Handle(i, false)];
    var p := w.workers[i];
    assert w.workers[i := p.(next := n - 1)][i := p.(next := n)] == w.workers[i := p.(next := n)];
  }

  predicate Untouched(p: Worker) {
    p == Worker(p.task, None, 0, map[], {}, false)
  }

  predicate UntouchedOrDone(w: World, tasks: seq<Task>) {
    && |w.workers| == |tasks|
    && forall h | 0 <= h < |tasks| ::
         w.workers[h].task == tasks[h] && (Untouched(w.workers[h]) || w.workers[h].merged)
  }

  /** All calls below `n` that have not begun, but two, come to their end without doing anything; a call that has
      to wait for one of the two stays where it is. */
  lemma {:induction false} FinishOthers(w: World, tasks: seq<Task>, n: nat, i: nat, j: nat) returns (steps: seq<Step>)
    requires n <= |w.workers| == |tasks| && WellOrdered(tasks)
    requires UntouchedOrDone(w, tasks)
    ensures
      var w' := Run(w, steps);
      && w'.tarballs == w.tarballs && w'.digests == w.digests && |w'.workers| == |w.workers|
      && (forall h | 0 <= h < n && h != i && h != j && Ready(w, tasks, h, i, j) :: w'.workers[h].merged)
      && (forall h | 0 <= h < |tasks| && (h >= n || h == i || h == j || w.workers[h].merged) ::
            w'.workers[h] == w.workers[h])
      && UntouchedOrDone(w', tasks)
  {
    if n == 0 {
      return [];
    }
    steps := FinishOthers(w, tasks, n - 1, i, j);
    var w1 := Run(w, steps);
    var h := n - 1;
    if h != i && h != j && Ready(w, tasks, h, i, j) && !w1.workers[h].merged {
      var more := FinishIdly(w1, h);
      RunOn(w, steps, more);
      steps := steps + more;
    }
  }

  /** It waits for none, or for one that is done or comes before it and is not one of the two. */
  predicate Ready(w: World, tasks: seq<Task>, h: nat, i: nat, j: nat)
    requires h < |tasks| == |w.workers|
  {
    Before(tasks[h]).Some? ==>
      var b := Before(tasks[h]).value;
      b < |tasks| && (w.workers[b].merged || (b != i && b != j))
  }

  /** Two calls that have begun with an empty map, in an empty directory: each handles one entity, the first one
      first, and then the second one merges first. */
  lemma TwoWork(w: World, i: nat, j: nat, k: nat, l: nat) returns (steps: seq<Step>)
    requires i < |w.workers| && j < |w.workers| && i != j && Fresh(w.workers[i]) && Fresh(w.workers[j])
    requires k < |w.workers[i].task.entities| && l < |w.workers[j].task.entities|
    ensures
      var p, q, w' := w.workers[i], w.workers[j], Run(w, steps);
      var (t1, p1) := Worked(w.tarballs, p, |p.task.entities|, k);
      var (t2, q1) := Worked(t1, q, |q.task.entities|, l);
      && w'.tarballs == t2
      && w'.digests == (((w.digests + q1.updates) - q1.removed) + p1.updates) - p1.removed
      && |w'.workers| == |w.workers|
      && w'.workers[i].merged && w'.workers[i].task == p.task
      && w'.workers[j].merged && w'.workers[j].task == q.task
      && forall h | 0 <= h < |w.workers| && h != i && h != j :: w'.workers[h] == w.workers[h]
  {
    var p, q := w.workers[i], w.workers[j];
    var first := Work(w, i, |p.task.entities|, k);
    var second := Work(Run(w, first), j, |q.task.entities|, l);
    RunOn(w, first, second);
    RunOne(w, first + second, Merge(j));
    RunOne(w, first + second + [Merge(j)], Merge(i));
    return first + second + [Merge(j)] + [Merge(i)];
  }

  /** Everything but two calls, and what has to wait for them, is done, and the two have begun. */
  lemma BeginBoth(tasks: seq<Task>, i: nat, j: nat) returns (steps: seq<Step>)
    requires WellOrdered(tasks) && i < |tasks| && j < |tasks| && CanOverlap(tasks, i, j)
    ensures
      var w := Run(Start(map[], map[], tasks), steps);
      && w.tarballs == map[] && w.digests == map[] && |w.workers| == |tasks|
      && (forall h | 0 <= h < |tasks| :: w.workers[h].task == tasks[h])
      && Fresh(w.workers[i]) && Fresh(w.workers[j])
      && forall h | 0 <= h < |tasks| && h != i && h != j :: Untouched(w.workers[h]) || w.workers[h].merged
  {
    var start := Start(map[], map[], tasks);
    var first := FinishOthers(start, tasks, |tasks|, i, j);
    var w := Run(start, first);
    forall h | h == i || h == j
      ensures CanBegin(w, w.workers[h])
    {
      if Before(tasks[h]).Some? {
        assert Ready(start, tasks, Before(tasks[h]).value, i, j);
      }
    }
    RunOne(start, first, Begin(i));
    RunOne(start, first + [Begin(i)], Begin(j));
    return first + [Begin(i)] + [Begin(j)];
  }

  /** Two calls that race: there is a run, from an empty directory, after which the map lists a file that is
      gone or holds another image. */
  lemma {:induction false} RaceMakesTheMapUntrue(tasks: seq<Task>, i: nat, j: nat, e: Entity,
                                                 f: Entity) returns (steps: seq<Step>)
    requires WellOrdered(tasks) && Race(tasks, i, j, e, f)
    ensures
      var w := Run(Start(map[], map[], tasks), steps);
      AllDone(w) && !Agrees(w.tarballs, w.digests)
  {
    var k :| 0 <= k < |tasks[i].entities| && tasks[i].entities[k] == e;
    var l :| 0 <= l < |tasks[j].entities| && tasks[j].entities[l] == f;
    var start := Start(map[], map[], tasks);
    var begun := BeginBoth(tasks, i, j);
    var work := TwoWork(Run(start, begun), i, j, k, l);
    var w := Run(Run(start, begun), work);
    var rest := FinishOthers(w, tasks, |tasks|, i, j);
    RunOn(start, begun, work);
    RunOn(start, begun + work, rest);
    steps := begun + work + rest;
    assert forall h | 0 <= h < |tasks| :: Ready(w, tasks, h, i, j);
    assert TarballFilename(e) in w.digests && w.digests[TarballFilename(e)] == e.digest;
  }

  /** The map is true whenever all calls are done, wherever they began. */
  ghost predicate EndsTrue(tarballs: Tarballs, digests: map<string, string>, tasks: seq<Task>, steps: seq<Step>) {
    var w := Run(Start(tarballs, digests, tasks), steps);
    Agrees(tarballs, digests) && AllDone(w) ==> Agrees(w.tarballs, w.digests)
  }

  ghost predicate MapStaysTrue(tasks: seq<Task>) {
    forall tarballs, digests, steps :: EndsTrue(tarballs, digests, tasks, steps)
  }

  /** Exactly: in every interleaving of the calls, whatever fails, the map is true in the end just when no two of
      them that can overlap deliver different images, or deliver and delete, under one name. */
  lemma {:induction false} MapStaysTrueIffNoRace(tasks: seq<Task>)
    requires WellOrdered(tasks)
    ensures MapStaysTrue(tasks) <==> NoRace(tasks)
  {
    if NoRace(tasks) {
      forall tarballs, digests, steps
        ensures EndsTrue(tarballs, digests, tasks, steps)
      {
        if Agrees(tarballs, digests) && AllDone(Run(Start(tarballs, digests, tasks), steps)) {
          WithoutRacesTheMapIsTrue(tarballs, digests, tasks, steps);
        }
      }
    } else {
      var i: nat, j: nat, e, f :| Race(tasks, i, j, e, f);
      var steps := RaceMakesTheMapUntrue(tasks, i, j, e, f);
      assert Agrees(map[], map[]) && !EndsTrue(map[], map[], tasks, steps);
    }
  }

  // ---------------------------------------------------------------- a call alone

  /** The call is that of the worker, with any outcomes. */
  predicate IsCall(task: Task, call: Call) {
    && WellFormed(call) && call.entities == task.entities
    && (call.DeliverCall? <==> task.Delivering?)
  }

  predicate Succeeds(call: Call, k: nat)
    requires WellFormed(call) && k < |call.entities|
  {
    match call
    case DeliverCall(_, written) => written[k].Written?
    case DeleteCall(_, removed) => removed[k].Removed?
  }

  /** The world when the call has got through its first `n` entities, alone. */
  function AfterSome(w: World, i: nat, call: Call, n: nat): World
    requires i < |w.workers| && WellFormed(call) && n <= |call.entities|
  {
    var p := w.workers[i].(snapshot := Some(w.digests), next := n);
    match call
    case DeliverCall(entities, written) =>
      var d := DeliverAll(w.tarballs, w.digests, entities[..n], written[..n]);
      World(d.tarballs, w.digests, w.workers[i := p.(updates := d.updates)])
    case DeleteCall(entities, removed) =>
      var gone := RemovedFiles(entities[..n], removed[..n]);
      World(w.tarballs - gone, w.digests, w.workers[i := p.(removed := gone)])
  }

  lemma OneMoreAlone(w: World, i: nat, call: Call, n: nat)
    requires i < |w.workers| && Untouched(w.workers[i]) && IsCall(w.workers[i].task, call) && n < |call.entities|
    ensures Next(AfterSome(w, i, call, n), Handle(i, Succeeds(call, n))) == AfterSome(w, i, call, n + 1)
  {
    var w1 := AfterSome(w, i, call, n);
    HandleStep(w, i, w1.tarballs, w1.workers[i], Succeeds(call, n));
    match call
    case DeliverCall(entities, written) =>
      assert entities[..n + 1][..n] == entities[..n] && written[..n + 1][..n] == written[..n];
    case DeleteCall(entities, removed) =>
      assert entities[..n + 1][..n] == entities[..n] && removed[..n + 1][..n] == removed[..n];
      var gone, f := RemovedFiles(entities[..n], removed[..n]), TarballFilename(entities[n]);
      assert w.tarballs - gone - {f} == w.tarballs - (gone + {f});
      assert gone + {} == gone;
  }

  lemma {:induction false} SomeAlone(w: World, i: nat, call: Call, n: nat) returns (steps: seq<Step>)
    requires i < |w.workers| && Untouched(w.workers[i]) && CanBegin(w, w.workers[i])
    requires IsCall(w.workers[i].task, call) && n <= |call.entities|
    ensures (forall step <- steps :: step.worker == i) && Run(w, steps) == AfterSome(w, i, call, n)
  {
    if n == 0 {
      RunOne(w, [], Begin(i));
      steps := [] + [Begin(i)];
      assert Run(w, []) == w;
    } else {
      steps := SomeAlone(w, i, call, n - 1);
      OneMoreAlone(w, i, call, n - 1);
      RunOne(w, steps, Handle(i, Succeeds(call, n - 1)));
      steps := steps + [Handle(i, Succeeds(call, n - 1))];
    }
  }

  /** A call that nothing interrupts does to directory and map what the call in one piece does. */
  lemma {:induction false} AloneIsPerform(w: World, i: nat, call: Call) returns (steps: seq<Step>)
    requires i < |w.workers| && Untouched(w.workers[i]) && CanBegin(w, w.workers[i])
    requires IsCall(w.workers[i].task, call)
    ensures forall step <- steps :: step.worker == i
    ensures
      var w' := Run(w, steps);
      && Directory(w'.tarballs, Some(w'.digests)) == Perform(Directory(w.tarballs, Some(w.digests)), call)
      && |w'.workers| == |w.workers| && w'.workers[i].merged
      && forall j | 0 <= j < |w.workers| && j != i :: w'.workers[j] == w.workers[j]
  {
    var n := |call.entities|;
    steps := SomeAlone(w, i, call, n);
    RunOne(w, steps, Merge(i));
    steps := steps + [Merge(i)];
    MergedIsPerform(w, i, call);
  }

  lemma MergedIsPerform(w: World, i: nat, call: Call)
    requires i < |w.workers| && Untouched(w.workers[i]) && IsCall(w.workers[i].task, call)
    ensures
      var w' := Next(AfterSome(w, i, call, |call.entities|), Merge(i));
      && Directory(w'.tarballs, Some(w'.digests)) == Perform(Directory(w.tarballs, Some(w.digests)), call)
      && |w'.workers| == |w.workers| && w'.workers[i].merged
      && forall j | 0 <= j < |w.workers| && j != i :: w'.workers[j] == w.workers[j]
  {
    var n := |call.entities|;
    assert call.entities[..n] == call.entities;
    match call
    case DeliverCall(_, written) =>
      assert written[..n] == written;
      var updates := DeliverAll(w.tarballs, w.digests, call.entities, written).updates;
      assert (w.digests + updates) - {} == w.digests + updates && w.digests + map[] == w.digests;
    case DeleteCall(_, removed) =>
      assert removed[..n] == removed;
      assert (w.digests + map[]) - {} == w.digests == w.digests + map[];
  }
}
