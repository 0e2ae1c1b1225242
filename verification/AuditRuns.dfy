/** The audit logger under concurrency: any number of `Reconfigure` and `Log` calls, interleaved in any
    way. A `Reconfigure` call builds its transports outside the lock, swaps them in under the lock, and
    closes the old ones outside it again. A `Log` call takes its list under the lock and sends outside. */
module AuditRuns {
  import opened Wrappers
  import opened AuditLogging

  /** Where a `Reconfigure` call has got to. `held` are the transports that only it knows. */
  datatype Phase = BuildSyslog | BuildOTel | CheckAny | Swap | Abandon | CloseOld | Finished(failed: bool)

  datatype Call = Call(cfg: AuditConfig, phase: Phase, held: seq<Transport>)

  /** A `Log` call: the list it took and how far down that list it has sent its event. `generation` is
      the number of swaps made before it took the list. */
  datatype LogCall = LogCall(generation: nat, transports: seq<Transport>, sent: nat)

  datatype Sent = Sent(logCall: nat, transport: Transport)

  /** The logger and the calls that change it. `generations` is every list that was ever live, in order. */
  datatype Ledger = Ledger(
    allOpened: seq<Transport>, closed: seq<Transport>, live: seq<Transport>, enabled: bool,
    generations: seq<seq<Transport>>, calls: seq<Call>)

  datatype World = World(ledger: Ledger, logs: seq<LogCall>, sent: seq<Sent>)

  datatype Step =
    | CallReconfigure(cfg: AuditConfig)
    | Reconfigure(call: nat, ok: bool) // `ok`: a destination that is opened in this step can be reached
    | CallLog
    | Send(log: nat)

  function Initial(): World {
    World(Ledger([], [], [], false, [[]], []), [], [])
  }

  function With(w: Ledger, i: nat, c: Call): Ledger
    requires i < |w.calls|
  {
    w.(calls := w.calls[i := c])
  }

  function OpenFor(w: Ledger, i: nat, destination: Destination, phase: Phase): Ledger
    requires i < |w.calls|
  {
    var t, c := Transport(|w.allOpened|, destination), w.calls[i];
    w.(calls := w.calls[i := Call(c.cfg, phase, c.held + [t])], allOpened := w.allOpened + [t])
  }

  function CloseFirst(w: Ledger, i: nat): Ledger
    requires i < |w.calls| && w.calls[i].held != []
  {
    var c := w.calls[i];
    w.(calls := w.calls[i := c.(held := c.held[1..])], closed := w.closed + [c.held[0]])
  }

  function SwapIn(w: Ledger, i: nat): Ledger
    requires i < |w.calls|
  {
    var c := w.calls[i];
    w.(live := c.held, enabled := |c.held| > 0, generations := w.generations + [c.held],
       calls := w.calls[i := Call(c.cfg, CloseOld, w.live)])
  }

  /** The phase after this one, when the step does nothing else. */
  function NextPhase(c: Call, ok: bool): Phase {
    match c.phase
    case BuildSyslog => if !c.cfg.enabled then Swap else if !c.cfg.syslogEnabled then BuildOTel else Finished(true)
    case BuildOTel => if !c.cfg.otelEnabled then CheckAny else Abandon
    case CheckAny => if c.held == [] then Finished(true) else Swap
    case Abandon => Finished(true)
    case CloseOld => Finished(false)
    case _ => c.phase
  }

  /** The next step of a `Reconfigure` call. */
  function Progress(w: Ledger, i: nat, ok: bool): Ledger
    requires i < |w.calls|
  {
    var c := w.calls[i];
    if c.phase.BuildSyslog? && c.cfg.enabled && c.cfg.syslogEnabled && ok then
      OpenFor(w, i, Syslog(c.cfg.syslog), BuildOTel)
    else if c.phase.BuildOTel? && c.cfg.otelEnabled && ok then
      OpenFor(w, i, OTel(c.cfg.endpoint), CheckAny)
    else if c.phase.Swap? then
      SwapIn(w, i)
    else if (c.phase.Abandon? || c.phase.CloseOld?) && c.held != [] then
      CloseFirst(w, i)
    else
      With(w, i, c.(phase := NextPhase(c, ok)))
  }

  function Next(w: World, step: Step): World
    requires w.ledger.generations != []
  {
    var l := w.ledger;
    match step
    case CallReconfigure(cfg) => w.(ledger := l.(calls := l.calls + [Call(cfg, BuildSyslog, [])]))
    case Reconfigure(i, ok) => if i < |l.calls| then w.(ledger := Progress(l, i, ok)) else w
    case CallLog => w.(logs := w.logs + [LogCall(|l.generations| - 1, if l.enabled then l.live else [], 0)])
    case Send(k) =>
      if k < |w.logs| && w.logs[k].sent < |w.logs[k].transports| then
        var log := w.logs[k];
        w.(logs := w.logs[k := log.(sent := log.sent + 1)], sent := w.sent + [Sent(k, log.transports[log.sent])])
      else
        w
  }

  function Run(steps: seq<Step>): (w: World)
    ensures w.ledger.generations != []
  {
    if steps == [] then Initial() else Next(Run(steps[..|steps| - 1]), steps[|steps| - 1])
  }

  // ---------------------------------------------------------------- transports

  /** How many times a transport occurs in what the calls hold. */
  function Held(calls: seq<Call>, t: Transport): nat {
    if calls == [] then 0 else Held(calls[..|calls| - 1], t) + multiset(calls[|calls| - 1].held)[t]
  }

  lemma {:induction false} HeldAfterChange(calls: seq<Call>, i: nat, c: Call, t: Transport)
    requires i < |calls|
    ensures Held(calls[i := c], t) + multiset(calls[i].held)[t] == Held(calls, t) + multiset(c.held)[t]
  {
    var last := |calls| - 1;
    if i < last {
      assert calls[i := c][..last] == calls[..last][i := c];
      HeldAfterChange(calls[..last], i, c, t);
    } else {
      assert calls[i := c][..last] == calls[..last];
    }
  }

  /** How many times a transport occurs in the lists that were ever live. */
  function InGenerations(generations: seq<seq<Transport>>, t: Transport): nat {
    if generations == [] then 0
    else InGenerations(generations[..|generations| - 1], t) + multiset(generations[|generations| - 1])[t]
  }

  /** What a call holds that has never been live. */
  function Fresh(c: Call): seq<Transport> {
    if c.phase.CloseOld? then [] else c.held
  }

  function FreshlyHeld(calls: seq<Call>, t: Transport): nat {
    if calls == [] then 0 else FreshlyHeld(calls[..|calls| - 1], t) + multiset(Fresh(calls[|calls| - 1]))[t]
  }

  lemma {:induction false} FreshlyHeldAfterChange(calls: seq<Call>, i: nat, c: Call, t: Transport)
    requires i < |calls|
    ensures
      FreshlyHeld(calls[i := c], t) + multiset(Fresh(calls[i]))[t] == FreshlyHeld(calls, t) + multiset(Fresh(c))[t]
  {
    var last := |calls| - 1;
    if i < last {
      assert calls[i := c][..last] == calls[..last][i := c];
      FreshlyHeldAfterChange(calls[..last], i, c, t);
    } else {
      assert calls[i := c][..last] == calls[..last];
    }
  }

  /** Nothing is lost and nothing is in two places: a transport is live, held by a call, or closed, as
      often as it was opened. And it is fresh or in one generation at most as often. */
  ghost predicate Accounted(w: Ledger, t: Transport) {
    && multiset(w.live)[t] + Held(w.calls, t) + multiset(w.closed)[t] == multiset(w.allOpened)[t]
    && InGenerations(w.generations, t) + FreshlyHeld(w.calls, t) <= multiset(w.allOpened)[t]
  }

  lemma ChangeKeepsAccounted(w: Ledger, i: nat, c: Call, t: Transport)
    requires i < |w.calls| && Accounted(w, t)
    requires c.held == w.calls[i].held && Fresh(c) <= Fresh(w.calls[i])
    ensures Accounted(With(w, i, c), t)
  {
    HeldAfterChange(w.calls, i, c, t);
    FreshlyHeldAfterChange(w.calls, i, c, t);
    assert Fresh(w.calls[i]) == Fresh(c) + Fresh(w.calls[i])[|Fresh(c)|..];
  }

  lemma OpenKeepsAccounted(w: Ledger, i: nat, destination: Destination, phase: Phase, t: Transport)
    requires i < |w.calls| && Accounted(w, t) && !w.calls[i].phase.CloseOld? && !phase.CloseOld?
    ensures Accounted(OpenFor(w, i, destination, phase), t)
  {
    var after := OpenFor(w, i, destination, phase);
    HeldAfterChange(w.calls, i, after.calls[i], t);
    FreshlyHeldAfterChange(w.calls, i, after.calls[i], t);
  }

  lemma CloseKeepsAccounted(w: Ledger, i: nat, t: Transport)
    requires i < |w.calls| && w.calls[i].held != [] && Accounted(w, t)
    ensures Accounted(CloseFirst(w, i), t)
  {
    var after, held := CloseFirst(w, i), w.calls[i].held;
    HeldAfterChange(w.calls, i, after.calls[i], t);
    FreshlyHeldAfterChange(w.calls, i, after.calls[i], t);
    assert held == [held[0]] + held[1..];
  }

  lemma SwapKeepsAccounted(w: Ledger, i: nat, t: Transport)
    requires i < |w.calls| && Accounted(w, t) && w.calls[i].phase.Swap?
    ensures Accounted(SwapIn(w, i), t)
  {
    var after := SwapIn(w, i);
    HeldAfterChange(w.calls, i, after.calls[i], t);
    FreshlyHeldAfterChange(w.calls, i, after.calls[i], t);
    assert after.generations[..|w.generations|] == w.generations;
  }

  lemma ProgressKeepsAccounted(w: Ledger, i: nat, ok: bool, t: Transport)
    requires i < |w.calls| && Accounted(w, t)
    ensures Accounted(Progress(w, i, ok), t)
  {
    var c := w.calls[i];
    if c.phase.BuildSyslog? && c.cfg.enabled && c.cfg.syslogEnabled && ok {
      OpenKeepsAccounted(w, i, Syslog(c.cfg.syslog), BuildOTel, t);
    } else if c.phase.BuildOTel? && c.cfg.otelEnabled && ok {
      OpenKeepsAccounted(w, i, OTel(c.cfg.endpoint), CheckAny, t);
    } else if c.phase.Swap? {
      SwapKeepsAccounted(w, i, t);
    } else if (c.phase.Abandon? || c.phase.CloseOld?) && c.held != [] {
      CloseKeepsAccounted(w, i, t);
    } else {
      ChangeKeepsAccounted(w, i, c.(phase := NextPhase(c, ok)), t);
    }
  }

  lemma NextKeepsAccounted(w: World, step: Step, t: Transport)
    requires w.ledger.generations != [] && Accounted(w.ledger, t)
    ensures Accounted(Next(w, step).ledger, t)
  {
    match step
    case CallReconfigure(_) =>
      assert Next(w, step).ledger.calls[..|w.ledger.calls|] == w.ledger.calls;
    case Reconfigure(i, ok) =>
      if i < |w.ledger.calls| {
        ProgressKeepsAccounted(w.ledger, i, ok, t);
      }
    case CallLog =>
    case Send(_) =>
  }

  /** Transports are numbered in the order they were opened. */
  predicate Numbered(ts: seq<Transport>) {
    forall k | 0 <= k < |ts| :: ts[k].id == k
  }

  lemma ProgressKeepsNumbered(w: Ledger, i: nat, ok: bool)
    requires i < |w.calls| && Numbered(w.allOpened)
    ensures Numbered(Progress(w, i, ok).allOpened)
  {
  }

  lemma NextKeepsNumbered(w: World, step: Step)
    requires w.ledger.generations != [] && Numbered(w.ledger.allOpened)
    ensures Numbered(Next(w, step).ledger.allOpened)
  {
    if step.Reconfigure? && step.call < |w.ledger.calls| {
      ProgressKeepsNumbered(w.ledger, step.call, step.ok);
    }
  }

  lemma {:induction false} OpenedOnce(ts: seq<Transport>, t: Transport)
    requires Numbered(ts)
    ensures multiset(ts)[t] == if t in ts then 1 else 0
  {
    if ts != [] {
      var last := |ts| - 1;
      OpenedOnce(ts[..last], t);
      assert ts == ts[..last] + [ts[last]];
    }
  }

  lemma {:induction false} RunIsAccounted(steps: seq<Step>, t: Transport)
    ensures Numbered(Run(steps).ledger.allOpened) && Accounted(Run(steps).ledger, t)
  {
    if steps == [] {
      assert InGenerations([[]], t) == InGenerations([[]][..0], t) + multiset([[]][0])[t];
    } else {
      var before := steps[..|steps| - 1];
      RunIsAccounted(before, t);
      NextKeepsAccounted(Run(before), steps[|steps| - 1], t);
      NextKeepsNumbered(Run(before), steps[|steps| - 1]);
    }
  }

  /** In every reachable state, a transport that was opened is in exactly one place: live, or held by
      exactly one call that is still to swap it in or close it, or closed, and then closed once. */
  lemma {:induction false} EveryTransportIsInOnePlace(steps: seq<Step>, t: Transport)
    ensures
      var w := Run(steps).ledger;
      multiset(w.live)[t] + Held(w.calls, t) + multiset(w.closed)[t] == if t in w.allOpened then 1 else 0
  {
    RunIsAccounted(steps, t);
    OpenedOnce(Run(steps).ledger.allOpened, t);
  }

  /** What a call holds while it builds is what its configuration asks for so far. A call that has not
      built anything yet, or is done, holds nothing. */
  predicate Settled(c: Call) {
    match c.phase
    case BuildSyslog => c.held == []
    case BuildOTel =>
      c.cfg.enabled && Destinations(c.held) == if c.cfg.syslogEnabled then [Syslog(c.cfg.syslog)] else []
    case CheckAny => c.cfg.enabled && Destinations(c.held) == Wanted(c.cfg)
    case Swap => Destinations(c.held) == Wanted(c.cfg) && (c.held != [] <==> c.cfg.enabled)
    case Finished(_) => c.held == []
    case _ => true
  }

  lemma ProgressKeepsSettled(w: Ledger, i: nat, ok: bool)
    requires i < |w.calls| && Settled(w.calls[i])
    ensures |Progress(w, i, ok).calls| == |w.calls| && Settled(Progress(w, i, ok).calls[i])
    ensures forall k | 0 <= k < |w.calls| && k != i :: Progress(w, i, ok).calls[k] == w.calls[k]
  {
  }

  lemma {:induction false} CallsAreSettled(steps: seq<Step>, i: nat)
    requires i < |Run(steps).ledger.calls|
    ensures Settled(Run(steps).ledger.calls[i])
  {
    if steps != [] {
      var before, step := steps[..|steps| - 1], steps[|steps| - 1];
      var w := Run(before).ledger;
      if i < |w.calls| {
        CallsAreSettled(before, i);
        if step.Reconfigure? && step.call == i {
          ProgressKeepsSettled(w, i, step.ok);
        } else if step.Reconfigure? && step.call < |w.calls| {
          CallsAreSettled(before, step.call);
          ProgressKeepsSettled(w, step.call, step.ok);
        }
      } else if step.Reconfigure? && step.call < |w.calls| {
        CallsAreSettled(before, step.call);
        ProgressKeepsSettled(w, step.call, step.ok);
      }
    }
  }

  /** What a call swaps in is what its configuration asks for, whatever the other calls do meanwhile. */
  lemma {:induction false} SwapsInWhatIsWanted(steps: seq<Step>, i: nat, ok: bool)
    requires i < |Run(steps).ledger.calls| && Run(steps).ledger.calls[i].phase.Swap?
    ensures
      var cfg, after := Run(steps).ledger.calls[i].cfg, Next(Run(steps), Reconfigure(i, ok)).ledger;
      Destinations(after.live) == Wanted(cfg) && after.enabled == cfg.enabled
  {
    CallsAreSettled(steps, i);
  }

  lemma {:induction false} NothingHeld(calls: seq<Call>, t: Transport)
    requires forall i | 0 <= i < |calls| :: calls[i].held == []
    ensures Held(calls, t) == 0
  {
    if calls != [] {
      NothingHeld(calls[..|calls| - 1], t);
    }
  }

  /** Once every `Reconfigure` call is done, exactly the live transports are open: every other one that
      was opened has been closed, once. */
  lemma {:induction false} AtRestOnlyLiveTransportsAreOpen(steps: seq<Step>)
    requires forall i | 0 <= i < |Run(steps).ledger.calls| :: Run(steps).ledger.calls[i].phase.Finished?
    ensures
      var w := Run(steps).ledger;
      multiset(w.live) + multiset(w.closed) == multiset(w.allOpened)
  {
    var w := Run(steps).ledger;
    forall i | 0 <= i < |w.calls|
      ensures w.calls[i].held == []
    {
      CallsAreSettled(steps, i);
    }
    forall t
      ensures multiset(w.live)[t] + multiset(w.closed)[t] == multiset(w.allOpened)[t]
    {
      NothingHeld(w.calls, t);
      RunIsAccounted(steps, t);
    }
  }

  // ---------------------------------------------------------------- a call on its own

  function Rank(phase: Phase): nat {
    match phase
    case BuildSyslog => 5
    case BuildOTel => 4
    case CheckAny => 3
    case Swap => 2
    case Abandon => 1
    case CloseOld => 1
    case Finished(_) => 0
  }

  /** A call that runs to its end with no other call in between. */
  function Alone(w: Ledger, i: nat, syslogOk: bool, otelOk: bool): (r: Ledger)
    requires i < |w.calls|
    ensures |r.calls| == |w.calls|
    decreases Rank(w.calls[i].phase), |w.calls[i].held|
  {
    var c := w.calls[i];
    if c.phase.Finished? then w
    else Alone(Progress(w, i, if c.phase.BuildSyslog? then syslogOk else otelOk), i, syslogOk, otelOk)
  }

  lemma NothingToCloseAlone(w: Ledger, i: nat, syslogOk: bool, otelOk: bool)
    requires i < |w.calls| && (w.calls[i].phase.Abandon? || w.calls[i].phase.CloseOld?) && w.calls[i].held == []
    ensures Alone(w, i, syslogOk, otelOk) == With(w, i, w.calls[i].(phase := Finished(w.calls[i].phase.Abandon?)))
  {
  }

  lemma CloseFirstAlone(w: Ledger, i: nat, syslogOk: bool, otelOk: bool)
    requires i < |w.calls| && (w.calls[i].phase.Abandon? || w.calls[i].phase.CloseOld?) && w.calls[i].held != []
    ensures Alone(w, i, syslogOk, otelOk) == Alone(CloseFirst(w, i), i, syslogOk, otelOk)
  {
    assert Progress(w, i, otelOk) == CloseFirst(w, i);
  }

  lemma {:induction false} ClosingAlone(w: Ledger, i: nat, syslogOk: bool, otelOk: bool)
    requires i < |w.calls| && (w.calls[i].phase.Abandon? || w.calls[i].phase.CloseOld?)
    ensures
      var r, c := Alone(w, i, syslogOk, otelOk), w.calls[i];
      && r.live == w.live && r.enabled == w.enabled && r.allOpened == w.allOpened
      && r.closed == w.closed + c.held && r.calls[i].phase == Finished(c.phase.Abandon?)
    decreases |w.calls[i].held|
  {
    var c := w.calls[i];
    if c.held == [] {
      NothingToCloseAlone(w, i, syslogOk, otelOk);
    } else {
      CloseFirstAlone(w, i, syslogOk, otelOk);
      ClosingAlone(CloseFirst(w, i), i, syslogOk, otelOk);
      assert c.held == [c.held[0]] + c.held[1..];
    }
  }

  lemma SwappingAlone(w: Ledger, i: nat, syslogOk: bool, otelOk: bool)
    requires i < |w.calls| && w.calls[i].phase.Swap?
    ensures
      var r, c := Alone(w, i, syslogOk, otelOk), w.calls[i];
      && r.live == c.held && (r.enabled <==> c.held != []) && r.allOpened == w.allOpened
      && r.closed == w.closed + w.live && r.calls[i].phase == Finished(false)
  {
    ClosingAlone(SwapIn(w, i), i, syslogOk, otelOk);
  }

  /** When everything that is asked for is open. */
  lemma CheckingAlone(w: Ledger, i: nat, syslogOk: bool, otelOk: bool)
    requires i < |w.calls| && w.calls[i].phase.CheckAny?
    ensures
      var r, c := Alone(w, i, syslogOk, otelOk), w.calls[i];
      r.allOpened == w.allOpened &&
      if c.held == [] then
        r.live == w.live && r.enabled == w.enabled && r.closed == w.closed && r.calls[i].phase == Finished(true)
      else
        && r.live == c.held && r.enabled && r.closed == w.closed + w.live && r.calls[i].phase == Finished(false)
  {
    var next := Progress(w, i, otelOk);
    assert Alone(w, i, syslogOk, otelOk) == Alone(next, i, syslogOk, otelOk);
    if w.calls[i].held != [] {
      SwappingAlone(next, i, syslogOk, otelOk);
    }
  }

  /** What the method `Reconfigure` promises, said of a call of these steps. */
  predicate AloneLikeReconfigure(w: Ledger, r: Ledger, i: nat, syslogOk: bool, otelOk: bool, before: seq<Transport>)
    requires i < |w.calls| == |r.calls|
  {
    var cfg := w.calls[i].cfg;
    var error := BuildError(cfg, syslogOk, otelOk);
    && r.calls[i].phase == Finished(error.Some?)
    && (error.None? ==>
          && Destinations(r.live) == Wanted(cfg) && (r.enabled <==> r.live != [])
          && r.allOpened == before + r.live && r.closed == w.closed + w.live)
    && (error.Some? ==>
          && r.live == w.live && r.enabled == w.enabled
          && before <= r.allOpened && r.closed == w.closed + r.allOpened[|before|..])
  }

  /** From the second destination on; `before` are the transports opened before the call. */
  lemma BuildingAlone(w: Ledger, i: nat, syslogOk: bool, otelOk: bool, before: seq<Transport>)
    requires i < |w.calls| && w.calls[i].phase.BuildOTel? && Settled(w.calls[i])
    requires w.calls[i].cfg.syslogEnabled ==> syslogOk
    requires w.allOpened == before + w.calls[i].held
    ensures AloneLikeReconfigure(w, Alone(w, i, syslogOk, otelOk), i, syslogOk, otelOk, before)
  {
    var c, next := w.calls[i], Progress(w, i, otelOk);
    ProgressKeepsSettled(w, i, otelOk);
    assert Alone(w, i, syslogOk, otelOk) == Alone(next, i, syslogOk, otelOk);
    assert (before + c.held)[|before|..] == c.held;
    if next.calls[i].phase.Abandon? {
      ClosingAlone(next, i, syslogOk, otelOk);
    } else {
      CheckingAlone(next, i, syslogOk, otelOk);
    }
  }

  /** A call that nothing interrupts does exactly what the sequential method does. */
  lemma {:induction false} AloneIsReconfigure(w: Ledger, i: nat, syslogOk: bool, otelOk: bool)
    requires i < |w.calls| && w.calls[i].phase.BuildSyslog? && w.calls[i].held == []
    ensures AloneLikeReconfigure(w, Alone(w, i, syslogOk, otelOk), i, syslogOk, otelOk, w.allOpened)
  {
    var c := w.calls[i];
    ProgressKeepsSettled(w, i, syslogOk);
    var next := Progress(w, i, syslogOk);
    if !c.cfg.enabled {
      SwappingAlone(next, i, syslogOk, otelOk);
    } else if c.cfg.syslogEnabled && !syslogOk {
      assert w.allOpened[|w.allOpened|..] == [];
    } else {
      BuildingAlone(next, i, syslogOk, otelOk, w.allOpened);
    }
  }

  // ---------------------------------------------------------------- events

  /** The transports that the event of a `Log` call was sent to, in order. */
  function SentBy(sent: seq<Sent>, l: nat): seq<Transport> {
    if sent == [] then []
    else
      var rest, last := SentBy(sent[..|sent| - 1], l), sent[|sent| - 1];
      if last.logCall == l then rest + [last.transport] else rest
  }

  /** The live list is the last generation, and auditing is enabled when it is not empty. */
  predicate Current(w: Ledger) {
    && w.generations != [] && w.live == w.generations[|w.generations| - 1]
    && (w.enabled <==> w.live != [])
  }

  /** A `Log` call has sent its event down the list that was live when it started. */
  predicate Faithful(w: World, l: nat)
    requires l < |w.logs|
  {
    var log := w.logs[l];
    && log.generation < |w.ledger.generations| && log.transports == w.ledger.generations[log.generation]
    && log.sent <= |log.transports| && SentBy(w.sent, l) == log.transports[..log.sent]
  }

  predicate SendersExist(w: World) {
    forall k | 0 <= k < |w.sent| :: w.sent[k].logCall < |w.logs|
  }

  lemma {:induction false} NotYetSent(sent: seq<Sent>, l: nat)
    requires forall k | 0 <= k < |sent| :: sent[k].logCall < l
    ensures SentBy(sent, l) == []
  {
    if sent != [] {
      NotYetSent(sent[..|sent| - 1], l);
    }
  }

  lemma NextKeepsCurrent(w: World, step: Step)
    requires Current(w.ledger) && SendersExist(w)
    ensures Current(Next(w, step).ledger) && SendersExist(Next(w, step))
    ensures w.ledger.generations <= Next(w, step).ledger.generations
  {
  }

  lemma NextKeepsFaithful(w: World, step: Step, l: nat)
    requires Current(w.ledger) && SendersExist(w) && l < |Next(w, step).logs|
    requires l < |w.logs| ==> Faithful(w, l)
    ensures Faithful(Next(w, step), l)
  {
    NextKeepsCurrent(w, step);
    var after := Next(w, step);
    if step.Send? && after.sent != w.sent {
      assert after.sent[..|w.sent|] == w.sent;
    } else if l == |w.logs| {
      NotYetSent(w.sent, l);
    }
  }

  lemma {:induction false} RunIsFaithful(steps: seq<Step>, l: nat)
    ensures Current(Run(steps).ledger) && SendersExist(Run(steps))
    ensures l < |Run(steps).logs| ==> Faithful(Run(steps), l)
  {
    if steps != [] {
      var before, step := steps[..|steps| - 1], steps[|steps| - 1];
      RunIsFaithful(before, l);
      NextKeepsCurrent(Run(before), step);
      if l < |Run(steps).logs| {
        NextKeepsFaithful(Run(before), step, l);
      }
    }
  }

  lemma {:induction false} InItsGeneration(generations: seq<seq<Transport>>, g: nat, t: Transport)
    requires g < |generations| && t in generations[g]
    ensures InGenerations(generations, t) >= 1
    ensures InGenerations(generations, t) <= 1 ==>
      forall k | 0 <= k < |generations| :: t in generations[k] ==> k == g
  {
    var last := |generations| - 1;
    if g < last {
      InItsGeneration(generations[..last], g, t);
    } else if InGenerations(generations, t) <= 1 {
      forall k | 0 <= k < last && t in generations[k]
        ensures false
      {
        InItsGeneration(generations[..last], k, t);
      }
    }
  }

  /** Each event goes down the list of exactly one generation, the one that was live when the call took
      it, in order, and every transport on the way belongs to no other generation: a swap in the middle
      neither splits an event over two generations nor sends it twice. A call that has sent all it has
      to has sent it to the whole generation. */
  lemma {:induction false} EveryEventGoesToOneGeneration(steps: seq<Step>, l: nat, t: Transport)
    requires l < |Run(steps).logs|
    ensures
      var log, generations := Run(steps).logs[l], Run(steps).ledger.generations;
      var sent := SentBy(Run(steps).sent, l);
      && log.generation < |generations|
      && log.transports == generations[log.generation]
      && log.sent <= |log.transports| && sent == log.transports[..log.sent]
      && (log.sent == |log.transports| ==> sent == log.transports)
      && (t in sent ==> forall g | 0 <= g < |generations| :: t in generations[g] <==> g == log.generation)
  {
    RunIsFaithful(steps, l);
    var w := Run(steps);
    var g := w.logs[l].generation;
    if t in SentBy(w.sent, l) {
      assert t in w.ledger.generations[g];
      RunIsAccounted(steps, t);
      OpenedOnce(w.ledger.allOpened, t);
      InItsGeneration(w.ledger.generations, g, t);
    }
  }

  lemma {:induction false} HeldBySome(calls: seq<Call>, t: Transport)
    ensures Held(calls, t) > 0 <==> exists i :: 0 <= i < |calls| && t in calls[i].held
  {
    if calls != [] {
      var last := |calls| - 1;
      HeldBySome(calls[..last], t);
      assert forall i | 0 <= i < last :: calls[i] == calls[..last][i];
    }
  }

  lemma {:induction false} FreshWithNone(calls: seq<Call>, t: Transport)
    requires FreshlyHeld(calls, t) == 0
    ensures forall i | 0 <= i < |calls| :: t !in Fresh(calls[i])
  {
    if calls != [] {
      var last := |calls| - 1;
      FreshWithNone(calls[..last], t);
      assert forall i | 0 <= i < last :: calls[i] == calls[..last][i];
    }
  }

  /** A transport is open: it was opened and has not been closed. */
  predicate IsOpen(w: Ledger, t: Transport) {
    t in w.allOpened && t !in w.closed
  }

  ghost predicate StillToClose(w: Ledger, t: Transport) {
    exists i :: 0 <= i < |w.calls| && w.calls[i].phase.CloseOld? && t in w.calls[i].held
  }

  /** Exactly: a transport that a `Log` call has in its list is open as long as no swap has followed, and after
      that as long as the call that swapped it out has not closed it. */
  lemma {:induction false} LoggedTransportIsOpenIff(steps: seq<Step>, l: nat, k: nat)
    requires l < |Run(steps).logs| && k < |Run(steps).logs[l].transports|
    ensures
      var w, log := Run(steps).ledger, Run(steps).logs[l];
      IsOpen(w, log.transports[k]) <==> log.generation == |w.generations| - 1 || StillToClose(w, log.transports[k])
  {
    RunIsFaithful(steps, l);
    var w, log := Run(steps).ledger, Run(steps).logs[l];
    var t, g := log.transports[k], log.generation;
    assert t in w.generations[g];
    RunIsAccounted(steps, t);
    OpenedOnce(w.allOpened, t);
    InItsGeneration(w.generations, g, t);
    HeldBySome(w.calls, t);
    FreshWithNone(w.calls, t);
    assert t in w.live <==> g == |w.generations| - 1;
    forall i | 0 <= i < |w.calls| && t in w.calls[i].held
      ensures w.calls[i].phase.CloseOld?
    {
      assert t !in Fresh(w.calls[i]);
    }
  }

  lemma OneMoreStep(steps: seq<Step>, step: Step)
    ensures Run(steps + [step]) == Next(Run(steps), step)
  {
    assert (steps + [step])[..|steps|] == steps;
  }

  /** What switching auditing on does, step by step. */
  lemma SwitchingOn(on: AuditConfig, t: Transport)
    requires on.enabled && on.syslogEnabled && !on.otelEnabled && t == Transport(0, Syslog(on.syslog))
    ensures
      var go := Reconfigure(0, true);
      var called := World(Ledger([], [], [], false, [[]], [Call(on, BuildSyslog, [])]), [], []);
      var connected := World(Ledger([t], [], [], false, [[]], [Call(on, BuildOTel, [t])]), [], []);
      var checked := World(Ledger([t], [], [], false, [[]], [Call(on, CheckAny, [t])]), [], []);
      var built := World(Ledger([t], [], [], false, [[]], [Call(on, Swap, [t])]), [], []);
      var swapped := World(Ledger([t], [], [t], true, [[], [t]], [Call(on, CloseOld, [])]), [], []);
      && Next(Initial(), CallReconfigure(on)) == called
      && Next(called, go) == connected && Next(connected, go) == checked
      && Next(checked, go) == built && Next(built, go) == swapped
  {
    assert [] + [t] == [t] && [] + [Call(on, BuildSyslog, [])] == [Call(on, BuildSyslog, [])];
    assert [Call(on, BuildSyslog, [])][0 := Call(on, BuildOTel, [t])] == [Call(on, BuildOTel, [t])];
    assert [Call(on, BuildOTel, [t])][0 := Call(on, CheckAny, [t])] == [Call(on, CheckAny, [t])];
    assert [Call(on, CheckAny, [t])][0 := Call(on, Swap, [t])] == [Call(on, Swap, [t])];
    assert [Call(on, Swap, [t])][0 := Call(on, CloseOld, [])] == [Call(on, CloseOld, [])];
    assert [[]] + [[t]] == [[], [t]];
  }

  /** A run that switches auditing on. */
  lemma SwitchedOn(on: AuditConfig) returns (steps: seq<Step>)
    requires on.enabled && on.syslogEnabled && !on.otelEnabled
    ensures
      var t := Transport(0, Syslog(on.syslog));
      Run(steps) == World(Ledger([t], [], [t], true, [[], [t]], [Call(on, CloseOld, [])]), [], [])
  {
    var go, s1 := Reconfigure(0, true), [CallReconfigure(on)];
    SwitchingOn(on, Transport(0, Syslog(on.syslog)));
    assert [] + s1 == s1;
    OneMoreStep([], CallReconfigure(on));
    OneMoreStep(s1, go);
    OneMoreStep(s1 + [go], go);
    OneMoreStep(s1 + [go] + [go], go);
    OneMoreStep(s1 + [go] + [go] + [go], go);
    return s1 + [go] + [go] + [go] + [go];
  }

  /** What switching auditing off again does, step by step, after an event was logged. */
  lemma SwitchingOff(on: AuditConfig, off: AuditConfig, t: Transport)
    requires !off.enabled
    ensures
      var c, logs := Call(on, CloseOld, []), [LogCall(1, [t], 0)];
      var called := World(Ledger([t], [], [t], true, [[], [t]], [c, Call(off, BuildSyslog, [])]), logs, []);
      var built := World(Ledger([t], [], [t], true, [[], [t]], [c, Call(off, Swap, [])]), logs, []);
      var swapped := World(Ledger([t], [], [], false, [[], [t], []], [c, Call(off, CloseOld, [t])]), logs, []);
      var closed := World(Ledger([t], [t], [], false, [[], [t], []], [c, Call(off, CloseOld, [])]), logs, []);
      && Next(called, Reconfigure(1, true)) == built
      && Next(built, Reconfigure(1, true)) == swapped
      && Next(swapped, Reconfigure(1, true)) == closed
  {
    var c := Call(on, CloseOld, []);
    var calls := [c, Call(off, BuildSyslog, [])];
    assert calls[1 := Call(off, Swap, [])] == [c, Call(off, Swap, [])];
    assert [c, Call(off, Swap, [])][1 := Call(off, CloseOld, [t])] == [c, Call(off, CloseOld, [t])];
    assert [c, Call(off, CloseOld, [t])][1 := Call(off, CloseOld, [])] == [c, Call(off, CloseOld, [])];
    assert [[], [t]] + [[]] == [[], [t], []] && [t][1..] == [] && [] + [t] == [t];
  }

  lemma LoggedThenCalled(on: AuditConfig, off: AuditConfig) returns (steps: seq<Step>)
    requires on.enabled && on.syslogEnabled && !on.otelEnabled
    ensures
      var t := Transport(0, Syslog(on.syslog));
      Run(steps) ==
      World(Ledger([t], [], [t], true, [[], [t]], [Call(on, CloseOld, []), Call(off, BuildSyslog, [])]),
            [LogCall(1, [t], 0)], [])
  {
    var s1 := SwitchedOn(on);
    OneMoreStep(s1, CallLog);
    OneMoreStep(s1 + [CallLog], CallReconfigure(off));
    return s1 + [CallLog] + [CallReconfigure(off)];
  }

  /** A run that logs an event, switches auditing off again, and closes the transport before the event has
      been sent. */
  lemma SwitchedOff(on: AuditConfig, off: AuditConfig) returns (steps: seq<Step>)
    requires on.enabled && on.syslogEnabled && !on.otelEnabled && !off.enabled
    ensures
      var t := Transport(0, Syslog(on.syslog));
      Run(steps) ==
      World(Ledger([t], [t], [], false, [[], [t], []], [Call(on, CloseOld, []), Call(off, CloseOld, [])]),
            [LogCall(1, [t], 0)], [])
  {
    var go := Reconfigure(1, true);
    var s1 := LoggedThenCalled(on, off);
    SwitchingOff(on, off, Transport(0, Syslog(on.syslog)));
    OneMoreStep(s1, go);
    OneMoreStep(s1 + [go], go);
    OneMoreStep(s1 + [go] + [go], go);
    return s1 + [go] + [go] + [go];
  }

  /** A run in which an event is sent to a transport that has been closed: the event's list was taken before a
      swap, and the swap has closed the list before the event is sent. */
  lemma {:induction false} EventAfterClose(settings: string) returns (steps: seq<Step>)
    ensures
      var w := Run(steps);
      && |w.logs| == 1 && w.logs[0].sent < |w.logs[0].transports|
      && w.logs[0].transports[0] in w.ledger.closed
      && Run(steps + [Send(0)]).sent == [Sent(0, w.logs[0].transports[0])]
  {
    steps := SwitchedOff(AuditConfig(true, true, settings, false, ""), AuditConfig(false, false, "", false, ""));
    OneMoreStep(steps, Send(0));
  }
}
