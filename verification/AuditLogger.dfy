/** The audit logger: building, swapping and closing its transports, and fanning events out. */
module AuditLogging {
  import opened Wrappers

  datatype Destination = Syslog(settings: string) | OTel(endpoint: string)

  /** An open connection to a destination. No two of them have the same number. */
  datatype Transport = Transport(id: nat, destination: Destination)

  datatype AuditConfig = AuditConfig(
    enabled: bool, syslogEnabled: bool, syslog: string, otelEnabled: bool, endpoint: string)

  datatype AuditError = SyslogFailed | OTelFailed | NoTransport

  datatype Outcome = Succeeded | Failed

  datatype AuditEvent = ConfigChanged(outcome: Outcome, keys: seq<string>) | OtherEvent(name: string)

  datatype Emission = Emission(transport: Transport, event: AuditEvent)

  /** The destinations a configuration asks for, in the order they are wired. */
  function Wanted(cfg: AuditConfig): seq<Destination> {
    if !cfg.enabled then []
    else if cfg.syslogEnabled && cfg.otelEnabled then [Syslog(cfg.syslog), OTel(cfg.endpoint)]
    else if cfg.syslogEnabled then [Syslog(cfg.syslog)]
    else if cfg.otelEnabled then [OTel(cfg.endpoint)]
    else []
  }

  /** Why a configuration cannot be put in place, given which destinations can be opened. */
  function BuildError(cfg: AuditConfig, syslogOk: bool, otelOk: bool): Option<AuditError> {
    if !cfg.enabled then None
    else if cfg.syslogEnabled && !syslogOk then Some(SyslogFailed)
    else if cfg.otelEnabled && !otelOk then Some(OTelFailed)
    else if !cfg.syslogEnabled && !cfg.otelEnabled then Some(NoTransport)
    else None
  }

  function Destinations(ts: seq<Transport>): (ds: seq<Destination>)
    ensures |ds| == |ts|
  {
    if ts == [] then [] else [ts[0].destination] + Destinations(ts[1..])
  }

  /** The same event to every transport of a list. */
  function Broadcast(ts: seq<Transport>, event: AuditEvent): (sent: seq<Emission>)
    ensures |sent| == |ts|
  {
    if ts == [] then [] else Broadcast(ts[..|ts| - 1], event) + [Emission(ts[|ts| - 1], event)]
  }

  /** What the transports have done so far, as seen from outside. */
  class Outputs {
    var allOpened: seq<Transport>
    var closed: seq<Transport>
    var emitted: seq<Emission>

    constructor ()
      ensures allOpened == [] && closed == [] && emitted == []
    {
      allOpened, closed, emitted := [], [], [];
    }

    /** `ok` says whether the destination can be reached. */
    method Open(destination: Destination, ok: bool) returns (t: Option<Transport>)
      modifies this`allOpened
      ensures t.Some? <==> ok
      ensures allOpened == if ok then old(allOpened) + [t.value] else old(allOpened)
      ensures ok ==> t.value == Transport(|old(allOpened)|, destination)
    {
      if !ok {
        return None;
      }
      t := Some(Transport(|allOpened|, destination));
      allOpened := allOpened + [t.value];
    }

    method Close(t: Transport)
      modifies this`closed
      ensures closed == old(closed) + [t]
    {
      closed := closed + [t];
    }

    method Emit(t: Transport, event: AuditEvent)
      modifies this`emitted
      ensures emitted == old(emitted) + [Emission(t, event)]
    {
      emitted := emitted + [Emission(t, event)];
    }

    method CloseAll(ts: seq<Transport>)
      modifies this`closed
      ensures closed == old(closed) + ts
    {
      for i := 0 to |ts|
        invariant closed == old(closed) + ts[..i]
      {
        Close(ts[i]);
        assert ts[..i + 1] == ts[..i] + [ts[i]];
      }
      assert ts[..|ts|] == ts;
    }
  }

  /** Opens what the configuration asks for. When something cannot be opened, nothing stays open. */
  method BuildTransports(outputs: Outputs, cfg: AuditConfig, syslogOk: bool, otelOk: bool)
    returns (r: Result<seq<Transport>, AuditError>)
    modifies outputs`allOpened, outputs`closed
    ensures r.Failure? <==> BuildError(cfg, syslogOk, otelOk).Some?
    ensures r.Failure? ==> Some(r.error) == BuildError(cfg, syslogOk, otelOk)
    ensures r.Success? ==>
      && outputs.allOpened == old(outputs.allOpened) + r.value && outputs.closed == old(outputs.closed)
      && Destinations(r.value) == Wanted(cfg)
    ensures r.Failure? ==>
      && old(outputs.allOpened) <= outputs.allOpened
      && outputs.closed == old(outputs.closed) + outputs.allOpened[|old(outputs.allOpened)|..]
  {
    if !cfg.enabled {
      return Success([]);
    }
    var newTransports := [];
    if cfg.syslogEnabled {
      var st := outputs.Open(Syslog(cfg.syslog), syslogOk);
      if st.None? {
        return Failure(SyslogFailed);
      }
      newTransports := newTransports + [st.value];
    }
    if cfg.otelEnabled {
      var ot := outputs.Open(OTel(cfg.endpoint), otelOk);
      if ot.None? {
        outputs.CloseAll(newTransports);
        return Failure(OTelFailed);
      }
      newTransports := newTransports + [ot.value];
    }
    if |newTransports| == 0 {
      return Failure(NoTransport);
    }
    return Success(newTransports);
  }

  class AuditLogger {
    const outputs: Outputs
    var transports: seq<Transport>
    var enabled: bool

    /** Every transport ever opened is live or closed, and is so once. */
    ghost predicate Valid()
      reads this, outputs
    {
      && multiset(outputs.allOpened) == multiset(outputs.closed) + multiset(transports)
      && (enabled <==> transports != [])
    }

    /** The logger serves exactly what `cfg` asks for. */
    ghost predicate Serves(cfg: AuditConfig)
      reads this, outputs
    {
      && Valid()
      && Destinations(transports) == Wanted(cfg)
      && (enabled <==> cfg.enabled)
    }

    constructor (outputs: Outputs)
      requires outputs.allOpened == [] && outputs.closed == []
      ensures this.outputs == outputs && Valid() && transports == []
    {
      this.outputs := outputs;
      transports, enabled := [], false;
    }

    method Reconfigure(cfg: AuditConfig, syslogOk: bool, otelOk: bool) returns (error: Option<AuditError>)
      requires Valid()
      modifies this, outputs
      ensures Valid() && outputs.emitted == old(outputs.emitted)
      ensures error == BuildError(cfg, syslogOk, otelOk)
      ensures error == None ==>
        && Serves(cfg)
        && outputs.allOpened == old(outputs.allOpened) + transports
        && outputs.closed == old(outputs.closed) + old(transports)
      ensures error.Some? ==> transports == old(transports) && enabled == old(enabled)
    {
      ghost var before := outputs.allOpened;
      var built := BuildTransports(outputs, cfg, syslogOk, otelOk);
      if built.Failure? {
        assert outputs.allOpened == before + outputs.allOpened[|before|..];
        return Some(built.error);
      }
      var previous := transports;
      transports := built.value;
      enabled := |transports| > 0;
      outputs.CloseAll(previous);
      return None;
    }

    method Log(event: AuditEvent)
      requires Valid()
      modifies outputs`emitted
      ensures outputs.emitted == old(outputs.emitted) + Broadcast(transports, event)
    {
      if !enabled {
        return;
      }
      for i := 0 to |transports|
        invariant outputs.emitted == old(outputs.emitted) + Broadcast(transports[..i], event)
      {
        outputs.Emit(transports[i], event);
        assert transports[..i + 1][..i] == transports[..i];
      }
      assert transports[..|transports|] == transports;
    }
  }

  // ---------------------------------------------------------------- what a configuration asks for

  /** The destination can be reached. */
  predicate Opens(d: Destination, syslogOk: bool, otelOk: bool) {
    if d.Syslog? then syslogOk else otelOk
  }

  /** A configuration that is switched on asks for the destinations that it switches on, with its settings, syslog
      first; one that is switched off asks for nothing. */
  lemma WantedDestinations(cfg: AuditConfig, d: Destination)
    ensures
      d in Wanted(cfg) <==>
      cfg.enabled && ((cfg.syslogEnabled && d == Syslog(cfg.syslog)) || (cfg.otelEnabled && d == OTel(cfg.endpoint)))
    ensures forall i, j | 0 <= i < j < |Wanted(cfg)| :: Wanted(cfg)[i].Syslog? && Wanted(cfg)[j].OTel?
    ensures Wanted(LoggerConfig(cfg)) == Wanted(cfg)
  {}

  /** A configuration can be put in place exactly when every destination that it asks for can be reached, and it asks
      for some if it is switched on; otherwise the first destination that cannot be reached is to blame. */
  lemma BuildErrors(cfg: AuditConfig, syslogOk: bool, otelOk: bool)
    ensures
      var wanted, error := Wanted(cfg), BuildError(cfg, syslogOk, otelOk);
      && (error == None <==> (forall d <- wanted :: Opens(d, syslogOk, otelOk)) && (cfg.enabled ==> wanted != []))
      && (error == Some(NoTransport) <==> cfg.enabled && wanted == [])
      && (error == Some(SyslogFailed) <==> wanted != [] && wanted[0].Syslog? && !syslogOk)
      && (error == Some(OTelFailed) <==>
            wanted != [] && wanted[|wanted| - 1].OTel? && !otelOk && (wanted[0].Syslog? ==> syslogOk))
  {
    var wanted := Wanted(cfg);
    if wanted != [] {
      assert wanted[0] in wanted && wanted[|wanted| - 1] in wanted;
      assert Opens(wanted[0], syslogOk, otelOk) <==> if cfg.syslogEnabled then syslogOk else otelOk;
      assert Opens(wanted[|wanted| - 1], syslogOk, otelOk) <==> if cfg.otelEnabled then otelOk else syslogOk;
      assert forall d <- wanted :: d == wanted[0] || d == wanted[|wanted| - 1];
    }
  }

  /** An event that is broadcast goes to each transport once, in order, ... */
  lemma {:induction false} BroadcastAt(ts: seq<Transport>, event: AuditEvent, i: nat)
    requires i < |ts|
    ensures Broadcast(ts, event)[i] == Emission(ts[i], event)
  {
    if i < |ts| - 1 {
      BroadcastAt(ts[..|ts| - 1], event, i);
    }
  }

  /** ... and the destinations of transports are theirs, in order. */
  lemma {:induction false} DestinationAt(ts: seq<Transport>, i: nat)
    requires i < |ts|
    ensures Destinations(ts)[i] == ts[i].destination
  {
    if i > 0 {
      DestinationAt(ts[1..], i - 1);
    }
  }

  // ---------------------------------------------------------------- hot reload

  /** The configuration on disk as the logger takes it. */
  function LoggerConfig(c: AuditConfig): AuditConfig {
    c.(syslogEnabled := c.enabled && c.syslogEnabled)
  }

  predicate Disabling(current: AuditConfig, next: AuditConfig) {
    next != current && current.enabled && !next.enabled
  }

  /** The configuration in effect after a reload. */
  function InEffect(current: AuditConfig, next: AuditConfig, syslogOk: bool, otelOk: bool): AuditConfig {
    if next == current || BuildError(LoggerConfig(next), syslogOk, otelOk) == None then next else current
  }

  /** After a reload the next configuration is in effect exactly when it is the current one, or it can be put in place:
      all its destinations can be reached, and it has some if it is switched on. */
  lemma NextIsInEffectIff(current: AuditConfig, next: AuditConfig, syslogOk: bool, otelOk: bool)
    ensures
      InEffect(current, next, syslogOk, otelOk) == next <==>
      || next == current
      || ((forall d <- Wanted(next) :: Opens(d, syslogOk, otelOk)) && (next.enabled ==> Wanted(next) != []))
    ensures InEffect(current, next, syslogOk, otelOk) in {current, next}
  {
    WantedDestinations(next, Syslog(""));
    BuildErrors(LoggerConfig(next), syslogOk, otelOk);
  }

  /** The reload step of the satellite. The configuration it hands back is the one the logger serves, and
      one event is logged: before the swap when auditing is being switched off, after it otherwise. The
      event reaches somebody exactly when auditing is on before or after. */
  method ReconfigureAuditOnReload(audit: AuditLogger, current: AuditConfig, next: AuditConfig, changedKeys: seq<string>,
                                  syslogOk: bool, otelOk: bool)
    returns (tracked: AuditConfig)
    requires audit.Serves(current)
    modifies audit, audit.outputs
    ensures audit.Serves(tracked) && tracked == InEffect(current, next, syslogOk, otelOk)
    ensures
      var receivers := if Disabling(current, next) then old(audit.transports) else audit.transports;
      && audit.outputs.emitted ==
         old(audit.outputs.emitted)
         + Broadcast(receivers, ConfigChanged(if tracked == next then Succeeded else Failed, changedKeys))
      && (receivers != [] <==> current.enabled || tracked.enabled)
  {
    tracked := current;
    var changed := next != current;
    var disabling := changed && current.enabled && !next.enabled;
    if disabling {
      audit.Log(ConfigChanged(Succeeded, changedKeys));
    }
    var outcome := Succeeded;
    if changed {
      var error := audit.Reconfigure(LoggerConfig(next), syslogOk, otelOk);
      if error.Some? {
        outcome := Failed;
      } else {
        tracked := next;
      }
    }
    if !disabling {
      audit.Log(ConfigChanged(outcome, changedKeys));
    }
  }
}
