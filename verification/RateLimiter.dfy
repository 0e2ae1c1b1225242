/** The per-address sliding-window rate limiter: `Allow` prunes and decides, a
    background ticker prunes every address.

    `Limiter` is the object's state as a value, `AllowStep` and `CleanupStep` are what the
    two methods do to it, and the theorems at the end speak about whole runs of both. */
module RateLimiting {

  type Time = int

  /** The text of a client address; only equality matters. */
  datatype Address = Address(text: string)

  // ---------------------------------------------------------------- timestamp lists

  /** The timestamps strictly after `cutoff`, in order. */
  function After(ts: seq<Time>, cutoff: Time): seq<Time> {
    if ts == [] then []
    else
      var init, last := ts[..|ts| - 1], ts[|ts| - 1];
      if last > cutoff then After(init, cutoff) + [last] else After(init, cutoff)
  }

  /** How many timestamps lie in the half-open window (lo, hi]. */
  function Count(ts: seq<Time>, lo: Time, hi: Time): nat {
    if ts == [] then 0
    else Count(ts[1..], lo, hi) + if lo < ts[0] <= hi then 1 else 0
  }

  lemma AfterSnoc(ts: seq<Time>, t: Time, cutoff: Time)
    ensures After(ts + [t], cutoff) == if t > cutoff then After(ts, cutoff) + [t] else After(ts, cutoff)
  {
    assert (ts + [t])[..|ts|] == ts;
  }

  lemma {:induction false} AfterTwice(ts: seq<Time>, early: Time, late: Time)
    requires early <= late
    ensures After(After(ts, early), late) == After(ts, late)
  {
    if ts != [] {
      var init, last := ts[..|ts| - 1], ts[|ts| - 1];
      AfterTwice(init, early, late);
      AfterSnoc(After(init, early), last, late);
    }
  }

  lemma {:induction false} CountSnoc(ts: seq<Time>, t: Time, lo: Time, hi: Time)
    ensures Count(ts + [t], lo, hi) == Count(ts, lo, hi) + if lo < t <= hi then 1 else 0
  {
    if ts == [] {
      assert ts + [t] == [t];
    } else {
      assert (ts + [t])[1..] == ts[1..] + [t];
      CountSnoc(ts[1..], t, lo, hi);
    }
  }

  /** Counting is monotone in the window, and counts what `After` keeps when nothing is in the future. */
  lemma {:induction false} CountVersusAfter(ts: seq<Time>, lo: Time, hi: Time)
    ensures Count(ts, lo, hi) <= |After(ts, lo)|
    ensures (forall t <- ts :: t <= hi) ==> Count(ts, lo, hi) == |After(ts, lo)|
  {
    if ts != [] {
      var init, last := ts[..|ts| - 1], ts[|ts| - 1];
      assert ts == init + [last];
      assert last in ts && forall t <- init :: t in ts;
      CountVersusAfter(init, lo, hi);
      CountSnoc(init, last, lo, hi);
    }
  }

  lemma {:induction false} AfterShrinks(ts: seq<Time>, early: Time, late: Time)
    requires early <= late
    ensures |After(ts, late)| <= |After(ts, early)|
  {
    if ts != [] {
      AfterShrinks(ts[..|ts| - 1], early, late);
    }
  }

  // ---------------------------------------------------------------- the limiter as a value

  datatype Limiter = Limiter(maxRequests: int, windowPeriod: int, requests: map<Address, seq<Time>>)

  function Get(requests: map<Address, seq<Time>>, ip: Address): seq<Time> {
    if ip in requests then requests[ip] else []
  }

  /** One call of `Allow`: the new state and the answer. */
  function AllowStep(l: Limiter, ip: Address, now: Time): (Limiter, bool) {
    var valid := After(Get(l.requests, ip), now - l.windowPeriod);
    if |valid| >= l.maxRequests
    then (l.(requests := l.requests[ip := valid]), false)
    else (l.(requests := l.requests[ip := valid + [now]]), true)
  }

  /** One tick of `cleanup`: every list is pruned and empty ones are dropped. */
  function CleanupStep(l: Limiter, now: Time): Limiter {
    l.(requests := Pruned(l.requests, now - l.windowPeriod))
  }

  function Pruned(requests: map<Address, seq<Time>>, cutoff: Time): map<Address, seq<Time>> {
    map ip | ip in requests && After(requests[ip], cutoff) != [] :: After(requests[ip], cutoff)
  }

  // ---------------------------------------------------------------- the object

  class RateLimiter {
    var requests: map<Address, seq<Time>>
    const maxRequests: int
    const windowPeriod: int

    ghost function State(): Limiter
      reads this
    {
      Limiter(maxRequests, windowPeriod, requests)
    }

    constructor (maxRequests: int, windowPeriod: int)
      ensures State() == Limiter(maxRequests, windowPeriod, map[])
    {
      this.maxRequests := maxRequests;
      this.windowPeriod := windowPeriod;
      requests := map[];
    }

    /** `now` is what the clock shows while the lock is held. */
    method Allow(ip: Address, now: Time) returns (allowed: bool)
      modifies this`requests
      ensures (State(), allowed) == AllowStep(old(State()), ip, now)
    {
      var cutoff := now - windowPeriod;
      var valid := Prune(Get(requests, ip), cutoff);
      if |valid| >= maxRequests {
        requests := requests[ip := valid];
        return false;
      }
      requests := requests[ip := valid + [now]];
      return true;
    }

    method Cleanup(now: Time)
      modifies this`requests
      ensures State() == CleanupStep(old(State()), now)
    {
      var cutoff := now - windowPeriod;
      var todo := requests.Keys;
      ghost var was, target := requests, Pruned(requests, cutoff);
      while todo != {}
        invariant todo <= was.Keys
        invariant forall ip <- todo :: ip in requests && requests[ip] == was[ip]
        invariant forall ip :: ip !in todo ==> (ip in requests <==> ip in target)
        invariant forall ip :: ip !in todo && ip in requests ==> requests[ip] == target[ip]
      {
        var ip :| ip in todo;
        var valid := Prune(requests[ip], cutoff);
        if |valid| == 0 {
          requests := requests - {ip};
        } else {
          requests := requests[ip := valid];
        }
        todo := todo - {ip};
      }
      assert requests == target;
    }
  }

  /** The filtering loop that both methods run. */
  method Prune(ts: seq<Time>, cutoff: Time) returns (valid: seq<Time>)
    ensures valid == After(ts, cutoff)
  {
    valid := [];
    for i := 0 to |ts|
      invariant valid == After(ts[..i], cutoff)
    {
      assert ts[..i + 1] == ts[..i] + [ts[i]];
      AfterSnoc(ts[..i], ts[i], cutoff);
      if ts[i] > cutoff {
        valid := valid + [ts[i]];
      }
    }
    assert ts[..|ts|] == ts;
  }

  // ---------------------------------------------------------------- runs

  datatype Event = Request(ip: Address, now: Time) | Tick(now: Time)

  /** The limiter together with what it forgets: for every address, every timestamp at which a
      request was let through. */
  datatype World = World(limiter: Limiter, accepted: map<Address, seq<Time>>) {

    /** The answer to a request made now. */
    predicate Allows(ip: Address, now: Time) {
      AllowStep(limiter, ip, now).1
    }

    function Next(e: Event): World {
      match e
      case Request(ip, now) =>
        World(AllowStep(limiter, ip, now).0,
              if Allows(ip, now) then accepted[ip := History(ip) + [now]] else accepted)
      case Tick(now) => World(CleanupStep(limiter, now), accepted)
    }

    function Stored(ip: Address): seq<Time> {
      Get(limiter.requests, ip)
    }

    function History(ip: Address): seq<Time> {
      Get(accepted, ip)
    }
  }

  /** The world after a run that starts from the fresh limiter. */
  function Run(max: int, window: int, es: seq<Event>): (w: World)
    ensures w.limiter.maxRequests == max && w.limiter.windowPeriod == window
  {
    if es == [] then World(Limiter(max, window, map[]), map[])
    else Run(max, window, es[..|es| - 1]).Next(es[|es| - 1])
  }

  /** The clock never goes back over the run and shows at most `now` at its end. */
  predicate Until(es: seq<Event>, now: Time) {
    es != [] ==> es[|es| - 1].now <= now && Until(es[..|es| - 1], es[|es| - 1].now)
  }

  /** What every reachable world satisfies for every address: nothing accepted lies in the
      future, and beyond the cutoff of any present or future call the pruned list and the full
      history agree. */
  ghost predicate Faithful(stored: seq<Time>, history: seq<Time>, window: int, now: Time) {
    && (forall t <- history :: t <= now)
    && forall cutoff | cutoff >= now - window :: After(stored, cutoff) == After(history, cutoff)
  }

  /** Pruning keeps that, and so does appending the same timestamp to both lists. */
  lemma PruningKeepsFaithful(stored: seq<Time>, history: seq<Time>, window: int, now: Time, later: Time)
    requires Faithful(stored, history, window, now) && now <= later
    ensures Faithful(stored, history, window, later)
    ensures Faithful(After(stored, later - window), history, window, later)
  {
    forall cutoff | cutoff >= later - window
      ensures After(After(stored, later - window), cutoff) == After(history, cutoff)
    {
      AfterTwice(stored, later - window, cutoff);
    }
  }

  lemma AppendingKeepsFaithful(stored: seq<Time>, history: seq<Time>, window: int, now: Time)
    requires Faithful(stored, history, window, now)
    ensures Faithful(stored + [now], history + [now], window, now)
  {
    forall cutoff | cutoff >= now - window
      ensures After(stored + [now], cutoff) == After(history + [now], cutoff)
    {
      AfterSnoc(stored, now, cutoff);
      AfterSnoc(history, now, cutoff);
    }
  }

  /** What one event does to the list stored for `ip` and to its history. */
  lemma OneEvent(w: World, e: Event, ip: Address)
    ensures
      var kept := After(w.Stored(ip), e.now - w.limiter.windowPeriod);
      var w' := w.Next(e);
      if e.Request? && e.ip != ip then w'.Stored(ip) == w.Stored(ip) && w'.History(ip) == w.History(ip)
      else if e.Request? && w.Allows(ip, e.now) then
        w'.Stored(ip) == kept + [e.now] && w'.History(ip) == w.History(ip) + [e.now]
      else w'.Stored(ip) == kept && w'.History(ip) == w.History(ip)
  {}

  lemma PruningAndAppending(stored: seq<Time>, history: seq<Time>, window: int, before: Time, now: Time, later: Time,
                            accepted: bool)
    requires Faithful(stored, history, window, before) && before <= now <= later
    ensures
      var kept := After(stored, now - window);
      if accepted then Faithful(kept + [now], history + [now], window, later)
      else Faithful(kept, history, window, later)
  {
    var kept := After(stored, now - window);
    PruningKeepsFaithful(stored, history, window, before, now);
    if accepted {
      AppendingKeepsFaithful(kept, history, window, now);
      PruningKeepsFaithful(kept + [now], history + [now], window, now, later);
    } else {
      PruningKeepsFaithful(kept, history, window, now, later);
    }
  }

  lemma NextKeepsFaithful(w: World, e: Event, ip: Address, now: Time)
    requires Faithful(w.Stored(ip), w.History(ip), w.limiter.windowPeriod, e.now) && e.now <= now
    ensures Faithful(w.Next(e).Stored(ip), w.Next(e).History(ip), w.limiter.windowPeriod, now)
  {
    OneEvent(w, e, ip);
    if e.Request? && e.ip != ip {
      PruningKeepsFaithful(w.Stored(ip), w.History(ip), w.limiter.windowPeriod, e.now, now);
    } else {
      PruningAndAppending(w.Stored(ip), w.History(ip), w.limiter.windowPeriod, e.now, e.now, now,
                          e.Request? && w.Allows(ip, e.now));
    }
  }

  lemma {:induction false} RunIsFaithful(max: int, window: int, es: seq<Event>, ip: Address, now: Time)
    requires Until(es, now)
    ensures Faithful(Run(max, window, es).Stored(ip), Run(max, window, es).History(ip), window, now)
  {
    if es != [] {
      var init, e := es[..|es| - 1], es[|es| - 1];
      RunIsFaithful(max, window, init, ip, e.now);
      NextKeepsFaithful(Run(max, window, init), e, ip, now);
    }
  }

  lemma FaithfulAnswer(w: World, ip: Address, now: Time)
    requires Faithful(w.Stored(ip), w.History(ip), w.limiter.windowPeriod, now)
    ensures w.Allows(ip, now) <==> Count(w.History(ip), now - w.limiter.windowPeriod, now) < w.limiter.maxRequests
  {
    CountVersusAfter(w.History(ip), now - w.limiter.windowPeriod, now);
  }

  lemma {:induction false} AfterIsRecent(ts: seq<Time>, cutoff: Time, t: Time)
    ensures t in After(ts, cutoff) <==> t in ts && t > cutoff
  {
    if ts != [] {
      assert ts == ts[..|ts| - 1] + [ts[|ts| - 1]];
      AfterIsRecent(ts[..|ts| - 1], cutoff, t);
    }
  }

  /** What is forgotten: after a tick every stored timestamp lies in the window, and an address is stored exactly when
      it had one there; after a request the same holds of the timestamps of its address. */
  lemma {:induction false} NothingOldIsKept(l: Limiter, now: Time, ip: Address)
    ensures
      var ticked := CleanupStep(l, now).requests;
      && (ip in ticked <==> exists t :: t in Get(l.requests, ip) && t > now - l.windowPeriod)
      && (ip in ticked ==> ticked[ip] != [] && forall t <- ticked[ip] :: t > now - l.windowPeriod)
    ensures
      var asked := AllowStep(l, ip, now).0.requests;
      && ip in asked && asked.Keys == l.requests.Keys + {ip}
      && forall t <- asked[ip] :: t > now - l.windowPeriod || t == now
  {
    var kept, cutoff := After(Get(l.requests, ip), now - l.windowPeriod), now - l.windowPeriod;
    forall t
      ensures t in kept <==> t in Get(l.requests, ip) && t > cutoff
    {
      AfterIsRecent(Get(l.requests, ip), cutoff, t);
    }
    if kept != [] {
      assert kept[0] in kept;
    }
  }

  /** Refinement: wherever the cleanup ticks fall, the answer is that of a limiter that counts
      the full history of accepted requests in the window ending now. */
  lemma {:induction false} AllowCountsFullHistory(max: int, window: int, es: seq<Event>, ip: Address, now: Time)
    requires Until(es, now)
    ensures
      var w := Run(max, window, es);
      w.Allows(ip, now) <==> Count(w.History(ip), now - window, now) < max
  {
    RunIsFaithful(max, window, es, ip, now);
    FaithfulAnswer(Run(max, window, es), ip, now);
  }

  /** Room in the window ending now is room in every later window that still holds now. */
  lemma RoomInLaterWindows(history: seq<Time>, window: int, now: Time, t: Time)
    requires forall s <- history :: s <= now
    requires t - window < now <= t
    ensures Count(history, t - window, t) <= Count(history, now - window, now)
  {
    CountVersusAfter(history, t - window, t);
    CountVersusAfter(history, now - window, now);
    AfterShrinks(history, now - window, t - window);
  }

  lemma NextKeepsTheLimit(w: World, e: Event, ip: Address, t: Time)
    requires Faithful(w.Stored(ip), w.History(ip), w.limiter.windowPeriod, e.now)
    requires Count(w.History(ip), t - w.limiter.windowPeriod, t) <= Max0(w.limiter.maxRequests)
    ensures Count(w.Next(e).History(ip), t - w.limiter.windowPeriod, t) <= Max0(w.limiter.maxRequests)
  {
    var window := w.limiter.windowPeriod;
    OneEvent(w, e, ip);
    FaithfulAnswer(w, ip, e.now);
    CountSnoc(w.History(ip), e.now, t - window, t);
    if t - window < e.now <= t {
      RoomInLaterWindows(w.History(ip), window, e.now, t);
    }
  }

  function Max0(n: int): nat {
    if n < 0 then 0 else n
  }

  /** The guarantee of the limiter, over every run and every window (t - window, t], also those
      that end between or after the requests. */
  lemma {:induction false} NoWindowExceedsTheLimit(max: int, window: int, es: seq<Event>, now: Time, ip: Address,
                                                   t: Time)
    requires Until(es, now)
    ensures Count(Run(max, window, es).History(ip), t - window, t) <= Max0(max)
  {
    if es != [] {
      var init, e := es[..|es| - 1], es[|es| - 1];
      NoWindowExceedsTheLimit(max, window, init, e.now, ip, t);
      RunIsFaithful(max, window, init, ip, e.now);
      NextKeepsTheLimit(Run(max, window, init), e, ip, t);
    }
  }

  /** The run with everything but the requests of `ip` left out, cleanup ticks included. */
  function Only(es: seq<Event>, ip: Address): seq<Event> {
    if es == [] then []
    else
      var init, e := es[..|es| - 1], es[|es| - 1];
      if e.Request? && e.ip == ip then Only(init, ip) + [e] else Only(init, ip)
  }

  lemma {:induction false} OnlyKeepsTime(es: seq<Event>, ip: Address, now: Time)
    requires Until(es, now)
    ensures Until(Only(es, ip), now)
  {
    if es != [] {
      var init, e := es[..|es| - 1], es[|es| - 1];
      OnlyKeepsTime(init, ip, e.now);
      UntilLater(Only(init, ip), e.now, now);
      assert (Only(init, ip) + [e])[..|Only(init, ip)|] == Only(init, ip);
    }
  }

  lemma UntilLater(es: seq<Event>, now: Time, later: Time)
    requires Until(es, now) && now <= later
    ensures Until(es, later)
  {}

  /** Addresses never influence each other, and neither do the ticks: the answer to `ip` is the
      same when only its own requests ever happened. */
  lemma {:induction false} AddressesAreIndependent(max: int, window: int, es: seq<Event>, ip: Address, now: Time)
    requires Until(es, now)
    ensures Run(max, window, es).History(ip) == Run(max, window, Only(es, ip)).History(ip)
    ensures Run(max, window, es).Allows(ip, now) <==> Run(max, window, Only(es, ip)).Allows(ip, now)
  {
    OnlyKeepsTime(es, ip, now);
    if es != [] {
      var init, e := es[..|es| - 1], es[|es| - 1];
      AddressesAreIndependent(max, window, init, ip, e.now);
      OneEvent(Run(max, window, init), e, ip);
      if e.Request? && e.ip == ip {
        assert Only(es, ip)[..|Only(es, ip)| - 1] == Only(init, ip);
        OneEvent(Run(max, window, Only(init, ip)), e, ip);
      }
    }
    AllowCountsFullHistory(max, window, es, ip, now);
    AllowCountsFullHistory(max, window, Only(es, ip), ip, now);
  }
}
