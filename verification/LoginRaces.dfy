/** Account lockout with several handlers of one user under way: the lock check, the count of failures and
    the lock are separate database calls, and the clock is read between them. */
module LoginRaces {
  import opened Wrappers
  import opened LoginLockout

  /** A handler whose credentials will turn out wrong. It has read the row, got past the lock check, counted
      the failure and found that it must lock, or looked at the clock and computed the lock time. */
  datatype Handler =
    | Idle
    | Asking(seen: Option<Time>)
    | Passing
    | Counted
    | Locking(until: Time)

  /** `passed` counts the handlers that got past the lock check. */
  datatype World = World(rows: Table, handlers: seq<Handler>, now: Time, passed: nat)

  /** What happens next: time passes, a handler goes on, or something happens to another user's row. */
  datatype Step = Tick(now: Time) | Go(handler: nat) | Other(user: Username, row: LoginAttempt)

  function LockedUntil(rows: Table, user: Username): Option<Time> {
    if user in rows then rows[user].lockedUntil else None
  }

  /** The next thing a handler does. */
  function Advance(rows: Table, user: Username, h: Handler, now: Time, lockout: int): (Table, Handler) {
    match h
    case Idle => (rows, Asking(LockedUntil(rows, user)))
    case Asking(seen) => (rows, if seen.Some? && seen.value > now then Idle else Passing)
    case Passing =>
      var counted := Upserted(rows, user);
      (counted, if counted[user].failedCount >= MAX_FAILED_ATTEMPTS then Counted else Idle)
    case Counted => (rows, Locking(now + lockout))
    case Locking(until) => (Locked(rows, user, until), Idle)
  }

  function Next(w: World, user: Username, lockout: int, step: Step): (w': World)
    ensures |w'.handlers| == |w.handlers|
  {
    match step
    case Tick(now) => if now >= w.now then w.(now := now) else w
    case Other(other, row) => if other != user then w.(rows := w.rows[other := row]) else w
    case Go(i) =>
      if i >= |w.handlers| then w
      else
        var (rows, h) := Advance(w.rows, user, w.handlers[i], w.now, lockout);
        World(rows, w.handlers[i := h], w.now, if h.Passing? then w.passed + 1 else w.passed)
  }

  function Run(w: World, user: Username, lockout: int, steps: seq<Step>): (w': World)
    ensures |w'.handlers| == |w.handlers|
  {
    if steps == [] then w
    else Next(Run(w, user, lockout, steps[..|steps| - 1]), user, lockout, steps[|steps| - 1])
  }

  /** No handler is under way. */
  function Start(rows: Table, c: nat, now: Time): World {
    World(rows, seq(c, _ => Idle), now, 0)
  }

  /** A handler alone, step by step until it is idle again, does to the table what the handler in one piece does with
      a bad password, and passes just when that does. */
  lemma AloneIsLogin(w: World, user: Username, lockout: int, i: nat) returns (steps: seq<Step>)
    requires i < |w.handlers| && w.handlers[i] == Idle
    ensures forall step <- steps :: step == Go(i)
    ensures
      var w', a := Run(w, user, lockout, steps), Attempt(user, BadPassword, w.now);
      && w'.rows == Login(w.rows, user, BadPassword, w.now, lockout).0
      && w'.handlers == w.handlers && w'.now == w.now
      && w'.passed == w.passed + if PassesLock(w.rows, a) then 1 else 0
  {
    var w1 := Next(w, user, lockout, Go(i));
    var w2 := Next(w1, user, lockout, Go(i));
    var w3 := Next(w2, user, lockout, Go(i));
    var w4 := Next(w3, user, lockout, Go(i));
    steps := [Go(i)];
    RunOneMore(w, user, lockout, [], Go(i));
    RunOneMore(w, user, lockout, steps, Go(i));
    steps := steps + [Go(i)];
    assert w2.handlers == w.handlers[i := w2.handlers[i]];
    if w2.handlers[i] == Passing {
      RunOneMore(w, user, lockout, steps, Go(i));
      steps := steps + [Go(i)];
      assert w3.handlers == w.handlers[i := w3.handlers[i]];
      if w3.handlers[i] == Counted {
        RunOneMore(w, user, lockout, steps, Go(i));
        steps := steps + [Go(i)];
        RunOneMore(w, user, lockout, steps, Go(i));
        steps := steps + [Go(i)];
        assert Next(w4, user, lockout, Go(i)).handlers == w.handlers;
      }
    }
  }

  lemma RunOneMore(w: World, user: Username, lockout: int, steps: seq<Step>, step: Step)
    ensures Run(w, user, lockout, steps + [step]) == Next(Run(w, user, lockout, steps), user, lockout, step)
  {
    assert (steps + [step])[..|steps|] == steps;
  }

  // ---------------------------------------------------------------- who may still pass

  /** A lock time that ends before `bar`, or none. */
  predicate Ends(lockedUntil: Option<Time>, bar: Time) {
    lockedUntil.None? || lockedUntil.value < bar
  }

  /** Will write a lock that ends before `bar`. */
  predicate Stale(h: Handler, bar: Time) {
    h.Locking? && h.until < bar
  }

  /** May pass before `bar` without another look at the row. */
  predicate MayPass(h: Handler, bar: Time) {
    h.Asking? && Ends(h.seen, bar)
  }

  /** Has passed, and will write a lock that does not end before `bar`, if it writes one. */
  predicate Shuts(h: Handler, bar: Time) {
    h.Passing? || h.Counted? || (h.Locking? && h.until >= bar)
  }

  function StaleOnes(handlers: seq<Handler>, bar: Time): (n: nat)
    ensures n <= |handlers|
  {
    if handlers == [] then 0
    else StaleOnes(handlers[1..], bar) + if Stale(handlers[0], bar) then 1 else 0
  }

  function AskingOnes(handlers: seq<Handler>, bar: Time): (n: nat) {
    if handlers == [] then 0
    else AskingOnes(handlers[1..], bar) + if MayPass(handlers[0], bar) then 1 else 0
  }

  function ShuttingOnes(handlers: seq<Handler>, bar: Time): (n: nat) {
    if handlers == [] then 0
    else ShuttingOnes(handlers[1..], bar) + if Shuts(handlers[0], bar) then 1 else 0
  }

  lemma {:induction false} NoMoreThanThereAre(handlers: seq<Handler>, bar: Time)
    ensures StaleOnes(handlers, bar) + AskingOnes(handlers, bar) + ShuttingOnes(handlers, bar) <= |handlers|
  {
    if handlers != [] {
      NoMoreThanThereAre(handlers[1..], bar);
    }
  }

  lemma {:induction false} OneChanges(handlers: seq<Handler>, i: nat, h: Handler, bar: Time)
    requires i < |handlers|
    ensures
      var after, was := handlers[i := h], handlers[i];
      && StaleOnes(after, bar) + (if Stale(was, bar) then 1 else 0)
         == StaleOnes(handlers, bar) + (if Stale(h, bar) then 1 else 0)
      && AskingOnes(after, bar) + (if MayPass(was, bar) then 1 else 0)
         == AskingOnes(handlers, bar) + (if MayPass(h, bar) then 1 else 0)
      && ShuttingOnes(after, bar) + (if Shuts(was, bar) then 1 else 0)
         == ShuttingOnes(handlers, bar) + (if Shuts(h, bar) then 1 else 0)
  {
    if i == 0 {
      assert handlers[0 := h][1..] == handlers[1..];
    } else {
      assert handlers[i := h][1..] == handlers[1..][i - 1 := h];
      OneChanges(handlers[1..], i - 1, h, bar);
    }
  }

  /** c + (c - 1) + ... over `k` terms: each of `k` stale locks opens the account for the handlers that are not
      about to write one. */
  function Openings(c: nat, k: nat): nat
    requires k <= c
  {
    if k == 0 then 0 else Openings(c, k - 1) + (c - (k - 1))
  }

  function AllOpenings(c: nat): nat {
    Openings(c, c)
  }

  lemma {:induction false} MostOpenings(c: nat, k: nat)
    requires k <= c
    ensures Openings(c, k) <= Openings(c, k) + (c - k) <= AllOpenings(c)
    decreases c - k
  {
    if k < c {
      MostOpenings(c, k + 1);
    }
  }

  lemma {:induction false} AllOpeningsAre(c: nat)
    ensures AllOpenings(c) == c * (c + 1) / 2
  {
    OpeningsAre(c, c);
  }

  lemma {:induction false} OpeningsAre(c: nat, k: nat)
    requires k <= c
    ensures 2 * Openings(c, k) == 2 * k * c - k * (k - 1)
  {
    if k > 0 {
      OpeningsAre(c, k - 1);
    }
  }

  /** How many failures are free: they are counted without a lock. */
  function Free(rows: Table, user: Username): nat {
    var failures := Count(rows, user);
    if failures < MAX_FAILED_ATTEMPTS - 1 then MAX_FAILED_ATTEMPTS - 1 - failures else 0
  }

  /** How many handlers can still pass before `bar`. */
  function Remaining(w: World, user: Username, bar: Time): int {
    var c, stale := |w.handlers|, StaleOnes(w.handlers, bar);
    Free(w.rows, user) + Openings(c, stale)
    + if Ends(LockedUntil(w.rows, user), bar) then c - stale - ShuttingOnes(w.handlers, bar)
      else AskingOnes(w.handlers, bar)
  }

  /** A handler that is to lock the account has counted a failure, so that there is a row. */
  ghost predicate RowIsThere(w: World, user: Username) {
    user in w.rows || forall h <- w.handlers :: !h.Counted? && !h.Locking?
  }

  /** Within one lockout's time, every pass uses up one of those that remain. */
  lemma GoingOnUsesUp(w: World, user: Username, lockout: int, i: nat, bar: Time)
    requires w.now < bar <= w.now + lockout && i < |w.handlers| && RowIsThere(w, user)
    ensures
      var w' := Next(w, user, lockout, Go(i));
      RowIsThere(w', user) && w'.passed + Remaining(w', user, bar) <= w.passed + Remaining(w, user, bar)
  {
    var w' := Next(w, user, lockout, Go(i));
    NoMoreThanThereAre(w.handlers, bar);
    NoMoreThanThereAre(w'.handlers, bar);
    OneChanges(w.handlers, i, w'.handlers[i], bar);
    assert w.handlers[i] in w.handlers;
  }

  lemma StepUsesUp(w: World, user: Username, lockout: int, step: Step, bar: Time)
    requires w.now < bar <= w.now + lockout && RowIsThere(w, user)
    requires step.Tick? ==> step.now < bar
    ensures
      var w' := Next(w, user, lockout, step);
      RowIsThere(w', user) && w'.passed + Remaining(w', user, bar) <= w.passed + Remaining(w, user, bar)
  {
    if step.Go? && step.handler < |w.handlers| {
      GoingOnUsesUp(w, user, lockout, step.handler, bar);
    }
  }

  /** When the lockout's time is over, what remained is gone, and at most all openings are there again. */
  lemma NewTimeNewOpenings(w: World, user: Username, bar: Time)
    ensures Free(w.rows, user) <= Remaining(w, user, bar)
    ensures Remaining(w, user, bar) <= Free(w.rows, user) + AllOpenings(|w.handlers|)
  {
    var c, stale := |w.handlers|, StaleOnes(w.handlers, bar);
    NoMoreThanThereAre(w.handlers, bar);
    MostOpenings(c, stale);
  }

  // ---------------------------------------------------------------- the bound

  /** How many lockouts long the time since `from` is, in full. */
  function Lockouts(from: Time, now: Time, lockout: int): (n: nat)
    requires lockout > 0 && from <= now
    ensures n * lockout <= now - from < n * lockout + lockout
  {
    (now - from) / lockout
  }

  function BarAt(from: Time, now: Time, lockout: int): (bar: Time)
    requires lockout > 0 && from <= now
    ensures now < bar <= now + lockout
  {
    from + Lockouts(from, now, lockout) * lockout + lockout
  }

  /** At most `free` passes, and `c` of the handlers, and all openings once for every full lockout. */
  function MostPasses(free: nat, c: nat, lockouts: nat): nat {
    free + c + lockouts * AllOpenings(c)
  }

  ghost predicate Bounded(w: World, user: Username, lockout: int, free: nat, from: Time)
    requires lockout > 0
  {
    && from <= w.now && RowIsThere(w, user)
    && w.passed + Remaining(w, user, BarAt(from, w.now, lockout))
       <= MostPasses(free, |w.handlers|, Lockouts(from, w.now, lockout))
  }

  lemma MoreIsMore(n: nat, m: nat, unit: nat)
    requires n < m
    ensures m * unit >= n * unit + unit
  {
    assert m * unit == n * unit + (m - n) * unit;
    assert (m - n) * unit == (m - n - 1) * unit + unit;
  }

  lemma LaterLockouts(from: Time, now: Time, later: Time, lockout: int, free: nat, c: nat)
    requires lockout > 0 && from <= now <= later
    ensures
      var n, m := Lockouts(from, now, lockout), Lockouts(from, later, lockout);
      n == m || (n < m && MostPasses(free, c, m) >= MostPasses(free, c, n) + AllOpenings(c))
  {
    var n, m := Lockouts(from, now, lockout), Lockouts(from, later, lockout);
    if n < m {
      MoreIsMore(n, m, AllOpenings(c));
    } else if m < n {
      MoreIsMore(m, n, lockout);
    }
  }

  lemma TickStaysBounded(w: World, user: Username, lockout: int, free: nat, from: Time, now: Time)
    requires lockout > 0 && Bounded(w, user, lockout, free, from)
    ensures Bounded(Next(w, user, lockout, Tick(now)), user, lockout, free, from)
  {
    if now >= w.now {
      LaterLockouts(from, w.now, now, lockout, free, |w.handlers|);
      NewTimeNewOpenings(w, user, BarAt(from, w.now, lockout));
      NewTimeNewOpenings(w.(now := now), user, BarAt(from, now, lockout));
    }
  }

  lemma {:induction false} NobodyUnderWay(handlers: seq<Handler>, bar: Time)
    requires forall h <- handlers :: h == Idle
    ensures StaleOnes(handlers, bar) == AskingOnes(handlers, bar) == ShuttingOnes(handlers, bar) == 0
  {
    if handlers != [] {
      assert handlers[0] in handlers && forall h <- handlers[1..] :: h in handlers;
      NobodyUnderWay(handlers[1..], bar);
    }
  }

  lemma {:induction false} RunStaysBounded(rows: Table, c: nat, user: Username, lockout: int, from: Time,
                                           steps: seq<Step>)
    requires lockout > 0
    ensures Bounded(Run(Start(rows, c, from), user, lockout, steps), user, lockout, Free(rows, user), from)
  {
    if steps == [] {
      var w := Start(rows, c, from);
      NobodyUnderWay(w.handlers, BarAt(from, from, lockout));
    } else {
      var init, last := steps[..|steps| - 1], steps[|steps| - 1];
      RunStaysBounded(rows, c, user, lockout, from, init);
      var w := Run(Start(rows, c, from), user, lockout, init);
      if last.Tick? {
        TickStaysBounded(w, user, lockout, Free(rows, user), from, last.now);
      } else {
        StepUsesUp(w, user, lockout, last, BarAt(from, w.now, lockout));
      }
    }
  }

  /** With at most `c` handlers of a user under way at a time, in a stretch that begins with none and without a
      successful login, at most 4 + c + c * (c + 1) / 2 for every full lockout get past the lock check; fewer by
      the failures already counted. */
  lemma {:induction false} ConcurrentLockoutBound(rows: Table, c: nat, user: Username, lockout: int, from: Time,
                                                  steps: seq<Step>)
    requires Consistent(rows) && lockout > 0
    ensures
      var w := Run(Start(rows, c, from), user, lockout, steps);
      && from <= w.now
      && w.passed <= Free(rows, user) + c + (w.now - from) / lockout * (c * (c + 1) / 2)
      && Free(rows, user) <= 4
  {
    RunStaysBounded(rows, c, user, lockout, from, steps);
    var w := Run(Start(rows, c, from), user, lockout, steps);
    NewTimeNewOpenings(w, user, BarAt(from, w.now, lockout));
    AllOpeningsAre(c);
  }

  // ---------------------------------------------------------------- the bound is reached

  ghost predicate Reaches(w: World, w': World, user: Username, lockout: int) {
    exists steps :: Run(w, user, lockout, steps) == w'
  }

  lemma Stays(w: World, user: Username, lockout: int)
    ensures Reaches(w, w, user, lockout)
  {
    assert Run(w, user, lockout, []) == w;
  }

  lemma OneMore(w: World, w': World, user: Username, lockout: int, step: Step)
    requires Reaches(w, w', user, lockout)
    ensures Reaches(w, Next(w', user, lockout, step), user, lockout)
  {
    var steps :| Run(w, user, lockout, steps) == w';
    RunOneMore(w, user, lockout, steps, step);
    assert Run(w, user, lockout, steps + [step]) == Next(w', user, lockout, step);
  }

  /** A handler passes and comes as far as the lock time. */
  lemma OnePasses(start: World, w: World, user: Username, lockout: int, i: nat) returns (w': World)
    requires i < |w.handlers| && w.handlers[i] == Idle && !IsLocked(w.rows, user, w.now)
    requires Count(w.rows, user) >= MAX_FAILED_ATTEMPTS - 1
    requires Reaches(start, w, user, lockout)
    ensures Reaches(start, w', user, lockout)
    ensures w'.handlers == w.handlers[i := Locking(w.now + lockout)]
    ensures w'.now == w.now && w'.passed == w.passed + 1
    ensures user in w'.rows && !IsLocked(w'.rows, user, w.now) && Count(w'.rows, user) == Count(w.rows, user) + 1
  {
    var w1 := Next(w, user, lockout, Go(i));
    var w2 := Next(w1, user, lockout, Go(i));
    var w3 := Next(w2, user, lockout, Go(i));
    w' := Next(w3, user, lockout, Go(i));
    OneMore(start, w, user, lockout, Go(i));
    OneMore(start, w1, user, lockout, Go(i));
    OneMore(start, w2, user, lockout, Go(i));
    OneMore(start, w3, user, lockout, Go(i));
    assert w2.handlers == w.handlers[i := Passing];
    assert w3.handlers == w.handlers[i := Counted];
  }

  /** The last handlers, from `i` on, pass one after the other, and none of them locks yet. */
  lemma {:induction false} LastOnesPass(start: World, w: World, user: Username, lockout: int, i: nat)
      returns (w': World)
    requires i <= |w.handlers| && (forall j | i <= j < |w.handlers| :: w.handlers[j] == Idle)
    requires !IsLocked(w.rows, user, w.now) && Count(w.rows, user) >= MAX_FAILED_ATTEMPTS - 1
    requires Reaches(start, w, user, lockout)
    ensures Reaches(start, w', user, lockout)
    ensures |w'.handlers| == |w.handlers| && w'.handlers[..i] == w.handlers[..i]
    ensures forall j | i <= j < |w.handlers| :: w'.handlers[j] == Locking(w.now + lockout)
    ensures w'.now == w.now && w'.passed == w.passed + |w.handlers| - i
    ensures Count(w'.rows, user) >= Count(w.rows, user)
    ensures i < |w.handlers| ==> Count(w'.rows, user) >= MAX_FAILED_ATTEMPTS
    decreases |w.handlers| - i
  {
    if i == |w.handlers| {
      return w;
    }
    var w1 := OnePasses(start, w, user, lockout, i);
    w' := LastOnesPass(start, w1, user, lockout, i + 1);
    assert w'.handlers[..i] == w'.handlers[..i + 1][..i] == w1.handlers[..i + 1][..i] == w.handlers[..i];
    assert w'.handlers[i] == w'.handlers[..i + 1][i];
  }

  /** The last handlers, from `i` on, write their locks. */
  lemma {:induction false} LastOnesLock(start: World, w: World, user: Username, lockout: int, i: nat)
      returns (w': World)
    requires i <= |w.handlers| && forall j | i <= j < |w.handlers| :: w.handlers[j].Locking?
    requires Count(w.rows, user) >= MAX_FAILED_ATTEMPTS && Reaches(start, w, user, lockout)
    ensures Reaches(start, w', user, lockout)
    ensures |w'.handlers| == |w.handlers| && w'.handlers[..i] == w.handlers[..i]
    ensures forall j | i <= j < |w.handlers| :: w'.handlers[j] == Idle
    ensures w'.now == w.now && w'.passed == w.passed && Count(w'.rows, user) >= MAX_FAILED_ATTEMPTS
    decreases |w.handlers| - i
  {
    if i == |w.handlers| {
      return w;
    }
    OneMore(start, w, user, lockout, Go(i));
    var w1 := Next(w, user, lockout, Go(i));
    w' := LastOnesLock(start, w1, user, lockout, i + 1);
    assert w'.handlers[..i] == w'.handlers[..i + 1][..i] == w1.handlers[..i + 1][..i] == w.handlers[..i];
    assert w'.handlers[i] == w'.handlers[..i + 1][i];
  }

  predicate AllLocking(handlers: seq<Handler>, until: Time) {
    forall j | 0 <= j < |handlers| :: handlers[j] == Locking(until)
  }

  lemma OpenTheAccount(start: World, w: World, user: Username, lockout: int, i: nat) returns (w': World)
    requires i < |w.handlers| && w.handlers[i] == Locking(w.now)
    requires Count(w.rows, user) >= MAX_FAILED_ATTEMPTS && Reaches(start, w, user, lockout)
    ensures Reaches(start, w', user, lockout) && w'.handlers == w.handlers[i := Idle]
    ensures !IsLocked(w'.rows, user, w'.now) && Count(w'.rows, user) >= MAX_FAILED_ATTEMPTS
    ensures w'.now == w.now && w'.passed == w.passed
  {
    OneMore(start, w, user, lockout, Go(i));
    return Next(w, user, lockout, Go(i));
  }

  /** The first `k` handlers are about to write locks until the given time, the others are idle. */
  ghost predicate Waiting(handlers: seq<Handler>, k: nat, until: Time) {
    && k <= |handlers|
    && (forall j | 0 <= j < k :: handlers[j] == Locking(until))
    && forall j | k <= j < |handlers| :: handlers[j] == Idle
  }

  /** The last of the handlers that wait opens the account, it and all idle ones pass, and they lock it again. */
  lemma OneOpens(start: World, w: World, user: Username, lockout: int, k: nat) returns (w': World)
    requires k > 1 && Waiting(w.handlers, k, w.now)
    requires Count(w.rows, user) >= MAX_FAILED_ATTEMPTS && Reaches(start, w, user, lockout)
    ensures Reaches(start, w', user, lockout) && |w'.handlers| == |w.handlers| && w'.now == w.now
    ensures Waiting(w'.handlers, k - 1, w.now)
    ensures Count(w'.rows, user) >= MAX_FAILED_ATTEMPTS && w'.passed == w.passed + |w.handlers| - (k - 1)
  {
    var w1 := OpenTheAccount(start, w, user, lockout, k - 1);
    var w2 := LastOnesPass(start, w1, user, lockout, k - 1);
    w' := LastOnesLock(start, w2, user, lockout, k - 1);
    assert w'.handlers[..k - 1] == w1.handlers[..k - 1] == w.handlers[..k - 1];
    forall j | 0 <= j < k - 1
      ensures w'.handlers[j] == Locking(w.now)
    {
      assert w'.handlers[j] == w'.handlers[..k - 1][j];
    }
  }

  /** All that wait do this one after the other. Those that pass last are left waiting. */
  lemma {:induction false} StaleLocksOpen(start: World, w: World, user: Username, lockout: int, k: nat)
      returns (w': World)
    requires k > 0 && Waiting(w.handlers, k, w.now)
    requires Count(w.rows, user) >= MAX_FAILED_ATTEMPTS && Reaches(start, w, user, lockout)
    ensures Reaches(start, w', user, lockout) && w'.now == w.now
    ensures |w'.handlers| == |w.handlers| && AllLocking(w'.handlers, w.now + lockout)
    ensures Count(w'.rows, user) >= MAX_FAILED_ATTEMPTS
    ensures w'.passed == w.passed + Openings(|w.handlers|, k)
    decreases k
  {
    if k == 1 {
      var w1 := OpenTheAccount(start, w, user, lockout, 0);
      w' := LastOnesPass(start, w1, user, lockout, 0);
    } else {
      var w1 := OneOpens(start, w, user, lockout, k);
      w' := StaleLocksOpen(start, w1, user, lockout, k - 1);
    }
  }

  lemma Distributed(n: nat, unit: int)
    requires n > 0
    ensures n * unit == (n - 1) * unit + unit
  {}

  /** As many lockouts as one likes: in each of them all the openings are used. */
  lemma {:induction false} EveryLockoutIsUsed(start: World, w: World, user: Username, lockout: int, n: nat)
      returns (w': World)
    requires lockout > 0 && |w.handlers| > 0 && AllLocking(w.handlers, w.now + lockout)
    requires Count(w.rows, user) >= MAX_FAILED_ATTEMPTS && Reaches(start, w, user, lockout)
    ensures Reaches(start, w', user, lockout) && w'.now == w.now + n * lockout
    ensures |w'.handlers| == |w.handlers| && AllLocking(w'.handlers, w'.now + lockout)
    ensures Count(w'.rows, user) >= MAX_FAILED_ATTEMPTS
    ensures w'.passed == w.passed + n * AllOpenings(|w.handlers|)
  {
    if n == 0 {
      return w;
    }
    var w1 := EveryLockoutIsUsed(start, w, user, lockout, n - 1);
    OneMore(start, w1, user, lockout, Tick(w1.now + lockout));
    var w2 := Next(w1, user, lockout, Tick(w1.now + lockout));
    w' := StaleLocksOpen(start, w2, user, lockout, |w.handlers|);
    Distributed(n, lockout);
    Distributed(n, AllOpenings(|w.handlers|));
  }

  /** One attempt after the other, until the next one locks the account. */
  lemma {:induction false} FreeFailures(start: World, w: World, user: Username, lockout: int) returns (w': World)
    requires |w.handlers| > 0 && w.handlers[0] == Idle && !IsLocked(w.rows, user, w.now)
    requires Reaches(start, w, user, lockout)
    ensures Reaches(start, w', user, lockout) && w'.now == w.now && w'.handlers == w.handlers
    ensures !IsLocked(w'.rows, user, w'.now) && Count(w'.rows, user) >= MAX_FAILED_ATTEMPTS - 1
    ensures w'.passed == w.passed + Free(w.rows, user)
    decreases Free(w.rows, user)
  {
    if Free(w.rows, user) == 0 {
      return w;
    }
    var w1 := Next(w, user, lockout, Go(0));
    var w2 := Next(w1, user, lockout, Go(0));
    var w3 := Next(w2, user, lockout, Go(0));
    OneMore(start, w, user, lockout, Go(0));
    OneMore(start, w1, user, lockout, Go(0));
    OneMore(start, w2, user, lockout, Go(0));
    assert w3.handlers == w.handlers;
    w' := FreeFailures(start, w3, user, lockout);
  }

  /** The bound is exact: whatever the number of handlers and of lockouts, from an account that is not locked
      there is a run in which so many pass. */
  lemma ConcurrentBoundIsReached(rows: Table, c: nat, user: Username, lockout: int, from: Time, n: nat)
    requires lockout > 0 && c > 0 && !IsLocked(rows, user, from)
    ensures exists steps ::
              var w := Run(Start(rows, c, from), user, lockout, steps);
              w.now == from + n * lockout && w.passed == Free(rows, user) + c + n * (c * (c + 1) / 2)
  {
    var start := Start(rows, c, from);
    Stays(start, user, lockout);
    var w1 := FreeFailures(start, start, user, lockout);
    var w2 := LastOnesPass(start, w1, user, lockout, 0);
    var w3 := EveryLockoutIsUsed(start, w2, user, lockout, n);
    AllOpeningsAre(c);
    var steps :| Run(start, user, lockout, steps) == w3;
  }
}
