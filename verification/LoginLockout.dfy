/** Account lockout: failed logins are counted in the login_attempts table, and at five failures the
    account is locked until a later time. */
module LoginLockout {
  import opened Wrappers

  type Time = int

  datatype Username = Username(text: string)

  const MAX_FAILED_ATTEMPTS := 5

  /** A row of login_attempts; `None` stands for a NULL `locked_until`. */
  datatype LoginAttempt = LoginAttempt(failedCount: int, lockedUntil: Option<Time>)

  type Table = map<Username, LoginAttempt>

  // ---------------------------------------------------------------- the queries

  function Upserted(rows: Table, user: Username): Table {
    rows[user := if user in rows then rows[user].(failedCount := rows[user].failedCount + 1) else LoginAttempt(1, None)]
  }

  function Locked(rows: Table, user: Username, until: Time): Table {
    if user in rows then rows[user := rows[user].(lockedUntil := Some(until))] else rows
  }

  function Reset(rows: Table, user: Username): Table {
    if user in rows then rows[user := LoginAttempt(0, None)] else rows
  }

  // ---------------------------------------------------------------- the handler

  /** What the credentials turn out to be, once they are looked at. */
  datatype Credentials = Missing | UnknownUser | BadPassword | Valid

  datatype Response = InvalidCredentials | AccountLocked | LoggedIn

  predicate IsLocked(rows: Table, user: Username, now: Time) {
    user in rows && rows[user].lockedUntil.Some? && rows[user].lockedUntil.value > now
  }

  function Failed(rows: Table, user: Username, now: Time, lockout: int): Table {
    var counted := Upserted(rows, user);
    if counted[user].failedCount >= MAX_FAILED_ATTEMPTS then Locked(counted, user, now + lockout) else counted
  }

  function Login(rows: Table, user: Username, credentials: Credentials, now: Time, lockout: int): (Table, Response) {
    if credentials == Missing then (rows, InvalidCredentials)
    else if IsLocked(rows, user, now) then (rows, AccountLocked)
    else if credentials == Valid then (Reset(rows, user), LoggedIn)
    else (Failed(rows, user, now, lockout), InvalidCredentials)
  }

  class Server {
    var loginAttempts: Table
    const lockoutDuration: int

    constructor (lockoutDuration: int)
      ensures loginAttempts == map[] && this.lockoutDuration == lockoutDuration
    {
      loginAttempts := map[];
      this.lockoutDuration := lockoutDuration;
    }

    method UpsertLoginAttempt(user: Username) returns (row: LoginAttempt)
      modifies this
      ensures loginAttempts == Upserted(old(loginAttempts), user) && row == loginAttempts[user]
    {
      if user in loginAttempts {
        row := loginAttempts[user];
        row := row.(failedCount := row.failedCount + 1);
      } else {
        row := LoginAttempt(1, None);
      }
      loginAttempts := loginAttempts[user := row];
    }

    method LockAccount(user: Username, until: Time)
      modifies this
      ensures loginAttempts == Locked(old(loginAttempts), user, until)
    {
      if user in loginAttempts {
        loginAttempts := loginAttempts[user := loginAttempts[user].(lockedUntil := Some(until))];
      }
    }

    method ResetLoginAttempts(user: Username)
      modifies this
      ensures loginAttempts == Reset(old(loginAttempts), user)
    {
      if user in loginAttempts {
        loginAttempts := loginAttempts[user := LoginAttempt(0, None)];
      }
    }

    method RecordFailedAttempt(user: Username, now: Time)
      modifies this
      ensures loginAttempts == Failed(old(loginAttempts), user, now, lockoutDuration)
    {
      var attempts := UpsertLoginAttempt(user);
      if attempts.failedCount >= MAX_FAILED_ATTEMPTS {
        LockAccount(user, now + lockoutDuration);
      }
    }

    method HandleLogin(user: Username, credentials: Credentials, now: Time) returns (response: Response)
      modifies this
      ensures (loginAttempts, response) == Login(old(loginAttempts), user, credentials, now, lockoutDuration)
    {
      if credentials == Missing {
        return InvalidCredentials;
      }
      if user in loginAttempts && loginAttempts[user].lockedUntil.Some? && loginAttempts[user].lockedUntil.value > now {
        return AccountLocked;
      }
      match credentials {
        case UnknownUser | BadPassword =>
          RecordFailedAttempt(user, now);
          return InvalidCredentials;
        case Valid =>
          ResetLoginAttempts(user);
          return LoggedIn;
      }
    }
  }

  // ---------------------------------------------------------------- runs

  datatype Attempt = Attempt(user: Username, credentials: Credentials, now: Time)

  function Run(rows: Table, attempts: seq<Attempt>, lockout: int): Table {
    if attempts == [] then rows
    else
      var a := attempts[|attempts| - 1];
      Login(Run(rows, attempts[..|attempts| - 1], lockout), a.user, a.credentials, a.now, lockout).0
  }

  /** The clock shows at least `from` at the first attempt, never goes back, and shows at most `to`
      at the last. */
  predicate Within(attempts: seq<Attempt>, from: Time, to: Time) {
    if attempts == [] then from <= to
    else
      var a := attempts[|attempts| - 1];
      a.now <= to && Within(attempts[..|attempts| - 1], from, a.now)
  }

  /** The attempt got past the lock check: its credentials were looked at. */
  predicate PassesLock(rows: Table, a: Attempt) {
    a.credentials != Missing && !IsLocked(rows, a.user, a.now)
  }

  /** How many attempts for `user` got past the lock check. */
  function Passed(rows: Table, attempts: seq<Attempt>, user: Username, lockout: int): nat {
    if attempts == [] then 0
    else
      var init, a := attempts[..|attempts| - 1], attempts[|attempts| - 1];
      Passed(rows, init, user, lockout) +
      if a.user == user && PassesLock(Run(rows, init, lockout), a) then 1 else 0
  }

  /** No attempt for `user` presents the right password to the check. */
  predicate NoSuccess(rows: Table, attempts: seq<Attempt>, user: Username, lockout: int) {
    attempts != [] ==>
      var init, a := attempts[..|attempts| - 1], attempts[|attempts| - 1];
      && NoSuccess(rows, init, user, lockout)
      && !(a.user == user && PassesLock(Run(rows, init, lockout), a) && a.credentials == Valid)
  }

  function Count(rows: Table, user: Username): int {
    if user in rows then rows[user].failedCount else 0
  }

  /** Between two requests no count is negative, and an account has five failures exactly when it
      carries a lock time. */
  ghost predicate Consistent(rows: Table) {
    forall user <- rows ::
      && rows[user].failedCount >= 0
      && (rows[user].failedCount >= MAX_FAILED_ATTEMPTS <==> rows[user].lockedUntil.Some?)
  }

  lemma {:induction false} EveryRunIsConsistent(rows: Table, attempts: seq<Attempt>, lockout: int)
    requires Consistent(rows)
    ensures Consistent(Run(rows, attempts, lockout))
  {
    if attempts != [] {
      EveryRunIsConsistent(rows, attempts[..|attempts| - 1], lockout);
    }
  }

  /** The account's lock time is after the moment. */
  ghost predicate LockedAt(rows: Table, user: Username, now: Time) {
    exists until :: user in rows && rows[user].lockedUntil == Some(until) && until > now
  }

  /** In every run, an attempt logs in exactly when its credentials are valid and the account is not locked at that
      moment, and then no failure is counted and no lock is left; it is told that the account is locked exactly when
      it has credentials, of whatever kind, and the account is; and it changes nothing when it is told so, or when it
      has no credentials. */
  lemma EveryAnswerIsRight(rows: Table, attempts: seq<Attempt>, lockout: int, k: nat)
    requires k < |attempts|
    ensures
      var a, before, after := attempts[k], Run(rows, attempts[..k], lockout), Run(rows, attempts[..k + 1], lockout);
      var response := Login(before, a.user, a.credentials, a.now, lockout).1;
      && (response == LoggedIn <==> a.credentials == Valid && !LockedAt(before, a.user, a.now))
      && (response == AccountLocked <==> a.credentials != Missing && LockedAt(before, a.user, a.now))
      && (response == LoggedIn ==> Count(after, a.user) == 0 && !exists t :: LockedAt(after, a.user, t))
      && (response == AccountLocked || a.credentials == Missing ==> after == before)
      && (response == InvalidCredentials && a.credentials != Missing ==>
            Count(after, a.user) == Count(before, a.user) + 1)
  {
    assert attempts[..k + 1][..k] == attempts[..k];
    var a, before := attempts[k], Run(rows, attempts[..k], lockout);
    assert IsLocked(before, a.user, a.now) <==> LockedAt(before, a.user, a.now);
  }

  lemma LaterPassesNeedMoreTime(passed: int, lockout: int)
    requires lockout > 0
    ensures (passed + 1 - 4) * lockout == (passed - 4) * lockout + lockout
    ensures passed <= 4 ==> (passed - 4) * lockout <= 0
    ensures passed <= 5 ==> (passed - 5) * lockout <= 0
    ensures (passed + 1 - 5) * lockout == (passed - 4) * lockout
  {}

  /** What one unsuccessful attempt does to the account of `user`. */
  lemma OneAttempt(rows: Table, a: Attempt, user: Username, lockout: int)
    requires Consistent(rows)
    requires !(a.user == user && PassesLock(rows, a) && a.credentials == Valid)
    ensures
      var after := Login(rows, a.user, a.credentials, a.now, lockout).0;
      if a.user == user && PassesLock(rows, a) then
        && Count(after, user) == Count(rows, user) + 1
        && (Count(rows, user) >= MAX_FAILED_ATTEMPTS ==> rows[user].lockedUntil.value <= a.now)
        && (Count(after, user) >= MAX_FAILED_ATTEMPTS ==> after[user].lockedUntil == Some(a.now + lockout))
      else
        (user in after <==> user in rows) && (user in rows ==> after[user] == rows[user])
  {}

  /** The arithmetic of the stretch: every pass adds one failure, and from the fifth failure on every
      pass pushes the lock time up by at least one lockout. */
  lemma {:induction false} PassesPushTheLock(rows: Table, attempts: seq<Attempt>, user: Username, lockout: int,
                                             from: Time, to: Time)
    requires Consistent(rows) && lockout > 0
    requires Within(attempts, from, to) && NoSuccess(rows, attempts, user, lockout)
    ensures
      var after, passed := Run(rows, attempts, lockout), Passed(rows, attempts, user, lockout);
      && from <= to
      && Count(after, user) == Count(rows, user) + passed
      && (passed > 0 && Count(after, user) >= MAX_FAILED_ATTEMPTS ==>
            after[user].lockedUntil.Some? && after[user].lockedUntil.value >= from + (passed - 4) * lockout)
      && (passed - 5) * lockout <= to - from
  {
    if attempts == [] {
      LaterPassesNeedMoreTime(0, lockout);
    } else {
      var init, a := attempts[..|attempts| - 1], attempts[|attempts| - 1];
      PassesPushTheLock(rows, init, user, lockout, from, a.now);
      EveryRunIsConsistent(rows, init, lockout);
      var before, passed := Run(rows, init, lockout), Passed(rows, init, user, lockout);
      OneAttempt(before, a, user, lockout);
      LaterPassesNeedMoreTime(passed, lockout);
      LaterPassesNeedMoreTime(passed + 1, lockout);
    }
  }

  /** In a stretch of length `to - from` without a successful login of `user`, and with attempts of
      other users anywhere in it, at most 5 + (to - from) / lockout of its attempts get past the lock
      check. */
  lemma {:induction false} LockoutBoundsTheAttempts(rows: Table, attempts: seq<Attempt>, user: Username, lockout: int,
                                                    from: Time,
                                 to: Time)
    requires Consistent(rows) && lockout > 0
    requires Within(attempts, from, to) && NoSuccess(rows, attempts, user, lockout)
    ensures Passed(rows, attempts, user, lockout) <= MAX_FAILED_ATTEMPTS + (to - from) / lockout
  {
    PassesPushTheLock(rows, attempts, user, lockout, from, to);
    DivisionBound(Passed(rows, attempts, user, lockout) - 5, to - from, lockout);
  }

  lemma DivisionBound(n: int, length: int, unit: int)
    requires unit > 0 && n * unit <= length
    ensures n <= length / unit
  {
    var q := length / unit;
    assert (q + 1) * unit == q * unit + unit > length;
    Ordered(n, q + 1, unit);
  }

  lemma Ordered(a: int, b: int, unit: int)
    requires unit > 0
    ensures a * unit < b * unit ==> a < b
  {}

  /** What others do has no influence on an account. */
  lemma {:induction false} AccountsAreIndependent(rows: Table, attempts: seq<Attempt>, user: Username, lockout: int)
    ensures
      var all, own := Run(rows, attempts, lockout), Run(rows, Own(attempts, user), lockout);
      (user in all <==> user in own) && (user in all ==> all[user] == own[user])
  {
    if attempts != [] {
      var init, a := attempts[..|attempts| - 1], attempts[|attempts| - 1];
      AccountsAreIndependent(rows, init, user, lockout);
      if a.user == user {
        assert (Own(init, user) + [a])[..|Own(init, user)|] == Own(init, user);
      }
    }
  }

  function Own(attempts: seq<Attempt>, user: Username): seq<Attempt> {
    if attempts == [] then []
    else
      var init, a := attempts[..|attempts| - 1], attempts[|attempts| - 1];
      if a.user == user then Own(init, user) + [a] else Own(init, user)
  }
}
