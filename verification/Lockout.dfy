/**
  Login lockout (backend/auth/lockout.py, backend/auth/login.py): a table of failed
  attempts, and the order in which a login checks, verifies and records. Clocks are
  in microseconds; the table stores whole seconds. Here a login is taken whole;
  LockoutOverlap takes it apart and says what that leaves out.
 */
module Lockout {
  import opened Wrappers

  const SECOND := 1_000_000

  /** A stored time: whole seconds. */
  function Stored(t: nat): nat { t / SECOND }

  datatype Row = Row(count: nat, lockedUntil: Option<nat>)

  datatype Event = LoginLocked | LoginSuccess | UnlockCli

  /** The tables `failed_attempts` and `audit_log`. */
  datatype Tables = Tables(failed: map<string, Row>, audit: seq<(Event, string)>)

  /** `lockout` is in seconds. */
  datatype Config = Config(maxAttempts: int, lockout: nat, hashIsSet: bool, admin: string)

  /** The number of failures that locks the account. */
  function Threshold(cfg: Config): nat { if cfg.maxAttempts < 1 then 1 else cfg.maxAttempts }

  /** A login: what was submitted, whether the password matches, and when the two clock readings fall. */
  datatype Try = Try(username: string, matches: bool, checkAt: nat, recordAt: nat, auditWorks: bool)

  datatype Answer = NotConfigured | InvalidCredentials | Locked(until: nat) | LoggedIn

  predicate IsLocked(t: Tables, username: string, now: nat) {
    username in t.failed && t.failed[username].lockedUntil.Some? && Stored(now) < t.failed[username].lockedUntil.value
  }

  function Audited(t: Tables, works: bool, event: Event, username: string): Tables {
    if works then t.(audit := t.audit + [(event, username)]) else t
  }

  /** The failures on record; none if there is no row yet. */
  function CountOf(t: Tables, username: string): nat { if username in t.failed then t.failed[username].count else 0 }

  /** `record_failed_attempt`. */
  function Recorded(t: Tables, cfg: Config, username: string, now: nat, auditWorks: bool): Tables {
    Upserted(t, cfg, username, CountOf(t, username) + 1, now, auditWorks)
  }

  /** The write of a failed attempt: the row, and the audit entry of a lock. */
  function Upserted(t: Tables, cfg: Config, username: string, count: nat, now: nat, auditWorks: bool): Tables {
    var until := if count >= cfg.maxAttempts then Some(Stored(now + cfg.lockout * SECOND)) else None;
    var t1 := t.(failed := t.failed[username := Row(count, until)]);
    if until.Some? then Audited(t1, auditWorks, LoginLocked, username) else t1
  }

  function Cleared(t: Tables, username: string, event: Event, auditWorks: bool): Tables {
    Audited(t.(failed := t.failed - {username}), auditWorks, event, username)
  }

  /** A login reaches the password and the password is wrong. */
  predicate FailsCheck(t: Tables, cfg: Config, try: Try) {
    cfg.hashIsSet && try.username == cfg.admin && !IsLocked(t, try.username, try.checkAt) && !try.matches
  }

  predicate Succeeds(t: Tables, cfg: Config, try: Try) {
    cfg.hashIsSet && try.username == cfg.admin && !IsLocked(t, try.username, try.checkAt) && try.matches
  }

  /** The tables after a login. */
  function AfterTry(t: Tables, cfg: Config, try: Try): Tables {
    if FailsCheck(t, cfg, try) then Recorded(t, cfg, try.username, try.recordAt, try.auditWorks)
    else if Succeeds(t, cfg, try) then Cleared(t, try.username, LoginSuccess, try.auditWorks)
    else t
  }

  class Database {
    var failed: map<string, Row>
    var audit: seq<(Event, string)>

    constructor ()
      ensures Now() == Tables(map[], [])
    {
      failed, audit := map[], [];
    }

    function Now(): Tables
      reads this
    {
      Tables(failed, audit)
    }

    method WriteAudit(works: bool, event: Event, username: string)
      modifies this`audit
      ensures Now() == Audited(old(Now()), works, event, username)
    {
      if works { audit := audit + [(event, username)]; }
    }

    method CheckLockout(username: string, now: nat) returns (until: Option<nat>)
      ensures until.Some? <==> IsLocked(Now(), username, now)
      ensures until.Some? ==> until == failed[username].lockedUntil
    {
      if username !in failed || failed[username].lockedUntil.None? { return None; }
      if Stored(now) < failed[username].lockedUntil.value { return failed[username].lockedUntil; }
      return None;
    }

    method RecordFailedAttempt(cfg: Config, username: string, now: nat, auditWorks: bool)
      modifies this
      ensures Now() == Recorded(old(Now()), cfg, username, now, auditWorks)
    {
      var count := 0;
      if username in failed { count := failed[username].count; }
      count := count + 1;
      var until: Option<nat> := None;
      if count >= cfg.maxAttempts { until := Some(Stored(now + cfg.lockout * SECOND)); }
      failed := failed[username := Row(count, until)];
      if until.Some? { WriteAudit(auditWorks, LoginLocked, username); }
    }

    method RecordSuccessfulLogin(username: string, auditWorks: bool)
      modifies this
      ensures Now() == Cleared(old(Now()), username, LoginSuccess, auditWorks)
    {
      failed := failed - {username};
      WriteAudit(auditWorks, LoginSuccess, username);
    }

    /** `clear_lockout`: the owner's unlock command. */
    method ClearLockout(username: string, auditWorks: bool) returns (found: bool)
      modifies this
      ensures found <==> username in old(failed)
      ensures Now() == if found then Cleared(old(Now()), username, UnlockCli, auditWorks) else old(Now())
    {
      if username !in failed { return false; }
      failed := failed - {username};
      WriteAudit(auditWorks, UnlockCli, username);
      return true;
    }

    /** `authenticate_user`: nothing is written before the lockout check, and a locked account is never verified. */
    method AuthenticateUser(cfg: Config, try: Try) returns (answer: Answer)
      modifies this
      ensures Now() == AfterTry(old(Now()), cfg, try)
      ensures answer.NotConfigured? <==> !cfg.hashIsSet
      ensures answer.LoggedIn? <==> Succeeds(old(Now()), cfg, try)
      ensures answer.Locked? <==>
                cfg.hashIsSet && try.username == cfg.admin && IsLocked(old(Now()), cfg.admin, try.checkAt)
      ensures answer.Locked? ==> Some(answer.until) == old(failed)[cfg.admin].lockedUntil
      ensures answer.InvalidCredentials? <==>
                cfg.hashIsSet && (try.username != cfg.admin || FailsCheck(old(Now()), cfg, try))
    {
      if !cfg.hashIsSet { return NotConfigured; }
      if try.username != cfg.admin { return InvalidCredentials; }
      var until := CheckLockout(try.username, try.checkAt);
      if until.Some? { return Locked(until.value); }
      if !try.matches {
        RecordFailedAttempt(cfg, try.username, try.recordAt, try.auditWorks);
        return InvalidCredentials;
      }
      RecordSuccessfulLogin(try.username, try.auditWorks);
      return LoggedIn;
    }
  }

  /******* Runs *******/

  /** Logins follow one another: each is recorded before the next is checked, on a clock that never runs backwards. */
  predicate OneAtATime(run: seq<Try>) {
    && (forall i :: 0 <= i < |run| ==> run[i].checkAt <= run[i].recordAt)
    && (forall i :: 0 < i < |run| ==> run[i - 1].recordAt <= run[i].checkAt)
  }

  function After(t: Tables, cfg: Config, run: seq<Try>): Tables {
    if run == [] then t else AfterTry(After(t, cfg, run[..|run| - 1]), cfg, run[|run| - 1])
  }

  /** No login of the run succeeds. */
  predicate NoSuccess(t: Tables, cfg: Config, run: seq<Try>) {
    forall i :: 0 <= i < |run| ==> !Succeeds(After(t, cfg, run[..i]), cfg, run[i])
  }

  /** The recording times of the failed checks of a run, in order. */
  function FailedAt(t: Tables, cfg: Config, run: seq<Try>): seq<nat> {
    if run == [] then []
    else
      var front, last := run[..|run| - 1], run[|run| - 1];
      FailedAt(t, cfg, front) + if FailsCheck(After(t, cfg, front), cfg, last) then [last.recordAt] else []
  }

  function Product(k: int, lockout: nat): int { k * lockout }

  lemma NextProduct(k: int, lockout: nat)
    ensures Product(k + 1, lockout) == Product(k, lockout) + lockout
  {
  }

  lemma StoredLater(t: nat, seconds: nat)
    ensures Stored(t + seconds * SECOND) == Stored(t) + seconds
  {
  }

  lemma StoredMonotone(a: nat, b: nat)
    requires a <= b
    ensures Stored(a) <= Stored(b)
  {
  }

  /** Where the row of the admin stands after a run without success. */
  predicate Standing(t: Tables, cfg: Config, times: seq<nat>) {
    times != [] ==>
      && cfg.admin in t.failed && t.failed[cfg.admin].count >= |times|
      && (|times| >= Threshold(cfg) ==>
            && t.failed[cfg.admin].lockedUntil == Some(Stored(times[|times| - 1]) + cfg.lockout)
            && Product(|times| - Threshold(cfg), cfg.lockout) <= Stored(times[|times| - 1]) - Stored(times[0]))
      && AllBy(times, times[|times| - 1])
  }

  lemma FailureStands(t: Tables, cfg: Config, times: seq<nat>, try: Try)
    requires Standing(t, cfg, times) && FailsCheck(t, cfg, try)
    requires times != [] ==> times[|times| - 1] <= try.checkAt
    requires try.checkAt <= try.recordAt
    ensures Standing(AfterTry(t, cfg, try), cfg, times + [try.recordAt])
  {
    StoredLater(try.recordAt, cfg.lockout);
    StoredMonotone(try.checkAt, try.recordAt);
    var n := |times| + 1;
    if n > Threshold(cfg) {
      NextProduct(n - 1 - Threshold(cfg), cfg.lockout);
      assert Stored(try.checkAt) >= Stored(times[|times| - 1]) + cfg.lockout;
    } else if n == Threshold(cfg) {
      assert Product(0, cfg.lockout) == 0;
      if times != [] { StoredMonotone(times[0], try.recordAt); }
    }
  }

  predicate AllBy(times: seq<nat>, bound: nat) { forall i :: 0 <= i < |times| ==> times[i] <= bound }

  lemma {:induction false} FailuresPrecede(t: Tables, cfg: Config, run: seq<Try>)
    requires OneAtATime(run) && run != []
    ensures AllBy(FailedAt(t, cfg, run), run[|run| - 1].recordAt)
    decreases |run|
  {
    var front, last := run[..|run| - 1], run[|run| - 1];
    if front != [] {
      FailuresPrecede(t, cfg, front);
      assert run[|front| - 1].recordAt <= last.checkAt <= last.recordAt;
    }
  }

  /** A run that ends well begins well. */
  lemma FrontOfRun(t: Tables, cfg: Config, run: seq<Try>)
    requires run != [] && NoSuccess(t, cfg, run)
    ensures NoSuccess(t, cfg, run[..|run| - 1])
    ensures !Succeeds(After(t, cfg, run[..|run| - 1]), cfg, run[|run| - 1])
  {
    var front := run[..|run| - 1];
    assert forall i :: 0 <= i < |front| ==> front[..i] == run[..i] && front[i] == run[i];
  }

  lemma {:induction false} RunStands(t: Tables, cfg: Config, run: seq<Try>)
    requires OneAtATime(run) && NoSuccess(t, cfg, run)
    ensures Standing(After(t, cfg, run), cfg, FailedAt(t, cfg, run))
    decreases |run|
  {
    if run != [] {
      var front := run[..|run| - 1];
      FrontOfRun(t, cfg, run);
      RunStands(t, cfg, front);
      FailuresBeforeLast(t, cfg, run);
      OneMoreStands(After(t, cfg, front), cfg, FailedAt(t, cfg, front), run[|run| - 1]);
    }
  }

  lemma FailuresBeforeLast(t: Tables, cfg: Config, run: seq<Try>)
    requires OneAtATime(run) && run != []
    ensures AllBy(FailedAt(t, cfg, run[..|run| - 1]), run[|run| - 1].checkAt)
  {
    var front := run[..|run| - 1];
    if front != [] {
      FailuresPrecede(t, cfg, front);
      assert run[|front| - 1].recordAt <= run[|run| - 1].checkAt;
    }
  }

  lemma OneMoreStands(t: Tables, cfg: Config, times: seq<nat>, try: Try)
    requires Standing(t, cfg, times) && !Succeeds(t, cfg, try)
    requires AllBy(times, try.checkAt) && try.checkAt <= try.recordAt
    ensures Standing(AfterTry(t, cfg, try), cfg, times + if FailsCheck(t, cfg, try) then [try.recordAt] else [])
  {
    if FailsCheck(t, cfg, try) { FailureStands(t, cfg, times, try); } else { assert times + [] == times; }
  }

  /**
    The rate bound: without a success or an unlock, n failed password checks need n - threshold lockout
    periods, measured on the stored clock from the first to the last.
   */
  lemma FailureRate(t: Tables, cfg: Config, run: seq<Try>)
    requires OneAtATime(run) && NoSuccess(t, cfg, run)
    ensures var times := FailedAt(t, cfg, run);
            |times| >= Threshold(cfg) ==>
              (|times| - Threshold(cfg)) * cfg.lockout <= Stored(times[|times| - 1]) - Stored(times[0])
  {
    RunStands(t, cfg, run);
  }

  /** On the exact clock the bound is missed by less than a second. */
  lemma FailureRateExact(t: Tables, cfg: Config, run: seq<Try>)
    requires OneAtATime(run) && NoSuccess(t, cfg, run)
    ensures var times := FailedAt(t, cfg, run);
            |times| >= Threshold(cfg) ==>
              (|times| - Threshold(cfg)) * cfg.lockout * SECOND < times[|times| - 1] - times[0] + SECOND
  {
    RunStands(t, cfg, run);
    var times := FailedAt(t, cfg, run);
    if |times| >= Threshold(cfg) {
      var first, last := times[0], times[|times| - 1];
      assert first == Stored(first) * SECOND + first % SECOND && last == Stored(last) * SECOND + last % SECOND;
    }
  }

  /** The bound on the exact clock. */
  predicate ExactBound(cfg: Config, times: seq<nat>) {
    |times| >= Threshold(cfg) ==>
      times[0] + (|times| - Threshold(cfg)) * cfg.lockout * SECOND <= times[|times| - 1]
  }

  /** A run of single logins without success whose first failure falls at t0. */
  predicate FailsFirstAt(t: Tables, cfg: Config, run: seq<Try>, t0: nat) {
    && OneAtATime(run) && NoSuccess(t, cfg, run)
    && FailedAt(t, cfg, run) != [] && FailedAt(t, cfg, run)[0] == t0
  }

  /** The bound holds on the exact clock exactly for the runs whose first failure falls on a whole second. */
  lemma ExactBoundIffWholeSecond(cfg: Config, t0: nat)
    requires cfg.hashIsSet
    ensures (forall t: Tables, run: seq<Try> :: FailsFirstAt(t, cfg, run, t0) ==>
              ExactBound(cfg, FailedAt(t, cfg, run)))
       <==> cfg.lockout == 0 || t0 % SECOND == 0
  {
    if cfg.lockout == 0 || t0 % SECOND == 0 {
      forall t: Tables, run: seq<Try> | FailsFirstAt(t, cfg, run, t0) ensures ExactBound(cfg, FailedAt(t, cfg, run)) {
        WholeSecondIsExact(t, cfg, run, t0);
      }
    } else {
      var run := BrokenSecondMisses(cfg, t0);
      var t := Tables(map[], []);
      assert FailsFirstAt(t, cfg, run, t0) && !ExactBound(cfg, FailedAt(t, cfg, run));
    }
  }

  lemma WholeSecondIsExact(t: Tables, cfg: Config, run: seq<Try>, t0: nat)
    requires FailsFirstAt(t, cfg, run, t0) && (cfg.lockout == 0 || t0 % SECOND == 0)
    ensures ExactBound(cfg, FailedAt(t, cfg, run))
  {
    RunStands(t, cfg, run);
    StoredBoundIsExact(cfg, FailedAt(t, cfg, run));
  }

  lemma StoredBoundIsExact(cfg: Config, times: seq<nat>)
    requires times != [] && times[0] <= times[|times| - 1] && (cfg.lockout == 0 || times[0] % SECOND == 0)
    requires |times| >= Threshold(cfg) ==>
               Product(|times| - Threshold(cfg), cfg.lockout) <= Stored(times[|times| - 1]) - Stored(times[0])
    ensures ExactBound(cfg, times)
  {
    if |times| >= Threshold(cfg) && cfg.lockout > 0 {
      WholeSecondsLater(times[0], times[|times| - 1], Product(|times| - Threshold(cfg), cfg.lockout));
    }
  }

  lemma WholeSecondsLater(first: nat, last: nat, seconds: int)
    requires first % SECOND == 0 && seconds <= Stored(last) - Stored(first)
    ensures first + seconds * SECOND <= last
  {
    assert first == Stored(first) * SECOND && Stored(last) * SECOND <= last;
  }

  function WrongAt(cfg: Config, now: nat): Try { Try(cfg.admin, false, now, now, true) }

  function Repeated(x: nat, n: nat): (r: seq<nat>)
    ensures |r| == n && forall i :: 0 <= i < n ==> r[i] == x
  {
    if n == 0 then [] else Repeated(x, n - 1) + [x]
  }

  function WrongTimes(cfg: Config, now: nat, n: nat): (r: seq<Try>)
    ensures |r| == n && forall i :: 0 <= i < n ==> r[i] == WrongAt(cfg, now)
  {
    if n == 0 then [] else WrongTimes(cfg, now, n - 1) + [WrongAt(cfg, now)]
  }

  /** A run goes on with one more failure. */
  lemma OneMoreFailure(t: Tables, cfg: Config, front: seq<Try>, try: Try)
    requires NoSuccess(t, cfg, front) && FailsCheck(After(t, cfg, front), cfg, try)
    ensures var run := front + [try];
            && NoSuccess(t, cfg, run) && FailedAt(t, cfg, run) == FailedAt(t, cfg, front) + [try.recordAt]
            && After(t, cfg, run) == AfterTry(After(t, cfg, front), cfg, try)
  {
    var run := front + [try];
    assert run[..|run| - 1] == front;
    forall i | 0 <= i < |run| ensures !Succeeds(After(t, cfg, run[..i]), cfg, run[i]) {
      if i < |front| { assert run[..i] == front[..i] && run[i] == front[i]; }
    }
  }

  /** The run has failed n times, at t0 each time. */
  predicate FailedAtOnce(t: Tables, cfg: Config, run: seq<Try>, t0: nat, n: nat) {
    NoSuccess(t, cfg, run) && FailedAt(t, cfg, run) == Repeated(t0, n) && AtOnce(After(t, cfg, run), cfg, t0, n)
  }

  /** Failures at one instant, up to the threshold. */
  lemma {:induction false} FailuresAtOnce(cfg: Config, t0: nat, n: nat)
    requires cfg.hashIsSet && n <= Threshold(cfg)
    ensures FailedAtOnce(Tables(map[], []), cfg, WrongTimes(cfg, t0, n), t0, n)
    decreases n
  {
    if n > 0 {
      FailuresAtOnce(cfg, t0, n - 1);
      OneMoreFailsAtOnce(Tables(map[], []), cfg, WrongTimes(cfg, t0, n - 1), t0, n - 1);
    }
  }

  lemma OneMoreFailsAtOnce(t: Tables, cfg: Config, front: seq<Try>, t0: nat, n: nat)
    requires cfg.hashIsSet && n < Threshold(cfg) && FailedAtOnce(t, cfg, front, t0, n)
    ensures FailedAtOnce(t, cfg, front + [WrongAt(cfg, t0)], t0, n + 1)
  {
    OneMoreAtOnce(After(t, cfg, front), cfg, t0, n);
    OneMoreFailure(t, cfg, front, WrongAt(cfg, t0));
  }

  lemma OneMoreAtOnce(t: Tables, cfg: Config, t0: nat, n: nat)
    requires cfg.hashIsSet && n < Threshold(cfg) && AtOnce(t, cfg, t0, n)
    ensures FailsCheck(t, cfg, WrongAt(cfg, t0)) && AtOnce(AfterTry(t, cfg, WrongAt(cfg, t0)), cfg, t0, n + 1)
  {
    StoredLater(t0, cfg.lockout);
  }

  /** The tables after n failures at t0. */
  predicate AtOnce(t: Tables, cfg: Config, t0: nat, n: nat) {
    if n == 0 then cfg.admin !in t.failed
    else
      && cfg.admin in t.failed
      && t.failed[cfg.admin] == Row(n, if n >= Threshold(cfg) then Some(Stored(t0) + cfg.lockout) else None)
  }

  /**
    For every threshold, every lockout and every first failure within a second, a run misses the bound: as many
    failures at t0 as lock the account, and one more when the lock ends, at the start of a second.
   */
  lemma BrokenSecondMisses(cfg: Config, t0: nat) returns (run: seq<Try>)
    requires cfg.hashIsSet && cfg.lockout > 0 && t0 % SECOND != 0
    ensures run == WrongTimes(cfg, t0, Threshold(cfg)) + [WrongAt(cfg, (Stored(t0) + cfg.lockout) * SECOND)]
    ensures FailsFirstAt(Tables(map[], []), cfg, run, t0)
    ensures !ExactBound(cfg, FailedAt(Tables(map[], []), cfg, run))
  {
    FailuresAtOnce(cfg, t0, Threshold(cfg));
    EndOfSecond(t0, cfg.lockout);
    run := MissingRun(Tables(map[], []), cfg, WrongTimes(cfg, t0, Threshold(cfg)), t0);
  }

  lemma MissingRun(t: Tables, cfg: Config, front: seq<Try>, t0: nat) returns (run: seq<Try>)
    requires cfg.hashIsSet && NoSuccess(t, cfg, front) && AtOnce(After(t, cfg, front), cfg, t0, Threshold(cfg))
    requires |front| == Threshold(cfg) && forall i :: 0 <= i < |front| ==> front[i] == WrongAt(cfg, t0)
    requires FailedAt(t, cfg, front) == Repeated(t0, Threshold(cfg))
    requires t0 < (Stored(t0) + cfg.lockout) * SECOND < t0 + cfg.lockout * SECOND
    ensures run == front + [WrongAt(cfg, (Stored(t0) + cfg.lockout) * SECOND)]
    ensures FailsFirstAt(t, cfg, run, t0) && !ExactBound(cfg, FailedAt(t, cfg, run))
  {
    var last := (Stored(t0) + cfg.lockout) * SECOND;
    run := front + [WrongAt(cfg, last)];
    OneMoreOnTheSecond(t, cfg, front, t0);
    OneTooEarly(cfg, t0, last);
  }

  lemma OneTooEarly(cfg: Config, t0: nat, last: nat)
    requires last < t0 + cfg.lockout * SECOND
    ensures !ExactBound(cfg, Repeated(t0, Threshold(cfg)) + [last])
  {
  }

  lemma EndOfSecond(t0: nat, lockout: nat)
    requires lockout > 0 && t0 % SECOND != 0
    ensures t0 < (Stored(t0) + lockout) * SECOND < t0 + lockout * SECOND
  {
    assert t0 == Stored(t0) * SECOND + t0 % SECOND;
    assert (Stored(t0) + lockout) * SECOND == Stored(t0) * SECOND + lockout * SECOND;
  }

  lemma OneMoreOnTheSecond(t: Tables, cfg: Config, front: seq<Try>, t0: nat)
    requires cfg.hashIsSet && NoSuccess(t, cfg, front) && AtOnce(After(t, cfg, front), cfg, t0, Threshold(cfg))
    ensures var last := (Stored(t0) + cfg.lockout) * SECOND;
            && NoSuccess(t, cfg, front + [WrongAt(cfg, last)])
            && FailedAt(t, cfg, front + [WrongAt(cfg, last)]) == FailedAt(t, cfg, front) + [last]
  {
    OpensOnTheSecond(After(t, cfg, front), cfg, t0);
    OneMoreFailure(t, cfg, front, WrongAt(cfg, (Stored(t0) + cfg.lockout) * SECOND));
  }

  lemma OpensOnTheSecond(t: Tables, cfg: Config, t0: nat)
    requires cfg.hashIsSet && AtOnce(t, cfg, t0, Threshold(cfg))
    ensures FailsCheck(t, cfg, WrongAt(cfg, (Stored(t0) + cfg.lockout) * SECOND))
  {
  }

  /** The tables after a login, spelled out. Only a login under the configured name that is not locked out counts. */
  lemma TryExact(t: Tables, cfg: Config, try: Try)
    ensures var after := AfterTry(t, cfg, try); var name := cfg.admin;
            var locked := name in t.failed && t.failed[name].lockedUntil.Some?
                          && Stored(try.checkAt) < t.failed[name].lockedUntil.value;
            var counts := cfg.hashIsSet && try.username == name && !locked;
            && (forall n :: n != name ==> (n in after.failed <==> n in t.failed))
            && (forall n :: n != name && n in t.failed ==> after.failed[n] == t.failed[n])
            && (!counts ==> after == t)
            && (counts && try.matches ==>
                  && name !in after.failed
                  && after.audit == t.audit + if try.auditWorks then [(LoginSuccess, name)] else [])
            && (counts && !try.matches ==>
                  var count := 1 + if name in t.failed then t.failed[name].count else 0;
                  var locks := count >= Threshold(cfg);
                  && name in after.failed && after.failed[name].count == count
                  && after.failed[name].lockedUntil
                       == (if locks then Some(Stored(try.recordAt) + cfg.lockout) else None)
                  && after.audit == t.audit + if locks && try.auditWorks then [(LoginLocked, name)] else [])
  {
    StoredLater(try.recordAt, cfg.lockout);
    assert t.audit + [] == t.audit;
  }

  /** A success starts the count anew: of the logins after it, too, exactly the threshold-th failure locks. */
  lemma SuccessStartsAnew(t: Tables, cfg: Config, try: Try, run: seq<Try>)
    requires Succeeds(t, cfg, try) && NoSuccess(AfterTry(t, cfg, try), cfg, run)
    ensures var after := AfterTry(t, cfg, try); var n, end := |FailedAt(after, cfg, run)|, After(after, cfg, run);
            && (cfg.admin in end.failed <==> n > 0)
            && (n > 0 ==> end.failed[cfg.admin].count == n)
            && (n > 0 ==> (end.failed[cfg.admin].lockedUntil.Some? <==> n >= Threshold(cfg)))
  {
    TryExact(t, cfg, try);
    LocksAtTheThreshold(AfterTry(t, cfg, try), cfg, run);
  }

  /** From a cleared account, exactly the threshold-th failure locks it. */
  lemma {:induction false} LocksAtTheThreshold(t: Tables, cfg: Config, run: seq<Try>)
    requires NoSuccess(t, cfg, run) && cfg.admin !in t.failed
    ensures var n, end := |FailedAt(t, cfg, run)|, After(t, cfg, run);
            && (cfg.admin in end.failed <==> n > 0)
            && (n > 0 ==> end.failed[cfg.admin].count == n)
            && (n > 0 ==> (end.failed[cfg.admin].lockedUntil.Some? <==> n >= Threshold(cfg)))
    decreases |run|
  {
    if run != [] {
      FrontOfRun(t, cfg, run);
      LocksAtTheThreshold(t, cfg, run[..|run| - 1]);
    }
  }

  /** Whatever is submitted while the account is locked, the lock ends on time: no login moves it. */
  lemma {:induction false} LockedLoginsChangeNothing(t: Tables, cfg: Config, run: seq<Try>)
    requires forall i :: 0 <= i < |run| ==> IsLocked(t, cfg.admin, run[i].checkAt)
    ensures After(t, cfg, run) == t && FailedAt(t, cfg, run) == []
    decreases |run|
  {
    if run != [] { LockedLoginsChangeNothing(t, cfg, run[..|run| - 1]); }
  }
}
