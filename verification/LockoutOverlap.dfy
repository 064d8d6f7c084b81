/**
  Logins that overlap. A login with a wrong password checks the lock, reads the count
  and writes it in three separate accesses to the database, and nothing keeps another
  login from running in between. The rate bound of the lockout holds of all runs if
  and only if at most one login is in flight.
 */
module LockoutOverlap {
  import opened Wrappers
  import opened Lockout

  /** How far a login with a wrong password has come: past the lock, or with the count in hand. */
  datatype Progress = Checked | HasRead(count: nat)

  /** The tables, the logins in flight, and the times at which failures were recorded so far. */
  datatype World = World(tables: Tables, inFlight: map<nat, Progress>, failures: seq<nat>)

  /** One access of one login. A login that finds the account locked ends there. */
  datatype Event =
    | Check(login: nat, now: nat)
    | Read(login: nat, now: nat)
    | Write(login: nat, now: nat, auditWorks: bool)

  function Start(t: Tables): World { World(t, map[], []) }

  function AfterEvent(w: World, cfg: Config, e: Event): World {
    match e
    case Check(j, now) =>
      if !cfg.hashIsSet || j in w.inFlight || IsLocked(w.tables, cfg.admin, now) then w
      else w.(inFlight := w.inFlight[j := Checked])
    case Read(j, _) =>
      if j !in w.inFlight || !w.inFlight[j].Checked? then w
      else w.(inFlight := w.inFlight[j := HasRead(CountOf(w.tables, cfg.admin))])
    case Write(j, now, works) =>
      if j !in w.inFlight || !w.inFlight[j].HasRead? then w
      else
        World(Upserted(w.tables, cfg, cfg.admin, w.inFlight[j].count + 1, now, works),
              w.inFlight - {j}, w.failures + [now])
  }

  function AfterEvents(w: World, cfg: Config, run: seq<Event>): World
    decreases |run|
  {
    if run == [] then w else AfterEvents(AfterEvent(w, cfg, run[0]), cfg, run[1..])
  }

  /** The clock never runs backwards. */
  predicate InOrder(run: seq<Event>) { forall i, j :: 0 <= i < j < |run| ==> run[i].now <= run[j].now }

  /** Never more than m logins are in flight. */
  predicate FlightAtMost(w: World, cfg: Config, run: seq<Event>, m: nat)
    decreases |run|
  {
    |w.inFlight| <= m && (run != [] ==> FlightAtMost(AfterEvent(w, cfg, run[0]), cfg, run[1..], m))
  }

  /** The rate bound, on the stored clock. */
  predicate RateBound(cfg: Config, times: seq<nat>) {
    |times| >= Threshold(cfg) ==>
      (|times| - Threshold(cfg)) * cfg.lockout <= Stored(times[|times| - 1]) - Stored(times[0])
  }

  /** The bound holds of every run with at most m logins in flight exactly if m is at most one. */
  lemma RateBoundIffOneInFlight(cfg: Config, m: nat)
    requires cfg.hashIsSet && cfg.lockout > 0
    ensures (forall t: Tables, run: seq<Event> ::
               InOrder(run) && FlightAtMost(Start(t), cfg, run, m) ==>
                 RateBound(cfg, AfterEvents(Start(t), cfg, run).failures))
       <==> m <= 1
  {
    if m <= 1 {
      forall t: Tables, run: seq<Event> | InOrder(run) && FlightAtMost(Start(t), cfg, run, m)
        ensures RateBound(cfg, AfterEvents(Start(t), cfg, run).failures)
      {
        AloneIsBounded(Start(t), cfg, run, 0, m);
      }
    } else {
      var t, run := Tables(map[], []), Rounds(Threshold(cfg), 2, 0);
      RoundsRun(Start(t), cfg, 0, Threshold(cfg), 2, 0, m);
      RoundsInOrder(Threshold(cfg), 2, 0);
      var times := AfterEvents(Start(t), cfg, run).failures;
      assert |times| == Threshold(cfg) * 2 && times[0] == 0 && times[|times| - 1] == 0;
      AtLeastOne(Threshold(cfg), cfg.lockout);
      assert !RateBound(cfg, times);
    }
  }

  lemma AtLeastOne(a: nat, b: nat)
    requires a > 0 && b > 0
    ensures a * b > 0
  {
  }

  /******* One login at a time *******/

  /**
    With one login in flight, it still holds what it has read, and the account has not been locked since it checked.
   */
  ghost predicate Alone(w: World, cfg: Config, now: nat) {
    && Standing(w.tables, cfg, w.failures) && AllBy(w.failures, now)
    && |w.inFlight| <= 1
    && forall j :: j in w.inFlight ==>
         && !IsLocked(w.tables, cfg.admin, now)
         && (w.inFlight[j].HasRead? ==> w.inFlight[j].count == CountOf(w.tables, cfg.admin))
  }

  lemma OnlyOne(m: map<nat, Progress>, j: nat)
    requires |m| <= 1 && j in m
    ensures m - {j} == map[] && forall k :: k in m ==> k == j
  {
    var others := m.Keys - {j};
    assert m.Keys == others + {j} && |m.Keys| == |m|;
    assert others == {};
    forall k | k in m ensures k == j { assert k in others + {j}; }
  }

  lemma LaterStillOpen(w: World, cfg: Config, now: nat, later: nat)
    requires Alone(w, cfg, now) && now <= later
    ensures Alone(w, cfg, later)
  {
    StoredMonotone(now, later);
  }

  lemma EventKeepsAlone(w: World, cfg: Config, e: Event)
    requires Alone(w, cfg, e.now) && |AfterEvent(w, cfg, e).inFlight| <= 1 && cfg.hashIsSet
    ensures Alone(AfterEvent(w, cfg, e), cfg, e.now)
  {
    var w' := AfterEvent(w, cfg, e);
    if e.login in w.inFlight { OnlyOne(w.inFlight, e.login); }
    if e.login in w'.inFlight { OnlyOne(w'.inFlight, e.login); }
    if e.Write? && e.login in w.inFlight && w.inFlight[e.login].HasRead? {
      var try := Try(cfg.admin, false, e.now, e.now, e.auditWorks);
      FailureStands(w.tables, cfg, w.failures, try);
      assert AfterTry(w.tables, cfg, try) == w'.tables;
    }
  }

  lemma {:induction false} AloneIsBounded(w: World, cfg: Config, run: seq<Event>, now: nat, m: nat)
    requires Alone(w, cfg, now) && m <= 1 && cfg.hashIsSet
    requires InOrder(run) && FlightAtMost(w, cfg, run, m) && (run != [] ==> now <= run[0].now)
    ensures RateBound(cfg, AfterEvents(w, cfg, run).failures)
    decreases |run|
  {
    if run == [] {
      assert Standing(w.tables, cfg, w.failures);
    } else {
      LaterStillOpen(w, cfg, now, run[0].now);
      EventKeepsAlone(w, cfg, run[0]);
      AloneIsBounded(AfterEvent(w, cfg, run[0]), cfg, run[1..], run[0].now, m);
    }
  }

  /******* Many logins at once *******/

  function Checks(k: nat, n: nat, now: nat): seq<Event>
    decreases n - k
  {
    if n <= k then [] else [Check(k, now)] + Checks(k + 1, n, now)
  }

  function Reads(k: nat, n: nat, now: nat): seq<Event>
    decreases n - k
  {
    if n <= k then [] else [Read(k, now)] + Reads(k + 1, n, now)
  }

  function Writes(k: nat, n: nat, now: nat): seq<Event>
    decreases n - k
  {
    if n <= k then [] else [Write(k, now, true)] + Writes(k + 1, n, now)
  }

  /** n logins at one instant: all check, then all read, then all write. */
  function Burst(n: nat, now: nat): seq<Event> { Checks(0, n, now) + Reads(0, n, now) + Writes(0, n, now) }

  function Rounds(r: nat, n: nat, now: nat): seq<Event> {
    if r == 0 then [] else Burst(n, now) + Rounds(r - 1, n, now)
  }

  lemma Concatenated(w: World, cfg: Config, a: seq<Event>, b: seq<Event>, m: nat)
    ensures AfterEvents(w, cfg, a + b) == AfterEvents(AfterEvents(w, cfg, a), cfg, b)
    ensures FlightAtMost(w, cfg, a, m) && FlightAtMost(AfterEvents(w, cfg, a), cfg, b, m) ==>
              FlightAtMost(w, cfg, a + b, m)
  {
    AfterConcatenated(w, cfg, a, b);
    FlightConcatenated(w, cfg, a, b, m);
  }

  lemma {:induction false} AfterConcatenated(w: World, cfg: Config, a: seq<Event>, b: seq<Event>)
    ensures AfterEvents(w, cfg, a + b) == AfterEvents(AfterEvents(w, cfg, a), cfg, b)
    decreases |a|
  {
    if a == [] {
      assert a + b == b;
    } else {
      AfterConcatenated(AfterEvent(w, cfg, a[0]), cfg, a[1..], b);
      assert (a + b)[1..] == a[1..] + b;
    }
  }

  lemma {:induction false} FlightConcatenated(w: World, cfg: Config, a: seq<Event>, b: seq<Event>, m: nat)
    ensures FlightAtMost(w, cfg, a, m) && FlightAtMost(AfterEvents(w, cfg, a), cfg, b, m) ==>
              FlightAtMost(w, cfg, a + b, m)
    decreases |a|
  {
    if a == [] {
      assert a + b == b;
    } else {
      FlightConcatenated(AfterEvent(w, cfg, a[0]), cfg, a[1..], b, m);
      assert (a + b)[1..] == a[1..] + b;
    }
  }

  /** Logins from k to n in flight: those before i have read the count c. */
  function Flying(k: nat, n: nat, i: nat, c: nat): map<nat, Progress>
    decreases n - k
  {
    if n <= k then map[] else Flying(k + 1, n, i, c)[k := if k < i then HasRead(c) else Checked]
  }

  lemma {:induction false} FlyingExact(k: nat, n: nat, i: nat, c: nat)
    ensures forall j :: j in Flying(k, n, i, c) <==> k <= j < n
    ensures forall j :: j in Flying(k, n, i, c) ==> Flying(k, n, i, c)[j] == if j < i then HasRead(c) else Checked
    ensures k <= n ==> |Flying(k, n, i, c)| == n - k
    decreases n - k
  {
    if k < n { FlyingExact(k + 1, n, i, c); }
  }

  lemma {:induction false} ChecksRun(w: World, cfg: Config, k: nat, n: nat, now: nat, m: nat)
    requires cfg.hashIsSet && k <= n <= m && w.inFlight == Flying(0, k, 0, 0)
    requires !IsLocked(w.tables, cfg.admin, now)
    ensures AfterEvents(w, cfg, Checks(k, n, now)) == w.(inFlight := Flying(0, n, 0, 0))
    ensures FlightAtMost(w, cfg, Checks(k, n, now), m)
    decreases n - k
  {
    FlyingExact(0, k, 0, 0);
    FlyingExact(0, k + 1, 0, 0);
    if k < n {
      var w1 := AfterEvent(w, cfg, Check(k, now));
      assert w1.inFlight == Flying(0, k + 1, 0, 0);
      ChecksRun(w1, cfg, k + 1, n, now, m);
      assert Checks(k, n, now)[1..] == Checks(k + 1, n, now);
    }
  }

  lemma {:induction false} ReadsRun(w: World, cfg: Config, k: nat, n: nat, now: nat, m: nat)
    requires k <= n <= m && w.inFlight == Flying(0, n, k, CountOf(w.tables, cfg.admin))
    ensures AfterEvents(w, cfg, Reads(k, n, now)) == w.(inFlight := Flying(0, n, n, CountOf(w.tables, cfg.admin)))
    ensures FlightAtMost(w, cfg, Reads(k, n, now), m)
    decreases n - k
  {
    var c := CountOf(w.tables, cfg.admin);
    FlyingExact(0, n, k, c);
    FlyingExact(0, n, k + 1, c);
    if k < n {
      var w1 := AfterEvent(w, cfg, Read(k, now));
      assert w1.inFlight == Flying(0, n, k + 1, c);
      ReadsRun(w1, cfg, k + 1, n, now, m);
      assert Reads(k, n, now)[1..] == Reads(k + 1, n, now);
    }
  }

  /** The row that a failure leaves which has read the count c. */
  function RowAfter(cfg: Config, c: nat, now: nat): Row {
    Row(c + 1, if c + 1 >= cfg.maxAttempts then Some(Stored(now + cfg.lockout * SECOND)) else None)
  }

  lemma OneThenRepeated(times: seq<nat>, now: nat, n: nat)
    requires n > 0
    ensures times + [now] + Repeated(now, n - 1) == times + Repeated(now, n)
  {
    assert [now] + Repeated(now, n - 1) == Repeated(now, n);
  }

  lemma {:induction false} WritesRun(w: World, cfg: Config, k: nat, n: nat, c: nat, now: nat, m: nat)
    requires k <= n <= m && w.inFlight == Flying(k, n, n, c)
    ensures var end := AfterEvents(w, cfg, Writes(k, n, now));
            && end.inFlight == map[] && end.failures == w.failures + Repeated(now, n - k)
            && (k < n ==> cfg.admin in end.tables.failed && end.tables.failed[cfg.admin] == RowAfter(cfg, c, now))
    ensures FlightAtMost(w, cfg, Writes(k, n, now), m)
    decreases n - k
  {
    FlyingExact(k, n, n, c);
    FlyingExact(k + 1, n, n, c);
    if k < n {
      var w1 := AfterEvent(w, cfg, Write(k, now, true));
      assert w1.inFlight == Flying(k + 1, n, n, c);
      WritesRun(w1, cfg, k + 1, n, c, now, m);
      assert Writes(k, n, now)[1..] == Writes(k + 1, n, now);
      OneThenRepeated(w.failures, now, n - k);
    } else {
      assert w.failures + [] == w.failures;
    }
  }

  /** A burst counts as one failure, whatever its size. */
  lemma BurstRun(w: World, cfg: Config, n: nat, now: nat, m: nat)
    requires cfg.hashIsSet && 0 < n <= m && w.inFlight == map[] && !IsLocked(w.tables, cfg.admin, now)
    ensures var end := AfterEvents(w, cfg, Burst(n, now));
            && end.inFlight == map[] && end.failures == w.failures + Repeated(now, n)
            && cfg.admin in end.tables.failed
            && end.tables.failed[cfg.admin] == RowAfter(cfg, CountOf(w.tables, cfg.admin), now)
    ensures FlightAtMost(w, cfg, Burst(n, now), m)
  {
    var c := CountOf(w.tables, cfg.admin);
    assert w.inFlight == Flying(0, 0, 0, 0);
    ChecksRun(w, cfg, 0, n, now, m);
    var w1 := w.(inFlight := Flying(0, n, 0, 0));
    FlyingExact(0, n, 0, 0);
    FlyingExact(0, n, 0, c);
    assert w1.inFlight == Flying(0, n, 0, c);
    ReadsRun(w1, cfg, 0, n, now, m);
    var w2 := w1.(inFlight := Flying(0, n, n, c));
    WritesRun(w2, cfg, 0, n, c, now, m);
    Concatenated(w, cfg, Checks(0, n, now), Reads(0, n, now), m);
    Concatenated(w, cfg, Checks(0, n, now) + Reads(0, n, now), Writes(0, n, now), m);
  }

  /** As many bursts as it takes to lock the account, all at one instant. */
  lemma {:induction false} RoundsRun(w: World, cfg: Config, c: nat, r: nat, n: nat, now: nat, m: nat)
    requires cfg.hashIsSet && 0 < n <= m && w.inFlight == map[] && c + r <= Threshold(cfg)
    requires CountOf(w.tables, cfg.admin) == c
    requires cfg.admin in w.tables.failed ==>
              c > 0 && (c < Threshold(cfg) ==> w.tables.failed[cfg.admin].lockedUntil.None?)
    ensures AfterEvents(w, cfg, Rounds(r, n, now)).failures == w.failures + Repeated(now, r * n)
    ensures FlightAtMost(w, cfg, Rounds(r, n, now), m)
    decreases r
  {
    if r == 0 {
      assert w.failures + Repeated(now, 0) == w.failures;
    } else {
      BurstRun(w, cfg, n, now, m);
      var w1 := AfterEvents(w, cfg, Burst(n, now));
      RoundsRun(w1, cfg, c + 1, r - 1, n, now, m);
      Concatenated(w, cfg, Burst(n, now), Rounds(r - 1, n, now), m);
      assert r * n == n + (r - 1) * n;
      assert Repeated(now, r * n) == Repeated(now, n) + Repeated(now, (r - 1) * n);
    }
  }

  lemma {:induction false} BurstInOrder(n: nat, now: nat)
    ensures forall i :: 0 <= i < |Burst(n, now)| ==> Burst(n, now)[i].now == now
  {
    PartsAtOnce(0, n, now);
  }

  lemma {:induction false} PartsAtOnce(k: nat, n: nat, now: nat)
    ensures forall i :: 0 <= i < |Checks(k, n, now)| ==> Checks(k, n, now)[i].now == now
    ensures forall i :: 0 <= i < |Reads(k, n, now)| ==> Reads(k, n, now)[i].now == now
    ensures forall i :: 0 <= i < |Writes(k, n, now)| ==> Writes(k, n, now)[i].now == now
    decreases n - k
  {
    if k < n { PartsAtOnce(k + 1, n, now); }
  }

  lemma {:induction false} RoundsInOrder(r: nat, n: nat, now: nat)
    ensures InOrder(Rounds(r, n, now))
    ensures forall i :: 0 <= i < |Rounds(r, n, now)| ==> Rounds(r, n, now)[i].now == now
    decreases r
  {
    if r > 0 {
      BurstInOrder(n, now);
      RoundsInOrder(r - 1, n, now);
    }
  }

  /** For every n there is a run with n failed checks at one instant, after which one failure is on record. */
  lemma OverlappingFailuresCountOnce(cfg: Config, n: nat, now: nat)
    requires cfg.hashIsSet && n > 0
    ensures var run := Burst(n, now);
            var end := AfterEvents(Start(Tables(map[], [])), cfg, run);
            && InOrder(run) && FlightAtMost(Start(Tables(map[], [])), cfg, run, n)
            && end.failures == Repeated(now, n) && CountOf(end.tables, cfg.admin) == 1
  {
    BurstInOrder(n, now);
    BurstRun(Start(Tables(map[], [])), cfg, n, now, n);
    assert [] + Repeated(now, n) == Repeated(now, n);
  }

  /******* The logins of the other module *******/

  /** Logins with the right name and a wrong password. */
  predicate AllWrong(cfg: Config, run: seq<Try>) {
    forall i :: 0 <= i < |run| ==> run[i].username == cfg.admin && !run[i].matches
  }

  /** A login taken on its own: check, read and write without another login in between. */
  function EventsOf(run: seq<Try>): seq<Event> {
    if run == [] then []
    else
      var last := run[|run| - 1];
      EventsOf(run[..|run| - 1])
      + [Check(0, last.checkAt), Read(0, last.checkAt), Write(0, last.recordAt, last.auditWorks)]
  }

  /** Taken one after the other, the logins do what `authenticate_user` does, with one login in flight. */
  lemma {:induction false} SingleLoginsAgree(t: Tables, cfg: Config, run: seq<Try>)
    requires AllWrong(cfg, run) && cfg.hashIsSet
    ensures AfterEvents(Start(t), cfg, EventsOf(run)) == World(After(t, cfg, run), map[], FailedAt(t, cfg, run))
    ensures FlightAtMost(Start(t), cfg, EventsOf(run), 1)
    decreases |run|
  {
    if run != [] {
      var front, last := run[..|run| - 1], run[|run| - 1];
      SingleLoginsAgree(t, cfg, front);
      var w := World(After(t, cfg, front), map[], FailedAt(t, cfg, front));
      var three := [Check(0, last.checkAt), Read(0, last.checkAt), Write(0, last.recordAt, last.auditWorks)];
      OneLogin(w, cfg, last);
      Concatenated(Start(t), cfg, EventsOf(front), three, 1);
    }
  }

  lemma OneLogin(w: World, cfg: Config, try: Try)
    requires cfg.hashIsSet && try.username == cfg.admin && !try.matches && w.inFlight == map[]
    ensures var three := [Check(0, try.checkAt), Read(0, try.checkAt), Write(0, try.recordAt, try.auditWorks)];
            && AfterEvents(w, cfg, three)
               == World(AfterTry(w.tables, cfg, try), map[],
                        w.failures + if FailsCheck(w.tables, cfg, try) then [try.recordAt] else [])
            && FlightAtMost(w, cfg, three, 1)
  {
    if FailsCheck(w.tables, cfg, try) { FailingLogin(w, cfg, try); } else { RefusedLogin(w, cfg, try); }
  }

  lemma FailingLogin(w: World, cfg: Config, try: Try)
    requires w.inFlight == map[] && FailsCheck(w.tables, cfg, try)
    ensures var three := [Check(0, try.checkAt), Read(0, try.checkAt), Write(0, try.recordAt, try.auditWorks)];
            && AfterEvents(w, cfg, three) == World(AfterTry(w.tables, cfg, try), map[], w.failures + [try.recordAt])
            && FlightAtMost(w, cfg, three, 1)
  {
    var a, b, c := Check(0, try.checkAt), Read(0, try.checkAt), Write(0, try.recordAt, try.auditWorks);
    var n := CountOf(w.tables, cfg.admin);
    ThreeEvents(w, cfg, a, b, c);
    assert AfterEvent(w, cfg, a) == w.(inFlight := map[0 := Checked]);
    assert AfterEvent(w.(inFlight := map[0 := Checked]), cfg, b) == w.(inFlight := map[0 := HasRead(n)]);
    assert map[0 := HasRead(n)] - {0} == map[];
  }

  lemma RefusedLogin(w: World, cfg: Config, try: Try)
    requires cfg.hashIsSet && w.inFlight == map[] && try.username == cfg.admin && !try.matches
    requires !FailsCheck(w.tables, cfg, try)
    ensures var three := [Check(0, try.checkAt), Read(0, try.checkAt), Write(0, try.recordAt, try.auditWorks)];
            && AfterEvents(w, cfg, three) == World(AfterTry(w.tables, cfg, try), map[], w.failures + [])
            && FlightAtMost(w, cfg, three, 1)
  {
    var a, b, c := Check(0, try.checkAt), Read(0, try.checkAt), Write(0, try.recordAt, try.auditWorks);
    ThreeEvents(w, cfg, a, b, c);
    assert AfterEvent(w, cfg, a) == w && AfterEvent(w, cfg, b) == w && AfterEvent(w, cfg, c) == w;
    assert w.failures + [] == w.failures;
  }

  lemma ThreeEvents(w: World, cfg: Config, a: Event, b: Event, c: Event)
    ensures var w1 := AfterEvent(w, cfg, a);
            var w2 := AfterEvent(w1, cfg, b);
            var w3 := AfterEvent(w2, cfg, c);
            && AfterEvents(w, cfg, [a, b, c]) == w3
            && (FlightAtMost(w, cfg, [a, b, c], 1) <==>
                  |w.inFlight| <= 1 && |w1.inFlight| <= 1 && |w2.inFlight| <= 1 && |w3.inFlight| <= 1)
  {
    assert [a, b, c][1..] == [b, c] && [b, c][1..] == [c] && [c][1..] == [];
    var w1 := AfterEvent(w, cfg, a);
    var w2 := AfterEvent(w1, cfg, b);
    var w3 := AfterEvent(w2, cfg, c);
    calc {
      AfterEvents(w, cfg, [a, b, c]);
      AfterEvents(w1, cfg, [b, c]);
      AfterEvents(w2, cfg, [c]);
      AfterEvents(w3, cfg, []);
    }
    assert FlightAtMost(w2, cfg, [c], 1) <==> |w2.inFlight| <= 1 && FlightAtMost(w3, cfg, [], 1);
    assert FlightAtMost(w1, cfg, [b, c], 1) <==> |w1.inFlight| <= 1 && FlightAtMost(w2, cfg, [c], 1);
    assert FlightAtMost(w, cfg, [a, b, c], 1) <==> |w.inFlight| <= 1 && FlightAtMost(w1, cfg, [b, c], 1);
  }
}
