/**
  The private directory as the worker and the sweep change it, one durable write at a
  time; each method leaves it as the Run of its operation, cut after `writes`, does.
 */
module AttemptHost {
  import opened Durable
  import opened Wrappers
  import opened AttemptModel

  datatype Ending = Death | End(outcome: Outcome)

  class PrivateDir {
    const privateOk: bool
    const attemptsOk: bool
    var records: map<string, RecordFile>
    var objects: map<string, Object>

    constructor (d: Private)
      ensures Now() == d
    {
      privateOk, attemptsOk, records, objects := d.privateOk, d.attemptsOk, d.records, d.objects;
    }

    function Now(): Private
      reads this
    {
      Private(privateOk, attemptsOk, records, objects)
    }

    function Left(e: Ending): Cut<Private, Outcome>
      reads this
    {
      if e.Death? then Died(Now()) else Ended(Now(), e.outcome)
    }

    method RecordAttempt(attempt: string, path: Path, kind: Option<Kind>, writes: nat) returns (e: Ending)
      modifies this
      ensures Left(e) == CutAfter(old(Now()), RecordRun(old(Now()), attempt, path, kind), writes)
    {
      if !MatchesAttempt(attempt) || !attemptsOk || kind.None? { return End(Refused); }
      var work := WorkName(kind.value, attempt);
      if path != Child(work) || work in objects || attempt in records { return End(Refused); }
      if writes == 0 { return Death; }
      records := records[attempt := Record(1, attempt, kind, path)];
      return End(RecordedNow);
    }

    /** `cleanup_attempt`; also how the sweep removes one attempt: `left` writes remain to the caller. */
    method Cleanup(attempt: string, argv: Option<Path>, remains: int, writes: nat) returns (e: Ending, left: nat)
      modifies this
      ensures Left(e) == CutAfter(old(Now()), CleanupRun(old(Now()), attempt, argv, remains), writes)
      ensures e.Death? || left + Writes(CleanupRun(old(Now()), attempt, argv, remains)) == writes
    {
      left := writes;
      var verdict := Judge(Now(), attempt, argv);
      if verdict.Refuse? { return End(Refused), left; }
      if verdict.NothingLeft? { return End(Cleaned), left; }
      var work := verdict.work;
      ghost var run := CleanupRun(Now(), attempt, argv, remains);
      ghost var whole := run;
      if work in objects {
        if writes == 0 { return Death, 0; }
        objects := objects[work := RealDir(remains, objects[work].isPrivate)];
        assert CutAfter(old(Now()), run, writes) == CutAfter(Now(), run.rest, writes - 1);
        if writes == 1 { return Death, 0; }
        objects := objects - {work};
        assert objects == old(objects) - {work};
        run := run.rest.rest;
        assert CutAfter(old(Now()), whole, writes) == CutAfter(Now(), run, writes - 2);
        assert Writes(whole) == 2 + Writes(run);
        left := writes - 2;
      }
      if left == 0 { return Death, 0; }
      left := left - 1;
      records := records - {attempt};
      assert Now() == run.next;
      assert CutAfter(old(Now()), whole, writes) == CutAfter(Now(), run.rest, left);
      return End(Cleaned), left;
    }

    method Sweep(names: seq<string>, active: set<string>, remains: int, writes: nat) returns (e: Ending)
      modifies this
      ensures Left(e) == CutAfter(old(Now()), SweepRun(old(Now()), names, active, remains), writes)
    {
      if !attemptsOk { return End(Refused); }
      ghost var whole := CutAfter(Now(), SweepRun(Now(), names, active, remains), writes);
      var failed: seq<string> := [];
      var left := writes;
      var i := 0;
      assert names[0..] == names;
      while i < |names|
        invariant 0 <= i <= |names|
        invariant whole == CutAfter(Now(), SweepFrom(Now(), names[i..], active, failed, remains), left)
      {
        var a := names[i];
        assert names[i..][0] == a && names[i..][1..] == names[i + 1..];
        i := i + 1;
        if !Stale(a, active) { continue; }
        ghost var before, had, rest := Now(), left, names[i..];
        SweepStep(before, a, rest, active, failed, remains, had);
        e, left := Cleanup(a, None, remains, left);
        if e.Death? { return; }
        EndedIsComplete(before, CleanupRun(before, a, None, remains), had);
        if e.outcome.Refused? { failed := failed + [a]; }
      }
      return End(Swept(failed));
    }
  }

  /** One turn of the sweep is a cleanup, and then the rest of the sweep. */
  lemma SweepStep(
      d: Private, a: string, rest: seq<string>, active: set<string>, failed: seq<string>, remains: int, writes: nat)
    requires Stale(a, active)
    ensures var run := CleanupRun(d, a, None, remains);
            var whole := CutAfter(d, SweepFrom(d, [a] + rest, active, failed, remains), writes);
            match CutAfter(d, run, writes)
            case Died(d') => whole == Died(d')
            case Ended(d', outcome) =>
              && Writes(run) <= writes
              && var failed' := if outcome.Refused? then failed + [a] else failed;
                 whole == CutAfter(d', SweepFrom(d', rest, active, failed', remains), writes - Writes(run))
  {
    var names := [a] + rest;
    assert names[1..] == rest;
    if Judge(d, a, None).Remove? {
      var work := Judge(d, a, None).work;
      RemoveThen(d, a, work, remains, SweepFrom(Without(d, a, work), rest, active, failed, remains), writes);
    }
  }

  /** A removal does the same whatever comes after it. */
  lemma RemoveThen(d: Private, a: string, work: string, remains: int, todo: Run<Private, Outcome>, writes: nat)
    requires Judge(d, a, None) == Remove(work)
    ensures var run := RemoveRun(d, a, work, remains, Halt(Cleaned));
            var whole := CutAfter(d, RemoveRun(d, a, work, remains, todo), writes);
            match CutAfter(d, run, writes)
            case Died(d') => whole == Died(d')
            case Ended(d', outcome) =>
              outcome == Cleaned && d' == Without(d, a, work) && Writes(run) <= writes
              && whole == CutAfter(d', todo, writes - Writes(run))
  {
    var run, all := RemoveRun(d, a, work, remains, Halt(Cleaned)), RemoveRun(d, a, work, remains, todo);
    if work in d.objects {
      if 1 <= writes {
        assert CutAfter(d, run, writes) == CutAfter(run.next, run.rest, writes - 1);
        assert CutAfter(d, all, writes) == CutAfter(run.next, all.rest, writes - 1);
      }
      if 2 <= writes {
        assert CutAfter(d, run, writes) == CutAfter(run.rest.next, run.rest.rest, writes - 2);
        assert CutAfter(d, all, writes) == CutAfter(run.rest.next, all.rest.rest, writes - 2);
      }
      assert Writes(run) == 2 + Writes(run.rest.rest);
      if 3 <= writes {
        assert CutAfter(d, run, writes) == CutAfter(Without(d, a, work), Halt(Cleaned), writes - 3);
        assert CutAfter(d, all, writes) == CutAfter(Without(d, a, work), todo, writes - 3);
      }
    } else {
      assert d.objects - {work} == d.objects;
      assert Writes(run) == 1;
    }
  }
}
