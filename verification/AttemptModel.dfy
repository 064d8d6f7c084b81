/**
  Ownership records of work trees (backend/priv_state.py): a record is durable before
  its work tree exists, and only a record authorizes the removal of a tree.
 */
module AttemptModel {
  import opened Durable
  import opened Names
  import opened Wrappers

  datatype Kind = Update | Restore

  /** An object in the private directory. `isPrivate` is the verdict on a directory's owner and mode. */
  datatype Object = RealDir(content: int, isPrivate: bool) | Link | OtherObject

  /** A path: a direct child of the resolved private directory, or somewhere else, where something is present or not. */
  datatype Path = Child(name: string) | Elsewhere(path: string, present: bool)

  /** A record file. A dangling link is read as an absent record. */
  datatype RecordFile =
    | Dangling
    | Unreadable
    | Record(schema: int, attempt: string, kind: Option<Kind>, work: Path)

  /** The private directory and, inside it, the directory of attempt records. */
  datatype Private = Private(
    privateOk: bool, attemptsOk: bool,
    records: map<string, RecordFile>,
    objects: map<string, Object>)

  datatype Outcome = RecordedNow | Cleaned | Swept(failed: seq<string>) | Refused

  /** `_ATTEMPT_ID_RE.match`: twelve hex digits, and one trailing newline slips through. */
  predicate MatchesAttempt(s: string) {
    (|s| == 12 || (|s| == 13 && s[12] == '\n')) && AllLowerHex(s[..12])
  }

  function Prefix(k: Kind): string {
    match k
    case Update => "ccc-update"
    case Restore => "ccc-restore"
  }

  /** The one work path an attempt of a kind may use. */
  function WorkName(k: Kind, attempt: string): string { Prefix(k) + "-" + attempt }

  lemma WorkNameInjective(k: Kind, a: string, k': Kind, a': string)
    requires WorkName(k, a) == WorkName(k', a')
    ensures k == k' && a == a'
  {
    assert WorkName(k, a)[4] == Prefix(k)[4] && WorkName(k', a')[4] == Prefix(k')[4];
    assert a == WorkName(k, a)[|Prefix(k)| + 1..];
    assert a' == WorkName(k', a')[|Prefix(k')| + 1..];
  }

  predicate ValidRecord(r: RecordFile, attempt: string) {
    && r.Record? && r.schema == 1 && r.attempt == attempt && r.kind.Some?
    && r.work == Child(WorkName(r.kind.value, attempt))
  }

  predicate Present(d: Private, path: Path) {
    match path
    case Child(name) => name in d.objects
    case Elsewhere(_, present) => present
  }

  /** `realpath(path) != work` for a canonical work path. */
  predicate Redirected(d: Private, path: Path, work: string) {
    path != Child(work) || (work in d.objects && d.objects[work].Link?)
  }

  /******* Operations *******/

  function RecordRun(d: Private, attempt: string, path: Path, kind: Option<Kind>): Run<Private, Outcome> {
    if !MatchesAttempt(attempt) || !d.attemptsOk || kind.None? then Halt(Refused)
    else
      var work := WorkName(kind.value, attempt);
      if path != Child(work) || work in d.objects || attempt in d.records then Halt(Refused)
      else Step(d.(records := d.records[attempt := Record(1, attempt, kind, path)]), Halt(RecordedNow))
  }

  /** The worker creates its work tree, at the path its record names. */
  function CreateRun(d: Private, attempt: string, content: int): Run<Private, Outcome> {
    if attempt !in d.records || !ValidRecord(d.records[attempt], attempt) then Halt(Refused)
    else
      var work := d.records[attempt].work.name;
      if work in d.objects then Halt(Refused)
      else Step(d.(objects := d.objects[work := RealDir(content, true)]), Halt(RecordedNow))
  }

  /** What `cleanup_attempt` finds out before it removes anything. */
  datatype Verdict = Refuse | NothingLeft | Remove(work: string)

  function Judge(d: Private, attempt: string, argv: Option<Path>): Verdict {
    if !d.privateOk || !d.attemptsOk || !MatchesAttempt(attempt) then Refuse
    else if attempt !in d.records || d.records[attempt].Dangling? then
      if argv.Some? && Present(d, argv.value) then Refuse else NothingLeft
    else if !ValidRecord(d.records[attempt], attempt) then Refuse
    else
      var work := d.records[attempt].work.name;
      if argv.Some? && Redirected(d, argv.value, work) then Refuse
      else if work in d.objects && !d.objects[work].RealDir? then Refuse
      else Remove(work)
  }

  function Without(d: Private, attempt: string, work: string): Private {
    d.(objects := d.objects - {work}, records := d.records - {attempt})
  }

  /** The removal itself, and then `todo`. */
  function RemoveRun(d: Private, attempt: string, work: string, remains: int, todo: Run<Private, Outcome>)
    : Run<Private, Outcome>
  {
    if work in d.objects && d.objects[work].RealDir? then
      Step(d.(objects := d.objects[work := RealDir(remains, d.objects[work].isPrivate)]),
      Step(d.(objects := d.objects - {work}),
      Step(Without(d, attempt, work), todo)))
    else Step(d.(records := d.records - {attempt}), todo)
  }

  function CleanupRun(d: Private, attempt: string, argv: Option<Path>, remains: int): Run<Private, Outcome> {
    match Judge(d, attempt, argv)
    case Refuse => Halt(Refused)
    case NothingLeft => Halt(Cleaned)
    case Remove(work) => RemoveRun(d, attempt, work, remains, Halt(Cleaned))
  }

  predicate Stale(attempt: string, active: set<string>) { MatchesAttempt(attempt) && attempt !in active }

  function SweepFrom(d: Private, names: seq<string>, active: set<string>, failed: seq<string>, remains: int)
    : Run<Private, Outcome>
    decreases |names|
  {
    if names == [] then Halt(Swept(failed))
    else
      var a, rest := names[0], names[1..];
      if !Stale(a, active) then SweepFrom(d, rest, active, failed, remains)
      else
        match Judge(d, a, None)
        case Refuse => SweepFrom(d, rest, active, failed + [a], remains)
        case NothingLeft => SweepFrom(d, rest, active, failed, remains)
        case Remove(work) => RemoveRun(d, a, work, remains,
            SweepFrom(Without(d, a, work), rest, active, failed, remains))
  }

  /** `sweep_stale_attempts`; `names` are the attempt ids of the record files, in the order they are listed. */
  function SweepRun(d: Private, names: seq<string>, active: set<string>, remains: int): Run<Private, Outcome> {
    if !d.attemptsOk then Halt(Refused) else SweepFrom(d, names, active, [], remains)
  }

  predicate PrivateDirAt(d: Private, name: string) {
    name in d.objects && d.objects[name].RealDir? && d.objects[name].isPrivate
  }

  datatype WorkAnswer = WorkAt(work: string) | NoWork

  /** `attempt_work`: the recorded path, or a refusal. */
  function AttemptWork(d: Private, attempt: string, kind: Kind, argv: Option<Path>): (r: WorkAnswer)
    ensures r.WorkAt? ==> r.work == WorkName(kind, attempt) && Recorded(d, r.work)
    ensures r.WorkAt? <==>
              && d.privateOk && d.attemptsOk && MatchesAttempt(attempt)
              && attempt in d.records
              && d.records[attempt] == Record(1, attempt, Some(kind), Child(WorkName(kind, attempt)))
              && PrivateDirAt(d, WorkName(kind, attempt))
              && (argv.Some? ==> argv.value == Child(WorkName(kind, attempt)))
  {
    if !d.privateOk || !d.attemptsOk || !MatchesAttempt(attempt) then NoWork
    else if attempt !in d.records || !ValidRecord(d.records[attempt], attempt) then NoWork
    else if d.records[attempt].kind != Some(kind) then NoWork
    else
      var work := d.records[attempt].work.name;
      if argv.Some? && Redirected(d, argv.value, work) then NoWork
      else if work !in d.objects || !d.objects[work].RealDir? || !d.objects[work].isPrivate then NoWork
      else WorkAt(work)
  }

  /** A record names this object of the private directory. */
  ghost predicate Recorded(d: Private, name: string) {
    exists a :: a in d.records && ValidRecord(d.records[a], a) && d.records[a].work == Child(name)
  }

  /******* What is accepted *******/

  /** An attempt is recorded exactly for its own canonical path, with nothing there and no record yet. */
  lemma RecordAnswers(d: Private, attempt: string, path: Path, kind: Option<Kind>)
    ensures var (end, outcome) := Complete(d, RecordRun(d, attempt, path, kind));
            && (outcome == RecordedNow <==>
                  && MatchesAttempt(attempt) && d.attemptsOk && kind.Some?
                  && path == Child(Prefix(kind.value) + "-" + attempt)
                  && !Present(d, path) && attempt !in d.records)
            && end == (if outcome == RecordedNow
                       then d.(records := d.records[attempt := Record(1, attempt, kind, path)]) else d)
  {
  }

  predicate CleanupGates(d: Private, attempt: string) { d.privateOk && d.attemptsOk && MatchesAttempt(attempt) }

  predicate NoRecord(d: Private, attempt: string) { attempt in d.records ==> d.records[attempt].Dangling? }

  /**
    The work of a record may be removed on this caller's word: it is the caller's path, and gone or a real directory.
   */
  predicate MayRemove(d: Private, attempt: string, argv: Option<Path>, work: string) {
    && attempt in d.records && ValidRecord(d.records[attempt], attempt) && d.records[attempt].work == Child(work)
    && (argv.Some? ==> argv.value == Child(work))
    && (work in d.objects ==> d.objects[work].RealDir?)
  }

  /** The exact judgement on a cleanup: a path that the caller names has to be the recorded one. */
  lemma JudgeExact(d: Private, attempt: string, argv: Option<Path>, work: string)
    ensures Judge(d, attempt, argv) == Remove(work) <==>
              CleanupGates(d, attempt) && MayRemove(d, attempt, argv, work)
    ensures Judge(d, attempt, argv) == NothingLeft <==>
              CleanupGates(d, attempt) && NoRecord(d, attempt) && (argv.Some? ==> !Present(d, argv.value))
  {
  }

  /** A cleanup succeeds exactly on these judgements, and then work and record are gone; otherwise nothing changes. */
  lemma CleanupAnswers(d: Private, attempt: string, argv: Option<Path>, remains: int, work: string)
    requires attempt in d.records && d.records[attempt].Record? ==> d.records[attempt].work == Child(work)
    ensures var (end, outcome) := Complete(d, CleanupRun(d, attempt, argv, remains));
            && (outcome == Cleaned <==>
                  CleanupGates(d, attempt) && (MayRemove(d, attempt, argv, work) ||
                    (NoRecord(d, attempt) && (argv.Some? ==> !Present(d, argv.value)))))
            && end == (if CleanupGates(d, attempt) && MayRemove(d, attempt, argv, work)
                       then Without(d, attempt, work) else d)
  {
    JudgeExact(d, attempt, argv, work);
    if Judge(d, attempt, argv) == Remove(work) {
      RemoveCompletes(d, attempt, work, remains, Halt(Cleaned));
    } else if Judge(d, attempt, argv).Remove? {
      JudgeExact(d, attempt, argv, Judge(d, attempt, argv).work);
      assert false;
    }
  }

  /******* Schedules *******/

  datatype Op =
    | RecordAttempt(attempt: string, path: Path, kind: Option<Kind>)
    | CreateWork(attempt: string, content: int)
    | Cleanup(attempt: string, argv: Option<Path>, remains: int)
    | Sweep(names: seq<string>, active: set<string>, remains: int)

  function OpRun(d: Private, op: Op): Run<Private, Outcome> {
    match op
    case RecordAttempt(a, path, kind) => RecordRun(d, a, path, kind)
    case CreateWork(a, content) => CreateRun(d, a, content)
    case Cleanup(a, argv, remains) => CleanupRun(d, a, argv, remains)
    case Sweep(names, active, remains) => SweepRun(d, names, active, remains)
  }

  datatype Call = Call(op: Op, writes: nat)

  function After(d: Private, schedule: seq<Call>): Private
    decreases |schedule|
  {
    if schedule == [] then d
    else After(CutAfter(d, OpRun(d, schedule[0].op), schedule[0].writes).disk, schedule[1..])
  }

  /******* Deletion authority *******/

  ghost predicate Foreign(d: Private, name: string) { name in d.objects && !Recorded(d, name) }

  /** The objects without a record are those there were before, untouched. */
  ghost predicate SameForeign(d0: Private, d: Private) {
    forall n :: (Foreign(d, n) <==> Foreign(d0, n)) && (Foreign(d0, n) ==> d.objects[n] == d0.objects[n])
  }

  ghost function KeepForeign(d0: Private): Private -> bool {
    d => SameForeign(d0, d)
  }

  lemma RecordingKeepsForeign(d0: Private, d: Private, attempt: string, path: Path, kind: Option<Kind>)
    requires SameForeign(d0, d)
    ensures Throughout(d, RecordRun(d, attempt, path, kind), KeepForeign(d0))
  {
    var run := RecordRun(d, attempt, path, kind);
    if run.Step? {
      forall n ensures Foreign(run.next, n) <==> Foreign(d, n) {
        if Recorded(d, n) { StillRecorded(d, run.next, n, attempt); }
        if Recorded(run.next, n) && n in d.objects { StillRecorded(run.next, d, n, attempt); }
      }
    }
  }

  /** A record that both states have names the same object in both. */
  lemma StillRecorded(d: Private, d': Private, name: string, attempt: string)
    requires Recorded(d, name) && d'.records - {attempt} == d.records - {attempt}
    requires attempt in d.records && ValidRecord(d.records[attempt], attempt) ==>
               d.records[attempt].work != Child(name)
    ensures Recorded(d', name)
  {
    var a :| a in d.records && ValidRecord(d.records[a], a) && d.records[a].work == Child(name);
    assert a in d.records - {attempt} && (d.records - {attempt})[a] == d.records[a];
    assert a in d'.records && d'.records[a] == d.records[a];
  }

  lemma ObjectChangeKeepsForeign(d0: Private, d: Private, objects: map<string, Object>, work: string)
    requires SameForeign(d0, d) && Recorded(d, work)
    requires objects - {work} == d.objects - {work}
    ensures SameForeign(d0, d.(objects := objects))
  {
    var d' := d.(objects := objects);
    forall n ensures Foreign(d', n) <==> Foreign(d, n) {
      assert Recorded(d', n) <==> Recorded(d, n);
      if n != work { SameElsewhere(objects, d.objects, work, n); }
    }
    forall n | Foreign(d0, n) ensures d'.objects[n] == d0.objects[n] {
      assert Foreign(d, n) && n != work;
      SameElsewhere(objects, d.objects, work, n);
    }
  }

  lemma SameElsewhere(m: map<string, Object>, m': map<string, Object>, k: string, n: string)
    requires m - {k} == m' - {k} && n != k
    ensures n in m <==> n in m'
    ensures n in m ==> m[n] == m'[n]
  {
    assert n in m <==> n in m - {k};
    assert n in m' <==> n in m' - {k};
  }

  /** Dropping a record whose work is gone. */
  lemma UnrecordingKeepsForeign(d0: Private, d: Private, attempt: string)
    requires SameForeign(d0, d)
    requires attempt in d.records && ValidRecord(d.records[attempt], attempt) &&
              d.records[attempt].work.name !in d.objects
    ensures SameForeign(d0, d.(records := d.records - {attempt}))
  {
    var d' := d.(records := d.records - {attempt});
    forall n ensures Foreign(d', n) <==> Foreign(d, n) {
      if n in d.objects && Recorded(d, n) { StillRecorded(d, d', n, attempt); }
      if Recorded(d', n) {
        var a :| a in d'.records && ValidRecord(d'.records[a], a) && d'.records[a].work == Child(n);
        assert a in d.records && d.records[a] == d'.records[a];
      }
    }
  }

  /** The removal keeps foreign objects, whatever comes after it. */
  lemma RemovalKeepsForeign(
      d0: Private, d: Private, attempt: string, work: string, remains: int, todo: Run<Private, Outcome>)
    requires SameForeign(d0, d) && Judge(d, attempt, None) == Remove(work)
    requires SameForeign(d0, Without(d, attempt, work)) ==> Throughout(Without(d, attempt, work), todo, KeepForeign(d0))
    ensures SameForeign(d0, Without(d, attempt, work))
    ensures Throughout(d, RemoveRun(d, attempt, work, remains, todo), KeepForeign(d0))
  {
    assert Recorded(d, work);
    var gone := d.objects - {work};
    ObjectChangeKeepsForeign(d0, d, gone, work);
    UnrecordingKeepsForeign(d0, d.(objects := gone), attempt);
    assert KeepForeign(d0)(Without(d, attempt, work));
    if work in d.objects {
      var torn := d.objects[work := RealDir(remains, d.objects[work].isPrivate)];
      assert torn - {work} == d.objects - {work};
      ObjectChangeKeepsForeign(d0, d, torn, work);
      assert KeepForeign(d0)(d.(objects := torn)) && KeepForeign(d0)(d.(objects := gone));
    } else {
      assert gone == d.objects;
    }
  }

  lemma {:induction false} SweepKeepsForeign(
      d0: Private, d: Private, names: seq<string>, active: set<string>, failed: seq<string>, remains: int)
    requires SameForeign(d0, d)
    ensures Throughout(d, SweepFrom(d, names, active, failed, remains), KeepForeign(d0))
    decreases |names|
  {
    if names != [] {
      var a, rest := names[0], names[1..];
      if !Stale(a, active) {
        SweepKeepsForeign(d0, d, rest, active, failed, remains);
      } else {
        match Judge(d, a, None)
        case Refuse => SweepKeepsForeign(d0, d, rest, active, failed + [a], remains);
        case NothingLeft => SweepKeepsForeign(d0, d, rest, active, failed, remains);
        case Remove(work) =>
          var d' := Without(d, a, work);
          if SameForeign(d0, d') { SweepKeepsForeign(d0, d', rest, active, failed, remains); }
          RemovalKeepsForeign(d0, d, a, work, remains, SweepFrom(d', rest, active, failed, remains));
      }
    }
  }

  lemma OpKeepsForeign(d0: Private, d: Private, op: Op)
    requires SameForeign(d0, d)
    ensures Throughout(d, OpRun(d, op), KeepForeign(d0))
  {
    match op
    case RecordAttempt(a, path, kind) => RecordingKeepsForeign(d0, d, a, path, kind);
    case CreateWork(a, content) =>
      var run := CreateRun(d, a, content);
      if run.Step? {
        assert run.next.objects - {d.records[a].work.name} == d.objects - {d.records[a].work.name};
        assert Recorded(d, d.records[a].work.name);
        ObjectChangeKeepsForeign(d0, d, run.next.objects, d.records[a].work.name);
      }
    case Cleanup(a, argv, remains) =>
      if Judge(d, a, argv).Remove? {
        RemovalKeepsForeign(d0, d, a, Judge(d, a, argv).work, remains, Halt(Cleaned));
      }
    case Sweep(names, active, remains) => SweepKeepsForeign(d0, d, names, active, [], remains);
  }

  /**
    Deletion authority, in every state of every interrupted run: a work tree that appears has its record as
    long as it exists, and an object without a record is never touched.
   */
  lemma {:induction false} UnrecordedObjectsAreNeverTouched(d0: Private, d: Private, schedule: seq<Call>)
    requires SameForeign(d0, d)
    ensures SameForeign(d0, After(d, schedule))
    decreases |schedule|
  {
    if schedule != [] {
      var run := OpRun(d, schedule[0].op);
      OpKeepsForeign(d0, d, schedule[0].op);
      CutKeeps(d, run, schedule[0].writes, KeepForeign(d0));
      UnrecordedObjectsAreNeverTouched(d0, CutAfter(d, run, schedule[0].writes).disk, schedule[1..]);
    }
  }

  /******* Cleanup can be resumed *******/

  /** A cut cleanup is finished, or it has its judgement and its end still before it. */
  ghost predicate OnItsWay(d: Private, attempt: string, argv: Option<Path>, work: string, end: Private) {
    d == end || (Judge(d, attempt, argv) == Remove(work) && Without(d, attempt, work) == end)
  }

  lemma TornIsOnItsWay(d: Private, attempt: string, argv: Option<Path>, work: string, remains: int)
    requires Judge(d, attempt, argv) == Remove(work) && work in d.objects
    ensures var end := Without(d, attempt, work);
            && OnItsWay(d.(objects := d.objects[work := RealDir(remains, d.objects[work].isPrivate)]),
                        attempt, argv, work, end)
            && OnItsWay(d.(objects := d.objects - {work}), attempt, argv, work, end)
  {
    assert d.objects[work := RealDir(remains, d.objects[work].isPrivate)] - {work} == d.objects - {work};
    assert d.objects - {work} - {work} == d.objects - {work};
  }

  lemma CutCleanup(d: Private, attempt: string, argv: Option<Path>, work: string, writes: nat, remains: int)
    requires Judge(d, attempt, argv) == Remove(work)
    ensures OnItsWay(CutAfter(d, CleanupRun(d, attempt, argv, remains), writes).disk,
                     attempt, argv, work, Without(d, attempt, work))
  {
    var end := Without(d, attempt, work);
    var p := (x: Private) => OnItsWay(x, attempt, argv, work, end);
    var run := CleanupRun(d, attempt, argv, remains);
    if work in d.objects {
      TornIsOnItsWay(d, attempt, argv, work, remains);
      assert p(run.next) && p(run.rest.next) && p(run.rest.rest.next);
      assert Throughout(run.rest.next, run.rest.rest, p);
    } else {
      assert d.objects - {work} == d.objects;
      assert run == Step(end, Halt(Cleaned)) && p(run.next);
    }
    CutKeeps(d, run, writes, p);
  }

  /** However a cleanup is cut off, the next one ends where the first would have; once more changes nothing. */
  lemma CleanupCanBeResumed(d: Private, attempt: string, argv: Option<Path>, writes: nat, remains: int, again: int)
    requires Judge(d, attempt, argv).Remove?
    ensures var work, d' := Judge(d, attempt, argv).work,
              CutAfter(d, CleanupRun(d, attempt, argv, remains), writes).disk;
            && Complete(d', CleanupRun(d', attempt, argv, again)) == (Without(d, attempt, work), Cleaned)
            && CleanupRun(Without(d, attempt, work), attempt, argv, again) == Halt(Cleaned)
  {
    var work := Judge(d, attempt, argv).work;
    var d' := CutAfter(d, CleanupRun(d, attempt, argv, remains), writes).disk;
    CutCleanup(d, attempt, argv, work, writes, remains);
    EndIsJudged(d, attempt, argv, work);
    if d' != Without(d, attempt, work) { RemoveCompletes(d', attempt, work, again, Halt(Cleaned)); }
  }

  lemma EndIsJudged(d: Private, attempt: string, argv: Option<Path>, work: string)
    requires Judge(d, attempt, argv) == Remove(work)
    ensures Judge(Without(d, attempt, work), attempt, argv) == NothingLeft
  {
  }

  lemma RemoveCompletes(d: Private, attempt: string, work: string, remains: int, todo: Run<Private, Outcome>)
    requires Judge(d, attempt, None) == Remove(work)
    ensures Complete(d, RemoveRun(d, attempt, work, remains, todo)) == Complete(Without(d, attempt, work), todo)
  {
    var run := RemoveRun(d, attempt, work, remains, todo);
    if work in d.objects {
      assert Complete(d, run) == Complete(run.rest.next, run.rest.rest);
    } else {
      assert d.objects - {work} == d.objects;
    }
  }

  /******* What a sweep leaves *******/

  /** The attempts a sweep gives up on. */
  predicate GivesUp(d: Private, attempt: string, active: set<string>) {
    Stale(attempt, active) && Judge(d, attempt, None).Refuse?
  }

  predicate Removes(d: Private, attempt: string, active: set<string>) {
    Stale(attempt, active) && Judge(d, attempt, None).Remove?
  }

  function Failures(d: Private, names: seq<string>, active: set<string>): seq<string> {
    if names == [] then []
    else (if GivesUp(d, names[0], active) then [names[0]] else []) + Failures(d, names[1..], active)
  }

  /** Nothing that is swept away is this object. */
  ghost predicate Survives(d: Private, names: seq<string>, active: set<string>, name: string) {
    forall a :: a in names && Removes(d, a, active) ==> Judge(d, a, None).work != name
  }

  ghost predicate SweepLeaves(d: Private, names: seq<string>, active: set<string>, end: Private) {
    && end.privateOk == d.privateOk && end.attemptsOk == d.attemptsOk
    && (forall a :: a in end.records <==> a in d.records && !(a in names && Removes(d, a, active)))
    && (forall a :: a in end.records ==> end.records[a] == d.records[a])
    && (forall n :: n in end.objects <==> n in d.objects && Survives(d, names, active, n))
    && (forall n :: n in end.objects ==> end.objects[n] == d.objects[n])
  }

  lemma OthersJudgedAlike(d: Private, a: string, work: string, b: string)
    requires Judge(d, a, None) == Remove(work) && b != a
    ensures Judge(Without(d, a, work), b, None) == Judge(d, b, None)
    ensures Judge(d, b, None).Remove? ==> Judge(d, b, None).work != work
  {
    if b in d.records && ValidRecord(d.records[b], b) && d.records[b].work.name == work {
      WorkNameInjective(d.records[a].kind.value, a, d.records[b].kind.value, b);
    }
  }

  lemma FailuresAlike(d: Private, a: string, work: string, names: seq<string>, active: set<string>)
    requires Judge(d, a, None) == Remove(work) && a !in names
    ensures Failures(Without(d, a, work), names, active) == Failures(d, names, active)
    decreases |names|
  {
    if names != [] {
      OthersJudgedAlike(d, a, work, names[0]);
      FailuresAlike(d, a, work, names[1..], active);
    }
  }

  /** A completed sweep removes exactly the cleanable stale attempts and reports exactly those it gave up on. */
  lemma {:induction false} CompletedSweep(
      d: Private, names: seq<string>, active: set<string>, failed: seq<string>, remains: int)
    requires forall i, j :: 0 <= i < j < |names| ==> names[i] != names[j]
    ensures var (end, outcome) := Complete(d, SweepFrom(d, names, active, failed, remains));
            outcome == Swept(failed + Failures(d, names, active)) && SweepLeaves(d, names, active, end)
    decreases |names|
  {
    if names == [] {
      assert failed + [] == failed;
    } else {
      var a, rest := names[0], names[1..];
      assert names == [a] + rest;
      if Removes(d, a, active) {
        var work := Judge(d, a, None).work;
        CompletedSweep(Without(d, a, work), rest, active, failed, remains);
        SweepThatRemoves(d, a, work, rest, active, failed, remains);
      } else {
        var failed' := if GivesUp(d, a, active) then failed + [a] else failed;
        CompletedSweep(d, rest, active, failed', remains);
        SweepThatSkips(d, a, rest, active, failed, remains);
      }
    }
  }

  /** A sweep is refused exactly if the directory of records is not in order, and then nothing changes. */
  lemma SweepIsRefusedIff(d: Private, names: seq<string>, active: set<string>, remains: int)
    requires forall i, j :: 0 <= i < j < |names| ==> names[i] != names[j]
    ensures var (end, outcome) := Complete(d, SweepRun(d, names, active, remains));
            (outcome.Refused? <==> !d.attemptsOk) && (outcome.Refused? ==> end == d)
  {
    CompletedSweep(d, names, active, [], remains);
  }

  lemma SweepThatRemoves(
      d: Private, a: string, work: string, rest: seq<string>, active: set<string>, failed: seq<string>, remains: int)
    requires Judge(d, a, None) == Remove(work) && Stale(a, active) && a !in rest
    requires var d' := Without(d, a, work);
             var (end, outcome) := Complete(d', SweepFrom(d', rest, active, failed, remains));
             outcome == Swept(failed + Failures(d', rest, active)) && SweepLeaves(d', rest, active, end)
    ensures var (end, outcome) := Complete(d, SweepFrom(d, [a] + rest, active, failed, remains));
            outcome == Swept(failed + Failures(d, [a] + rest, active)) && SweepLeaves(d, [a] + rest, active, end)
  {
    var d' := Without(d, a, work);
    var todo := SweepFrom(d', rest, active, failed, remains);
    assert ([a] + rest)[1..] == rest;
    RemoveCompletes(d, a, work, remains, todo);
    FailuresAlike(d, a, work, rest, active);
    RemovedThenSwept(d, a, work, rest, active, Complete(d', todo).0);
    assert Failures(d, [a] + rest, active) == Failures(d, rest, active);
  }

  lemma SweepThatSkips(d: Private, a: string, rest: seq<string>, active: set<string>, failed: seq<string>, remains: int)
    requires !Removes(d, a, active)
    requires var failed' := if GivesUp(d, a, active) then failed + [a] else failed;
             var (end, outcome) := Complete(d, SweepFrom(d, rest, active, failed', remains));
             outcome == Swept(failed' + Failures(d, rest, active)) && SweepLeaves(d, rest, active, end)
    ensures var (end, outcome) := Complete(d, SweepFrom(d, [a] + rest, active, failed, remains));
            outcome == Swept(failed + Failures(d, [a] + rest, active)) && SweepLeaves(d, [a] + rest, active, end)
  {
    var failed' := if GivesUp(d, a, active) then failed + [a] else failed;
    assert ([a] + rest)[1..] == rest;
    assert failed' + Failures(d, rest, active) == failed + Failures(d, [a] + rest, active);
    NotRemoved(d, a, rest, active, Complete(d, SweepFrom(d, rest, active, failed', remains)).0);
  }

  lemma NotRemoved(d: Private, a: string, rest: seq<string>, active: set<string>, end: Private)
    requires SweepLeaves(d, rest, active, end) && !Removes(d, a, active)
    ensures SweepLeaves(d, [a] + rest, active, end)
  {
    forall n ensures Survives(d, [a] + rest, active, n) <==> Survives(d, rest, active, n) { }
  }

  lemma RemovedThenSwept(d: Private, a: string, work: string, rest: seq<string>, active: set<string>, end: Private)
    requires Judge(d, a, None) == Remove(work) && Stale(a, active) && a !in rest
    requires SweepLeaves(Without(d, a, work), rest, active, end)
    ensures SweepLeaves(d, [a] + rest, active, end)
  {
    var d' := Without(d, a, work);
    forall b | b != a ensures Judge(d', b, None) == Judge(d, b, None) { OthersJudgedAlike(d, a, work, b); }
    forall n ensures Survives(d, [a] + rest, active, n) <==> n != work && Survives(d', rest, active, n) {
      if Survives(d, [a] + rest, active, n) {
        assert a in [a] + rest;
        forall b | b in rest && Removes(d', b, active) ensures Judge(d', b, None).work != n { assert b in [a] + rest; }
      }
    }
  }

  /** The record of an active attempt, and the object that a valid record names, are as before. */
  ghost predicate SameAttempt(d0: Private, d: Private, a: string) {
    && (a in d.records <==> a in d0.records)
    && (a in d0.records ==> d.records[a] == d0.records[a])
    && (a in d0.records && ValidRecord(d0.records[a], a) ==>
          SameObject(d0, d, WorkName(d0.records[a].kind.value, a)))
  }

  ghost predicate SameObject(d0: Private, d: Private, name: string) {
    (name in d.objects <==> name in d0.objects) && (name in d0.objects ==> d.objects[name] == d0.objects[name])
  }

  ghost function KeepActive(d0: Private, active: set<string>): Private -> bool {
    d => forall a :: a in active ==> SameAttempt(d0, d, a)
  }

  /** The removal of an attempt stays away from the record and the work of every other one. */
  lemma RemovalSpares(d0: Private, d: Private, a: string, work: string, remains: int, b: string)
    requires SameAttempt(d0, d, b) && Judge(d, a, None) == Remove(work) && a != b
    ensures SameAttempt(d0, Without(d, a, work), b)
    ensures SameAttempt(d0, d.(objects := d.objects - {work}), b)
    ensures work in d.objects ==>
              SameAttempt(d0, d.(objects := d.objects[work := RealDir(remains, d.objects[work].isPrivate)]), b)
  {
    if b in d0.records && ValidRecord(d0.records[b], b) && WorkName(d0.records[b].kind.value, b) == work {
      WorkNameInjective(d.records[a].kind.value, a, d0.records[b].kind.value, b);
    }
  }

  lemma RemovalKeepsActive(
      d0: Private, d: Private, a: string, work: string, active: set<string>, remains: int,
      todo: Run<Private, Outcome>)
    requires KeepActive(d0, active)(d) && Judge(d, a, None) == Remove(work) && a !in active
    requires KeepActive(d0, active)(Without(d, a, work)) ==>
               Throughout(Without(d, a, work), todo, KeepActive(d0, active))
    ensures Throughout(d, RemoveRun(d, a, work, remains, todo), KeepActive(d0, active))
  {
    var gone := d.(objects := d.objects - {work});
    forall b | b in active ensures SameAttempt(d0, Without(d, a, work), b) && SameAttempt(d0, gone, b) {
      RemovalSpares(d0, d, a, work, remains, b);
    }
    assert KeepActive(d0, active)(gone) && KeepActive(d0, active)(Without(d, a, work));
    if work in d.objects {
      var torn := d.(objects := d.objects[work := RealDir(remains, d.objects[work].isPrivate)]);
      forall b | b in active ensures SameAttempt(d0, torn, b) { RemovalSpares(d0, d, a, work, remains, b); }
      assert KeepActive(d0, active)(torn);
    } else {
      assert gone == d;
    }
  }

  /** An active attempt is safe from a sweep at every write of it, and so however the sweep is cut off. */
  lemma {:induction false} SweepKeepsActive(
      d0: Private, d: Private, names: seq<string>, active: set<string>, failed: seq<string>, remains: int)
    requires KeepActive(d0, active)(d)
    ensures Throughout(d, SweepFrom(d, names, active, failed, remains), KeepActive(d0, active))
    decreases |names|
  {
    if names != [] {
      var a, rest := names[0], names[1..];
      if !Stale(a, active) {
        SweepKeepsActive(d0, d, rest, active, failed, remains);
      } else {
        match Judge(d, a, None)
        case Refuse => SweepKeepsActive(d0, d, rest, active, failed + [a], remains);
        case NothingLeft => SweepKeepsActive(d0, d, rest, active, failed, remains);
        case Remove(work) =>
          var d' := Without(d, a, work);
          if KeepActive(d0, active)(d') { SweepKeepsActive(d0, d', rest, active, failed, remains); }
          RemovalKeepsActive(d0, d, a, work, active, remains, SweepFrom(d', rest, active, failed, remains));
      }
    }
  }

  /** However a sweep is cut off, the active attempts have their records and their work trees as before. */
  lemma CutSweepSparesActive(d: Private, names: seq<string>, active: set<string>, remains: int, writes: nat, a: string)
    requires a in active
    ensures SameAttempt(d, CutAfter(d, SweepRun(d, names, active, remains), writes).disk, a)
  {
    SweepKeepsActive(d, d, names, active, [], remains);
    CutKeeps(d, SweepRun(d, names, active, remains), writes, KeepActive(d, active));
  }

  /** What is left of the records: active attempts, reported failures, names that are no attempt, dangling links. */
  lemma SweepLeavesActiveAndFailed(d: Private, names: seq<string>, active: set<string>, remains: int)
    requires d.attemptsOk
    requires forall a :: a in names <==> a in d.records
    requires forall i, j :: 0 <= i < j < |names| ==> names[i] != names[j]
    ensures var (end, outcome) := Complete(d, SweepRun(d, names, active, remains));
            && outcome.Swept?
            && (forall a :: a in end.records <==>
                  a in d.records && (!MatchesAttempt(a) || a in active || a in outcome.failed ||
                      (d.privateOk && d.records[a].Dangling?)))
            && (forall a :: a in end.records ==> end.records[a] == d.records[a])
  {
    CompletedSweep(d, names, active, [], remains);
    assert [] + Failures(d, names, active) == Failures(d, names, active);
    FailuresAre(d, names, active);
  }

  lemma FailuresAre(d: Private, names: seq<string>, active: set<string>)
    ensures forall a :: a in Failures(d, names, active) <==> a in names && GivesUp(d, a, active)
    decreases |names|
  {
    if names != [] { FailuresAre(d, names[1..], active); }
  }
}
