/**
  The runtime store as the updater drives it: a host whose selector, store,
  manifests and records are changed one durable write at a time. Every method takes
  the number of writes it may make before the process dies, and is proved to leave
  the host exactly as the Run of its operation, cut there, leaves the disk.
 */
module RuntimeHost {
  import opened Durable
  import opened Names
  import opened StoreModel
  import opened StoreSafety

  /** How a call ends: the process died in it, or it returned or raised. */
  datatype Ending = Death | End(outcome: Outcome)

  /** The disk after so many writes of the removal of an entry. */
  function DuringCollect(d: Disk, name: string, remains: Tree, writes: nat): Disk
    requires name in d.store && d.store[name].Dir?
  {
    match writes
    case 0 => d
    case 1 => d.(store := d.store[name := Dir(Torn(d.store[name].tree, remains))])
    case 2 => d.(store := d.store - {name})
    case _ => Collected(d, name)
  }

  lemma CutCollect(d: Disk, name: string, remains: Tree, rest: Run<Disk, Outcome>, writes: nat)
    requires name in d.store && d.store[name].Dir?
    ensures CutAfter(d,
              Step(DuringCollect(d, name, remains, 1),
                Step(DuringCollect(d, name, remains, 2), Step(Collected(d, name), rest))), writes)
         == if writes < 3 then Died(DuringCollect(d, name, remains, writes))
            else CutAfter(Collected(d, name), rest, writes - 3)
  {
    var torn, gone := DuringCollect(d, name, remains, 1), DuringCollect(d, name, remains, 2);
    var last := Step(Collected(d, name), rest);
    var whole := Step(torn, Step(gone, last));
    if writes >= 1 { assert CutAfter(d, whole, writes) == CutAfter(torn, whole.rest, writes - 1); }
    if writes >= 2 { assert CutAfter(torn, Step(gone, last), writes - 1) == CutAfter(gone, last, writes - 2); }
    if writes >= 3 { assert CutAfter(gone, last, writes - 2) == CutAfter(Collected(d, name), rest, writes - 3); }
  }

  class Host {
    const appOk: bool
    var storeDir: StoreDir
    var selector: Selector
    var store: map<string, Entry>
    var manifests: map<string, Manifest>
    var staging: map<string, Entry>
    var record: Record
    var previous: Previous

    constructor (d: Disk)
      ensures Now() == d
    {
      appOk, storeDir, selector := d.appOk, d.storeDir, d.selector;
      store, manifests, staging := d.store, d.manifests, d.staging;
      record, previous := d.record, d.previous;
    }

    function Now(): Disk
      reads this
    {
      Disk(appOk, storeDir, selector, store, manifests, staging, record, previous)
    }

    /** What the host and the caller are left with. */
    function Left(e: Ending): Cut<Disk, Outcome>
      reads this
    {
      if e.Death? then Died(Now()) else Ended(Now(), e.outcome)
    }

    method Stage(id: string, attempt: string, build: Build, writes: nat) returns (e: Ending)
      modifies this
      ensures Left(e) == CutAfter(old(Now()), StageRun(old(Now()), id, attempt, build), writes)
    {
      if !MatchesId(id) || id == LEGACY_ID { return End(Raised(InvalidId)); }
      if !AttemptId(attempt) { return End(Raised(InvalidAttempt)); }
      if OpenStore(Now(), true).Refuse? { return End(Raised(OpenStore(Now(), true).error)); }
      var left := writes;
      if storeDir.NoStore? {
        if left == 0 { return Death; }
        left := left - 1;
        storeDir := GoodStore;
      }
      assert CutAfter(old(Now()), StageRun(old(Now()), id, attempt, build), writes)
          == CutAfter(Now(), StageInStore(Now(), id, attempt, build), left);
      if id in store { return End(Raised(AlreadyExists)); }
      if id in manifests { return End(Raised(OrphanManifest)); }
      if attempt in staging { return End(Raised(StagingExists)); }
      if build.NeverStarted? { return End(Raised(BuildFailed)); }
      ghost var todo := StageInStore(Now(), id, attempt, build);
      if left == 0 { return Death; }
      left := left - 1;
      staging := staging[attempt := Dir(build.partial)];
      assert CutAfter(old(Now()), StageRun(old(Now()), id, attempt, build), writes) == CutAfter(Now(), todo.rest, left);
      if build.Interrupted? { return End(Raised(BuildFailed)); }
      if left == 0 { return Death; }
      staging := staging[attempt := Dir(build.whole)];
      assert staging == old(staging)[attempt := Dir(build.whole)];
      assert CutAfter(old(Now()), StageRun(old(Now()), id, attempt, build), writes)
          == CutAfter(Now(), todo.rest.rest, left - 1);
      return End(if build.tightened then Returned(Unit) else Raised(BuildFailed));
    }

    method Finalize(id: string, attempt: string, w: Weather, writes: nat) returns (e: Ending)
      modifies this
      ensures Left(e) == CutAfter(old(Now()), FinalizeRun(old(Now()), id, attempt, w), writes)
    {
      if !FullId(id) || id == LEGACY_ID { return End(Raised(InvalidId)); }
      if !AttemptId(attempt) { return End(Raised(InvalidAttempt)); }
      if OpenStore(Now(), false).Refuse? { return End(Raised(OpenStore(Now(), false).error)); }
      if attempt !in staging || !staging[attempt].Dir? { return End(Raised(StagingMissing)); }
      if !w.checks {
        e := Abandon(id, attempt, w, false, ChecksFailed, writes);
        return;
      }
      if id in store || id in manifests {
        e := Abandon(id, attempt, w, false, Collision, writes);
        return;
      }
      if writes == 0 { return Death; }
      manifests := manifests[id := BuiltManifest(id, attempt)];
      assert CutAfter(old(Now()), FinalizeRun(old(Now()), id, attempt, w), writes)
          == CutAfter(Now(), PublishRun(Now(), id, attempt, w), writes - 1);
      if !w.rename {
        e := Abandon(id, attempt, w, true, PublishFailed, writes - 1);
        return;
      }
      ghost var todo := PublishRun(Now(), id, attempt, w);
      if writes == 1 { return Death; }
      store, staging := store[id := staging[attempt]], staging - {attempt};
      assert CutAfter(old(Now()), FinalizeRun(old(Now()), id, attempt, w), writes)
          == CutAfter(Now(), todo.rest, writes - 2);
      if ValidateTarget(Now(), id).Refuse? || !w.postCheck { return End(Raised(PostCheckFailed)); }
      return End(Returned(RuntimeId(id)));
    }

    /** The exception handler of the publication: clear the staging tree, retract an unpublished manifest. */
    method Abandon(id: string, attempt: string, w: Weather, manifestWritten: bool, error: Error, writes: nat)
        returns (e: Ending)
      requires attempt in staging && staging[attempt].Dir?
      modifies this
      ensures Left(e) == CutAfter(old(Now()), AbandonRun(old(Now()), id, attempt, w, manifestWritten, error), writes)
    {
      if writes == 0 { return Death; }
      var left := writes - 1;
      ghost var todo := AbandonRun(Now(), id, attempt, w, manifestWritten, error);
      staging := staging[attempt := Dir(Torn(staging[attempt].tree, w.remains))];
      assert CutAfter(old(Now()), todo, writes) == CutAfter(Now(), todo.rest, left);
      if w.cleaned {
        if left == 0 { return Death; }
        left := left - 1;
        staging := staging - {attempt};
        assert staging == old(staging) - {attempt};
      }
      assert CutAfter(old(Now()), AbandonRun(old(Now()), id, attempt, w, manifestWritten, error), writes)
          == CutAfter(Now(), RetractRun(Now(), id, manifestWritten, error), left);
      e := Retract(id, manifestWritten, error, left);
    }

    method Retract(id: string, manifestWritten: bool, error: Error, writes: nat) returns (e: Ending)
      modifies this
      ensures Left(e) == CutAfter(old(Now()), RetractRun(old(Now()), id, manifestWritten, error), writes)
    {
      if manifestWritten && id !in store {
        if writes == 0 { return Death; }
        ghost var todo := RetractRun(Now(), id, manifestWritten, error);
        manifests := manifests - {id};
        assert CutAfter(old(Now()), todo, writes) == CutAfter(Now(), todo.rest, writes - 1);
      }
      return End(Raised(error));
    }

    method Install(attempt: string, tree: Tree, writes: nat) returns (e: Ending)
      modifies this`staging
      ensures Left(e) == CutAfter(old(Now()), InstallRun(old(Now()), attempt, tree), writes)
    {
      if attempt !in staging || !staging[attempt].Dir? { return End(Raised(StagingMissing)); }
      if writes == 0 { return Death; }
      staging := staging[attempt := Dir(tree)];
      return End(Returned(Unit));
    }

    method Discard(attempt: string, remains: Tree, writes: nat) returns (e: Ending)
      modifies this
      ensures Left(e) == CutAfter(old(Now()), DiscardRun(old(Now()), attempt, remains), writes)
    {
      if !AttemptId(attempt) { return End(Raised(InvalidAttempt)); }
      if !appOk { return End(Raised(AppDirRefused)); }
      if storeDir.NoStore? { return End(Returned(Flag(false))); }
      if storeDir.BadStore? { return End(Raised(StoreRefused)); }
      if attempt !in staging { return End(Returned(Flag(false))); }
      if !staging[attempt].Dir? || !staging[attempt].tree.owned { return End(Raised(StagingRefused)); }
      ghost var todo := DiscardRun(Now(), attempt, remains);
      if writes == 0 { return Death; }
      staging := staging[attempt := Dir(Torn(staging[attempt].tree, remains))];
      assert CutAfter(old(Now()), todo, writes) == CutAfter(Now(), todo.rest, writes - 1);
      if writes == 1 { return Death; }
      staging := staging - {attempt};
      assert staging == old(staging) - {attempt};
      return End(Returned(Flag(true)));
    }

    method Reconcile(id: string, attempt: string, live: bool, remains: Tree, writes: nat) returns (e: Ending)
      modifies this
      ensures Left(e) == CutAfter(old(Now()), ReconcileRun(old(Now()), id, attempt, live, remains), writes)
    {
      if !FullId(id) || id == LEGACY_ID { return End(Raised(InvalidId)); }
      if !AttemptId(attempt) { return End(Raised(InvalidAttempt)); }
      if !appOk { return End(Raised(AppDirRefused)); }
      if storeDir.NoStore? { return End(Returned(Verdict(Absent))); }
      if storeDir.BadStore? { return End(Raised(StoreRefused)); }
      ghost var whole := CutAfter(Now(), ReconcileRun(Now(), id, attempt, live, remains), writes);
      DiscardedFirst(Now(), id, attempt, live, remains, writes);
      e := Discard(attempt, remains, writes);
      if e.Death? || e.outcome.Raised? { return; }
      var staged := e.outcome == Returned(Flag(true));
      e := ReconcileRuntime(id, attempt, staged, live, remains, if staged then writes - 2 else writes);
    }

    method ReconcileRuntime(id: string, attempt: string, staged: bool, live: bool, remains: Tree, writes: nat)
        returns (e: Ending)
      modifies this
      ensures Left(e) == CutAfter(old(Now()), ReconcileFinal(old(Now()), id, attempt, staged, live, remains), writes)
    {
      var authority := RecoveryManifest(Now(), id, attempt);
      if id !in store {
        if id !in manifests { return End(Returned(Verdict(if staged then DiscardedStaging else Absent))); }
        if authority.Refuse? { return End(Raised(authority.error)); }
        if writes == 0 { return Death; }
        manifests := manifests - {id};
        return End(Returned(Verdict(DiscardedPartial)));
      }
      if ValidateTarget(Now(), id).Pass? && live { return End(Returned(Verdict(Kept))); }
      if authority.Refuse? { return End(Raised(authority.error)); }
      if !store[id].Dir? || !store[id].tree.owned { return End(Raised(RuntimeRefused)); }
      if SelectorResolvesTo(Now(), id) { return End(Raised(SelectorReferenced)); }
      ghost var todo := ReconcileFinal(Now(), id, attempt, staged, live, remains);
      if writes == 0 { return Death; }
      store := store[id := Dir(Torn(store[id].tree, remains))];
      assert CutAfter(old(Now()), todo, writes) == CutAfter(Now(), todo.rest, writes - 1);
      if writes == 1 { return Death; }
      store := store - {id};
      assert store == old(store) - {id};
      assert CutAfter(old(Now()), todo, writes) == CutAfter(Now(), todo.rest.rest, writes - 2);
      if writes == 2 { return Death; }
      manifests := manifests - {id};
      return End(Returned(Verdict(DiscardedInvalid)));
    }

    method Convert(writes: nat) returns (e: Ending)
      modifies this
      ensures Left(e) == CutAfter(old(Now()), ConvertRun(old(Now())), writes)
    {
      if !appOk { return End(Raised(AppDirRefused)); }
      if record.BadRecord? { return End(Raised(RecordUnreadable)); }
      if record.NoRecord? && selector.Link? { return End(SelectorOutcome(Now())); }
      var left := writes;
      if record.NoRecord? {
        if selector.NoSelector? { return End(Raised(SelectorMissing)); }
        if !selector.RealDir? { return End(Raised(NotADirectory)); }
        if !selector.tree.owned { return End(Raised(GateRefused)); }
        if LEGACY_ID in store {
          var found := ReadManifest(Now(), LEGACY_ID);
          if found.Refuse? { return End(Raised(found.error)); }
          if found.value.Missing? { return End(Raised(ForeignTarget)); }
        }
        if storeDir.BadStore? { return End(Raised(StoreRefused)); }
        if storeDir.NoStore? {
          if left == 0 { return Death; }
          left := left - 1;
          storeDir := GoodStore;
        }
        assert CutAfter(old(Now()), ConvertRun(old(Now())), writes) == CutAfter(Now(), ConvertRecord(Now()), left);
        if left == 0 { return Death; }
        left := left - 1;
        record := Record("recorded");
      }
      assert CutAfter(old(Now()), ConvertRun(old(Now())), writes) == CutAfter(Now(), ConvertMove(Now()), left);
      e := ResumeConversion(left);
    }

    /** The ordered steps behind the record; each looks at the disk first. */
    method ResumeConversion(writes: nat) returns (e: Ending)
      modifies this
      ensures Left(e) == CutAfter(old(Now()), ConvertMove(old(Now())), writes)
    {
      var left := writes;
      ghost var whole := CutAfter(Now(), ConvertMove(Now()), writes);
      ghost var todo := ConvertMove(Now());
      if selector.RealDir? && LEGACY_ID !in store {
        if !storeDir.GoodStore? { return End(Raised(StoreRefused)); }
        if left == 0 { return Death; }
        left := left - 1;
        selector, store := NoSelector, store[LEGACY_ID := Dir(selector.tree)];
        assert whole == CutAfter(Now(), todo.rest, left);
        if left == 0 { return Death; }
        left := left - 1;
        record := Record("moved");
      }
      assert whole == CutAfter(Now(), ConvertManifest(Now()), left);
      e := RecordLegacyRuntime(left);
    }

    method RecordLegacyRuntime(writes: nat) returns (e: Ending)
      modifies this
      ensures Left(e) == CutAfter(old(Now()), ConvertManifest(old(Now())), writes)
    {
      var left := writes;
      var found := ReadManifest(Now(), LEGACY_ID);
      if found.Refuse? { return End(Raised(found.error)); }
      if found.value.Missing? {
        if !storeDir.GoodStore? { return End(Raised(StoreRefused)); }
        if left == 0 { return Death; }
        left := left - 1;
        manifests := manifests[LEGACY_ID := LegacyManifest()];
      }
      e := PublishLegacyRuntime(left);
    }

    method PublishLegacyRuntime(writes: nat) returns (e: Ending)
      modifies this
      ensures Left(e) == CutAfter(old(Now()), ConvertPublish(old(Now())), writes)
    {
      var left := writes;
      ghost var whole := CutAfter(Now(), ConvertPublish(Now()), writes);
      ghost var todo := ConvertPublish(Now());
      if !selector.Link? {
        if !selector.NoSelector? { return End(Raised(StillPresent)); }
        if left == 0 { return Death; }
        left := left - 1;
        selector := StoreLinkTo(LEGACY_ID);
        assert whole == CutAfter(Now(), todo.rest, left);
        if left == 0 { return Death; }
        left := left - 1;
        record := Record("published");
      }
      assert whole == CutAfter(Now(), ConvertFinish(Now()), left);
      var active := ValidateSelector(Now());
      if active.Refuse? { return End(Raised(active.error)); }
      todo := ConvertFinish(Now());
      if left == 0 { return Death; }
      record := NoRecord;
      assert whole == CutAfter(Now(), todo.rest, left - 1);
      return End(Returned(RuntimeId(active.value)));
    }

    method RollbackConversion(writes: nat) returns (e: Ending)
      modifies this
      ensures Left(e) == CutAfter(old(Now()), RollbackConversionRun(old(Now())), writes)
    {
      var left := writes;
      ghost var whole := CutAfter(Now(), RollbackConversionRun(Now()), writes);
      if selector.Link? {
        if left == 0 { return Death; }
        left := left - 1;
        selector := NoSelector;
      }
      assert whole == CutAfter(Now(), RollbackMove(Now()), left);
      if selector.NoSelector? && LEGACY_ID in store && (store[LEGACY_ID].Dir? || store[LEGACY_ID].isDir) {
        if left == 0 { return Death; }
        left := left - 1;
        var moved := store[LEGACY_ID];
        selector := if moved.Dir? then RealDir(moved.tree) else Link(OddText(moved.resolves));
        store := store - {LEGACY_ID};
      }
      assert whole == CutAfter(Now(), RollbackRecord(Now()), left);
      e := RemoveConversionRecord(left);
    }

    method RemoveConversionRecord(writes: nat) returns (e: Ending)
      modifies this
      ensures Left(e) == CutAfter(old(Now()), RollbackRecord(old(Now())), writes)
    {
      if !record.NoRecord? {
        if writes == 0 { return Death; }
        ghost var todo := RollbackRecord(Now());
        record := NoRecord;
        assert CutAfter(old(Now()), todo, writes) == CutAfter(Now(), todo.rest, writes - 1);
      }
      return End(RollbackOutcome(Now()));
    }

    method Activate(id: string, steady: bool, writes: nat) returns (e: Ending)
      modifies this
      ensures Left(e) == CutAfter(old(Now()), ActivateRun(old(Now()), id, steady), writes)
    {
      var target := ValidateTarget(Now(), id);
      if target.Refuse? { return End(Raised(target.error)); }
      var current := ValidateSelector(Now());
      if current.Refuse? { return End(Raised(current.error)); }
      if current.value == id { return End(Returned(RuntimeId(id))); }
      if writes == 0 { return Death; }
      previous := Previous(current.value, id);
      e := Flip(current.value, id, steady, RuntimeId(current.value), writes - 1);
    }

    method Flip(from: string, to: string, steady: bool, value: Value, writes: nat) returns (e: Ending)
      modifies this`selector
      ensures Left(e) == CutAfter(old(Now()), FlipRun(old(Now()), from, to, steady, value), writes)
    {
      ghost var todo := FlipRun(Now(), from, to, steady, value);
      if writes == 0 { return Death; }
      selector := StoreLinkTo(to);
      assert CutAfter(old(Now()), todo, writes) == CutAfter(Now(), todo.rest, writes - 1);
      if ValidateSelector(Now()).Pass? && steady { return End(Returned(value)); }
      if writes == 1 { return Death; }
      selector := StoreLinkTo(from);
      assert CutAfter(old(Now()), todo, writes) == CutAfter(Now(), todo.rest.rest, writes - 2);
      return End(Raised(PostCheckFailed));
    }

    method ActivateInitial(id: string, steady: bool, writes: nat) returns (e: Ending)
      modifies this`selector
      ensures Left(e) == CutAfter(old(Now()), ActivateInitialRun(old(Now()), id, steady), writes)
    {
      var target := ValidateTarget(Now(), id);
      if target.Refuse? { return End(Raised(target.error)); }
      if !selector.NoSelector? { return End(Raised(SelectorPresent)); }
      ghost var todo := ActivateInitialRun(Now(), id, steady);
      if writes == 0 { return Death; }
      selector := StoreLinkTo(id);
      assert CutAfter(old(Now()), todo, writes) == CutAfter(Now(), todo.rest, writes - 1);
      if ValidateSelector(Now()).Pass? && steady { return End(Returned(RuntimeId(id))); }
      if writes == 1 { return Death; }
      selector := NoSelector;
      assert CutAfter(old(Now()), todo, writes) == CutAfter(Now(), todo.rest.rest, writes - 2);
      return End(Raised(PostCheckFailed));
    }

    method RollbackActivation(steady: bool, writes: nat) returns (e: Ending)
      modifies this`selector
      ensures Left(e) == CutAfter(old(Now()), RollbackActivationRun(old(Now()), steady), writes)
    {
      if previous.BadPrevious? { return End(Raised(RecordUnreadable)); }
      if !previous.Previous? { return End(Raised(NoPreviousRuntime)); }
      var to := previous.previous;
      var target := ValidateTarget(Now(), to);
      if target.Refuse? { return End(Raised(target.error)); }
      var current := ValidateSelector(Now());
      if current.Refuse? { return End(Raised(current.error)); }
      e := Flip(current.value, to, steady, RuntimeId(to), writes);
    }

    method Gc(listing: seq<string>, remains: Tree, writes: nat) returns (e: Ending)
      modifies this`store, this`manifests
      ensures Left(e) == CutAfter(old(Now()), GcRun(old(Now()), listing, remains), writes)
    {
      var current := ValidateSelector(Now());
      if current.Refuse? { return End(Raised(current.error)); }
      if previous.BadPrevious? { return End(Raised(RecordUnreadable)); }
      if OpenStore(Now(), false).Refuse? { return End(Raised(OpenStore(Now(), false).error)); }
      var keep := Keep(Now(), current.value);
      var removed: seq<string> := [];
      var left, i := writes, 0;
      ghost var whole := CutAfter(Now(), GcSweep(Now(), listing, keep, [], remains), writes);
      assert listing[0..] == listing;
      while i < |listing|
        invariant 0 <= i <= |listing|
        invariant previous == old(previous) && selector == old(selector) && storeDir == old(storeDir)
        invariant whole == CutAfter(Now(), GcSweep(Now(), listing[i..], keep, removed, remains), left)
      {
        var name := listing[i];
        assert listing[i..][0] == name && listing[i..][1..] == listing[i + 1..];
        i := i + 1;
        if name in keep || !MatchesId(name) { continue; }
        var found := ReadManifest(Now(), name);
        if found.Refuse? { return End(Raised(found.error)); }
        if found.value.Missing? || name !in store || !store[name].Dir? { continue; }
        ghost var rest := GcSweep(Collected(Now(), name), listing[i..], keep, removed + [name], remains);
        CutCollect(Now(), name, remains, rest, left);
        var died := Collect(name, remains, left);
        if died { return Death; }
        left := left - 3;
        removed := removed + [name];
      }
      return End(Returned(Removed(removed)));
    }

    /** The removal of one collectable entry: its tree, in two writes, and its manifest. */
    method Collect(name: string, remains: Tree, writes: nat) returns (died: bool)
      requires name in store && store[name].Dir?
      modifies this`store, this`manifests
      ensures died <==> writes < 3
      ensures Now() == DuringCollect(old(Now()), name, remains, writes)
    {
      if writes == 0 { return true; }
      store := store[name := Dir(Torn(store[name].tree, remains))];
      assert Now() == DuringCollect(old(Now()), name, remains, 1);
      if writes == 1 { return true; }
      store := store - {name};
      assert store == old(store) - {name};
      if writes == 2 { return true; }
      manifests := manifests - {name};
      return false;
    }

    /** One call of the updater or its recovery. */
    method Perform(op: Op, writes: nat) returns (e: Ending)
      modifies this
      ensures Left(e) == CutAfter(old(Now()), OpRun(old(Now()), op), writes)
    {
      match op
      case Stage(id, attempt, build) => e := Stage(id, attempt, build, writes);
      case Install(attempt, tree) => e := Install(attempt, tree, writes);
      case Finalize(id, attempt, w) => e := Finalize(id, attempt, w, writes);
      case Discard(attempt, remains) => e := Discard(attempt, remains, writes);
      case Reconcile(id, attempt, live, remains) => e := Reconcile(id, attempt, live, remains, writes);
      case Convert => e := Convert(writes);
      case RollbackConversion => e := RollbackConversion(writes);
      case Activate(id, steady) => e := Activate(id, steady, writes);
      case ActivateInitial(id, steady) => e := ActivateInitial(id, steady, writes);
      case RollbackActivation(steady) => e := RollbackActivation(steady, writes);
      case Gc(listing, remains) => e := Gc(listing, remains, writes);
    }

    /** A node's life: calls one after the other, each cut off or not. It stays safe to follow its selector. */
    method Live(schedule: seq<Call>)
      modifies this
      ensures Now() == After(old(Now()), schedule)
      ensures old(Safe(Now()) && Guarded(Now(), schedule)) ==> Safe(Now())
    {
      if Safe(Now()) && Guarded(Now(), schedule) { EveryRunIsSafe(Now(), schedule); }
      assert schedule[0..] == schedule;
      for i := 0 to |schedule|
        invariant After(Now(), schedule[i..]) == After(old(Now()), schedule)
      {
        assert schedule[i..][1..] == schedule[i + 1..];
        var _ := Perform(schedule[i].op, schedule[i].writes);
      }
    }
  }

  /** Reconciliation begins with what `discard_candidate_staging` does. */
  lemma DiscardedFirst(d: Disk, id: string, attempt: string, live: bool, remains: Tree, writes: nat)
    requires FullId(id) && id != LEGACY_ID && AttemptId(attempt) && d.appOk && d.storeDir.GoodStore?
    ensures var whole := CutAfter(d, ReconcileRun(d, id, attempt, live, remains), writes);
            match CutAfter(d, DiscardRun(d, attempt, remains), writes)
            case Died(d') => whole == Died(d')
            case Ended(d', outcome) =>
              if outcome.Raised? then whole == Ended(d', outcome)
              else
                && outcome.value.Flag? && (outcome.value.flag ==> 2 <= writes)
                && whole == CutAfter(d', ReconcileFinal(d', id, attempt, outcome.value.flag, live, remains),
                                     if outcome.value.flag then writes - 2 else writes)
  {
    if attempt in d.staging && d.staging[attempt].Dir? && d.staging[attempt].tree.owned {
      var d1 := d.(staging := d.staging[attempt := Dir(Torn(d.staging[attempt].tree, remains))]);
      var d2 := d.(staging := d.staging - {attempt});
      var todo := ReconcileFinal(d2, id, attempt, true, live, remains);
      if 1 <= writes {
        assert CutAfter(d, ReconcileRun(d, id, attempt, live, remains), writes)
            == CutAfter(d1, Step(d2, todo), writes - 1);
        assert CutAfter(d, DiscardRun(d, attempt, remains), writes)
            == CutAfter(d1, Step(d2, Halt(Returned(Flag(true)))), writes - 1);
      }
      if 2 <= writes {
        assert CutAfter(d1, Step(d2, todo), writes - 1) == CutAfter(d2, todo, writes - 2);
        assert CutAfter(d1, Step(d2, Halt(Returned(Flag(true)))), writes - 1) == Ended(d2, Returned(Flag(true)));
      }
    }
  }
}
