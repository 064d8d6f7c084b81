/**
  Safety of the runtime store over every run: any operations, in any order,
  each cut off between any two of its durable writes.
 */
module StoreSafety {
  import opened Durable
  import opened Names
  import opened StoreModel

  /******* Schedules *******/

  datatype Op =
    | Stage(id: string, attempt: string, build: Build)
    | Install(attempt: string, tree: Tree)
    | Finalize(id: string, attempt: string, weather: Weather)
    | Discard(attempt: string, remains: Tree)
    | Reconcile(id: string, attempt: string, live: bool, remains: Tree)
    | Convert
    | RollbackConversion
    | Activate(id: string, steady: bool)
    | ActivateInitial(id: string, steady: bool)
    | RollbackActivation(steady: bool)
    | Gc(listing: seq<string>, remains: Tree)

  function OpRun(d: Disk, op: Op): Run<Disk, Outcome> {
    match op
    case Stage(id, attempt, build) => StageRun(d, id, attempt, build)
    case Install(attempt, tree) => InstallRun(d, attempt, tree)
    case Finalize(id, attempt, weather) => FinalizeRun(d, id, attempt, weather)
    case Discard(attempt, remains) => DiscardRun(d, attempt, remains)
    case Reconcile(id, attempt, live, remains) => ReconcileRun(d, id, attempt, live, remains)
    case Convert => ConvertRun(d)
    case RollbackConversion => RollbackConversionRun(d)
    case Activate(id, steady) => ActivateRun(d, id, steady)
    case ActivateInitial(id, steady) => ActivateInitialRun(d, id, steady)
    case RollbackActivation(steady) => RollbackActivationRun(d, steady)
    case Gc(listing, remains) => GcRun(d, listing, remains)
  }

  /** One call and the number of durable writes it is allowed before the process dies. */
  datatype Call = Call(op: Op, writes: nat)

  function AfterCall(d: Disk, c: Call): Disk { CutAfter(d, OpRun(d, c.op), c.writes).disk }

  function After(d: Disk, schedule: seq<Call>): Disk
    decreases |schedule|
  {
    if schedule == [] then d else After(AfterCall(d, schedule[0]), schedule[1..])
  }

  /******* The invariant *******/

  predicate Bound(d: Disk, id: string) {
    && id in d.manifests && d.manifests[id].Doc?
    && d.manifests[id].runtimeId == id && d.manifests[id].state == VALIDATED
  }

  predicate RealRuntime(d: Disk, id: string) { id in d.store && d.store[id].Dir? }

  /** A selector that is a link names a real store directory whose manifest is bound to it and validated. */
  predicate LinkSafe(d: Disk) {
    d.selector.Link? ==>
      d.selector.text.StoreLink? && RealRuntime(d, d.selector.text.name) && Bound(d, d.selector.text.name)
  }

  /** A recorded conversion refuses before it publishes anything, now and until someone repairs the node. */
  predicate CannotResume(d: Disk) {
    || !d.appOk
    || ReadManifest(d, LEGACY_ID).Refuse?
    || (ReadManifest(d, LEGACY_ID).value.Missing? && d.storeDir.BadStore?)
  }

  /**
    What a resumed conversion publishes is there: with its record present and no selector, the legacy runtime is in the
    store.
   */
  predicate Resumable(d: Disk) {
    d.record.Record? && d.selector.NoSelector? ==> RealRuntime(d, LEGACY_ID) || CannotResume(d)
  }

  /** The legacy manifest, if it can be read as one, is a validated one. */
  predicate LegacyManifestOk(d: Disk) {
    && (LEGACY_ID in d.manifests && d.manifests[LEGACY_ID].Doc? && d.manifests[LEGACY_ID].runtimeId == LEGACY_ID
      ==> d.manifests[LEGACY_ID].state == VALIDATED)
  }

  predicate Safe(d: Disk) { LinkSafe(d) && Resumable(d) && LegacyManifestOk(d) }

  /******* Every operation keeps it, at every write *******/

  lemma RetractKeepsSafe(d: Disk, id: string, manifestWritten: bool, error: Error)
    requires Safe(d) && id != LEGACY_ID
    ensures Throughout(d, RetractRun(d, id, manifestWritten, error), Safe)
  {
  }

  lemma AbandonKeepsSafe(d: Disk, id: string, attempt: string, w: Weather, manifestWritten: bool, error: Error)
    requires Safe(d) && attempt in d.staging && d.staging[attempt].Dir?
    requires id != LEGACY_ID
    ensures Throughout(d, AbandonRun(d, id, attempt, w, manifestWritten, error), Safe)
  {
    RetractKeepsSafe(d.(staging := d.staging[attempt := Dir(Torn(d.staging[attempt].tree, w.remains))]), id,
        manifestWritten, error);
    RetractKeepsSafe(d.(staging := d.staging - {attempt}), id, manifestWritten, error);
  }

  lemma FinalizeKeepsSafe(d: Disk, id: string, attempt: string, w: Weather)
    requires Safe(d)
    ensures Throughout(d, FinalizeRun(d, id, attempt, w), Safe)
  {
    if attempt in d.staging && d.staging[attempt].Dir? && id != LEGACY_ID {
      AbandonKeepsSafe(d, id, attempt, w, false, ChecksFailed);
      AbandonKeepsSafe(d, id, attempt, w, false, Collision);
      if id !in d.store {
        var d1 := d.(manifests := d.manifests[id := BuiltManifest(id, attempt)]);
        AbandonKeepsSafe(d1, id, attempt, w, true, PublishFailed);
        assert Throughout(d1, PublishRun(d1, id, attempt, w), Safe);
      }
    }
  }

  lemma ReconcileFinalKeepsSafe(d: Disk, id: string, attempt: string, staged: bool, live: bool, remains: Tree)
    requires Safe(d) && id != LEGACY_ID
    ensures Throughout(d, ReconcileFinal(d, id, attempt, staged, live, remains), Safe)
  {
    if id in d.store && d.store[id].Dir? && !SelectorResolvesTo(d, id) {
      var d2 := d.(store := d.store - {id});
      var d3 := d2.(manifests := d2.manifests - {id});
      assert Safe(d2) && Safe(d3);
      assert Throughout(d2, Step(d3, Halt(Returned(Verdict(DiscardedInvalid)))), Safe);
    }
  }

  lemma ReconcileKeepsSafe(d: Disk, id: string, attempt: string, live: bool, remains: Tree)
    requires Safe(d)
    ensures Throughout(d, ReconcileRun(d, id, attempt, live, remains), Safe)
  {
    if id != LEGACY_ID {
      ReconcileFinalKeepsSafe(d, id, attempt, false, live, remains);
      var d2 := d.(staging := d.staging - {attempt});
      ReconcileFinalKeepsSafe(d2, id, attempt, true, live, remains);
    }
  }

  /** From here on the legacy runtime must be wherever a link to it would need it. */
  lemma ConvertPublishKeepsSafe(d: Disk)
    requires Safe(d) && d.record.Record?
    requires d.selector.NoSelector? ==> Bound(d, LEGACY_ID) && RealRuntime(d, LEGACY_ID)
    ensures Throughout(d, ConvertPublish(d), Safe)
  {
    if d.selector.Link? {
      assert Throughout(d, ConvertFinish(d), Safe);
    } else if d.selector.NoSelector? {
      var d2 := d.(selector := StoreLinkTo(LEGACY_ID), record := Record("published"));
      assert Throughout(d2, ConvertFinish(d2), Safe);
    }
  }

  lemma ConvertManifestKeepsSafe(d: Disk)
    requires Safe(d) && d.record.Record? && d.appOk
    ensures Throughout(d, ConvertManifest(d), Safe)
  {
    if ReadManifest(d, LEGACY_ID) == Pass(Missing) && d.storeDir.GoodStore? {
      ConvertPublishKeepsSafe(d.(manifests := d.manifests[LEGACY_ID := LegacyManifest()]));
    } else if ReadManifest(d, LEGACY_ID).Pass? && ReadManifest(d, LEGACY_ID).value.Present? {
      ConvertPublishKeepsSafe(d);
    }
  }

  lemma ConvertMoveKeepsSafe(d: Disk)
    requires Safe(d) && d.record.Record? && d.appOk
    ensures Throughout(d, ConvertMove(d), Safe)
  {
    if d.selector.RealDir? && LEGACY_ID !in d.store {
      var d1 := d.(selector := NoSelector, store := d.store[LEGACY_ID := Dir(d.selector.tree)]);
      ConvertManifestKeepsSafe(d1.(record := Record("moved")));
    } else {
      ConvertManifestKeepsSafe(d);
    }
  }

  lemma ConvertKeepsSafe(d: Disk)
    requires Safe(d)
    ensures Throughout(d, ConvertRun(d), Safe)
  {
    if !d.appOk {
    } else if d.record.Record? {
      ConvertMoveKeepsSafe(d);
    } else if d.selector.RealDir? {
      var d1 := d.(storeDir := GoodStore);
      ConvertMoveKeepsSafe(d.(record := Record("recorded")));
      ConvertMoveKeepsSafe(d1.(record := Record("recorded")));
      assert Throughout(d1, ConvertRecord(d1), Safe);
    }
  }

  lemma FlipKeepsSafe(d: Disk, from: string, to: string, steady: bool, value: Value)
    requires Safe(d) && d.selector == StoreLinkTo(from) && ValidateTarget(d, to).Pass?
    ensures Throughout(d, FlipRun(d, from, to, steady, value), Safe)
  {
  }

  lemma {:induction false} GcSweepKeepsSafe(
      d: Disk, names: seq<string>, keep: set<string>, removed: seq<string>, remains: Tree)
    requires Safe(d) && d.selector.Link? && d.selector.text.name in keep
    ensures Throughout(d, GcSweep(d, names, keep, removed, remains), Safe)
    decreases |names|
  {
    if names != [] && !StopsCollection(d, names[0], keep) {
      if Collectable(d, names[0], keep) {
        var d2 := d.(store := d.store - {names[0]});
        var d3 := Collected(d, names[0]);
        var rest := GcSweep(d3, names[1..], keep, removed + [names[0]], remains);
        GcSweepKeepsSafe(d3, names[1..], keep, removed + [names[0]], remains);
        assert Throughout(d2, Step(d3, rest), Safe);
      } else {
        GcSweepKeepsSafe(d, names[1..], keep, removed, remains);
      }
    }
  }

  /** In the legacy runtime's place is a link to a directory, which a rollback would move to the selector. */
  predicate LegacyLeadsAway(d: Disk) { LEGACY_ID in d.store && d.store[LEGACY_ID].Object? && d.store[LEGACY_ID].isDir }

  /**
    What a caller of `rollback_conversion` can check first: where the selector is not in the way, the legacy
    runtime is there to move back; or nothing substituted is moved, and no conversion can publish what is missing.
   */
  predicate RollbackGuard(d: Disk) {
    d.selector.Link? || d.selector.NoSelector? ==>
      RealRuntime(d, LEGACY_ID) || (!LegacyLeadsAway(d) && (!d.record.Record? || CannotResume(d)))
  }

  lemma RollbackKeepsSafe(d: Disk)
    requires Safe(d) && RollbackGuard(d)
    ensures Throughout(d, RollbackConversionRun(d), Safe)
  {
    var d1 := d.(selector := NoSelector);
    assert Throughout(d, RollbackRecord(d), Safe);
    if d.selector.Link? {
      assert Safe(d1);
      if RealRuntime(d1, LEGACY_ID) {
        var d2 := d1.(selector := RealDir(d1.store[LEGACY_ID].tree), store := d1.store - {LEGACY_ID});
        assert Throughout(d2, RollbackRecord(d2), Safe);
      } else {
        assert Throughout(d1, RollbackRecord(d1), Safe);
      }
    } else if d.selector.NoSelector? && RealRuntime(d, LEGACY_ID) {
      var d2 := d.(selector := RealDir(d.store[LEGACY_ID].tree), store := d.store - {LEGACY_ID});
      assert Throughout(d2, RollbackRecord(d2), Safe);
    }
  }

  lemma StageInStoreKeepsSafe(d: Disk, id: string, attempt: string, build: Build)
    requires Safe(d)
    ensures Throughout(d, StageInStore(d, id, attempt, build), Safe)
  {
  }

  lemma DiscardKeepsSafe(d: Disk, attempt: string, remains: Tree)
    requires Safe(d)
    ensures Throughout(d, DiscardRun(d, attempt, remains), Safe)
  {
  }

  lemma ActivateKeepsSafe(d: Disk, id: string, steady: bool)
    requires Safe(d)
    ensures Throughout(d, ActivateRun(d, id, steady), Safe)
  {
    if ValidateTarget(d, id).Pass? && ValidateSelector(d).Pass? {
      var from := ValidateSelector(d).value;
      FlipKeepsSafe(d.(previous := Previous(from, id)), from, id, steady, RuntimeId(from));
    }
  }

  lemma ActivateInitialKeepsSafe(d: Disk, id: string, steady: bool)
    requires Safe(d)
    ensures Throughout(d, ActivateInitialRun(d, id, steady), Safe)
  {
  }

  lemma RollbackActivationKeepsSafe(d: Disk, steady: bool)
    requires Safe(d)
    ensures Throughout(d, RollbackActivationRun(d, steady), Safe)
  {
    if d.previous.Previous? && ValidateTarget(d, d.previous.previous).Pass? && ValidateSelector(d).Pass? {
      FlipKeepsSafe(d, ValidateSelector(d).value, d.previous.previous, steady, RuntimeId(d.previous.previous));
    }
  }

  lemma GcKeepsSafe(d: Disk, listing: seq<string>, remains: Tree)
    requires Safe(d)
    ensures Throughout(d, GcRun(d, listing, remains), Safe)
  {
    if ValidateSelector(d).Pass? {
      GcSweepKeepsSafe(d, listing, Keep(d, ValidateSelector(d).value), [], remains);
    }
  }

  lemma StageKeepsSafe(d: Disk, id: string, attempt: string, build: Build)
    requires Safe(d)
    ensures Throughout(d, StageRun(d, id, attempt, build), Safe)
  {
    StageInStoreKeepsSafe(d, id, attempt, build);
    if d.storeDir.NoStore? { StageInStoreKeepsSafe(d.(storeDir := GoodStore), id, attempt, build); }
  }

  lemma OpKeepsSafe(d: Disk, op: Op)
    requires Safe(d)
    requires op.RollbackConversion? ==> RollbackGuard(d)
    ensures Throughout(d, OpRun(d, op), Safe)
  {
    match op
    case Stage(id, attempt, build) => StageKeepsSafe(d, id, attempt, build);
    case Install(_, _) =>
    case Finalize(id, attempt, w) => FinalizeKeepsSafe(d, id, attempt, w);
    case Discard(attempt, remains) => DiscardKeepsSafe(d, attempt, remains);
    case Reconcile(id, attempt, live, remains) => ReconcileKeepsSafe(d, id, attempt, live, remains);
    case Convert => ConvertKeepsSafe(d);
    case RollbackConversion => RollbackKeepsSafe(d);
    case Activate(id, steady) => ActivateKeepsSafe(d, id, steady);
    case ActivateInitial(id, steady) => ActivateInitialKeepsSafe(d, id, steady);
    case RollbackActivation(steady) => RollbackActivationKeepsSafe(d, steady);
    case Gc(listing, remains) => GcKeepsSafe(d, listing, remains);
  }

  /******* Safety over whole runs *******/

  /** Every rollback of the conversion in the schedule starts on a disk that meets its guard. */
  predicate Guarded(d: Disk, schedule: seq<Call>)
    decreases |schedule|
  {
    schedule != [] ==>
      && (schedule[0].op.RollbackConversion? ==> RollbackGuard(d))
      && Guarded(AfterCall(d, schedule[0]), schedule[1..])
  }

  /** In every state a run can be cut off in, a selector that is a link is safe to follow. */
  lemma {:induction false} EveryRunIsSafe(d: Disk, schedule: seq<Call>)
    requires Safe(d) && Guarded(d, schedule)
    ensures Safe(After(d, schedule))
    decreases |schedule|
  {
    if schedule != [] {
      OpKeepsSafe(d, schedule[0].op);
      CutKeeps(d, OpRun(d, schedule[0].op), schedule[0].writes, Safe);
      EveryRunIsSafe(AfterCall(d, schedule[0]), schedule[1..]);
    }
  }

  /** A run that never rolls the conversion back needs no guard. */
  lemma {:induction false} UnguardedRunsAreSafe(d: Disk, schedule: seq<Call>)
    requires Safe(d)
    requires NoRollbacks(schedule)
    ensures LinkSafe(After(d, schedule))
    decreases |schedule|
  {
    if schedule != [] {
      OpKeepsSafe(d, schedule[0].op);
      CutKeeps(d, OpRun(d, schedule[0].op), schedule[0].writes, Safe);
      UnguardedRunsAreSafe(AfterCall(d, schedule[0]), schedule[1..]);
    }
  }

  /******* The guard is exact *******/

  predicate NoRollbacks(schedule: seq<Call>) {
    forall i :: 0 <= i < |schedule| ==> !schedule[i].op.RollbackConversion?
  }

  /**
    The guard says exactly when a rollback of the conversion keeps links safe: if it holds, every schedule of other
    calls after every cut of the rollback does, and if it does not, some schedule after some cut leaves a link that
    names no validated runtime.
   */
  lemma RollbackSafeIffGuarded(d: Disk)
    requires Safe(d)
    ensures RollbackGuard(d) <==>
              forall writes: nat, schedule: seq<Call> :: NoRollbacks(schedule) ==>
                LinkSafe(After(CutAfter(d, RollbackConversionRun(d), writes).disk, schedule))
  {
    if RollbackGuard(d) {
      RollbackKeepsSafe(d);
      forall writes: nat, schedule: seq<Call> | NoRollbacks(schedule)
        ensures LinkSafe(After(CutAfter(d, RollbackConversionRun(d), writes).disk, schedule))
      {
        CutKeeps(d, RollbackConversionRun(d), writes, Safe);
        UnguardedRunsAreSafe(CutAfter(d, RollbackConversionRun(d), writes).disk, schedule);
      }
    } else {
      var writes, schedule := UnguardedRollback(d);
      assert !LinkSafe(After(CutAfter(d, RollbackConversionRun(d), writes).disk, schedule));
    }
  }

  /** Without the guard: a cut of the rollback, and calls after it, that end with a link to nothing. */
  lemma UnguardedRollback(d: Disk) returns (writes: nat, schedule: seq<Call>)
    requires Safe(d) && !RollbackGuard(d)
    ensures NoRollbacks(schedule) && !LinkSafe(After(CutAfter(d, RollbackConversionRun(d), writes).disk, schedule))
  {
    if LegacyLeadsAway(d) {
      writes := SubstitutedSelector(d);
      schedule := [];
    } else {
      var d1 := d.(selector := NoSelector);
      writes := 1;
      schedule := EmptyPublication(d1);
      assert CutAfter(d, RollbackConversionRun(d), 1) == CutAfter(d1, RollbackMove(d1), 0);
    }
  }

  /** A substituted legacy entry becomes the selector. */
  lemma SubstitutedSelector(d: Disk) returns (writes: nat)
    requires (d.selector.Link? || d.selector.NoSelector?) && LegacyLeadsAway(d)
    ensures !LinkSafe(After(CutAfter(d, RollbackConversionRun(d), writes).disk, []))
  {
    var d1 := d.(selector := NoSelector);
    var d2 := d1.(selector := Link(OddText(d1.store[LEGACY_ID].resolves)), store := d1.store - {LEGACY_ID});
    writes := if d.selector.Link? then 2 else 1;
    if d.selector.Link? {
      assert CutAfter(d, RollbackConversionRun(d), 2) == CutAfter(d1, RollbackMove(d1), 1);
    } else {
      assert d1 == d;
    }
    assert CutAfter(d1, RollbackMove(d1), 1) == CutAfter(d2, RollbackRecord(d2), 0);
  }

  /** With the record left, no selector and no legacy runtime, calls that do not refuse end with a link to nothing. */
  lemma EmptyPublication(d: Disk) returns (schedule: seq<Call>)
    requires d.selector.NoSelector? && d.record.Record? && !RealRuntime(d, LEGACY_ID) && !CannotResume(d)
    ensures NoRollbacks(schedule) && !LinkSafe(After(d, schedule))
  {
    if ReadManifest(d, LEGACY_ID).value.Present? {
      var d1 := d.(selector := StoreLinkTo(LEGACY_ID));
      assert ConvertRun(d) == ConvertPublish(d);
      assert AfterCall(d, Call(Convert, 1)) == d1 by {
        assert CutAfter(d, ConvertPublish(d), 1) == CutAfter(d1, ConvertPublish(d).rest, 0);
      }
      schedule := [Call(Convert, 1)];
      assert schedule[1..] == [];
    } else if d.storeDir.GoodStore? {
      PublishesNothing(d);
      schedule := [Call(Convert, 2)];
      assert schedule[1..] == [];
    } else {
      var id, attempt := seq(64, _ => '0'), seq(12, _ => '0');
      assert FullId(id) && id != LEGACY_ID && AttemptId(attempt);
      var d1 := d.(storeDir := GoodStore);
      var make := Call(Stage(id, attempt, NeverStarted), 1);
      assert AfterCall(d, make) == d1 by {
        assert CutAfter(d, StageRun(d, id, attempt, NeverStarted), 1)
            == CutAfter(d1, StageInStore(d1, id, attempt, NeverStarted), 0);
      }
      PublishesNothing(d1);
      schedule := [make, Call(Convert, 2)];
      assert schedule[1..] == [Call(Convert, 2)] && schedule[1..][1..] == [];
    }
  }

  lemma PublishesNothing(d: Disk)
    requires d.selector.NoSelector? && d.record.Record? && !RealRuntime(d, LEGACY_ID)
    requires d.appOk && d.storeDir.GoodStore? && LEGACY_ID !in d.manifests
    ensures !LinkSafe(AfterCall(d, Call(Convert, 2)))
  {
    ConversionPublishes(d);
  }

  /******* Why the guard is needed *******/

  /** A node about to be converted, with two other valid runtimes, b and c, in its store. */
  predicate TwoRuntimes(d: Disk, b: string, c: string) {
    && Safe(d) && d.appOk && d.storeDir.GoodStore?
    && d.selector.RealDir? && d.selector.tree.owned && d.selector.tree.usable
    && d.record.NoRecord? && LEGACY_ID !in d.manifests
    && b != c && d.store.Keys == {b, c} && LEGACY_ID !in {b, c}
    && ValidateTarget(d, b).Pass? && ValidateTarget(d, c).Pass?
  }

  /** The conversion, cut off just before it removes its record. */
  function Converted(d: Disk): Disk
    requires d.selector.RealDir?
  {
    d.(selector := StoreLinkTo(LEGACY_ID),
       store := d.store[LEGACY_ID := Dir(d.selector.tree)],
       manifests := d.manifests[LEGACY_ID := LegacyManifest()],
       record := Record("published"))
  }

  lemma ConversionCutBeforeTheEnd(d: Disk, b: string, c: string)
    requires TwoRuntimes(d, b, c)
    ensures AfterCall(d, Call(Convert, 6)) == Converted(d)
  {
    var d1 := d.(record := Record("recorded"));
    var d2 := d1.(selector := NoSelector, store := d1.store[LEGACY_ID := Dir(d1.selector.tree)]);
    var d3 := d2.(record := Record("moved"));
    var d4 := d3.(manifests := d3.manifests[LEGACY_ID := LegacyManifest()]);
    calc {
      CutAfter(d, ConvertRun(d), 6);
      CutAfter(d1, ConvertMove(d1), 5);
      CutAfter(d3, ConvertManifest(d3), 3);
      CutAfter(d4, ConvertPublish(d4), 2);
    }
    var d6 := d4.(selector := StoreLinkTo(LEGACY_ID), record := Record("published"));
    assert CutAfter(d4, ConvertPublish(d4), 2) == CutAfter(d6, ConvertFinish(d6), 0);
    assert ValidateSelector(d6).Pass?;
  }

  lemma ActivateCompletes(d: Disk, from: string, to: string)
    requires d.selector == StoreLinkTo(from) && from != to
    requires ValidateTarget(d, from).Pass? && ValidateTarget(d, to).Pass?
    ensures CutAfter(d, ActivateRun(d, to, true), 2)
         == Ended(d.(previous := Previous(from, to), selector := StoreLinkTo(to)), Returned(RuntimeId(from)))
  {
    var d1 := d.(previous := Previous(from, to));
    assert CutAfter(d, ActivateRun(d, to, true), 2) == CutAfter(d1, FlipRun(d1, from, to, true, RuntimeId(from)), 1);
    var d2 := d1.(selector := StoreLinkTo(to));
    assert ValidateSelector(d2) == Pass(to);
    var halt := Run<Disk, Outcome>.Halt(Returned(RuntimeId(from)));
    assert FlipRun(d1, from, to, true, RuntimeId(from)) == Step(d2, halt);
    assert CutAfter(d1, Step(d2, halt), 1) == CutAfter(d2, halt, 0);
  }

  /** The schedule: convert (cut), activate b, then c, collect, roll the conversion back (cut), convert again (cut). */
  function DanglingSchedule(b: string, c: string, remains: Tree): seq<Call> {
    [Call(Convert, 6), Call(Activate(b, true), 2), Call(Activate(c, true), 2),
     Call(Gc([b, c, LEGACY_ID], remains), 3), Call(RollbackConversion, 1), Call(Convert, 2)]
  }

  lemma CollectorTakesTheLegacyRuntime(d: Disk, b: string, c: string, remains: Tree)
    requires b != c && LEGACY_ID !in {b, c}
    requires d.selector == StoreLinkTo(c) && d.previous == Previous(b, c) && ValidateTarget(d, c).Pass?
    requires RealRuntime(d, LEGACY_ID) && Bound(d, LEGACY_ID)
    ensures AfterCall(d, Call(Gc([b, c, LEGACY_ID], remains), 3)) == Collected(d, LEGACY_ID)
  {
    var keep := Keep(d, c);
    var names := [b, c, LEGACY_ID];
    assert names[1..] == [c, LEGACY_ID] && names[1..][1..] == [LEGACY_ID] && [LEGACY_ID][1..] == [];
    assert GcSweep(d, names, keep, [], remains) == GcSweep(d, [c, LEGACY_ID], keep, [], remains)
        == GcSweep(d, [LEGACY_ID], keep, [], remains);
    assert Collectable(d, LEGACY_ID, keep);
    var d2 := d.(store := d.store - {LEGACY_ID});
    var d3 := Collected(d, LEGACY_ID);
    var rest := GcSweep(d3, [], keep, [] + [LEGACY_ID], remains);
    var torn := d.(store := d.store[LEGACY_ID := Dir(Torn(d.store[LEGACY_ID].tree, remains))]);
    assert ValidateSelector(d) == Pass(c);
    assert GcRun(d, names, remains) == Step(torn, Step(d2, Step(d3, rest)));
    assert CutAfter(torn, Step(d2, Step(d3, rest)), 2) == CutAfter(d2, Step(d3, rest), 1) == CutAfter(d3, rest, 0);
  }

  /**
    `rollback_conversion` outside its guard breaks safety: the collector may take the legacy
    runtime while the conversion record is still there, the rollback then drops the selector
    before the record, and the next conversion publishes a link to nothing.
   */
  lemma UnguardedRollbackDangles(d: Disk, b: string, c: string, remains: Tree)
    requires TwoRuntimes(d, b, c)
    ensures var end := After(d, DanglingSchedule(b, c, remains));
            end.selector == StoreLinkTo(LEGACY_ID) && LEGACY_ID !in end.store && !LinkSafe(end)
  {
    var schedule := DanglingSchedule(b, c, remains);
    var d1 := Converted(d);
    ConversionCutBeforeTheEnd(d, b, c);
    ActivateCompletes(d1, LEGACY_ID, b);
    var d2 := d1.(previous := Previous(LEGACY_ID, b), selector := StoreLinkTo(b));
    ActivateCompletes(d2, b, c);
    var d3 := d2.(previous := Previous(b, c), selector := StoreLinkTo(c));
    CollectorTakesTheLegacyRuntime(d3, b, c, remains);
    var d4 := Collected(d3, LEGACY_ID);
    var d5 := d4.(selector := NoSelector);
    RollbackDropsTheLink(d4);
    var d6 := d5.(manifests := d5.manifests[LEGACY_ID := LegacyManifest()]);
    var d7 := d6.(selector := StoreLinkTo(LEGACY_ID));
    ConversionPublishes(d5);
    AfterSix(d, d1, d2, d3, d4, d5, d7, schedule);
  }

  lemma RollbackDropsTheLink(d: Disk)
    requires d.selector.Link?
    ensures AfterCall(d, Call(RollbackConversion, 1)) == d.(selector := NoSelector)
  {
    var d1 := d.(selector := NoSelector);
    assert CutAfter(d, RollbackConversionRun(d), 1) == CutAfter(d1, RollbackMove(d1), 0);
  }

  /** A recorded conversion without selector, runtime and manifest writes the manifest, then the link. */
  lemma ConversionPublishes(d: Disk)
    requires d.appOk && d.storeDir.GoodStore? && d.record.Record? && d.selector.NoSelector?
    requires LEGACY_ID !in d.manifests
    ensures AfterCall(d, Call(Convert, 2))
         == d.(manifests := d.manifests[LEGACY_ID := LegacyManifest()], selector := StoreLinkTo(LEGACY_ID))
  {
    var d1 := d.(manifests := d.manifests[LEGACY_ID := LegacyManifest()]);
    var d2 := d1.(selector := StoreLinkTo(LEGACY_ID));
    assert ConvertRun(d) == Step(d1, ConvertPublish(d1));
    assert CutAfter(d, ConvertRun(d), 2) == CutAfter(d1, ConvertPublish(d1), 1);
    assert CutAfter(d1, ConvertPublish(d1), 1) == CutAfter(d2, ConvertPublish(d1).rest, 0);
  }

  lemma AfterSix(d: Disk, d1: Disk, d2: Disk, d3: Disk, d4: Disk, d5: Disk, d6: Disk, s: seq<Call>)
    requires |s| == 6
    requires AfterCall(d, s[0]) == d1 && AfterCall(d1, s[1]) == d2 && AfterCall(d2, s[2]) == d3
    requires AfterCall(d3, s[3]) == d4 && AfterCall(d4, s[4]) == d5 && AfterCall(d5, s[5]) == d6
    ensures After(d, s) == d6
  {
    assert s[1..][1..] == s[2..] && s[2..][1..] == s[3..];
    assert s[3..][1..] == s[4..] && s[4..][1..] == s[5..] && s[5..][1..] == [];
    calc {
      After(d, s);
      After(d1, s[1..]);
      After(d2, s[2..]);
      After(d3, s[3..]);
      After(d4, s[4..]);
      After(d5, s[5..]);
      d6;
    }
  }
}
