/**
  The one-time conversion of the legacy runtime: whatever schedule of interrupted
  conversions and rollbacks a node goes through, its legacy tree is never lost or
  duplicated, and either direction can be completed.
 */
module StoreConversion {
  import opened Durable
  import opened Names
  import opened StoreModel
  import opened StoreSafety

  /** A node not converted yet: a valid legacy directory at the selector, none in the store, no record. */
  predicate Unconverted(d: Disk, tree: Tree) {
    && d.appOk && !d.storeDir.BadStore?
    && d.selector == RealDir(tree) && tree.owned && tree.usable
    && LEGACY_ID !in d.store
    && d.record.NoRecord?
    && (LEGACY_ID in d.manifests ==> Bound(d, LEGACY_ID))
  }

  predicate AtSelector(d: Disk, tree: Tree) { d.selector == RealDir(tree) && LEGACY_ID !in d.store }

  predicate InStore(d: Disk, tree: Tree) {
    && LEGACY_ID in d.store && d.store[LEGACY_ID] == Dir(tree)
    && (d.selector.NoSelector? || d.selector == StoreLinkTo(LEGACY_ID))
  }

  /** What the conversion may not touch. */
  predicate OthersUntouched(d0: Disk, d: Disk) {
    && d.appOk == d0.appOk && d.previous == d0.previous && d.staging == d0.staging
    && d.store - {LEGACY_ID} == d0.store - {LEGACY_ID}
    && d.manifests - {LEGACY_ID} == d0.manifests - {LEGACY_ID}
  }

  /** What holds of every disk on the way, d0 being the unconverted node and tree its legacy runtime. */
  predicate OnTheWay(d0: Disk, tree: Tree, d: Disk) {
    && d0.appOk && tree.owned && tree.usable
    && OthersUntouched(d0, d)
    && !d.storeDir.BadStore? && !d.record.BadRecord?
    && (AtSelector(d, tree) || (InStore(d, tree) && d.storeDir.GoodStore?))
    && (d.record.Record? ==> d.storeDir.GoodStore?)
    && (LEGACY_ID in d.manifests ==> Bound(d, LEGACY_ID))
    && (d.selector.Link? ==> LEGACY_ID in d.manifests)
  }

  /** The one state in which an undisturbed conversion cannot finish: there is no selector and no record. */
  predicate Stranded(d: Disk) { d.selector.NoSelector? && d.record.NoRecord? }

  /** On the way; and, where no rollback has been started (`pursued`), never stranded. */
  ghost function Along(d0: Disk, tree: Tree, pursued: bool): Disk -> bool {
    d => OnTheWay(d0, tree, d) && (pursued ==> !Stranded(d))
  }

  lemma ConvertPublishStaysOnTheWay(d0: Disk, tree: Tree, pursued: bool, d: Disk)
    requires OnTheWay(d0, tree, d) && d.record.Record? && LEGACY_ID in d.manifests
    ensures Throughout(d, ConvertPublish(d), Along(d0, tree, pursued))
  {
    assert Along(d0, tree, pursued)(d);
    if d.selector.Link? {
      assert Throughout(d, ConvertFinish(d), Along(d0, tree, pursued));
    } else if d.selector.NoSelector? {
      var d2 := d.(selector := StoreLinkTo(LEGACY_ID), record := Record("published"));
      assert Along(d0, tree, pursued)(d2);
      assert Throughout(d2, ConvertFinish(d2), Along(d0, tree, pursued));
    }
  }

  lemma ConvertManifestStaysOnTheWay(d0: Disk, tree: Tree, pursued: bool, d: Disk)
    requires OnTheWay(d0, tree, d) && d.record.Record?
    ensures Throughout(d, ConvertManifest(d), Along(d0, tree, pursued))
  {
    if LEGACY_ID in d.manifests {
      ConvertPublishStaysOnTheWay(d0, tree, pursued, d);
    } else {
      ConvertPublishStaysOnTheWay(d0, tree, pursued, d.(manifests := d.manifests[LEGACY_ID := LegacyManifest()]));
    }
  }

  lemma ConvertMoveStaysOnTheWay(d0: Disk, tree: Tree, pursued: bool, d: Disk)
    requires OnTheWay(d0, tree, d) && d.record.Record?
    ensures Throughout(d, ConvertMove(d), Along(d0, tree, pursued))
  {
    if AtSelector(d, tree) {
      var d1 := d.(selector := NoSelector, store := d.store[LEGACY_ID := Dir(d.selector.tree)]);
      assert d1.store - {LEGACY_ID} == d.store - {LEGACY_ID};
      assert Along(d0, tree, pursued)(d1);
      ConvertManifestStaysOnTheWay(d0, tree, pursued, d1.(record := Record("moved")));
    } else {
      ConvertManifestStaysOnTheWay(d0, tree, pursued, d);
    }
  }

  lemma ConvertStaysOnTheWay(d0: Disk, tree: Tree, pursued: bool, d: Disk)
    requires OnTheWay(d0, tree, d) && (pursued ==> !Stranded(d))
    ensures Throughout(d, ConvertRun(d), Along(d0, tree, pursued))
  {
    if d.record.Record? {
      ConvertMoveStaysOnTheWay(d0, tree, pursued, d);
    } else if AtSelector(d, tree) {
      var d1 := d.(storeDir := GoodStore);
      ConvertMoveStaysOnTheWay(d0, tree, pursued, d1.(record := Record("recorded")));
      assert Throughout(d1, ConvertRecord(d1), Along(d0, tree, pursued));
    }
  }

  lemma RollbackStaysOnTheWay(d0: Disk, tree: Tree, d: Disk)
    requires OnTheWay(d0, tree, d)
    ensures Throughout(d, RollbackConversionRun(d), Along(d0, tree, false))
  {
    if InStore(d, tree) {
      var d1 := d.(selector := NoSelector);
      var d2 := d1.(selector := RealDir(tree), store := d1.store - {LEGACY_ID});
      assert d2.store - {LEGACY_ID} == d.store - {LEGACY_ID};
      assert Along(d0, tree, false)(d1) && Along(d0, tree, false)(d2);
      assert Throughout(d2, RollbackRecord(d2), Along(d0, tree, false));
    }
  }

  /** A schedule of conversions and rollbacks, each cut off anywhere. */
  predicate ConversionsAndRollbacks(schedule: seq<Call>) {
    forall i :: 0 <= i < |schedule| ==> schedule[i].op.Convert? || schedule[i].op.RollbackConversion?
  }

  lemma {:induction false} ScheduleStaysOnTheWay(d0: Disk, tree: Tree, d: Disk, schedule: seq<Call>)
    requires OnTheWay(d0, tree, d) && ConversionsAndRollbacks(schedule)
    ensures OnTheWay(d0, tree, After(d, schedule))
    decreases |schedule|
  {
    if schedule != [] {
      var c := schedule[0];
      if c.op.Convert? { ConvertStaysOnTheWay(d0, tree, false, d); } else { RollbackStaysOnTheWay(d0, tree, d); }
      CutKeeps(d, OpRun(d, c.op), c.writes, Along(d0, tree, false));
      ScheduleStaysOnTheWay(d0, tree, AfterCall(d, c), schedule[1..]);
    }
  }

  /** The legacy tree is at exactly one of its two places in every state of every such run, and nothing else changes. */
  lemma LegacyTreeIsNeverLost(d: Disk, tree: Tree, schedule: seq<Call>)
    requires Unconverted(d, tree) && ConversionsAndRollbacks(schedule)
    ensures var end := After(d, schedule);
            && AtSelector(end, tree) != InStore(end, tree)
            && OthersUntouched(d, end)
  {
    ScheduleStaysOnTheWay(d, tree, d, schedule);
  }

  /** An undisturbed conversion, from the point where its record is durable. */
  lemma ConvertMoveCompletes(d0: Disk, tree: Tree, d: Disk)
    requires OnTheWay(d0, tree, d) && d.record.Record?
    ensures var (end, outcome) := Complete(d, ConvertMove(d));
            && outcome == Returned(RuntimeId(LEGACY_ID))
            && end.selector == StoreLinkTo(LEGACY_ID) && end.record.NoRecord?
  {
    var d1 := if AtSelector(d, tree) then
                d.(selector := NoSelector, store := d.store[LEGACY_ID := Dir(tree)], record := Record("moved"))
              else d;
    assert Complete(d, ConvertMove(d)) == Complete(d1, ConvertManifest(d1));
    var d2 := if LEGACY_ID in d1.manifests then d1 else d1.(manifests := d1.manifests[LEGACY_ID := LegacyManifest()]);
    assert Complete(d1, ConvertManifest(d1)) == Complete(d2, ConvertPublish(d2));
    var d3 := if d2.selector.Link? then d2 else d2.(selector := StoreLinkTo(LEGACY_ID), record := Record("published"));
    assert Complete(d2, ConvertPublish(d2)) == Complete(d3, ConvertFinish(d3));
    assert ValidateSelector(d3) == Pass(LEGACY_ID);
    assert Complete(d3, ConvertFinish(d3)) == (d3.(record := NoRecord), Returned(RuntimeId(LEGACY_ID)));
  }

  /** From any state of the run, an undisturbed conversion completes exactly when the node is not stranded. */
  lemma ConversionCompletesUnlessStranded(d0: Disk, tree: Tree, d: Disk)
    requires OnTheWay(d0, tree, d)
    ensures var (end, outcome) := Complete(d, ConvertRun(d));
            && (outcome.Returned? <==> !Stranded(d))
            && (outcome.Returned? ==>
                  && outcome == Returned(RuntimeId(LEGACY_ID))
                  && end.selector == StoreLinkTo(LEGACY_ID) && InStore(end, tree)
                  && Bound(end, LEGACY_ID) && end.record.NoRecord?)
  {
    ConvertStaysOnTheWay(d0, tree, false, d);
    CompleteKeeps(d, ConvertRun(d), Along(d0, tree, false));
    if d.record.Record? {
      ConvertMoveCompletes(d0, tree, d);
    } else if AtSelector(d, tree) {
      var d1 := d.(storeDir := GoodStore);
      var d2 := d1.(record := Record("recorded"));
      ConvertMoveCompletes(d0, tree, d2);
      assert Complete(d1, ConvertRecord(d1)) == Complete(d2, ConvertMove(d2));
    }
  }

  /** After any number of interrupted conversions, one undisturbed conversion finishes the job. */
  lemma {:induction false} InterruptedConversionsCanBeResumed(d: Disk, tree: Tree, schedule: seq<Call>)
    requires Unconverted(d, tree)
    requires forall i :: 0 <= i < |schedule| ==> schedule[i].op.Convert?
    ensures var (end, outcome) := Complete(After(d, schedule), ConvertRun(After(d, schedule)));
            && outcome == Returned(RuntimeId(LEGACY_ID))
            && end.selector == StoreLinkTo(LEGACY_ID) && end.store[LEGACY_ID := Dir(tree)] == end.store
            && Bound(end, LEGACY_ID) && end.record.NoRecord? && OthersUntouched(d, end)
  {
    ScheduleStaysOnTheWay(d, tree, d, schedule);
    ConvertSchedulesNeverStrand(d, tree, d, schedule);
    var d' := After(d, schedule);
    ConversionCompletesUnlessStranded(d, tree, d');
    ConvertStaysOnTheWay(d, tree, false, d');
    CompleteKeeps(d', ConvertRun(d'), Along(d, tree, false));
  }

  lemma {:induction false} ConvertSchedulesNeverStrand(d0: Disk, tree: Tree, d: Disk, schedule: seq<Call>)
    requires OnTheWay(d0, tree, d) && !Stranded(d)
    requires forall i :: 0 <= i < |schedule| ==> schedule[i].op.Convert?
    ensures !Stranded(After(d, schedule))
    decreases |schedule|
  {
    if schedule != [] {
      var c := schedule[0];
      ConvertStaysOnTheWay(d0, tree, true, d);
      CutKeeps(d, ConvertRun(d), c.writes, Along(d0, tree, true));
      ConvertSchedulesNeverStrand(d0, tree, AfterCall(d, c), schedule[1..]);
    }
  }

  /** An undisturbed rollback puts the same tree back, from every state of every such run. */
  lemma RollbackRestoresTheLegacyTree(d: Disk, tree: Tree, schedule: seq<Call>)
    requires Unconverted(d, tree) && ConversionsAndRollbacks(schedule)
    ensures var (end, outcome) := Complete(After(d, schedule), RollbackConversionRun(After(d, schedule)));
            && outcome == Returned(Unit)
            && AtSelector(end, tree) && end.record.NoRecord? && OthersUntouched(d, end)
  {
    ScheduleStaysOnTheWay(d, tree, d, schedule);
    var d' := After(d, schedule);
    RollbackStaysOnTheWay(d, tree, d');
    CompleteKeeps(d', RollbackConversionRun(d'), Along(d, tree, false));
    var d1 := if d'.selector.Link? then d'.(selector := NoSelector) else d';
    assert Complete(d', RollbackConversionRun(d')) == Complete(d1, RollbackMove(d1));
    var d2 := if InStore(d', tree) then d1.(selector := RealDir(tree), store := d1.store - {LEGACY_ID}) else d1;
    assert Complete(d1, RollbackMove(d1)) == Complete(d2, RollbackRecord(d2));
    assert Complete(d2, RollbackRecord(d2)) == (d2.(record := NoRecord), Returned(Unit));
  }

  /******* How a node is stranded *******/

  /**
    A call strands a node in one way only: a rollback that dies once it has removed the link of a finished conversion.
   */
  lemma OneWayToStrand(d0: Disk, tree: Tree, d: Disk, c: Call)
    requires OnTheWay(d0, tree, d) && !Stranded(d)
    requires c.op.Convert? || c.op.RollbackConversion?
    ensures Stranded(AfterCall(d, c)) <==>
              c.op.RollbackConversion? && c.writes == 1 && d.selector.Link? && d.record.NoRecord?
  {
    if c.op.Convert? {
      ConvertStaysOnTheWay(d0, tree, true, d);
      CutKeeps(d, ConvertRun(d), c.writes, Along(d0, tree, true));
    } else {
      RollbackStrandsOnlyFinished(d0, tree, d, c.writes);
    }
  }

  lemma RollbackStrandsOnlyFinished(d0: Disk, tree: Tree, d: Disk, writes: nat)
    requires OnTheWay(d0, tree, d) && !Stranded(d)
    ensures Stranded(CutAfter(d, RollbackConversionRun(d), writes).disk) <==>
              writes == 1 && d.selector.Link? && d.record.NoRecord?
  {
    var d1 := d.(selector := NoSelector);
    if d.selector.Link? && writes > 0 {
      assert CutAfter(d, RollbackConversionRun(d), writes) == CutAfter(d1, RollbackMove(d1), writes - 1);
      if writes > 1 { MovedBackIsNotStranded(d0, tree, d1, writes - 1); }
    } else if !d.selector.Link? {
      MovedBackIsNotStranded(d0, tree, d, writes);
    }
  }

  /** Once the legacy tree is moved back there is a selector; before that, only what was stranded is. */
  lemma MovedBackIsNotStranded(d0: Disk, tree: Tree, d: Disk, writes: nat)
    requires OnTheWay(d0, tree, d) && !d.selector.Link?
    requires writes > 0 || !Stranded(d)
    ensures !Stranded(CutAfter(d, RollbackMove(d), writes).disk)
  {
    if InStore(d, tree) && writes > 0 {
      var d2 := d.(selector := RealDir(tree), store := d.store - {LEGACY_ID});
      assert CutAfter(d, RollbackMove(d), writes) == CutAfter(d2, RollbackRecord(d2), writes - 1);
      assert !Stranded(CutAfter(d2, RollbackRecord(d2), writes - 1).disk);
    }
  }

  /** It happens: any unconverted node, a conversion that finishes, and a rollback cut after its first write. */
  lemma FinishedConversionCanBeStranded(d: Disk, tree: Tree, writes: nat)
    requires Unconverted(d, tree) && writes >= Writes(ConvertRun(d))
    ensures Stranded(After(d, [Call(Convert, writes), Call(RollbackConversion, 1)]))
  {
    var d1 := AfterCall(d, Call(Convert, writes));
    EndedIsComplete(d, ConvertRun(d), writes);
    ConversionCompletesUnlessStranded(d, tree, d);
    ConvertStaysOnTheWay(d, tree, true, d);
    CutKeeps(d, ConvertRun(d), writes, Along(d, tree, true));
    OneWayToStrand(d, tree, d1, Call(RollbackConversion, 1));
    var schedule := [Call(Convert, writes), Call(RollbackConversion, 1)];
    assert schedule[1..] == [Call(RollbackConversion, 1)] && schedule[1..][1..] == [];
    assert After(d1, schedule[1..]) == After(AfterCall(d1, Call(RollbackConversion, 1)), []);
    assert After(d, schedule) == After(d1, schedule[1..]);
  }

  /** Before a conversion is finished, with its record still there, no cut of a rollback strands the node. */
  lemma UnfinishedConversionsNeverStrand(d0: Disk, tree: Tree, d: Disk, writes: nat)
    requires OnTheWay(d0, tree, d) && d.record.Record?
    ensures !Stranded(CutAfter(d, RollbackConversionRun(d), writes).disk)
  {
    RollbackStrandsOnlyFinished(d0, tree, d, writes);
  }
}
