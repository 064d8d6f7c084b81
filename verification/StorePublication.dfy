/**
  Publication of a freshly built runtime and its recovery: from every crash point of
  staging and finalization, reconciliation ends with the runtime published or with
  nothing of the attempt left.
 */
module StorePublication {
  import opened Durable
  import opened Names
  import opened StoreModel
  import opened StoreSafety

  /** An id nothing on the node uses yet, about to be built by `attempt`. */
  predicate Fresh(d: Disk, id: string, attempt: string) {
    && FullId(id) && id != LEGACY_ID && AttemptId(attempt)
    && d.appOk && !d.storeDir.BadStore? && LinkSafe(d)
    && id !in d.store && id !in d.manifests && attempt !in d.staging
  }

  /**
    Nothing but this attempt's staging tree, runtime and manifest differs (the store directory may have been created).
   */
  predicate OnlyThisAttempt(d0: Disk, d: Disk, id: string, attempt: string) {
    && d.appOk == d0.appOk && d.selector == d0.selector && d.record == d0.record && d.previous == d0.previous
    && (d.storeDir == d0.storeDir || (d0.storeDir.NoStore? && d.storeDir.GoodStore?))
    && d.store - {id} == d0.store - {id}
    && d.manifests - {id} == d0.manifests - {id}
    && d.staging - {attempt} == d0.staging - {attempt}
  }

  predicate OwnedDir(m: map<string, Entry>, key: string) { key in m ==> m[key].Dir? && m[key].tree.owned }

  predicate NothingLeft(d: Disk, id: string, attempt: string) {
    id !in d.store && id !in d.manifests && attempt !in d.staging
  }

  predicate Published(d: Disk, id: string, attempt: string) {
    RealRuntime(d, id) && id in d.manifests && d.manifests[id] == BuiltManifest(id, attempt)
  }

  /** What holds of every disk between the first write of the attempt and the end of its recovery. */
  predicate UnderWay(d0: Disk, id: string, attempt: string, d: Disk) {
    && Fresh(d0, id, attempt)
    && OnlyThisAttempt(d0, d, id, attempt)
    && OwnedDir(d.staging, attempt) && OwnedDir(d.store, id)
    && (id in d.manifests ==> d.manifests[id] == BuiltManifest(id, attempt))
    && (id in d.store ==> Published(d, id, attempt))
    && (d.storeDir.NoStore? ==> NothingLeft(d, id, attempt))
  }

  ghost function During(d0: Disk, id: string, attempt: string): Disk -> bool { d => UnderWay(d0, id, attempt, d) }

  /** The trees this attempt's own root processes write belong to root. */
  predicate OwnTrees(op: Op) {
    match op
    case Stage(_, _, Interrupted(partial)) => partial.owned
    case Stage(_, _, Built(partial, whole, _)) => partial.owned && whole.owned
    case Install(_, tree) => tree.owned
    case _ => true
  }

  /** The calls an attempt makes on its own candidate, and its recovery makes after it. */
  predicate OfAttempt(op: Op, id: string, attempt: string) {
    match op
    case Stage(i, a, _) => i == id && a == attempt
    case Install(a, _) => a == attempt
    case Finalize(i, a, _) => i == id && a == attempt
    case Reconcile(i, a, _, _) => i == id && a == attempt
    case _ => false
  }

  lemma NotReferenced(d0: Disk, id: string, attempt: string, d: Disk)
    requires UnderWay(d0, id, attempt, d)
    ensures !SelectorResolvesTo(d, id)
  {
    if d.selector.Link? {
      var name := d.selector.text.name;
      assert name in d0.store - {id} && d.store[name] == (d.store - {id})[name];
    }
  }

  lemma StagingMapFrame(m: map<string, Entry>, key: string, e: Entry)
    ensures m[key := e] - {key} == m - {key} && (m - {key}) - {key} == m - {key}
  {
  }

  lemma ManifestMapFrame(m: map<string, Manifest>, key: string, e: Manifest)
    ensures m[key := e] - {key} == m - {key} && (m - {key}) - {key} == m - {key}
  {
  }

  lemma StageStaysUnderWay(d0: Disk, id: string, attempt: string, d: Disk, build: Build)
    requires UnderWay(d0, id, attempt, d) && OwnTrees(Stage(id, attempt, build))
    ensures Throughout(d, StageRun(d, id, attempt, build), During(d0, id, attempt))
  {
    var g := d.(storeDir := GoodStore);
    match build
    case NeverStarted =>
    case Interrupted(partial) => StagingMapFrame(d.staging, attempt, Dir(partial));
    case Built(partial, whole, _) =>
      StagingMapFrame(d.staging, attempt, Dir(partial));
      StagingMapFrame(d.staging, attempt, Dir(whole));
    assert d.storeDir.NoStore? ==> During(d0, id, attempt)(g);
    assert d.storeDir.GoodStore? ==> Throughout(d, StageInStore(d, id, attempt, build), During(d0, id, attempt));
    assert d.storeDir.NoStore? ==> Throughout(g, StageInStore(g, id, attempt, build), During(d0, id, attempt));
  }

  lemma RetractStaysUnderWay(d0: Disk, id: string, attempt: string, d: Disk, manifestWritten: bool, error: Error)
    requires UnderWay(d0, id, attempt, d)
    ensures Throughout(d, RetractRun(d, id, manifestWritten, error), During(d0, id, attempt))
  {
    if id in d.manifests { ManifestMapFrame(d.manifests, id, d.manifests[id]); }
  }

  lemma AbandonStaysUnderWay(
      d0: Disk, id: string, attempt: string, d: Disk, w: Weather, manifestWritten: bool, error: Error)
    requires UnderWay(d0, id, attempt, d) && attempt in d.staging
    ensures Throughout(d, AbandonRun(d, id, attempt, w, manifestWritten, error), During(d0, id, attempt))
  {
    var torn := Dir(Torn(d.staging[attempt].tree, w.remains));
    StagingMapFrame(d.staging, attempt, torn);
    RetractStaysUnderWay(d0, id, attempt, d.(staging := d.staging[attempt := torn]), manifestWritten, error);
    RetractStaysUnderWay(d0, id, attempt, d.(staging := d.staging - {attempt}), manifestWritten, error);
  }

  lemma FinalizeStaysUnderWay(d0: Disk, id: string, attempt: string, d: Disk, w: Weather)
    requires UnderWay(d0, id, attempt, d)
    ensures Throughout(d, FinalizeRun(d, id, attempt, w), During(d0, id, attempt))
  {
    if attempt in d.staging {
      AbandonStaysUnderWay(d0, id, attempt, d, w, false, ChecksFailed);
      AbandonStaysUnderWay(d0, id, attempt, d, w, false, Collision);
      if id !in d.store && id !in d.manifests {
        var d1 := d.(manifests := d.manifests[id := BuiltManifest(id, attempt)]);
        ManifestMapFrame(d.manifests, id, BuiltManifest(id, attempt));
        AbandonStaysUnderWay(d0, id, attempt, d1, w, true, PublishFailed);
        var d2 := d1.(store := d1.store[id := d1.staging[attempt]], staging := d1.staging - {attempt});
        StagingMapFrame(d1.store, id, d1.staging[attempt]);
        StagingMapFrame(d1.staging, attempt, d1.staging[attempt]);
        assert During(d0, id, attempt)(d2);
        assert Throughout(d1, PublishRun(d1, id, attempt, w), During(d0, id, attempt));
      }
    }
  }

  lemma ReconcileFinalStaysUnderWay(
      d0: Disk, id: string, attempt: string, d: Disk, staged: bool, live: bool, remains: Tree)
    requires UnderWay(d0, id, attempt, d)
    ensures Throughout(d, ReconcileFinal(d, id, attempt, staged, live, remains), During(d0, id, attempt))
  {
    var p := During(d0, id, attempt);
    if id in d.manifests {
      ManifestMapFrame(d.manifests, id, d.manifests[id]);
    }
    if id in d.store {
      var torn := Dir(Torn(d.store[id].tree, remains));
      StagingMapFrame(d.store, id, torn);
      var d2 := d.(store := d.store - {id});
      var d3 := d2.(manifests := d2.manifests - {id});
      assert p(d.(store := d.store[id := torn])) && p(d2) && p(d3);
      assert Throughout(d2, Step(d3, Halt(Returned(Verdict(DiscardedInvalid)))), p);
    }
  }

  lemma ReconcileStaysUnderWay(d0: Disk, id: string, attempt: string, d: Disk, live: bool, remains: Tree)
    requires UnderWay(d0, id, attempt, d)
    ensures Throughout(d, ReconcileRun(d, id, attempt, live, remains), During(d0, id, attempt))
  {
    if attempt in d.staging {
      var torn := Dir(Torn(d.staging[attempt].tree, remains));
      StagingMapFrame(d.staging, attempt, torn);
      var d2 := d.(staging := d.staging - {attempt});
      assert During(d0, id, attempt)(d.(staging := d.staging[attempt := torn])) && During(d0, id, attempt)(d2);
      ReconcileFinalStaysUnderWay(d0, id, attempt, d2, true, live, remains);
    } else {
      ReconcileFinalStaysUnderWay(d0, id, attempt, d, false, live, remains);
    }
  }

  lemma InstallStaysUnderWay(d0: Disk, id: string, attempt: string, d: Disk, tree: Tree)
    requires UnderWay(d0, id, attempt, d) && tree.owned
    ensures Throughout(d, InstallRun(d, attempt, tree), During(d0, id, attempt))
  {
    StagingMapFrame(d.staging, attempt, Dir(tree));
  }

  lemma {:induction false} ScheduleStaysUnderWay(d0: Disk, id: string, attempt: string, d: Disk, schedule: seq<Call>)
    requires UnderWay(d0, id, attempt, d)
    requires forall i :: 0 <= i < |schedule| ==> OfAttempt(schedule[i].op, id, attempt) && OwnTrees(schedule[i].op)
    ensures UnderWay(d0, id, attempt, After(d, schedule))
    decreases |schedule|
  {
    if schedule != [] {
      var c := schedule[0];
      match c.op {
        case Stage(_, _, build) => StageStaysUnderWay(d0, id, attempt, d, build);
        case Install(_, tree) => InstallStaysUnderWay(d0, id, attempt, d, tree);
        case Finalize(_, _, w) => FinalizeStaysUnderWay(d0, id, attempt, d, w);
        case Reconcile(_, _, live, remains) => ReconcileStaysUnderWay(d0, id, attempt, d, live, remains);
      }
      CutKeeps(d, OpRun(d, c.op), c.writes, During(d0, id, attempt));
      ScheduleStaysUnderWay(d0, id, attempt, AfterCall(d, c), schedule[1..]);
    }
  }

  lemma ReconcileFinalDecides(d0: Disk, id: string, attempt: string, d: Disk, staged: bool, live: bool, remains: Tree)
    requires UnderWay(d0, id, attempt, d) && attempt !in d.staging
    ensures var (end, outcome) := Complete(d, ReconcileFinal(d, id, attempt, staged, live, remains));
            && outcome.Returned?
            && (outcome == Returned(Verdict(Kept)) ==> live && end == d && Published(end, id, attempt))
            && (outcome != Returned(Verdict(Kept)) ==> NothingLeft(end, id, attempt))
  {
    NotReferenced(d0, id, attempt, d);
    if id in d.store {
      var d2 := d.(store := d.store - {id});
      var d3 := d2.(manifests := d2.manifests - {id});
      var last := Step(d3, Halt(Returned(Verdict(DiscardedInvalid))));
      assert Complete(d2, last) == (d3, Returned(Verdict(DiscardedInvalid)));
    }
  }

  /**
    After any cut-off staging, installation, finalization and reconciliation calls of the attempt, an undisturbed
    reconciliation ends with the runtime and this attempt's validated manifest, or with no trace of the attempt.
   */
  lemma ReconcileDecidesEveryCrash(d: Disk, id: string, attempt: string, schedule: seq<Call>, live: bool, remains: Tree)
    requires Fresh(d, id, attempt)
    requires forall i :: 0 <= i < |schedule| ==> OfAttempt(schedule[i].op, id, attempt) && OwnTrees(schedule[i].op)
    ensures var d' := After(d, schedule);
            var (end, outcome) := Complete(d', ReconcileRun(d', id, attempt, live, remains));
            && outcome.Returned? && OnlyThisAttempt(d, end, id, attempt) && attempt !in end.staging
            && (outcome == Returned(Verdict(Kept)) ==> live && Published(end, id, attempt))
            && (outcome != Returned(Verdict(Kept)) ==> NothingLeft(end, id, attempt))
  {
    ScheduleStaysUnderWay(d, id, attempt, d, schedule);
    var d' := After(d, schedule);
    ReconcileStaysUnderWay(d, id, attempt, d', live, remains);
    CompleteKeeps(d', ReconcileRun(d', id, attempt, live, remains), During(d, id, attempt));
    var staged := attempt in d'.staging;
    var d2 := d'.(staging := d'.staging - {attempt});
    if staged {
      var torn := Dir(Torn(d'.staging[attempt].tree, remains));
      StagingMapFrame(d'.staging, attempt, torn);
      var d1 := d'.(staging := d'.staging[attempt := torn]);
      assert Complete(d', ReconcileRun(d', id, attempt, live, remains))
          == Complete(d2, ReconcileFinal(d2, id, attempt, true, live, remains));
    } else {
      assert d2.staging == d'.staging;
    }
    if !d'.storeDir.NoStore? {
      ReconcileFinalDecides(d, id, attempt, d2, staged, live, remains);
    }
  }

  /**
    A second reconciliation writes nothing, unless the first kept the runtime on the word of a live check
    that now fails, and nothing but that check protects the runtime.
   */
  lemma SecondReconcileWritesNothing(
      d: Disk, id: string, attempt: string, live: bool, remains: Tree, live2: bool, remains2: Tree)
    requires Complete(d, ReconcileRun(d, id, attempt, live, remains)).1.Returned?
    ensures var (end, outcome) := Complete(d, ReconcileRun(d, id, attempt, live, remains));
            ReconcileRun(end, id, attempt, live2, remains2).Halt? <==>
              !(outcome == Returned(Verdict(Kept)) && !live2
                && RecoveryManifest(end, id, attempt).Pass? && !SelectorResolvesTo(end, id))
  {
    var (end, outcome) := Complete(d, ReconcileRun(d, id, attempt, live, remains));
    if !d.storeDir.NoStore? {
      var staged := attempt in d.staging;
      var d2 := if staged then d.(staging := d.staging - {attempt}) else d;
      assert (end, outcome) == Complete(d2, ReconcileFinal(d2, id, attempt, staged, live, remains));
      ReconcileFinalEnd(d2, id, attempt, staged, live, remains);
    }
  }

  lemma ReconcileFinalEnd(d: Disk, id: string, attempt: string, staged: bool, live: bool, remains: Tree)
    requires Complete(d, ReconcileFinal(d, id, attempt, staged, live, remains)).1.Returned?
    ensures var (end, outcome) := Complete(d, ReconcileFinal(d, id, attempt, staged, live, remains));
            && end.staging == d.staging && end.appOk == d.appOk && end.storeDir == d.storeDir
            && (outcome == Returned(Verdict(Kept)) ==> end == d && ValidateTarget(end, id).Pass?)
            && (outcome != Returned(Verdict(Kept)) ==> id !in end.store && id !in end.manifests)
  {
    if id in d.store && !(ValidateTarget(d, id).Pass? && live) {
      var d2 := d.(store := d.store - {id});
      var d3 := d2.(manifests := d2.manifests - {id});
      var last := Step(d3, Halt(Returned(Verdict(DiscardedInvalid))));
      assert Complete(d, ReconcileFinal(d, id, attempt, staged, live, remains)) == Complete(d2, last);
      assert Complete(d2, last) == (d3, Returned(Verdict(DiscardedInvalid)));
    }
  }

  ghost function Holding(name: string, e: Entry): Disk -> bool { (d: Disk) => name in d.store && d.store[name] == e }

  /** Reconciliation never removes or damages a runtime the selector resolves to, whatever it finds on disk. */
  lemma ReconcileSparesTheActiveRuntime(
      d: Disk, name: string, id: string, attempt: string, live: bool, remains: Tree)
    requires SelectorResolvesTo(d, name) && name in d.store
    ensures Throughout(d, ReconcileRun(d, id, attempt, live, remains), Holding(name, d.store[name]))
  {
    var d2 := d.(staging := d.staging - {attempt});
    ReconcileFinalSparesTheActiveRuntime(d, name, id, attempt, false, live, remains);
    ReconcileFinalSparesTheActiveRuntime(d2, name, id, attempt, true, live, remains);
  }

  lemma ReconcileFinalSparesTheActiveRuntime(
      d: Disk, name: string, id: string, attempt: string, staged: bool, live: bool, remains: Tree)
    requires SelectorResolvesTo(d, name) && name in d.store
    ensures Throughout(d, ReconcileFinal(d, id, attempt, staged, live, remains), Holding(name, d.store[name]))
  {
    var p := Holding(name, d.store[name]);
    if id in d.store && d.store[id].Dir? && name != id {
      var d2 := d.(store := d.store - {id});
      var d3 := d2.(manifests := d2.manifests - {id});
      assert p(d2) && p(d3) && p(d.(store := d.store[id := Dir(Torn(d.store[id].tree, remains))]));
      assert Throughout(d2, Step(d3, Halt(Returned(Verdict(DiscardedInvalid)))), p);
    }
  }
}
