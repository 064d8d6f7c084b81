/**
  What the operations of the runtime store answer: for each call, left undisturbed, on
  which disks it succeeds, what it then leaves, and what it leaves alone when it refuses.
 */
module StoreAnswers {
  import opened Durable
  import opened Names
  import opened StoreModel
  import opened StoreSafety
  import opened StoreConversion
  import opened StoreRetention

  /******* The gates *******/

  /** The application directory and the store are in order. */
  predicate StoreReady(d: Disk) { d.appOk && d.storeDir.GoodStore? }

  /** A real directory that passes the gates on ownership and contents. */
  predicate UsableDir(m: map<string, Entry>, key: string) {
    key in m && m[key].Dir? && m[key].tree.owned && m[key].tree.usable
  }

  predicate OwnerDir(m: map<string, Entry>, key: string) { key in m && m[key].Dir? && m[key].tree.owned }

  /** A runtime that may be selected: usable, under a validated manifest of its own. */
  predicate ValidRuntime(d: Disk, id: string) {
    MatchesId(id) && StoreReady(d) && UsableDir(d.store, id) && Bound(d, id)
  }

  /** The selector is a link to this valid runtime. */
  predicate Selected(d: Disk, id: string) { d.selector == StoreLinkTo(id) && ValidRuntime(d, id) }

  predicate SelectsValid(d: Disk) {
    d.selector.Link? && d.selector.text.StoreLink? && ValidRuntime(d, d.selector.text.name)
  }

  lemma TargetIsValid(d: Disk, id: string)
    ensures ValidateTarget(d, id).Pass? <==> ValidRuntime(d, id)
  {
  }

  lemma SelectorIsValid(d: Disk, id: string)
    ensures ValidateSelector(d) == Pass(id) <==> Selected(d, id)
    ensures ValidateSelector(d).Pass? <==> SelectsValid(d)
    ensures ValidateSelector(d).Pass? ==> Selected(d, ValidateSelector(d).value)
  {
    if d.selector.Link? && d.selector.text.StoreLink? { TargetIsValid(d, d.selector.text.name); }
  }

  /** The identities that a candidate may have. */
  predicate CandidateIds(id: string, attempt: string) { FullId(id) && id != LEGACY_ID && AttemptId(attempt) }

  /******* Staging *******/

  predicate MayStage(d: Disk, id: string, attempt: string) {
    && MatchesId(id) && id != LEGACY_ID && AttemptId(attempt)
    && d.appOk && !d.storeDir.BadStore?
    && id !in d.store && id !in d.manifests && attempt !in d.staging
  }

  /** Staging succeeds exactly for an id that nothing uses, with a build that is finished and tightened. */
  lemma StageAnswers(d: Disk, id: string, attempt: string, build: Build)
    ensures var (end, outcome) := Complete(d, StageRun(d, id, attempt, build));
            && (outcome.Returned? <==> MayStage(d, id, attempt) && build.Built? && build.tightened)
            && (outcome.Returned? ==>
                  end == d.(storeDir := GoodStore, staging := d.staging[attempt := Dir(build.whole)]))
            && end == d.(storeDir := end.storeDir, staging := end.staging)
  {
    var g := if d.storeDir.NoStore? then d.(storeDir := GoodStore) else d;
    StageInStoreAnswers(g, id, attempt, build);
    StageGates(d, id, attempt, build);
  }

  lemma StageGates(d: Disk, id: string, attempt: string, build: Build)
    ensures var g := if d.storeDir.NoStore? then d.(storeDir := GoodStore) else d;
            if MatchesId(id) && id != LEGACY_ID && AttemptId(attempt) && d.appOk && !d.storeDir.BadStore?
            then Complete(d, StageRun(d, id, attempt, build)) == Complete(g, StageInStore(g, id, attempt, build))
            else StageRun(d, id, attempt, build).Halt? && StageRun(d, id, attempt, build).outcome.Raised?
  {
  }

  lemma StageInStoreAnswers(d: Disk, id: string, attempt: string, build: Build)
    ensures var (end, outcome) := Complete(d, StageInStore(d, id, attempt, build));
            && (outcome.Returned? <==>
                  id !in d.store && id !in d.manifests && attempt !in d.staging && build.Built? && build.tightened)
            && (outcome.Returned? ==> end == d.(staging := d.staging[attempt := Dir(build.whole)]))
            && end == d.(staging := end.staging)
  {
    if build.Built? {
      TwoSteps(d, d.(staging := d.staging[attempt := Dir(build.partial)]),
        d.(staging := d.staging[attempt := Dir(build.whole)]),
        Halt(if build.tightened then Returned(Unit) else Raised(BuildFailed)));
    }
  }

  /******* Publication *******/

  /** What finalization asks for before it publishes. */
  predicate MayPublish(d: Disk, id: string, attempt: string, w: Weather) {
    && CandidateIds(id, attempt) && StoreReady(d)
    && attempt in d.staging && d.staging[attempt].Dir?
    && w.checks && id !in d.store && id !in d.manifests
  }

  /** The staged tree under the runtime's id, with this attempt's manifest; the staging entry is gone. */
  function PublishedDisk(d: Disk, id: string, attempt: string): Disk
    requires attempt in d.staging
  {
    d.(store := d.store[id := d.staging[attempt]],
       manifests := d.manifests[id := Doc(id, VALIDATED, attempt, true)],
       staging := d.staging - {attempt})
  }

  /** Store, manifests and selector are as they were. */
  predicate NothingPublished(d0: Disk, d: Disk) {
    d == d0.(staging := d.staging)
  }

  /**
    Finalization succeeds exactly if its gates hold, its checks pass, the id is free, the staged tree is usable, and
    nothing fails on the way. Only the staged tree of a candidate that passed its checks is published, exactly as
    staged; otherwise store, manifests and selector end as they were.
   */
  lemma FinalizeAnswers(d: Disk, id: string, attempt: string, w: Weather)
    ensures var (end, outcome) := Complete(d, FinalizeRun(d, id, attempt, w));
            && (outcome.Returned? <==>
                  && MayPublish(d, id, attempt, w) && w.rename && w.postCheck
                  && UsableDir(d.staging, attempt))
            && (outcome.Returned? ==> outcome == Returned(RuntimeId(id)))
            && (if MayPublish(d, id, attempt, w) && w.rename then end == PublishedDisk(d, id, attempt)
                else NothingPublished(d, end))
  {
    if MayPublish(d, id, attempt, w) {
      var d1 := d.(manifests := d.manifests[id := BuiltManifest(id, attempt)]);
      assert Complete(d, FinalizeRun(d, id, attempt, w)) == Complete(d1, PublishRun(d1, id, attempt, w));
      if w.rename {
        PublishAnswers(d, id, attempt, w);
      } else {
        AbandonAnswers(d1, id, attempt, w, true, PublishFailed);
        assert d1.manifests - {id} == d.manifests;
      }
    } else if attempt in d.staging && d.staging[attempt].Dir? {
      AbandonAnswers(d, id, attempt, w, false, if w.checks then Collision else ChecksFailed);
    }
  }

  lemma PublishAnswers(d: Disk, id: string, attempt: string, w: Weather)
    requires MayPublish(d, id, attempt, w) && w.rename
    ensures var d1 := d.(manifests := d.manifests[id := BuiltManifest(id, attempt)]);
            var (end, outcome) := Complete(d1, PublishRun(d1, id, attempt, w));
            && end == PublishedDisk(d, id, attempt)
            && (outcome.Returned? <==> w.postCheck && UsableDir(d.staging, attempt))
            && (outcome.Returned? ==> outcome == Returned(RuntimeId(id)))
  {
    TargetIsValid(PublishedDisk(d, id, attempt), id);
  }

  /** An abandoned publication raises; it takes back a manifest of its own that has no runtime. */
  lemma AbandonAnswers(d: Disk, id: string, attempt: string, w: Weather, manifestWritten: bool, error: Error)
    requires attempt in d.staging && d.staging[attempt].Dir?
    ensures var (end, outcome) := Complete(d, AbandonRun(d, id, attempt, w, manifestWritten, error));
            && outcome == Raised(error)
            && end == d.(staging := end.staging,
                         manifests := if manifestWritten && id !in d.store then d.manifests - {id} else d.manifests)
            && (w.cleaned ==> end.staging == d.staging - {attempt})
  {
    var d1 := d.(staging := d.staging[attempt := Dir(Torn(d.staging[attempt].tree, w.remains))]);
    if w.cleaned {
      var d2 := d.(staging := d.staging - {attempt});
      TwoSteps(d, d1, d2, RetractRun(d2, id, manifestWritten, error));
      RetractAnswers(d2, id, manifestWritten, error);
    } else {
      RetractAnswers(d1, id, manifestWritten, error);
    }
  }

  lemma RetractAnswers(d: Disk, id: string, manifestWritten: bool, error: Error)
    ensures Complete(d, RetractRun(d, id, manifestWritten, error))
         == (d.(manifests := if manifestWritten && id !in d.store then d.manifests - {id} else d.manifests),
             Raised(error))
  {
  }

  ghost function StagingOnly(d0: Disk): Disk -> bool { d => NothingPublished(d0, d) }

  /** A candidate whose checks failed, or whose id is taken, is published at no write of the call. */
  lemma UncheckedIsNeverPublished(d: Disk, id: string, attempt: string, w: Weather, writes: nat)
    requires !MayPublish(d, id, attempt, w)
    ensures NothingPublished(d, CutAfter(d, FinalizeRun(d, id, attempt, w), writes).disk)
  {
    var run := FinalizeRun(d, id, attempt, w);
    if attempt in d.staging && d.staging[attempt].Dir? {
      var d1 := d.(staging := d.staging[attempt := Dir(Torn(d.staging[attempt].tree, w.remains))]);
      var d2 := d.(staging := d.staging - {attempt});
      assert StagingOnly(d)(d1) && StagingOnly(d)(d2);
      assert Throughout(d, AbandonRun(d, id, attempt, w, false, ChecksFailed), StagingOnly(d));
      assert Throughout(d, AbandonRun(d, id, attempt, w, false, Collision), StagingOnly(d));
    }
    CutKeeps(d, run, writes, StagingOnly(d));
  }

  /******* Discard and recovery *******/

  predicate MayDiscard(d: Disk, attempt: string) {
    AttemptId(attempt) && StoreReady(d) && (attempt in d.staging ==> OwnerDir(d.staging, attempt))
  }

  /** The attempt's own staging tree is removed if it is a real directory of the owner, and nothing else. */
  lemma DiscardAnswers(d: Disk, attempt: string, remains: Tree)
    ensures var (end, outcome) := Complete(d, DiscardRun(d, attempt, remains));
            && (outcome == Returned(Flag(true)) <==> MayDiscard(d, attempt) && attempt in d.staging)
            && (outcome == Returned(Flag(false)) <==>
                  || (MayDiscard(d, attempt) && attempt !in d.staging)
                  || (AttemptId(attempt) && d.appOk && d.storeDir.NoStore?))
            && (outcome.Returned? ==> outcome.value.Flag?)
            && end == (if outcome == Returned(Flag(true)) then d.(staging := d.staging - {attempt}) else d)
  {
    if MayDiscard(d, attempt) && attempt in d.staging {
      TwoSteps(d, d.(staging := d.staging[attempt := Dir(Torn(d.staging[attempt].tree, remains))]),
        d.(staging := d.staging - {attempt}), Halt(Returned(Flag(true))));
    }
  }

  /** A manifest that this attempt may remove. */
  predicate OwnManifest(d: Disk, id: string, attempt: string) {
    id in d.manifests && d.manifests[id].Doc? && d.manifests[id].sound
    && d.manifests[id].runtimeId == id && d.manifests[id].attempt == attempt
  }

  /** The finished runtime that a recovery keeps. */
  predicate Keeps(d: Disk, id: string, live: bool) { UsableDir(d.store, id) && Bound(d, id) && live }

  /** The runtime that a recovery removes: not kept, this attempt's, the owner's, and not selected. */
  predicate Removable(d: Disk, id: string, attempt: string, live: bool) {
    OwnerDir(d.store, id) && !Keeps(d, id, live) && OwnManifest(d, id, attempt) && !SelectorResolvesTo(d, id)
  }

  /** What the runtime and its manifest must be for a verdict. */
  predicate FinalVerdictIs(d: Disk, id: string, attempt: string, staged: bool, live: bool, v: Verdict) {
    match v
    case Absent => id !in d.store && id !in d.manifests && !staged
    case DiscardedStaging => id !in d.store && id !in d.manifests && staged
    case DiscardedPartial => id !in d.store && OwnManifest(d, id, attempt)
    case DiscardedInvalid => Removable(d, id, attempt, live)
    case Kept => Keeps(d, id, live)
  }

  /** Every verdict of a recovery, with exactly its case on the disk. */
  predicate VerdictIs(d: Disk, id: string, attempt: string, live: bool, v: Verdict) {
    && CandidateIds(id, attempt) && d.appOk
    && ((v.Absent? && d.storeDir.NoStore?)
        || (MayDiscard(d, attempt) && FinalVerdictIs(d, id, attempt, attempt in d.staging, live, v)))
  }

  /** What each verdict leaves: the attempt's staging is gone, and what the verdict names. */
  function AfterVerdict(d: Disk, id: string, attempt: string, v: Verdict): Disk {
    AfterFinal(if d.storeDir.NoStore? then d else d.(staging := d.staging - {attempt}), id, v)
  }

  function AfterFinal(d: Disk, id: string, v: Verdict): Disk {
    match v
    case DiscardedPartial => d.(manifests := d.manifests - {id})
    case DiscardedInvalid => d.(store := d.store - {id}, manifests := d.manifests - {id})
    case _ => d
  }

  /**
    A recovery returns a verdict exactly in its case, and leaves exactly what the verdict says. When it raises, it has
    removed no more than the attempt's own staging.
   */
  lemma ReconcileAnswers(d: Disk, id: string, attempt: string, live: bool, remains: Tree, v: Verdict)
    ensures var (end, outcome) := Complete(d, ReconcileRun(d, id, attempt, live, remains));
            && (outcome == Returned(Verdict(v)) <==> VerdictIs(d, id, attempt, live, v))
            && (outcome == Returned(Verdict(v)) ==> end == AfterVerdict(d, id, attempt, v))
            && (outcome.Returned? ==> outcome.value.Verdict?)
            && (outcome.Raised? ==> end == d || end == d.(staging := d.staging - {attempt}))
  {
    ReconcileGates(d, id, attempt, live, remains);
    if CandidateIds(id, attempt) && MayDiscard(d, attempt) {
      var d2 := d.(staging := d.staging - {attempt});
      ReconcileFinalAnswers(d2, id, attempt, attempt in d.staging, live, remains, v);
      SameCase(d, id, attempt, live, v);
    }
  }

  lemma ReconcileGates(d: Disk, id: string, attempt: string, live: bool, remains: Tree)
    ensures var d2 := d.(staging := d.staging - {attempt});
            var (end, outcome) := Complete(d, ReconcileRun(d, id, attempt, live, remains));
            if CandidateIds(id, attempt) && MayDiscard(d, attempt)
            then (end, outcome) == Complete(d2, ReconcileFinal(d2, id, attempt, attempt in d.staging, live, remains))
            else
              && end == d
              && (if CandidateIds(id, attempt) && d.appOk &&
                   d.storeDir.NoStore? then outcome == Returned(Verdict(Absent))
                  else outcome.Raised?)
  {
    var d2 := d.(staging := d.staging - {attempt});
    if attempt !in d.staging {
      assert d.staging - {attempt} == d.staging;
    } else if CandidateIds(id, attempt) && MayDiscard(d, attempt) {
      TwoSteps(d, d.(staging := d.staging[attempt := Dir(Torn(d.staging[attempt].tree, remains))]), d2,
        ReconcileFinal(d2, id, attempt, true, live, remains));
    }
  }

  lemma SameCase(d: Disk, id: string, attempt: string, live: bool, v: Verdict)
    ensures var staged := attempt in d.staging;
            FinalVerdictIs(d, id, attempt, staged, live, v) <==>
              FinalVerdictIs(d.(staging := d.staging - {attempt}), id, attempt, staged, live, v)
  {
    var d2 := d.(staging := d.staging - {attempt});
    assert SelectorResolvesTo(d2, id) <==> SelectorResolvesTo(d, id);
  }

  /** The same of the recovery once the attempt's staging is out of the way. */
  lemma ReconcileFinalAnswers(
      d: Disk, id: string, attempt: string, staged: bool, live: bool, remains: Tree, v: Verdict)
    requires CandidateIds(id, attempt) && StoreReady(d)
    ensures var (end, outcome) := Complete(d, ReconcileFinal(d, id, attempt, staged, live, remains));
            && (outcome == Returned(Verdict(v)) <==> FinalVerdictIs(d, id, attempt, staged, live, v))
            && (outcome == Returned(Verdict(v)) ==> end == AfterFinal(d, id, v))
            && (outcome.Returned? ==> outcome.value.Verdict?)
            && (outcome.Raised? ==> end == d)
  {
    TargetIsValid(d, id);
    AuthorityIsOwn(d, id, attempt);
    if id in d.store && !Keeps(d, id, live) { RemovalAnswers(d, id, attempt, staged, live, remains); }
  }

  lemma AuthorityIsOwn(d: Disk, id: string, attempt: string)
    ensures RecoveryManifest(d, id, attempt).Pass? <==> OwnManifest(d, id, attempt)
  {
  }

  lemma RemovalAnswers(d: Disk, id: string, attempt: string, staged: bool, live: bool, remains: Tree)
    requires CandidateIds(id, attempt) && StoreReady(d) && id in d.store && !Keeps(d, id, live)
    ensures var (end, outcome) := Complete(d, ReconcileFinal(d, id, attempt, staged, live, remains));
            if Removable(d, id, attempt, live)
            then outcome == Returned(Verdict(DiscardedInvalid)) && end == AfterFinal(d, id, DiscardedInvalid)
            else outcome.Raised? && end == d
  {
    TargetIsValid(d, id);
    AuthorityIsOwn(d, id, attempt);
    if Removable(d, id, attempt, live) {
      var d2 := d.(store := d.store - {id});
      TwoSteps(d, d.(store := d.store[id := Dir(Torn(d.store[id].tree, remains))]), d2,
        Step(d2.(manifests := d2.manifests - {id}), Halt(Returned(Verdict(DiscardedInvalid)))));
    }
  }

  /** Wherever it is cut off: a recovery that keeps the runtime touches nothing but the attempt's own staging. */
  lemma KeptIsNeverTouched(d: Disk, id: string, attempt: string, live: bool, remains: Tree, writes: nat)
    requires Keeps(d, id, live)
    ensures var cut := CutAfter(d, ReconcileRun(d, id, attempt, live, remains), writes).disk;
            NothingPublished(d, cut) && cut.staging - {attempt} == d.staging - {attempt}
  {
    var p := OwnStagingOnly(d, attempt);
    var run := ReconcileRun(d, id, attempt, live, remains);
    assert p(d);
    if CandidateIds(id, attempt) && MayDiscard(d, attempt) {
      TargetIsValid(d, id);
      var d2 := d.(staging := d.staging - {attempt});
      TargetIsValid(d2, id);
      if attempt in d.staging {
        var torn := Dir(Torn(d.staging[attempt].tree, remains));
        assert d.staging[attempt := torn] - {attempt} == d.staging - {attempt};
        assert p(d.(staging := d.staging[attempt := torn])) && p(d2);
        assert Throughout(d2, ReconcileFinal(d2, id, attempt, true, live, remains), p);
      }
    }
    CutKeeps(d, run, writes, p);
  }

  ghost function OwnStagingOnly(d0: Disk, attempt: string): Disk -> bool {
    d => NothingPublished(d0, d) && d.staging - {attempt} == d0.staging - {attempt}
  }

  /******* Activation *******/

  /** An activation succeeds exactly between two valid runtimes, and records the one it leaves. */
  lemma ActivateAnswers(d: Disk, id: string, steady: bool, from: string)
    ensures var (end, outcome) := Complete(d, ActivateRun(d, id, steady));
            && (outcome == Returned(RuntimeId(from)) <==>
                  ValidRuntime(d, id) && Selected(d, from) && (from == id || steady))
            && (outcome.Returned? ==> outcome.value.RuntimeId?)
            && (outcome == Returned(RuntimeId(from)) ==>
                  end == if from == id then d else d.(previous := Previous(from, id), selector := StoreLinkTo(id)))
            && (outcome.Raised? ==> end == d.(previous := end.previous))
  {
    TargetIsValid(d, id);
    SelectorIsValid(d, from);
    if ValidateTarget(d, id).Pass? && ValidateSelector(d).Pass? {
      var active := ValidateSelector(d).value;
      FlipAnswers(d.(previous := Previous(active, id)), active, id, steady, RuntimeId(active));
    }
  }

  lemma FlipAnswers(d: Disk, from: string, to: string, steady: bool, value: Value)
    requires ValidRuntime(d, to)
    ensures var (end, outcome) := Complete(d, FlipRun(d, from, to, steady, value));
            && (outcome.Returned? <==> steady)
            && (outcome.Returned? ==> outcome == Returned(value))
            && end == d.(selector := StoreLinkTo(if steady then to else from))
  {
    var d1 := d.(selector := StoreLinkTo(to));
    SelectorIsValid(d1, to);
    assert ValidRuntime(d1, to);
    if !steady { TwoSteps(d, d1, d1.(selector := StoreLinkTo(from)), Halt(Raised(PostCheckFailed))); }
  }

  /** Wherever an activation is cut off: a selector that has moved has its way back on record. */
  lemma FlipIsRecordedFirst(d: Disk, id: string, steady: bool, writes: nat, from: string)
    requires Selected(d, from) && from != id
    ensures var cut := CutAfter(d, ActivateRun(d, id, steady), writes).disk;
            cut.selector == StoreLinkTo(from) || (cut.selector == StoreLinkTo(id) && cut.previous == Previous(from, id))
  {
    SelectorIsValid(d, from);
    if ValidateTarget(d, id).Pass? {
      var d1 := d.(previous := Previous(from, id));
      FlipKeepsTheWayBack(d1, from, id, steady);
      assert ActivateRun(d, id, steady) == Step(d1, FlipRun(d1, from, id, steady, RuntimeId(from)));
    }
    CutKeeps(d, ActivateRun(d, id, steady), writes, WayBack(from, id));
  }

  lemma FlipKeepsTheWayBack(d: Disk, from: string, to: string, steady: bool)
    requires WayBack(from, to)(d) && d.previous == Previous(from, to)
    ensures Throughout(d, FlipRun(d, from, to, steady, RuntimeId(from)), WayBack(from, to))
  {
    var d1 := d.(selector := StoreLinkTo(to));
    var d2 := d1.(selector := StoreLinkTo(from));
    assert WayBack(from, to)(d1) && WayBack(from, to)(d2);
    assert Throughout(d1, Step(d2, Halt(Raised(PostCheckFailed))), WayBack(from, to));
  }

  ghost function WayBack(from: string, to: string): Disk -> bool {
    (d: Disk) => d.selector == StoreLinkTo(from) || (d.selector == StoreLinkTo(to) && d.previous == Previous(from, to))
  }

  /** A first selector is made exactly where there is none, to a valid runtime; a failed check takes it away again. */
  lemma ActivateInitialAnswers(d: Disk, id: string, steady: bool)
    ensures var (end, outcome) := Complete(d, ActivateInitialRun(d, id, steady));
            && (outcome.Returned? <==> ValidRuntime(d, id) && d.selector.NoSelector? && steady)
            && (outcome.Returned? ==> outcome == Returned(RuntimeId(id)) && end == d.(selector := StoreLinkTo(id)))
            && (outcome.Raised? ==> end == d)
  {
    TargetIsValid(d, id);
    if ValidateTarget(d, id).Pass? && d.selector.NoSelector? {
      var d1 := d.(selector := StoreLinkTo(id));
      SelectorIsValid(d1, id);
      assert ValidRuntime(d1, id) && d1.(selector := NoSelector) == d;
      if !steady { TwoSteps(d, d1, d1.(selector := NoSelector), Halt(Raised(PostCheckFailed))); }
    }
  }

  /** A rollback returns exactly to a recorded previous runtime that is still valid, from one that is. */
  lemma RollbackActivationAnswers(d: Disk, steady: bool)
    ensures var (end, outcome) := Complete(d, RollbackActivationRun(d, steady));
            && (outcome.Returned? <==>
                  && d.previous.Previous? && ValidRuntime(d, d.previous.previous)
                  && SelectsValid(d) && steady)
            && (outcome.Returned? ==>
                  && outcome == Returned(RuntimeId(d.previous.previous))
                  && end == d.(selector := StoreLinkTo(d.previous.previous)))
            && (outcome.Raised? ==> end == d)
  {
    SelectorIsValid(d, "");
    if d.previous.Previous? {
      var to := d.previous.previous;
      TargetIsValid(d, to);
      if ValidRuntime(d, to) && SelectsValid(d) {
        var from := d.selector.text.name;
        SelectorIsValid(d, from);
        FlipAnswers(d, from, to, steady, RuntimeId(to));
      }
    }
  }

  /******* Conversion *******/

  /** The manifest of the legacy runtime, if there is one, is a manifest of it. */
  predicate LegacyManifestReadable(d: Disk) {
    LEGACY_ID in d.manifests ==> d.manifests[LEGACY_ID].Doc? && d.manifests[LEGACY_ID].runtimeId == LEGACY_ID
  }

  /** With its manifest, if it lacks one. */
  function WithLegacyManifest(d: Disk): Disk {
    if LEGACY_ID in d.manifests then d else d.(manifests := d.manifests[LEGACY_ID := LegacyManifest()])
  }

  /** With its tree moved into the store, if it is still at the selector. */
  function WithLegacyMoved(d: Disk): Disk {
    if d.selector.RealDir? then d.(selector := NoSelector, store := d.store[LEGACY_ID := Dir(d.selector.tree)])
    else d
  }

  function Linked(d: Disk): Disk { if d.selector.NoSelector? then d.(selector := StoreLinkTo(LEGACY_ID)) else d }

  /** Everything a conversion does, at once. */
  function ConvertedFrom(d: Disk): Disk {
    Linked(WithLegacyManifest(WithLegacyMoved(d))).(storeDir := GoodStore, record := NoRecord)
  }

  /** Where a recorded conversion can go on: the legacy tree at the selector, in the store, or already selected. */
  predicate Resumes(d: Disk) {
    && StoreReady(d) && LegacyManifestReadable(d)
    && (d.selector.RealDir? ==> LEGACY_ID !in d.store)
    && SelectsValid(ConvertedFrom(d))
  }

  lemma FinishAnswers(d: Disk)
    ensures var (end, outcome) := Complete(d, ConvertFinish(d));
            && (outcome.Returned? <==> SelectsValid(d))
            && (outcome.Returned? ==>
                  outcome == Returned(RuntimeId(d.selector.text.name)) && end == d.(record := NoRecord))
  {
    if SelectsValid(d) { SelectorIsValid(d, d.selector.text.name); } else { SelectorIsValid(d, ""); }
  }

  lemma PublishLegacyAnswers(d: Disk)
    ensures var (end, outcome) := Complete(d, ConvertPublish(d));
            && (outcome.Returned? <==> SelectsValid(Linked(d)))
            && (outcome.Returned? ==>
                  && outcome == Returned(RuntimeId(Linked(d).selector.text.name))
                  && end == Linked(d).(record := NoRecord))
  {
    if d.selector.NoSelector? {
      var d1 := d.(selector := StoreLinkTo(LEGACY_ID));
      var d2 := d1.(record := Record("published"));
      TwoSteps(d, d1, d2, ConvertFinish(d2));
      FinishAnswers(d2);
    } else {
      FinishAnswers(d);
    }
  }

  lemma LegacyManifestAnswers(d: Disk)
    ensures var (end, outcome) := Complete(d, ConvertManifest(d));
            var linked := Linked(WithLegacyManifest(d));
            && (outcome.Returned? <==> LegacyManifestReadable(d) && SelectsValid(linked))
            && (outcome.Returned? ==>
                  outcome == Returned(RuntimeId(linked.selector.text.name)) && end == linked.(record := NoRecord))
  {
    PublishLegacyAnswers(WithLegacyManifest(d));
  }

  lemma MoveAnswers(d: Disk)
    requires d.appOk && d.record.Record?
    ensures var (end, outcome) := Complete(d, ConvertMove(d));
            && (outcome.Returned? <==> Resumes(d))
            && (outcome.Returned? ==>
                  && outcome == Returned(RuntimeId(ConvertedFrom(d).selector.text.name))
                  && end == ConvertedFrom(d))
  {
    if d.selector.RealDir? && LEGACY_ID !in d.store {
      var d1 := d.(selector := NoSelector, store := d.store[LEGACY_ID := Dir(d.selector.tree)]);
      var d2 := d1.(record := Record("moved"));
      if d.storeDir.GoodStore? { TwoSteps(d, d1, d2, ConvertManifest(d2)); }
      LegacyManifestAnswers(d2);
    } else {
      LegacyManifestAnswers(d);
    }
  }

  /**
    A conversion succeeds exactly if a recorded one can go on, or none is recorded and the node is converted already or
    not converted yet; it leaves exactly the converted node.
   */
  lemma ConvertAnswers(d: Disk)
    ensures var (end, outcome) := Complete(d, ConvertRun(d));
            && (outcome.Returned? <==>
                  if d.record.Record? then Resumes(d)
                  else
                    && d.record.NoRecord?
                    && (SelectsValid(d) || (d.selector.RealDir? && Unconverted(d, d.selector.tree))))
            && (outcome.Returned? ==>
                  && outcome == Returned(RuntimeId(ConvertedFrom(d).selector.text.name))
                  && end == if d.record.NoRecord? && d.selector.Link? then d else ConvertedFrom(d))
  {
    if d.appOk && d.record.Record? {
      MoveAnswers(d);
    } else if d.appOk && d.record.NoRecord? {
      SelectorIsValid(d, if d.selector.Link? && d.selector.text.StoreLink? then d.selector.text.name else "");
      if MayConvert(d) { FreshConversionAnswers(d); }
    }
  }

  /** Without a record, a conversion writes exactly if there is a legacy directory to convert. */
  predicate MayConvert(d: Disk) {
    && d.appOk && d.record.NoRecord? && !d.storeDir.BadStore?
    && d.selector.RealDir? && d.selector.tree.owned
    && (LEGACY_ID in d.store ==> LEGACY_ID in d.manifests && LegacyManifestReadable(d))
  }

  lemma ConversionStarts(d: Disk)
    requires d.record.NoRecord?
    ensures ConvertRun(d).Step? <==> MayConvert(d)
  {
  }

  /** With its record there, a conversion writes exactly what is left to do, and nothing into a store out of order. */
  lemma ConversionResumes(d: Disk)
    requires d.record.Record?
    ensures ConvertRun(d).Step? <==>
              && d.appOk
              && if d.selector.RealDir? && LEGACY_ID !in d.store then d.storeDir.GoodStore?
                 else if LEGACY_ID !in d.manifests then d.storeDir.GoodStore?
                 else LegacyManifestReadable(d) && (d.selector.NoSelector? || SelectsValid(d))
  {
    SelectorIsValid(d, "");
  }

  lemma FreshConversionAnswers(d: Disk)
    requires MayConvert(d)
    ensures var (end, outcome) := Complete(d, ConvertRun(d));
            && (outcome.Returned? <==> Unconverted(d, d.selector.tree))
            && (outcome.Returned? ==> outcome == Returned(RuntimeId(LEGACY_ID)) && end == ConvertedFrom(d))
  {
    var d1 := d.(storeDir := GoodStore);
    var d2 := d1.(record := Record("recorded"));
    assert Complete(d, ConvertRun(d)) == Complete(d2, ConvertMove(d2)) by {
      if d.storeDir.NoStore? { TwoSteps(d, d1, d2, ConvertMove(d2)); } else { assert d1 == d; }
    }
    MoveAnswers(d2);
    assert ConvertedFrom(d2) == ConvertedFrom(d);
  }

  /** The legacy tree can be moved back: nothing but a link is at the selector, and it is a real directory. */
  predicate MovesBack(d: Disk) {
    (d.selector.Link? || d.selector.NoSelector?) && LEGACY_ID in d.store && d.store[LEGACY_ID].Dir?
  }

  /** A rollback of the conversion succeeds exactly if the legacy tree is at the selector or can be moved back there. */
  lemma RollbackConversionAnswers(d: Disk)
    ensures var (end, outcome) := Complete(d, RollbackConversionRun(d));
            && (outcome.Returned? <==> d.selector.RealDir? || MovesBack(d))
            && (outcome.Returned? ==> outcome == Returned(Unit))
            && end == if MovesBack(d)
                      then d.(selector := RealDir(d.store[LEGACY_ID].tree), store := d.store - {LEGACY_ID},
                              record := NoRecord)
                      else if !d.selector.Link? && !d.selector.NoSelector? then d.(record := NoRecord)
                      else if LEGACY_ID in d.store && d.store[LEGACY_ID].isDir
                      then d.(selector := Link(OddText(d.store[LEGACY_ID].resolves)), store := d.store - {LEGACY_ID},
                              record := NoRecord)
                      else d.(selector := NoSelector, record := NoRecord)
  {
    var d1 := if d.selector.Link? then d.(selector := NoSelector) else d;
    assert Complete(d, RollbackConversionRun(d)) == Complete(d1, RollbackMove(d1));
    MoveBackAnswers(d1);
  }

  lemma MoveBackAnswers(d: Disk)
    requires !d.selector.Link?
    ensures var (end, outcome) := Complete(d, RollbackMove(d));
            && (outcome.Returned? <==> d.selector.RealDir? || MovesBack(d))
            && (outcome.Returned? ==> outcome == Returned(Unit))
            && end == if MovesBack(d)
                      then d.(selector := RealDir(d.store[LEGACY_ID].tree), store := d.store - {LEGACY_ID},
                              record := NoRecord)
                      else if d.selector.NoSelector? && LEGACY_ID in d.store && d.store[LEGACY_ID].isDir
                      then d.(selector := Link(OddText(d.store[LEGACY_ID].resolves)), store := d.store - {LEGACY_ID},
                              record := NoRecord)
                      else d.(record := NoRecord)
  {
    if MovesBack(d) {
      RecordCleared(d.(selector := RealDir(d.store[LEGACY_ID].tree), store := d.store - {LEGACY_ID}));
    } else if d.selector.NoSelector? && LEGACY_ID in d.store && d.store[LEGACY_ID].isDir {
      RecordCleared(d.(selector := Link(OddText(d.store[LEGACY_ID].resolves)), store := d.store - {LEGACY_ID}));
    } else {
      RecordCleared(d);
    }
  }

  lemma RecordCleared(d: Disk)
    ensures var (end, outcome) := Complete(d, RollbackRecord(d));
            && end == d.(record := NoRecord)
            && (outcome.Returned? <==> d.selector.RealDir?)
            && (outcome.Returned? ==> outcome == Returned(Unit))
  {
  }

  /******* Collection *******/

  /** A name that a collection has to spare: the selected runtime, and the recorded previous one. */
  predicate SpareName(d: Disk, n: string) {
    (SelectsValid(d) && d.selector.text.name == n) || (d.previous.Previous? && d.previous.previous == n)
  }

  /** A runtime that a collection may take: a real directory with a manifest of its own, and not to be spared. */
  predicate Superfluous(d: Disk, n: string) {
    && !SpareName(d, n) && MatchesId(n) && RealRuntime(d, n)
    && n in d.manifests && d.manifests[n].Doc? && d.manifests[n].runtimeId == n
  }

  /** A manifest that cannot be read as that of its entry. */
  predicate Blocks(d: Disk, n: string) {
    && !SpareName(d, n) && MatchesId(n)
    && n in d.manifests && (d.manifests[n].Unreadable? || d.manifests[n].runtimeId != n)
  }

  lemma KeepIsSpare(d: Disk, n: string)
    requires SelectsValid(d)
    ensures n in Keep(d, d.selector.text.name) <==> SpareName(d, n)
    ensures Collectable(d, n, Keep(d, d.selector.text.name)) <==> Superfluous(d, n)
    ensures StopsCollection(d, n, Keep(d, d.selector.text.name)) <==> Blocks(d, n)
  {
  }

  /**
    A collection ends exactly if the selector and the previous record can be read and no manifest blocks it; it has
    then removed exactly the superfluous runtimes, with their manifests, and reports them.
   */
  lemma GcAnswers(d: Disk, listing: seq<string>, remains: Tree)
    requires Listing(d, listing)
    ensures var (end, outcome) := Complete(d, GcRun(d, listing, remains));
            && (outcome.Returned? <==>
                  SelectsValid(d) && !d.previous.BadPrevious? && forall n :: n in d.store ==> !Blocks(d, n))
            && (outcome.Returned? ==>
                  && outcome.value.Removed?
                  && (forall n :: n in outcome.value.ids <==> Superfluous(d, n))
                  && end == Without(d, set n | n in d.store && Superfluous(d, n)))
            && (!SelectsValid(d) || d.previous.BadPrevious? ==> end == d)
  {
    CompletedCollection(d, listing, remains);
    SelectorIsValid(d, if SelectsValid(d) then d.selector.text.name else "");
    if SelectsValid(d) && !d.previous.BadPrevious? {
      NothingBlocks(d, listing);
      SameRemovals(d);
      var outcome := Complete(d, GcRun(d, listing, remains)).1;
      if outcome.Returned? { Reported(d, outcome.value.ids); }
    }
  }

  lemma SameRemovals(d: Disk)
    requires SelectsValid(d)
    ensures (set n | n in d.store && Collectable(d, n, Keep(d, d.selector.text.name)))
         == (set n | n in d.store && Superfluous(d, n))
  {
    forall n ensures Collectable(d, n, Keep(d, d.selector.text.name)) <==> Superfluous(d, n) { KeepIsSpare(d, n); }
  }

  lemma Reported(d: Disk, ids: seq<string>)
    requires (set n | n in ids) == set n | n in d.store && Superfluous(d, n)
    ensures forall n :: n in ids <==> Superfluous(d, n)
  {
    var reported, gone := set n | n in ids, set n | n in d.store && Superfluous(d, n);
    assert reported == gone;
    forall n ensures n in ids <==> Superfluous(d, n) {
      assert n in ids <==> n in reported;
      assert Superfluous(d, n) <==> n in gone;
    }
  }

  lemma NothingBlocks(d: Disk, listing: seq<string>)
    requires Listing(d, listing) && SelectsValid(d)
    ensures NothingStops(d, listing, Keep(d, d.selector.text.name)) <==> forall n :: n in d.store ==> !Blocks(d, n)
  {
    var keep := Keep(d, d.selector.text.name);
    if NothingStops(d, listing, keep) {
      forall n | n in d.store ensures !Blocks(d, n) {
        assert n in (set m | m in listing);
        var i :| 0 <= i < |listing| && listing[i] == n;
        KeepIsSpare(d, n);
      }
    }
    if forall n :: n in d.store ==> !Blocks(d, n) {
      forall i | 0 <= i < |listing| ensures !StopsCollection(d, listing[i], keep) {
        assert listing[i] in (set m | m in listing);
        KeepIsSpare(d, listing[i]);
      }
    }
  }
}
