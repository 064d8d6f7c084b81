/**
  The runtime store of backend/runtime_store.py: an application directory whose
  `venv` selector is a real directory (before the one-time conversion) or a
  one-hop link `.venvs/<runtime-id>`, the `.venvs` store behind it, and two
  private records. Each operation is a function from the disk it finds to the
  Run of durable writes it makes.
 */
module StoreModel {
  import opened Durable
  import opened Names

  const VALIDATED := "validated"

  /******* The disk *******/

  /** A virtual environment. `owned` and `usable` are the verdicts of the ownership and target gates on it. */
  datatype Tree = Tree(content: int, owned: bool, usable: bool)

  /** What a removal that was cut off leaves: anything, under the same root directory. */
  function Torn(tree: Tree, remains: Tree): Tree { remains.(owned := tree.owned) }

  /**
    A store entry. `resolves` names the store entry a substituted symlink leads to, `isDir` that it leads to a
    directory.
   */
  datatype Entry = Dir(tree: Tree) | Object(resolves: string, isDir: bool)

  /** The text of the selector link: exactly `.venvs/<name>`, or anything else, with the store entry it resolves to. */
  datatype LinkText = StoreLink(name: string) | OddText(resolves: string)

  datatype Selector = NoSelector | RealDir(tree: Tree) | Link(text: LinkText) | OtherObject

  /** A manifest file. `sound` is the verdict of the recovery gate on the file itself. */
  datatype Manifest = Unreadable | Doc(runtimeId: string, state: string, attempt: string, sound: bool)

  datatype StoreDir = NoStore | GoodStore | BadStore

  datatype Record = NoRecord | BadRecord | Record(phase: string)

  datatype Previous = NoPrevious | BadPrevious | NotAString | Previous(previous: string, current: string)

  datatype Disk = Disk(
    appOk: bool,
    storeDir: StoreDir,
    selector: Selector,
    store: map<string, Entry>,
    manifests: map<string, Manifest>,
    staging: map<string, Entry>,
    record: Record,
    previous: Previous)

  /******* Outcomes *******/

  datatype Verdict = Absent | DiscardedStaging | DiscardedPartial | DiscardedInvalid | Kept

  datatype Value =
    | Unit | RuntimeId(id: string) | Verdict(verdict: Verdict) | Removed(ids: seq<string>) | Flag(flag: bool)

  datatype Error =
    | InvalidId | InvalidAttempt | AppDirRefused | StoreRefused | TargetMissing | NotADirectory | GateRefused
    | NoManifest | ManifestUnreadable | ManifestMismatch | NotValidated
    | SelectorMissing | NotALink | BadLinkText | SelectorPresent | SelectorReferenced
    | RecordUnreadable | NoPreviousRuntime | ForeignTarget | StillPresent
    | AlreadyExists | OrphanManifest | StagingExists | StagingMissing | StagingRefused | Collision
    | BuildFailed | ChecksFailed | PublishFailed | PostCheckFailed | NotThisAttempt | RuntimeRefused

  datatype Outcome = Returned(value: Value) | Raised(error: Error)

  datatype Check<T> = Pass(value: T) | Refuse(error: Error)

  /******* Gates *******/

  /** `open_store`; the store directory it may create is left to the caller. */
  function OpenStore(d: Disk, create: bool): Check<()> {
    if !d.appOk then Refuse(AppDirRefused)
    else if d.storeDir.BadStore? || (d.storeDir.NoStore? && !create) then Refuse(StoreRefused)
    else Pass(())
  }

  datatype Found = Missing | Present(doc: Manifest)

  /** `read_manifest`. */
  function ReadManifest(d: Disk, id: string): Check<Found> {
    if id !in d.manifests then Pass(Missing)
    else if d.manifests[id].Unreadable? then Refuse(ManifestUnreadable)
    else if d.manifests[id].runtimeId != id then Refuse(ManifestMismatch)
    else Pass(Present(d.manifests[id]))
  }

  function ValidateTarget(d: Disk, id: string): Check<()> {
    if !MatchesId(id) then Refuse(InvalidId)
    else if !d.appOk then Refuse(AppDirRefused)
    else if !d.storeDir.GoodStore? then Refuse(StoreRefused)
    else if id !in d.store then Refuse(TargetMissing)
    else if !d.store[id].Dir? then Refuse(NotADirectory)
    else if !d.store[id].tree.owned || !d.store[id].tree.usable then Refuse(GateRefused)
    else
      match ReadManifest(d, id)
      case Refuse(e) => Refuse(e)
      case Pass(Missing) => Refuse(NoManifest)
      case Pass(Present(m)) => if m.Doc? && m.state == VALIDATED then Pass(()) else Refuse(NotValidated)
  }

  /** `validate_selector`: the id of the active runtime. */
  function ValidateSelector(d: Disk): Check<string> {
    match d.selector
    case NoSelector => Refuse(SelectorMissing)
    case RealDir(_) => Refuse(NotALink)
    case OtherObject => Refuse(NotALink)
    case Link(OddText(_)) => Refuse(BadLinkText)
    case Link(StoreLink(name)) =>
      match ValidateTarget(d, name)
      case Refuse(e) => Refuse(e)
      case Pass(_) => Pass(name)
  }

  /** `_selector_resolves_to` the store entry `id`. */
  predicate SelectorResolvesTo(d: Disk, id: string) {
    match d.selector
    case Link(StoreLink(name)) =>
      name == id || (name in d.store && d.store[name].Object? && d.store[name].resolves == id)
    case Link(OddText(r)) => r == id
    case _ => false
  }

  function StoreLinkTo(id: string): Selector { Link(StoreLink(id)) }

  /******* Candidate staging and publication *******/

  /** How the `venv` child and the tightening of its output go. */
  datatype Build = NeverStarted | Interrupted(partial: Tree) | Built(partial: Tree, whole: Tree, tightened: bool)

  function StageRun(d: Disk, id: string, attempt: string, build: Build): Run<Disk, Outcome> {
    if !MatchesId(id) || id == LEGACY_ID then Halt(Raised(InvalidId))
    else if !AttemptId(attempt) then Halt(Raised(InvalidAttempt))
    else if OpenStore(d, true).Refuse? then Halt(Raised(OpenStore(d, true).error))
    else if d.storeDir.NoStore? then
      var d1 := d.(storeDir := GoodStore);
      Step(d1, StageInStore(d1, id, attempt, build))
    else StageInStore(d, id, attempt, build)
  }

  function StageInStore(d: Disk, id: string, attempt: string, build: Build): Run<Disk, Outcome> {
    if id in d.store then Halt(Raised(AlreadyExists))
    else if id in d.manifests then Halt(Raised(OrphanManifest))
    else if attempt in d.staging then Halt(Raised(StagingExists))
    else
      match build
      case NeverStarted => Halt(Raised(BuildFailed))
      case Interrupted(partial) =>
        Step(d.(staging := d.staging[attempt := Dir(partial)]), Halt(Raised(BuildFailed)))
      case Built(partial, whole, tightened) =>
        Step(d.(staging := d.staging[attempt := Dir(partial)]),
          Step(d.(staging := d.staging[attempt := Dir(whole)]),
            Halt(if tightened then Returned(Unit) else Raised(BuildFailed))))
  }

  /** The installer rewrites the attempt's staging tree between staging and finalization. */
  function InstallRun(d: Disk, attempt: string, tree: Tree): Run<Disk, Outcome> {
    if attempt in d.staging && d.staging[attempt].Dir?
    then Step(d.(staging := d.staging[attempt := Dir(tree)]), Halt(Returned(Unit)))
    else Halt(Raised(StagingMissing))
  }

  /**
    What the checks, the publishing rename and the final gate report, and whether a failed clean-up clears the staging
    tree.
   */
  datatype Weather = Weather(checks: bool, rename: bool, postCheck: bool, cleaned: bool, remains: Tree)

  function BuiltManifest(id: string, attempt: string): Manifest { Doc(id, VALIDATED, attempt, true) }

  function FinalizeRun(d: Disk, id: string, attempt: string, w: Weather): Run<Disk, Outcome> {
    if !FullId(id) || id == LEGACY_ID then Halt(Raised(InvalidId))
    else if !AttemptId(attempt) then Halt(Raised(InvalidAttempt))
    else if OpenStore(d, false).Refuse? then Halt(Raised(OpenStore(d, false).error))
    else if attempt !in d.staging || !d.staging[attempt].Dir? then Halt(Raised(StagingMissing))
    else if !w.checks then AbandonRun(d, id, attempt, w, false, ChecksFailed)
    else if id in d.store || id in d.manifests then AbandonRun(d, id, attempt, w, false, Collision)
    else
      var d1 := d.(manifests := d.manifests[id := BuiltManifest(id, attempt)]);
      Step(d1, PublishRun(d1, id, attempt, w))
  }

  /** The manifest is durable; the staged tree is renamed into place. */
  function PublishRun(d: Disk, id: string, attempt: string, w: Weather): Run<Disk, Outcome>
    requires attempt in d.staging && d.staging[attempt].Dir?
  {
    if !w.rename then AbandonRun(d, id, attempt, w, true, PublishFailed)
    else
      var d2 := d.(store := d.store[id := d.staging[attempt]], staging := d.staging - {attempt});
      var final := ValidateTarget(d2, id).Pass? && w.postCheck;
      Step(d2, Halt(if final then Returned(RuntimeId(id)) else Raised(PostCheckFailed)))
  }

  /** The exception handler of `finalize_candidate`. */
  function AbandonRun(d: Disk, id: string, attempt: string, w: Weather, manifestWritten: bool, error: Error)
    : Run<Disk, Outcome>
    requires attempt in d.staging && d.staging[attempt].Dir?
  {
    var d1 := d.(staging := d.staging[attempt := Dir(Torn(d.staging[attempt].tree, w.remains))]);
    if w.cleaned then
      var d2 := d.(staging := d.staging - {attempt});
      Step(d1, Step(d2, RetractRun(d2, id, manifestWritten, error)))
    else Step(d1, RetractRun(d1, id, manifestWritten, error))
  }

  function RetractRun(d: Disk, id: string, manifestWritten: bool, error: Error): Run<Disk, Outcome> {
    if manifestWritten && id !in d.store
    then Step(d.(manifests := d.manifests - {id}), Halt(Raised(error)))
    else Halt(Raised(error))
  }

  /******* Recovery of an interrupted candidate *******/

  function DiscardRun(d: Disk, attempt: string, remains: Tree): Run<Disk, Outcome> {
    if !AttemptId(attempt) then Halt(Raised(InvalidAttempt))
    else if !d.appOk then Halt(Raised(AppDirRefused))
    else if d.storeDir.NoStore? then Halt(Returned(Flag(false)))
    else if d.storeDir.BadStore? then Halt(Raised(StoreRefused))
    else if attempt !in d.staging then Halt(Returned(Flag(false)))
    else if !d.staging[attempt].Dir? || !d.staging[attempt].tree.owned then Halt(Raised(StagingRefused))
    else
      Step(d.(staging := d.staging[attempt := Dir(Torn(d.staging[attempt].tree, remains))]),
        Step(d.(staging := d.staging - {attempt}), Halt(Returned(Flag(true)))))
  }

  function ReconcileRun(d: Disk, id: string, attempt: string, live: bool, remains: Tree): Run<Disk, Outcome> {
    if !FullId(id) || id == LEGACY_ID then Halt(Raised(InvalidId))
    else if !AttemptId(attempt) then Halt(Raised(InvalidAttempt))
    else if !d.appOk then Halt(Raised(AppDirRefused))
    else if d.storeDir.NoStore? then Halt(Returned(Verdict(Absent)))
    else if d.storeDir.BadStore? then Halt(Raised(StoreRefused))
    else if attempt !in d.staging then ReconcileFinal(d, id, attempt, false, live, remains)
    else if !d.staging[attempt].Dir? || !d.staging[attempt].tree.owned then Halt(Raised(StagingRefused))
    else
      var d2 := d.(staging := d.staging - {attempt});
      Step(d.(staging := d.staging[attempt := Dir(Torn(d.staging[attempt].tree, remains))]),
        Step(d2, ReconcileFinal(d2, id, attempt, true, live, remains)))
  }

  /** `_recovery_manifest`: only a manifest bound to this attempt may be removed. */
  function RecoveryManifest(d: Disk, id: string, attempt: string): Check<()> {
    if id !in d.manifests then Refuse(NoManifest)
    else
      match d.manifests[id]
      case Unreadable => Refuse(ManifestUnreadable)
      case Doc(runtimeId, _, a, sound) =>
        if !sound then Refuse(ManifestUnreadable)
        else if runtimeId != id then Refuse(ManifestMismatch)
        else if a != attempt then Refuse(NotThisAttempt)
        else Pass(())
  }

  function ReconcileFinal(d: Disk, id: string, attempt: string, staged: bool, live: bool, remains: Tree)
    : Run<Disk, Outcome>
  {
    if id !in d.store then
      if id !in d.manifests then Halt(Returned(Verdict(if staged then DiscardedStaging else Absent)))
      else if RecoveryManifest(d, id, attempt).Refuse? then Halt(Raised(RecoveryManifest(d, id, attempt).error))
      else Step(d.(manifests := d.manifests - {id}), Halt(Returned(Verdict(DiscardedPartial))))
    else if ValidateTarget(d, id).Pass? && live then Halt(Returned(Verdict(Kept)))
    else if RecoveryManifest(d, id, attempt).Refuse? then Halt(Raised(RecoveryManifest(d, id, attempt).error))
    else if !d.store[id].Dir? || !d.store[id].tree.owned then Halt(Raised(RuntimeRefused))
    else if SelectorResolvesTo(d, id) then Halt(Raised(SelectorReferenced))
    else
      var d2 := d.(store := d.store - {id});
      Step(d.(store := d.store[id := Dir(Torn(d.store[id].tree, remains))]),
        Step(d2,
          Step(d2.(manifests := d2.manifests - {id}), Halt(Returned(Verdict(DiscardedInvalid))))))
  }

  /******* Legacy conversion *******/

  function LegacyManifest(): Manifest { Doc(LEGACY_ID, VALIDATED, "", true) }

  function SelectorOutcome(d: Disk): Outcome {
    match ValidateSelector(d)
    case Pass(id) => Returned(RuntimeId(id))
    case Refuse(e) => Raised(e)
  }

  function ConvertRun(d: Disk): Run<Disk, Outcome> {
    if !d.appOk then Halt(Raised(AppDirRefused))
    else if d.record.BadRecord? then Halt(Raised(RecordUnreadable))
    else if d.record.Record? then ConvertMove(d)
    else if d.selector.Link? then Halt(SelectorOutcome(d))
    else if d.selector.NoSelector? then Halt(Raised(SelectorMissing))
    else if !d.selector.RealDir? then Halt(Raised(NotADirectory))
    else if !d.selector.tree.owned then Halt(Raised(GateRefused))
    else if LEGACY_ID in d.store && ReadManifest(d, LEGACY_ID).Refuse?
        then Halt(Raised(ReadManifest(d, LEGACY_ID).error))
    else if LEGACY_ID in d.store && ReadManifest(d, LEGACY_ID).value.Missing? then Halt(Raised(ForeignTarget))
    else if d.storeDir.BadStore? then Halt(Raised(StoreRefused))
    else if d.storeDir.NoStore? then
      var d1 := d.(storeDir := GoodStore);
      Step(d1, ConvertRecord(d1))
    else ConvertRecord(d)
  }

  /** The write-ahead record comes before the first change. */
  function ConvertRecord(d: Disk): Run<Disk, Outcome> {
    var d1 := d.(record := Record("recorded"));
    Step(d1, ConvertMove(d1))
  }

  function ConvertMove(d: Disk): Run<Disk, Outcome> {
    if d.selector.RealDir? && LEGACY_ID !in d.store then
      if !d.storeDir.GoodStore? then Halt(Raised(StoreRefused))
      else
        var d1 := d.(selector := NoSelector, store := d.store[LEGACY_ID := Dir(d.selector.tree)]);
        var d2 := d1.(record := Record("moved"));
        Step(d1, Step(d2, ConvertManifest(d2)))
    else ConvertManifest(d)
  }

  function ConvertManifest(d: Disk): Run<Disk, Outcome> {
    match ReadManifest(d, LEGACY_ID)
    case Refuse(e) => Halt(Raised(e))
    case Pass(Missing) =>
      if !d.storeDir.GoodStore? then Halt(Raised(StoreRefused))
      else
        var d1 := d.(manifests := d.manifests[LEGACY_ID := LegacyManifest()]);
        Step(d1, ConvertPublish(d1))
    case Pass(Present(_)) => ConvertPublish(d)
  }

  function ConvertPublish(d: Disk): Run<Disk, Outcome> {
    match d.selector
    case Link(_) => ConvertFinish(d)
    case NoSelector =>
      var d1 := d.(selector := StoreLinkTo(LEGACY_ID));
      var d2 := d1.(record := Record("published"));
      Step(d1, Step(d2, ConvertFinish(d2)))
    case _ => Halt(Raised(StillPresent))
  }

  function ConvertFinish(d: Disk): Run<Disk, Outcome> {
    match ValidateSelector(d)
    case Refuse(e) => Halt(Raised(e))
    case Pass(id) => Step(d.(record := NoRecord), Halt(Returned(RuntimeId(id))))
  }

  function RollbackConversionRun(d: Disk): Run<Disk, Outcome> {
    if d.selector.Link? then
      var d1 := d.(selector := NoSelector);
      Step(d1, RollbackMove(d1))
    else RollbackMove(d)
  }

  function RollbackMove(d: Disk): Run<Disk, Outcome> {
    if d.selector.NoSelector? && LEGACY_ID in d.store && d.store[LEGACY_ID].Dir? then
      var d1 := d.(selector := RealDir(d.store[LEGACY_ID].tree), store := d.store - {LEGACY_ID});
      Step(d1, RollbackRecord(d1))
    else if d.selector.NoSelector? && LEGACY_ID in d.store && d.store[LEGACY_ID].isDir then
      var d1 := d.(selector := Link(OddText(d.store[LEGACY_ID].resolves)), store := d.store - {LEGACY_ID});
      Step(d1, RollbackRecord(d1))
    else RollbackRecord(d)
  }

  function RollbackRecord(d: Disk): Run<Disk, Outcome> {
    if d.record.NoRecord? then Halt(RollbackOutcome(d))
    else
      var d1 := d.(record := NoRecord);
      Step(d1, Halt(RollbackOutcome(d1)))
  }

  function RollbackOutcome(d: Disk): Outcome {
    match d.selector
    case NoSelector => Raised(SelectorMissing)
    case RealDir(_) => Returned(Unit)
    case _ => Raised(NotADirectory)
  }

  /******* Activation *******/

  /** `steady` is false when the check after the flip fails although nothing on disk explains it. */
  function ActivateRun(d: Disk, id: string, steady: bool): Run<Disk, Outcome> {
    match ValidateTarget(d, id)
    case Refuse(e) => Halt(Raised(e))
    case Pass(_) =>
      match ValidateSelector(d)
      case Refuse(e) => Halt(Raised(e))
      case Pass(previous) =>
        if previous == id then Halt(Returned(RuntimeId(previous)))
        else
          var d1 := d.(previous := Previous(previous, id));
          Step(d1, FlipRun(d1, previous, id, steady, RuntimeId(previous)))
  }

  /** Flip the selector, check it, and put the old link back before raising if the check fails. */
  function FlipRun(d: Disk, from: string, to: string, steady: bool, value: Value): Run<Disk, Outcome> {
    var d1 := d.(selector := StoreLinkTo(to));
    if ValidateSelector(d1).Pass? && steady then Step(d1, Halt(Returned(value)))
    else Step(d1, Step(d1.(selector := StoreLinkTo(from)), Halt(Raised(PostCheckFailed))))
  }

  function ActivateInitialRun(d: Disk, id: string, steady: bool): Run<Disk, Outcome> {
    match ValidateTarget(d, id)
    case Refuse(e) => Halt(Raised(e))
    case Pass(_) =>
      if !d.selector.NoSelector? then Halt(Raised(SelectorPresent))
      else
        var d1 := d.(selector := StoreLinkTo(id));
        if ValidateSelector(d1).Pass? && steady then Step(d1, Halt(Returned(RuntimeId(id))))
        else Step(d1, Step(d1.(selector := NoSelector), Halt(Raised(PostCheckFailed))))
  }

  function RollbackActivationRun(d: Disk, steady: bool): Run<Disk, Outcome> {
    match d.previous
    case BadPrevious => Halt(Raised(RecordUnreadable))
    case NoPrevious => Halt(Raised(NoPreviousRuntime))
    case NotAString => Halt(Raised(NoPreviousRuntime))
    case Previous(previous, _) =>
      match ValidateTarget(d, previous)
      case Refuse(e) => Halt(Raised(e))
      case Pass(_) =>
        match ValidateSelector(d)
        case Refuse(e) => Halt(Raised(e))
        case Pass(current) => FlipRun(d, current, previous, steady, RuntimeId(previous))
  }

  /******* Garbage collection *******/

  function Keep(d: Disk, current: string): set<string> {
    if d.previous.Previous? then {current, d.previous.previous} else {current}
  }

  /** `listing` is the order in which the directory lists its entries. */
  function GcRun(d: Disk, listing: seq<string>, remains: Tree): Run<Disk, Outcome> {
    match ValidateSelector(d)
    case Refuse(e) => Halt(Raised(e))
    case Pass(current) =>
      if d.previous.BadPrevious? then Halt(Raised(RecordUnreadable))
      else if OpenStore(d, false).Refuse? then Halt(Raised(OpenStore(d, false).error))
      else GcSweep(d, listing, Keep(d, current), [], remains)
  }

  /** The entry is a real directory with a manifest, and not one to keep. */
  predicate Collectable(d: Disk, name: string, keep: set<string>) {
    && name !in keep
    && MatchesId(name)
    && name in d.store && d.store[name].Dir?
    && ReadManifest(d, name).Pass? && ReadManifest(d, name).value.Present?
  }

  /** Reading the manifest of this entry stops the collection. */
  predicate StopsCollection(d: Disk, name: string, keep: set<string>) {
    name !in keep && MatchesId(name) && ReadManifest(d, name).Refuse?
  }

  function Collected(d: Disk, name: string): Disk {
    d.(store := d.store - {name}, manifests := d.manifests - {name})
  }

  function GcSweep(d: Disk, names: seq<string>, keep: set<string>, removed: seq<string>, remains: Tree)
    : Run<Disk, Outcome>
    decreases |names|
  {
    if names == [] then Halt(Returned(Removed(removed)))
    else
      var name := names[0];
      if StopsCollection(d, name, keep) then Halt(Raised(ReadManifest(d, name).error))
      else if !Collectable(d, name, keep) then GcSweep(d, names[1..], keep, removed, remains)
      else
        var d3 := Collected(d, name);
        Step(d.(store := d.store[name := Dir(Torn(d.store[name].tree, remains))]),
          Step(d.(store := d.store - {name}),
            Step(d3, GcSweep(d3, names[1..], keep, removed + [name], remains))))
  }
}
