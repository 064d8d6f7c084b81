/**
  The private ledger of an update: its transactions and the rollback reserves of
  first transitions. A reserve is accepted after a success, or discarded after a
  failure that never took the service down; the two fates exclude each other.
 */
module BootstrapReserve {
  import opened Durable
  import opened Names
  import opened UpdateJournal

  /******* Records *******/

  datatype ReserveState = Staged | Ready | AcceptanceIntent | ReserveAccepted | FailureDiscardIntent | FailureDiscarded

  /** A reserve record. `exactWork` says that its work path is the one its attempt id determines. */
  datatype Reserve = Reserve(
    schema: int, attempt: string, exactWork: bool, commit: string, tag: string, version: string,
    baseline: string, state: ReserveState, history: seq<ReserveState>)

  /** What is at a reserve's work path. `isPrivate` is the verdict of the ownership and mode gate. */
  datatype Work = WorkTree(content: int, isPrivate: bool) | WorkObject

  datatype TxFile = TxGarbage | TxFile(doc: Tx)
  datatype ReserveFile = ReserveGarbage | ReserveFile(doc: Reserve)

  /** The private state directory. `sound` is the verdict on the directories themselves. */
  datatype Ledger = Ledger(
    sound: bool,
    txDir: bool,
    txs: map<string, TxFile>,
    reserves: map<string, ReserveFile>,
    works: map<string, Work>)

  datatype LedgerError =
    | DirRefused | BadAttemptId | NoTx | TxRefused | NoReserve | ReserveRefused | TxRefusal(error: TxError)
    | NotStaged | NotReady | NotSuccessful | NotAFailure | IdentityMismatch | WorkMissing | WorkRefused | NotFresh

  datatype LedgerValue = TxDoc(tx: Tx) | ReserveDoc(reserve: Reserve) | Done

  datatype LedgerOutcome = Answer(value: LedgerValue) | Refused(error: LedgerError)

  const BASELINES: set<string> := {"0.3.14", "0.3.15", "0.3.18"}

  /** The only way to each state. */
  function PathTo(s: ReserveState): seq<ReserveState> {
    match s
    case Staged => [Staged]
    case Ready => [Staged, Ready]
    case AcceptanceIntent => [Staged, Ready, AcceptanceIntent]
    case ReserveAccepted => [Staged, Ready, AcceptanceIntent, ReserveAccepted]
    case FailureDiscardIntent => [Staged, FailureDiscardIntent]
    case FailureDiscarded => [Staged, FailureDiscardIntent, FailureDiscarded]
  }

  /** `read_bootstrap_reserve`. */
  predicate ValidReserve(r: Reserve, attempt: string) {
    && r.schema == 2 && r.attempt == attempt && r.exactWork
    && Version(r.version) && r.tag == "v" + r.version && Commit(r.commit)
    && r.baseline in BASELINES
    && r.history == PathTo(r.state)
  }

  datatype Read<T> = Found(doc: T) | Failed(error: LedgerError)

  /** `read_update_attempt`. */
  function ReadTx(l: Ledger, attempt: string): Read<Tx> {
    if !l.sound then Failed(DirRefused)
    else if !l.txDir then Failed(DirRefused)
    else if !AttemptId(attempt) then Failed(BadAttemptId)
    else if attempt !in l.txs then Failed(NoTx)
    else if !l.txs[attempt].TxFile? || !ValidTx(l.txs[attempt].doc, attempt) then Failed(TxRefused)
    else Found(l.txs[attempt].doc)
  }

  function ReadReserve(l: Ledger, attempt: string): Read<Reserve> {
    if !l.sound then Failed(DirRefused)
    else if !AttemptId(attempt) then Failed(BadAttemptId)
    else if attempt !in l.reserves then Failed(NoReserve)
    else if !l.reserves[attempt].ReserveFile? then Failed(ReserveRefused)
    else if !ValidReserve(l.reserves[attempt].doc, attempt) then Failed(ReserveRefused)
    else Found(l.reserves[attempt].doc)
  }

  function Advance(r: Reserve, s: ReserveState): Reserve { r.(state := s, history := r.history + [s]) }

  function Stored(l: Ledger, attempt: string, r: Reserve): Ledger {
    l.(reserves := l.reserves[attempt := ReserveFile(r)])
  }

  /** The reserve was made for exactly this transaction. */
  predicate SameIdentity(tx: Tx, r: Reserve) {
    && tx.commit == r.commit && tx.tag == r.tag && tx.version == r.version
    && PreviousVersion in tx.facts && tx.facts[PreviousVersion] == Text(r.baseline)
  }

  /******* Transactions on the ledger *******/

  function BeginRun(l: Ledger, attempt: string, version: string, commit: string, tag: string)
    : Run<Ledger, LedgerOutcome>
  {
    var begun := BeginTx(attempt, version, commit, tag);
    if begun.Rejected? then Halt(Refused(TxRefusal(begun.error)))
    else if !l.sound then Halt(Refused(DirRefused))
    else if !l.txDir then
      var l1 := l.(txDir := true);
      Step(l1, BeginInDir(l1, attempt, begun.doc))
    else BeginInDir(l, attempt, begun.doc)
  }

  function BeginInDir(l: Ledger, attempt: string, doc: Tx): Run<Ledger, LedgerOutcome> {
    if attempt in l.txs then
      match ReadTx(l, attempt)
      case Failed(e) => Halt(Refused(e))
      case Found(existing) =>
        Halt(if existing == doc then Answer(TxDoc(existing)) else Refused(TxRefusal(AttemptCollision)))
    else Step(l.(txs := l.txs[attempt := TxFile(doc)]), Halt(Answer(TxDoc(doc))))
  }

  function MarkRun(l: Ledger, attempt: string, phase: Phase, updates: Facts): Run<Ledger, LedgerOutcome> {
    if phase.Unsupported? then Halt(Refused(TxRefusal(UnsupportedPhase)))
    else
      match ReadTx(l, attempt)
      case Failed(e) => Halt(Refused(e))
      case Found(doc) =>
        match MarkTx(doc, phase, updates)
        case Rejected(e) => Halt(Refused(TxRefusal(e)))
        case Accepted(marked) =>
          if phase == doc.phase then Halt(Answer(TxDoc(doc)))
          else Step(l.(txs := l.txs[attempt := TxFile(marked)]), Halt(Answer(TxDoc(marked))))
  }

  /******* Reserves *******/

  /** The bootstrap ceremony: the record is durable before the staging tree exists. */
  function CeremonyRun(l: Ledger, attempt: string, version: string, commit: string, baseline: string, content: int)
    : Run<Ledger, LedgerOutcome>
  {
    if !l.sound then Halt(Refused(DirRefused))
    else if !AttemptId(attempt) || !Commit(commit) || !AsciiVersion(version) then Halt(Refused(BadAttemptId))
    else if baseline !in BASELINES then Halt(Refused(BadAttemptId))
    else if attempt in l.works || attempt in l.reserves then Halt(Refused(NotFresh))
    else
      var r := Reserve(2, attempt, true, commit, "v" + version, version, baseline, Staged, [Staged]);
      var l1 := Stored(l, attempt, r);
      Step(l1, Step(l1.(works := l1.works[attempt := WorkTree(content, true)]), Halt(Answer(Done))))
  }

  function ReadyRun(l: Ledger, attempt: string): Run<Ledger, LedgerOutcome> {
    match ReadReserve(l, attempt)
    case Failed(e) => Halt(Refused(e))
    case Found(r) =>
      if r.state == Ready then Halt(Answer(ReserveDoc(r)))
      else if r.state != Staged then Halt(Refused(NotStaged))
      else
        match ReadTx(l, attempt)
        case Failed(e) => Halt(Refused(e))
        case Found(tx) =>
          if tx.phase != Success then Halt(Refused(NotSuccessful))
          else if !SameIdentity(tx, r) then Halt(Refused(IdentityMismatch))
          else if attempt !in l.works then Halt(Refused(WorkMissing))
          else if !l.works[attempt].WorkTree? || !l.works[attempt].isPrivate then Halt(Refused(WorkRefused))
          else Step(Stored(l, attempt, Advance(r, Ready)), Halt(Answer(ReserveDoc(Advance(r, Ready)))))
  }

  function AcceptRun(l: Ledger, attempt: string, commit: string, tag: string, remains: int)
    : Run<Ledger, LedgerOutcome>
  {
    match ReadReserve(l, attempt)
    case Failed(e) => Halt(Refused(e))
    case Found(r) =>
      if r.commit != commit || r.tag != tag then Halt(Refused(IdentityMismatch))
      else AcceptReserveRun(l, attempt, r, remains)
  }

  function AcceptReserveRun(l: Ledger, attempt: string, r: Reserve, remains: int): Run<Ledger, LedgerOutcome> {
    if r.state.ReserveAccepted? then Halt(Answer(ReserveDoc(r)))
    else if r.state.Ready? then
      var r1 := Advance(r, AcceptanceIntent);
      var l1 := Stored(l, attempt, r1);
      Step(l1, ReleaseRun(l1, attempt, r1, ReserveAccepted, remains))
    else if r.state.AcceptanceIntent? then ReleaseRun(l, attempt, r, ReserveAccepted, remains)
    else Halt(Refused(NotReady))
  }

  /** The reserve of a failed attempt, if the attempt authorizes its discard. */
  function DiscardableReserve(l: Ledger, attempt: string, commit: string, tag: string): Read<Reserve> {
    match ReadReserve(l, attempt)
    case Failed(e) => Failed(e)
    case Found(r) =>
      if r.commit != commit || r.tag != tag then Failed(IdentityMismatch)
      else
        match ReadTx(l, attempt)
        case Failed(e) => Failed(e)
        case Found(tx) =>
          if tx.phase != DiagnosticFailure || DowntimeStarted in tx.history then Failed(NotAFailure)
          else if DowntimeBegun in tx.facts then Failed(NotAFailure)
          else if !SameIdentity(tx, r) then Failed(IdentityMismatch)
          else Found(r)
  }

  function DiscardFailedRun(l: Ledger, attempt: string, commit: string, tag: string, remains: int)
    : Run<Ledger, LedgerOutcome>
  {
    match DiscardableReserve(l, attempt, commit, tag)
    case Failed(e) => Halt(Refused(e))
    case Found(r) => DiscardRun(l, attempt, r, remains)
  }

  function DiscardRun(l: Ledger, attempt: string, r: Reserve, remains: int): Run<Ledger, LedgerOutcome> {
    if r.state == FailureDiscarded then Halt(Answer(ReserveDoc(r)))
    else if r.state == Staged then
      var r1 := Advance(r, FailureDiscardIntent);
      var l1 := Stored(l, attempt, r1);
      Step(l1, ReleaseRun(l1, attempt, r1, FailureDiscarded, remains))
    else if r.state == FailureDiscardIntent then ReleaseRun(l, attempt, r, FailureDiscarded, remains)
    else Halt(Refused(NotStaged))
  }

  /** With the intent durable: delete the work tree if it is still there, then record the end state. */
  function ReleaseRun(l: Ledger, attempt: string, r: Reserve, end: ReserveState, remains: int)
    : Run<Ledger, LedgerOutcome>
  {
    if attempt !in l.works then ConcludeRun(l, attempt, r, end)
    else if !l.works[attempt].WorkTree? || !l.works[attempt].isPrivate then Halt(Refused(WorkRefused))
    else
      var l2 := l.(works := l.works - {attempt});
      Step(l.(works := l.works[attempt := WorkTree(remains, true)]), Step(l2, ConcludeRun(l2, attempt, r, end)))
  }

  function ConcludeRun(l: Ledger, attempt: string, r: Reserve, end: ReserveState): Run<Ledger, LedgerOutcome> {
    Step(Stored(l, attempt, Advance(r, end)), Halt(Answer(ReserveDoc(Advance(r, end)))))
  }

  /******* Runs *******/

  datatype Op =
    | Begin(attempt: string, version: string, commit: string, tag: string)
    | Mark(attempt: string, phase: Phase, updates: Facts)
    | Ceremony(attempt: string, version: string, commit: string, baseline: string, content: int)
    | MakeReady(attempt: string)
    | Accept(attempt: string, commit: string, tag: string, remains: int)
    | DiscardFailed(attempt: string, commit: string, tag: string, remains: int)

  function OpRun(l: Ledger, op: Op): Run<Ledger, LedgerOutcome> {
    match op
    case Begin(a, version, commit, tag) => BeginRun(l, a, version, commit, tag)
    case Mark(a, phase, updates) => MarkRun(l, a, phase, updates)
    case Ceremony(a, version, commit, baseline, content) => CeremonyRun(l, a, version, commit, baseline, content)
    case MakeReady(a) => ReadyRun(l, a)
    case Accept(a, commit, tag, remains) => AcceptRun(l, a, commit, tag, remains)
    case DiscardFailed(a, commit, tag, remains) => DiscardFailedRun(l, a, commit, tag, remains)
  }

  datatype Call = Call(op: Op, writes: nat)

  function After(l: Ledger, schedule: seq<Call>): Ledger
    decreases |schedule|
  {
    if schedule == [] then l
    else After(CutAfter(l, OpRun(l, schedule[0].op), schedule[0].writes).disk, schedule[1..])
  }

  /******* The joint invariant *******/

  predicate TxIs(l: Ledger, attempt: string, r: Reserve) {
    && attempt in l.txs && l.txs[attempt].TxFile? && ValidTx(l.txs[attempt].doc, attempt)
    && SameIdentity(l.txs[attempt].doc, r)
  }

  predicate Succeeded(l: Ledger, attempt: string, r: Reserve) {
    TxIs(l, attempt, r) && l.txs[attempt].doc.phase == Success
  }

  predicate FailedBeforeDowntime(l: Ledger, attempt: string, r: Reserve) {
    && TxIs(l, attempt, r) && l.txs[attempt].doc.phase == DiagnosticFailure
    && DowntimeStarted !in l.txs[attempt].doc.history
  }

  predicate ForSuccess(s: ReserveState) { s.Ready? || s.AcceptanceIntent? || s.ReserveAccepted? }

  predicate ForFailure(s: ReserveState) { s.FailureDiscardIntent? || s.FailureDiscarded? }

  predicate AtIntent(s: ReserveState) { s.AcceptanceIntent? || s.FailureDiscardIntent? }

  /** What a reserve record's state promises about its transaction and its work tree. */
  predicate ReserveKept(l: Ledger, attempt: string, r: Reserve) {
    && (ForSuccess(r.state) ==> Succeeded(l, attempt, r))
    && (ForFailure(r.state) ==> FailedBeforeDowntime(l, attempt, r))
    && (r.state.ReserveAccepted? || r.state.FailureDiscarded? ==> attempt !in l.works)
    && (r.state.Ready? ==> attempt in l.works)
  }

  /** The states a record moves through. */
  predicate Moves(s: ReserveState, t: ReserveState) {
    || (s.Staged? && (t.Ready? || t.FailureDiscardIntent?))
    || (s.Ready? && t.AcceptanceIntent?)
    || (s.AcceptanceIntent? && t.ReserveAccepted?)
    || (s.FailureDiscardIntent? && t.FailureDiscarded?)
  }

  lemma AdvancedReserveIsValid(r: Reserve, attempt: string, t: ReserveState)
    requires ValidReserve(r, attempt)
    ensures ValidReserve(Advance(r, t), attempt) <==> Moves(r.state, t)
  {
    PathsGrow(r.state, t);
  }

  lemma PathsGrow(s: ReserveState, t: ReserveState)
    ensures PathTo(s) + [t] == PathTo(t) <==> Moves(s, t)
  {
    var path := PathTo(s) + [t];
    assert path[|path| - 2] == s && path[|path| - 1] == t;
  }

  predicate Consistent(l: Ledger) {
    && (forall a :: a in l.txs && l.txs[a].TxFile? ==> ValidTx(l.txs[a].doc, a))
    && (forall a :: a in l.reserves && l.reserves[a].ReserveFile? && ValidReserve(l.reserves[a].doc, a)
          ==> ReserveKept(l, a, l.reserves[a].doc))
  }

  lemma TxWriteKeepsReserve(l: Ledger, attempt: string, doc: Tx, a: string, r: Reserve)
    requires ReserveKept(l, a, r) && ValidTx(doc, attempt)
    requires attempt in l.txs ==> l.txs[attempt].TxFile? && Extends(l.txs[attempt].doc, doc)
    ensures ReserveKept(l.(txs := l.txs[attempt := TxFile(doc)]), a, r)
  {
  }

  lemma TxWriteKeepsConsistent(l: Ledger, attempt: string, doc: Tx)
    requires Consistent(l) && ValidTx(doc, attempt)
    requires attempt in l.txs ==> l.txs[attempt].TxFile? && Extends(l.txs[attempt].doc, doc)
    ensures Consistent(l.(txs := l.txs[attempt := TxFile(doc)]))
  {
    var l1 := l.(txs := l.txs[attempt := TxFile(doc)]);
    forall a | a in l1.reserves && l1.reserves[a].ReserveFile? && ValidReserve(l1.reserves[a].doc, a)
      ensures ReserveKept(l1, a, l1.reserves[a].doc)
    {
      TxWriteKeepsReserve(l, attempt, doc, a, l.reserves[a].doc);
    }
  }

  lemma BeginKeepsConsistent(l: Ledger, attempt: string, version: string, commit: string, tag: string)
    requires Consistent(l)
    ensures Throughout(l, BeginRun(l, attempt, version, commit, tag), Consistent)
  {
    var begun := BeginTx(attempt, version, commit, tag);
    if begun.Accepted? && attempt !in l.txs {
      BegunTxIsValid(attempt, version, commit, tag);
      var l1 := l.(txDir := true);
      assert Consistent(l1);
      TxWriteKeepsConsistent(l, attempt, begun.doc);
      TxWriteKeepsConsistent(l1, attempt, begun.doc);
      assert Throughout(l1, BeginInDir(l1, attempt, begun.doc), Consistent);
    }
  }

  lemma MarkKeepsConsistent(l: Ledger, attempt: string, phase: Phase, updates: Facts)
    requires Consistent(l)
    ensures Throughout(l, MarkRun(l, attempt, phase, updates), Consistent)
  {
    MarkWriteKeepsConsistent(l, attempt, phase, updates);
  }

  lemma MarkWriteKeepsConsistent(l: Ledger, attempt: string, phase: Phase, updates: Facts)
    requires Consistent(l)
    ensures MarkRun(l, attempt, phase, updates).Step? ==>
              Consistent(MarkRun(l, attempt, phase, updates).next) && MarkRun(l, attempt, phase, updates).rest.Halt?
  {
    if MarkRun(l, attempt, phase, updates).Halt? { return; }
    var doc := ReadTx(l, attempt).doc;
    MarkedTxIsValid(doc, phase, updates);
    TxWriteKeepsConsistent(l, attempt, MarkTx(doc, phase, updates).doc);
  }

  lemma ReserveWriteKeepsConsistent(l: Ledger, attempt: string, r: Reserve)
    requires Consistent(l) && (ValidReserve(r, attempt) ==> ReserveKept(l, attempt, r))
    ensures Consistent(Stored(l, attempt, r))
  {
    var l1 := Stored(l, attempt, r);
    forall a | a in l1.reserves && l1.reserves[a].ReserveFile? && ValidReserve(l1.reserves[a].doc, a)
      ensures ReserveKept(l1, a, l1.reserves[a].doc)
    {
      if a != attempt { assert ReserveKept(l, a, l.reserves[a].doc); }
    }
  }

  lemma WorkChangeKeepsConsistent(l: Ledger, l1: Ledger, attempt: string)
    requires Consistent(l) && l1 == l.(works := l1.works)
    requires l1.works - {attempt} == l.works - {attempt}
    requires attempt in l.reserves && l.reserves[attempt].ReserveFile?
    requires AtIntent(l.reserves[attempt].doc.state)
    ensures Consistent(l1)
  {
    forall a | a in l1.reserves && l1.reserves[a].ReserveFile? && ValidReserve(l1.reserves[a].doc, a)
      ensures ReserveKept(l1, a, l1.reserves[a].doc)
    {
      assert ReserveKept(l, a, l.reserves[a].doc);
      if a != attempt { assert a in l1.works <==> a in l1.works - {attempt}; }
    }
  }

  /** The reserve is at an intent, and nothing but its end state is missing. */
  predicate Releasing(l: Ledger, attempt: string, r: Reserve, end: ReserveState) {
    && attempt in l.reserves && l.reserves[attempt] == ReserveFile(r) && ValidReserve(r, attempt)
    && (   (r.state == AcceptanceIntent && end == ReserveAccepted)
        || (r.state == FailureDiscardIntent && end == FailureDiscarded))
  }

  /** What a state asks for, of a record that advances to it. */
  predicate MayAdvance(l: Ledger, attempt: string, r: Reserve, s: ReserveState) {
    match s
    case Staged => false
    case Ready => Succeeded(l, attempt, r) && attempt in l.works
    case AcceptanceIntent => r.state.Ready?
    case ReserveAccepted => r.state.AcceptanceIntent? && attempt !in l.works
    case FailureDiscardIntent => FailedBeforeDowntime(l, attempt, r)
    case FailureDiscarded => r.state.FailureDiscardIntent? && attempt !in l.works
  }

  lemma AdvanceIsKept(l: Ledger, attempt: string, r: Reserve, s: ReserveState)
    requires ReserveKept(l, attempt, r) && MayAdvance(l, attempt, r, s)
    ensures ReserveKept(l, attempt, Advance(r, s))
  {
    assert TxIs(l, attempt, r) ==> TxIs(l, attempt, Advance(r, s));
  }

  lemma AdvanceKeepsConsistent(l: Ledger, attempt: string, r: Reserve, s: ReserveState)
    requires Consistent(l) && MayAdvance(l, attempt, r, s)
    requires attempt in l.reserves && l.reserves[attempt] == ReserveFile(r) && ValidReserve(r, attempt)
    ensures Consistent(Stored(l, attempt, Advance(r, s)))
  {
    AdvanceIsKept(l, attempt, r, s);
    ReserveWriteKeepsConsistent(l, attempt, Advance(r, s));
  }

  lemma ConcludeKeepsConsistent(l: Ledger, attempt: string, r: Reserve, end: ReserveState)
    requires Consistent(l) && Releasing(l, attempt, r, end) && attempt !in l.works
    ensures Throughout(l, ConcludeRun(l, attempt, r, end), Consistent)
  {
    AdvanceKeepsConsistent(l, attempt, r, end);
  }

  lemma ReleasingWorkKeepsConsistent(l: Ledger, attempt: string, remains: int)
    requires Consistent(l)
    requires attempt in l.reserves && l.reserves[attempt].ReserveFile?
    requires AtIntent(l.reserves[attempt].doc.state)
    ensures Consistent(l.(works := l.works[attempt := WorkTree(remains, true)]))
    ensures Consistent(l.(works := l.works - {attempt}))
  {
    var torn, gone := l.works[attempt := WorkTree(remains, true)], l.works - {attempt};
    assert torn - {attempt} == l.works - {attempt} && gone - {attempt} == l.works - {attempt};
    WorkChangeKeepsConsistent(l, l.(works := torn), attempt);
    WorkChangeKeepsConsistent(l, l.(works := gone), attempt);
  }

  lemma ReleaseKeepsConsistent(l: Ledger, attempt: string, r: Reserve, end: ReserveState, remains: int)
    requires Consistent(l) && Releasing(l, attempt, r, end)
    ensures Throughout(l, ReleaseRun(l, attempt, r, end, remains), Consistent)
  {
    if attempt !in l.works {
      ConcludeKeepsConsistent(l, attempt, r, end);
    } else if l.works[attempt].WorkTree? && l.works[attempt].isPrivate {
      TreeReleaseKeepsConsistent(l, attempt, r, end, remains);
    }
  }

  lemma TreeReleaseKeepsConsistent(l: Ledger, attempt: string, r: Reserve, end: ReserveState, remains: int)
    requires Consistent(l) && Releasing(l, attempt, r, end)
    requires attempt in l.works && l.works[attempt].WorkTree? && l.works[attempt].isPrivate
    ensures Throughout(l, ReleaseRun(l, attempt, r, end, remains), Consistent)
  {
    var l1, l2 := l.(works := l.works[attempt := WorkTree(remains, true)]), l.(works := l.works - {attempt});
    ReleasingWorkKeepsConsistent(l, attempt, remains);
    ConcludeKeepsConsistent(l2, attempt, r, end);
    assert Throughout(l1, Step(l2, ConcludeRun(l2, attempt, r, end)), Consistent);
  }

  lemma CeremonyKeepsConsistent(
      l: Ledger, attempt: string, version: string, commit: string, baseline: string, content: int)
    requires Consistent(l)
    ensures Throughout(l, CeremonyRun(l, attempt, version, commit, baseline, content), Consistent)
  {
    if attempt !in l.reserves {
      var r := Reserve(2, attempt, true, commit, "v" + version, version, baseline, Staged, [Staged]);
      ReserveWriteKeepsConsistent(l, attempt, r);
      var l1 := Stored(l, attempt, r);
      var l2 := l1.(works := l1.works[attempt := WorkTree(content, true)]);
      forall a | a in l2.reserves && l2.reserves[a].ReserveFile? && ValidReserve(l2.reserves[a].doc, a)
        ensures ReserveKept(l2, a, l2.reserves[a].doc)
      {
        assert ReserveKept(l1, a, l1.reserves[a].doc);
      }
    }
  }

  /** Wherever the ceremony is cut off: a tree that it has made has its record, staged and readable. */
  lemma CeremonyRecordsFirst(
      l: Ledger, attempt: string, version: string, commit: string, baseline: string, content: int, writes: nat)
    requires attempt !in l.works
    ensures var cut := CutAfter(l, CeremonyRun(l, attempt, version, commit, baseline, content), writes).disk;
            attempt in cut.works ==> ReadReserve(cut, attempt).Found? && ReadReserve(cut, attempt).doc.state.Staged?
  {
    var run := CeremonyRun(l, attempt, version, commit, baseline, content);
    if run.Step? {
      if writes >= 1 { assert CutAfter(l, run, writes) == CutAfter(run.next, run.rest, writes - 1); }
      if writes >= 2 { assert CutAfter(l, run, writes) == CutAfter(run.rest.next, run.rest.rest, writes - 2); }
    }
  }

  lemma ReadyKeepsConsistent(l: Ledger, attempt: string)
    requires Consistent(l)
    ensures Throughout(l, ReadyRun(l, attempt), Consistent)
  {
    if ReadyRun(l, attempt).Step? {
      ReadyMeans(l, attempt);
      AdvanceKeepsConsistent(l, attempt, ReadReserve(l, attempt).doc, Ready);
    }
  }

  /** What authorizes a reserve to become ready. */
  lemma ReadyMeans(l: Ledger, attempt: string)
    requires ReadyRun(l, attempt).Step?
    ensures ReadReserve(l, attempt).Found? && ReadReserve(l, attempt).doc.state.Staged?
    ensures var r := ReadReserve(l, attempt).doc;
            && MayAdvance(l, attempt, r, Ready)
            && ReadyRun(l, attempt).next == Stored(l, attempt, Advance(r, Ready)) && ReadyRun(l, attempt).rest.Halt?
  {
  }

  lemma AcceptKeepsConsistent(l: Ledger, attempt: string, commit: string, tag: string, remains: int)
    requires Consistent(l)
    ensures Throughout(l, AcceptRun(l, attempt, commit, tag, remains), Consistent)
  {
    var found := ReadReserve(l, attempt);
    if found.Found? { AcceptReserveKeepsConsistent(l, attempt, found.doc, remains); }
  }

  lemma AcceptReserveKeepsConsistent(l: Ledger, attempt: string, r: Reserve, remains: int)
    requires Consistent(l) && ReadReserve(l, attempt) == Found(r)
    ensures Throughout(l, AcceptReserveRun(l, attempt, r, remains), Consistent)
  {
    if r.state == Ready {
      IntentKeepsConsistent(l, attempt, r, ReserveAccepted, remains);
    } else if r.state == AcceptanceIntent {
      ReleaseKeepsConsistent(l, attempt, r, ReserveAccepted, remains);
    }
  }

  lemma IntentKeepsConsistent(l: Ledger, attempt: string, r: Reserve, end: ReserveState, remains: int)
    requires Consistent(l) && ReadReserve(l, attempt) == Found(r)
    requires || (r.state.Ready? && end.ReserveAccepted?)
             || (r.state.Staged? && end.FailureDiscarded? && FailedBeforeDowntime(l, attempt, r))
    ensures var r1 := Advance(r, IntentFor(end)); var l1 := Stored(l, attempt, r1);
            Throughout(l, Step(l1, ReleaseRun(l1, attempt, r1, end, remains)), Consistent)
  {
    var r1 := Advance(r, IntentFor(end));
    AdvanceKeepsConsistent(l, attempt, r, IntentFor(end));
    AdvancedReserveIsValid(r, attempt, IntentFor(end));
    ReleaseKeepsConsistent(Stored(l, attempt, r1), attempt, r1, end, remains);
  }

  /** What authorizes a discard. */
  lemma DiscardableMeans(l: Ledger, attempt: string, commit: string, tag: string)
    requires DiscardableReserve(l, attempt, commit, tag).Found?
    ensures var r := DiscardableReserve(l, attempt, commit, tag).doc;
            ReadReserve(l, attempt) == Found(r) && FailedBeforeDowntime(l, attempt, r)
  {
  }

  lemma DiscardKeepsConsistent(l: Ledger, attempt: string, commit: string, tag: string, remains: int)
    requires Consistent(l)
    ensures Throughout(l, DiscardFailedRun(l, attempt, commit, tag, remains), Consistent)
  {
    var found := DiscardableReserve(l, attempt, commit, tag);
    if found.Found? {
      DiscardableMeans(l, attempt, commit, tag);
      DiscardRunKeepsConsistent(l, attempt, found.doc, remains);
    }
  }

  lemma DiscardRunKeepsConsistent(l: Ledger, attempt: string, r: Reserve, remains: int)
    requires Consistent(l) && ReadReserve(l, attempt) == Found(r) && FailedBeforeDowntime(l, attempt, r)
    ensures Throughout(l, DiscardRun(l, attempt, r, remains), Consistent)
  {
    if r.state == Staged {
      IntentKeepsConsistent(l, attempt, r, FailureDiscarded, remains);
    } else if r.state == FailureDiscardIntent {
      ReleaseKeepsConsistent(l, attempt, r, FailureDiscarded, remains);
    }
  }

  lemma OpKeepsConsistent(l: Ledger, op: Op)
    requires Consistent(l)
    ensures Throughout(l, OpRun(l, op), Consistent)
  {
    match op
    case Begin(a, version, commit, tag) => BeginKeepsConsistent(l, a, version, commit, tag);
    case Mark(a, phase, updates) => MarkKeepsConsistent(l, a, phase, updates);
    case Ceremony(a, version, commit, baseline, content) =>
      CeremonyKeepsConsistent(l, a, version, commit, baseline, content);
    case MakeReady(a) => ReadyKeepsConsistent(l, a);
    case Accept(a, commit, tag, remains) => AcceptKeepsConsistent(l, a, commit, tag, remains);
    case DiscardFailed(a, commit, tag, remains) => DiscardKeepsConsistent(l, a, commit, tag, remains);
  }

  /** Transactions and reserves agree in every state of every interrupted run. */
  lemma {:induction false} EveryRunIsConsistent(l: Ledger, schedule: seq<Call>)
    requires Consistent(l)
    ensures Consistent(After(l, schedule))
    decreases |schedule|
  {
    if schedule != [] {
      OpKeepsConsistent(l, schedule[0].op);
      CutKeeps(l, OpRun(l, schedule[0].op), schedule[0].writes, Consistent);
      EveryRunIsConsistent(CutAfter(l, OpRun(l, schedule[0].op), schedule[0].writes).disk, schedule[1..]);
    }
  }

  /******* What follows from it *******/

  /** A reserve on the way to acceptance cannot be discarded, and one on the way to discard not accepted. */
  lemma FatesExclude(l: Ledger, attempt: string, commit: string, tag: string, remains: int)
    requires Consistent(l) && ReadReserve(l, attempt).Found?
    ensures ForSuccess(ReadReserve(l, attempt).doc.state) ==>
              Refuses(DiscardFailedRun(l, attempt, commit, tag, remains))
    ensures ForFailure(ReadReserve(l, attempt).doc.state) ==> Refuses(AcceptRun(l, attempt, commit, tag, remains))
    ensures ForFailure(ReadReserve(l, attempt).doc.state) ==> Refuses(ReadyRun(l, attempt))
  {
    if ForSuccess(ReadReserve(l, attempt).doc.state) {
      SucceededIsNotDiscarded(l, attempt, commit, tag, remains);
    } else if ForFailure(ReadReserve(l, attempt).doc.state) {
      FailedIsNotAccepted(l, attempt, commit, tag, remains);
    }
  }

  lemma FailedIsNotAccepted(l: Ledger, attempt: string, commit: string, tag: string, remains: int)
    requires ReadReserve(l, attempt).Found? && ForFailure(ReadReserve(l, attempt).doc.state)
    ensures Refuses(AcceptRun(l, attempt, commit, tag, remains)) && Refuses(ReadyRun(l, attempt))
  {
  }

  predicate Refuses(run: Run<Ledger, LedgerOutcome>) { run.Halt? && run.outcome.Refused? }

  lemma SucceededIsNotDiscarded(l: Ledger, attempt: string, commit: string, tag: string, remains: int)
    requires Consistent(l) && ReadReserve(l, attempt).Found? && ForSuccess(ReadReserve(l, attempt).doc.state)
    ensures Refuses(DiscardFailedRun(l, attempt, commit, tag, remains))
  {
    assert Succeeded(l, attempt, ReadReserve(l, attempt).doc);
  }

  /** The record of a reserve is on the way to one of its ends. */
  predicate OnSide(l: Ledger, attempt: string, success: bool) {
    && ReadReserve(l, attempt).Found?
    && (if success then ForSuccess(ReadReserve(l, attempt).doc.state)
         else ForFailure(ReadReserve(l, attempt).doc.state))
  }

  ghost function KeepSide(attempt: string, success: bool): Ledger -> bool {
    l => OnSide(l, attempt, success)
  }

  lemma ReleaseKeepsSide(
      l: Ledger, attempt: string, r: Reserve, end: ReserveState, remains: int, a: string, success: bool)
    requires OnSide(l, a, success) && Releasing(l, attempt, r, end)
    ensures Throughout(l, ReleaseRun(l, attempt, r, end, remains), KeepSide(a, success))
  {
    var keep := KeepSide(a, success);
    var gone := l.(works := l.works - {attempt});
    AdvancedReserveIsValid(r, attempt, end);
    assert keep(Stored(gone, attempt, Advance(r, end))) && keep(gone);
    if attempt in l.works {
      assert keep(l.(works := l.works[attempt := WorkTree(remains, true)]));
      assert Throughout(gone, ConcludeRun(gone, attempt, r, end), keep);
    } else {
      assert gone == l;
    }
  }

  lemma IntentKeepsSide(
      l: Ledger, attempt: string, r: Reserve, end: ReserveState, remains: int, a: string, success: bool)
    requires OnSide(l, a, success) && ReadReserve(l, attempt) == Found(r)
    requires (r.state.Ready? && end.ReserveAccepted?) || (r.state.Staged? && end.FailureDiscarded?)
    ensures var r1 := Advance(r, IntentFor(end)); var l1 := Stored(l, attempt, r1);
            KeepSide(a, success)(l1) && Throughout(l1, ReleaseRun(l1, attempt, r1, end, remains), KeepSide(a, success))
  {
    var r1 := Advance(r, IntentFor(end));
    AdvancedReserveIsValid(r, attempt, IntentFor(end));
    ReleaseKeepsSide(Stored(l, attempt, r1), attempt, r1, end, remains, a, success);
  }

  lemma AcceptKeepsSide(
      l: Ledger, attempt: string, commit: string, tag: string, remains: int, a: string, success: bool)
    requires OnSide(l, a, success)
    ensures Throughout(l, AcceptRun(l, attempt, commit, tag, remains), KeepSide(a, success))
  {
    if ReadReserve(l, attempt).Found? {
      var r := ReadReserve(l, attempt).doc;
      if r.state.Ready? {
        IntentKeepsSide(l, attempt, r, ReserveAccepted, remains, a, success);
      } else if r.state.AcceptanceIntent? {
        ReleaseKeepsSide(l, attempt, r, ReserveAccepted, remains, a, success);
      }
    }
  }

  lemma DiscardKeepsSide(
      l: Ledger, attempt: string, commit: string, tag: string, remains: int, a: string, success: bool)
    requires OnSide(l, a, success)
    ensures Throughout(l, DiscardFailedRun(l, attempt, commit, tag, remains), KeepSide(a, success))
  {
    var found := DiscardableReserve(l, attempt, commit, tag);
    if found.Found? { DiscardRunKeepsSide(l, attempt, found.doc, remains, a, success); }
  }

  lemma DiscardRunKeepsSide(l: Ledger, attempt: string, r: Reserve, remains: int, a: string, success: bool)
    requires OnSide(l, a, success) && ReadReserve(l, attempt) == Found(r)
    ensures Throughout(l, DiscardRun(l, attempt, r, remains), KeepSide(a, success))
  {
    if r.state.Staged? {
      IntentKeepsSide(l, attempt, r, FailureDiscarded, remains, a, success);
    } else if r.state.FailureDiscardIntent? {
      ReleaseKeepsSide(l, attempt, r, FailureDiscarded, remains, a, success);
    }
  }

  lemma ReadyKeepsSide(l: Ledger, attempt: string, a: string, success: bool)
    requires OnSide(l, a, success)
    ensures Throughout(l, ReadyRun(l, attempt), KeepSide(a, success))
  {
    if ReadyRun(l, attempt).Step? {
      assert attempt != a;
      StoredElsewhere(l, attempt, Advance(ReadReserve(l, attempt).doc, Ready), a, success);
    }
  }

  lemma StoredElsewhere(l: Ledger, attempt: string, r: Reserve, a: string, success: bool)
    requires OnSide(l, a, success) && attempt != a
    ensures KeepSide(a, success)(Stored(l, attempt, r))
  {
  }

  lemma OpKeepsSide(l: Ledger, op: Op, a: string, success: bool)
    requires OnSide(l, a, success)
    ensures Throughout(l, OpRun(l, op), KeepSide(a, success))
  {
    match op
    case Begin(b, version, commit, tag) => BeginKeepsSide(l, b, version, commit, tag, a, success);
    case Mark(b, phase, updates) => MarkKeepsSide(l, b, phase, updates, a, success);
    case Ceremony(b, version, commit, baseline, content) =>
      CeremonyKeepsSide(l, b, version, commit, baseline, content, a, success);
    case MakeReady(b) => ReadyKeepsSide(l, b, a, success);
    case Accept(b, commit, tag, remains) => AcceptKeepsSide(l, b, commit, tag, remains, a, success);
    case DiscardFailed(b, commit, tag, remains) => DiscardKeepsSide(l, b, commit, tag, remains, a, success);
  }

  lemma MarkKeepsSide(l: Ledger, attempt: string, phase: Phase, updates: Facts, a: string, success: bool)
    requires OnSide(l, a, success)
    ensures Throughout(l, MarkRun(l, attempt, phase, updates), KeepSide(a, success))
  {
  }

  lemma CeremonyKeepsSide(
      l: Ledger, attempt: string, version: string, commit: string, baseline: string, content: int,
      a: string, success: bool)
    requires OnSide(l, a, success)
    ensures Throughout(l, CeremonyRun(l, attempt, version, commit, baseline, content), KeepSide(a, success))
  {
  }

  lemma BeginKeepsSide(
      l: Ledger, attempt: string, version: string, commit: string, tag: string, a: string, success: bool)
    requires OnSide(l, a, success)
    ensures Throughout(l, BeginRun(l, attempt, version, commit, tag), KeepSide(a, success))
  {
  }

  /**
    Whatever runs, and wherever it is cut off: a reserve on the way to one end stays on that way, and the other end is
    refused.
   */
  lemma {:induction false} FateIsSealed(
      l: Ledger, schedule: seq<Call>, attempt: string, success: bool, commit: string, tag: string, remains: int)
    requires Consistent(l) && OnSide(l, attempt, success)
    ensures var l' := After(l, schedule);
            && OnSide(l', attempt, success)
            && (if success then Refuses(DiscardFailedRun(l', attempt, commit, tag, remains))
                else Refuses(AcceptRun(l', attempt, commit, tag, remains)) && Refuses(ReadyRun(l', attempt)))
    decreases |schedule|
  {
    if schedule == [] {
      FatesExclude(l, attempt, commit, tag, remains);
    } else {
      var run, writes := OpRun(l, schedule[0].op), schedule[0].writes;
      OpKeepsConsistent(l, schedule[0].op);
      OpKeepsSide(l, schedule[0].op, attempt, success);
      CutKeeps(l, run, writes, Consistent);
      CutKeeps(l, run, writes, KeepSide(attempt, success));
      FateIsSealed(CutAfter(l, run, writes).disk, schedule[1..], attempt, success, commit, tag, remains);
    }
  }

  /** A reserve still holds the very tree it was made with, or an intent to release it is on record. */
  predicate TreeHeld(l: Ledger, attempt: string, tree: Work) {
    && attempt in l.reserves && l.reserves[attempt].ReserveFile? && ValidReserve(l.reserves[attempt].doc, attempt)
    && (l.reserves[attempt].doc.state.Staged? || l.reserves[attempt].doc.state.Ready? ==>
          attempt in l.works && l.works[attempt] == tree)
  }

  ghost function KeepTree(attempt: string, tree: Work): Ledger -> bool {
    l => TreeHeld(l, attempt, tree)
  }

  lemma ReleaseHoldsTree(l: Ledger, attempt: string, r: Reserve, end: ReserveState, remains: int, a: string, tree: Work)
    requires TreeHeld(l, a, tree) && Releasing(l, attempt, r, end)
    ensures Throughout(l, ReleaseRun(l, attempt, r, end, remains), KeepTree(a, tree))
  {
    var keep := KeepTree(a, tree);
    AdvancedReserveIsValid(r, attempt, end);
    var gone := l.(works := l.works - {attempt});
    if attempt in l.works {
      assert keep(l.(works := l.works[attempt := WorkTree(remains, true)])) && keep(gone);
      assert keep(Stored(gone, attempt, Advance(r, end)));
      assert Throughout(gone, ConcludeRun(gone, attempt, r, end), keep);
    } else {
      assert keep(Stored(l, attempt, Advance(r, end)));
    }
  }

  lemma IntentHoldsTree(l: Ledger, attempt: string, r: Reserve, end: ReserveState, remains: int, a: string, tree: Work)
    requires TreeHeld(l, a, tree) && ReadReserve(l, attempt) == Found(r)
    requires (r.state.Ready? && end.ReserveAccepted?) || (r.state.Staged? && end.FailureDiscarded?)
    ensures var r1 := Advance(r, IntentFor(end)); var l1 := Stored(l, attempt, r1);
            KeepTree(a, tree)(l1) && Throughout(l1, ReleaseRun(l1, attempt, r1, end, remains), KeepTree(a, tree))
  {
    var r1 := Advance(r, IntentFor(end));
    AdvancedReserveIsValid(r, attempt, IntentFor(end));
    ReleaseHoldsTree(Stored(l, attempt, r1), attempt, r1, end, remains, a, tree);
  }

  lemma OpHoldsTree(l: Ledger, op: Op, a: string, tree: Work)
    requires TreeHeld(l, a, tree)
    ensures Throughout(l, OpRun(l, op), KeepTree(a, tree))
  {
    match op
    case Begin(b, version, commit, tag) => BeginHoldsTree(l, b, version, commit, tag, a, tree);
    case Mark(b, phase, updates) =>
    case Ceremony(b, version, commit, baseline, content) =>
    case MakeReady(b) => ReadyHoldsTree(l, b, a, tree);
    case Accept(b, commit, tag, remains) => AcceptHoldsTree(l, b, commit, tag, remains, a, tree);
    case DiscardFailed(b, commit, tag, remains) => DiscardHoldsTree(l, b, commit, tag, remains, a, tree);
  }

  lemma BeginHoldsTree(l: Ledger, attempt: string, version: string, commit: string, tag: string, a: string, tree: Work)
    requires TreeHeld(l, a, tree)
    ensures Throughout(l, BeginRun(l, attempt, version, commit, tag), KeepTree(a, tree))
  {
  }

  lemma ReadyHoldsTree(l: Ledger, attempt: string, a: string, tree: Work)
    requires TreeHeld(l, a, tree)
    ensures Throughout(l, ReadyRun(l, attempt), KeepTree(a, tree))
  {
    if ReadReserve(l, attempt).Found? { AdvancedReserveIsValid(ReadReserve(l, attempt).doc, attempt, Ready); }
  }

  lemma AcceptHoldsTree(l: Ledger, attempt: string, commit: string, tag: string, remains: int, a: string, tree: Work)
    requires TreeHeld(l, a, tree)
    ensures Throughout(l, AcceptRun(l, attempt, commit, tag, remains), KeepTree(a, tree))
  {
    if ReadReserve(l, attempt).Found? {
      var r := ReadReserve(l, attempt).doc;
      if r.state.Ready? {
        IntentHoldsTree(l, attempt, r, ReserveAccepted, remains, a, tree);
      } else if r.state.AcceptanceIntent? {
        ReleaseHoldsTree(l, attempt, r, ReserveAccepted, remains, a, tree);
      }
    }
  }

  lemma DiscardHoldsTree(l: Ledger, attempt: string, commit: string, tag: string, remains: int, a: string, tree: Work)
    requires TreeHeld(l, a, tree)
    ensures Throughout(l, DiscardFailedRun(l, attempt, commit, tag, remains), KeepTree(a, tree))
  {
    var found := DiscardableReserve(l, attempt, commit, tag);
    if found.Found? { DiscardRunHoldsTree(l, attempt, found.doc, remains, a, tree); }
  }

  lemma DiscardRunHoldsTree(l: Ledger, attempt: string, r: Reserve, remains: int, a: string, tree: Work)
    requires TreeHeld(l, a, tree) && ReadReserve(l, attempt) == Found(r)
    ensures Throughout(l, DiscardRun(l, attempt, r, remains), KeepTree(a, tree))
  {
    if r.state.Staged? {
      IntentHoldsTree(l, attempt, r, FailureDiscarded, remains, a, tree);
    } else if r.state.FailureDiscardIntent? {
      ReleaseHoldsTree(l, attempt, r, FailureDiscarded, remains, a, tree);
    }
  }

  /** In every state of every interrupted run: a reserve loses its tree only after its intent is on record. */
  lemma {:induction false} TreeGoesOnlyAfterIntent(l: Ledger, schedule: seq<Call>, a: string, tree: Work)
    requires TreeHeld(l, a, tree)
    ensures TreeHeld(After(l, schedule), a, tree)
    decreases |schedule|
  {
    if schedule != [] {
      OpHoldsTree(l, schedule[0].op, a, tree);
      CutKeeps(l, OpRun(l, schedule[0].op), schedule[0].writes, KeepTree(a, tree));
      TreeGoesOnlyAfterIntent(CutAfter(l, OpRun(l, schedule[0].op), schedule[0].writes).disk, schedule[1..], a, tree);
    }
  }

  /** A failed attempt may give up its staged reserve exactly between a complete backup and the start of downtime. */
  lemma DiscardAuthority(l: Ledger, attempt: string, commit: string, tag: string, remains: int)
    requires ReadReserve(l, attempt).Found? && ReadReserve(l, attempt).doc.state.Staged?
    ensures DiscardFailedRun(l, attempt, commit, tag, remains).Step? <==>
              && ReadReserve(l, attempt).doc.commit == commit && ReadReserve(l, attempt).doc.tag == tag
              && ReadTx(l, attempt).Found? && SameIdentity(ReadTx(l, attempt).doc, ReadReserve(l, attempt).doc)
              && exists n: nat, ns: seq<nat> ::
                   5 <= n <= 8 && Shape(ReadTx(l, attempt).doc.history, n, ns, [DiagnosticFailure])
  {
    DiscardGates(l, attempt, commit, tag, remains);
    if ReadTx(l, attempt).Found? && SameIdentity(ReadTx(l, attempt).doc, ReadReserve(l, attempt).doc) {
      FailureBeforeDowntime(ReadTx(l, attempt).doc, attempt);
    }
  }

  lemma DiscardGates(l: Ledger, attempt: string, commit: string, tag: string, remains: int)
    requires ReadReserve(l, attempt).Found? && ReadReserve(l, attempt).doc.state.Staged?
    ensures DiscardFailedRun(l, attempt, commit, tag, remains).Step? <==>
              && ReadReserve(l, attempt).doc.commit == commit && ReadReserve(l, attempt).doc.tag == tag
              && DiscardAllowed(l, attempt, ReadReserve(l, attempt).doc)
  {
  }

  lemma FailureBeforeDowntime(tx: Tx, attempt: string)
    requires ValidTx(tx, attempt) && PreviousVersion in tx.facts
    ensures (tx.phase == DiagnosticFailure && DowntimeStarted !in tx.history) <==>
              exists n: nat, ns: seq<nat> :: 5 <= n <= 8 && Shape(tx.history, n, ns, [DiagnosticFailure])
    ensures DowntimeBegun in tx.facts <==> DowntimeStarted in tx.history
  {
    FailureShape(tx.history);
  }

  lemma FailureShape(history: seq<Phase>)
    requires ValidHistory(history) && BackupComplete in history
    ensures (history[|history| - 1] == DiagnosticFailure && DowntimeStarted !in history) <==>
              exists n: nat, ns: seq<nat> :: 5 <= n <= 8 && Shape(history, n, ns, [DiagnosticFailure])
  {
    var n, ns, end := ValidHistoryHasShape(history);
    PhaseReached(history, n, ns, end, 4);
    PhaseReached(history, n, ns, end, 8);
    if history[|history| - 1] == DiagnosticFailure && DowntimeStarted !in history {
      assert end == [DiagnosticFailure] by { assert end[0] == history[|history| - 1]; }
    }
    if n': nat, ns': seq<nat> :| 5 <= n' <= 8 && Shape(history, n', ns', [DiagnosticFailure]) {
      ShapedFailure(history, n', ns');
    }
  }

  lemma ShapedFailure(history: seq<Phase>, n: nat, ns: seq<nat>)
    requires n <= 8 && Shape(history, n, ns, [DiagnosticFailure])
    ensures history != [] && history[|history| - 1] == DiagnosticFailure && DowntimeStarted !in history
  {
    PhaseReached(history, n, ns, [DiagnosticFailure], 8);
  }

  /******* Interrupted releases *******/

  /** The call that releases a reserve towards one of its two ends. */
  function RunTo(end: ReserveState, l: Ledger, attempt: string, commit: string, tag: string, remains: int)
    : Run<Ledger, LedgerOutcome>
  {
    if end.ReserveAccepted? then AcceptRun(l, attempt, commit, tag, remains)
    else DiscardFailedRun(l, attempt, commit, tag, remains)
  }

  /** The work tree of a reserve may be released: it is gone or still its own private tree. */
  predicate Releasable(l: Ledger, attempt: string) {
    attempt in l.works ==> l.works[attempt].WorkTree? && l.works[attempt].isPrivate
  }

  predicate DiscardAllowed(l: Ledger, attempt: string, r: Reserve) {
    && ReadTx(l, attempt).Found? && SameIdentity(ReadTx(l, attempt).doc, r)
    && ReadTx(l, attempt).doc.phase == DiagnosticFailure
    && DowntimeStarted !in ReadTx(l, attempt).doc.history && DowntimeBegun !in ReadTx(l, attempt).doc.facts
  }

  /** On the way to an end: what the calls that release a reserve keep from cut to cut. */
  predicate OnItsWay(l: Ledger, attempt: string, commit: string, tag: string, end: ReserveState) {
    && (end.ReserveAccepted? || end.FailureDiscarded?)
    && ReadReserve(l, attempt).Found?
    && var r := ReadReserve(l, attempt).doc;
    && r.commit == commit && r.tag == tag
    && (if end.ReserveAccepted? then ForSuccess(r.state)
        else (r.state.Staged? || ForFailure(r.state)) && DiscardAllowed(l, attempt, r))
    && Releasable(l, attempt)
    && (r.state == end ==> attempt !in l.works)
  }

  ghost function KeepOnItsWay(attempt: string, commit: string, tag: string, end: ReserveState): Ledger -> bool {
    l => OnItsWay(l, attempt, commit, tag, end)
  }

  function IntentFor(end: ReserveState): ReserveState {
    if end.ReserveAccepted? then AcceptanceIntent else FailureDiscardIntent
  }

  /** Where a reserve stands once it is released to its end. */
  predicate Released(l: Ledger, attempt: string, end: ReserveState) {
    ReadReserve(l, attempt).Found? && ReadReserve(l, attempt).doc.state == end && attempt !in l.works
  }

  lemma AdvanceStaysOnItsWay(
      l: Ledger, attempt: string, r: Reserve, commit: string, tag: string, end: ReserveState, s: ReserveState)
    requires OnItsWay(l, attempt, commit, tag, end) && r == ReadReserve(l, attempt).doc
    requires (s == IntentFor(end) && Moves(r.state, s)) ||
              (r.state == IntentFor(end) && s == end && attempt !in l.works)
    ensures OnItsWay(Stored(l, attempt, Advance(r, s)), attempt, commit, tag, end)
    ensures ReadReserve(Stored(l, attempt, Advance(r, s)), attempt).doc == Advance(r, s)
  {
    AdvancedReserveIsValid(r, attempt, s);
    assert ReadTx(Stored(l, attempt, Advance(r, s)), attempt) == ReadTx(l, attempt);
  }

  lemma WorkChangeStaysOnItsWay(
      l: Ledger, works: map<string, Work>, attempt: string, commit: string, tag: string, end: ReserveState)
    requires OnItsWay(l, attempt, commit, tag, end) && ReadReserve(l, attempt).doc.state != end
    requires Releasable(l.(works := works), attempt)
    ensures OnItsWay(l.(works := works), attempt, commit, tag, end)
    ensures ReadReserve(l.(works := works), attempt) == ReadReserve(l, attempt)
  {
    assert ReadTx(l.(works := works), attempt) == ReadTx(l, attempt);
  }

  lemma ReleaseReaches(
      l: Ledger, attempt: string, r: Reserve, commit: string, tag: string, end: ReserveState, remains: int)
    requires OnItsWay(l, attempt, commit, tag, end) && r == ReadReserve(l, attempt).doc && r.state == IntentFor(end)
    ensures Throughout(l, ReleaseRun(l, attempt, r, end, remains), KeepOnItsWay(attempt, commit, tag, end))
    ensures var (l', outcome) := Complete(l, ReleaseRun(l, attempt, r, end, remains));
            outcome.Answer? && Released(l', attempt, end)
  {
    var keep := KeepOnItsWay(attempt, commit, tag, end);
    if attempt in l.works {
      var torn, gone := l.works[attempt := WorkTree(remains, true)], l.works - {attempt};
      WorkChangeStaysOnItsWay(l, torn, attempt, commit, tag, end);
      WorkChangeStaysOnItsWay(l, gone, attempt, commit, tag, end);
      ConcludeReaches(l.(works := gone), attempt, r, commit, tag, end);
      assert keep(l.(works := torn)) && keep(l.(works := gone));
    } else {
      ConcludeReaches(l, attempt, r, commit, tag, end);
    }
  }

  lemma ConcludeReaches(l: Ledger, attempt: string, r: Reserve, commit: string, tag: string, end: ReserveState)
    requires OnItsWay(l, attempt, commit, tag, end) && r == ReadReserve(l, attempt).doc && r.state == IntentFor(end)
    requires attempt !in l.works
    ensures Throughout(l, ConcludeRun(l, attempt, r, end), KeepOnItsWay(attempt, commit, tag, end))
    ensures var (l', outcome) := Complete(l, ConcludeRun(l, attempt, r, end));
            outcome.Answer? && Released(l', attempt, end)
  {
    AdvanceStaysOnItsWay(l, attempt, r, commit, tag, end, end);
    assert KeepOnItsWay(attempt, commit, tag, end)(Stored(l, attempt, Advance(r, end)));
  }

  /** A call towards the end stays on its way wherever it is cut, and reaches the end if it is not. */
  lemma CallReaches(l: Ledger, attempt: string, commit: string, tag: string, end: ReserveState, remains: int)
    requires OnItsWay(l, attempt, commit, tag, end)
    ensures Throughout(l, RunTo(end, l, attempt, commit, tag, remains), KeepOnItsWay(attempt, commit, tag, end))
    ensures var (l', outcome) := Complete(l, RunTo(end, l, attempt, commit, tag, remains));
            outcome.Answer? && Released(l', attempt, end)
  {
    var r := ReadReserve(l, attempt).doc;
    if r.state == IntentFor(end) {
      ReleaseReaches(l, attempt, r, commit, tag, end, remains);
    } else if r.state != end {
      var r1 := Advance(r, IntentFor(end));
      AdvanceStaysOnItsWay(l, attempt, r, commit, tag, end, IntentFor(end));
      ReleaseReaches(Stored(l, attempt, r1), attempt, r1, commit, tag, end, remains);
    }
  }

  /** What is left of such calls, one after the other, each cut off after its number of writes. */
  function AfterCuts(
      end: ReserveState, l: Ledger, attempt: string, commit: string, tag: string, cuts: seq<(nat, int)>): Ledger
    decreases |cuts|
  {
    if cuts == [] then l
    else
      var cut := CutAfter(l, RunTo(end, l, attempt, commit, tag, cuts[0].1), cuts[0].0);
      AfterCuts(end, cut.disk, attempt, commit, tag, cuts[1..])
  }

  /** However often an acceptance or a discard is cut off, running it once more ends it: recorded, and the tree gone. */
  lemma {:induction false} InterruptedReleaseCanBeRerun(
      l: Ledger, attempt: string, commit: string, tag: string, end: ReserveState, cuts: seq<(nat, int)>, remains: int)
    requires OnItsWay(l, attempt, commit, tag, end)
    ensures var l' := AfterCuts(end, l, attempt, commit, tag, cuts);
            var (l'', outcome) := Complete(l', RunTo(end, l', attempt, commit, tag, remains));
            outcome.Answer? && Released(l'', attempt, end)
    decreases |cuts|
  {
    if cuts == [] {
      CallReaches(l, attempt, commit, tag, end, remains);
    } else {
      var cut := CutAfter(l, RunTo(end, l, attempt, commit, tag, cuts[0].1), cuts[0].0);
      CutStaysOnItsWay(l, attempt, commit, tag, end, cuts[0].0, cuts[0].1);
      InterruptedReleaseCanBeRerun(cut.disk, attempt, commit, tag, end, cuts[1..], remains);
    }
  }

  lemma CutStaysOnItsWay(
      l: Ledger, attempt: string, commit: string, tag: string, end: ReserveState, writes: nat, remains: int)
    requires OnItsWay(l, attempt, commit, tag, end)
    ensures OnItsWay(CutAfter(l, RunTo(end, l, attempt, commit, tag, remains), writes).disk, attempt, commit, tag, end)
  {
    CallReaches(l, attempt, commit, tag, end, remains);
    CutKeeps(l, RunTo(end, l, attempt, commit, tag, remains), writes, KeepOnItsWay(attempt, commit, tag, end));
  }
}
