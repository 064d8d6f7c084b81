/**
  The per-attempt update transaction of backend/runtime_store.py: its phases, the
  facts each phase records, what a reader accepts and what a writer may append.
 */
module UpdateJournal {
  import opened Names
  import opened Splitting

  /******* Phases *******/

  datatype Phase =
    | Begun | OwnershipIntent | OwnershipComplete | BackupIntent | BackupComplete
    | CandidateIntent | CandidateReady | DowntimeIntent | DowntimeStarted
    | ConversionIntent | ConversionComplete | TrustIntent | TrustComplete
    | ActivationIntent | Activated | DeployIntent | Deployed
    | ServiceStartIntent | ServiceStarted | HealthVerified
    | RollbackStarted | RuntimeRestored | FilesRestored | ServiceRestoreIntent
    | RolledBack | DiagnosticFailure | Success
    | Unsupported(name: string)

  /** The normal sequence, phase by phase; the last one is success. */
  const NORMAL_LENGTH := 21

  function NormalPhase(i: nat): Phase {
    match i
    case 0 => Begun
    case 1 => OwnershipIntent
    case 2 => OwnershipComplete
    case 3 => BackupIntent
    case 4 => BackupComplete
    case 5 => CandidateIntent
    case 6 => CandidateReady
    case 7 => DowntimeIntent
    case 8 => DowntimeStarted
    case 9 => ConversionIntent
    case 10 => ConversionComplete
    case 11 => TrustIntent
    case 12 => TrustComplete
    case 13 => ActivationIntent
    case 14 => Activated
    case 15 => DeployIntent
    case 16 => Deployed
    case 17 => ServiceStartIntent
    case 18 => ServiceStarted
    case 19 => HealthVerified
    case _ => Success
  }

  function RollbackPhase(i: nat): Phase {
    match i
    case 0 => RollbackStarted
    case 1 => RuntimeRestored
    case 2 => FilesRestored
    case _ => ServiceRestoreIntent
  }

  /** The first n phases of the normal sequence. */
  function Normal(n: nat): (r: seq<Phase>)
    ensures |r| == n
  {
    if n == 0 then [] else Normal(n - 1) + [NormalPhase(n - 1)]
  }

  lemma {:induction false} NormalAt(n: nat, i: nat)
    requires i < n
    ensures Normal(n)[i] == NormalPhase(i)
  {
    if i < n - 1 { NormalAt(n - 1, i); }
  }

  predicate InRollback(p: Phase) {
    p.RollbackStarted? || p.RuntimeRestored? || p.FilesRestored? || p.ServiceRestoreIntent?
  }

  predicate Terminal(p: Phase) { p.RolledBack? || p.DiagnosticFailure? || p.Success? }

  /** The entry of the transition table for a phase, if it has one. */
  function Following(p: Phase): set<Phase> {
    match p
    case Begun => {OwnershipIntent}
    case OwnershipIntent => {OwnershipComplete}
    case OwnershipComplete => {BackupIntent}
    case BackupIntent => {BackupComplete}
    case BackupComplete => {CandidateIntent}
    case CandidateIntent => {CandidateReady}
    case CandidateReady => {DowntimeIntent}
    case DowntimeIntent => {DowntimeStarted}
    case DowntimeStarted => {ConversionIntent}
    case ConversionIntent => {ConversionComplete}
    case ConversionComplete => {TrustIntent}
    case TrustIntent => {TrustComplete}
    case TrustComplete => {ActivationIntent}
    case ActivationIntent => {Activated}
    case Activated => {DeployIntent}
    case DeployIntent => {Deployed}
    case Deployed => {ServiceStartIntent}
    case ServiceStartIntent => {ServiceStarted}
    case ServiceStarted => {HealthVerified}
    case HealthVerified => {Success}
    case RollbackStarted => {RuntimeRestored, DiagnosticFailure}
    case RuntimeRestored => {FilesRestored, DiagnosticFailure}
    case FilesRestored => {ServiceRestoreIntent, DiagnosticFailure}
    case ServiceRestoreIntent => {RolledBack, DiagnosticFailure}
    case _ => {}
  }

  /** `_allowed_update_successors`. */
  function Successors(p: Phase): set<Phase> {
    if Terminal(p) then {} else Following(p) + {DiagnosticFailure, RollbackStarted}
  }

  /******* Facts *******/

  datatype FactKey =
    | BackupDir | PreviousVersion | CandidateId | PreviousRuntime
    | ConvertedByAttempt | ActivationDone | TrustDone | DowntimeBegun
    | UnknownFact(name: string)

  /** A recorded value; `Other` is any value that is neither text nor boolean, with its printed form. */
  datatype Fact = Text(text: string) | Bool(flag: bool) | Other(printed: string)

  type Facts = map<FactKey, Fact>

  const FACT_KEYS: set<FactKey> := {
    BackupDir, PreviousVersion, CandidateId, PreviousRuntime, ConvertedByAttempt, ActivationDone, TrustDone,
    DowntimeBegun}

  /** The one phase at which a fact is recorded. */
  function FactPhase(k: FactKey): Phase {
    match k
    case BackupDir => BackupIntent
    case PreviousVersion => BackupComplete
    case CandidateId => CandidateIntent
    case ConvertedByAttempt => ConversionIntent
    case TrustDone => TrustComplete
    case PreviousRuntime => ActivationIntent
    case ActivationDone => Activated
    case DowntimeBegun => DowntimeStarted
    case UnknownFact(name) => Unsupported(name)
  }

  function Printed(f: Fact): string {
    match f
    case Text(t) => t
    case Bool(b) => if b then "True" else "False"
    case Other(p) => p
  }

  predicate Digits(s: string) { forall i :: 0 <= i < |s| ==> '0' <= s[i] <= '9' }

  /** The zeros of the scripts with decimal digits, as of Unicode 14.0; the other nine digits follow each zero. */
  const ZEROS: set<int> := {
    0x30, 0x660, 0x6F0, 0x7C0, 0x966, 0x9E6, 0xA66, 0xAE6, 0xB66, 0xBE6, 0xC66, 0xCE6, 0xD66, 0xDE6, 0xE50,
    0xED0, 0xF20, 0x1040, 0x1090, 0x17E0, 0x1810, 0x1946, 0x19D0, 0x1A80, 0x1A90, 0x1B50, 0x1BB0, 0x1C40,
    0x1C50, 0xA620, 0xA8D0, 0xA900, 0xA9D0, 0xA9F0, 0xAA50, 0xABF0, 0xFF10, 0x104A0, 0x10D30, 0x11066, 0x110F0,
    0x11136, 0x111D0, 0x112F0, 0x11450, 0x114D0, 0x11650, 0x116C0, 0x11730, 0x118E0, 0x11950, 0x11C50, 0x11D50,
    0x11DA0, 0x16A60, 0x16AC0, 0x16B50, 0x1D7CE, 0x1D7D8, 0x1D7E2, 0x1D7EC, 0x1D7F6, 0x1E140, 0x1E2F0, 0x1E950,
    0x1FBF0}

  /** The digits that `\d` stands for. */
  predicate DecimalDigit(c: char) { exists zero :: zero in ZEROS && zero <= c as int < zero + 10 }

  /** Three runs of decimal digits joined by dots. */
  predicate Version(s: string) {
    var parts := Split(s, '.');
    |parts| == 3
    && forall i :: 0 <= i < 3 ==> parts[i] != "" && forall j :: 0 <= j < |parts[i]| ==> DecimalDigit(parts[i][j])
  }

  /** A version written in ASCII. */
  predicate AsciiVersion(s: string) {
    Version(s) && forall i :: 0 <= i < |s| ==> s[i] == '.' || '0' <= s[i] <= '9'
  }

  predicate Commit(s: string) { |s| == 40 && AllLowerHex(s) }

  const BACKUP_ROOT := "/var/backups/conduit-cc"

  /** `<root>/<8 digits>-<6 digits>-<attempt>`: a backup directory bound to its attempt. */
  predicate BackupOf(dir: string, attempt: string) {
    var k := |BACKUP_ROOT| + 1;
    && |dir| == k + 16 + |attempt|
    && dir[..k] == BACKUP_ROOT + "/"
    && Digits(dir[k..k + 8]) && dir[k + 8] == '-' && Digits(dir[k + 9..k + 15]) && dir[k + 15] == '-'
    && dir[k + 16..] == attempt
  }

  predicate KnownFacts(facts: Facts) { forall k :: k in facts ==> !k.UnknownFact? }

  /** `_validate_update_facts`. */
  predicate ValidFacts(facts: Facts) {
    && KnownFacts(facts)
    && (CandidateId in facts ==> FullId(Printed(facts[CandidateId])))
    && (PreviousRuntime in facts ==> FullId(Printed(facts[PreviousRuntime])))
    && (ConvertedByAttempt in facts ==> facts[ConvertedByAttempt].Bool?)
    && (ActivationDone in facts ==> facts[ActivationDone].Bool?)
    && (TrustDone in facts ==> facts[TrustDone].Bool?)
    && (DowntimeBegun in facts ==> facts[DowntimeBegun].Bool?)
    && (BackupDir in facts ==>
          facts[BackupDir].Text? && facts[BackupDir].text != "" && facts[BackupDir].text[0] == '/'
          && forall i :: 0 <= i < |facts[BackupDir].text| ==> 32 <= facts[BackupDir].text[i] as int)
    && (PreviousVersion in facts ==> facts[PreviousVersion].Text? && Version(facts[PreviousVersion].text))
  }

  /** `_validate_attempt_backup_fact`. */
  predicate BackupBound(facts: Facts, attempt: string) {
    BackupDir in facts ==> facts[BackupDir].Text? && BackupOf(facts[BackupDir].text, attempt)
  }

  /******* The document *******/

  datatype Tx = Tx(
    schema: int, attempt: string, version: string, commit: string, tag: string,
    phase: Phase, history: seq<Phase>, facts: Facts)

  /** Each phase of the history is an allowed successor of the one before it. */
  predicate Chained(history: seq<Phase>) {
    forall i :: 0 <= i < |history| - 1 ==> history[i + 1] in Successors(history[i])
  }

  predicate ValidHistory(history: seq<Phase>) {
    && history != [] && history[0] == Begun
    && (forall i :: 0 <= i < |history| ==> !history[i].Unsupported?)
    && Chained(history)
  }

  predicate FactsMatchHistory(facts: Facts, history: seq<Phase>) {
    && (BackupDir in facts <==> BackupIntent in history)
    && (PreviousVersion in facts <==> BackupComplete in history)
    && (CandidateId in facts <==> CandidateIntent in history)
    && (ConvertedByAttempt in facts <==> ConversionIntent in history)
    && (TrustDone in facts <==> TrustComplete in history)
    && (PreviousRuntime in facts <==> ActivationIntent in history)
    && (ActivationDone in facts <==> Activated in history)
    && (DowntimeBegun in facts <==> DowntimeStarted in history)
  }

  /** The facts a phase must bring are among the updates. */
  predicate BringsItsFacts(phase: Phase, updates: Facts) {
    && (phase.BackupIntent? ==> BackupDir in updates)
    && (phase.BackupComplete? ==> PreviousVersion in updates)
    && (phase.CandidateIntent? ==> CandidateId in updates)
    && (phase.ConversionIntent? ==> ConvertedByAttempt in updates)
    && (phase.TrustComplete? ==> TrustDone in updates)
    && (phase.ActivationIntent? ==> PreviousRuntime in updates)
    && (phase.Activated? ==> ActivationDone in updates)
    && (phase.DowntimeStarted? ==> DowntimeBegun in updates)
  }

  /** The two tables above are `FactPhase`, read in either direction. */
  lemma FactTables(k: FactKey, facts: Facts, history: seq<Phase>, phase: Phase)
    requires !k.UnknownFact?
    ensures FactsMatchHistory(facts, history) ==> (k in facts <==> FactPhase(k) in history)
    ensures BringsItsFacts(phase, facts) && FactPhase(k) == phase ==> k in facts
  {
    match k {
      case BackupDir =>
      case PreviousVersion =>
      case CandidateId =>
      case PreviousRuntime =>
      case ConvertedByAttempt =>
      case ActivationDone =>
      case TrustDone =>
      case DowntimeBegun =>
    }
  }

  /** `_validate_update_attempt`. */
  predicate ValidTx(doc: Tx, attempt: string) {
    && doc.schema == 1 && doc.attempt == attempt
    && Version(doc.version) && Commit(doc.commit) && doc.tag == "v" + doc.version
    && ValidHistory(doc.history) && doc.history[|doc.history| - 1] == doc.phase
    && ValidFacts(doc.facts) && BackupBound(doc.facts, attempt)
    && FactsMatchHistory(doc.facts, doc.history)
  }

  datatype TxError =
    | BadAttempt | BadVersion | BadCommit | BadTag | TxUnreadable | AttemptCollision
    | UnsupportedPhase | UnknownFacts | FactAtWrongPhase | BadFacts | FactChanged | BackupNotBound
    | RetryAddsFacts | TerminalTx | BadTransition | FactsMissing

  datatype TxResult = Accepted(doc: Tx) | Rejected(error: TxError)

  /** A new transaction document. */
  function NewTx(attempt: string, version: string, commit: string, tag: string): Tx {
    Tx(1, attempt, version, commit, tag, Begun, [Begun], map[])
  }

  /** `begin_update_attempt`, up to the write: the document for a well-formed identity. */
  function BeginTx(attempt: string, version: string, commit: string, tag: string): TxResult {
    if !AttemptId(attempt) then Rejected(BadAttempt)
    else if !Version(version) then Rejected(BadVersion)
    else if !Commit(commit) then Rejected(BadCommit)
    else if tag != "v" + version then Rejected(BadTag)
    else Accepted(NewTx(attempt, version, commit, tag))
  }

  predicate Agree(facts: Facts, updates: Facts) {
    forall k :: k in updates && k in facts ==> facts[k] == updates[k]
  }

  /** `mark_update_attempt` on the document it read: the document to store (unchanged on a retry), or the refusal. */
  function MarkTx(doc: Tx, phase: Phase, updates: Facts): TxResult {
    var facts := doc.facts + updates;
    if phase.Unsupported? then Rejected(UnsupportedPhase)
    else if !KnownFacts(updates) then Rejected(UnknownFacts)
    else if exists k :: k in updates && FactPhase(k) != phase then Rejected(FactAtWrongPhase)
    else if !ValidFacts(updates) then Rejected(BadFacts)
    else if !Agree(doc.facts, updates) then Rejected(FactChanged)
    else if !BackupBound(facts, doc.attempt) then Rejected(BackupNotBound)
    else if phase == doc.phase then (if facts == doc.facts then Accepted(doc) else Rejected(RetryAddsFacts))
    else if Terminal(doc.phase) then Rejected(TerminalTx)
    else if phase !in Successors(doc.phase) then Rejected(BadTransition)
    else if !BringsItsFacts(phase, updates) then Rejected(FactsMissing)
    else Accepted(doc.(history := doc.history + [phase], phase := phase, facts := facts))
  }

  /******* Closure *******/

  lemma BegunTxIsValid(attempt: string, version: string, commit: string, tag: string)
    requires BeginTx(attempt, version, commit, tag).Accepted?
    ensures ValidTx(BeginTx(attempt, version, commit, tag).doc, attempt)
  {
  }

  /** What a step of a transaction may change: phases are appended, facts are added, the identity stays. */
  predicate Extends(before: Tx, after: Tx) {
    && after.schema == before.schema && after.attempt == before.attempt
    && after.version == before.version && after.commit == before.commit && after.tag == before.tag
    && before.history <= after.history
    && before.facts.Keys <= after.facts.Keys
    && (forall k :: k in before.facts ==> after.facts[k] == before.facts[k])
    && (Terminal(before.phase) ==> after == before)
  }

  lemma ValidFactsUnion(a: Facts, b: Facts)
    requires ValidFacts(a) && ValidFacts(b)
    ensures ValidFacts(a + b)
  {
  }

  /** Every accepted mark of a valid transaction is a valid transaction again. */
  lemma MarkedTxIsValid(doc: Tx, phase: Phase, updates: Facts)
    requires ValidTx(doc, doc.attempt) && MarkTx(doc, phase, updates).Accepted?
    ensures ValidTx(MarkTx(doc, phase, updates).doc, doc.attempt)
    ensures Extends(doc, MarkTx(doc, phase, updates).doc)
  {
    if phase != doc.phase {
      AppendedTxIsValid(doc, phase, updates);
      AppendingExtends(doc, phase, updates);
    }
  }

  lemma AppendedTxIsValid(doc: Tx, phase: Phase, updates: Facts)
    requires ValidTx(doc, doc.attempt) && phase in Successors(doc.phase) && !phase.Unsupported?
    requires ValidFacts(updates) && BackupBound(doc.facts + updates, doc.attempt)
    requires BringsItsFacts(phase, updates) && forall k :: k in updates ==> FactPhase(k) == phase
    ensures ValidTx(doc.(history := doc.history + [phase], phase := phase, facts := doc.facts + updates), doc.attempt)
  {
    ValidFactsUnion(doc.facts, updates);
    HistoryGrows(doc.history, phase);
    MatchingFactsGrow(doc.facts, updates, doc.history, phase);
  }

  lemma HistoryGrows(history: seq<Phase>, phase: Phase)
    requires ValidHistory(history) && phase in Successors(history[|history| - 1]) && !phase.Unsupported?
    ensures ValidHistory(history + [phase])
  {
    var h := history + [phase];
    forall i | 0 <= i < |h| - 1 ensures h[i + 1] in Successors(h[i]) {
      if i < |history| - 1 { assert h[i + 1] == history[i + 1]; }
    }
  }

  lemma AppendingExtends(doc: Tx, phase: Phase, updates: Facts)
    requires Agree(doc.facts, updates) && !Terminal(doc.phase)
    ensures Extends(doc, doc.(history := doc.history + [phase], phase := phase, facts := doc.facts + updates))
  {
  }

  lemma MatchingFactsGrow(facts: Facts, updates: Facts, history: seq<Phase>, phase: Phase)
    requires FactsMatchHistory(facts, history) && BringsItsFacts(phase, updates)
    requires forall k :: k in updates ==> FactPhase(k) == phase
    ensures FactsMatchHistory(facts + updates, history + [phase])
  {
    MatchingFactGrows(BackupDir, facts, updates, history, phase);
    MatchingFactGrows(PreviousVersion, facts, updates, history, phase);
    MatchingFactGrows(CandidateId, facts, updates, history, phase);
    MatchingFactGrows(ConvertedByAttempt, facts, updates, history, phase);
    MatchingFactGrows(TrustDone, facts, updates, history, phase);
    MatchingFactGrows(PreviousRuntime, facts, updates, history, phase);
    MatchingFactGrows(ActivationDone, facts, updates, history, phase);
    MatchingFactGrows(DowntimeBegun, facts, updates, history, phase);
  }

  lemma MatchingFactGrows(k: FactKey, facts: Facts, updates: Facts, history: seq<Phase>, phase: Phase)
    requires FactsMatchHistory(facts, history) && BringsItsFacts(phase, updates) && !k.UnknownFact?
    requires k in updates ==> FactPhase(k) == phase
    ensures k in facts + updates <==> FactPhase(k) in history + [phase]
  {
    FactTables(k, facts, history, phase);
    FactTables(k, updates, [], phase);
    var p := FactPhase(k);
    if p in history + [phase] && p != phase {
      var i :| 0 <= i < |history + [phase]| && (history + [phase])[i] == p;
      assert history[i] == p;
    }
    if p in history {
      var i :| 0 <= i < |history| && history[i] == p;
      assert (history + [phase])[i] == p;
    }
    assert (history + [phase])[|history|] == phase;
  }

  /** A run of marks on one transaction; refused ones change nothing. */
  datatype Mark = Mark(phase: Phase, updates: Facts)

  function AfterMarks(doc: Tx, marks: seq<Mark>): Tx
    decreases |marks|
  {
    if marks == [] then doc
    else
      var r := MarkTx(doc, marks[0].phase, marks[0].updates);
      AfterMarks(if r.Accepted? then r.doc else doc, marks[1..])
  }

  /** Closure over whole runs: whatever is marked, in whatever order, the reader accepts the document. */
  lemma {:induction false} EveryRunIsReadable(doc: Tx, marks: seq<Mark>)
    requires ValidTx(doc, doc.attempt)
    ensures ValidTx(AfterMarks(doc, marks), doc.attempt) && Extends(doc, AfterMarks(doc, marks))
    decreases |marks|
  {
    if marks != [] {
      var r := MarkTx(doc, marks[0].phase, marks[0].updates);
      if r.Accepted? {
        MarkedTxIsValid(doc, marks[0].phase, marks[0].updates);
        EveryRunIsReadable(r.doc, marks[1..]);
      } else {
        EveryRunIsReadable(doc, marks[1..]);
      }
    }
  }

  /** An unfinished transaction can always be classified: as failed, or as being rolled back. */
  lemma UnfinishedTxCanBeClassified(doc: Tx, p: Phase)
    requires ValidTx(doc, doc.attempt) && !Terminal(doc.phase)
    requires p == DiagnosticFailure || p == RollbackStarted
    ensures MarkTx(doc, p, map[]).Accepted? && MarkTx(doc, p, map[]).doc.phase == p
    ensures MarkTx(doc, p, map[]).doc.facts == doc.facts
  {
    NoUpdates(doc.facts);
    AlwaysASuccessor(doc.phase, p);
  }

  lemma NoUpdates(facts: Facts)
    ensures facts + map[] == facts && ValidFacts(map[])
  {
  }

  lemma AlwaysASuccessor(phase: Phase, p: Phase)
    requires !Terminal(phase) && (p == DiagnosticFailure || p == RollbackStarted)
    ensures p in Successors(phase)
  {
  }

  /******* The shape of a history *******/

  /** A rollback attempt that got through its first m phases. */
  function Segment(m: nat): (r: seq<Phase>)
    ensures |r| == m
  {
    if m == 0 then [] else Segment(m - 1) + [RollbackPhase(m - 1)]
  }

  function Segments(ns: seq<nat>): seq<Phase>
    requires forall i :: 0 <= i < |ns| ==> 1 <= ns[i] <= 4
  {
    if ns == [] then [] else Segments(ns[..|ns| - 1]) + Segment(ns[|ns| - 1])
  }

  /** The first n normal phases, then rollback attempts, then at most one terminal phase. */
  predicate Shape(history: seq<Phase>, n: nat, ns: seq<nat>, end: seq<Phase>) {
    && 1 <= n <= 20
    && (forall i :: 0 <= i < |ns| ==> 1 <= ns[i] <= 4)
    && history == Normal(n) + Segments(ns) + end
    && (end == [] || end == [DiagnosticFailure]
        || (end == [RolledBack] && ns != [] && ns[|ns| - 1] == 4)
        || (end == [Success] && ns == [] && n == 20))
  }

  /** Where a history without a terminal phase stands. */
  function Standing(n: nat, ns: seq<nat>): Phase
    requires 1 <= n <= 20
    requires forall i :: 0 <= i < |ns| ==> 1 <= ns[i] <= 4
  {
    if ns == [] then NormalPhase(n - 1) else RollbackPhase(ns[|ns| - 1] - 1)
  }

  lemma LastIsStanding(n: nat, ns: seq<nat>)
    requires 1 <= n <= 20
    requires forall i :: 0 <= i < |ns| ==> 1 <= ns[i] <= 4
    ensures var h := Normal(n) + Segments(ns);
            h != [] && h[0] == Begun && h[|h| - 1] == Standing(n, ns) && !Terminal(Standing(n, ns))
  {
    NormalStep(n);
    NormalAt(n, 0);
    if ns != [] { RollbackStep(ns[|ns| - 1]); }
  }

  /** The transition table is the normal sequence, read pairwise. */
  lemma NormalStep(n: nat)
    requires 1 <= n <= 20
    ensures Following(NormalPhase(n - 1)) == {NormalPhase(n)}
    ensures !Terminal(NormalPhase(n - 1)) && !NormalPhase(n - 1).Unsupported? && !InRollback(NormalPhase(n - 1))
  {
  }

  lemma RollbackStep(m: nat)
    requires 1 <= m <= 4
    ensures Following(RollbackPhase(m - 1)) == {DiagnosticFailure, if m == 4 then RolledBack else RollbackPhase(m)}
    ensures InRollback(RollbackPhase(m - 1))
  {
  }

  lemma SegmentsSnoc(ns: seq<nat>, m: nat)
    requires 1 <= m <= 4
    requires forall i :: 0 <= i < |ns| ==> 1 <= ns[i] <= 4
    ensures Segments(ns + [m]) == Segments(ns) + Segment(m)
  {
    assert (ns + [m])[..|ns|] == ns;
  }

  lemma Assoc(a: seq<Phase>, b: seq<Phase>, c: seq<Phase>)
    ensures a + b + c == a + (b + c)
  {
  }

  lemma ShapeEnds(history: seq<Phase>, n: nat, ns: seq<nat>, p: Phase)
    requires Shape(history, n, ns, [])
    requires || p == DiagnosticFailure
             || (p == RolledBack && ns != [] && ns[|ns| - 1] == 4)
             || (p == Success && ns == [] && n == 20)
    ensures Shape(history + [p], n, ns, [p])
  {
    var open := Normal(n) + Segments(ns);
    assert open + [] == open;
  }

  lemma SegmentStarts(history: seq<Phase>, n: nat, ns: seq<nat>)
    requires Shape(history, n, ns, [])
    ensures Shape(history + [RollbackStarted], n, ns + [1], [])
  {
    var open := Normal(n) + Segments(ns);
    assert open + [] == open;
    SegmentsSnoc(ns, 1);
    assert Segment(1) == [RollbackStarted];
    Assoc(Normal(n), Segments(ns), [RollbackStarted]);
    assert open + [RollbackStarted] + [] == open + [RollbackStarted];
  }

  lemma Regroup(a: seq<Phase>, b: seq<Phase>, c: seq<Phase>, p: Phase)
    ensures a + (b + c) + [] + [p] == a + (b + (c + [p])) + []
  {
  }

  lemma SegmentGrows(history: seq<Phase>, n: nat, ns: seq<nat>) returns (ns': seq<nat>)
    requires Shape(history, n, ns, []) && ns != [] && ns[|ns| - 1] < 4
    ensures Shape(history + [RollbackPhase(ns[|ns| - 1])], n, ns', [])
  {
    var front, m := ns[..|ns| - 1], ns[|ns| - 1];
    var p := RollbackPhase(m);
    ns' := front + [m + 1];
    SegmentsSnoc(front, m);
    assert front + [m] == ns;
    SegmentsSnoc(front, m + 1);
    Regroup(Normal(n), Segments(front), Segment(m), p);
  }

  lemma NormalGrows(history: seq<Phase>, n: nat)
    requires Shape(history, n, [], []) && n < 20
    ensures Shape(history + [NormalPhase(n)], n + 1, [], [])
  {
    assert Normal(n) + [] + [] == Normal(n);
    assert Normal(n + 1) + [] + [] == Normal(n + 1);
  }

  /** One more phase on a history of the shape keeps the shape. */
  lemma ShapeGrows(history: seq<Phase>, n: nat, ns: seq<nat>, p: Phase)
      returns (n': nat, ns': seq<nat>, end: seq<Phase>)
    requires Shape(history, n, ns, [])
    requires p in Successors(Standing(n, ns))
    ensures Shape(history + [p], n', ns', end)
    ensures end == [] || Terminal(p)
  {
    n', ns', end := n, ns, [];
    if p == DiagnosticFailure {
      end := [p];
      ShapeEnds(history, n, ns, p);
    } else if p == RollbackStarted {
      ns' := ns + [1];
      SegmentStarts(history, n, ns);
    } else if ns == [] {
      n', end := NormalPartGrows(history, n, p);
    } else {
      ns', end := RollbackGrows(history, n, ns, p);
    }
  }

  lemma NormalPartGrows(history: seq<Phase>, n: nat, p: Phase) returns (n': nat, end: seq<Phase>)
    requires Shape(history, n, [], []) && p in Following(NormalPhase(n - 1))
    ensures Shape(history + [p], n', [], end)
    ensures end == [] || Terminal(p)
  {
    NormalStep(n);
    n', end := n, [];
    if n == 20 {
      end := [p];
      ShapeEnds(history, n, [], p);
    } else {
      n' := n + 1;
      NormalGrows(history, n);
    }
  }

  lemma RollbackGrows(history: seq<Phase>, n: nat, ns: seq<nat>, p: Phase) returns (ns': seq<nat>, end: seq<Phase>)
    requires Shape(history, n, ns, []) && ns != []
    requires p in Following(RollbackPhase(ns[|ns| - 1] - 1)) && p != DiagnosticFailure
    ensures Shape(history + [p], n, ns', end)
    ensures end == [] || Terminal(p)
  {
    RollbackStep(ns[|ns| - 1]);
    ns', end := ns, [];
    if ns[|ns| - 1] == 4 {
      end := [p];
      ShapeEnds(history, n, ns, p);
    } else {
      ns' := SegmentGrows(history, n, ns);
    }
  }

  /** Every history the reader accepts has the shape. */
  lemma {:induction false} ValidHistoryHasShape(history: seq<Phase>) returns (n: nat, ns: seq<nat>, end: seq<Phase>)
    requires ValidHistory(history)
    ensures Shape(history, n, ns, end)
    ensures end == [] <==> !Terminal(history[|history| - 1])
    decreases |history|
  {
    if |history| == 1 {
      n, ns, end := 1, [], [];
      assert history == Normal(1) + Segments([]) + [];
    } else {
      var before, p := history[..|history| - 1], history[|history| - 1];
      assert history == before + [p];
      assert p in Successors(before[|before| - 1]);
      n, ns, end := ValidHistoryHasShape(before);
      LastIsStanding(n, ns);
      n, ns, end := ShapeGrows(before, n, ns, p);
      LastIsStanding(n, ns);
    }
  }

  lemma {:induction false} NormalPrefixIsValid(n: nat)
    requires 1 <= n <= 20
    ensures ValidHistory(Normal(n))
    decreases n
  {
    if n == 1 {
      assert Normal(1) == [Begun];
    } else {
      NormalPrefixIsValid(n - 1);
      NormalStep(n - 1);
      NormalStep(n);
      HistoryGrows(Normal(n - 1), NormalPhase(n - 1));
    }
  }

  lemma {:induction false} SegmentIsValid(h: seq<Phase>, m: nat)
    requires ValidHistory(h) && !Terminal(h[|h| - 1]) && 1 <= m <= 4
    ensures ValidHistory(h + Segment(m))
    decreases m
  {
    if m == 1 {
      assert h + Segment(1) == h + [RollbackStarted];
    } else {
      SegmentIsValid(h, m - 1);
      RollbackStep(m - 1);
      assert h + Segment(m) == (h + Segment(m - 1)) + [RollbackPhase(m - 1)];
      HistoryGrows(h + Segment(m - 1), RollbackPhase(m - 1));
    }
  }

  lemma {:induction false} OpenShapeIsValid(n: nat, ns: seq<nat>)
    requires 1 <= n <= 20
    requires forall i :: 0 <= i < |ns| ==> 1 <= ns[i] <= 4
    ensures ValidHistory(Normal(n) + Segments(ns))
    decreases |ns|
  {
    if ns == [] {
      NormalPrefixIsValid(n);
      assert Normal(n) + [] == Normal(n);
    } else {
      var front, m := ns[..|ns| - 1], ns[|ns| - 1];
      var h := Normal(n) + Segments(front);
      OpenShapeIsValid(n, front);
      LastIsStanding(n, front);
      SegmentIsValid(h, m);
      Assoc(Normal(n), Segments(front), Segment(m));
    }
  }

  lemma ShapeIsValid(history: seq<Phase>, n: nat, ns: seq<nat>, end: seq<Phase>)
    requires Shape(history, n, ns, end)
    ensures ValidHistory(history)
  {
    var open := Normal(n) + Segments(ns);
    OpenShapeIsValid(n, ns);
    if end == [] {
      assert history == open;
    } else {
      LastIsStanding(n, ns);
      if ns == [] { NormalStep(n); } else { RollbackStep(ns[|ns| - 1]); }
      HistoryGrows(open, end[0]);
      assert history == open + [end[0]];
    }
  }

  /** The reader accepts exactly the histories of the shape. */
  lemma HistoryShape(history: seq<Phase>)
    ensures ValidHistory(history) <==> exists n: nat, ns: seq<nat>, end: seq<Phase> :: Shape(history, n, ns, end)
  {
    if ValidHistory(history) {
      var n, ns, end := ValidHistoryHasShape(history);
    }
    if exists n: nat, ns: seq<nat>, end: seq<Phase> :: Shape(history, n, ns, end) {
      var n: nat, ns: seq<nat>, end: seq<Phase> :| Shape(history, n, ns, end);
      ShapeIsValid(history, n, ns, end);
    }
  }

  lemma {:induction false} SegmentsAreRollback(ns: seq<nat>)
    requires forall i :: 0 <= i < |ns| ==> 1 <= ns[i] <= 4
    ensures forall k :: 0 <= k < |Segments(ns)| ==> InRollback(Segments(ns)[k])
    decreases |ns|
  {
    if ns != [] {
      SegmentsAreRollback(ns[..|ns| - 1]);
      SegmentIsRollback(ns[|ns| - 1]);
    }
  }

  lemma {:induction false} SegmentIsRollback(m: nat)
    requires m <= 4
    ensures forall k :: 0 <= k < m ==> InRollback(Segment(m)[k])
  {
    if m != 0 {
      SegmentIsRollback(m - 1);
      RollbackStep(m);
    }
  }

  /** No normal phase comes after a rollback phase. */
  lemma NoForwardAfterRollback(history: seq<Phase>, i: nat, j: nat)
    requires ValidHistory(history) && i < j < |history|
    requires InRollback(history[i])
    ensures InRollback(history[j]) || history[j].RolledBack? || history[j].DiagnosticFailure?
  {
    var n, ns, end := ValidHistoryHasShape(history);
    InTheNormalPart(history, n, ns, end);
    assert n <= i;
    AfterTheNormalPart(history, n, ns, end, i);
    AfterTheNormalPart(history, n, ns, end, j);
    if ns == [] { assert |history| == n + |end|; }
  }

  lemma InTheNormalPart(history: seq<Phase>, n: nat, ns: seq<nat>, end: seq<Phase>)
    requires Shape(history, n, ns, end)
    ensures forall k :: 0 <= k < n ==> !InRollback(history[k])
  {
    forall k | 0 <= k < n ensures !InRollback(history[k]) {
      NormalAt(n, k);
      NormalStep(k + 1);
    }
  }

  lemma ElementOf(a: seq<Phase>, b: seq<Phase>, c: seq<Phase>, k: nat)
    requires |a| <= k < |a + b + c|
    ensures (a + b + c)[k] == if k < |a| + |b| then b[k - |a|] else c[k - |a| - |b|]
  {
  }

  lemma AfterTheNormalPart(history: seq<Phase>, n: nat, ns: seq<nat>, end: seq<Phase>, k: nat)
    requires Shape(history, n, ns, end) && n <= k < |history|
    ensures InRollback(history[k]) || (k == |history| - 1 && end == [history[k]])
  {
    var segments := Segments(ns);
    SegmentsAreRollback(ns);
    ElementOf(Normal(n), segments, end, k);
    if k < n + |segments| { assert InRollback(segments[k - n]); } else { assert |end| == 1 && end[0] == history[k]; }
  }

  /** A history has been through a normal phase exactly if its normal part is long enough. */
  lemma PhaseReached(history: seq<Phase>, n: nat, ns: seq<nat>, end: seq<Phase>, i: nat)
    requires Shape(history, n, ns, end) && i < 20
    ensures NormalPhase(i) in history <==> i < n
  {
    if i < n {
      NormalAt(n, i);
      assert history[i] == NormalPhase(i);
    } else if NormalPhase(i) in history {
      var k :| 0 <= k < |history| && history[k] == NormalPhase(i);
      NotReachedAt(history, n, ns, end, i, k);
    }
  }

  lemma NotReachedAt(history: seq<Phase>, n: nat, ns: seq<nat>, end: seq<Phase>, i: nat, k: nat)
    requires Shape(history, n, ns, end) && n <= i < 20 && k < |history|
    ensures history[k] != NormalPhase(i)
  {
    if k < n {
      NormalAt(n, k);
      NormalPhasesDiffer(i, k);
      assert history[k] == Normal(n)[k];
    } else {
      AfterTheNormalPart(history, n, ns, end, k);
      NormalStep(i + 1);
      assert !Terminal(NormalPhase(i)) && !InRollback(NormalPhase(i));
      assert end != [] ==> Terminal(end[0]);
    }
  }

  lemma NormalPhasesDiffer(i: nat, k: nat)
    requires i < 20 && k < 20 && i != k
    ensures NormalPhase(i) != NormalPhase(k)
  {
    assert Place(NormalPhase(i)) == i && Place(NormalPhase(k)) == k;
  }

  function Place(p: Phase): nat {
    match p
    case Begun => 0
    case OwnershipIntent => 1
    case OwnershipComplete => 2
    case BackupIntent => 3
    case BackupComplete => 4
    case CandidateIntent => 5
    case CandidateReady => 6
    case DowntimeIntent => 7
    case DowntimeStarted => 8
    case ConversionIntent => 9
    case ConversionComplete => 10
    case TrustIntent => 11
    case TrustComplete => 12
    case ActivationIntent => 13
    case Activated => 14
    case DeployIntent => 15
    case Deployed => 16
    case ServiceStartIntent => 17
    case ServiceStarted => 18
    case HealthVerified => 19
    case _ => 20
  }

  /** A successful transaction went through exactly the normal sequence and recorded all eight facts. */
  lemma SuccessIsTheWholeSequence(doc: Tx, attempt: string)
    requires ValidTx(doc, attempt) && doc.phase == Success
    ensures doc.history == Normal(NORMAL_LENGTH) && doc.facts.Keys == FACT_KEYS
  {
    SuccessHistory(doc.history);
    forall k: FactKey | !k.UnknownFact? ensures FactPhase(k) in doc.history {
      PlaceOfFact(k);
      NormalAt(NORMAL_LENGTH, Place(FactPhase(k)));
    }
    AllFacts(doc.facts, doc.history);
  }

  lemma SuccessHistory(history: seq<Phase>)
    requires ValidHistory(history) && history[|history| - 1] == Success
    ensures history == Normal(NORMAL_LENGTH)
  {
    var n, ns, end := ValidHistoryHasShape(history);
    assert end == [Success] by { assert history[|history| - 1] == end[0]; }
    assert history == Normal(20) + [] + [Success];
    assert Normal(20) + [] == Normal(20);
  }

  lemma AllFacts(facts: Facts, history: seq<Phase>)
    requires FactsMatchHistory(facts, history) && KnownFacts(facts)
    requires forall k: FactKey :: !k.UnknownFact? ==> FactPhase(k) in history
    ensures facts.Keys == FACT_KEYS
  {
    forall k ensures k in facts <==> k in FACT_KEYS {
      if !k.UnknownFact? { FactTables(k, facts, history, Success); }
    }
  }

  lemma PlaceOfFact(k: FactKey)
    requires !k.UnknownFact?
    ensures Place(FactPhase(k)) < NORMAL_LENGTH && NormalPhase(Place(FactPhase(k))) == FactPhase(k)
  {
  }

  /******* What is accepted *******/

  /** A transaction is begun exactly under a well-formed identity. */
  lemma BeginAccepts(attempt: string, version: string, commit: string, tag: string, doc: Tx)
    ensures BeginTx(attempt, version, commit, tag) == Accepted(doc) <==>
              && AttemptId(attempt) && Version(version) && Commit(commit) && tag == "v" + version
              && doc == Tx(1, attempt, version, commit, tag, Begun, [Begun], map[])
  {
  }

  /** The updates that belong to a phase: exactly its facts, with valid values, and a backup of this attempt. */
  ghost predicate FitUpdates(updates: Facts, phase: Phase, attempt: string) {
    && (forall k :: k in updates <==> !k.UnknownFact? && FactPhase(k) == phase)
    && ValidFacts(updates) && BackupBound(updates, attempt)
  }

  /** The gates of a mark that is no retry. */
  ghost predicate MayMark(doc: Tx, phase: Phase, updates: Facts) {
    && !phase.Unsupported? && KnownFacts(updates) && (forall k :: k in updates ==> FactPhase(k) == phase)
    && ValidFacts(updates) && Agree(doc.facts, updates) && BackupBound(doc.facts + updates, doc.attempt)
    && !Terminal(doc.phase) && phase in Successors(doc.phase) && BringsItsFacts(phase, updates)
  }

  lemma NewMarkMeans(doc: Tx, phase: Phase, updates: Facts)
    requires phase != doc.phase
    ensures MarkTx(doc, phase, updates).Accepted? <==> MayMark(doc, phase, updates)
    ensures MarkTx(doc, phase, updates).Accepted? ==>
              MarkTx(doc, phase, updates).doc
                == doc.(history := doc.history + [phase], phase := phase, facts := doc.facts + updates)
  {
  }

  /**
    A new phase is accepted exactly if the reader accepts the longer history, and the updates are exactly the facts of
    the phase. It is then the last phase of the document, and the facts are added.
   */
  lemma MarkAccepts(doc: Tx, phase: Phase, updates: Facts)
    requires ValidTx(doc, doc.attempt) && phase != doc.phase
    ensures MarkTx(doc, phase, updates).Accepted? <==>
              ValidHistory(doc.history + [phase]) && FitUpdates(updates, phase, doc.attempt)
    ensures MarkTx(doc, phase, updates).Accepted? ==>
              MarkTx(doc, phase, updates).doc
                == doc.(history := doc.history + [phase], phase := phase, facts := doc.facts + updates)
  {
    NewMarkMeans(doc, phase, updates);
    if MayMark(doc, phase, updates) {
      HistoryGrows(doc.history, phase);
      AcceptedUpdatesFit(doc, phase, updates);
    }
    if ValidHistory(doc.history + [phase]) && FitUpdates(updates, phase, doc.attempt) {
      FitUpdatesSuffice(doc, phase, updates);
    }
  }

  lemma AcceptedUpdatesFit(doc: Tx, phase: Phase, updates: Facts)
    requires BringsItsFacts(phase, updates) && KnownFacts(updates) && ValidFacts(updates)
    requires (forall k :: k in updates ==> FactPhase(k) == phase) && BackupBound(doc.facts + updates, doc.attempt)
    ensures FitUpdates(updates, phase, doc.attempt)
  {
    forall k: FactKey | !k.UnknownFact? && FactPhase(k) == phase ensures k in updates {
      FactTables(k, updates, [], phase);
    }
  }

  lemma NextIsASuccessor(history: seq<Phase>, phase: Phase)
    requires ValidHistory(history) && ValidHistory(history + [phase])
    ensures phase in Successors(history[|history| - 1]) && !phase.Unsupported?
    ensures !Terminal(history[|history| - 1])
  {
    var h := history + [phase];
    assert h[|history| - 1 + 1] in Successors(h[|history| - 1]);
    assert h[|history|] == phase;
  }

  /** The phase of a fact is passed once: a fact that is on record already cannot be marked again. */
  lemma FactsAreNew(doc: Tx, phase: Phase, updates: Facts)
    requires ValidTx(doc, doc.attempt) && ValidHistory(doc.history + [phase])
    requires FitUpdates(updates, phase, doc.attempt)
    ensures forall k :: k in updates ==> k !in doc.facts
  {
    forall k | k in updates ensures k !in doc.facts {
      FactTables(k, doc.facts, doc.history, phase);
      PlaceOfFact(k);
      NormalPhaseIsNew(doc.history, Place(phase));
    }
  }

  lemma NormalPhaseIsNew(history: seq<Phase>, i: nat)
    requires ValidHistory(history) && i < 20 && ValidHistory(history + [NormalPhase(i)])
    ensures NormalPhase(i) !in history
  {
    var n, ns := StandsBefore(history, NormalPhase(i));
    NormalAfterStanding(n, ns, i);
    PhaseReached(history, n, ns, [], i);
  }

  /** Where a history stands that another phase may follow. */
  lemma StandsBefore(history: seq<Phase>, phase: Phase) returns (n: nat, ns: seq<nat>)
    requires ValidHistory(history) && ValidHistory(history + [phase])
    ensures Shape(history, n, ns, []) && phase in Successors(Standing(n, ns))
  {
    var end;
    n, ns, end := ValidHistoryHasShape(history);
    NextIsASuccessor(history, phase);
    LastIsStanding(n, ns);
    assert Normal(n) + Segments(ns) + [] == Normal(n) + Segments(ns);
  }

  /** Only the next normal phase may follow, and only where no rollback was begun. */
  lemma NormalAfterStanding(n: nat, ns: seq<nat>, i: nat)
    requires 1 <= n <= 20 && i < 20 && forall k :: 0 <= k < |ns| ==> 1 <= ns[k] <= 4
    requires NormalPhase(i) in Successors(Standing(n, ns))
    ensures n == i
  {
    NormalStep(i + 1);
    if ns == [] {
      NormalStep(n);
      assert NormalPhase(i) == NormalPhase(n);
      if n < 20 && i != n { NormalPhasesDiffer(i, n); }
    } else {
      RollbackStep(ns[|ns| - 1]);
    }
  }

  lemma FitUpdatesSuffice(doc: Tx, phase: Phase, updates: Facts)
    requires ValidTx(doc, doc.attempt) && phase != doc.phase
    requires ValidHistory(doc.history + [phase]) && FitUpdates(updates, phase, doc.attempt)
    ensures MayMark(doc, phase, updates)
  {
    NextIsASuccessor(doc.history, phase);
    FactsAreNew(doc, phase, updates);
    FactsAreBrought(phase, updates, doc.attempt);
    BackupStaysBound(doc.facts, updates, doc.attempt);
  }

  lemma BackupStaysBound(facts: Facts, updates: Facts, attempt: string)
    requires BackupBound(facts, attempt) && BackupBound(updates, attempt)
    ensures BackupBound(facts + updates, attempt)
  {
  }

  lemma FactsAreBrought(phase: Phase, updates: Facts, attempt: string)
    requires FitUpdates(updates, phase, attempt)
    ensures BringsItsFacts(phase, updates)
  {
  }

  /** The same phase again is accepted exactly if it repeats facts of that phase that are on record; nothing changes. */
  lemma RetryAccepts(doc: Tx, updates: Facts)
    requires ValidTx(doc, doc.attempt)
    ensures MarkTx(doc, doc.phase, updates).Accepted? <==>
              forall k :: k in updates ==>
                !k.UnknownFact? && FactPhase(k) == doc.phase && k in doc.facts && doc.facts[k] == updates[k]
    ensures MarkTx(doc, doc.phase, updates).Accepted? ==> MarkTx(doc, doc.phase, updates).doc == doc
  {
    assert !doc.phase.Unsupported? by { assert doc.history[|doc.history| - 1] == doc.phase; }
    var repeats := forall k :: k in updates ==>
      !k.UnknownFact? && FactPhase(k) == doc.phase && k in doc.facts && doc.facts[k] == updates[k];
    if repeats {
      assert doc.facts + updates == doc.facts;
      RepeatedFactsAreValid(doc.facts, updates);
    }
    if MarkTx(doc, doc.phase, updates).Accepted? {
      forall k | k in updates ensures k in doc.facts && doc.facts[k] == updates[k] {
        assert k in doc.facts + updates;
      }
    }
  }

  lemma RepeatedFactsAreValid(facts: Facts, updates: Facts)
    requires ValidFacts(facts) && forall k :: k in updates ==> k in facts && facts[k] == updates[k]
    ensures ValidFacts(updates) && Agree(facts, updates)
  {
  }

  /** The marks of an update that goes well, from the n-th phase on. */
  ghost predicate GoesWell(marks: seq<Mark>, n: nat, attempt: string) {
    forall i :: 0 <= i < |marks| ==>
      marks[i].phase == NormalPhase(n + i) && FitUpdates(marks[i].updates, marks[i].phase, attempt)
  }

  lemma {:induction false} NormalMarksAdvance(doc: Tx, n: nat, marks: seq<Mark>)
    requires ValidTx(doc, doc.attempt) && 1 <= n && n + |marks| == NORMAL_LENGTH && doc.history == Normal(n)
    requires GoesWell(marks, n, doc.attempt)
    ensures var end := AfterMarks(doc, marks);
            && ValidTx(end, doc.attempt) && end.attempt == doc.attempt
            && end.history == Normal(NORMAL_LENGTH) && end.phase == Success
    decreases |marks|
  {
    if marks == [] {
      assert doc.phase == NormalPhase(20);
    } else {
      assert marks[0].phase == NormalPhase(n + 0);
      NormalMarkAdvances(doc, n, marks[0]);
      GoesOnWell(marks, n, doc.attempt);
      NormalMarksAdvance(MarkTx(doc, marks[0].phase, marks[0].updates).doc, n + 1, marks[1..]);
    }
  }

  lemma GoesOnWell(marks: seq<Mark>, n: nat, attempt: string)
    requires marks != [] && GoesWell(marks, n, attempt)
    ensures GoesWell(marks[1..], n + 1, attempt)
  {
    forall i | 0 <= i < |marks[1..]|
      ensures marks[1..][i].phase == NormalPhase(n + 1 + i)
           && FitUpdates(marks[1..][i].updates, marks[1..][i].phase, attempt)
    {
      assert marks[1..][i] == marks[i + 1] && n + 1 + i == n + (i + 1);
    }
  }

  lemma NormalMarkAdvances(doc: Tx, n: nat, m: Mark)
    requires ValidTx(doc, doc.attempt) && 1 <= n <= 20 && doc.history == Normal(n)
    requires m.phase == NormalPhase(n) && FitUpdates(m.updates, m.phase, doc.attempt)
    ensures var r := MarkTx(doc, m.phase, m.updates);
            && r.Accepted? && ValidTx(r.doc, doc.attempt) && r.doc.attempt == doc.attempt
            && r.doc.history == Normal(n + 1)
  {
    NormalPrefixGrows(n);
    NormalAt(n, n - 1);
    NextIsAnother(n);
    assert doc.phase == NormalPhase(n - 1);
    MarkAccepts(doc, m.phase, m.updates);
    MarkedTxIsValid(doc, m.phase, m.updates);
  }

  lemma NormalPrefixGrows(n: nat)
    requires 1 <= n <= 20
    ensures ValidHistory(Normal(n) + [NormalPhase(n)]) && Normal(n) + [NormalPhase(n)] == Normal(n + 1)
  {
    NormalPrefixIsValid(n);
    NormalAt(n, n - 1);
    NormalStep(n);
    HistoryGrows(Normal(n), NormalPhase(n));
  }

  lemma NextIsAnother(n: nat)
    requires 1 <= n <= 20
    ensures NormalPhase(n) != NormalPhase(n - 1)
  {
  }

  /** An update that goes well gets through: from a begun transaction, the twenty other phases in order, to success. */
  lemma NormalRunSucceeds(attempt: string, version: string, commit: string, tag: string, marks: seq<Mark>)
    requires BeginTx(attempt, version, commit, tag).Accepted?
    requires |marks| == 20 && GoesWell(marks, 1, attempt)
    ensures var end := AfterMarks(BeginTx(attempt, version, commit, tag).doc, marks);
            && ValidTx(end, attempt) && end.history == Normal(NORMAL_LENGTH) && end.phase == Success
            && end.facts.Keys == FACT_KEYS
  {
    var doc := BeginTx(attempt, version, commit, tag).doc;
    BegunTxIsValid(attempt, version, commit, tag);
    assert Normal(1) == [Begun];
    NormalMarksAdvance(doc, 1, marks);
    SuccessIsTheWholeSequence(AfterMarks(doc, marks), attempt);
  }

  /******* Backup retention *******/

  /** A transaction that reached `backup_complete` has its backup directory recorded. */
  lemma CompletedBackupIsRecorded(doc: Tx, attempt: string)
    requires ValidTx(doc, attempt) && BackupComplete in doc.history
    ensures BackupDir in doc.facts && doc.facts[BackupDir].Text? && BackupOf(doc.facts[BackupDir].text, attempt)
  {
    BackupIntentComesFirst(doc.history);
  }

  lemma BackupIntentComesFirst(history: seq<Phase>)
    requires ValidHistory(history) && BackupComplete in history
    ensures BackupIntent in history
  {
    var n, ns, end := ValidHistoryHasShape(history);
    PhaseReached(history, n, ns, end, 4);
    PhaseReached(history, n, ns, end, 3);
  }

  /** A backup directory names its attempt: no attempt can nominate another attempt's backup. */
  lemma BackupNamesItsAttempt(dir: string, a: string, b: string)
    requires BackupOf(dir, a) && BackupOf(dir, b)
    ensures a == b
  {
  }
}
