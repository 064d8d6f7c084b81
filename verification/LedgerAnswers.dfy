/**
  What the operations on the ledger answer: on which ledgers a call writes, what it then
  leaves, and that it leaves the ledger alone otherwise.
 */
module LedgerAnswers {
  import opened Durable
  import opened Names
  import opened UpdateJournal
  import opened BootstrapReserve

  /******* Records *******/

  /** This transaction is on record, and the reader accepts it. */
  predicate TxOnRecord(l: Ledger, attempt: string, tx: Tx) {
    l.sound && l.txDir && AttemptId(attempt)
    && attempt in l.txs && l.txs[attempt] == TxFile(tx) && ValidTx(tx, attempt)
  }

  /** This reserve is on record, and the reader accepts it. */
  predicate ReserveOnRecord(l: Ledger, attempt: string, r: Reserve) {
    l.sound && AttemptId(attempt)
    && attempt in l.reserves && l.reserves[attempt] == ReserveFile(r) && ValidReserve(r, attempt)
  }

  lemma TxReads(l: Ledger, attempt: string, tx: Tx)
    ensures ReadTx(l, attempt) == Found(tx) <==> TxOnRecord(l, attempt, tx)
  {
  }

  lemma ReserveReads(l: Ledger, attempt: string, r: Reserve)
    ensures ReadReserve(l, attempt) == Found(r) <==> ReserveOnRecord(l, attempt, r)
  {
  }

  /******* Transactions *******/

  /** A transaction begins exactly under a well-formed identity that nobody uses; to begin it again changes nothing. */
  lemma BeginAnswers(l: Ledger, attempt: string, version: string, commit: string, tag: string)
    ensures var doc := Tx(1, attempt, version, commit, tag, Begun, [Begun], map[]);
            var (end, outcome) := Complete(l, BeginRun(l, attempt, version, commit, tag));
            && (outcome.Answer? <==>
                  && AttemptId(attempt) && Version(version) && Commit(commit) && tag == "v" + version
                  && l.sound && (attempt in l.txs ==> l.txs[attempt] == TxFile(doc)))
            && (outcome.Answer? ==>
                  && outcome == Answer(TxDoc(doc))
                  && end == l.(txDir := true, txs := l.txs[attempt := TxFile(doc)]))
            && (outcome.Refused? ==> end == l.(txDir := end.txDir))
    ensures l.txDir && attempt in l.txs ==> BeginRun(l, attempt, version, commit, tag).Halt?
  {
    var doc := Tx(1, attempt, version, commit, tag, Begun, [Begun], map[]);
    BeginAccepts(attempt, version, commit, tag, doc);
    if BeginTx(attempt, version, commit, tag).Accepted? && l.sound {
      BegunTxIsValid(attempt, version, commit, tag);
      BeginInDirAnswers(l.(txDir := true), attempt, doc);
      assert l.txDir ==> l.(txDir := true) == l;
    }
  }

  lemma BeginInDirAnswers(l: Ledger, attempt: string, doc: Tx)
    requires l.sound && l.txDir && AttemptId(attempt) && ValidTx(doc, attempt)
    ensures var (end, outcome) := Complete(l, BeginInDir(l, attempt, doc));
            && (outcome.Answer? <==> (attempt in l.txs ==> l.txs[attempt] == TxFile(doc)))
            && (outcome.Answer? ==> outcome == Answer(TxDoc(doc)) && end == l.(txs := l.txs[attempt := TxFile(doc)]))
            && (outcome.Refused? ==> end == l)
  {
    TxReads(l, attempt, doc);
    if attempt in l.txs && l.txs[attempt] == TxFile(doc) { assert l.txs[attempt := TxFile(doc)] == l.txs; }
  }

  /** A new phase is recorded exactly if the longer history is valid and the updates are the facts of the phase. */
  lemma MarkAnswers(l: Ledger, attempt: string, phase: Phase, updates: Facts, tx: Tx)
    requires TxOnRecord(l, attempt, tx) && phase != tx.phase
    ensures var marked := tx.(history := tx.history + [phase], phase := phase, facts := tx.facts + updates);
            var (end, outcome) := Complete(l, MarkRun(l, attempt, phase, updates));
            if ValidHistory(tx.history + [phase]) && FitUpdates(updates, phase, attempt)
            then outcome == Answer(TxDoc(marked)) && end == l.(txs := l.txs[attempt := TxFile(marked)])
            else outcome.Refused? && end == l
  {
    MarkEnds(l, attempt, phase, updates, tx);
    MarkAccepts(tx, phase, updates);
  }

  lemma MarkEnds(l: Ledger, attempt: string, phase: Phase, updates: Facts, tx: Tx)
    requires TxOnRecord(l, attempt, tx) && phase != tx.phase
    ensures var r := MarkTx(tx, phase, updates);
            Complete(l, MarkRun(l, attempt, phase, updates))
              == if r.Accepted? then (l.(txs := l.txs[attempt := TxFile(r.doc)]), Answer(TxDoc(r.doc)))
                 else (l, Refused(TxRefusal(r.error)))
  {
    TxReads(l, attempt, tx);
  }

  /** To mark the same phase again writes nothing, and is accepted exactly if it adds and changes nothing. */
  lemma RetryAnswers(l: Ledger, attempt: string, updates: Facts, tx: Tx)
    requires TxOnRecord(l, attempt, tx)
    ensures MarkRun(l, attempt, tx.phase, updates).Halt?
    ensures var (end, outcome) := Complete(l, MarkRun(l, attempt, tx.phase, updates));
            && (outcome.Answer? <==>
                  forall k :: k in updates ==>
                    !k.UnknownFact? && FactPhase(k) == tx.phase && k in tx.facts && tx.facts[k] == updates[k])
            && (outcome.Answer? ==> outcome == Answer(TxDoc(tx)))
            && end == l
  {
    TxReads(l, attempt, tx);
    RetryAccepts(tx, updates);
    assert !tx.phase.Unsupported? by { assert tx.history[|tx.history| - 1] == tx.phase; }
  }

  /******* Reserves *******/

  /** The ceremony runs exactly for a fresh, well-formed identity and a supported baseline. */
  lemma CeremonyAnswers(
      l: Ledger, attempt: string, version: string, commit: string, baseline: string, content: int)
    ensures var (end, outcome) := Complete(l, CeremonyRun(l, attempt, version, commit, baseline, content));
            && (outcome.Answer? <==>
                  && l.sound && AttemptId(attempt) && Commit(commit) && AsciiVersion(version)
                  && baseline in {"0.3.14", "0.3.15", "0.3.18"}
                  && attempt !in l.works && attempt !in l.reserves)
            && (outcome.Answer? ==>
                  end == l.(works := l.works[attempt := WorkTree(content, true)],
                            reserves := l.reserves[attempt := ReserveFile(
                              Reserve(2, attempt, true, commit, "v" + version, version, baseline, Staged, [Staged]))]))
            && (outcome.Refused? ==> end == l)
  {
    var r := Reserve(2, attempt, true, commit, "v" + version, version, baseline, Staged, [Staged]);
    var l1 := Stored(l, attempt, r);
    TwoSteps(l, l1, l1.(works := l1.works[attempt := WorkTree(content, true)]), Halt(Answer(Done)));
  }

  predicate PrivateTree(l: Ledger, attempt: string) {
    attempt in l.works && l.works[attempt].WorkTree? && l.works[attempt].isPrivate
  }

  /** A staged reserve becomes ready exactly with its successful transaction and its private tree. */
  lemma ReadyAnswers(l: Ledger, attempt: string, r: Reserve)
    requires ReserveOnRecord(l, attempt, r)
    ensures var (end, outcome) := Complete(l, ReadyRun(l, attempt));
            && (ReadyRun(l, attempt).Step? <==>
                  r.state.Staged? && l.txDir && Succeeded(l, attempt, r) && PrivateTree(l, attempt))
            && (outcome.Answer? <==> ReadyRun(l, attempt).Step? || r.state.Ready?)
            && end == if ReadyRun(l, attempt).Step? then Stored(l, attempt, Advanced(r, Ready)) else l
  {
    ReserveReads(l, attempt, r);
    if l.txDir && attempt in l.txs && l.txs[attempt].TxFile? { TxReads(l, attempt, l.txs[attempt].doc); }
    PathsGrow(r.state, Ready);
  }

  /** The record with another state, and the one history that leads there. */
  function Advanced(r: Reserve, s: ReserveState): Reserve { r.(state := s, history := PathTo(s)) }

  predicate SameSource(r: Reserve, commit: string, tag: string) { r.commit == commit && r.tag == tag }

  /** A reserve released to its end: the end is on record, and the tree is gone. */
  function ReleasedLedger(l: Ledger, attempt: string, r: Reserve, end: ReserveState): Ledger {
    l.(works := l.works - {attempt}, reserves := l.reserves[attempt := ReserveFile(Advanced(r, end))])
  }

  lemma ReleaseAnswers(l: Ledger, attempt: string, r: Reserve, end: ReserveState, remains: int)
    requires ValidReserve(r, attempt) && Moves(r.state, end)
    ensures ReleaseRun(l, attempt, r, end, remains).Step? <==> Releasable(l, attempt)
    ensures Complete(l, ReleaseRun(l, attempt, r, end, remains))
         == if Releasable(l, attempt)
            then (ReleasedLedger(l, attempt, r, end), Answer(ReserveDoc(Advanced(r, end))))
            else (l, Refused(WorkRefused))
  {
    PathsGrow(r.state, end);
    assert Advance(r, end) == Advanced(r, end);
    if attempt !in l.works {
      assert l.works - {attempt} == l.works;
    } else if Releasable(l, attempt) {
      var gone := l.(works := l.works - {attempt});
      TwoSteps(l, l.(works := l.works[attempt := WorkTree(remains, true)]), gone, ConcludeRun(gone, attempt, r, end));
    }
  }

  /** From the state before the intent: the intent is recorded, and then the reserve released. */
  lemma IntentThenRelease(l: Ledger, attempt: string, r: Reserve, end: ReserveState, remains: int)
    requires ValidReserve(r, attempt)
    requires (r.state.Ready? && end.ReserveAccepted?) || (r.state.Staged? && end.FailureDiscarded?)
    ensures var r1 := Advance(r, IntentFor(end)); var l1 := Stored(l, attempt, r1);
            Complete(l, Step(l1, ReleaseRun(l1, attempt, r1, end, remains)))
              == if Releasable(l, attempt)
                 then (ReleasedLedger(l, attempt, r, end), Answer(ReserveDoc(Advanced(r, end))))
                 else (Stored(l, attempt, Advanced(r, IntentFor(end))), Refused(WorkRefused))
  {
    var r1 := Advance(r, IntentFor(end));
    var l1 := Stored(l, attempt, r1);
    AdvancedReserveIsValid(r, attempt, IntentFor(end));
    PathsGrow(r.state, IntentFor(end));
    ReleaseAnswers(l1, attempt, r1, end, remains);
    assert ReleasedLedger(l1, attempt, r1, end) == ReleasedLedger(l, attempt, r, end);
  }

  /** What an end asks of the reserve: its identity, and the fate it is meant for. */
  predicate MayRelease(l: Ledger, attempt: string, r: Reserve, commit: string, tag: string, end: ReserveState) {
    SameSource(r, commit, tag) && (end.FailureDiscarded? ==> l.txDir && FailedBeforeDowntime(l, attempt, r))
  }

  predicate BeforeIntent(r: Reserve, end: ReserveState) {
    if end.ReserveAccepted? then r.state.Ready? else r.state.Staged?
  }

  lemma AcceptRuns(l: Ledger, attempt: string, r: Reserve, commit: string, tag: string, remains: int)
    requires ReserveOnRecord(l, attempt, r)
    ensures var run := AcceptRun(l, attempt, commit, tag, remains);
            var r1 := Advance(r, AcceptanceIntent); var l1 := Stored(l, attempt, r1);
            if !SameSource(r, commit, tag) then run == Halt(Refused(IdentityMismatch))
            else if r.state.ReserveAccepted? then run == Halt(Answer(ReserveDoc(r)))
            else if r.state.Ready? then run == Step(l1, ReleaseRun(l1, attempt, r1, ReserveAccepted, remains))
            else if r.state.AcceptanceIntent? then run == ReleaseRun(l, attempt, r, ReserveAccepted, remains)
            else run == Halt(Refused(NotReady))
  {
    ReserveReads(l, attempt, r);
  }

  lemma DiscardRuns(l: Ledger, attempt: string, r: Reserve, commit: string, tag: string, remains: int)
    requires ReserveOnRecord(l, attempt, r)
    ensures var run := DiscardFailedRun(l, attempt, commit, tag, remains);
            var r1 := Advance(r, FailureDiscardIntent); var l1 := Stored(l, attempt, r1);
            if !MayRelease(l, attempt, r, commit, tag, FailureDiscarded) then run.Halt? && run.outcome.Refused?
            else if r.state.FailureDiscarded? then run == Halt(Answer(ReserveDoc(r)))
            else if r.state.Staged? then run == Step(l1, ReleaseRun(l1, attempt, r1, FailureDiscarded, remains))
            else if r.state.FailureDiscardIntent? then run == ReleaseRun(l, attempt, r, FailureDiscarded, remains)
            else run == Halt(Refused(NotStaged))
  {
    ReserveReads(l, attempt, r);
    DiscardNeeds(l, attempt, r, commit, tag);
  }

  lemma DiscardNeeds(l: Ledger, attempt: string, r: Reserve, commit: string, tag: string)
    requires ReserveOnRecord(l, attempt, r)
    ensures var found := DiscardableReserve(l, attempt, commit, tag);
            if MayRelease(l, attempt, r, commit, tag, FailureDiscarded) then found == Found(r) else found.Failed?
  {
    ReserveReads(l, attempt, r);
    if l.txDir && attempt in l.txs && l.txs[attempt].TxFile? {
      var tx := l.txs[attempt].doc;
      TxReads(l, attempt, tx);
      if ValidTx(tx, attempt) && PreviousVersion in tx.facts { FailureBeforeDowntime(tx, attempt); }
    }
  }

  /**
    The authority to release a reserve. A call writes exactly if it names the reserve's source (a discard also needs the
    failed transaction), and the reserve is about to be released: before its intent, or at it with a tree that is gone
    or private. It answers without a write exactly at the end.
   */
  lemma ReleaseAuthority(
      l: Ledger, attempt: string, r: Reserve, commit: string, tag: string, end: ReserveState, remains: int)
    requires ReserveOnRecord(l, attempt, r) && (end.ReserveAccepted? || end.FailureDiscarded?)
    ensures var run := RunTo(end, l, attempt, commit, tag, remains);
            && (run.Step? <==>
                  && MayRelease(l, attempt, r, commit, tag, end)
                  && (BeforeIntent(r, end) || (r.state == IntentFor(end) && Releasable(l, attempt))))
            && (run.Halt? && run.outcome.Answer? <==>
                  MayRelease(l, attempt, r, commit, tag, end) && r.state == end)
  {
    if end.ReserveAccepted? {
      AcceptRuns(l, attempt, r, commit, tag, remains);
      if r.state.AcceptanceIntent? { ReleaseAnswers(l, attempt, r, end, remains); }
    } else {
      DiscardRuns(l, attempt, r, commit, tag, remains);
      if r.state.FailureDiscardIntent? { ReleaseAnswers(l, attempt, r, end, remains); }
    }
  }

  /** What an undisturbed release leaves: the released reserve, its intent if the tree was changed, or all as it was. */
  lemma ReleaseLeaves(
      l: Ledger, attempt: string, r: Reserve, commit: string, tag: string, end: ReserveState, remains: int)
    requires ReserveOnRecord(l, attempt, r) && (end.ReserveAccepted? || end.FailureDiscarded?)
    ensures var (l', outcome) := Complete(l, RunTo(end, l, attempt, commit, tag, remains));
            var begins := BeforeIntent(r, end) || r.state == IntentFor(end);
            && (outcome.Answer? <==>
                  MayRelease(l, attempt, r, commit, tag, end) && (r.state == end || (begins && Releasable(l, attempt))))
            && (outcome.Answer? ==> outcome == Answer(ReserveDoc(Advanced(r, end))))
            && l' == if !MayRelease(l, attempt, r, commit, tag, end) || !begins then l
                     else if Releasable(l, attempt) then ReleasedLedger(l, attempt, r, end)
                     else Stored(l, attempt, Advanced(r, IntentFor(end)))
  {
    if end.ReserveAccepted? {
      AcceptRuns(l, attempt, r, commit, tag, remains);
    } else {
      DiscardRuns(l, attempt, r, commit, tag, remains);
    }
    if BeforeIntent(r, end) {
      IntentThenRelease(l, attempt, r, end, remains);
    } else if r.state == IntentFor(end) {
      ReleaseAnswers(l, attempt, r, end, remains);
      assert Stored(l, attempt, Advanced(r, r.state)) == l by {
        assert l.reserves[attempt := ReserveFile(r)] == l.reserves;
      }
    }
  }

  /** Without a readable record nothing is written. */
  lemma UnrecordedReserveIsRefused(
      l: Ledger, attempt: string, commit: string, tag: string, end: ReserveState, remains: int)
    requires forall r :: !ReserveOnRecord(l, attempt, r)
    ensures Refuses(RunTo(end, l, attempt, commit, tag, remains)) && Refuses(ReadyRun(l, attempt))
  {
    if ReadReserve(l, attempt).Found? {
      ReserveReads(l, attempt, ReadReserve(l, attempt).doc);
      assert false;
    }
  }
}
