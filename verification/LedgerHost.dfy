/**
  The private ledger as the updater and the owner's commands drive it: each method
  takes the number of writes it may make before the process dies, and is proved to
  leave the ledger exactly as the Run of its operation, cut there, leaves it.
 */
module LedgerHost {
  import opened Durable
  import opened Names
  import opened Wrappers
  import opened Order
  import opened UpdateJournal
  import opened BootstrapReserve

  datatype Ending = Death | End(outcome: LedgerOutcome)

  /** A backup directory that a finished transaction nominates for retention. */
  datatype Backup = Backup(attempt: string, dir: string)

  function DirKey(b: Backup): seq<int> { Codes(b.dir) }

  /**
    A backup is nominated for retention: its finished transaction reached `backup_complete` and records this directory.
   */
  predicate Nominated(l: Ledger, b: Backup) {
    && b.attempt in l.txs && l.txs[b.attempt].TxFile? && ValidTx(l.txs[b.attempt].doc, b.attempt)
    && Terminal(l.txs[b.attempt].doc.phase) && BackupComplete in l.txs[b.attempt].doc.history
    && BackupDir in l.txs[b.attempt].doc.facts && l.txs[b.attempt].doc.facts[BackupDir] == Text(b.dir)
  }

  /** What the transaction of one attempt nominates. */
  function NominatedBy(l: Ledger, name: string): (r: seq<Backup>)
    requires ReadTx(l, name).Found?
    ensures |r| <= 1
    ensures forall b :: b in r <==> b.attempt == name && Nominated(l, b)
  {
    var doc := ReadTx(l, name).doc;
    if Terminal(doc.phase) && BackupComplete in doc.history then
      CompletedBackupIsRecorded(doc, name);
      [Backup(name, doc.facts[BackupDir].text)]
    else []
  }

  function NominatedAmong(l: Ledger, names: seq<string>): seq<Backup>
    requires forall k :: 0 <= k < |names| ==> ReadTx(l, names[k]).Found?
  {
    if names == [] then []
    else NominatedAmong(l, names[..|names| - 1]) + NominatedBy(l, names[|names| - 1])
  }

  lemma {:induction false} NominatedAmongExact(l: Ledger, names: seq<string>)
    requires forall k :: 0 <= k < |names| ==> ReadTx(l, names[k]).Found?
    ensures forall b :: b in NominatedAmong(l, names) <==> b.attempt in names && Nominated(l, b)
    decreases |names|
  {
    if names != [] {
      var front, last := names[..|names| - 1], names[|names| - 1];
      NominatedAmongExact(l, front);
      assert names == front + [last];
      forall b ensures b in NominatedAmong(l, names) <==> b in NominatedAmong(l, front) || b in NominatedBy(l, last) { }
    }
  }

  /** Each attempt nominates at most one directory. */
  lemma {:induction false} NominatedOnce(l: Ledger, names: seq<string>)
    requires forall k :: 0 <= k < |names| ==> ReadTx(l, names[k]).Found?
    requires forall i, j :: 0 <= i < j < |names| ==> names[i] != names[j]
    ensures DistinctAttempts(NominatedAmong(l, names))
    decreases |names|
  {
    if names != [] {
      var front, last := names[..|names| - 1], names[|names| - 1];
      NominatedOnce(l, front);
      NominatedAmongExact(l, front);
      OneMoreAttempt(NominatedAmong(l, front), NominatedBy(l, last), last);
    }
  }

  predicate DistinctAttempts(found: seq<Backup>) {
    forall j, k :: 0 <= j < k < |found| ==> found[j].attempt != found[k].attempt
  }

  lemma OneMoreAttempt(before: seq<Backup>, here: seq<Backup>, attempt: string)
    requires DistinctAttempts(before) && |here| <= 1
    requires forall b :: b in before ==> b.attempt != attempt
    requires forall b :: b in here ==> b.attempt == attempt
    ensures DistinctAttempts(before + here)
  {
  }

  class Journal {
    var sound: bool
    var txDir: bool
    var txs: map<string, TxFile>
    var reserves: map<string, ReserveFile>
    var works: map<string, Work>

    constructor (l: Ledger)
      ensures Now() == l
    {
      sound, txDir, txs, reserves, works := l.sound, l.txDir, l.txs, l.reserves, l.works;
    }

    function Now(): Ledger
      reads this
    {
      Ledger(sound, txDir, txs, reserves, works)
    }

    function Left(e: Ending): Cut<Ledger, LedgerOutcome>
      reads this
    {
      if e.Death? then Died(Now()) else Ended(Now(), e.outcome)
    }

    method Begin(attempt: string, version: string, commit: string, tag: string, writes: nat) returns (e: Ending)
      modifies this
      ensures Left(e) == CutAfter(old(Now()), BeginRun(old(Now()), attempt, version, commit, tag), writes)
    {
      var begun := BeginTx(attempt, version, commit, tag);
      if begun.Rejected? { return End(Refused(TxRefusal(begun.error))); }
      if !sound { return End(Refused(DirRefused)); }
      var left := writes;
      if !txDir {
        if left == 0 { return Death; }
        left := left - 1;
        txDir := true;
      }
      assert CutAfter(old(Now()), BeginRun(old(Now()), attempt, version, commit, tag), writes)
          == CutAfter(Now(), BeginInDir(Now(), attempt, begun.doc), left);
      if attempt in txs {
        var existing := ReadTx(Now(), attempt);
        if existing.Failed? { return End(Refused(existing.error)); }
        if existing.doc != begun.doc { return End(Refused(TxRefusal(AttemptCollision))); }
        return End(Answer(TxDoc(existing.doc)));
      }
      ghost var todo := BeginInDir(Now(), attempt, begun.doc);
      if left == 0 { return Death; }
      txs := txs[attempt := TxFile(begun.doc)];
      assert CutAfter(old(Now()), BeginRun(old(Now()), attempt, version, commit, tag), writes)
          == CutAfter(Now(), todo.rest, left - 1);
      return End(Answer(TxDoc(begun.doc)));
    }

    method Mark(attempt: string, phase: Phase, updates: Facts, writes: nat) returns (e: Ending)
      modifies this
      ensures Left(e) == CutAfter(old(Now()), MarkRun(old(Now()), attempt, phase, updates), writes)
    {
      if phase.Unsupported? { return End(Refused(TxRefusal(UnsupportedPhase))); }
      var found := ReadTx(Now(), attempt);
      if found.Failed? { return End(Refused(found.error)); }
      var marked := MarkTx(found.doc, phase, updates);
      if marked.Rejected? { return End(Refused(TxRefusal(marked.error))); }
      if phase == found.doc.phase { return End(Answer(TxDoc(found.doc))); }
      ghost var todo := MarkRun(Now(), attempt, phase, updates);
      if writes == 0 { return Death; }
      txs := txs[attempt := TxFile(marked.doc)];
      assert CutAfter(old(Now()), todo, writes) == CutAfter(Now(), todo.rest, writes - 1);
      return End(Answer(TxDoc(marked.doc)));
    }

    /** The bootstrap ceremony: the reserve's record first, then its tree. */
    method Ceremony(attempt: string, version: string, commit: string, baseline: string, content: int, writes: nat)
        returns (e: Ending)
      modifies this
      ensures Left(e)
           == CutAfter(old(Now()), CeremonyRun(old(Now()), attempt, version, commit, baseline, content), writes)
    {
      if !sound { return End(Refused(DirRefused)); }
      if !AttemptId(attempt) || !Commit(commit) || !AsciiVersion(version) || baseline !in BASELINES {
        return End(Refused(BadAttemptId));
      }
      if attempt in works || attempt in reserves { return End(Refused(NotFresh)); }
      ghost var todo := CeremonyRun(Now(), attempt, version, commit, baseline, content);
      if writes == 0 { return Death; }
      var r := Reserve(2, attempt, true, commit, "v" + version, version, baseline, Staged, [Staged]);
      reserves := reserves[attempt := ReserveFile(r)];
      assert CutAfter(old(Now()), todo, writes) == CutAfter(Now(), todo.rest, writes - 1);
      if writes == 1 { return Death; }
      works := works[attempt := WorkTree(content, true)];
      assert CutAfter(old(Now()), todo, writes) == CutAfter(Now(), todo.rest.rest, writes - 2);
      return End(Answer(Done));
    }

    method MarkReserveReady(attempt: string, writes: nat) returns (e: Ending)
      modifies this
      ensures Left(e) == CutAfter(old(Now()), ReadyRun(old(Now()), attempt), writes)
    {
      var found := ReadReserve(Now(), attempt);
      if found.Failed? { return End(Refused(found.error)); }
      var r := found.doc;
      if r.state == Ready { return End(Answer(ReserveDoc(r))); }
      if r.state != Staged { return End(Refused(NotStaged)); }
      var tx := ReadTx(Now(), attempt);
      if tx.Failed? { return End(Refused(tx.error)); }
      if tx.doc.phase != Success { return End(Refused(NotSuccessful)); }
      if !SameIdentity(tx.doc, r) { return End(Refused(IdentityMismatch)); }
      if attempt !in works { return End(Refused(WorkMissing)); }
      if !works[attempt].WorkTree? || !works[attempt].isPrivate { return End(Refused(WorkRefused)); }
      ghost var todo := ReadyRun(Now(), attempt);
      if writes == 0 { return Death; }
      reserves := reserves[attempt := ReserveFile(Advance(r, Ready))];
      assert CutAfter(old(Now()), todo, writes) == CutAfter(Now(), todo.rest, writes - 1);
      return End(Answer(ReserveDoc(Advance(r, Ready))));
    }

    method AcceptReserve(attempt: string, commit: string, tag: string, remains: int, writes: nat) returns (e: Ending)
      modifies this
      ensures Left(e) == CutAfter(old(Now()), AcceptRun(old(Now()), attempt, commit, tag, remains), writes)
    {
      var found := ReadReserve(Now(), attempt);
      if found.Failed? { return End(Refused(found.error)); }
      var r := found.doc;
      if r.commit != commit || r.tag != tag { return End(Refused(IdentityMismatch)); }
      if r.state == ReserveAccepted { return End(Answer(ReserveDoc(r))); }
      var left := writes;
      if r.state == Ready {
        ghost var todo := AcceptRun(Now(), attempt, commit, tag, remains);
        if left == 0 { return Death; }
        left := left - 1;
        r := Advance(r, AcceptanceIntent);
        reserves := reserves[attempt := ReserveFile(r)];
        assert CutAfter(old(Now()), todo, writes)
            == CutAfter(Now(), ReleaseRun(Now(), attempt, r, ReserveAccepted, remains), left);
      } else if r.state != AcceptanceIntent {
        return End(Refused(NotReady));
      }
      e := Release(attempt, r, ReserveAccepted, remains, left);
    }

    method DiscardFailedReserve(attempt: string, commit: string, tag: string, remains: int, writes: nat)
        returns (e: Ending)
      modifies this
      ensures Left(e) == CutAfter(old(Now()), DiscardFailedRun(old(Now()), attempt, commit, tag, remains), writes)
    {
      var found := DiscardableReserve(Now(), attempt, commit, tag);
      if found.Failed? { return End(Refused(found.error)); }
      e := Discard(attempt, found.doc, remains, writes);
    }

    method Discard(attempt: string, reserve: Reserve, remains: int, writes: nat) returns (e: Ending)
      modifies this
      ensures Left(e) == CutAfter(old(Now()), DiscardRun(old(Now()), attempt, reserve, remains), writes)
    {
      var r := reserve;
      if r.state == FailureDiscarded { return End(Answer(ReserveDoc(r))); }
      var left := writes;
      if r.state == Staged {
        ghost var todo := DiscardRun(Now(), attempt, r, remains);
        if left == 0 { return Death; }
        left := left - 1;
        r := Advance(r, FailureDiscardIntent);
        reserves := reserves[attempt := ReserveFile(r)];
        assert CutAfter(old(Now()), todo, writes)
            == CutAfter(Now(), ReleaseRun(Now(), attempt, r, FailureDiscarded, remains), left);
      } else if r.state != FailureDiscardIntent {
        return End(Refused(NotStaged));
      }
      e := Release(attempt, r, FailureDiscarded, remains, left);
    }

    /** The common tail of both: the tree goes, then the end state is recorded. */
    method Release(attempt: string, r: Reserve, end: ReserveState, remains: int, writes: nat) returns (e: Ending)
      modifies this
      ensures Left(e) == CutAfter(old(Now()), ReleaseRun(old(Now()), attempt, r, end, remains), writes)
    {
      var left := writes;
      if attempt in works {
        if !works[attempt].WorkTree? || !works[attempt].isPrivate { return End(Refused(WorkRefused)); }
        ghost var todo := ReleaseRun(Now(), attempt, r, end, remains);
        if left == 0 { return Death; }
        works := works[attempt := WorkTree(remains, true)];
        assert CutAfter(old(Now()), todo, writes) == CutAfter(Now(), todo.rest, left - 1);
        if left == 1 { return Death; }
        works := works - {attempt};
        assert works == old(works) - {attempt};
        left := left - 2;
      }
      ghost var todo := ConcludeRun(Now(), attempt, r, end);
      assert CutAfter(old(Now()), ReleaseRun(old(Now()), attempt, r, end, remains), writes)
          == CutAfter(Now(), todo, left);
      if left == 0 { return Death; }
      reserves := reserves[attempt := ReserveFile(Advance(r, end))];
      assert CutAfter(old(Now()), ReleaseRun(old(Now()), attempt, r, end, remains), writes)
          == CutAfter(Now(), todo.rest, left - 1);
      return End(Answer(ReserveDoc(Advance(r, end))));
    }

    method Perform(op: Op, writes: nat) returns (e: Ending)
      modifies this
      ensures Left(e) == CutAfter(old(Now()), OpRun(old(Now()), op), writes)
    {
      match op
      case Begin(a, version, commit, tag) => e := Begin(a, version, commit, tag, writes);
      case Mark(a, phase, updates) => e := Mark(a, phase, updates, writes);
      case Ceremony(a, version, commit, baseline, content) =>
        e := Ceremony(a, version, commit, baseline, content, writes);
      case MakeReady(a) => e := MarkReserveReady(a, writes);
      case Accept(a, commit, tag, remains) => e := AcceptReserve(a, commit, tag, remains, writes);
      case DiscardFailed(a, commit, tag, remains) => e := DiscardFailedReserve(a, commit, tag, remains, writes);
    }

    /** A ledger's life: calls one after the other, each cut off or not. */
    method Live(schedule: seq<Call>)
      modifies this
      ensures Now() == After(old(Now()), schedule)
      ensures old(Consistent(Now())) ==> Consistent(Now())
    {
      if Consistent(Now()) { EveryRunIsConsistent(Now(), schedule); }
      assert schedule[0..] == schedule;
      for i := 0 to |schedule|
        invariant After(Now(), schedule[i..]) == After(old(Now()), schedule)
      {
        assert schedule[i..][1..] == schedule[i + 1..];
        var _ := Perform(schedule[i].op, schedule[i].writes);
      }
    }

    /**
      `completed_update_backups`: every transaction is read, in name order; one that cannot be read stops the call.
      The answer is exactly the nominated backups, ordered by directory.
     */
    method CompletedBackups(listing: seq<string>) returns (backups: Option<seq<Backup>>)
      requires txDir ==> forall name :: name in listing <==> name in txs
      requires forall i, j :: 0 <= i < j < |listing| ==> listing[i] != listing[j]
      ensures backups.None? <==> !sound || (txDir && exists name :: name in txs && ReadTx(Now(), name).Failed?)
      ensures backups.Some? && !txDir ==> backups.value == []
      ensures backups.Some? && txDir ==> forall b :: b in backups.value <==> Nominated(Now(), b)
      ensures backups.Some? ==> Ascending(Keys(backups.value, DirKey))
    {
      if !sound { return None; }
      if !txDir { return Some([]); }
      var found: seq<Backup> := [];
      for i := 0 to |listing|
        invariant forall k :: 0 <= k < i ==> ReadTx(Now(), listing[k]).Found?
        invariant found == NominatedAmong(Now(), listing[..i])
      {
        assert listing[i] in listing;
        if ReadTx(Now(), listing[i]).Failed? { return None; }
        assert listing[..i + 1][..i] == listing[..i];
        found := found + NominatedBy(Now(), listing[i]);
      }
      assert listing[..|listing|] == listing;
      NominatedAmongExact(Now(), listing);
      NominatedOnce(Now(), listing);
      NominatedDirsDiffer(Now(), found);
      SortAscends(found, DirKey);
      SameElements(SortBy(found, DirKey), found);
      return Some(SortBy(found, DirKey));
    }
  }

  lemma NominatedDirsDiffer(l: Ledger, found: seq<Backup>)
    requires forall b :: b in found ==> Nominated(l, b)
    requires DistinctAttempts(found)
    ensures DistinctKeys(found, DirKey)
  {
    forall j, k | 0 <= j < k < |found| ensures DirKey(found[j]) != DirKey(found[k]) {
      if DirKey(found[j]) == DirKey(found[k]) {
        CodesInjective(found[j].dir, found[k].dir);
        assert found[j] in found && found[k] in found;
        BackupNamesItsAttempt(found[j].dir, found[j].attempt, found[k].attempt);
      }
    }
  }
}
