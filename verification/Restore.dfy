/**
  Applying a backup to the configuration directory (backend/backup/restore.py): a
  checkpoint, the application of the backup's items, and the rollback when anything
  fails. A step that fails leaves what the steps before it have written.
 */
module Restore {
  import opened Durable
  import opened Wrappers
  import opened Utf8
  import opened EnvFile
  import opened EnvMerge

  /** The files a restore may touch. */
  datatype Name = Db | Wal | Shm | Env | Config

  datatype Entry = Regular(bytes: seq<byte>) | Link | Directory

  /** The configuration directory; a name that is not in the map is absent. */
  type Files = map<Name, Entry>

  /** What the backup brings. `subset` is its settings text, `token` a fresh secret for the merge. */
  datatype Items = Items(config: Option<seq<byte>>, db: seq<byte>, subset: string, token: string)

  /** A checkpointed file: a copy, or for `.env` its text in memory. */
  datatype Saved = Copy(bytes: seq<byte>) | EnvText(text: string)

  type Checkpoint = map<Name, Saved>

  datatype Applied = AllApplied | Failed

  datatype Result = Raised | Restored | RolledBack | RollbackFailed

  const CHECKPOINT_FILES := [Db, Wal, Shm, Env, Config]

  function EnvObject(files: Files, gate: bool): Object {
    if Env !in files then Absent
    else match files[Env]
      case Regular(bytes) => File(bytes, gate)
      case Link => Foreign
      case Directory => Foreign
  }

  /******* Checkpoint *******/

  /** What is saved of one file, if it is regular; `gate` is the verdict on the mode and owner of `.env`. */
  function Save(files: Files, name: Name, gate: bool): Option<Saved>
    requires name in files && files[name].Regular?
  {
    if name == Env then
      match Read(File(files[Env].bytes, gate))
      case None => None
      case Some(text) => Some(EnvText(text))
    else Some(Copy(files[name].bytes))
  }

  /** `_make_checkpoint`; none if `.env` cannot be read. */
  function MakeCheckpoint(files: Files, gate: bool): Option<Checkpoint> {
    if Env in files && files[Env].Regular? && Save(files, Env, gate).None? then None
    else Some(map n | n in files && files[n].Regular? :: Save(files, n, gate).value)
  }

  /******* Apply *******/

  function ApplyRun(files: Files, items: Items, sound: bool): Run<Files, Applied> {
    if items.config.Some? then
      if Config in files && files[Config].Directory? then Halt(Failed)
      else
        var files1 := files[Config := Regular(items.config.value)];
        Step(files1, ApplyDb(files1, items, sound))
    else ApplyDb(files, items, sound)
  }

  function ApplyDb(files: Files, items: Items, sound: bool): Run<Files, Applied> {
    if Db in files && files[Db].Directory? then Halt(Failed)
    else
      var files1 := files[Db := Regular(items.db)];
      Step(files1, DropWal(files1, items, sound))
  }

  function DropWal(files: Files, items: Items, sound: bool): Run<Files, Applied> {
    if Wal !in files then DropShm(files, items, sound)
    else if files[Wal].Directory? then Halt(Failed)
    else Step(files - {Wal}, DropShm(files - {Wal}, items, sound))
  }

  function DropShm(files: Files, items: Items, sound: bool): Run<Files, Applied> {
    if Shm !in files then ApplyEnv(files, items, sound)
    else if files[Shm].Directory? then Halt(Failed)
    else Step(files - {Shm}, ApplyEnv(files - {Shm}, items, sound))
  }

  /** The merge of the settings, and the integrity check of the new database. */
  function ApplyEnv(files: Files, items: Items, sound: bool): Run<Files, Applied> {
    match Read(EnvObject(files, true))
    case None => Halt(Failed)
    case Some(text) =>
      var merged := Merge(text, items.subset, items.token);
      if !MayWrite(EnvObject(files, true), merged) then Halt(Failed)
      else Step(files[Env := Regular(BytesOf(merged))], Halt(if sound then AllApplied else Failed))
  }

  /******* Rollback *******/

  function SavedBytes(s: Saved): seq<byte> {
    match s
    case Copy(bytes) => bytes
    case EnvText(text) => BytesOf(text)
  }

  /** A saved file can be put back: over anything but a directory, and `.env` only over a regular file. */
  predicate CanPutBack(files: Files, name: Name, s: Saved) {
    match s
    case Copy(_) => !(name in files && files[name].Directory?)
    case EnvText(text) => MayWrite(EnvObject(files, true), text)
  }

  function PutBack(files: Files, saved: Checkpoint, names: seq<Name>): Run<Files, bool>
    decreases |names|
  {
    if names == [] then DropSidecars(files, saved, [Wal, Shm])
    else if names[0] !in saved then PutBack(files, saved, names[1..])
    else if !CanPutBack(files, names[0], saved[names[0]]) then Halt(false)
    else
      var files1 := files[names[0] := Regular(SavedBytes(saved[names[0]]))];
      Step(files1, PutBack(files1, saved, names[1..]))
  }

  function DropSidecars(files: Files, saved: Checkpoint, names: seq<Name>): Run<Files, bool>
    decreases |names|
  {
    if names == [] then Halt(true)
    else if names[0] in saved || names[0] !in files then DropSidecars(files, saved, names[1..])
    else if files[names[0]].Directory? then Halt(false)
    else Step(files - {names[0]}, DropSidecars(files - {names[0]}, saved, names[1..]))
  }

  function RollbackRun(files: Files, saved: Checkpoint): Run<Files, bool> { PutBack(files, saved, CHECKPOINT_FILES) }

  /******* The whole restore *******/

  /** Where the failures strike: after so many writes of the application, and of the rollback. */
  datatype Plan = Plan(admitted: bool, gate: bool, sound: bool, applyWrites: nat, rollbackWrites: nat)

  /** The directory as the application leaves it, and whether the application succeeded. */
  function AfterApply(files: Files, items: Items, plan: Plan): (Files, bool) {
    var cut := CutAfter(files, ApplyRun(files, items, plan.sound), plan.applyWrites);
    (cut.disk, cut.Ended? && cut.outcome.AllApplied?)
  }

  function AfterRollback(files: Files, saved: Checkpoint, plan: Plan): (Files, bool) {
    var cut := CutAfter(files, RollbackRun(files, saved), plan.rollbackWrites);
    (cut.disk, cut.Ended? && cut.outcome)
  }

  /** `restore_backup`. */
  function RestoreBackup(files: Files, items: Items, plan: Plan): (Files, Result) {
    if !plan.admitted || MakeCheckpoint(files, plan.gate).None? then (files, Raised)
    else
      var saved := MakeCheckpoint(files, plan.gate).value;
      var (applied, ok) := AfterApply(files, items, plan);
      if ok then (applied, Restored)
      else
        var (back, done) := AfterRollback(applied, saved, plan);
        (back, if done then RolledBack else RollbackFailed)
  }

  /******* What a rollback restores *******/

  lemma {:induction false} DropsSidecars(files: Files, saved: Checkpoint, names: seq<Name>, writes: nat)
    ensures var cut := CutAfter(files, DropSidecars(files, saved, names), writes);
            cut.Ended? && cut.outcome ==> forall n ::
              (n in cut.disk <==> n in files && !(n in names && n !in saved)) &&
                  (n in cut.disk ==> cut.disk[n] == files[n])
    decreases |names|
  {
    if names != [] {
      var files1 := if names[0] in saved || names[0] !in files then files else files - {names[0]};
      DropsSidecars(files1, saved, names[1..], writes);
      if writes > 0 { DropsSidecars(files1, saved, names[1..], writes - 1); }
      assert names == [names[0]] + names[1..];
    }
  }

  lemma {:induction false} PutsBack(files: Files, saved: Checkpoint, names: seq<Name>, writes: nat)
    ensures var cut := CutAfter(files, PutBack(files, saved, names), writes);
            cut.Ended? && cut.outcome ==>
              && (forall n :: n in saved && n in names ==>
                   n in cut.disk && cut.disk[n] == Regular(SavedBytes(saved[n])))
              && (Wal !in saved ==> Wal !in cut.disk) && (Shm !in saved ==> Shm !in cut.disk)
              && (forall n :: n !in names && n in saved ==>
                   (n in cut.disk <==> n in files) && (n in cut.disk ==> cut.disk[n] == files[n]))
              && (forall n :: n !in saved && n != Wal && n != Shm ==>
                    (n in cut.disk <==> n in files) && (n in cut.disk ==> cut.disk[n] == files[n]))
    decreases |names|
  {
    if names == [] {
      DropsSidecars(files, saved, [Wal, Shm], writes);
    } else if names[0] !in saved {
      PutsBack(files, saved, names[1..], writes);
      assert names == [names[0]] + names[1..];
    } else if CanPutBack(files, names[0], saved[names[0]]) && writes > 0 {
      PutsBack(files[names[0] := Regular(SavedBytes(saved[names[0]]))], saved, names[1..], writes - 1);
      assert names == [names[0]] + names[1..];
    }
  }

  lemma CheckpointSavesBytes(files: Files, gate: bool)
    requires MakeCheckpoint(files, gate).Some?
    ensures var saved := MakeCheckpoint(files, gate).value;
            forall n :: (n in saved <==> n in files && files[n].Regular?) &&
                (n in saved ==> SavedBytes(saved[n]) == files[n].bytes)
  {
    if Env in files && files[Env].Regular? { BytesRoundTrip(files[Env].bytes); }
  }

  lemma EveryFileIsChecked(n: Name)
    ensures n in CHECKPOINT_FILES
  {
    match n
    case Db => assert CHECKPOINT_FILES[0] == n;
    case Wal => assert CHECKPOINT_FILES[1] == n;
    case Shm => assert CHECKPOINT_FILES[2] == n;
    case Env => assert CHECKPOINT_FILES[3] == n;
    case Config => assert CHECKPOINT_FILES[4] == n;
  }

  /** What "rolled back" means, for the files before, those the application left, and those after. */
  ghost predicate BackFrom(files: Files, applied: Files, back: Files) {
    && (forall n :: n in files && files[n].Regular? ==> n in back && back[n] == files[n])
    && (forall n :: (n == Wal || n == Shm) && !(n in files && files[n].Regular?) ==> n !in back)
    && (forall n :: n != Wal && n != Shm && !(n in files && files[n].Regular?) ==>
          (n in back <==> n in applied) && (n in back ==> back[n] == applied[n]))
  }

  /**
    "Rolled back" means, wherever the failure struck: every regular file has its old bytes, sidecars that were
    not regular files are gone, and any other file is as the interrupted application left it.
   */
  lemma RolledBackExactly(files: Files, items: Items, plan: Plan)
    ensures RestoreBackup(files, items, plan).1 == RolledBack ==>
              BackFrom(files, AfterApply(files, items, plan).0, RestoreBackup(files, items, plan).0)
  {
    if RestoreBackup(files, items, plan).1 != RolledBack { return; }
    var saved := MakeCheckpoint(files, plan.gate).value;
    var applied := AfterApply(files, items, plan).0;
    CheckpointSavesBytes(files, plan.gate);
    PutsBack(applied, saved, CHECKPOINT_FILES, plan.rollbackWrites);
    forall n ensures n in CHECKPOINT_FILES { EveryFileIsChecked(n); }
  }

  /******* What a successful restore installs *******/

  /**
    The database is the backup's, without sidecars; `.env` is the merge; the configuration is the backup's, if it has
    one.
   */
  ghost predicate Installed(files: Files, items: Items, after: Files) {
    && Db in after && after[Db] == Regular(items.db) && Wal !in after && Shm !in after
    && (if items.config.Some? then Config in after && after[Config] == Regular(items.config.value)
        else (Config in after <==> Config in files) && (Config in after ==> after[Config] == files[Config]))
    && Read(EnvObject(files, true)).Some?
    && Read(EnvObject(after, true)) == Some(Merge(Read(EnvObject(files, true)).value, items.subset, items.token))
  }

  lemma RestoredExactly(files: Files, items: Items, plan: Plan)
    ensures RestoreBackup(files, items, plan).1 == Restored ==>
              Installed(files, items, RestoreBackup(files, items, plan).0)
  {
    if RestoreBackup(files, items, plan).1 != Restored { return; }
    EndedIsComplete(files, ApplyRun(files, items, plan.sound), plan.applyWrites);
    CompletedApply(files, items, plan.sound);
  }

  lemma CompletedApply(files: Files, items: Items, sound: bool)
    requires Complete(files, ApplyRun(files, items, sound)).1.AllApplied?
    ensures Installed(files, items, Complete(files, ApplyRun(files, items, sound)).0)
  {
    var files1 := if items.config.Some? then files[Config := Regular(items.config.value)] else files;
    CompletedDb(files1, items, sound);
    assert EnvObject(files1, true) == EnvObject(files, true);
    assert EnvObject(files1[Db := Regular(items.db)], true) == EnvObject(files, true);
  }

  /** What the steps after the database leave of a directory d. */
  ghost predicate Merged(d: Files, items: Items, after: Files) {
    && (forall n :: n != Env && n != Wal && n != Shm ==> (n in after <==> n in d) && (n in after ==> after[n] == d[n]))
    && Read(EnvObject(d, true)).Some?
    && Read(EnvObject(after, true)) == Some(Merge(Read(EnvObject(d, true)).value, items.subset, items.token))
  }

  lemma CompletedDb(d: Files, items: Items, sound: bool)
    requires Complete(d, ApplyDb(d, items, sound)).1.AllApplied?
    ensures var after := Complete(d, ApplyDb(d, items, sound)).0;
            Merged(d[Db := Regular(items.db)], items, after) && Wal !in after && Shm !in after
  {
    CompletedWal(d[Db := Regular(items.db)], items, sound);
  }

  lemma CompletedWal(d: Files, items: Items, sound: bool)
    requires Complete(d, DropWal(d, items, sound)).1.AllApplied?
    ensures var after := Complete(d, DropWal(d, items, sound)).0;
            Merged(d, items, after) && Wal !in after && Shm !in after
  {
    var d1 := if Wal in d then d - {Wal} else d;
    CompletedShm(d1, items, sound);
    SameMerge(d, d1, items, Complete(d1, DropShm(d1, items, sound)).0);
  }

  lemma SameMerge(d: Files, d1: Files, items: Items, after: Files)
    requires Merged(d1, items, after) && (d1 == d || d1 == d - {Wal} || d1 == d - {Shm})
    ensures Merged(d, items, after)
  {
    assert EnvObject(d1, true) == EnvObject(d, true);
  }

  lemma CompletedShm(d: Files, items: Items, sound: bool)
    requires Complete(d, DropShm(d, items, sound)).1.AllApplied?
    ensures var after := Complete(d, DropShm(d, items, sound)).0;
            Merged(d, items, after) && Shm !in after && (Wal in after <==> Wal in d)
  {
    var d1 := if Shm in d then d - {Shm} else d;
    assert Complete(d, DropShm(d, items, sound)) == Complete(d1, ApplyEnv(d1, items, sound));
    CompletedEnv(d1, items, sound);
    SameMerge(d, d1, items, Complete(d1, ApplyEnv(d1, items, sound)).0);
  }

  lemma CompletedEnv(d: Files, items: Items, sound: bool)
    requires Complete(d, ApplyEnv(d, items, sound)).1.AllApplied?
    ensures var after := Complete(d, ApplyEnv(d, items, sound)).0;
            && Read(EnvObject(d, true)).Some? && Env in after && after == d[Env := after[Env]]
            && Read(EnvObject(after, true)) == Some(Merge(Read(EnvObject(d, true)).value, items.subset, items.token))
  {
    var merged := Merge(Read(EnvObject(d, true)).value, items.subset, items.token);
    WrittenIsRead(EnvObject(d, true), merged);
  }

  /******* When a restore succeeds *******/

  /** The application can go through: no directory is in its way, and the settings can be read, merged and written. */
  predicate CanApply(files: Files, items: Items) {
    && (items.config.Some? ==> !IsDirectory(files, Config))
    && !IsDirectory(files, Db) && !IsDirectory(files, Wal) && !IsDirectory(files, Shm)
    && var env := EnvObject(files, true);
       Read(env).Some? && MayWrite(env, Merge(Read(env).value, items.subset, items.token))
  }

  /** Every write of an application that goes through. */
  function ApplyWrites(files: Files, items: Items): nat {
    (if items.config.Some? then 1 else 0) + 1 + (if Wal in files then 1 else 0) + (if Shm in files then 1 else 0) + 1
  }

  lemma EnvAnswers(d: Files, items: Items, sound: bool)
    ensures var env := EnvObject(d, true);
            var may := Read(env).Some? && MayWrite(env, Merge(Read(env).value, items.subset, items.token));
            && (Complete(d, ApplyEnv(d, items, sound)).1.AllApplied? <==> may && sound)
            && (may ==> Writes(ApplyEnv(d, items, sound)) == 1)
  {
  }

  lemma SidecarsAnswer(d: Files, items: Items, sound: bool)
    ensures var env := EnvObject(d, true);
            var may := Read(env).Some? && MayWrite(env, Merge(Read(env).value, items.subset, items.token));
            && (Complete(d, DropWal(d, items, sound)).1.AllApplied? <==>
                  may && sound && !IsDirectory(d, Wal) && !IsDirectory(d, Shm))
            && (may && !IsDirectory(d, Wal) && !IsDirectory(d, Shm) ==>
                  Writes(DropWal(d, items, sound))
                    == (if Wal in d then 1 else 0) + (if Shm in d then 1 else 0) + 1)
  {
    var d1 := if Wal in d then d - {Wal} else d;
    var d2 := if Shm in d1 then d1 - {Shm} else d1;
    assert EnvObject(d2, true) == EnvObject(d1, true) == EnvObject(d, true);
    EnvAnswers(d2, items, sound);
    ShmAnswers(d1, items, sound);
  }

  lemma ShmAnswers(d: Files, items: Items, sound: bool)
    ensures var rest := if Shm in d then d - {Shm} else d;
            if IsDirectory(d, Shm) then Complete(d, DropShm(d, items, sound)).1.Failed?
            else
              && Complete(d, DropShm(d, items, sound)) == Complete(rest, ApplyEnv(rest, items, sound))
              && Writes(DropShm(d, items, sound))
                   == (if Shm in d then 1 else 0) + Writes(ApplyEnv(rest, items, sound))
  {
  }

  lemma ApplyAnswers(files: Files, items: Items, sound: bool)
    ensures Complete(files, ApplyRun(files, items, sound)).1.AllApplied? <==> CanApply(files, items) && sound
    ensures CanApply(files, items) ==> Writes(ApplyRun(files, items, sound)) == ApplyWrites(files, items)
  {
    var d1 := if items.config.Some? then files[Config := Regular(items.config.value)] else files;
    ConfigAnswers(files, items, sound);
    DbAnswers(d1, items, sound);
    SidecarsAnswer(d1[Db := Regular(items.db)], items, sound);
    SameSettings(files, d1, d1[Db := Regular(items.db)]);
  }

  lemma ConfigAnswers(d: Files, items: Items, sound: bool)
    ensures var rest := if items.config.Some? then d[Config := Regular(items.config.value)] else d;
            if items.config.Some? && IsDirectory(d, Config) then Complete(d, ApplyRun(d, items, sound)).1.Failed?
            else
              && Complete(d, ApplyRun(d, items, sound)) == Complete(rest, ApplyDb(rest, items, sound))
              && Writes(ApplyRun(d, items, sound))
                   == (if items.config.Some? then 1 else 0) + Writes(ApplyDb(rest, items, sound))
  {
  }

  lemma SameSettings(a: Files, b: Files, c: Files)
    requires Same(a, b, Env) && Same(b, c, Env)
    ensures EnvObject(c, true) == EnvObject(a, true)
  {
  }

  lemma DbAnswers(d: Files, items: Items, sound: bool)
    ensures var rest := d[Db := Regular(items.db)];
            if IsDirectory(d, Db) then Complete(d, ApplyDb(d, items, sound)).1.Failed?
            else
              && Complete(d, ApplyDb(d, items, sound)) == Complete(rest, DropWal(rest, items, sound))
              && Writes(ApplyDb(d, items, sound)) == 1 + Writes(DropWal(rest, items, sound))
  {
  }

  /** The checkpoint can be made: settings that are a regular file are canonical and can be read. */
  predicate CanCheckpoint(files: Files, gate: bool) { IsSaved(files, Env) ==> Read(File(files[Env].bytes, gate)).Some? }

  /**
    A restore succeeds exactly if the backup is admitted, the checkpoint can be made, the application can go through, no
    write fails and the database is sound. It raises, and leaves all files, exactly before the application.
   */
  lemma RestoredIff(files: Files, items: Items, plan: Plan)
    ensures RestoreBackup(files, items, plan).1 == Restored <==>
              && plan.admitted && CanCheckpoint(files, plan.gate)
              && CanApply(files, items) && ApplyWrites(files, items) <= plan.applyWrites && plan.sound
    ensures RestoreBackup(files, items, plan).1 == Raised <==> !plan.admitted || !CanCheckpoint(files, plan.gate)
    ensures RestoreBackup(files, items, plan).1 == Raised ==> RestoreBackup(files, items, plan).0 == files
  {
    ApplyAnswers(files, items, plan.sound);
    EndedIsComplete(files, ApplyRun(files, items, plan.sound), plan.applyWrites);
  }

  /******* When a rollback succeeds, and when it restores everything *******/

  predicate IsDirectory(files: Files, n: Name) { n in files && files[n].Directory? }

  predicate IsLink(files: Files, n: Name) { n in files && files[n].Link? }

  predicate IsSaved(files: Files, n: Name) { n in files && files[n].Regular? }

  /** The application gets past the configuration. */
  predicate ConfigPasses(files: Files, items: Items) { items.config.Some? ==> !IsDirectory(files, Config) }

  /** A name the application writes although there is no file to save before it. */
  predicate Overwrites(files: Files, items: Items, n: Name) {
    && !IsSaved(files, n) && !IsDirectory(files, n) && ConfigPasses(files, items)
    && match n
       case Config => items.config.Some?
       case Db => true
       case Env => Env !in files && !IsDirectory(files, Db) && MayWrite(Absent, Merge("", items.subset, items.token))
       case Wal => false
       case Shm => false
  }

  predicate Same(files: Files, d: Files, n: Name) { (n in d <==> n in files) && (n in d ==> d[n] == files[n]) }

  /**
    What the application keeps while it runs: directories stay, saved files stay files, what it does not overwrite
    stays.
   */
  ghost predicate Kept(files: Files, items: Items, d: Files) {
    && (forall n :: n != Wal && n != Shm && !IsSaved(files, n) && !Overwrites(files, items, n) ==> Same(files, d, n))
    && (forall n :: IsDirectory(files, n) <==> IsDirectory(d, n))
    && (forall n :: IsSaved(files, n) && n != Wal && n != Shm ==> IsSaved(d, n))
  }

  ghost function Keeping(files: Files, items: Items): Files -> bool {
    d => Kept(files, items, d)
  }

  /** On the way to the settings: nothing has refused yet. */
  ghost predicate OnTheWay(files: Files, items: Items, d: Files) {
    Kept(files, items, d) && Same(files, d, Env) && ConfigPasses(files, items) && !IsDirectory(files, Db)
  }

  lemma ApplyEnvKeeps(files: Files, items: Items, d: Files, sound: bool)
    requires OnTheWay(files, items, d)
    ensures Throughout(d, ApplyEnv(d, items, sound), Keeping(files, items))
  {
    var env := EnvObject(d, true);
    var text := Read(env);
    if text.Some? {
      var merged := Merge(text.value, items.subset, items.token);
      if MayWrite(env, merged) { WriteKeeps(files, items, d, Env, BytesOf(merged)); }
    }
  }

  lemma WriteKeeps(files: Files, items: Items, d: Files, name: Name, bytes: seq<byte>)
    requires Kept(files, items, d) && !IsDirectory(d, name) && (IsSaved(files, name) || Overwrites(files, items, name))
    ensures Kept(files, items, d[name := Regular(bytes)])
  {
  }

  lemma DroppingStaysOnTheWay(files: Files, items: Items, d: Files, n: Name)
    requires OnTheWay(files, items, d) && (n == Wal || n == Shm) && !IsDirectory(d, n)
    ensures OnTheWay(files, items, d - {n})
  {
    assert forall k :: k != n ==> Same(d, d - {n}, k);
  }

  lemma ShmDropKeeps(files: Files, items: Items, d: Files, sound: bool)
    requires OnTheWay(files, items, d)
    ensures Throughout(d, DropShm(d, items, sound), Keeping(files, items))
  {
    if Shm !in d {
      ApplyEnvKeeps(files, items, d, sound);
    } else if !d[Shm].Directory? {
      DroppingStaysOnTheWay(files, items, d, Shm);
      ApplyEnvKeeps(files, items, d - {Shm}, sound);
    }
  }

  lemma WalDropKeeps(files: Files, items: Items, d: Files, sound: bool)
    requires OnTheWay(files, items, d)
    ensures Throughout(d, DropWal(d, items, sound), Keeping(files, items))
  {
    if Wal !in d {
      ShmDropKeeps(files, items, d, sound);
    } else if !d[Wal].Directory? {
      DroppingStaysOnTheWay(files, items, d, Wal);
      ShmDropKeeps(files, items, d - {Wal}, sound);
    }
  }

  lemma ApplyDbKeeps(files: Files, items: Items, d: Files, sound: bool)
    requires Kept(files, items, d) && Same(files, d, Env) && ConfigPasses(files, items)
    ensures Throughout(d, ApplyDb(d, items, sound), Keeping(files, items))
  {
    if !IsDirectory(d, Db) {
      DbWriteStaysOnTheWay(files, items, d);
      WalDropKeeps(files, items, d[Db := Regular(items.db)], sound);
    }
  }

  lemma DbWriteStaysOnTheWay(files: Files, items: Items, d: Files)
    requires Kept(files, items, d) && Same(files, d, Env) && ConfigPasses(files, items) && !IsDirectory(d, Db)
    ensures OnTheWay(files, items, d[Db := Regular(items.db)])
  {
    assert !IsDirectory(files, Db);
    DatabaseIsWritten(files, items);
    WriteKeeps(files, items, d, Db, items.db);
    OtherNameStays(files, d, Db, Regular(items.db), Env);
  }

  lemma DatabaseIsWritten(files: Files, items: Items)
    requires ConfigPasses(files, items) && !IsDirectory(files, Db)
    ensures IsSaved(files, Db) || Overwrites(files, items, Db)
  {
  }

  lemma OtherNameStays(files: Files, d: Files, written: Name, e: Entry, name: Name)
    requires Same(files, d, name) && written != name
    ensures Same(files, d[written := e], name)
  {
  }

  lemma ApplyKeeps(files: Files, items: Items, plan: Plan)
    ensures Kept(files, items, AfterApply(files, items, plan).0)
  {
    if items.config.None? {
      ApplyDbKeeps(files, items, files, plan.sound);
    } else if !IsDirectory(files, Config) {
      ApplyDbKeeps(files, items, files[Config := Regular(items.config.value)], plan.sound);
    }
    CutKeeps(files, ApplyRun(files, items, plan.sound), plan.applyWrites, Keeping(files, items));
  }

  /** Nothing stands in the way of a saved file. */
  ghost predicate Free(d: Files, saved: Checkpoint) {
    && (forall n :: n in saved ==> !IsDirectory(d, n) && (saved[n].EnvText? <==> n == Env))
    && (Env in saved ==> Env in d && d[Env].Regular? && MayWrite(File([], true), saved[Env].text))
  }

  lemma {:induction false} PutBackEnds(d: Files, saved: Checkpoint, names: seq<Name>, writes: nat)
    requires Free(d, saved) && writes >= |names| + 2
    ensures var cut := CutAfter(d, PutBack(d, saved, names), writes);
            cut.Ended? && (cut.outcome <==> !IsDirectory(d, Wal) && !IsDirectory(d, Shm))
    decreases |names|
  {
    if names == [] {
      DropEnds(d, saved, [Wal, Shm], writes);
    } else if names[0] !in saved {
      PutBackEnds(d, saved, names[1..], writes);
    } else {
      assert CanPutBack(d, names[0], saved[names[0]]);
      PutBackEnds(d[names[0] := Regular(SavedBytes(saved[names[0]]))], saved, names[1..], writes - 1);
    }
  }

  lemma {:induction false} DropEnds(d: Files, saved: Checkpoint, names: seq<Name>, writes: nat)
    requires forall n :: n in saved ==> !IsDirectory(d, n)
    requires writes >= |names|
    ensures var cut := CutAfter(d, DropSidecars(d, saved, names), writes);
            cut.Ended? && (cut.outcome <==> forall n :: n in names ==> !IsDirectory(d, n))
    decreases |names|
  {
    if names != [] {
      assert names == [names[0]] + names[1..];
      if names[0] in saved || names[0] !in d {
        DropEnds(d, saved, names[1..], writes);
      } else if !IsDirectory(d, names[0]) {
        DropEnds(d - {names[0]}, saved, names[1..], writes - 1);
        assert forall n :: IsDirectory(d - {names[0]}, n) <==> IsDirectory(d, n);
      } else {
        assert names[0] in names;
      }
    }
  }

  lemma SavedCanBePutBack(files: Files, items: Items, gate: bool, d: Files)
    requires MakeCheckpoint(files, gate).Some? && Kept(files, items, d)
    ensures Free(d, MakeCheckpoint(files, gate).value)
  {
    var saved := MakeCheckpoint(files, gate).value;
    CheckpointSavesBytes(files, gate);
    forall n | n in saved ensures !IsDirectory(d, n) && (saved[n].EnvText? <==> n == Env) {
      assert !IsDirectory(files, n);
    }
    if Env in saved {
      assert IsSaved(files, Env) && IsSaved(d, Env);
      BytesRoundTrip(files[Env].bytes);
    }
  }

  /** A rollback that no write fails ends as "rolled back", except if a sidecar is a directory. */
  lemma RollbackSucceeds(files: Files, items: Items, plan: Plan)
    requires plan.rollbackWrites >= 7
    ensures RestoreBackup(files, items, plan).1.RolledBack? ==> !IsDirectory(files, Wal) && !IsDirectory(files, Shm)
    ensures RestoreBackup(files, items, plan).1.RollbackFailed? ==> IsDirectory(files, Wal) || IsDirectory(files, Shm)
  {
    if RestoreBackup(files, items, plan).1.Raised? || RestoreBackup(files, items, plan).1.Restored? { return; }
    var saved := MakeCheckpoint(files, plan.gate).value;
    ApplyKeeps(files, items, plan);
    SavedCanBePutBack(files, items, plan.gate, AfterApply(files, items, plan).0);
    PutBackEnds(AfterApply(files, items, plan).0, saved, CHECKPOINT_FILES, plan.rollbackWrites);
  }

  /** A rollback cannot succeed past a sidecar that is a directory, however many writes it may make. */
  lemma DirectoryStopsRollback(files: Files, items: Items, plan: Plan)
    requires IsDirectory(files, Wal) || IsDirectory(files, Shm)
    ensures !RestoreBackup(files, items, plan).1.RolledBack?
  {
    if RestoreBackup(files, items, plan).1.RolledBack? {
      var more := plan.(rollbackWrites := plan.rollbackWrites + 7);
      var applied, saved := AfterApply(files, items, plan).0, MakeCheckpoint(files, plan.gate).value;
      EndedStaysEnded(applied, RollbackRun(applied, saved), plan.rollbackWrites, more.rollbackWrites);
      RollbackSucceeds(files, items, more);
    }
  }

  /** A failed restore can leave a trace: something is overwritten unsaved, or a sidecar is a link. */
  ghost predicate MayLeaveTraces(files: Files, items: Items) {
    (exists n :: Overwrites(files, items, n)) || IsLink(files, Wal) || IsLink(files, Shm)
  }

  /**
    "The previous state was restored" is true of every failure exactly if nothing leaves a trace: a rollback puts
    saved files back, but does not remove files that were absent before, or bring links back.
   */
  lemma RollbackIsExactIffNoTraces(files: Files, items: Items)
    ensures (forall plan :: RestoreBackup(files, items, plan).1.RolledBack? ==>
              RestoreBackup(files, items, plan).0 == files)
       <==> || MakeCheckpoint(files, true).None? || IsDirectory(files, Wal) || IsDirectory(files, Shm)
            || !MayLeaveTraces(files, items)
  {
    if MakeCheckpoint(files, true).None? {
      assert forall plan: Plan :: MakeCheckpoint(files, plan.gate).None?;
    } else if IsDirectory(files, Wal) || IsDirectory(files, Shm) {
      forall plan ensures !RestoreBackup(files, items, plan).1.RolledBack? {
        DirectoryStopsRollback(files, items, plan);
      }
    } else if MayLeaveTraces(files, items) {
      var plan := TraceIsLeft(files, items);
    } else {
      forall plan ensures RestoreBackup(files, items, plan).1.RolledBack? ==>
          RestoreBackup(files, items, plan).0 == files {
        NoTraceIsExact(files, items, plan);
      }
    }
  }

  lemma NoTraceIsExact(files: Files, items: Items, plan: Plan)
    requires !MayLeaveTraces(files, items) && !IsDirectory(files, Wal) && !IsDirectory(files, Shm)
    ensures RestoreBackup(files, items, plan).1.RolledBack? ==> RestoreBackup(files, items, plan).0 == files
  {
    if !RestoreBackup(files, items, plan).1.RolledBack? { return; }
    RolledBackExactly(files, items, plan);
    ApplyKeeps(files, items, plan);
    BackToTheSame(files, items, AfterApply(files, items, plan).0, RestoreBackup(files, items, plan).0);
  }

  lemma BackToTheSame(files: Files, items: Items, applied: Files, back: Files)
    requires !MayLeaveTraces(files, items) && !IsDirectory(files, Wal) && !IsDirectory(files, Shm)
    requires Kept(files, items, applied) && BackFrom(files, applied, back)
    ensures back == files
  {
    forall n ensures Same(files, back, n) {
      if IsSaved(files, n) {
        assert n in back && back[n] == files[n];
      } else if n == Wal || n == Shm {
        assert !IsLink(files, n) && !IsDirectory(files, n) && n !in files && n !in back;
      } else {
        assert !Overwrites(files, items, n) && Same(files, applied, n);
      }
    }
    assert forall n :: n in back <==> Same(files, back, n) && n in files;
  }

  /** A failure after which a trace is left. */
  lemma TraceIsLeft(files: Files, items: Items) returns (plan: Plan)
    requires MayLeaveTraces(files, items) && MakeCheckpoint(files, true).Some?
    requires !IsDirectory(files, Wal) && !IsDirectory(files, Shm)
    ensures RestoreBackup(files, items, plan).1.RolledBack? && RestoreBackup(files, items, plan).0 != files
  {
    UnsoundFails(files, items);
    var writes := 0;
    if n :| Overwrites(files, items, n) {
      writes := if n == Env then 5 else if n == Db && items.config.Some? then 2 else 1;
      AppearsAfter(files, items, n, writes);
    }
    plan := Plan(true, true, false, writes, 7);
    NeverCutApplied(files, ApplyRun(files, items, false), writes);
    RollbackSucceeds(files, items, plan);
    RolledBackExactly(files, items, plan);
  }

  lemma AppearsAfter(files: Files, items: Items, n: Name, writes: nat)
    requires Overwrites(files, items, n) && !IsDirectory(files, Wal) && !IsDirectory(files, Shm)
    requires writes == if n == Env then 5 else if n == Db && items.config.Some? then 2 else 1
    ensures IsSaved(CutAfter(files, ApplyRun(files, items, false), writes).disk, n)
  {
    var files1 := if items.config.Some? then files[Config := Regular(items.config.value)] else files;
    if n == Env {
      DbThenEnv(files1, items, if items.config.Some? then 4 else 5);
    } else if n == Db {
      WrittenStays(files1, items, Db);
    } else {
      WrittenStays(files, items, Config);
    }
  }

  /** The run cannot end as applied. */
  ghost predicate NeverApplied(run: Run<Files, Applied>) {
    match run
    case Halt(o) => o.Failed?
    case Step(_, rest) => NeverApplied(rest)
  }

  lemma {:induction false} NeverCutApplied(d: Files, run: Run<Files, Applied>, writes: nat)
    requires NeverApplied(run)
    ensures var cut := CutAfter(d, run, writes); !(cut.Ended? && cut.outcome.AllApplied?)
    decreases run
  {
    if run.Step? && writes > 0 { NeverCutApplied(run.next, run.rest, writes - 1); }
  }

  lemma UnsoundEnv(d: Files, items: Items)
    ensures NeverApplied(ApplyEnv(d, items, false)) && NeverApplied(DropShm(d, items, false))
  {
  }

  /** With an unsound database every run fails. */
  lemma UnsoundFails(files: Files, items: Items)
    ensures NeverApplied(ApplyRun(files, items, false))
  {
    forall d: Files ensures NeverApplied(ApplyDb(d, items, false)) {
      var d1 := d[Db := Regular(items.db)];
      UnsoundEnv(d1, items);
      UnsoundEnv(d1 - {Wal}, items);
    }
  }

  /** The first write is on disk after it. */
  lemma WrittenStays(d: Files, items: Items, n: Name)
    requires !IsDirectory(d, n) && (n == Db || (n == Config && items.config.Some?))
    ensures n == Db ==> IsSaved(CutAfter(d, ApplyDb(d, items, false), 1).disk, Db)
    ensures n == Config ==> IsSaved(CutAfter(d, ApplyRun(d, items, false), 1).disk, Config)
  {
    if n == Db {
      NothingWritten(d[Db := Regular(items.db)], DropWal(d[Db := Regular(items.db)], items, false));
    } else {
      var d1 := d[Config := Regular(items.config.value)];
      NothingWritten(d1, ApplyDb(d1, items, false));
    }
  }

  lemma NothingWritten(d: Files, run: Run<Files, Applied>)
    ensures CutAfter(d, run, 0).disk == d
  {
  }

  lemma EnvIsWritten(d: Files, items: Items, writes: nat)
    requires Env !in d && MayWrite(Absent, Merge("", items.subset, items.token)) && writes >= 1
    ensures IsSaved(CutAfter(d, ApplyEnv(d, items, false), writes).disk, Env)
  {
  }

  lemma ShmThenEnv(d: Files, items: Items, writes: nat)
    requires Env !in d && MayWrite(Absent, Merge("", items.subset, items.token)) && writes >= 2 && !IsDirectory(d, Shm)
    ensures IsSaved(CutAfter(d, DropShm(d, items, false), writes).disk, Env)
  {
    EnvIsWritten(d, items, writes);
    EnvIsWritten(d - {Shm}, items, writes - 1);
  }

  lemma DbThenEnv(d: Files, items: Items, writes: nat)
    requires Env !in d && MayWrite(Absent, Merge("", items.subset, items.token)) && writes >= 4
    requires !IsDirectory(d, Shm) && !IsDirectory(d, Wal) && !IsDirectory(d, Db)
    ensures IsSaved(CutAfter(d, ApplyDb(d, items, false), writes).disk, Env)
  {
    var d1 := d[Db := Regular(items.db)];
    ShmThenEnv(d1, items, writes - 1);
    ShmThenEnv(d1 - {Wal}, items, writes - 2);
    assert CutAfter(d, ApplyDb(d, items, false), writes) == CutAfter(d1, DropWal(d1, items, false), writes - 1);
  }

  /******* The restore, step by step *******/

  class ConfigDir {
    var files: Files

    constructor (f: Files)
      ensures files == f
    {
      files := f;
    }

    /** The checkpoint: every name is looked at, regular files are saved. */
    method Checkpoint(gate: bool) returns (saved: Option<Checkpoint>)
      ensures saved == MakeCheckpoint(files, gate)
    {
      var captured: Checkpoint := map[];
      for i := 0 to |CHECKPOINT_FILES|
        invariant forall n :: n in captured <==> n in CHECKPOINT_FILES[..i] && n in files && files[n].Regular?
        invariant forall n :: n in captured ==> Save(files, n, gate) == Some(captured[n])
      {
        var n := CHECKPOINT_FILES[i];
        assert CHECKPOINT_FILES[..i + 1] == CHECKPOINT_FILES[..i] + [n];
        if n in files && files[n].Regular? {
          var s := Save(files, n, gate);
          if s.None? { return None; }
          captured := captured[n := s.value];
        }
      }
      assert CHECKPOINT_FILES[..|CHECKPOINT_FILES|] == CHECKPOINT_FILES;
      forall n ensures n in CHECKPOINT_FILES { EveryFileIsChecked(n); }
      assert Env in files && files[Env].Regular? ==> Save(files, Env, gate).Some?;
      assert captured == MakeCheckpoint(files, gate).value;
      return Some(captured);
    }

    /** `_apply` and the integrity check; false if a step fails, or the write after `writes` writes. */
    method Apply(items: Items, sound: bool, writes: nat) returns (ok: bool)
      modifies this
      ensures var cut := CutAfter(old(files), ApplyRun(old(files), items, sound), writes);
              files == cut.disk && ok == (cut.Ended? && cut.outcome.AllApplied?)
    {
      var left := writes;
      if items.config.Some? {
        if Config in files && files[Config].Directory? { return false; }
        if left == 0 { return false; }
        files, left := files[Config := Regular(items.config.value)], left - 1;
      }
      ok := ReplaceDatabase(items, sound, left);
    }

    method ReplaceDatabase(items: Items, sound: bool, writes: nat) returns (ok: bool)
      modifies this
      ensures var cut := CutAfter(old(files), ApplyDb(old(files), items, sound), writes);
              files == cut.disk && ok == (cut.Ended? && cut.outcome.AllApplied?)
    {
      if (Db in files && files[Db].Directory?) || writes == 0 { return false; }
      files := files[Db := Regular(items.db)];
      ok := DropStaleSidecars(items, sound, writes - 1);
    }

    method DropStaleSidecars(items: Items, sound: bool, writes: nat) returns (ok: bool)
      modifies this
      ensures var cut := CutAfter(old(files), DropWal(old(files), items, sound), writes);
              files == cut.disk && ok == (cut.Ended? && cut.outcome.AllApplied?)
    {
      var left := writes;
      if Wal in files {
        if files[Wal].Directory? || left == 0 { return false; }
        files, left := files - {Wal}, left - 1;
      }
      ok := DropStaleShm(items, sound, left);
    }

    method DropStaleShm(items: Items, sound: bool, writes: nat) returns (ok: bool)
      modifies this
      ensures var cut := CutAfter(old(files), DropShm(old(files), items, sound), writes);
              files == cut.disk && ok == (cut.Ended? && cut.outcome.AllApplied?)
    {
      var left := writes;
      if Shm in files {
        if files[Shm].Directory? || left == 0 { return false; }
        files, left := files - {Shm}, left - 1;
      }
      ok := MergeSettings(items, sound, left);
    }

    method MergeSettings(items: Items, sound: bool, writes: nat) returns (ok: bool)
      modifies this
      ensures var cut := CutAfter(old(files), ApplyEnv(old(files), items, sound), writes);
              files == cut.disk && ok == (cut.Ended? && cut.outcome.AllApplied?)
    {
      var text := Read(EnvObject(files, true));
      if text.None? { return false; }
      var merged := MergeEnv(text.value, items.subset, items.token);
      if !MayWrite(EnvObject(files, true), merged) || writes == 0 { return false; }
      files := files[Env := Regular(BytesOf(merged))];
      return sound;
    }

    method Rollback(saved: Checkpoint, writes: nat) returns (done: bool)
      modifies this
      ensures var cut := CutAfter(old(files), RollbackRun(old(files), saved), writes);
              files == cut.disk && done == (cut.Ended? && cut.outcome)
    {
      ghost var whole := CutAfter(files, RollbackRun(files, saved), writes);
      var names, left := CHECKPOINT_FILES, writes;
      while names != []
        invariant whole == CutAfter(files, PutBack(files, saved, names), left)
        decreases |names|
      {
        if names[0] in saved {
          if !CanPutBack(files, names[0], saved[names[0]]) || left == 0 { return false; }
          files, left := files[names[0] := Regular(SavedBytes(saved[names[0]]))], left - 1;
        }
        names := names[1..];
      }
      names := [Wal, Shm];
      while names != []
        invariant whole == CutAfter(files, DropSidecars(files, saved, names), left)
        decreases |names|
      {
        if names[0] !in saved && names[0] in files {
          if files[names[0]].Directory? || left == 0 { return false; }
          files, left := files - {names[0]}, left - 1;
        }
        names := names[1..];
      }
      return true;
    }

    /** `restore_backup`. */
    method RestoreFrom(items: Items, plan: Plan) returns (result: Result)
      modifies this
      ensures (files, result) == RestoreBackup(old(files), items, plan)
    {
      if !plan.admitted { return Raised; }
      var saved := Checkpoint(plan.gate);
      if saved.None? { return Raised; }
      var ok := Apply(items, plan.sound, plan.applyWrites);
      if ok { return Restored; }
      var done := Rollback(saved.value, plan.rollbackWrites);
      return if done then RolledBack else RollbackFailed;
    }
  }
}
