/**
The updater's crash-recovery protocol: what `main` of the updater does to the disk, one
operation at a time, as a step relation over a program counter.

A directory tree is the finite map of its files.  A half-written or half-removed tree is
simply another map.  Renames and state saves are atomic; extraction and removal are not, and
their intermediate trees are steps of their own, so that a crash can fall between any two.
*/
module UpdaterProtocol {
  import opened UpdaterExtraction

  datatype Tree = Absent | Dir(files: Files)

  datatype Phase = Extracted | InstallBackedUp | Installed

  /** The state file: missing, present but refused by load or validation, or accepted. */
  datatype Record = NoRecord | Unusable | Saved(phase: Phase)

  datatype Disk = Disk(install: Tree, staging: Tree, backup: Tree, record: Record)

  datatype Resume = Full | PostExtract | PostBackup | PostInstall | Rollback

  /** One program counter per disk operation; code with the same continuation shares one. */
  datatype Pc =
    | Boot                   // load the state file and decide
    | DropUnusable           // remove a state file that does not load or validate
    | Ready(resume: Resume)  // wait for the parent, build the application path
    | ClearStaging           // FULL: remove a stale staging tree
    | Extract(found: Tree)   // FULL: unpack the package over what clearing staging left
    | SaveExtracted
    | ClearBackup            // remove an older backup tree
    | SetAside               // rename install to backup
    | SaveBackedUp
    | SwapIn                 // rename staging to install: the commit
    | SaveInstalled
    | DropBackup
    | DropRecord
    | Relaunch
    | Undo                   // rename backup to install after a failed step
    | AbortStaging           // error cleanup: staging first ...
    | AbortRecord            // ... then the state file
    | Restore                // ROLLBACK: rename backup to install
    | RestoreStaging
    | RestoreRecord
    | Exit(ok: bool)

  datatype World = World(pc: Pc, disk: Disk)

  // ---------------------------------------------------------------- the decision

  function DetermineResume(d: Disk): Resume {
    if !d.record.Saved? then Full
    else if d.install.Absent? && d.backup.Dir? && d.staging.Absent? then Rollback
    else if d.install.Absent? && d.backup.Dir? && d.staging.Dir? then PostBackup
    else if d.install.Dir? && d.staging.Absent? && d.backup.Dir? then PostInstall
    else if d.install.Dir? && d.staging.Dir? then
      if d.record.phase == Extracted then PostExtract else Full
    else Full
  }

  function EntryPoint(r: Resume): Pc {
    match r
    case Full => ClearStaging
    case PostExtract => SaveExtracted
    case PostBackup => SwapIn
    case PostInstall => DropBackup
    case Rollback => Restore
  }

  // ---------------------------------------------------------------- single operations

  /**
  What is the same in every run: the files of the package in their order; whether a state file
  saved for these arguments is read back as it was saved (`StateFile.LoadAfterSave` says when); and
  whether staging and backup lie apart from the install (`Paths.NestedExactly` says when).
  */
  datatype Env = Env(entries: seq<Entry>, readable: bool, apart: bool)

  /** The whole new tree. */
  function Package(env: Env): Files { After(env.entries, map[]) }

  function Save(env: Env, phase: Phase): Record { if env.readable then Saved(phase) else Unusable }

  /** The package can be unpacked, and the trees renamed. */
  predicate CanInstall(env: Env) { env.apart && Unpacks(env.entries, map[]) }

  /** Making a directory inside a missing install makes the install too. */
  function Made(env: Env, d: Disk): Disk {
    if env.apart || d.install.Dir? then d else d.(install := Dir(map[]))
  }

  /** `rename` on directories: the target must be missing or an empty directory. */
  predicate Movable(src: Tree, dst: Tree) {
    src.Dir? && (dst.Absent? || dst.files == map[])
  }

  /** No directory can be renamed into itself, nor onto one that it lies in. */
  predicate CanRename(env: Env, src: Tree, dst: Tree) { env.apart && Movable(src, dst) }

  /** A tree in the middle of being removed. */
  predicate Pruned(before: Tree, after: Tree) {
    before.Dir? && after.Dir? && after.files.Keys <= before.files.Keys &&
    forall k | k in after.files :: after.files[k] == before.files[k]
  }

  function FilesOf(t: Tree): Files { if t.Dir? then t.files else map[] }

  function Unpack(entries: seq<Entry>, found: Tree): Tree { Dir(After(entries, FilesOf(found))) }

  /** The operation at `w.pc` runs to its end; what cannot be done takes its error exit. */
  function Complete(env: Env, w: World): World {
    var d := w.disk;
    match w.pc
    case Boot =>
      if d.record.Unusable? then World(DropUnusable, d) else World(Ready(DetermineResume(d)), d)
    case DropUnusable => World(Ready(Full), d.(record := NoRecord))
    case Ready(r) => World(EntryPoint(r), d)
    case ClearStaging => World(Extract(Absent), d.(staging := Absent))
    case Extract(found) =>
      if Unpacks(env.entries, FilesOf(found)) then
        World(SaveExtracted, Made(env, d).(staging := Unpack(env.entries, found)))
      else World(AbortStaging, Made(env, d))
    case SaveExtracted => World(ClearBackup, d.(record := Save(env, Extracted)))
    case ClearBackup => World(SetAside, d.(backup := Absent))
    case SetAside =>
      if CanRename(env, d.install, d.backup) then World(SaveBackedUp, d.(install := Absent, backup := d.install))
      else World(AbortStaging, d)
    case SaveBackedUp => World(SwapIn, d.(record := Save(env, InstallBackedUp)))
    case SwapIn =>
      if CanRename(env, d.staging, d.install) then World(SaveInstalled, d.(staging := Absent, install := d.staging))
      else World(Undo, d)
    case SaveInstalled => World(DropBackup, d.(record := Save(env, Installed)))
    case DropBackup => World(DropRecord, d.(backup := Absent))
    case DropRecord => World(Relaunch, d.(record := NoRecord))
    case Relaunch => World(Exit(true), d)
    case Undo =>
      if CanRename(env, d.backup, d.install) then World(AbortStaging, d.(backup := Absent, install := d.backup))
      else World(Exit(false), d)
    case AbortStaging => World(AbortRecord, d.(staging := Absent))
    case AbortRecord => World(Exit(false), d.(record := NoRecord))
    case Restore =>
      if CanRename(env, d.backup, d.install) then World(RestoreStaging, d.(backup := Absent, install := d.backup))
      else World(Exit(false), d)
    case RestoreStaging => World(RestoreRecord, d.(staging := Absent))
    case RestoreRecord => World(Relaunch, d.(record := NoRecord))
    case Exit(_) => World(Boot, d)
  }

  /** Extraction or removal has got part of the way. */
  ghost predicate Partial(env: Env, w: World, w': World) {
    var d, d' := w.disk, w'.disk;
    && w'.pc == w.pc
    && match w.pc
       case ClearStaging => Pruned(d.staging, d'.staging) && d' == d.(staging := d'.staging)
       case AbortStaging => Pruned(d.staging, d'.staging) && d' == d.(staging := d'.staging)
       case RestoreStaging => Pruned(d.staging, d'.staging) && d' == d.(staging := d'.staging)
       case ClearBackup => Pruned(d.backup, d'.backup) && d' == d.(backup := d'.backup)
       case DropBackup => Pruned(d.backup, d'.backup) && d' == d.(backup := d'.backup)
       case Extract(found) =>
         && d' == Made(env, d).(staging := d'.staging)
         && (d'.staging == d.staging || IsTorn(env, found, d'.staging))
       case _ => false
  }

  /** The operation at `w.pc` reports failure; removals and record removal are ignored by `main`. */
  ghost predicate Fail(env: Env, w: World, w': World) {
    var d, d' := w.disk, w'.disk;
    match w.pc
    case Boot => false
    case DropUnusable => w' == World(Ready(Full), d)
    case Ready(_) => w' == World(Exit(false), d)
    case ClearStaging => w'.pc == Extract(d'.staging) && StagingFailed(d, d')
    case Extract(found) => w'.pc == AbortStaging && ExtractFailed(env, found, d, d')
    case SaveExtracted => w' == World(AbortStaging, d)
    case ClearBackup => w'.pc == SetAside && BackupFailed(d, d')
    case SetAside => w' == World(AbortStaging, d)
    case SaveBackedUp => w' == World(Undo, d)
    case SwapIn => w' == World(Undo, d)
    case SaveInstalled => w' == World(DropBackup, d)
    case DropBackup => w'.pc == DropRecord && BackupFailed(d, d')
    case DropRecord => w' == World(Relaunch, d)
    case Relaunch => w' == World(Exit(false), d)
    case Undo => w' == World(Exit(false), d)
    case AbortStaging => w'.pc == AbortRecord && StagingFailed(d, d')
    case AbortRecord => w' == World(Exit(false), d)
    case Restore => w' == World(Exit(false), d)
    case RestoreStaging => w'.pc == RestoreRecord && StagingFailed(d, d')
    case RestoreRecord => w' == World(Relaunch, d)
    case Exit(_) => false
  }

  ghost predicate IsTorn(env: Env, found: Tree, t: Tree) {
    t.Dir? && Torn(env.entries, FilesOf(found), t.files)
  }

  ghost predicate ExtractFailed(env: Env, found: Tree, d: Disk, d': Disk) {
    || d' == d
    || (d' == Made(env, d).(staging := d'.staging) && (d'.staging == d.staging || IsTorn(env, found, d'.staging)))
  }

  predicate StagingFailed(d: Disk, d': Disk) {
    d' == d || (Pruned(d.staging, d'.staging) && d' == d.(staging := d'.staging))
  }

  predicate BackupFailed(d: Disk, d': Disk) {
    d' == d || (Pruned(d.backup, d'.backup) && d' == d.(backup := d'.backup))
  }

  function Crash(w: World): World { w.(pc := Boot) }

  // ---------------------------------------------------------------- runs

  /** Operations succeed, but the machine may stop anywhere. */
  ghost predicate CrashStep(env: Env, w: World, w': World) {
    w' == Complete(env, w) || Partial(env, w, w') || w' == Crash(w)
  }

  /** In addition any operation may fail. */
  ghost predicate FaultStep(env: Env, w: World, w': World) {
    CrashStep(env, w, w') || Fail(env, w, w')
  }

  ghost predicate IsFaultRun(env: Env, run: seq<World>) {
    |run| > 0 && forall i | 0 <= i < |run| - 1 :: FaultStep(env, run[i], run[i + 1])
  }

  ghost predicate IsCrashRun(env: Env, run: seq<World>) {
    |run| > 0 && forall i | 0 <= i < |run| - 1 :: CrashStep(env, run[i], run[i + 1])
  }

  /** The first run: an installed tree, leftovers anywhere else, no usable state file. */
  predicate Initial(w: World) {
    w.pc == Boot && w.disk.install.Dir? && !w.disk.record.Saved?
  }

  /** The tree that was the installed one most recently. */
  function LastInstalled(run: seq<World>): (f: Files)
    requires |run| > 0 && run[0].disk.install.Dir?
  {
    var w := run[|run| - 1];
    if w.disk.install.Dir? then w.disk.install.files else LastInstalled(run[..|run| - 1])
  }

  // ---------------------------------------------------------------- an undisturbed run

  function Rank(pc: Pc): nat {
    match pc
    case Boot => 20
    case DropUnusable => 19
    case Ready(_) => 18
    case ClearStaging => 17
    case Extract(_) => 16
    case SaveExtracted => 15
    case ClearBackup => 14
    case SetAside => 13
    case SaveBackedUp => 12
    case SwapIn => 11
    case SaveInstalled => 10
    case DropBackup => 9
    case DropRecord => 8
    case Undo => 7
    case Restore => 7
    case RestoreStaging => 6
    case RestoreRecord => 5
    case AbortStaging => 4
    case AbortRecord => 3
    case Relaunch => 2
    case Exit(_) => 0
  }

  /** Where the program ends if nothing more goes wrong. */
  function Finish(env: Env, w: World): (r: World)
    ensures r.pc.Exit?
    decreases Rank(w.pc)
  {
    if w.pc.Exit? then w else Finish(env, Complete(env, w))
  }
}
