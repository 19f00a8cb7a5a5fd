/**
The updater's `main` as a program over a mutable disk, proved to follow the step relation of
`UpdaterProtocol`: the disk states between its operations are a faulty run from `Boot` to `Exit`.
Since every prefix of that run may be cut short by a crash, the theorems about runs apply to
`main` started any number of times and stopped anywhere.
*/
module UpdaterMain {
  import opened UpdaterExtraction
  import opened Paths
  import opened UpdaterProtocol
  import opened UpdaterNoLoss

  const REMOVE_RETRIES := 16
  const MOVE_RETRIES := 20

  datatype Slot = Install | Staging | Backup

  function At(d: Disk, s: Slot): Tree {
    match s
    case Install => d.install
    case Staging => d.staging
    case Backup => d.backup
  }

  function Put(d: Disk, s: Slot, t: Tree): Disk {
    match s
    case Install => d.(install := t)
    case Staging => d.(staging := t)
    case Backup => d.(backup := t)
  }

  datatype Part = NoPart | HalfWritten | Whole(record: Record)

  /** What a removal may do: all of it, or a part, or nothing. */
  predicate Removed(before: Disk, s: Slot, after: Disk, ok: bool) {
    if ok then At(before, s).Dir? && after == Put(before, s, Absent)
    else after == before || (Pruned(At(before, s), At(after, s)) && after == Put(before, s, At(after, s)))
  }

  /** Removing a temporary file, or failing to, leaves an interrupted placement. */
  lemma TempCleared(before: Files, e: Entry, content: string, t: Files)
    requires content <= e.content
    requires Clearing(Without(before, Temp(e.name))[Temp(e.name) := content], Temp(e.name), t)
    ensures Placing(before, e, t)
  {
    var rest := Without(before, Temp(e.name));
    assert content == e.content[..|content|];
    if Temp(e.name) in t {
      assert t == rest[Temp(e.name) := content];
    } else {
      assert t == rest;
    }
  }

  /**
  The disk, with what is the same in every run.  Which attempts fail, and how far a failing one
  gets, is left open, except that on a reliable disk every operation that can be done is done.
  */
  class FileSystem {
    const env: Env
    const reliable: bool
    var disk: Disk
    var part: Part  // the file beside the state file in which the next state is written

    constructor (env: Env, disk: Disk, reliable: bool)
      ensures this.env == env && this.disk == disk && this.reliable == reliable
    {
      this.env := env;
      this.disk := disk;
      this.reliable := reliable;
      part := NoPart;
    }

    /** One `platform_fs_remove_path`: a missing path is an error, a failure may remove a part. */
    method RemoveOnce(s: Slot) returns (ok: bool)
      modifies this
      ensures Removed(old(disk), s, disk, ok)
      ensures reliable ==> disk == Put(old(disk), s, Absent)
    {
      var t := At(disk, s);
      if t.Absent? { return false; }
      ok := *;
      if ok || reliable {
        disk := Put(disk, s, Absent);
        return true;
      }
      var removed: set<string> := *;
      disk := Put(disk, s, Dir(t.files - removed));
    }

    /** `update_remove_tree` */
    method RemoveTree(s: Slot) returns (ok: bool)
      modifies this
      ensures Removed(old(disk), s, disk, ok)
      ensures reliable ==> disk == Put(old(disk), s, Absent)
    {
      ok := false;
      for a := 0 to REMOVE_RETRIES
        invariant Removed(old(disk), s, disk, false)
        invariant reliable && a > 0 ==> disk == Put(old(disk), s, Absent)
      {
        ok := RemoveOnce(s);
        if ok { return; }
      }
    }

    /** `update_move_path` between the install and one of the other trees: an atomic rename. */
    method MovePath(src: Slot, dst: Slot) returns (ok: bool)
      requires src != dst && (src == Install || dst == Install)
      modifies this
      ensures ok ==> CanRename(env, old(At(disk, src)), old(At(disk, dst))) &&
                     disk == Put(Put(old(disk), src, Absent), dst, old(At(disk, src)))
      ensures !ok ==> disk == old(disk)
      ensures reliable ==> ok == CanRename(env, old(At(disk, src)), old(At(disk, dst)))
    {
      for a := 0 to MOVE_RETRIES
        invariant disk == old(disk)
        invariant reliable && a > 0 ==> !CanRename(env, At(disk, src), At(disk, dst))
      {
        var done := *;
        if (done || reliable) && CanRename(env, At(disk, src), At(disk, dst)) {
          disk := Put(Put(disk, src, Absent), dst, At(disk, src));
          return true;
        }
      }
      ok := false;
    }

    /** `platform_fs_remove_path` on a name inside staging: all of it, or a part. */
    method ClearTemp(top: string)
      requires disk.staging.Dir?
      modifies this
      ensures disk.staging.Dir? && disk == old(disk).(staging := disk.staging)
      ensures Clearing(old(disk.staging.files), top, disk.staging.files)
      ensures reliable ==> disk.staging.files == Without(old(disk.staging.files), top)
    {
      var files := disk.staging.files;
      var done := *;
      var gone: set<string> := *;
      var left := if done || reliable then Without(files, top)
                  else map k | k in files && !(k in gone && Within(k, top)) :: files[k];
      disk := disk.(staging := Dir(left));
    }

    /** One entry of `update_extract`: under its temporary name first, then renamed. */
    method PlaceEntry(e: Entry) returns (ok: bool)
      requires disk.staging.Dir?
      modifies this
      ensures disk.staging.Dir? && disk == old(disk).(staging := disk.staging)
      ensures ok ==> disk.staging.files == Place(old(disk.staging.files), e) && HasRoom(old(disk.staging.files), e)
      ensures !ok ==> Placing(old(disk.staging.files), e, disk.staging.files)
      ensures reliable ==> ok == HasRoom(old(disk.staging.files), e)
    {
      ghost var before := disk.staging.files;
      var safe := EntryNameSafe(e.name);
      if !safe { return false; }
      var temp := Temp(e.name);
      ClearTemp(temp);
      ClearingKeepsRoom(before, e, disk.staging.files);
      var parents := *;
      var files := disk.staging.files;
      if !(parents || reliable) || LiesInFile(files, e.name) { return false; }
      if IsDirectory(files, temp) {
        ClearTemp(temp);
        return false;
      }
      assert Without(files, temp) == Without(before, temp);
      var written: int := *;
      var n := if reliable || !(0 <= written < |e.content|) then |e.content| else written;
      var content := e.content[..n];
      assert e.content[..|e.content|] == e.content;
      disk := disk.(staging := Dir(Without(files, temp)[temp := content]));
      var renamed := *;
      if n == |e.content| && (renamed || reliable) && !IsDirectory(files, e.name) {
        disk := disk.(staging := Dir(Without(files, temp)[e.name := content]));
        ok := true;
      } else {
        ClearTemp(temp);
        TempCleared(before, e, content, disk.staging.files);
        ok := false;
      }
    }

    /** The loop over the entries. */
    method PlaceEntries(ghost found: Files) returns (ok: bool)
      requires disk.staging == Dir(found)
      modifies this
      ensures disk.staging.Dir? && disk == old(disk).(staging := disk.staging)
      ensures ok ==> Unpacks(env.entries, found) && disk.staging.files == After(env.entries, found)
      ensures !ok ==> Torn(env.entries, found, disk.staging.files)
      ensures reliable ==> ok == Unpacks(env.entries, found)
    {
      hide HasRoom, Place, Placing;
      var entries := env.entries;
      for k := 0 to |entries|
        invariant disk == old(disk).(staging := Dir(After(entries[..k], found)))
        invariant forall j | 0 <= j < k :: HasRoom(After(entries[..j], found), entries[j])
      {
        assert entries[..k + 1][..k] == entries[..k];
        ok := PlaceEntry(entries[k]);
        if !ok {
          assert TornAt(entries, found, k, disk.staging.files);
          return;
        }
      }
      assert entries[..|entries|] == entries;
      ok := true;
    }

    /** `update_extract` */
    method ExtractPackage() returns (ok: bool)
      modifies this
      ensures ok ==> Unpacks(env.entries, FilesOf(old(disk.staging)))
      ensures ok ==> disk == Made(env, old(disk)).(staging := Unpack(env.entries, old(disk.staging)))
      ensures !ok ==> ExtractFailed(env, old(disk.staging), old(disk), disk)
      ensures reliable ==> ok == Unpacks(env.entries, FilesOf(old(disk.staging)))
      ensures reliable && !ok ==> disk == Made(env, old(disk)).(staging := disk.staging)
    {
      hide Unpacks, After, Torn;
      ghost var found := FilesOf(disk.staging);
      var made := *;
      if !(made || reliable) { return false; }
      disk := Made(env, disk);
      made := *;
      if !(made || reliable) { return false; }
      disk := disk.(staging := Dir(FilesOf(disk.staging)));
      var readable := *;
      NothingYet(env.entries, found);
      if !(readable || reliable) { return false; }
      ok := PlaceEntries(found);
    }

    /** `remove` on the file that a save writes first. */
    method RemovePart()
      modifies this`part
      ensures part == old(part) || part == NoPart
    {
      var done := *;
      if done || reliable { part := NoPart; }
    }

    /** `update_move_path` on that file: only the rename touches the state file. */
    method MovePart() returns (ok: bool)
      requires part.Whole?
      modifies this
      ensures ok ==> disk == old(disk).(record := old(part).record) && part == NoPart
      ensures !ok ==> disk == old(disk) && part == old(part)
      ensures reliable ==> ok
    {
      for a := 0 to MOVE_RETRIES
        invariant disk == old(disk) && part == old(part) && !(reliable && a > 0)
      {
        var done := *;
        if done || reliable {
          disk, part := disk.(record := part.record), NoPart;
          return true;
        }
      }
      ok := false;
    }

    /**
    `updater_state_save_atomic`: the new state is written to a file of its own, which is closed and
    then renamed over the old one.  On every path the state file is the old one or the whole new one.
    */
    method SaveState(phase: Phase) returns (ok: bool)
      modifies this
      ensures disk == if ok then old(disk).(record := Save(env, phase)) else old(disk)
      ensures ok ==> part == NoPart
      ensures reliable ==> ok
    {
      var created := *;
      if !(created || reliable) { return false; }
      part := HalfWritten;
      var closed := *;
      if !(closed || reliable) {
        RemovePart();
        return false;
      }
      part := Whole(Save(env, phase));
      ok := MovePart();
      if !ok { RemovePart(); }
    }

    /** `updater_state_remove`: the result is ignored. */
    method RemoveState()
      modifies this
      ensures disk == old(disk) || disk == old(disk).(record := NoRecord)
      ensures reliable ==> disk == old(disk).(record := NoRecord)
    {
      var done := *;
      if done || reliable {
        disk := disk.(record := NoRecord);
      }
    }
  }

  ghost function Then(env: Env, run: seq<World>, w: World): (r: seq<World>)
    requires IsFaultRun(env, run) && (w == Complete(env, run[|run| - 1]) || Fail(env, run[|run| - 1], w))
    ensures IsFaultRun(env, r) && |r| > 0 && r[0] == run[0] && r[|r| - 1] == w
    ensures w == Complete(env, run[|run| - 1]) && !run[|run| - 1].pc.Exit? ==>
              Finish(env, w) == Finish(env, run[|run| - 1])
    ensures w.pc.Exit? ==> Finish(env, w) == w
  {
    run + [w]
  }

  ghost function Begin(env: Env, d: Disk): (r: seq<World>)
    ensures IsFaultRun(env, r) && |r| == 1 && r[0] == World(Boot, d)
  {
    [World(Boot, d)]
  }

  /** The error cleanup: staging goes first, then the state file. */
  method Abort(fs: FileSystem, ghost before: seq<World>) returns (ghost run: seq<World>)
    requires IsFaultRun(fs.env, before) && |before| > 0 && before[|before| - 1] == World(AbortStaging, fs.disk)
    modifies fs
    ensures IsFaultRun(fs.env, run) && |run| > 0 && run[0] == before[0]
    ensures run[|run| - 1] == World(Exit(false), fs.disk)
    ensures fs.reliable ==> run[|run| - 1] == Finish(fs.env, before[|before| - 1])
  {
    hide IsFaultRun, Pruned, Unpack, Finish, After, Torn, Unpacks;
    var _ := fs.RemoveTree(Staging);
    run := Then(fs.env, before, World(AbortRecord, fs.disk));
    fs.RemoveState();
    run := Then(fs.env, run, World(Exit(false), fs.disk));
  }

  /** A failed step after the install was set aside: put it back, then clean up. */
  method RollBack(fs: FileSystem, ghost before: seq<World>) returns (ghost run: seq<World>)
    requires IsFaultRun(fs.env, before) && |before| > 0 && before[|before| - 1] == World(Undo, fs.disk)
    modifies fs
    ensures IsFaultRun(fs.env, run) && |run| > 0 && run[0] == before[0]
    ensures run[|run| - 1] == World(Exit(false), fs.disk)
    ensures fs.reliable ==> run[|run| - 1] == Finish(fs.env, before[|before| - 1])
  {
    hide IsFaultRun, Pruned, Unpack, Finish, After, Torn, Unpacks;
    var moved := fs.MovePath(Backup, Install);
    if !moved {
      run := Then(fs.env, before, World(Exit(false), fs.disk));
      return;
    }
    run := Then(fs.env, before, World(AbortStaging, fs.disk));
    run := Abort(fs, run);
  }

  /** The common end of a run: drop the backup and the state file, start the application again. */
  method Conclude(fs: FileSystem, ghost before: seq<World>, relaunched: bool)
    returns (ghost run: seq<World>)
    requires IsFaultRun(fs.env, before) && |before| > 0 && before[|before| - 1] == World(DropBackup, fs.disk)
    modifies fs
    ensures IsFaultRun(fs.env, run) && |run| > 0 && run[0] == before[0]
    ensures run[|run| - 1] == World(Exit(relaunched), fs.disk)
    ensures fs.reliable && relaunched ==> run[|run| - 1] == Finish(fs.env, before[|before| - 1])
  {
    hide IsFaultRun, Pruned, Unpack, Finish, After, Torn, Unpacks;
    var _ := fs.RemoveTree(Backup);
    run := Then(fs.env, before, World(DropRecord, fs.disk));
    fs.RemoveState();
    run := Then(fs.env, run, World(Relaunch, fs.disk));
    run := Then(fs.env, run, World(Exit(relaunched), fs.disk));
  }

  /** Rename staging in, note it, conclude. */
  method Commit(fs: FileSystem, ghost before: seq<World>, relaunched: bool)
    returns (ok: bool, ghost run: seq<World>)
    requires IsFaultRun(fs.env, before) && |before| > 0 && before[|before| - 1] == World(SwapIn, fs.disk)
    modifies fs
    ensures IsFaultRun(fs.env, run) && |run| > 0 && run[0] == before[0]
    ensures run[|run| - 1] == World(Exit(ok), fs.disk)
    ensures fs.reliable && relaunched ==> run[|run| - 1] == Finish(fs.env, before[|before| - 1])
  {
    hide IsFaultRun, Pruned, Unpack, Finish, After, Torn, Unpacks;
    var moved := fs.MovePath(Staging, Install);
    if !moved {
      run := Then(fs.env, before, World(Undo, fs.disk));
      run := RollBack(fs, run);
      return false, run;
    }
    run := Then(fs.env, before, World(SaveInstalled, fs.disk));
    var _ := fs.SaveState(Installed);
    run := Then(fs.env, run, World(DropBackup, fs.disk));
    run := Conclude(fs, run, relaunched);
    ok := relaunched;
  }

  /** The end of a rollback: staging and state file go, the application starts again. */
  method ForgetUpdate(fs: FileSystem, ghost before: seq<World>, relaunched: bool)
    returns (ghost run: seq<World>)
    requires IsFaultRun(fs.env, before) && |before| > 0 && before[|before| - 1] == World(RestoreStaging, fs.disk)
    modifies fs
    ensures IsFaultRun(fs.env, run) && |run| > 0 && run[0] == before[0]
    ensures run[|run| - 1] == World(Exit(relaunched), fs.disk)
    ensures fs.reliable && relaunched ==> run[|run| - 1] == Finish(fs.env, before[|before| - 1])
  {
    hide IsFaultRun, Pruned, Unpack, Finish, After, Torn, Unpacks;
    var _ := fs.RemoveTree(Staging);
    run := Then(fs.env, before, World(RestoreRecord, fs.disk));
    fs.RemoveState();
    run := Then(fs.env, run, World(Relaunch, fs.disk));
    run := Then(fs.env, run, World(Exit(relaunched), fs.disk));
  }

  /** ROLLBACK: put the backup back, drop staging and state file. */
  method Recover(fs: FileSystem, ghost before: seq<World>, relaunched: bool)
    returns (ok: bool, ghost run: seq<World>)
    requires IsFaultRun(fs.env, before) && |before| > 0 && before[|before| - 1] == World(Restore, fs.disk)
    modifies fs
    ensures IsFaultRun(fs.env, run) && |run| > 0 && run[0] == before[0]
    ensures run[|run| - 1] == World(Exit(ok), fs.disk)
    ensures fs.reliable && relaunched ==> run[|run| - 1] == Finish(fs.env, before[|before| - 1])
  {
    hide IsFaultRun, Pruned, Unpack, Finish, After, Torn, Unpacks;
    var moved := fs.MovePath(Backup, Install);
    if !moved {
      run := Then(fs.env, before, World(Exit(false), fs.disk));
      return false, run;
    }
    run := Then(fs.env, before, World(RestoreStaging, fs.disk));
    run := ForgetUpdate(fs, run, relaunched);
    ok := relaunched;
  }

  /** Rename the install aside, note it, commit. */
  method SwapTrees(fs: FileSystem, ghost before: seq<World>, relaunched: bool)
    returns (ok: bool, ghost run: seq<World>)
    requires IsFaultRun(fs.env, before) && |before| > 0 && before[|before| - 1] == World(SetAside, fs.disk)
    modifies fs
    ensures IsFaultRun(fs.env, run) && |run| > 0 && run[0] == before[0]
    ensures run[|run| - 1] == World(Exit(ok), fs.disk)
    ensures fs.reliable && relaunched ==> run[|run| - 1] == Finish(fs.env, before[|before| - 1])
  {
    hide IsFaultRun, Pruned, Unpack, Finish, After, Torn, Unpacks;
    var moved := fs.MovePath(Install, Backup);
    if !moved {
      run := Then(fs.env, before, World(AbortStaging, fs.disk));
      run := Abort(fs, run);
      return false, run;
    }
    run := Then(fs.env, before, World(SaveBackedUp, fs.disk));

    var saved := fs.SaveState(InstallBackedUp);
    if !saved {
      run := Then(fs.env, run, World(Undo, fs.disk));
      run := RollBack(fs, run);
      return false, run;
    }
    run := Then(fs.env, run, World(SwapIn, fs.disk));
    ok, run := Commit(fs, run, relaunched);
  }

  /** FULL and POST_EXTRACT from the save of "extracted" on. */
  method InstallStaged(fs: FileSystem, ghost before: seq<World>, relaunched: bool)
    returns (ok: bool, ghost run: seq<World>)
    requires IsFaultRun(fs.env, before) && |before| > 0 && before[|before| - 1] == World(SaveExtracted, fs.disk)
    modifies fs
    ensures IsFaultRun(fs.env, run) && |run| > 0 && run[0] == before[0]
    ensures run[|run| - 1] == World(Exit(ok), fs.disk)
    ensures fs.reliable && relaunched ==> run[|run| - 1] == Finish(fs.env, before[|before| - 1])
  {
    hide IsFaultRun, Pruned, Unpack, Finish, After, Torn, Unpacks;
    var saved := fs.SaveState(Extracted);
    if !saved {
      run := Then(fs.env, before, World(AbortStaging, fs.disk));
      run := Abort(fs, run);
      return false, run;
    }
    run := Then(fs.env, before, World(ClearBackup, fs.disk));

    var _ := fs.RemoveTree(Backup);
    run := Then(fs.env, run, World(SetAside, fs.disk));

    ok, run := SwapTrees(fs, run, relaunched);
  }

  /** A refused extraction ends in the same place whatever it has left in staging. */
  lemma RefusedExtraction(env: Env, w: World, t: Tree)
    requires w.pc.Extract? && !Unpacks(env.entries, FilesOf(w.pc.found))
    ensures Finish(env, World(AbortStaging, Made(env, w.disk).(staging := t))) == Finish(env, w)
  {
    hide Unpacks, After;
    assert Finish(env, w) == Finish(env, Complete(env, w));
    SettleFromAbort(env, Made(env, w.disk));
    SettleFromAbort(env, Made(env, w.disk).(staging := t));
  }

  /** FULL: extract into a cleared staging directory, then install what was staged. */
  method FullInstall(fs: FileSystem, ghost before: seq<World>, relaunched: bool)
    returns (ok: bool, ghost run: seq<World>)
    requires IsFaultRun(fs.env, before) && |before| > 0 && before[|before| - 1] == World(ClearStaging, fs.disk)
    modifies fs
    ensures IsFaultRun(fs.env, run) && |run| > 0 && run[0] == before[0]
    ensures run[|run| - 1] == World(Exit(ok), fs.disk)
    ensures fs.reliable && relaunched ==> run[|run| - 1] == Finish(fs.env, before[|before| - 1])
  {
    hide IsFaultRun, Pruned, Unpack, Finish, After, Torn, Unpacks;
    var _ := fs.RemoveTree(Staging);
    run := Then(fs.env, before, World(Extract(fs.disk.staging), fs.disk));
    ghost var w := run[|run| - 1];
    var unpacked := fs.ExtractPackage();
    if !unpacked {
      if fs.reliable { RefusedExtraction(fs.env, w, fs.disk.staging); }
      run := Then(fs.env, run, World(AbortStaging, fs.disk));
      run := Abort(fs, run);
      return false, run;
    }
    run := Then(fs.env, run, World(SaveExtracted, fs.disk));
    ok, run := InstallStaged(fs, run, relaunched);
  }

  lemma RunKeepsRecoverable(env: Env, run: seq<World>)
    requires IsFaultRun(env, run) && run[0].pc.Boot?
    ensures var d := run[|run| - 1].disk;
      env.readable && Recoverable(env, run[0].disk) ==>
        Recoverable(env, d) && (run[|run| - 1].pc == Exit(true) ==> d.install.Dir?)
  {
    if env.readable && Recoverable(env, run[0].disk) { RunKeepsInv(env, run); }
  }

  /** Load the state file; one that is refused is removed and the run starts afresh. */
  method LoadState(fs: FileSystem) returns (resume: Resume, ghost run: seq<World>)
    modifies fs
    ensures IsFaultRun(fs.env, run) && |run| > 0 && run[0] == World(Boot, old(fs.disk))
    ensures run[|run| - 1] == World(Ready(resume), fs.disk)
    ensures fs.reliable ==> Finish(fs.env, run[|run| - 1]) == Finish(fs.env, run[0])
  {
    hide IsFaultRun, Pruned, Unpack, Finish, After, Torn, Unpacks;
    run := Begin(fs.env, fs.disk);
    resume := Full;
    if fs.disk.record.Unusable? {
      run := Then(fs.env, run, World(DropUnusable, fs.disk));
      fs.RemoveState();
    } else if fs.disk.record.Saved? {
      resume := DetermineResume(fs.disk);
    }
    run := Then(fs.env, run, World(Ready(resume), fs.disk));
  }

  /**
  `main` from the loading of the state file on.  `ready` and `relaunched` are the outcomes of
  waiting for the parent process and of starting the application again.
  */
  method RunUpdater(fs: FileSystem, ready: bool, relaunched: bool)
    returns (ok: bool, ghost run: seq<World>)
    modifies fs
    ensures IsFaultRun(fs.env, run) && |run| > 0 && run[0] == World(Boot, old(fs.disk))
    ensures run[|run| - 1] == World(Exit(ok), fs.disk)
    ensures fs.reliable && ready && relaunched ==> run[|run| - 1] == Finish(fs.env, run[0])
    ensures fs.env.readable && old(Recoverable(fs.env, fs.disk)) ==>
              Recoverable(fs.env, fs.disk) && (ok ==> fs.disk.install.Dir?)
  {
    hide IsFaultRun, DetermineResume, NoLossInv, Finish;
    var resume;
    resume, run := LoadState(fs);
    if !ready {
      run := Then(fs.env, run, World(Exit(false), fs.disk));
      ok := false;
    } else {
      run := Then(fs.env, run, World(EntryPoint(resume), fs.disk));
      match resume {
        case Rollback => ok, run := Recover(fs, run, relaunched);
        case PostInstall => run := Conclude(fs, run, relaunched); ok := relaunched;
        case PostBackup => ok, run := Commit(fs, run, relaunched);
        case PostExtract => ok, run := InstallStaged(fs, run, relaunched);
        case Full => ok, run := FullInstall(fs, run, relaunched);
      }
    }
    RunKeepsRecoverable(fs.env, run);
  }
}
