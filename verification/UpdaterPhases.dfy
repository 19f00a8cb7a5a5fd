/**
Which phase is on disk when: what each save has written by the time the next operation begins, and
what that means for a crash behind a failed swap.
*/
module UpdaterPhases {
  import opened UpdaterExtraction
  import opened UpdaterProtocol
  import opened UpdaterNoLoss

  /** On arrival behind each save the state file has the phase of that save. */
  lemma PhaseOnArrival(env: Env, w: World, w': World)
    requires env.readable && FaultStep(env, w, w') && w'.pc != w.pc
    ensures w'.pc == ClearBackup ==> w'.disk.record == Saved(Extracted)
    ensures w'.pc == SwapIn ==> w.pc == Ready(PostBackup) || w'.disk.record == Saved(InstallBackedUp)
    ensures w'.pc == DropBackup ==>
              w.pc == Ready(PostInstall) || w'.disk.record == Saved(Installed) || w'.disk.record == w.disk.record
    ensures w'.pc == DropBackup && CrashStep(env, w, w') ==>
              w.pc == Ready(PostInstall) || w'.disk.record == Saved(Installed)
    ensures w'.pc == Relaunch && CrashStep(env, w, w') ==> w'.disk.record == NoRecord
  {
    hide After, Torn, Unpacks, Pruned;
  }

  /** Only the first save writes "extracted". */
  lemma OnlyFirstSave(env: Env, w: World, w': World)
    requires FaultStep(env, w, w') && w.pc != SaveExtracted && w.disk.record != Saved(Extracted)
    ensures w'.disk.record != Saved(Extracted)
  {
    hide After, Torn, Unpacks, Pruned;
  }

  lemma {:induction false} NotExtractedStays(env: Env, run: seq<World>, i: nat, j: nat)
    requires IsFaultRun(env, run) && i <= j < |run| && run[i].disk.record != Saved(Extracted)
    requires forall k | i <= k < j :: run[k].pc != SaveExtracted
    ensures run[j].disk.record != Saved(Extracted)
    decreases j
  {
    hide After, Torn, Unpacks, Pruned, Partial, Fail;
    if i < j {
      NotExtractedStays(env, run, i, j - 1);
      assert FaultStep(env, run[j - 1], run[j]);
      OnlyFirstSave(env, run[j - 1], run[j]);
    }
  }

  /**
  Once it has been noted that the install was set aside, the state file does not say "extracted"
  until the first save is reached again, whatever fails.
  */
  lemma BackedUpStays(env: Env, run: seq<World>, i: nat, j: nat)
    requires env.readable && IsFaultRun(env, run) && i + 1 <= j < |run|
    requires run[i].pc == SaveBackedUp && run[i + 1].pc == SwapIn
    requires forall k | i < k < j :: run[k].pc != SaveExtracted
    ensures run[i + 1].disk.record == Saved(InstallBackedUp)
    ensures run[j].disk.record != Saved(Extracted)
  {
    hide After, Torn, Unpacks, Pruned, Partial, Fail;
    assert FaultStep(env, run[i], run[i + 1]);
    PhaseOnArrival(env, run[i], run[i + 1]);
    NotExtractedStays(env, run, i + 1, j);
  }

  /** The same once it has been noted that staging was renamed in. */
  lemma InstalledStays(env: Env, run: seq<World>, i: nat, j: nat)
    requires env.readable && IsFaultRun(env, run) && i + 1 <= j < |run|
    requires run[i].pc == SaveInstalled && run[i + 1].pc == DropBackup && CrashStep(env, run[i], run[i + 1])
    requires forall k | i < k < j :: run[k].pc != SaveExtracted
    ensures run[i + 1].disk.record == Saved(Installed)
    ensures run[j].disk.record != Saved(Extracted)
  {
    hide After, Torn, Unpacks, Pruned, Partial, Fail;
    assert FaultStep(env, run[i], run[i + 1]);
    PhaseOnArrival(env, run[i], run[i + 1]);
    NotExtractedStays(env, run, i + 1, j);
  }

  /** The way from a swap to the end of its rollback. */
  predicate RollingBack(pc: Pc) { pc.SwapIn? || pc.Undo? || pc.AbortStaging? || pc.AbortRecord? }

  /** What is on disk on that way, when the whole package was staged. */
  predicate Whole(env: Env, w: World) {
    var d := w.disk;
    if w.pc.SwapIn? || w.pc.Undo? then
      d.install.Absent? && d.backup.Dir? && d.staging == Dir(Package(env)) && d.record == Saved(InstallBackedUp)
    else
      && d.install.Dir? && d.backup.Absent?
      && (d.record == Saved(InstallBackedUp) || d.record == NoRecord)
  }

  lemma WholeStep(env: Env, w: World, w': World)
    requires FaultStep(env, w, w') && RollingBack(w.pc) && RollingBack(w'.pc) && Whole(env, w)
    ensures Whole(env, w')
  {
    hide After, Torn, Unpacks;
  }

  lemma {:induction false} WholeRun(env: Env, run: seq<World>, i: nat, j: nat)
    requires env.readable && IsFaultRun(env, run) && Initial(run[0]) && i + 1 <= j < |run|
    requires run[i].pc == SaveBackedUp && run[i].disk.staging == Dir(Package(env))
    requires run[i + 1].pc == SwapIn && forall k | i < k <= j :: RollingBack(run[k].pc)
    ensures Whole(env, run[j])
    decreases j
  {
    hide After, Torn, Unpacks, Pruned, Partial, Fail;
    assert FaultStep(env, run[j - 1], run[j]);
    if j == i + 1 {
      FrontIsFaultRun(env, run, i + 1);
      RunKeepsInv(env, run[..i + 1]);
      FirstOfRollback(env, run[i], run[j]);
    } else {
      WholeRun(env, run, i, j - 1);
      WholeStep(env, run[j - 1], run[j]);
    }
  }

  /** Behind the save: the swap when it was noted, the undoing when not. */
  lemma FirstOfRollback(env: Env, w: World, w': World)
    requires env.readable && NoLossInv(env, w) && FaultStep(env, w, w')
    requires w.pc == SaveBackedUp && w.disk.staging == Dir(Package(env)) && w'.pc == SwapIn
    ensures Whole(env, w')
  {
    hide After, Torn, Unpacks;
  }

  /**
  A crash anywhere behind a noted swap that failed: the next run installs the whole package, never
  what the interrupted cleanup has left of it.
  */
  lemma CrashInRollback(env: Env, run: seq<World>, i: nat, j: nat)
    requires env.readable && CanInstall(env) && IsFaultRun(env, run) && Initial(run[0]) && i + 1 <= j < |run|
    requires run[i].pc == SaveBackedUp && run[i].disk.staging == Dir(Package(env)) && run[i + 1].pc == SwapIn
    requires forall k | i < k <= j :: RollingBack(run[k].pc)
    ensures Finish(env, Crash(run[j])) == World(Exit(true), Disk(Dir(Package(env)), Absent, Absent, NoRecord))
  {
    hide After, Torn, Unpacks, Pruned, Partial, Fail, Finish;
    WholeRun(env, run, i, j);
    UndisturbedRunSettles(env, run[j]);
  }
}
