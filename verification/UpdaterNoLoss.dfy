/**
No loss under any faults: crashes, and failures of every operation, in any number and order.
*/
module UpdaterNoLoss {
  import opened UpdaterExtraction
  import opened UpdaterProtocol

  /** Operations that only happen while an installed tree exists. */
  predicate NeedsInstall(pc: Pc) {
    match pc
    case Boot => false
    case Ready(_) => false
    case SaveBackedUp => false
    case SwapIn => false
    case Undo => false
    case Restore => false
    case Exit(ok) => ok
    case _ => true
  }

  /** Operations that only happen between setting the install aside and putting a tree back. */
  predicate NeedsAside(pc: Pc) {
    pc.SaveBackedUp? || pc.SwapIn? || pc.Undo? || pc.Restore?
  }

  predicate Recoverable(env: Env, d: Disk) {
    d.install.Dir? || (env.apart && d.backup.Dir? && d.record.Saved?)
  }

  predicate EntryFits(r: Resume, d: Disk) {
    if r == Rollback || r == PostBackup then d.install.Absent? else d.install.Dir?
  }

  predicate NoLossInv(env: Env, w: World) {
    && Recoverable(env, w.disk)
    && (NeedsInstall(w.pc) ==> w.disk.install.Dir?)
    && (NeedsAside(w.pc) ==> w.disk.install.Absent?)
    && (w.pc.SetAside? || w.pc.ClearBackup? ==> w.disk.record.Saved?)
    && (w.pc.Ready? ==> EntryFits(w.pc.resume, w.disk))
  }

  /** Every step keeps the invariant; the tree that leaves install is the one found in backup. */
  lemma NoLossStep(env: Env, w: World, w': World)
    requires env.readable && NoLossInv(env, w) && FaultStep(env, w, w')
    ensures NoLossInv(env, w')
    ensures w'.disk.install.Absent? ==>
              w'.disk.backup == (if w.disk.install.Dir? then w.disk.install else w.disk.backup)
  {
    hide After, Torn, Unpacks;
  }

  lemma {:induction false} RunKeepsInv(env: Env, run: seq<World>)
    requires env.readable && IsFaultRun(env, run) && NoLossInv(env, run[0])
    ensures NoLossInv(env, run[|run| - 1])
    decreases |run|
  {
    if |run| > 1 {
      RunKeepsInv(env, run[..|run| - 1]);
      assert FaultStep(env, run[|run| - 2], run[|run| - 1]);
      NoLossStep(env, run[|run| - 2], run[|run| - 1]);
    }
  }

  /** What holds at the end of a run of any length. */
  ghost predicate NothingLost(run: seq<World>)
    requires |run| > 0 && run[0].disk.install.Dir?
  {
    var w := run[|run| - 1];
    var d := w.disk;
    && (d.install.Absent? ==>
          && d.backup == Dir(LastInstalled(run))
          && d.record.Saved?
          && DetermineResume(d) == (if d.staging.Dir? then PostBackup else Rollback))
    && (w.pc.ClearBackup? || w.pc.DropBackup? ==> d.install.Dir?)
    && (w.pc == Exit(true) ==> d.install.Dir?)
  }

  lemma {:induction false} RunKeepsNoLoss(env: Env, run: seq<World>)
    requires env.readable && IsFaultRun(env, run) && Initial(run[0])
    ensures NothingLost(run)
    decreases |run|
  {
    if |run| > 1 {
      var front := run[..|run| - 1];
      RunKeepsNoLoss(env, front);
      assert FaultStep(env, run[|run| - 2], run[|run| - 1]);
      RunKeepsInv(env, front);
      NoLossStep(env, front[|front| - 1], run[|run| - 1]);
    }
  }

  lemma FrontIsFaultRun(env: Env, run: seq<World>, n: nat)
    requires IsFaultRun(env, run) && 0 < n <= |run|
    ensures IsFaultRun(env, run[..n])
  {
    var front := run[..n];
    forall j | 0 <= j < |front| - 1 ensures FaultStep(env, front[j], front[j + 1]) {
      assert front[j] == run[j] && front[j + 1] == run[j + 1];
    }
  }

  /** The no-loss theorem, for every state of every faulty run. */
  lemma NoLoss(env: Env, run: seq<World>, i: nat)
    requires env.readable && IsFaultRun(env, run) && Initial(run[0]) && i < |run|
    ensures NothingLost(run[..i + 1]) && run[..i + 1][i] == run[i]
  {
    FrontIsFaultRun(env, run, i + 1);
    RunKeepsNoLoss(env, run[..i + 1]);
  }

  // ---------------------------------------------------------------- undisturbed runs

  /** Where a run ends that starts afresh beside an install. */
  function Fresh(env: Env, d: Disk): World {
    if !Unpacks(env.entries, map[]) then World(Exit(false), Disk(d.install, Absent, d.backup, NoRecord))
    else if !env.apart then World(Exit(false), Disk(d.install, Absent, Absent, NoRecord))
    else World(Exit(true), Disk(Dir(Package(env)), Absent, Absent, NoRecord))
  }

  /**
  Where an undisturbed run ends, read off the disk it starts from: which directories exist and
  whether a usable state file says "extracted".
  */
  function Settled(env: Env, d: Disk): World {
    if !d.record.Saved? then Fresh(env, d)
    else if d.install.Absent? then
      World(Exit(true), Disk(if d.staging.Dir? then d.staging else d.backup, Absent, Absent, NoRecord))
    else if d.staging.Absent? && d.backup.Dir? then World(Exit(true), Disk(d.install, Absent, Absent, NoRecord))
    else if d.staging.Dir? && d.record == Saved(Extracted) then
      if env.apart then World(Exit(true), Disk(d.staging, Absent, Absent, NoRecord))
      else World(Exit(false), Disk(d.install, Absent, Absent, NoRecord))
    else Fresh(env, d)
  }

  lemma SettleFromDropBackup(env: Env, d: Disk)
    ensures Finish(env, World(DropBackup, d)) == World(Exit(true), d.(backup := Absent, record := NoRecord))
  {
    hide Unpacks, After;
    var w1 := Complete(env, World(DropBackup, d));
    var w2 := Complete(env, w1);
    var w3 := Complete(env, w2);
    assert Finish(env, w3) == w3;
    assert Finish(env, w1) == Finish(env, w2) == Finish(env, w3);
  }

  lemma SettleFromAbort(env: Env, d: Disk)
    ensures Finish(env, World(AbortStaging, d)) == World(Exit(false), d.(staging := Absent, record := NoRecord))
  {
    hide Unpacks, After;
    var w1 := Complete(env, World(AbortStaging, d));
    var w2 := Complete(env, w1);
    assert Finish(env, w2) == w2;
    assert Finish(env, w1) == Finish(env, w2);
  }

  lemma SettleFromSwapIn(env: Env, d: Disk)
    requires env.apart && d.install.Absent? && d.staging.Dir?
    ensures Finish(env, World(SwapIn, d)) == World(Exit(true), Disk(d.staging, Absent, Absent, NoRecord))
  {
    hide Unpacks, After;
    var w1 := Complete(env, World(SwapIn, d));
    var w2 := Complete(env, w1);
    SettleFromDropBackup(env, w2.disk);
    assert Finish(env, World(SwapIn, d)) == Finish(env, w1) == Finish(env, w2);
  }

  lemma SettleFromSaveExtracted(env: Env, d: Disk)
    requires d.install.Dir? && d.staging.Dir?
    ensures Finish(env, World(SaveExtracted, d)) ==
            if env.apart then World(Exit(true), Disk(d.staging, Absent, Absent, NoRecord))
            else World(Exit(false), Disk(d.install, Absent, Absent, NoRecord))
  {
    hide Unpacks, After;
    var w1 := Complete(env, World(SaveExtracted, d));
    var w2 := Complete(env, w1);
    var w3 := Complete(env, w2);
    assert Finish(env, World(SaveExtracted, d)) == Finish(env, w1) == Finish(env, w2) == Finish(env, w3);
    if env.apart {
      var w4 := Complete(env, w3);
      assert Finish(env, w3) == Finish(env, w4);
      SettleFromSwapIn(env, w4.disk);
    } else {
      SettleFromAbort(env, w3.disk);
    }
  }

  lemma SettleFromClearStaging(env: Env, d: Disk)
    requires d.install.Dir?
    ensures Finish(env, World(ClearStaging, d)) ==
            if !Unpacks(env.entries, map[]) then World(Exit(false), Disk(d.install, Absent, d.backup, NoRecord))
            else if !env.apart then World(Exit(false), Disk(d.install, Absent, Absent, NoRecord))
            else World(Exit(true), Disk(Dir(Package(env)), Absent, Absent, NoRecord))
  {
    hide Unpacks, After;
    var w1 := Complete(env, World(ClearStaging, d));
    var w2 := Complete(env, w1);
    assert Finish(env, World(ClearStaging, d)) == Finish(env, w1) == Finish(env, w2);
    if Unpacks(env.entries, map[]) { SettleFromSaveExtracted(env, w2.disk); } else { SettleFromAbort(env, w2.disk); }
  }

  lemma SettleFromRestore(env: Env, d: Disk)
    requires env.apart && d.install.Absent? && d.backup.Dir?
    ensures Finish(env, World(Restore, d)) == World(Exit(true), Disk(d.backup, Absent, Absent, NoRecord))
  {
    hide Unpacks, After;
    var w1 := Complete(env, World(Restore, d));
    var w2 := Complete(env, w1);
    var w3 := Complete(env, w2);
    var w4 := Complete(env, w3);
    assert Finish(env, w4) == w4;
    assert Finish(env, w1) == Finish(env, w2) == Finish(env, w3) == Finish(env, w4);
  }

  /** What a run does first: load the state file, drop a refused one, wait for the parent. */
  lemma FinishFromBoot(env: Env, d: Disk)
    ensures var d' := if d.record.Unusable? then d.(record := NoRecord) else d;
      Finish(env, World(Boot, d)) == Finish(env, World(EntryPoint(DetermineResume(d)), d'))
  {
    hide Unpacks, After;
    var r := DetermineResume(d);
    var w1 := Complete(env, World(Boot, d));
    assert Finish(env, World(Boot, d)) == Finish(env, w1);
    if d.record.Unusable? {
      var w2 := Complete(env, w1);
      assert Finish(env, w1) == Finish(env, w2) == Finish(env, Complete(env, w2));
    }
  }

  /**
  After any history of faults, one undisturbed run settles the disk as foreseen: a tree is
  installed, and staging and state file are gone.
  */
  lemma UndisturbedRunSettles(env: Env, w: World)
    requires NoLossInv(env, w)
    ensures Finish(env, Crash(w)) == Settled(env, w.disk)
    ensures Settled(env, w.disk).disk.install.Dir?
  {
    hide Finish, Complete, Unpacks, After;
    var d := w.disk;
    var d' := if d.record.Unusable? then d.(record := NoRecord) else d;
    FinishFromBoot(env, d);
    match DetermineResume(d)
    case Full => SettleFromClearStaging(env, d');
    case PostExtract => SettleFromSaveExtracted(env, d);
    case PostBackup => SettleFromSwapIn(env, d);
    case PostInstall => SettleFromDropBackup(env, d);
    case Rollback => SettleFromRestore(env, d);
  }

  /** The same over runs: after any history of faults the next undisturbed run settles the disk. */
  lemma AnyFaultsSettle(env: Env, run: seq<World>, i: nat)
    requires env.readable && IsFaultRun(env, run) && Initial(run[0]) && i < |run|
    ensures Finish(env, Crash(run[i])) == Settled(env, run[i].disk)
    ensures Settled(env, run[i].disk).disk.install.Dir?
  {
    FrontIsFaultRun(env, run, i + 1);
    RunKeepsInv(env, run[..i + 1]);
    UndisturbedRunSettles(env, run[i]);
  }

  /**
  An undisturbed first run installs the package if and only if it can be unpacked and staging and
  backup lie apart from the install; otherwise it reports an error and leaves the install alone.
  */
  lemma CleanRunInstallsExactly(env: Env, w: World)
    requires Initial(w)
    ensures var e := Finish(env, w);
      && (e == World(Exit(true), Disk(Dir(Package(env)), Absent, Absent, NoRecord)) <==> CanInstall(env))
      && (!CanInstall(env) ==>
            && e.pc == Exit(false) && e.disk.install == w.disk.install
            && e.disk.staging.Absent? && e.disk.record.NoRecord?)
  {
    hide Finish, Unpacks, After;
    UndisturbedRunSettles(env, w);
  }

  // ---------------------------------------------------------------- updates that cannot be installed

  lemma NestedStep(env: Env, w: World, w': World)
    requires !env.apart && FaultStep(env, w, w') && w.disk.install.Dir?
    ensures w'.disk.install == w.disk.install
  {
    hide Unpacks, After, Torn;
  }

  /** When staging and backup lie inside the install, no run of any length ever changes the install. */
  lemma {:induction false} NestedInstallStays(env: Env, run: seq<World>)
    requires !env.apart && IsFaultRun(env, run) && run[0].disk.install.Dir?
    ensures run[|run| - 1].disk.install == run[0].disk.install
    decreases |run|
  {
    if |run| > 1 {
      var front := run[..|run| - 1];
      NestedInstallStays(env, front);
      assert FaultStep(env, run[|run| - 2], run[|run| - 1]);
      NestedStep(env, front[|front| - 1], run[|run| - 1]);
    }
  }

  /** What a package that cannot be unpacked comes to: no state is ever saved. */
  predicate NeverStaged(w: World) {
    && w.disk.install.Dir? && !w.disk.record.Saved?
    && match w.pc
       case Boot => true
       case DropUnusable => true
       case Ready(r) => r == Full
       case ClearStaging => true
       case Extract(_) => true
       case AbortStaging => true
       case AbortRecord => true
       case Exit(ok) => !ok
       case _ => false
  }

  lemma NeverStagedStep(env: Env, w: World, w': World)
    requires !Unpacks(env.entries, map[]) && NeverStaged(w) && FaultStep(env, w, w')
    ensures NeverStaged(w') && w'.disk.install == w.disk.install
  {
    hide Unpacks, After, Torn;
    if w.pc.Extract? && Unpacks(env.entries, FilesOf(w.pc.found)) {
      EmptyIsRoomiest(env.entries, FilesOf(w.pc.found));
    }
  }

  lemma {:induction false} NeverStagedRun(env: Env, run: seq<World>)
    requires !Unpacks(env.entries, map[]) && IsFaultRun(env, run) && NeverStaged(run[0])
    ensures NeverStaged(run[|run| - 1]) && run[|run| - 1].disk.install == run[0].disk.install
    decreases |run|
  {
    hide Unpacks;
    if |run| > 1 {
      var front := run[..|run| - 1];
      NeverStagedRun(env, front);
      assert FaultStep(env, run[|run| - 2], run[|run| - 1]);
      NeverStagedStep(env, front[|front| - 1], run[|run| - 1]);
    }
  }

  /**
  Where an update cannot be installed, no faulty run of any length ever changes the install, however
  it goes on.
  */
  lemma ChangesNothing(env: Env, run: seq<World>, more: seq<World>)
    requires !CanInstall(env) && IsFaultRun(env, run) && Initial(run[0])
    requires IsFaultRun(env, more) && more[0] == run[|run| - 1]
    ensures more[|more| - 1].disk.install == run[0].disk.install
    ensures env.apart ==> !more[|more| - 1].disk.record.Saved?
  {
    hide Unpacks;
    if env.apart {
      NeverStagedRun(env, run);
      NeverStagedRun(env, more);
    } else {
      NestedInstallStays(env, run);
      NestedInstallStays(env, more);
    }
  }

  // ---------------------------------------------------------------- interrupted error cleanup

  /**
  A crash while error cleanup removes the staging tree.  The next run installs what is left of the
  tree exactly if the state file still says "extracted"; otherwise it starts afresh.
  */
  lemma InterruptedCleanup(env: Env, w: World, left: Files)
    requires CanInstall(env) && w.pc == AbortStaging && w.disk.install.Dir? && Pruned(w.disk.staging, Dir(left))
    ensures var w' := w.(disk := w.disk.(staging := Dir(left)));
      && Partial(env, w, w')
      && Finish(env, Crash(w')) ==
         World(Exit(true), Disk(if w.disk.record == Saved(Extracted) then Dir(left) else Dir(Package(env)),
                                Absent, Absent, NoRecord))
  {
    hide Finish, Complete, Unpacks, After;
    var w' := w.(disk := w.disk.(staging := Dir(left)));
    UndisturbedRunSettles(env, w');
  }

  /** One failed rename leads there: so one failure and one crash can install any part of the package. */
  lemma CleanupReachable(env: Env, original: Files) returns (run: seq<World>)
    requires env.readable && CanInstall(env)
    ensures IsFaultRun(env, run) && run[0] == World(Boot, Disk(Dir(original), Absent, Absent, NoRecord))
    ensures run[|run| - 1] == World(AbortStaging, Disk(Dir(original), Dir(Package(env)), Absent, Saved(Extracted)))
  {
    hide Unpacks, After, Torn, Pruned, Partial;
    var clean := Disk(Dir(original), Absent, Absent, NoRecord);
    var unpacked := clean.(staging := Dir(Package(env)));
    var saved := unpacked.(record := Saved(Extracted));
    run := [
      World(Boot, clean), World(Ready(Full), clean), World(ClearStaging, clean), World(Extract(Absent), clean),
      World(SaveExtracted, unpacked), World(ClearBackup, saved), World(SetAside, saved),
      World(AbortStaging, saved)];
  }
}
