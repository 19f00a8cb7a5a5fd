/**
Crashes only: every operation succeeds, but the machine may stop at any moment, in the middle of
an extraction or a removal too.
*/
module UpdaterCrash {
  import opened UpdaterExtraction
  import opened UpdaterProtocol
  import opened UpdaterNoLoss

  /**
  FULL is entered beside a state file that still says "extracted": an interrupted extraction
  would then be taken for a finished one.
  */
  predicate EntersFullStale(w: World) {
    w.pc == ClearStaging && w.disk.record == Saved(Extracted)
  }

  /** The same condition read off the disk before the run starts. */
  predicate StaleStart(d: Disk) {
    d.install.Dir? && d.staging.Absent? && d.backup.Absent? && d.record == Saved(Extracted)
  }

  /** A stale entry does no harm to a package without files: its extraction has no middle. */
  predicate Harmful(env: Env, w: World) { EntersFullStale(w) && env.entries != [] }

  predicate OldOrNew(original: Files, env: Env, t: Tree) {
    t == Dir(original) || t == Dir(Package(env))
  }

  predicate WholeOrAbsent(original: Files, env: Env, t: Tree) {
    t.Absent? || OldOrNew(original, env, t)
  }

  predicate DiskInv(original: Files, env: Env, d: Disk) {
    && WholeOrAbsent(original, env, d.install)
    && (d.install.Absent? ==>
          OldOrNew(original, env, d.backup) && d.staging == Dir(Package(env)) && d.record.Saved?)
    && (d.install.Dir? && d.record == Saved(Extracted) ==>
          if d.staging.Dir? then d.staging == Dir(Package(env)) else d.install == Dir(Package(env)))
    && (d.install.Dir? && d.record.Saved? && d.record.phase != Extracted ==> d.install == Dir(Package(env)))
  }

  predicate CrashInv(original: Files, env: Env, w: World) {
    var d := w.disk;
    && DiskInv(original, env, d)
    && match w.pc
       case Boot => true
       case DropUnusable => d.record.Unusable?
       case Ready(r) => r == DetermineResume(d)
       case ClearStaging => d.install.Dir? && (d.record == Saved(Extracted) ==> env.entries == [] && d.staging.Absent?)
       case Extract(found) => found.Absent? && d.install.Dir? && (d.record == Saved(Extracted) ==> env.entries == [])
       case SaveExtracted => d.install.Dir? && d.staging == Dir(Package(env))
       case ClearBackup => d.install.Dir? && d.staging == Dir(Package(env)) && d.record == Saved(Extracted)
       case SetAside =>
         d.install.Dir? && d.staging == Dir(Package(env)) && d.record == Saved(Extracted) && d.backup.Absent?
       case SaveBackedUp => d.install.Absent?
       case SwapIn => d.install.Absent?
       case SaveInstalled => d.install == Dir(Package(env)) && d.staging.Absent?
       case DropBackup => d.install == Dir(Package(env)) && d.staging.Absent?
       case DropRecord => d.install == Dir(Package(env)) && d.staging.Absent? && d.backup.Absent?
       case Relaunch => d == Disk(Dir(Package(env)), Absent, Absent, NoRecord)
       case Exit(ok) => ok && d == Disk(Dir(Package(env)), Absent, Absent, NoRecord)
       case _ => false
  }

  lemma CrashInvStep(original: Files, env: Env, w: World, w': World)
    requires env.readable && CanInstall(env) && CrashInv(original, env, w)
    requires CrashStep(env, w, w') && !Harmful(env, w')
    ensures CrashInv(original, env, w')
  {
    hide After, Unpacks, Torn;
    if env.entries == [] {
      assert Package(env) == map[] by { NoEntries(); }
      if w.pc.Extract? && w'.disk.staging.Dir? && Torn(env.entries, map[], w'.disk.staging.files) {
        NothingTorn(map[], w'.disk.staging.files);
      }
    }
  }

  lemma NoEntries()
    ensures After([], map[]) == map[]
  {
  }

  /** What a crash must never do to the disk. */
  predicate Sound(original: Files, env: Env, w: World) {
    && WholeOrAbsent(original, env, w.disk.install)
    && (w.disk.install.Absent? ==> OldOrNew(original, env, w.disk.backup))
    && (w.pc.SwapIn? ==> w.disk.staging == Dir(Package(env)))
    && (w.pc.Exit? ==> w.disk == Disk(Dir(Package(env)), Absent, Absent, NoRecord))
  }

  lemma {:induction false} CrashRunKeepsInv(original: Files, env: Env, run: seq<World>)
    requires env.readable && CanInstall(env) && IsCrashRun(env, run) && CrashInv(original, env, run[0])
    requires forall i | 1 <= i < |run| :: !Harmful(env, run[i])
    ensures CrashInv(original, env, run[|run| - 1])
    decreases |run|
  {
    if |run| > 1 {
      var front := run[..|run| - 1];
      CrashRunKeepsInv(original, env, front);
      assert CrashStep(env, run[|run| - 2], run[|run| - 1]);
      CrashInvStep(original, env, front[|front| - 1], run[|run| - 1]);
    }
  }

  /**
  Completeness and recovery, for every state of every crash run that never enters FULL stale with a
  package that holds a file.
  */
  lemma CrashSafe(original: Files, env: Env, run: seq<World>, i: nat)
    requires env.readable && CanInstall(env)
    requires IsCrashRun(env, run) && Initial(run[0]) && run[0].disk.install == Dir(original)
    requires forall j | 0 <= j < |run| :: !Harmful(env, run[j])
    requires i < |run|
    ensures Sound(original, env, run[i])
    ensures Finish(env, Crash(run[i])) == World(Exit(true), Disk(Dir(Package(env)), Absent, Absent, NoRecord))
  {
    hide Unpacks, After, Torn;
    var front := run[..i + 1];
    assert IsCrashRun(env, front) by {
      forall j | 0 <= j < |front| - 1 ensures CrashStep(env, front[j], front[j + 1]) {
        assert front[j] == run[j] && front[j + 1] == run[j + 1];
      }
    }
    CrashRunKeepsInv(original, env, front);
    UndisturbedRunSettles(env, Crash(run[i]));
  }

  // ---------------------------------------------------------------- the proviso is exact

  /** The run after a stale entry in which a crash interrupts the extraction, leaving `torn`. */
  function TornRun(env: Env, w: World, torn: Files): (run: seq<World>)
    ensures |run| == 11
  {
    var w0 := w;
    var w1 := Complete(env, w0);
    var w2 := w1.(disk := w1.disk.(staging := Dir(torn)));
    var w3 := Crash(w2);
    var w4 := Complete(env, w3);
    var w5 := Complete(env, w4);
    var w6 := Complete(env, w5);
    var w7 := Complete(env, w6);
    var w8 := Complete(env, w7);
    var w9 := Complete(env, w8);
    [w0, w1, w2, w3, w4, w5, w6, w7, w8, w9, Complete(env, w9)]
  }

  /** From `w` some crashes, with no further stale entry, install a tree that is neither whole one. */
  ghost predicate CanBreak(original: Files, env: Env, w: World) {
    exists run: seq<World> ::
      && IsCrashRun(env, run) && run[0] == w
      && (forall i | 1 <= i < |run| :: !EntersFullStale(run[i]))
      && !WholeOrAbsent(original, env, run[|run| - 1].disk.install)
  }

  /** Whatever an interrupted extraction can leave in an empty directory can end up installed. */
  lemma StaleEntryInstallsTornTree(env: Env, w: World, torn: Files)
    requires env.readable && env.apart && EntersFullStale(w) && w.disk.install.Dir?
    requires Torn(env.entries, map[], torn)
    ensures var run := TornRun(env, w, torn);
      && IsCrashRun(env, run) && run[0] == w
      && (forall i | 1 <= i < |run| :: !EntersFullStale(run[i]))
      && run[10].pc == SaveInstalled && run[10].disk.install == Dir(torn) && run[10].disk.staging.Absent?
  {
    hide After, Torn, Unpacks;
    var run := TornRun(env, w, torn);
    assert Partial(env, run[1], run[2]);
    assert forall i | 0 <= i < 10 && i != 1 && i != 2 :: run[i + 1] == Complete(env, run[i]);
  }

  /** ... and the updater goes on to report success. */
  lemma TornTreeReported(env: Env, d: Disk)
    requires d.install.Dir? && d.staging.Absent?
    ensures Finish(env, World(SaveInstalled, d)) == World(Exit(true), Disk(d.install, Absent, Absent, NoRecord))
  {
    var w := Complete(env, World(SaveInstalled, d));
    assert Finish(env, World(SaveInstalled, d)) == Finish(env, w);
    SettleFromDropBackup(env, w.disk);
  }

  /**
  The proviso of `CrashSafe` is exact: a crash run that had no stale entry so far can still be
  broken (without any later stale entry) if and only if it has just entered FULL stale, the package
  holds a file, and the trees can be renamed at all.
  */
  lemma BreaksExactlyWhenStale(original: Files, env: Env, run: seq<World>)
    requires env.readable && IsCrashRun(env, run) && Initial(run[0]) && run[0].disk.install == Dir(original)
    requires forall j | 0 <= j < |run| - 1 :: !EntersFullStale(run[j])
    ensures CanBreak(original, env, run[|run| - 1]) <==>
            EntersFullStale(run[|run| - 1]) && env.entries != [] && env.apart
  {
    hide Torn, After, Unpacks;
    var w := run[|run| - 1];
    if !CanInstall(env) {
      CrashRunIsFaultRun(env, run);
      ChangesNothing(env, run, [w]);
      forall r: seq<World> | IsCrashRun(env, r) && r[0] == w
        ensures WholeOrAbsent(original, env, r[|r| - 1].disk.install)
      {
        CrashRunIsFaultRun(env, r);
        ChangesNothing(env, run, r);
      }
    } else if Harmful(env, w) {
      StaleHasInstall(original, env, run);
      var torn := TornTree(env.entries, original);
      StaleEntryInstallsTornTree(env, w, torn);
      assert !WholeOrAbsent(original, env, TornRun(env, w, torn)[10].disk.install);
    } else {
      CrashRunKeepsInv(original, env, run);
      forall r: seq<World> |
        IsCrashRun(env, r) && r[0] == w && (forall i | 1 <= i < |r| :: !EntersFullStale(r[i]))
        ensures WholeOrAbsent(original, env, r[|r| - 1].disk.install)
      {
        CrashRunKeepsInv(original, env, r);
      }
    }
  }

  lemma CrashRunIsFaultRun(env: Env, run: seq<World>)
    requires IsCrashRun(env, run)
    ensures IsFaultRun(env, run)
  {
    forall i | 0 <= i < |run| - 1 ensures FaultStep(env, run[i], run[i + 1]) {
      assert CrashStep(env, run[i], run[i + 1]);
    }
  }

  lemma StaleHasInstall(original: Files, env: Env, run: seq<World>)
    requires env.readable && CanInstall(env)
    requires IsCrashRun(env, run) && Initial(run[0]) && run[0].disk.install == Dir(original)
    requires forall j | 0 <= j < |run| - 1 :: !EntersFullStale(run[j])
    requires EntersFullStale(run[|run| - 1])
    ensures run[|run| - 1].disk.install.Dir?
  {
    hide After, Torn, Unpacks;
    var front := run[..|run| - 1];
    CrashRunKeepsInv(original, env, front);
    assert CrashStep(env, front[|front| - 1], run[|run| - 1]);
  }

  /** A stale entry is foreseeable: it follows exactly from the disk a run starts on. */
  lemma StaleStartForeseen(original: Files, env: Env, w: World)
    requires CrashInv(original, env, w) && w.pc == Boot
    ensures StaleStart(w.disk) <==> EntersFullStale(Complete(env, Complete(env, w)))
  {
  }

  /** The proviso does fail: three crashes after a fresh start lead to a stale entry. */
  lemma StaleEntryReachable(original: Files, env: Env) returns (run: seq<World>)
    requires env.readable && CanInstall(env)
    ensures IsCrashRun(env, run) && Initial(run[0]) && run[0].disk.install == Dir(original)
    ensures EntersFullStale(run[|run| - 1])
    ensures forall i | 0 <= i < |run| - 1 :: !EntersFullStale(run[i])
  {
    hide After, Torn, Pruned, Partial, Unpacks;
    var clean := Disk(Dir(original), Absent, Absent, NoRecord);
    var unpacked := clean.(staging := Dir(Package(env)));
    var saved := unpacked.(record := Saved(Extracted));
    var aside := Disk(Absent, Dir(Package(env)), Dir(original), Saved(Extracted));
    var swapped := Disk(Dir(Package(env)), Absent, Dir(original), Saved(Extracted));
    var stale := swapped.(backup := Absent);
    run := [
      World(Boot, clean), World(Ready(Full), clean), World(ClearStaging, clean), World(Extract(Absent), clean),
      World(SaveExtracted, unpacked), World(ClearBackup, saved), World(SetAside, saved),
      World(SaveBackedUp, aside),  // the first crash
      World(Boot, aside), World(Ready(PostBackup), aside), World(SwapIn, aside),
      World(SaveInstalled, swapped),  // the second crash
      World(Boot, swapped), World(Ready(PostInstall), swapped), World(DropBackup, swapped),
      World(DropRecord, stale),  // the third crash
      World(Boot, stale), World(Ready(Full), stale), World(ClearStaging, stale)];
  }
}
