/**
The protocol and its state file together: the updater loses nothing exactly when the state files
it writes can be read back, which depends on the name of the installation directory.
*/
module UpdaterRecovery {
  import opened Ascii
  import opened Paths
  import StateFile
  import opened UpdaterExtraction
  import opened UpdaterProtocol
  import opened UpdaterNoLoss

  function PhaseText(p: Phase): string {
    match p
    case Extracted => "extracted"
    case InstallBackedUp => "install_backed_up"
    case Installed => "installed"
  }

  /** The text of a phase is not validated; all but "extracted" have the same effect. */
  function PhaseOf(text: string): Phase {
    if text == "extracted" then Extracted else if text == "install_backed_up" then InstallBackedUp else Installed
  }

  predicate Arguments(install: string, zip: string) {
    ValidInstall(zip, install, StagingOf(install), BackupOf(install), StatePathOf(install))
  }

  /** What `main` makes of the state file: load it, validate it, look at its phase. */
  ghost function ReadRecord(text: Option<string>, install: string, zip: string): Record {
    match text
    case None => NoRecord
    case Some(t) =>
      match StateFile.LoadText(t)
      case None => Unusable
      case Some(st) =>
        if StateFile.Valid(st, install, StagingOf(install), BackupOf(install), zip) then Saved(PhaseOf(st.phase))
        else Unusable
  }

  function EnvOf(entries: seq<Entry>, install: string): Env {
    Env(entries, StateFile.Unmistakable(install), !EndsInSlash(install))
  }

  /** The records of the protocol are the state files that `main` writes and reads. */
  lemma SavedIsRead(entries: seq<Entry>, install: string, zip: string, p: Phase)
    requires Arguments(install, zip)
    ensures ReadRecord(Some(StateFile.StateText(StateFile.StateOf(PhaseText(p), install, zip))), install, zip) ==
            Save(EnvOf(entries, install), p)
  {
    hide StateFile.StateText, StateFile.LoadText, StateFile.Valid, StateFile.Unmistakable, ValidInstall;
    PhaseTextIsPhase(p);
    StateFile.LoadAfterSave(PhaseText(p), install, zip);
  }

  lemma PhaseTextIsPhase(p: Phase)
    ensures StateFile.IsPhase(PhaseText(p)) && PhaseOf(PhaseText(p)) == p
  {
  }

  /** The phases as they are spelled in the file. */
  lemma PhasesSpelled(install: string, zip: string)
    requires Arguments(install, zip) && StateFile.Unmistakable(install)
    ensures ReadRecord(Some(StateFile.StateText(StateFile.StateOf("extracted", install, zip))), install, zip) ==
            Saved(Extracted)
    ensures ReadRecord(Some(StateFile.StateText(StateFile.StateOf("install_backed_up", install, zip))), install, zip) ==
            Saved(InstallBackedUp)
    ensures ReadRecord(Some(StateFile.StateText(StateFile.StateOf("installed", install, zip))), install, zip) ==
            Saved(Installed)
  {
    hide StateFile.StateText, StateFile.LoadText, StateFile.Valid, StateFile.Unmistakable, ValidInstall;
    StateFile.LoadAfterSave("extracted", install, zip);
    StateFile.LoadAfterSave("install_backed_up", install, zip);
    StateFile.LoadAfterSave("installed", install, zip);
  }

  // ---------------------------------------------------------------- whose state is accepted

  /** A state is accepted for exactly the arguments it was saved for: each of its four paths counts. */
  lemma AcceptedExactly(st: StateFile.State, install: string, zip: string)
    requires Arguments(install, zip)
    ensures StateFile.Valid(st, install, StagingOf(install), BackupOf(install), zip) <==>
            && st.target == install && st.package == zip
            && st.staging == install + ".update_staging" && st.backup == install + ".update_backup"
  {
    hide ValidPath;
    assert |StagingOf(install)| == |install| + 15;
  }

  /**
  A state saved by a run for one install and package is accepted by a run for another exactly if
  both are equal (and the name is not mistaken for a key); otherwise it counts as unusable.
  */
  lemma OtherArguments(p: Phase, install: string, zip: string, install': string, zip': string)
    requires Arguments(install, zip) && Arguments(install', zip')
    ensures ReadRecord(Some(StateFile.StateText(StateFile.StateOf(PhaseText(p), install, zip))), install', zip') ==
            if StateFile.Unmistakable(install) && install == install' && zip == zip' then Saved(p) else Unusable
  {
    hide StateFile.StateText, StateFile.LoadText, StateFile.Valid, StateFile.Unmistakable, ValidInstall;
    PhaseTextIsPhase(p);
    StateFile.LoadAfterSave(PhaseText(p), install, zip);
    AcceptedExactly(StateFile.StateOf(PhaseText(p), install, zip), install', zip');
  }

  /** What follows a refused state: the run starts afresh and installs its own package. */
  lemma OtherPackageStartsAfresh(p: Phase, install: string, zip: string, zip': string, entries: seq<Entry>, d: Disk)
    requires Arguments(install, zip) && Arguments(install, zip') && zip != zip'
    requires d.record ==
             ReadRecord(Some(StateFile.StateText(StateFile.StateOf(PhaseText(p), install, zip))), install, zip')
    requires d.install.Dir? && CanInstall(EnvOf(entries, install))
    ensures DetermineResume(d) == Full
    ensures Finish(EnvOf(entries, install), World(Boot, d)) ==
            World(Exit(true), Disk(Dir(Package(EnvOf(entries, install))), Absent, Absent, NoRecord))
  {
    hide StateFile.StateText, StateFile.LoadText, StateFile.Valid, StateFile.Unmistakable, ValidInstall;
    hide Finish, Unpacks;
    OtherArguments(p, install, zip, install, zip');
    UndisturbedRunSettles(EnvOf(entries, install), World(Boot, d));
  }

  // ---------------------------------------------------------------- what is lost, what is installed

  /** With unreadable state files one crash and a second start destroy install and backup. */
  lemma UnreadableLoses(env: Env, original: Files) returns (run: seq<World>)
    requires !env.readable && CanInstall(env)
    ensures IsCrashRun(env, run) && Initial(run[0]) && run[0].disk.install == Dir(original)
    ensures run[|run| - 1].disk.install.Absent? && run[|run| - 1].disk.backup.Absent?
  {
    hide After, Torn, Pruned, Partial, Unpacks;
    var clean := Disk(Dir(original), Absent, Absent, NoRecord);
    var unpacked := clean.(staging := Dir(Package(env)));
    var noted := unpacked.(record := Unusable);
    var aside := Disk(Absent, Dir(Package(env)), Dir(original), Unusable);
    var dropped := aside.(record := NoRecord);
    var cleared := dropped.(staging := Absent);
    var lost := Disk(Absent, Dir(Package(env)), Absent, Unusable);
    run := [
      World(Boot, clean), World(Ready(Full), clean), World(ClearStaging, clean), World(Extract(Absent), clean),
      World(SaveExtracted, unpacked), World(ClearBackup, noted), World(SetAside, noted),
      World(SaveBackedUp, aside),  // the crash
      World(Boot, aside), World(DropUnusable, aside), World(Ready(Full), dropped), World(ClearStaging, dropped),
      World(Extract(Absent), cleared), World(SaveExtracted, dropped), World(ClearBackup, aside),
      World(SetAside, lost)];
  }

  /** A name that is mistaken for a key ends in a letter, so the trees lie apart. */
  lemma MistakenIsApart(install: string)
    requires !StateFile.Unmistakable(install)
    ensures !EndsInSlash(install)
  {
    forall key | key == "staging" || key == "backup" || key == "package"
      ensures StateFile.Mimics(install, key) ==> !EndsInSlash(install)
    {
      var tail := "\"" + key;
      assert tail[|tail| - 1] == key[|key| - 1] != '/';
      assert StateFile.Mimics(install, key) ==> install[|install| - 1] == install[|install| - |tail|..][|tail| - 1];
    }
  }

  /**
  No loss, exactly: for validated arguments every faulty run keeps an installed tree or its
  recoverable backup if and only if the installation directory does not end in a quotation mark
  and one of the words `staging`, `backup` and `package`, or the package cannot be unpacked at all.
  */
  lemma NoLossExactly(entries: seq<Entry>, install: string, zip: string)
    requires Arguments(install, zip)
    ensures StateFile.Unmistakable(install) || !Unpacks(entries, map[]) <==>
            forall run: seq<World> | IsFaultRun(EnvOf(entries, install), run) && Initial(run[0]) :: NothingLost(run)
  {
    hide NothingLost, StateFile.Unmistakable, Arguments, Unpacks, EndsInSlash;
    var env := EnvOf(entries, install);
    if env.readable {
      forall run: seq<World> | IsFaultRun(env, run) && Initial(run[0]) ensures NothingLost(run) {
        RunKeepsNoLoss(env, run);
      }
    } else {
      MistakenIsApart(install);
      if Unpacks(entries, map[]) {
        var run := UnreadableLoses(env, map[]);
        LostIsLost(run);
        assert IsFaultRun(env, run) by {
          forall i | 0 <= i < |run| - 1 ensures FaultStep(env, run[i], run[i + 1]) {
            assert CrashStep(env, run[i], run[i + 1]);
          }
        }
      } else {
        forall run: seq<World> | IsFaultRun(env, run) && Initial(run[0]) ensures NothingLost(run) {
          NeverStagedRun(env, run);
          InstalledIsNotLost(run);
        }
      }
    }
  }

  lemma InstalledIsNotLost(run: seq<World>)
    requires |run| > 0 && run[0].disk.install.Dir? && run[|run| - 1].disk.install.Dir?
    ensures NothingLost(run)
  {
  }

  /**
  What an update comes to, exactly: for validated arguments an undisturbed first run installs the
  package if and only if the installation directory is not spelled with a slash at its end and the
  package can be unpacked.  Otherwise it reports an error, and no faulty run changes the install.
  */
  lemma InstallsExactly(entries: seq<Entry>, install: string, zip: string, w: World)
    requires Arguments(install, zip) && Initial(w)
    ensures var env := EnvOf(entries, install);
      && (Finish(env, w) == World(Exit(true), Disk(Dir(Package(env)), Absent, Absent, NoRecord)) <==>
            LieApart(install, StagingOf(install)) && LieApart(install, BackupOf(install)) && Unpacks(entries, map[]))
      && (EndsInSlash(install) || !Unpacks(entries, map[]) ==>
            && Finish(env, w).pc == Exit(false) && Finish(env, w).disk.install == w.disk.install
            && forall run: seq<World> | IsFaultRun(env, run) && run[0] == w ::
                 run[|run| - 1].disk.install == w.disk.install)
  {
    hide Finish, Unpacks, Segments, LieApart, LiesBelow;
    var env := EnvOf(entries, install);
    NestedExactly(zip, install);
    CleanRunInstallsExactly(env, w);
    if !CanInstall(env) {
      forall run: seq<World> | IsFaultRun(env, run) && run[0] == w
        ensures run[|run| - 1].disk.install == w.disk.install
      {
        ChangesNothing(env, run, [run[|run| - 1]]);
      }
    }
  }

  /** Ordinary characters, none of them special in a path. */
  predicate OnePiece(s: string) {
    s != "" && !IsDots(s) && forall c | c in s :: c >= ' ' && NotSep(c)
  }

  lemma OnePiecePath(s: string, absolute: bool)
    requires OnePiece(s) && |s| + 1 < PATH_MAX
    ensures ValidPath("/" + s, absolute)
  {
    hide Segments;
    var p := "/" + s;
    SegmentStep(true, p);
    assert p[1..] == s;
    OneSegment(true, s);
    assert forall i | 0 < i < |p| :: p[i] == s[i - 1] && s[i - 1] in s;
    assert forall i | 0 <= i < |p| :: p[i] >= ' ';
  }

  lemma OnePieceLonger(s: string, t: string)
    requires OnePiece(s) && |s| > 2 && forall c | c in t :: c >= ' ' && NotSep(c)
    ensures OnePiece(s + t)
  {
  }

  /** A valid installation directory that is mistaken for a key. */
  lemma MistakenName()
    ensures Arguments("/x\"staging", "/p.zip") && !StateFile.Unmistakable("/x\"staging")
  {
    hide ValidPath, OnePiece;
    var s, z := "x\"staging", "p.zip";
    var install := "/" + s;
    assert OnePiece(s) && OnePiece(z) by { Pieces(); }
    OnePieceLonger(s, ".update_staging");
    OnePieceLonger(s, ".update_backup");
    OnePieceLonger(s, ".update_state.json");
    OnePiecePath(s, true);
    OnePiecePath(z, false);
    OnePiecePath(s + ".update_staging", true);
    OnePiecePath(s + ".update_backup", true);
    OnePiecePath(s + ".update_state.json", true);
    assert StagingOf(install) == "/" + (s + ".update_staging");
    assert BackupOf(install) == "/" + (s + ".update_backup");
    assert StatePathOf(install) == "/" + (s + ".update_state.json");
    assert install == "/x\"staging" && "/" + z == "/p.zip";
    assert install[2..] == "\"" + "staging";
  }

  /** A valid installation directory that nothing can be installed into. */
  lemma SlashTarget(entries: seq<Entry>, w: World)
    requires Initial(w)
    ensures Arguments("/x/", "/p.zip") && LiesBelow(StagingOf("/x/"), "/x/") && LiesBelow(BackupOf("/x/"), "/x/")
    ensures Finish(EnvOf(entries, "/x/"), w).pc == Exit(false)
  {
    hide ValidPath, OnePiece, Finish, Segments;
    ValidBehindSlash("x", "");
    ValidBehindSlash("x", ".update_staging");
    ValidBehindSlash("x", ".update_backup");
    ValidBehindSlash("x", ".update_state.json");
    assert OnePiece("p.zip") by { Pieces(); }
    OnePiecePath("p.zip", false);
    assert "/" + "p.zip" == "/p.zip" && "/" + "x" + "/" + "" == "/x/";
    assert StagingOf("/x/") == "/" + "x" + "/" + ".update_staging";
    assert BackupOf("/x/") == "/" + "x" + "/" + ".update_backup";
    assert StatePathOf("/x/") == "/" + "x" + "/" + ".update_state.json";
    assert Arguments("/x/", "/p.zip");
    NestedExactly("/p.zip", "/x/");
    InstallsExactly(entries, "/x/", "/p.zip", w);
  }

  lemma SlashNames()
    ensures StagingOf("/x/") == "/x/.update_staging" && BackupOf("/x/") == "/x/.update_backup"
    ensures StatePathOf("/x/") == "/x/.update_state.json"
  {
  }

  lemma ValidBehindSlash(s: string, t: string)
    requires s == "x" && (t == "" || t == ".update_staging" || t == ".update_backup" || t == ".update_state.json")
    ensures ValidPath("/" + s + "/" + t, true)
  {
    hide Segments;
    var p := "/" + s + "/" + t;
    SegmentsOfJoin(true, "/" + s, t);
    SegmentStep(true, "/" + s);
    assert ("/" + s)[1..] == s;
    OneSegment(true, s);
    if t == "" { NoSegmentsAtAll(true); } else { OneSegment(true, t); }
    assert forall i | 0 <= i < |p| :: p[i] >= ' ';
  }

  lemma Pieces()
    ensures OnePiece("x\"staging") && OnePiece("p.zip")
  {
  }

  lemma LostIsLost(run: seq<World>)
    requires |run| > 0 && run[0].disk.install.Dir?
    requires run[|run| - 1].disk.install.Absent? && run[|run| - 1].disk.backup.Absent?
    ensures !NothingLost(run)
  {
  }
}
