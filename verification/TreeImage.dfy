/**
What copying one directory tree over another amounts to, as equations between trees.

A tree is flat: the contents of its files by path below the root, and the set of its directories.
*/
module TreeImage {
  import opened Ascii

  type Path = seq<string>

  /** The root itself, when it is a directory, is the empty path. */
  datatype Tree = Tree(files: map<Path, string>, dirs: set<Path>)

  function Entries(t: Tree): set<Path> { t.files.Keys + t.dirs }

  /** Every entry lies in a directory, and no path is both a file and a directory. */
  predicate Formed(t: Tree) {
    && t.files.Keys !! t.dirs
    && forall q, i | q in Entries(t) && 0 <= i < |q| :: q[..i] in t.dirs
  }

  // ---------------------------------------------------------------- leaf names

  /** `stage_overlay_dst_leaf`: the running updater is not replaced, its successor is put beside it. */
  function Leaf(overlay: bool, name: string): string {
    if !overlay then name
    else if LowerAll(name) == "updater.exe" then "updater_new.exe"
    else if LowerAll(name) == "updater" then "updater_new"
    else name
  }

  /** Where a file is copied to; directories keep their names. */
  function Target(overlay: bool, f: Path): Path {
    if f == [] then [] else f[..|f| - 1] + [Leaf(overlay, f[|f| - 1])]
  }

  predicate IsTarget(src: Tree, overlay: bool, some: set<Path>, f: Path, q: Path) {
    f in some && f in src.files && Target(overlay, f) == q
  }

  function Targets(src: Tree, overlay: bool, some: set<Path>): set<Path> {
    set f | f in src.files.Keys && f in some :: Target(overlay, f)
  }

  /** The copies of `some` files of a tree, at their targets. */
  ghost function Image(src: Tree, overlay: bool, some: set<Path>): map<Path, string> {
    map q | q in Targets(src, overlay, some) ::
      var f :| IsTarget(src, overlay, some, f, q); src.files[f]
  }

  /** No two files share a target, and no target is a directory of the tree. */
  predicate NoCollision(src: Tree, overlay: bool) {
    && (forall f, g | f in src.files && g in src.files && Target(overlay, f) == Target(overlay, g) :: f == g)
    && (forall f | f in src.files :: Target(overlay, f) !in src.dirs)
  }

  // ---------------------------------------------------------------- copying

  /** `a` with `some` entries of `src` copied over it; a file takes the place of an empty directory. */
  ghost function Overlaid(src: Tree, overlay: bool, some: set<Path>, a: Tree): Tree {
    Tree(a.files + Image(src, overlay, some), a.dirs + some * src.dirs - Targets(src, overlay, some))
  }

  ghost function CopyOf(src: Tree, overlay: bool, a: Tree): Tree { Overlaid(src, overlay, Entries(src), a) }

  /** What an unfinished copy may leave: anything at the targets, and some of the directories. */
  predicate Touched(targets: set<Path>, dirs: set<Path>, a: Tree, b: Tree) {
    && b.files - targets == a.files - targets
    && a.dirs - targets <= b.dirs <= a.dirs + dirs
  }

  predicate Disturbed(src: Tree, overlay: bool, a: Tree, b: Tree) {
    Touched(Targets(src, overlay, Entries(src)), src.dirs + {[]}, a, b)
  }

  /** Nothing lies below `q`. */
  predicate Bare(q: Path, a: Tree) { forall e | e in Entries(a) :: !(q < e) }

  /** Type conflicts: a directory cannot replace a file, nor a file a directory that is not empty. */
  predicate Fits(src: Tree, overlay: bool, some: set<Path>, a: Tree) {
    && (forall d | d in src.dirs && d in some :: d !in a.files)
    && (forall f | f in src.files && f in some :: Bare(Target(overlay, f), a))
  }

  // ---------------------------------------------------------------- equations

  lemma ImageAt(src: Tree, overlay: bool, some: set<Path>, f: Path)
    requires NoCollision(src, overlay) && f in some && f in src.files
    ensures var q := Target(overlay, f);
      q in Targets(src, overlay, some) && Image(src, overlay, some)[q] == src.files[f]
  {
    assert IsTarget(src, overlay, some, f, Target(overlay, f));
  }

  lemma TargetHasSource(src: Tree, overlay: bool, some: set<Path>, q: Path)
    requires q in Targets(src, overlay, some)
    ensures exists f :: IsTarget(src, overlay, some, f, q)
  {
    var f :| f in src.files.Keys && f in some && Target(overlay, f) == q;
    assert IsTarget(src, overlay, some, f, q);
  }

  lemma ImageKeys(src: Tree, overlay: bool, some: set<Path>)
    ensures Image(src, overlay, some).Keys == Targets(src, overlay, some)
  {
  }

  /** The image is the one map with its keys and contents. */
  lemma ImageIs(src: Tree, overlay: bool, some: set<Path>, m: map<Path, string>)
    requires NoCollision(src, overlay) && m.Keys == Targets(src, overlay, some)
    requires forall f | f in some && f in src.files :: Target(overlay, f) in m && m[Target(overlay, f)] == src.files[f]
    ensures Image(src, overlay, some) == m
  {
    hide Targets, Image, NoCollision, Target;
    ImageKeys(src, overlay, some);
    forall q | q in m ensures Image(src, overlay, some)[q] == m[q] {
      TargetHasSource(src, overlay, some, q);
      var f :| IsTarget(src, overlay, some, f, q);
      ImageAt(src, overlay, some, f);
    }
  }

  lemma TargetsOfUnion(src: Tree, overlay: bool, s: set<Path>, t: set<Path>)
    ensures Targets(src, overlay, s + t) == Targets(src, overlay, s) + Targets(src, overlay, t)
  {
  }

  lemma ImageOfUnion(src: Tree, overlay: bool, s: set<Path>, t: set<Path>)
    requires NoCollision(src, overlay)
    ensures Image(src, overlay, s + t) == Image(src, overlay, s) + Image(src, overlay, t)
  {
    hide Targets, Image, Target, NoCollision;
    var m := Image(src, overlay, s) + Image(src, overlay, t);
    TargetsOfUnion(src, overlay, s, t);
    ImageKeys(src, overlay, s);
    ImageKeys(src, overlay, t);
    forall f | f in s + t && f in src.files
      ensures Target(overlay, f) in m && m[Target(overlay, f)] == src.files[f]
    {
      if f in t {
        ImageAt(src, overlay, t, f);
      } else {
        ImageAt(src, overlay, s, f);
        if Target(overlay, f) in Image(src, overlay, t) { SharedTarget(src, overlay, t, f); }
      }
    }
    ImageIs(src, overlay, s + t, m);
  }

  lemma SharedTarget(src: Tree, overlay: bool, t: set<Path>, f: Path)
    requires NoCollision(src, overlay) && f in src.files && Target(overlay, f) in Targets(src, overlay, t)
    ensures f in t
  {
  }

  lemma TargetsAreNotDirs(src: Tree, overlay: bool, s: set<Path>)
    requires NoCollision(src, overlay)
    ensures Targets(src, overlay, s) !! src.dirs
  {
  }

  /** Copying some entries and then others is copying all of them. */
  lemma OverlaidTwice(src: Tree, overlay: bool, s: set<Path>, t: set<Path>, a: Tree)
    requires NoCollision(src, overlay)
    ensures Overlaid(src, overlay, t, Overlaid(src, overlay, s, a)) == Overlaid(src, overlay, s + t, a)
  {
    hide Targets, Image, NoCollision;
    ImageOfUnion(src, overlay, s, t);
    TargetsOfUnion(src, overlay, s, t);
    TargetsAreNotDirs(src, overlay, s);
    TargetsAreNotDirs(src, overlay, t);
    assert a.files + Image(src, overlay, s) + Image(src, overlay, t)
        == a.files + (Image(src, overlay, s) + Image(src, overlay, t));
  }

  lemma TouchedTwice(targets: set<Path>, dirs: set<Path>, a: Tree, b: Tree, c: Tree)
    requires Touched(targets, dirs, a, b) && Touched(targets, dirs, b, c)
    ensures Touched(targets, dirs, a, c)
  {
  }

  lemma OverlaidIsDisturbed(src: Tree, overlay: bool, s: set<Path>, a: Tree)
    requires NoCollision(src, overlay)
    ensures Disturbed(src, overlay, a, Overlaid(src, overlay, s, a))
  {
    var all := Entries(src);
    assert Targets(src, overlay, s) <= Targets(src, overlay, all);
  }

  /** A copy that succeeds after unfinished ones leaves what it would have left at the first try. */
  lemma CopyAfterFailures(src: Tree, overlay: bool, a: Tree, b: Tree)
    requires [] in src.dirs && Disturbed(src, overlay, a, b)
    ensures CopyOf(src, overlay, b) == CopyOf(src, overlay, a)
  {
    hide Image;
    var all := Entries(src);
    assert Image(src, overlay, all).Keys == Targets(src, overlay, all) by { ImageKeys(src, overlay, all); }
    OverridesAlike(Targets(src, overlay, all), a.files, b.files, Image(src, overlay, all));
  }

  lemma OverridesAlike(targets: set<Path>, a: map<Path, string>, b: map<Path, string>, m: map<Path, string>)
    requires b - targets == a - targets && m.Keys == targets
    ensures b + m == a + m
  {
    assert forall q | q !in targets :: q in a <==> q in a - targets;
    assert forall q | q !in targets :: q in b <==> q in b - targets;
    assert forall q | q !in targets && q in a :: a[q] == (a - targets)[q] == (b - targets)[q] == b[q];
  }

  /** Nothing that a copy creates or removes lies below one of its own targets. */
  lemma NothingBelowTargets(src: Tree, overlay: bool, f: Path, e: Path)
    requires Formed(src) && NoCollision(src, overlay)
    requires f in src.files && Target(overlay, f) < e
    ensures e !in src.dirs && e !in Targets(src, overlay, Entries(src))
  {
    var q := Target(overlay, f);
    assert e[..|q|] == q;
    if g :| g in src.files && Target(overlay, g) == e {
      assert g[..|q|] == e[..|q|];
    }
  }

  /** Whether entries fit does not change while others are being copied. */
  lemma FitsAlike(src: Tree, overlay: bool, some: set<Path>, a: Tree, b: Tree)
    requires Formed(src) && NoCollision(src, overlay) && Disturbed(src, overlay, a, b)
    ensures Fits(src, overlay, some, a) <==> Fits(src, overlay, some, b)
  {
    hide NoCollision, Formed;
    var all := Targets(src, overlay, Entries(src));
    TargetsAreNotDirs(src, overlay, Entries(src));
    forall d | d in src.dirs ensures d in a.files <==> d in b.files {
      assert d in a.files <==> d in a.files - all;
      assert d in b.files <==> d in b.files - all;
    }
    forall f | f in src.files ensures Bare(Target(overlay, f), a) <==> Bare(Target(overlay, f), b) {
      forall e | Target(overlay, f) < e ensures e in Entries(a) <==> e in Entries(b) {
        NothingBelowTargets(src, overlay, f, e);
        assert e in a.files <==> e in a.files - all;
        assert e in b.files <==> e in b.files - all;
      }
    }
  }

  // ---------------------------------------------------------------- plain copies

  lemma PlainTarget(f: Path)
    ensures Target(false, f) == f
  {
  }

  lemma PlainHasNoCollision(src: Tree)
    requires Formed(src)
    ensures NoCollision(src, false)
  {
    forall f ensures Target(false, f) == f { PlainTarget(f); }
  }

  lemma PlainCopy(src: Tree, a: Tree)
    requires Formed(src)
    ensures CopyOf(src, false, a) == Tree(a.files + src.files, a.dirs + src.dirs - src.files.Keys)
  {
    hide Image, NoCollision, Target;
    var all := Entries(src);
    PlainHasNoCollision(src);
    forall f | f in src.files ensures f in all && Target(false, f) == f { PlainTarget(f); }
    assert Targets(src, false, all) == src.files.Keys;
    ImageIs(src, false, all, src.files);
    assert all * src.dirs == src.dirs;
  }

  // ---------------------------------------------------------------- the merge

  /** `update_merge_overlay_install`: the backup over the install, then staging with its renamed leaves. */
  ghost function Merged(install: Tree, backup: Tree, staging: Tree): Tree {
    CopyOf(staging, true, CopyOf(backup, false, install))
  }

  /** What unfinished merges may have done to the install. */
  predicate MergeDisturbed(backup: Tree, staging: Tree, a: Tree, b: Tree) {
    Touched(Targets(backup, false, Entries(backup)) + Targets(staging, true, Entries(staging)),
            backup.dirs + staging.dirs + {[]}, a, b)
  }

  lemma TouchedMore(targets: set<Path>, dirs: set<Path>, targets': set<Path>, dirs': set<Path>, a: Tree, b: Tree)
    requires targets <= targets' && dirs <= dirs' && Touched(targets, dirs, a, b)
    ensures Touched(targets', dirs', a, b)
  {
    assert forall q | q in a.files - targets' :: q in a.files - targets;
    assert forall q | q in b.files - targets' :: q in b.files - targets;
  }

  /** The directories of a merge, whatever unfinished merges did. */
  lemma DirsAlike(bd: set<Path>, bt: set<Path>, sd: set<Path>, st: set<Path>, a: set<Path>, b: set<Path>)
    requires a - (bt + st) <= b <= a + (bd + sd + {[]}) && [] in bd
    ensures b + bd - bt + sd - st == a + bd - bt + sd - st
  {
  }

  /** One merge after unfinished merges gives the same install. */
  lemma MergeAfterFailure(backup: Tree, staging: Tree, a: Tree, b: Tree)
    requires [] in backup.dirs && MergeDisturbed(backup, staging, a, b)
    ensures Merged(b, backup, staging) == Merged(a, backup, staging)
  {
    hide Image, Targets, Entries;
    var bs, ss := Entries(backup), Entries(staging);
    var bt, st := Targets(backup, false, bs), Targets(staging, true, ss);
    var bm, sm := Image(backup, false, bs), Image(staging, true, ss);
    ImageKeys(backup, false, bs);
    ImageKeys(staging, true, ss);
    assert (bm + sm).Keys == bt + st;
    OverridesAlike(bt + st, a.files, b.files, bm + sm);
    assert a.files + bm + sm == a.files + (bm + sm) && b.files + bm + sm == b.files + (bm + sm);
    DirsAreEntries(backup);
    DirsAreEntries(staging);
    DirsAlike(backup.dirs, bt, staging.dirs, st, a.dirs, b.dirs);
  }

  lemma DirsAreEntries(t: Tree)
    ensures Entries(t) * t.dirs == t.dirs
  {
  }

  /** Any number of merges that failed part of the way, then one that succeeds. */
  lemma {:induction false} MergeAfterFailures(backup: Tree, staging: Tree, tries: seq<Tree>)
    requires [] in backup.dirs && |tries| > 0
    requires forall i | 0 <= i < |tries| - 1 :: MergeDisturbed(backup, staging, tries[i], tries[i + 1])
    ensures Merged(tries[|tries| - 1], backup, staging) == Merged(tries[0], backup, staging)
  {
    hide MergeDisturbed, Merged;
    var n := |tries| - 1;
    if n > 0 {
      var before := tries[..n];
      assert before[n - 1] == tries[n - 1] && before[0] == tries[0];
      MergeAfterFailures(backup, staging, before);
      MergeAfterFailure(backup, staging, tries[n - 1], tries[n]);
    }
  }

  predicate IsUpdater(p: Path) {
    p != [] && (LowerAll(p[|p| - 1]) == "updater" || LowerAll(p[|p| - 1]) == "updater.exe")
  }

  lemma LeafIsNotUpdater(name: string)
    ensures LowerAll(Leaf(true, name)) != "updater" && LowerAll(Leaf(true, name)) != "updater.exe"
  {
    var r, s := LowerAll("updater_new"), LowerAll("updater_new.exe");
    assert |r| == 11 && |s| == 15;
    assert |"updater"| == 7 && |"updater.exe"| == 11;
    assert r[7] == Lower('_') == '_' && "updater.exe"[7] == '.';
  }

  lemma MergedFiles(install: Tree, backup: Tree, staging: Tree)
    requires Formed(backup)
    ensures var all := Entries(staging);
      Merged(install, backup, staging).files == install.files + backup.files + Image(staging, true, all)
  {
    PlainCopy(backup, install);
  }

  /**
  After a merge every staged file is at its target; a file of the backup that staging does not
  supply is there as it was backed up; a file of the install that neither supplies is there still;
  and no updater's own program file has been replaced from staging.
  */
  lemma MergeKeeps(install: Tree, backup: Tree, staging: Tree, p: Path)
    requires Formed(backup) && Formed(staging) && NoCollision(staging, true)
    ensures var m := Merged(install, backup, staging).files;
            var supplied := Targets(staging, true, Entries(staging));
      && (p in staging.files ==> Target(true, p) in m && m[Target(true, p)] == staging.files[p])
      && (p in backup.files && p !in supplied ==> p in m && m[p] == backup.files[p])
      && (p in install.files && p !in supplied && p !in backup.files ==> p in m && m[p] == install.files[p])
      && (p in m ==> p in install.files || p in backup.files || p in supplied)
      && (IsUpdater(p) ==> p !in supplied)
  {
    var all := Entries(staging);
    MergedFiles(install, backup, staging);
    ImageKeys(staging, true, all);
    if p in staging.files { ImageAt(staging, true, all, p); }
    if IsUpdater(p) && p in Targets(staging, true, all) {
      var f :| f in staging.files && Target(true, f) == p;
      LeafIsNotUpdater(f[|f| - 1]);
    }
  }

  /** Where each staged file is after a merge, by its name. */
  lemma StagedNames(install: Tree, backup: Tree, staging: Tree, dir: Path, name: string)
    requires Formed(backup) && Formed(staging) && NoCollision(staging, true) && dir + [name] in staging.files
    ensures var m := Merged(install, backup, staging).files; var content := staging.files[dir + [name]];
            var place := dir + [if LowerAll(name) == "updater.exe" then "updater_new.exe"
                                else if LowerAll(name) == "updater" then "updater_new" else name];
      place in m && m[place] == content
  {
    hide Merged, NoCollision, Formed, Targets;
    var p := dir + [name];
    MergeKeeps(install, backup, staging, p);
    assert p[..|p| - 1] == dir;
  }
}
