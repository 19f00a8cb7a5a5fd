/**
Copying a directory tree over another, with its retries, and the merge of backup and staging into
an install directory.  Every file-system call may fail or stop part of the way.
*/
module Overlay {
  import opened Ascii
  import opened TreeImage

  const RETRIES := 8
  const PATH_MAX := 4096
  const BLOCK := 65536

  // ---------------------------------------------------------------- path lengths

  /** The length of a joined path. */
  function TextLen(root: string, p: Path): nat {
    if p == [] then |root| else TextLen(root, p[..|p| - 1]) + 1 + |p[|p| - 1]|
  }

  predicate Reaches(root: string, p: Path) { TextLen(root, p) < PATH_MAX }

  lemma {:induction false} ShorterReaches(root: string, p: Path, i: nat)
    requires i <= |p| && Reaches(root, p)
    ensures Reaches(root, p[..i])
  {
    if i < |p| {
      assert p[..|p| - 1][..i] == p[..i];
      ShorterReaches(root, p[..|p| - 1], i);
    } else {
      assert p[..i] == p;
    }
  }

  /** The names that `some` entries need on both sides are within the limit. */
  predicate Short(from: string, to: string, src: Tree, overlay: bool, some: set<Path>) {
    && (forall e | e in Entries(src) && e in some :: Reaches(from, e))
    && (forall d | d in src.dirs && d in some :: Reaches(to, d))
    && (forall f | f in src.files && f in some :: Reaches(to, Target(overlay, f)))
  }

  // ---------------------------------------------------------------- the destination

  function Prefixes(p: Path): set<Path> { set i | 0 <= i <= |p| :: p[..i] }

  predicate HasParent(q: Path, a: Tree) { q == [] || q[..|q| - 1] in a.dirs }

  lemma DirAdded(a: Tree, p: Path)
    requires Formed(a) && HasParent(p, a) && p !in a.files
    ensures Formed(a.(dirs := a.dirs + {p}))
  {
    PrefixesOfParent(a, p);
  }

  lemma FileAdded(a: Tree, q: Path, content: string)
    requires Formed(a) && HasParent(q, a) && q !in a.dirs
    ensures Formed(a.(files := a.files[q := content]))
  {
    PrefixesOfParent(a, q);
  }

  lemma PrefixesOfParent(a: Tree, p: Path)
    requires Formed(a) && HasParent(p, a)
    ensures forall i | 0 <= i < |p| :: p[..i] in a.dirs
  {
    forall i | 0 <= i < |p| ensures p[..i] in a.dirs {
      var parent := p[..|p| - 1];
      assert parent in Entries(a) && parent[..i] == p[..i];
    }
  }

  lemma EntryRemoved(a: Tree, q: Path)
    requires Formed(a) && Bare(q, a)
    ensures Formed(Tree(a.files - {q}, a.dirs - {q}))
  {
    var b := Tree(a.files - {q}, a.dirs - {q});
    forall e, i | e in Entries(b) && 0 <= i < |e| ensures e[..i] in b.dirs {
      assert e in Entries(a) && e[..i] in a.dirs && e[..i] < e;
    }
  }

  lemma PrefixTaken(q: Path, e: Path)
    requires |q| <= |e|
    ensures q <= e <==> e[..|q|] == q
  {
  }

  lemma FileIsBare(a: Tree, q: Path)
    requires Formed(a) && q !in a.dirs
    ensures Bare(q, a)
  {
    forall e | e in Entries(a) && |q| < |e| ensures !(q < e) {
      assert e[..|q|] in a.dirs;
      PrefixTaken(q, e);
    }
  }

  /** What lies below an entry is not affected when only the entry itself is touched. */
  lemma TouchedBare(a: Tree, b: Tree, q: Path)
    requires Touched({q}, {}, a, b)
    ensures Bare(q, a) == Bare(q, b) && HasParent(q, a) == HasParent(q, b)
  {
    forall e | e != q ensures e in Entries(a) <==> e in Entries(b) {
      assert e in a.files <==> e in a.files - {q};
      assert e in b.files <==> e in b.files - {q};
    }
  }

  lemma FilesButOne(a: Tree, b: Tree, q: Path, content: string)
    requires Touched({q}, {}, a, b) && q !in b.dirs
    ensures b.files[q := content] == a.files[q := content] && b.dirs == a.dirs - {q}
  {
    forall e | e != q ensures e in a.files <==> e in b.files
                      ensures e in a.files ==> a.files[e] == b.files[e] {
      assert e in a.files <==> e in a.files - {q};
      assert e in b.files <==> e in b.files - {q};
      assert e in a.files ==> (a.files - {q})[e] == (b.files - {q})[e];
    }
  }

  /**
  The file system below one root.  Which calls fail, and what a failing copy leaves, is open, except
  that on a reliable one every call that can be done is done.
  */
  class FileSystem {
    const root: string
    const reliable: bool
    var tree: Tree

    ghost predicate Valid()
      reads this
    {
      Formed(tree)
    }

    constructor (root: string, tree: Tree, reliable: bool)
      requires Formed(tree)
      ensures Valid() && this.root == root && this.tree == tree && this.reliable == reliable
    {
      this.root := root;
      this.tree := tree;
      this.reliable := reliable;
    }

    /** `mkdir_one_posix`: a directory that is there already is fine. */
    method MakeOne(p: Path) returns (ok: bool)
      requires Valid() && HasParent(p, tree)
      modifies this
      ensures Valid() && tree.files == old(tree.files)
      ensures tree.dirs == if ok then old(tree.dirs) + {p} else old(tree.dirs)
      ensures ok ==> p !in tree.files
      ensures reliable ==> ok == (p !in tree.files)
    {
      ok := *;
      if p in tree.dirs {
        ok := true;
      } else if p in tree.files {
        ok := false;
      } else if ok || reliable {
        DirAdded(tree, p);
        tree := tree.(dirs := tree.dirs + {p});
        ok := true;
      }
    }

    /** `platform_fs_create_directory_recursive` */
    method MakeDir(p: Path) returns (ok: bool)
      requires Valid()
      modifies this
      ensures Valid() && tree.files == old(tree.files)
      ensures old(tree.dirs) <= tree.dirs <= old(tree.dirs) + Prefixes(p)
      ensures ok ==> old(tree.dirs) + Prefixes(p) == tree.dirs && tree.files.Keys !! Prefixes(p) && Reaches(root, p)
      ensures reliable ==> ok == (Reaches(root, p) && tree.files.Keys !! Prefixes(p))
    {
      if !Reaches(root, p) { return false; }
      for i := 0 to |p| + 1
        invariant Valid() && tree.files == old(tree.files)
        invariant tree.dirs == old(tree.dirs) + set j | 0 <= j < i :: p[..j]
        invariant forall j | 0 <= j < i :: p[..j] !in tree.files
      {
        assert i > 0 ==> p[..i][..i - 1] == p[..i - 1];
        ok := MakeOne(p[..i]);
        if !ok { return; }
      }
      ok := true;
    }

    /** `remove`: a file, or a directory with nothing in it. */
    method Remove(q: Path)
      requires Valid()
      modifies this
      ensures Valid() && Touched({q}, {}, old(tree), tree)
      ensures q in old(tree.dirs) && !Bare(q, old(tree)) ==> tree == old(tree)
      ensures reliable && Bare(q, old(tree)) ==> q !in tree.dirs
    {
      var done := *;
      if (done || reliable) && Bare(q, tree) {
        EntryRemoved(tree, q);
        tree := Tree(tree.files - {q}, tree.dirs - {q});
      }
    }

    /** `copy_file_once`: opening truncates the file, then it is written block by block. */
    method CopyFileOnce(content: string, q: Path) returns (ok: bool)
      requires Valid()
      modifies this
      ensures Valid() && Touched({q}, {}, old(tree), tree)
      ensures ok ==> tree == Tree(old(tree.files)[q := content], old(tree.dirs))
      ensures ok ==> HasParent(q, tree) && q !in tree.dirs
      ensures reliable && HasParent(q, old(tree)) && q !in old(tree.dirs) ==> ok
      ensures q in old(tree.dirs) ==> tree == old(tree)
    {
      var found := *;
      if !(found || reliable) || !HasParent(q, tree) || q in tree.dirs { return false; }
      FileAdded(tree, q, "");
      tree := tree.(files := tree.files[q := ""]);
      var i := 0;
      while i < |content|
        invariant i <= |content| && Valid()
        invariant tree == Tree(old(tree.files)[q := content[..i]], old(tree.dirs))
      {
        var n := if |content| - i < BLOCK then |content| - i else BLOCK;
        var written := *;
        if !(written || reliable) {
          Remove(q);
          return false;
        }
        FileAdded(tree, q, tree.files[q] + content[i..i + n]);
        assert content[..i] + content[i..i + n] == content[..i + n];
        tree := tree.(files := tree.files[q := tree.files[q] + content[i..i + n]]);
        i := i + n;
      }
      assert content[..i] == content;
      ok := *;
      ok := ok || reliable;
      if !ok {
        Remove(q);
      }
    }

    /** `copy_file_retries` */
    method CopyFileRetries(content: string, q: Path) returns (ok: bool)
      requires Valid()
      modifies this
      ensures Valid() && Touched({q}, {}, old(tree), tree)
      ensures ok ==> tree == Tree(old(tree.files)[q := content], old(tree.dirs) - {q}) && Bare(q, old(tree))
      ensures reliable && HasParent(q, old(tree)) && Bare(q, old(tree)) ==> ok
    {
      for a := 0 to RETRIES
        invariant Valid() && Touched({q}, {}, old(tree), tree)
        invariant reliable && HasParent(q, old(tree)) && Bare(q, old(tree)) ==> a <= 1 && (a == 1 ==> q !in tree.dirs)
      {
        ghost var before := tree;
        ok := CopyFileOnce(content, q);
        if ok {
          FileIsBare(before, q);
          TouchedBare(old(tree), before, q);
          FilesButOne(old(tree), before, q, content);
          return;
        }
        TouchedBare(old(tree), tree, q);
        Remove(q);
      }
      ok := false;
    }
  }

  // ---------------------------------------------------------------- the progress of a copy

  /** The entries that copying the subtree at `p` takes care of: it, those below, those it lies in. */
  function Reach(src: Tree, p: Path): set<Path> { set q | q in Entries(src) && (q <= p || p <= q) }

  /** The same without the children still to do. */
  function Done(src: Tree, p: Path, left: set<string>): set<Path> {
    set q | q in Entries(src) && (q <= p || (p < q && q[|p|] !in left))
  }

  function Children(src: Tree, p: Path): set<string> { set q | q in Entries(src) && p < q :: q[|p|] }

  function Below(src: Tree, p: Path): set<Path> { set q | q in Entries(src) && p < q }

  /** Some entries can be copied. */
  predicate Ready(from: string, to: string, src: Tree, overlay: bool, some: set<Path>, a: Tree) {
    Fits(src, overlay, some, a) && Short(from, to, src, overlay, some)
  }

  /** Some entries could be copied, and have been. */
  ghost predicate Copied(from: string, to: string, src: Tree, overlay: bool, some: set<Path>, a: Tree, b: Tree) {
    Ready(from, to, src, overlay, some, a) && b == Overlaid(src, overlay, some, a)
  }

  lemma ReadyParts(from: string, to: string, src: Tree, overlay: bool, s: set<Path>, t: set<Path>, a: Tree)
    ensures Ready(from, to, src, overlay, s + t, a)
       <==> Ready(from, to, src, overlay, s, a) && Ready(from, to, src, overlay, t, a)
  {
  }

  lemma ReadyAlike(from: string, to: string, src: Tree, overlay: bool, some: set<Path>, a: Tree, b: Tree)
    requires Formed(src) && NoCollision(src, overlay) && Disturbed(src, overlay, a, b)
    ensures Ready(from, to, src, overlay, some, a) <==> Ready(from, to, src, overlay, some, b)
  {
    FitsAlike(src, overlay, some, a, b);
  }

  lemma CopiedTwice(from: string, to: string, src: Tree, overlay: bool, s: set<Path>, t: set<Path>,
                    a: Tree, b: Tree, c: Tree)
    requires Formed(src) && NoCollision(src, overlay)
    requires Copied(from, to, src, overlay, s, a, b) && Copied(from, to, src, overlay, t, b, c)
    ensures Copied(from, to, src, overlay, s + t, a, c)
  {
    hide Ready, Overlaid, NoCollision, Formed;
    OverlaidTwice(src, overlay, s, t, a);
    OverlaidIsDisturbed(src, overlay, s, a);
    ReadyAlike(from, to, src, overlay, t, a, b);
    ReadyParts(from, to, src, overlay, s, t, a);
  }

  lemma DoneAtFirst(src: Tree, p: Path)
    requires Formed(src) && p in src.dirs
    ensures Done(src, p, Children(src, p)) == Prefixes(p) <= src.dirs
  {
    assert p[..|p|] == p;
    forall i | 0 <= i <= |p| ensures p[..i] in src.dirs {
      assert p in Entries(src);
    }
    forall q | q in Entries(src) && q <= p ensures q in Prefixes(p) {
      assert q == p[..|q|];
    }
  }

  lemma DoneAtLast(src: Tree, p: Path)
    ensures Done(src, p, {}) == Reach(src, p)
  {
  }

  lemma ChildIsEntry(src: Tree, p: Path, name: string)
    requires Formed(src) && name in Children(src, p)
    ensures p + [name] in Entries(src)
  {
    var q :| q in Entries(src) && p < q && q[|p|] == name;
    assert q[..|p| + 1] == p + [name];
    assert |p| + 1 < |q| ==> q[..|p| + 1] in src.dirs;
    assert |p| + 1 == |q| ==> q[..|p| + 1] == q;
  }

  lemma DoneNext(src: Tree, p: Path, left: set<string>, name: string)
    requires name in left && p + [name] in Entries(src)
    ensures Done(src, p, left - {name}) == Done(src, p, left) + Reach(src, p + [name])
  {
    var c := p + [name];
    forall q | q in Entries(src) ensures p < q && q[|p|] == name <==> c <= q {
      if p < q { assert q[..|p| + 1] == p + [q[|p|]]; }
      if c <= q { assert q[..|p| + 1] == c; }
    }
    forall q | q in Entries(src) && q <= c ensures q <= p || q == c {
      PrefixOfChild(p, name, q);
    }
  }

  lemma PrefixOfChild(p: Path, name: string, q: Path)
    requires q <= p + [name]
    ensures q <= p || q == p + [name]
  {
    var c := p + [name];
    assert q == c[..|q|];
    if |q| <= |p| { assert c[..|q|] == p[..|q|]; }
  }

  lemma DoneNextFile(src: Tree, p: Path, left: set<string>, name: string)
    requires Formed(src) && name in left && p + [name] in src.files
    ensures Done(src, p, left - {name}) == Done(src, p, left) + {p + [name]}
  {
    var c := p + [name];
    DoneNext(src, p, left, name);
    forall q | q in Entries(src) && |c| < |q| ensures !(c < q) {
      assert q[..|c|] in src.dirs;
      PrefixTaken(c, q);
    }
    forall q | q in Reach(src, c) ensures q in Done(src, p, left) || q == c {
      if q <= c { PrefixOfChild(p, name, q); }
    }
    assert c in Reach(src, c);
  }

  /** Making a directory and those it lies in. */
  lemma PrefixesCopied(from: string, to: string, src: Tree, overlay: bool, p: Path, a: Tree, b: Tree)
    requires Formed(src) && p in src.dirs && Reaches(from, p) && Reaches(to, p)
    requires a.files.Keys !! Prefixes(p) && b == a.(dirs := a.dirs + Prefixes(p))
    ensures Copied(from, to, src, overlay, Prefixes(p), a, b)
  {
    DoneAtFirst(src, p);
    forall d | d in Prefixes(p) ensures Reaches(from, d) && Reaches(to, d) {
      var i :| 0 <= i <= |p| && d == p[..i];
      ShorterReaches(from, p, i);
      ShorterReaches(to, p, i);
    }
    assert Targets(src, overlay, Prefixes(p)) == {};
    assert a.files + Image(src, overlay, Prefixes(p)) == a.files;
  }

  lemma FileCopied(from: string, to: string, src: Tree, overlay: bool, f: Path, a: Tree, b: Tree)
    requires Formed(src) && NoCollision(src, overlay) && f in src.files
    requires Reaches(from, f) && Reaches(to, Target(overlay, f)) && Bare(Target(overlay, f), a)
    requires b == Tree(a.files[Target(overlay, f) := src.files[f]], a.dirs - {Target(overlay, f)})
    ensures Copied(from, to, src, overlay, {f}, a, b)
  {
    hide Target, Image, NoCollision, Reaches, Bare;
    var q := Target(overlay, f);
    assert Targets(src, overlay, {f}) == {q};
    ImageIs(src, overlay, {f}, map[q := src.files[f]]);
    assert {f} * src.dirs == {};
    assert a.files + map[q := src.files[f]] == a.files[q := src.files[f]];
  }

  // ---------------------------------------------------------------- copying

  /** `str_ieq_ascii` */
  method SameText(a: string, b: string) returns (same: bool)
    ensures same == (LowerAll(a) == LowerAll(b))
  {
    var i := 0;
    while i < |a| && i < |b|
      invariant i <= |a| && i <= |b| && forall j | 0 <= j < i :: Lower(a[j]) == Lower(b[j])
    {
      if Lower(a[i]) != Lower(b[i]) {
        assert LowerAll(a)[i] != LowerAll(b)[i];
        return false;
      }
      i := i + 1;
    }
    same := i == |a| && i == |b|;
    assert same ==> LowerAll(a) == LowerAll(b);
  }

  /** `stage_overlay_dst_leaf` */
  method DestinationLeaf(overlay: bool, name: string) returns (leaf: string)
    ensures leaf == Leaf(overlay, name)
  {
    var e, u := "updater.exe", "updater";
    assert LowerAll(e) == e && LowerAll(u) == u;
    if !overlay { return name; }
    var same := SameText(name, e);
    if same { return "updater_new.exe"; }
    same := SameText(name, u);
    leaf := if same then "updater_new" else name;
  }

  lemma DirTouched(src: Tree, overlay: bool, p: Path, a: Tree, b: Tree)
    requires Formed(src) && (p in src.dirs || p == [])
    requires b.files == a.files && a.dirs <= b.dirs <= a.dirs + Prefixes(p)
    ensures Disturbed(src, overlay, a, b)
  {
    if p in src.dirs { DoneAtFirst(src, p); }
  }

  lemma FileTouched(src: Tree, overlay: bool, f: Path, a: Tree, b: Tree)
    requires f in src.files && Touched({Target(overlay, f)}, {}, a, b)
    ensures Disturbed(src, overlay, a, b)
  {
    assert Target(overlay, f) in Targets(src, overlay, Entries(src));
    TouchedMore({Target(overlay, f)}, {}, Targets(src, overlay, Entries(src)), src.dirs + {[]}, a, b);
  }

  lemma DisturbedTwice(src: Tree, overlay: bool, a: Tree, b: Tree, c: Tree)
    requires Disturbed(src, overlay, a, b) && Disturbed(src, overlay, b, c)
    ensures Disturbed(src, overlay, a, c)
  {
    TouchedTwice(Targets(src, overlay, Entries(src)), src.dirs + {[]}, a, b, c);
  }

  /** What can be copied to begin with can be copied part by part. */
  lemma PartReady(from: string, to: string, src: Tree, overlay: bool, part: set<Path>, whole: set<Path>,
                  a: Tree, b: Tree)
    requires Formed(src) && NoCollision(src, overlay) && Disturbed(src, overlay, a, b)
    requires part <= whole && Ready(from, to, src, overlay, whole, a)
    ensures Ready(from, to, src, overlay, part, b)
  {
    ReadyParts(from, to, src, overlay, part, whole, a);
    assert part + whole == whole;
    ReadyAlike(from, to, src, overlay, part, a, b);
  }

  lemma ParentIsThere(src: Tree, overlay: bool, some: set<Path>, p: Path, a: Tree)
    requires NoCollision(src, overlay) && p in some && p in src.dirs
    ensures p in Overlaid(src, overlay, some, a).dirs
  {
    TargetsAreNotDirs(src, overlay, some);
  }

  lemma BelowChild(src: Tree, p: Path, name: string)
    requires p + [name] in Entries(src)
    ensures |Below(src, p + [name])| < |Below(src, p)|
  {
    var c := p + [name];
    forall q | q in Below(src, c) ensures q in Below(src, p) {
      assert q[..|p|] == c[..|p|] == p;
    }
    assert c in Below(src, p) && c !in Below(src, c);
    StrictSubset(Below(src, c), Below(src, p));
  }

  lemma StrictSubset(s: set<Path>, t: set<Path>)
    requires s < t
    ensures |s| < |t|
  {
    assert t == s + (t - s) && s !! (t - s);
    assert t - s != {};
  }

  lemma ReadyAtFirst(from: string, to: string, src: Tree, overlay: bool, p: Path, a: Tree)
    requires Formed(src) && p in src.dirs && Ready(from, to, src, overlay, Reach(src, p), a)
    ensures Reaches(from, p) && Reaches(to, p) && a.files.Keys !! Prefixes(p)
  {
    DoneAtFirst(src, p);
    assert p in Reach(src, p);
    forall d | d in Prefixes(p) ensures d !in a.files {
      var i :| 0 <= i <= |p| && d == p[..i];
      assert d in Reach(src, p);
    }
  }

  /** If the subtree at `p` can be copied, the child is ready in its turn. */
  lemma ChildReady(from: string, to: string, src: Tree, overlay: bool, p: Path, name: string, a: Tree, b: Tree)
    requires Formed(src) && NoCollision(src, overlay) && Disturbed(src, overlay, a, b) && p + [name] in Entries(src)
    requires Ready(from, to, src, overlay, Reach(src, p), a)
    ensures var c := p + [name];
      && Ready(from, to, src, overlay, Reach(src, c), b) && Reaches(from, c)
      && (c in src.dirs ==> Reaches(to, c))
      && (c in src.files ==> Reaches(to, Target(overlay, c)) && Bare(Target(overlay, c), b))
  {
    hide NoCollision, Formed, Disturbed, Reaches, Bare, Target;
    var c := p + [name];
    forall q | q in Reach(src, c) ensures q in Reach(src, p) {
      if q <= c { PrefixOfChild(p, name, q); } else { assert q[..|p|] == c[..|p|] == p; }
    }
    PartReady(from, to, src, overlay, Reach(src, c), Reach(src, p), a, b);
    assert c in Reach(src, c);
  }

  /** One turn of the loop of `copy_tree_posix`, for a name that was listed. */
  method CopyChild(dst: FileSystem, src: Tree, from: string, overlay: bool, p: Path, name: string,
                   ghost left: set<string>, ghost a: Tree)
    returns (ok: bool)
    requires Formed(src) && dst.Valid() && p in src.dirs && name in left && p + [name] in Entries(src)
    requires Disturbed(src, overlay, a, dst.tree)
    requires NoCollision(src, overlay) ==>
               Copied(from, dst.root, src, overlay, Done(src, p, left), a, dst.tree)
    modifies dst
    ensures dst.Valid() && Disturbed(src, overlay, a, dst.tree)
    ensures ok && NoCollision(src, overlay) ==>
              Copied(from, dst.root, src, overlay, Done(src, p, left - {name}), a, dst.tree)
    ensures dst.reliable && NoCollision(src, overlay) ==>
              Ready(from, dst.root, src, overlay, Reach(src, p), a) ==> ok
    decreases |Below(src, p)|, 0
  {
    hide Formed, NoCollision, Ready, Disturbed, Overlaid, Reaches, Reach, Done, Children, Below, Bare;
    var c := p + [name];
    ghost var b := dst.tree;
    if NoCollision(src, overlay) {
      SelfIsDone(src, p, left);
      ParentIsThere(src, overlay, Done(src, p, left), p, a);
      if Ready(from, dst.root, src, overlay, Reach(src, p), a) {
        ChildReady(from, dst.root, src, overlay, p, name, a, b);
      }
    }
    if !Reaches(from, c) { return false; }
    if c in src.dirs {
      if !Reaches(dst.root, c) { return false; }
      BelowChild(src, p, name);
      ok := CopyTree(dst, src, from, overlay, c);
      DisturbedTwice(src, overlay, a, b, dst.tree);
      DoneNext(src, p, left, name);
      if ok && NoCollision(src, overlay) {
        CopiedTwice(from, dst.root, src, overlay, Done(src, p, left), Reach(src, c), a, b, dst.tree);
      }
    } else {
      var leaf := DestinationLeaf(overlay, name);
      var target := p + [leaf];
      assert c in src.files && Target(overlay, c) == target;
      if !Reaches(dst.root, target) { return false; }
      ok := dst.CopyFileRetries(src.files[c], target);
      FileTouched(src, overlay, c, b, dst.tree);
      DisturbedTwice(src, overlay, a, b, dst.tree);
      DoneNextFile(src, p, left, name);
      if ok && NoCollision(src, overlay) {
        FileCopied(from, dst.root, src, overlay, c, b, dst.tree);
        CopiedTwice(from, dst.root, src, overlay, Done(src, p, left), {c}, a, b, dst.tree);
      }
    }
  }

  lemma SelfIsDone(src: Tree, p: Path, left: set<string>)
    requires p in src.dirs
    ensures p in Done(src, p, left)
  {
  }

  /** `copy_tree_posix`, for the subtree at `p`; the order of `readdir` is open. */
  method CopyTree(dst: FileSystem, src: Tree, from: string, overlay: bool, p: Path) returns (ok: bool)
    requires Formed(src) && dst.Valid() && (p in src.dirs || p == [])
    modifies dst
    ensures dst.Valid() && Disturbed(src, overlay, old(dst.tree), dst.tree)
    ensures ok ==> p in src.dirs
    ensures ok && NoCollision(src, overlay) ==>
              Copied(from, dst.root, src, overlay, Reach(src, p), old(dst.tree), dst.tree)
    ensures dst.reliable && NoCollision(src, overlay) && p in src.dirs ==>
              Ready(from, dst.root, src, overlay, Reach(src, p), old(dst.tree)) ==> ok
    decreases |Below(src, p)|, 1
  {
    hide Formed, NoCollision, Ready, Disturbed, Overlaid, Reaches, Prefixes, Reach, Done, Children, Below;
    ghost var a := dst.tree;
    ok := dst.MakeDir(p);
    DirTouched(src, overlay, p, a, dst.tree);
    if p in src.dirs && Ready(from, dst.root, src, overlay, Reach(src, p), a) {
      ReadyAtFirst(from, dst.root, src, overlay, p, a);
    }
    if !ok { return; }
    var readable := *;
    if p !in src.dirs || !Reaches(from, p) || !(readable || dst.reliable) { return false; }
    var left := Children(src, p);
    DoneAtFirst(src, p);
    PrefixesCopied(from, dst.root, src, overlay, p, a, dst.tree);
    while left != {}
      invariant dst.Valid() && Disturbed(src, overlay, a, dst.tree) && left <= Children(src, p)
      invariant NoCollision(src, overlay) ==>
                  Copied(from, dst.root, src, overlay, Done(src, p, left), a, dst.tree)
      decreases left
    {
      var listed := *;
      if !(listed || dst.reliable) { return false; }
      var name :| name in left;
      ChildIsEntry(src, p, name);
      ok := CopyChild(dst, src, from, overlay, p, name, left, a);
      if !ok { return; }
      left := left - {name};
    }
    DoneAtLast(src, p);
    ok := true;
  }

  lemma AllReached(src: Tree)
    ensures Reach(src, []) == Entries(src)
  {
  }

  /** The loop of `update_copy_tree` and `update_copy_tree_stage_overlay`. */
  method CopyTreeRetries(dst: FileSystem, src: Tree, from: string, overlay: bool) returns (ok: bool)
    requires Formed(src) && dst.Valid()
    modifies dst
    ensures dst.Valid() && Disturbed(src, overlay, old(dst.tree), dst.tree)
    ensures ok && NoCollision(src, overlay) ==> dst.tree == CopyOf(src, overlay, old(dst.tree))
    ensures ok ==> from != "" && dst.root != "" && [] in src.dirs
    ensures ok && NoCollision(src, overlay) ==> Ready(from, dst.root, src, overlay, Entries(src), old(dst.tree))
    ensures dst.reliable && NoCollision(src, overlay) && from != "" && dst.root != "" && [] in src.dirs ==>
              Ready(from, dst.root, src, overlay, Entries(src), old(dst.tree)) ==> ok
  {
    hide Formed, NoCollision, Ready, Disturbed, Overlaid;
    ghost var a := dst.tree;
    AllReached(src);
    NotDisturbed(src, overlay, a);
    if from == "" || dst.root == "" { return false; }
    for t := 0 to RETRIES
      invariant dst.Valid() && Disturbed(src, overlay, a, dst.tree)
      invariant dst.reliable && NoCollision(src, overlay) && [] in src.dirs && t > 0 ==>
                  !Ready(from, dst.root, src, overlay, Entries(src), a)
    {
      ghost var b := dst.tree;
      ok := CopyTree(dst, src, from, overlay, []);
      if NoCollision(src, overlay) { ReadyAlike(from, dst.root, src, overlay, Entries(src), a, b); }
      DisturbedTwice(src, overlay, a, b, dst.tree);
      if ok {
        CopyAfterFailures(src, overlay, a, b);
        return;
      }
    }
    ok := false;
  }

  lemma NotDisturbed(src: Tree, overlay: bool, a: Tree)
    ensures Disturbed(src, overlay, a, a)
  {
  }

  /** `update_recreate_install_from_backup`, which is `update_copy_tree` into a directory made first. */
  method RecreateInstall(install: FileSystem, backup: Tree, from: string) returns (ok: bool)
    requires Formed(backup) && install.Valid()
    modifies install
    ensures install.Valid() && Disturbed(backup, false, old(install.tree), install.tree)
    ensures ok ==> [] in backup.dirs && install.tree == CopyOf(backup, false, old(install.tree))
    ensures ok ==> Ready(from, install.root, backup, false, Entries(backup), old(install.tree))
    ensures install.reliable && from != "" && install.root != "" && [] in backup.dirs ==>
              Ready(from, install.root, backup, false, Entries(backup), old(install.tree)) ==> ok
  {
    hide Formed, NoCollision, Ready, Disturbed, Overlaid;
    ghost var a := install.tree;
    NotDisturbed(backup, false, a);
    PlainHasNoCollision(backup);
    if from == "" || install.root == "" { return false; }
    AllReached(backup);
    if [] in backup.dirs && Ready(from, install.root, backup, false, Entries(backup), a) {
      ReadyAtFirst(from, install.root, backup, false, [], a);
    }
    ok := install.MakeDir([]);
    ghost var b := install.tree;
    DirTouched(backup, false, [], a, b);
    if !ok { return; }
    ReadyAlike(from, install.root, backup, false, Entries(backup), a, b);
    ok := CopyTreeRetries(install, backup, from, false);
    DisturbedTwice(backup, false, a, b, install.tree);
    if ok { CopyAfterFailures(backup, false, a, b); }
  }

  lemma MergePartTouched(src: Tree, overlay: bool, backup: Tree, staging: Tree, a: Tree, b: Tree)
    requires Disturbed(src, overlay, a, b)
    requires (src == backup && !overlay) || (src == staging && overlay)
    ensures MergeDisturbed(backup, staging, a, b)
  {
    hide Targets, Entries;
    TouchedMore(Targets(src, overlay, Entries(src)), src.dirs + {[]},
                Targets(backup, false, Entries(backup)) + Targets(staging, true, Entries(staging)),
                backup.dirs + staging.dirs + {[]}, a, b);
  }

  /**
  `update_merge_overlay_install`.  On success the install is the merge of the three trees; on
  failure it is such that a later success still gives that merge (`MergeAfterFailures`).
  */
  method MergeInstall(install: FileSystem, backup: Tree, backupRoot: string, staging: Tree, stagingRoot: string)
    returns (ok: bool)
    requires Formed(backup) && Formed(staging) && install.Valid()
    modifies install
    ensures install.Valid() && MergeDisturbed(backup, staging, old(install.tree), install.tree)
    ensures ok && NoCollision(staging, true) ==> install.tree == Merged(old(install.tree), backup, staging)
    ensures install.reliable && NoCollision(staging, true) ==>
              (ok <==> Mergeable(install.root, backup, backupRoot, staging, stagingRoot, old(install.tree)))
  {
    hide Formed, NoCollision, Ready, Disturbed, Overlaid, MergeDisturbed;
    ghost var a := install.tree;
    NotDisturbed(backup, false, a);
    MergePartTouched(backup, false, backup, staging, a, a);
    if install.root == "" || backupRoot == "" || stagingRoot == "" { return false; }
    ok := RecreateInstall(install, backup, backupRoot);
    ghost var b := install.tree;
    MergePartTouched(backup, false, backup, staging, a, b);
    if !ok { return; }
    ok := CopyTreeRetries(install, staging, stagingRoot, true);
    MergePartTouched(staging, true, backup, staging, b, install.tree);
    MergeTouchedTwice(backup, staging, a, b, install.tree);
  }

  lemma MergeTouchedTwice(backup: Tree, staging: Tree, a: Tree, b: Tree, c: Tree)
    requires MergeDisturbed(backup, staging, a, b) && MergeDisturbed(backup, staging, b, c)
    ensures MergeDisturbed(backup, staging, a, c)
  {
    TouchedTwice(Targets(backup, false, Entries(backup)) + Targets(staging, true, Entries(staging)),
                 backup.dirs + staging.dirs + {[]}, a, b, c);
  }

  /** Both sources exist, all names are short enough, and types do not conflict, copy by copy. */
  ghost predicate Mergeable(root: string, backup: Tree, backupRoot: string, staging: Tree, stagingRoot: string,
                            a: Tree)
  {
    && root != "" && backupRoot != "" && stagingRoot != ""
    && [] in backup.dirs && Ready(backupRoot, root, backup, false, Entries(backup), a)
    && [] in staging.dirs && Ready(stagingRoot, root, staging, true, Entries(staging), CopyOf(backup, false, a))
  }
}
