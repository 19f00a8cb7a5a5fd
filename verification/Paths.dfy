/**
Path validation, archive entry names, and why an extracted entry stays under its destination.
The POSIX branches of the source; paths are C strings, so they hold no NUL.
*/
module Paths {
  import opened Ascii

  const PATH_MAX := 4096

  // ---------------------------------------------------------------- segments

  predicate IsSlash(c: char) { c == '/' }

  /** Both separators, as the checks of this library split. */
  predicate IsSep(c: char) { c == '/' || c == '\\' }

  predicate NotSlash(c: char) { c != '/' }

  predicate NotSep(c: char) { c != '/' && c != '\\' }

  /** How a system splits paths: whether the backslash is a separator too. */
  function SegmentLen(backslash: bool, p: string): (n: nat)
    ensures n <= |p|
  {
    if backslash then Span(NotSep, p) else Span(NotSlash, p)
  }

  predicate Separates(backslash: bool, c: char) { if backslash then IsSep(c) else IsSlash(c) }

  /** The non-empty segments of a path. */
  function Segments(backslash: bool, p: string): (r: seq<string>)
    ensures forall s | s in r :: s != ""
    decreases |p|
  {
    if p == "" then []
    else if Separates(backslash, p[0]) then Segments(backslash, p[1..])
    else
      var n := SegmentLen(backslash, p);
      [p[..n]] + Segments(backslash, p[n..])
  }

  predicate IsDots(s: string) { s == "." || s == ".." }

  predicate NoDots(segments: seq<string>) { forall s | s in segments :: !IsDots(s) }

  /** Walking the segments from `at`: `.` stays, `..` goes up, anything else goes down. */
  function Resolve(at: seq<string>, segments: seq<string>): seq<string>
    decreases |segments|
  {
    if segments == [] then at
    else
      var s := segments[0];
      Resolve(
        if s == "." then at
        else if s == ".." then (if at == [] then [] else at[..|at| - 1])
        else at + [s],
        segments[1..])
  }

  // ---------------------------------------------------------------- validation

  /** What `update_validate_path` demands. */
  predicate ValidPath(path: string, absolute: bool) {
    && 0 < |path| < PATH_MAX
    && (forall i | 0 <= i < |path| :: path[i] >= ' ')
    && NoDots(Segments(true, path))
    && (absolute ==> path[0] == '/')
  }

  function StagingOf(install: string): string { install + ".update_staging" }

  function BackupOf(install: string): string { install + ".update_backup" }

  function StatePathOf(install: string): string { install + ".update_state.json" }

  /** What `update_validate_install_paths` demands. */
  predicate ValidInstall(zip: string, install: string, staging: string, backup: string, state: string) {
    && ValidPath(zip, false) && ValidPath(install, true)
    && staging == StagingOf(install) && backup == BackupOf(install) && state == StatePathOf(install)
    && ValidPath(staging, true) && ValidPath(backup, true) && ValidPath(state, true)
  }

  /** `path_has_bad_chars` */
  method HasBadChars(path: string) returns (bad: bool)
    ensures bad == exists i | 0 <= i < |path| :: path[i] < ' '
  {
    for i := 0 to |path|
      invariant forall j | 0 <= j < i :: path[j] >= ' '
    {
      if path[i] < ' ' { return true; }
    }
    bad := false;
  }

  lemma SegmentStep(backslash: bool, p: string)
    requires p != ""
    ensures Separates(backslash, p[0]) ==> Segments(backslash, p) == Segments(backslash, p[1..])
    ensures !Separates(backslash, p[0]) ==>
              var n := SegmentLen(backslash, p);
              n > 0 && Segments(backslash, p) == [p[..n]] + Segments(backslash, p[n..])
  {
  }

  /** The loops of both checks that pass over separators. */
  method SkipSeparators(path: string, from: nat) returns (p: nat)
    requires from <= |path|
    ensures from <= p <= |path| && (p < |path| ==> !IsSep(path[p]))
    ensures from < |path| && IsSep(path[from]) ==> p > from
    ensures Segments(true, path[from..]) == Segments(true, path[p..])
  {
    p := from;
    while p < |path| && IsSep(path[p])
      invariant from <= p <= |path| && Segments(true, path[from..]) == Segments(true, path[p..])
      invariant from < |path| && IsSep(path[from]) && p == from ==> p < |path| && IsSep(path[p])
    {
      assert path[p..][0] == path[p] && path[p..][1..] == path[p + 1..];
      p := p + 1;
    }
  }

  /** The loop over one segment. */
  method SegmentEnd(path: string, from: nat) returns (p: nat)
    requires from <= |path|
    ensures p == from + SegmentLen(true, path[from..]) <= |path|
  {
    p := from;
    while p < |path| && path[p] != '/' && path[p] != '\\'
      invariant from <= p <= |path|
      invariant from + Span(NotSep, path[from..]) == p + Span(NotSep, path[p..])
    {
      assert path[p..][0] == path[p] && path[p..][1..] == path[p + 1..];
      p := p + 1;
    }
  }

  /** `path_rejects_dot_segments` */
  method RejectsDotSegments(path: string) returns (bad: bool)
    ensures bad == !NoDots(Segments(true, path))
  {
    hide Segments, NoDots, SegmentLen;
    assert path[0..] == path;
    var p := SkipSeparators(path, 0);
    while p < |path|
      invariant p <= |path| && (p < |path| ==> !IsSep(path[p]))
      invariant NoDots(Segments(true, path)) <==> NoDots(Segments(true, path[p..]))
      decreases |path| - p
    {
      var start := p;
      ghost var rest := path[start..];
      SegmentStep(true, rest);
      p := SegmentEnd(path, start);
      var segment := path[start..p];
      assert segment == rest[..p - start] && rest[p - start..] == path[p..];
      HeadDots(segment, Segments(true, path[p..]));
      if segment == "." || segment == ".." { return true; }
      p := SkipSeparators(path, p);
    }
    NoSegments(path[p..]);
    bad := false;
  }

  lemma NoSegments(p: string)
    requires p == ""
    ensures NoDots(Segments(true, p))
  {
  }

  lemma HeadDots(s: string, rest: seq<string>)
    ensures NoDots([s] + rest) <==> !IsDots(s) && NoDots(rest)
  {
    var all := [s] + rest;
    if NoDots(all) {
      forall t | t in rest ensures !IsDots(t) { assert t in all; }
      assert s in all;
    }
  }

  /** `update_validate_path` */
  method ValidatePath(path: string, absolute: bool) returns (ok: bool)
    ensures ok == ValidPath(path, absolute)
  {
    if path == "" || |path| >= PATH_MAX { return false; }
    var bad := HasBadChars(path);
    if bad { return false; }
    bad := RejectsDotSegments(path);
    if bad { return false; }
    ok := !(absolute && path[0] != '/');
  }

  /** `update_validate_install_paths` */
  method ValidateInstallPaths(zip: string, install: string, staging: string, backup: string, state: string)
    returns (ok: bool)
    ensures ok == ValidInstall(zip, install, staging, backup, state)
  {
    ok := ValidatePath(zip, false);
    if !ok { return; }
    ok := ValidatePath(install, true);
    if !ok { return; }
    if |StagingOf(install)| >= PATH_MAX || |BackupOf(install)| >= PATH_MAX || |StatePathOf(install)| >= PATH_MAX {
      return false;
    }
    if staging != StagingOf(install) || backup != BackupOf(install) || state != StatePathOf(install) { return false; }
    ok := ValidatePath(staging, true);
    if !ok { return; }
    ok := ValidatePath(backup, true);
    if !ok { return; }
    ok := ValidatePath(state, true);
  }

  // ---------------------------------------------------------------- archive entries

  predicate Holds(s: string, part: string) { FirstMatch(s, part) < |s| }

  /** What `zip_entry_name_safe` demands. */
  predicate SafeName(name: string) {
    && name != "" && !IsSep(name[0])
    && !Holds(name, "../") && !Holds(name, "..\\")
    && NoDots(Segments(true, name))
  }

  /** `zip_entry_name_safe` */
  method EntryNameSafe(name: string) returns (ok: bool)
    ensures ok == SafeName(name)
  {
    hide FirstMatch, Segments, NoDots, SegmentLen;
    if name == "" || name[0] == '/' || name[0] == '\\' { return false; }
    var up := Search(name, "../");
    if up < |name| { return false; }
    up := Search(name, "..\\");
    if up < |name| { return false; }
    var p := 0;
    assert name[0..] == name;
    while p < |name|
      invariant p <= |name| && (p < |name| ==> !IsSep(name[p]))
      invariant NoDots(Segments(true, name)) <==> NoDots(Segments(true, name[p..]))
      decreases |name| - p
    {
      var start := p;
      ghost var rest := name[start..];
      SegmentStep(true, rest);
      p := SegmentEnd(name, start);
      var segment := name[start..p];
      assert segment == rest[..p - start] && rest[p - start..] == name[p..];
      HeadDots(segment, Segments(true, name[p..]));
      if |segment| == 0 { return false; }
      if segment == ".." || segment == "." { return false; }
      p := SkipSeparators(name, p);
    }
    NoSegments(name[p..]);
    ok := true;
  }

  function Joined(dest: string, entry: string): string { dest + "/" + entry }

  /** `strip_trailing_seps_len` */
  function Stripped(s: string): (n: nat)
    ensures n <= |s|
    ensures n < |s| ==> IsSep(s[n])
  {
    if s != "" && IsSep(s[|s| - 1]) then Stripped(s[..|s| - 1]) else |s|
  }

  predicate UnderPrefix(dest: string, joined: string) {
    var n := Stripped(dest);
    n + 1 <= |joined| && dest[..n] == joined[..n] && IsSep(joined[n])
  }

  /** `path_under_dest_prefix` */
  method PathUnderDestPrefix(dest: string, joined: string) returns (ok: bool)
    ensures ok == UnderPrefix(dest, joined)
  {
    var n := |dest|;
    assert dest[..n] == dest;
    while n > 0 && (dest[n - 1] == '/' || dest[n - 1] == '\\')
      invariant n <= |dest| && Stripped(dest) == Stripped(dest[..n])
    {
      assert dest[..n][..n - 1] == dest[..n - 1];
      n := n - 1;
    }
    if |joined| < n + 1 { return false; }
    if dest[..n] != joined[..n] { return false; }
    ok := joined[n] == '/' || joined[n] == '\\';
  }

  // ---------------------------------------------------------------- confinement

  lemma NoSegmentsAtAll(backslash: bool)
    ensures Segments(backslash, "") == []
  {
  }

  lemma SegmentLenOfJoin(backslash: bool, a: string, b: string)
    ensures SegmentLen(backslash, a + "/" + b) == SegmentLen(backslash, a)
  {
    var p, n := a + "/" + b, SegmentLen(backslash, a);
    if backslash { SpanIs(NotSep, p, n); } else { SpanIs(NotSlash, p, n); }
  }

  /** A slash always splits. */
  lemma {:induction false} SegmentsOfJoin(backslash: bool, a: string, b: string)
    ensures Segments(backslash, a + "/" + b) == Segments(backslash, a) + Segments(backslash, b)
    decreases |a|
  {
    hide Segments, SegmentLen;
    var p := a + "/" + b;
    SegmentStep(backslash, p);
    if a == "" {
      assert p[1..] == b;
      NoSegmentsAtAll(backslash);
    } else if Separates(backslash, a[0]) {
      SegmentStep(backslash, a);
      assert p[1..] == a[1..] + "/" + b;
      SegmentsOfJoin(backslash, a[1..], b);
    } else {
      SegmentStep(backslash, a);
      var n := SegmentLen(backslash, a);
      SegmentLenOfJoin(backslash, a, b);
      assert p[..n] == a[..n] && p[n..] == a[n..] + "/" + b;
      SegmentsOfJoin(backslash, a[n..], b);
    }
  }

  lemma DotsAreSeen(p: string)
    requires p != "" && p[0] != '/'
    ensures IsDots(p[..Span(NotSlash, p)]) ==> !NoDots(Segments(true, p))
  {
    var n := Span(NotSlash, p);
    var head := p[..n];
    if IsDots(head) {
      assert forall i | 0 <= i < n :: p[i] == head[i];
      SpanIs(NotSep, p, n);
      SegmentStep(true, p);
      HeadDots(head, Segments(true, p[n..]));
    }
  }

  /** Segments without backslashes are segments under both readings. */
  lemma {:induction false} SlashSegmentsHaveNoDots(p: string)
    requires NoDots(Segments(true, p))
    ensures NoDots(Segments(false, p))
    decreases |p|
  {
    if p != "" {
      SegmentStep(true, p);
      SegmentStep(false, p);
      if p[0] == '/' {
        SlashSegmentsHaveNoDots(p[1..]);
      } else {
        var n := Span(NotSlash, p);
        var head, tail := p[..n], p[n..];
        SuffixHasNoDots(p, n);
        SlashSegmentsHaveNoDots(tail);
        HeadDots(head, Segments(false, tail));
        DotsAreSeen(p);
      }
    }
  }

  lemma {:induction false} SuffixHasNoDots(p: string, n: nat)
    requires n <= |p| && NoDots(Segments(true, p)) && (n < |p| ==> p[n] == '/')
    ensures NoDots(Segments(true, p[n..]))
  {
    if n == |p| {
      assert p[n..] == "";
    } else {
      assert p == p[..n] + "/" + p[n + 1..];
      SegmentsOfJoin(true, p[..n], p[n + 1..]);
      assert forall s | s in Segments(true, p[n + 1..]) :: s in Segments(true, p);
      assert p[n..][1..] == p[n + 1..];
    }
  }

  lemma {:induction false} ResolveGoesDown(at: seq<string>, segments: seq<string>)
    requires NoDots(segments)
    ensures Resolve(at, segments) == at + segments
    decreases |segments|
  {
    if segments == [] {
      assert at + segments == at;
    } else {
      HeadDots(segments[0], segments[1..]);
      assert [segments[0]] + segments[1..] == segments;
      ResolveGoesDown(at + [segments[0]], segments[1..]);
      assert at + [segments[0]] + segments[1..] == at + segments;
    }
  }

  lemma SafeNameHasSegment(backslash: bool, name: string)
    requires name != "" && !IsSep(name[0])
    ensures Segments(backslash, name) != []
  {
    SegmentStep(backslash, name);
  }

  /**
  Confinement: whatever entry name is accepted, the joined path leads to the destination and at
  least one segment further down, never up, whether or not backslashes separate; and the prefix
  check behind the join never refuses.
  */
  lemma EntriesStayBelow(dest: string, name: string, backslash: bool)
    requires ValidPath(dest, true) && SafeName(name)
    ensures var below := Segments(backslash, name);
      && below != [] && NoDots(below)
      && Resolve([], Segments(backslash, dest)) == Segments(backslash, dest)
      && Resolve([], Segments(backslash, Joined(dest, name))) == Segments(backslash, dest) + below
    ensures UnderPrefix(dest, Joined(dest, name))
  {
    SegmentsOfJoin(backslash, dest, name);
    SafeNameHasSegment(backslash, name);
    if !backslash {
      SlashSegmentsHaveNoDots(dest);
      SlashSegmentsHaveNoDots(name);
    }
    var a, b := Segments(backslash, dest), Segments(backslash, name);
    assert NoDots(a + b);
    ResolveGoesDown([], a);
    ResolveGoesDown([], a + b);
    assert [] + a == a && [] + (a + b) == a + b;
    JoinedUnderPrefix(dest, name);
  }

  lemma JoinedUnderPrefix(dest: string, name: string)
    ensures UnderPrefix(dest, Joined(dest, name))
  {
    var n := Stripped(dest);
    assert Joined(dest, name)[..n] == dest[..n];
    assert n < |dest| ==> Joined(dest, name)[n] == dest[n];
  }

  // ---------------------------------------------------------------- where the derived paths lie

  predicate EndsInSlash(p: string) { p != "" && p[|p| - 1] == '/' }

  /** A directory of the path `p` holds `q`, at any depth. */
  predicate LiesBelow(q: string, p: string) { Segments(false, p) < Segments(false, q) }

  /** Neither path is, or holds, the other. */
  predicate LieApart(p: string, q: string) {
    !(Segments(false, p) <= Segments(false, q)) && !(Segments(false, q) <= Segments(false, p))
  }

  lemma OneSegment(backslash: bool, s: string)
    requires s != "" && forall c | c in s :: !Separates(backslash, c)
    ensures Segments(backslash, s) == [s]
  {
    hide Segments;
    SegmentStep(backslash, s);
    assert forall i | 0 <= i < |s| :: s[i] in s && !Separates(backslash, s[i]);
    if backslash { SpanIs(NotSep, s, |s|); } else { SpanIs(NotSlash, s, |s|); }
    assert s[..|s|] == s && s[|s|..] == "";
    NoSegmentsAtAll(backslash);
  }

  /** The last segment of a path that does not end in a slash. */
  lemma {:induction false} LastSlash(p: string) returns (a: string, b: string)
    requires '/' in p
    ensures p == a + "/" + b && '/' !in b
  {
    if p[|p| - 1] == '/' {
      a, b := p[..|p| - 1], "";
    } else {
      a, b := LastSlash(p[..|p| - 1]);
      b := b + [p[|p| - 1]];
    }
  }

  lemma SuffixBehindSlash(a: string, suffix: string)
    requires suffix != "" && '/' !in suffix
    ensures Segments(false, a + "/" + suffix) == Segments(false, a + "/") + [suffix]
  {
    hide Segments;
    SegmentsOfJoin(false, a, suffix);
    SegmentsOfJoin(false, a, "");
    NoSegmentsAtAll(false);
    OneSegment(false, suffix);
    assert a + "/" + "" == a + "/" && Segments(false, a) + [] == Segments(false, a);
  }

  lemma SuffixOfSegment(a: string, b: string, suffix: string)
    requires b != "" && '/' !in b && '/' !in suffix
    ensures Segments(false, a + "/" + b) == Segments(false, a) + [b]
    ensures Segments(false, a + "/" + (b + suffix)) == Segments(false, a) + [b + suffix]
  {
    hide Segments;
    SegmentsOfJoin(false, a, b);
    SegmentsOfJoin(false, a, b + suffix);
    OneSegment(false, b);
    OneSegment(false, b + suffix);
  }

  /** A suffix becomes a segment of its own behind a slash; elsewhere it makes the last segment longer. */
  lemma SuffixSegments(p: string, suffix: string)
    requires p != "" && p[0] == '/' && suffix != "" && '/' !in suffix
    ensures var s, t := Segments(false, p), Segments(false, p + suffix);
      if EndsInSlash(p) then t == s + [suffix]
      else s != [] && t == s[..|s| - 1] + [s[|s| - 1] + suffix]
  {
    hide Segments;
    var a, b := LastSlash(p);
    if b == "" {
      assert p == a + "/" && p + suffix == a + "/" + suffix;
      SuffixBehindSlash(a, suffix);
    } else {
      assert p + suffix == a + "/" + (b + suffix) && p[|p| - 1] == b[|b| - 1];
      SuffixOfSegment(a, b, suffix);
      assert (Segments(false, a) + [b])[..|Segments(false, a)|] == Segments(false, a);
    }
  }

  /**
  For validated arguments staging and backup lie below the install if and only if the install is
  spelled with a slash at its end; otherwise the three lie apart.
  */
  lemma NestedExactly(zip: string, install: string)
    requires ValidInstall(zip, install, StagingOf(install), BackupOf(install), StatePathOf(install))
    ensures LiesBelow(StagingOf(install), install) <==> EndsInSlash(install)
    ensures LiesBelow(BackupOf(install), install) <==> EndsInSlash(install)
    ensures LieApart(install, StagingOf(install)) && LieApart(install, BackupOf(install)) <==> !EndsInSlash(install)
    ensures LieApart(StagingOf(install), BackupOf(install))
  {
    hide Segments, NoDots;
    SuffixSegments(install, ".update_staging");
    SuffixSegments(install, ".update_backup");
    var s := Segments(false, install);
    var t, b := Segments(false, StagingOf(install)), Segments(false, BackupOf(install));
    if EndsInSlash(install) {
      assert s == t[..|s|] && s == b[..|s|] && t[|s|] != b[|s|];
    } else {
      var n := |s| - 1;
      assert |t| == |b| == |s| && |t[n]| == |s[n]| + 15 && |b[n]| == |s[n]| + 14;
    }
  }

  /** A validated path leads to where its segments say. */
  lemma LeadsToItsSegments(path: string, absolute: bool)
    requires ValidPath(path, absolute)
    ensures Resolve([], Segments(false, path)) == Segments(false, path)
  {
    SlashSegmentsHaveNoDots(path);
    ResolveGoesDown([], Segments(false, path));
    assert [] + Segments(false, path) == Segments(false, path);
  }
}
