/**
Names and paths by their segments: exactly which archive entries and which paths are accepted.
*/
module PathNames {
  import opened Ascii
  import opened Paths

  /** Segments without separators. */
  predicate Plain(segments: seq<string>) {
    forall s | s in segments :: s != "" && '/' !in s && '\\' !in s
  }

  function Join(segments: seq<string>): string {
    if segments == [] then ""
    else if |segments| == 1 then segments[0]
    else segments[0] + "/" + Join(segments[1..])
  }

  lemma PlainTail(segments: seq<string>)
    requires Plain(segments) && segments != []
    ensures Plain(segments[1..])
  {
    assert forall s | s in segments[1..] :: s in segments;
  }

  lemma {:induction false} SegmentsOfNames(segments: seq<string>)
    requires Plain(segments)
    ensures Segments(true, Join(segments)) == segments
  {
    hide Segments;
    if segments == [] {
      NoSegmentsAtAll(true);
    } else {
      var s := segments[0];
      assert s in segments;
      OneSegment(true, s);
      if |segments| == 1 {
        assert segments == [s];
      } else {
        PlainTail(segments);
        SegmentsOfNames(segments[1..]);
        SegmentsOfJoin(true, s, Join(segments[1..]));
        assert [s] + segments[1..] == segments;
      }
    }
  }

  predicate EndsInDots(s: string) { |s| >= 2 && s[|s| - 2] == '.' && s[|s| - 1] == '.' }

  lemma NoMatchInSegment(s: string, x: string, i: nat)
    requires '/' !in s && !EndsInDots(s) && i <= |s|
    ensures !MatchesAt(s + "/" + x, i, "../")
  {
    var t := s + "/" + x;
    assert i + 3 <= |t| ==> t[i..i + 3] == [t[i], t[i + 1], t[i + 2]];
    assert i + 2 < |s| ==> t[i + 2] == s[i + 2] && s[i + 2] in s;
  }

  /** `../` occurs where a segment that is not the last ends in two dots. */
  lemma {:induction false} UpwardsExactly(segments: seq<string>)
    requires Plain(segments)
    ensures Holds(Join(segments), "../") <==> exists i | 0 <= i < |segments| - 1 :: EndsInDots(segments[i])
  {
    hide FirstMatch, EndsInDots, MatchesAt;
    if |segments| <= 1 {
      NoThirdChar(Join(segments), "../") by { assert |segments| == 1 ==> segments[0] in segments; }
    } else {
      var s, x := segments[0], Join(segments[1..]);
      assert s in segments;
      PlainTail(segments);
      UpwardsExactly(segments[1..]);
      assert forall i | 0 <= i < |segments| - 2 :: segments[1..][i] == segments[i + 1];
      if EndsInDots(s) {
        DotsMatch(s, x);
      } else {
        var front := s + "/";
        forall i | 0 <= i < |front| ensures !MatchesAt(front + x, i, "../") { NoMatchInSegment(s, x, i); }
        SkipQuiet(front, x, "../");
        assert forall i | 1 <= i < |segments| - 1 :: segments[1..][i - 1] == segments[i];
      }
    }
  }

  lemma DotsMatch(s: string, x: string)
    requires EndsInDots(s)
    ensures Holds(s + "/" + x, "../")
  {
    hide FirstMatch;
    var t, i := s + "/" + x, |s| - 2;
    assert t[i..i + 3] == "../";
    assert MatchesAt(t, i, "../");
  }

  lemma NoThirdChar(s: string, part: string)
    requires |part| == 3 && part[2] !in s
    ensures FirstMatch(s, part) == |s|
  {
    hide FirstMatch;
    forall i | 0 <= i < |s| ensures !MatchesAt(s, i, part) {
      assert i + 3 <= |s| ==> s[i..i + 3][2] == s[i + 2] && s[i + 2] in s;
    }
  }

  lemma {:induction false} NoBackslash(segments: seq<string>)
    requires Plain(segments)
    ensures '\\' !in Join(segments) && !Holds(Join(segments), "..\\")
  {
    hide FirstMatch;
    if segments != [] {
      assert segments[0] in segments;
      PlainTail(segments);
      if |segments| > 1 { NoBackslash(segments[1..]); }
    }
    NoThirdChar(Join(segments), "..\\");
  }

  /**
  Exactly the accepted entry names: some segments, none of them `.` or `..`, and none but the last
  ending in two dots.
  */
  lemma SafeNameExactly(segments: seq<string>)
    requires Plain(segments)
    ensures SafeName(Join(segments)) <==>
            && segments != [] && (forall s | s in segments :: s != "." && s != "..")
            && forall i | 0 <= i < |segments| - 1 :: !EndsInDots(segments[i])
  {
    hide Segments, FirstMatch, EndsInDots, Holds;
    SegmentsOfNames(segments);
    UpwardsExactly(segments);
    NoBackslash(segments);
    if segments != [] {
      var s := segments[0];
      assert s in segments && s[0] in s;
      assert Join(segments)[0] == s[0];
    }
  }

  /**
  Exactly the valid absolute paths of this form: shorter than 4096, without control characters, no
  segment `.` or `..`.
  */
  lemma ValidPathExactly(segments: seq<string>, absolute: bool)
    requires Plain(segments)
    ensures ValidPath("/" + Join(segments), absolute) <==>
            && |Join(segments)| <= 4094 && (forall c | c in Join(segments) :: c as int >= 32)
            && forall s | s in segments :: s != "." && s != ".."
  {
    hide Segments;
    var p := "/" + Join(segments);
    SegmentsOfNames(segments);
    SegmentStep(true, p);
    assert p[1..] == Join(segments);
    assert forall i | 1 <= i < |p| :: p[i] == Join(segments)[i - 1] && p[i] in Join(segments);
    assert forall c | c in Join(segments) :: c in p;
    assert forall c | c in p :: exists i | 0 <= i < |p| :: p[i] == c;
  }

  /** Names that begin with a separator, and relative paths where absolute ones are asked for, are refused. */
  lemma RootedAndRelative(name: string, path: string)
    ensures !SafeName("/" + name) && !SafeName("\\" + name)
    ensures path == "" || path[0] != '/' ==> !ValidPath(path, true)
  {
  }
}
