/**
When the search for a link target comes back: every other part of the scan moves forward on every
input, but a turn of `parse_anchor_href` can rest on a character it never passes.
*/
module HtmlTermination {
  import opened Ascii
  import opened HtmlScan
  import opened HtmlTree
  import opened HtmlSpec

  /** The first `k` turns of the loop, stopping early when it ends. */
  function Turns(k: nat, s: HrefScan): HrefScan {
    if k == 0 || s.Finished? then s else Turns(k - 1, HrefTurn(s.rest, s.href))
  }

  /** After white space the scan rests on a character that starts nothing. */
  predicate Blocks(t: string) {
    var v := SkipBlank(t);
    && v != []
    && !IsAttrNameChar(v[0]) && v[0] != '=' && v[0] != '>'
    && !(v[0] == '/' && |v| >= 2 && v[1] == '>')
  }

  lemma BlockedTurn(t: string, href: string)
    requires Blocks(t)
    ensures HrefTurn(t, href) == Scanning(SkipBlank(t), href) && Blocks(SkipBlank(t))
  {
    hide ValueTurn;
    var v := SkipBlank(t);
    SkipBlankTwice(t);
    SpanIs(IsAttrNameChar, v, 0);
    assert v[0..] == v;
  }

  lemma FreeTurn(t: string, href: string)
    requires !Blocks(t)
    ensures var s := HrefTurn(t, href); s.Scanning? ==> |s.rest| < |t|
  {
    hide ValueTurn;
    var v := SkipBlank(t);
    if v != [] && v[0] == '=' {
      SpanIs(IsAttrNameChar, v, 0);
      assert v[0..] == v;
      SpanIs(IsSpace, v, 0);
    }
  }

  /** Once blocked, blocked for ever. */
  lemma {:induction false} BlockedForever(k: nat, t: string, href: string)
    requires Blocks(t)
    ensures Turns(k, Scanning(t, href)).Scanning? && Blocks(Turns(k, Scanning(t, href)).rest)
  {
    hide Blocks, HrefTurn;
    if k > 0 {
      BlockedTurn(t, href);
      BlockedForever(k - 1, SkipBlank(t), href);
    }
  }

  lemma {:induction false} BlockedLoop(t: string, href: string)
    requires Blocks(t)
    ensures HrefLoop(t, href) == None
    decreases |t|
  {
    hide Blocks, HrefTurn;
    BlockedTurn(t, href);
    if Blank(t) > 0 { BlockedLoop(SkipBlank(t), href); }
  }

  lemma {:induction false} TurnsAdd(j: nat, k: nat, s: HrefScan)
    ensures Turns(j + k, s) == Turns(k, Turns(j, s))
  {
    hide HrefTurn;
    if j > 0 && s.Scanning? { TurnsAdd(j - 1, k, HrefTurn(s.rest, s.href)); }
  }

  /** The loop either ends after some number of turns, or reaches a blocked rest. */
  lemma {:induction false} LoopOutcome(t: string, href: string) returns (k: nat)
    ensures var s := Turns(k, Scanning(t, href));
      if s.Finished? then HrefLoop(t, href) == Some(s.href)
      else Blocks(s.rest) && HrefLoop(t, href) == None
    decreases |t|
  {
    hide Blocks, HrefTurn;
    if Blocks(t) {
      BlockedLoop(t, href);
      k := 0;
    } else {
      FreeTurn(t, href);
      var s := HrefTurn(t, href);
      if s.Scanning? {
        k := LoopOutcome(s.rest, s.href);
        k := k + 1;
      } else {
        k := 1;
      }
    }
  }

  lemma {:induction false} FinishedStays(k: nat, s: HrefScan)
    requires s.Finished?
    ensures Turns(k, s) == s
  {
  }

  /**
  The search ends if and only if no rest it passes through is blocked, and then `FindHref` is its
  result; otherwise it never ends, and `FindHref` is `None`.
  */
  lemma HrefTermination(inner: string)
    ensures var s := Scanning(SkipBlank(inner), "");
      && (FindHref(inner).Some? <==> exists k: nat :: Turns(k, s).Finished?)
      && (FindHref(inner).Some? <==> forall k: nat :: Turns(k, s).Scanning? ==> !Blocks(Turns(k, s).rest))
      && forall k: nat :: Turns(k, s).Finished? ==> FindHref(inner) == Some(Turns(k, s).href)
  {
    hide Blocks, HrefTurn, HrefLoop, Turns;
    var s := Scanning(SkipBlank(inner), "");
    var k := LoopOutcome(s.rest, s.href);
    var e := Turns(k, s);
    if e.Finished? {
      forall j: nat
        ensures Turns(j, s).Scanning? ==> !Blocks(Turns(j, s).rest)
        ensures Turns(j, s).Finished? ==> Turns(j, s) == e
      {
        TurnsAdd(j, k, s);
        TurnsAdd(k, j, s);
        FinishedStays(j, e);
        var d := Turns(j, s);
        if d.Scanning? && Blocks(d.rest) { BlockedForever(k, d.rest, d.href); }
        if d.Finished? { FinishedStays(k, d); }
      }
    } else {
      forall j: nat ensures Turns(j, s).Scanning? {
        TurnsAdd(j, k, s);
        TurnsAdd(k, j, s);
        BlockedForever(j, e.rest, e.href);
        if Turns(j, s).Finished? { FinishedStays(k, Turns(j, s)); }
      }
    }
  }

  // ---------------------------------------------------------------- which inputs hang

  /** At `k` the scan meets a link, has room for it, and never comes back from the search for its target. */
  predicate StuckAt(t: string, k: nat, o: Open)
    requires k < |t|
  {
    var at, tok := ScanTo(t, k, o), NextToken(t[k..]).0;
    at.Some? && Depth(at.value) < MAX_DEPTH && tok.Start? && tok.tid == A && FindHref(tok.inner).None?
  }

  lemma StuckToken(o: Open, tok: Token)
    ensures Apply(o, tok).Stuck? <==>
            Depth(o) < MAX_DEPTH && tok.Start? && tok.tid == A && FindHref(tok.inner).None?
    ensures Apply(o, tok).Stuck? ==> Apply(o, tok) == Stuck(o)
  {
    hide FindHref;
  }

  lemma {:induction false} StuckSomewhere(t: string, o: Open) returns (k: nat)
    requires Sanitize(t, o).Stuck?
    ensures k < |t| && StuckAt(t, k, o) && Sanitize(t, o) == Stuck(ScanTo(t, k, o).value)
    decreases |t|
  {
    hide NextToken, Apply, FindHref, PrintOpen;
    var (tok, n) := NextToken(t);
    StuckToken(o, tok);
    if Apply(o, tok).Stuck? {
      k := 0;
      assert t[0..] == t;
    } else {
      k := StuckSomewhere(t[n..], Apply(o, tok).open);
      k := n + k;
      assert t[n..][k - n..] == t[k..];
    }
  }

  /**
  Exactly the inputs that make the sanitizer hang: within its limits, the scan reaches a link while
  fewer than 64 tags are open and the output so far fits, and the search for the target never ends.
  */
  lemma HangsExactly(input: string, max: nat)
    ensures SanitizeOutcome(input, max) == Hangs <==>
            && max > 0 && |input| <= MAX_IN
            && exists k | 0 <= k < |input| ::
                 StuckAt(input, k, Top(Nil)) && Fits(PrintOpen(ScanTo(input, k, Top(Nil)).value), max)
  {
    hide Sanitize, ScanTo, NextToken, Apply, FindHref, PrintOpen;
    if Sanitize(input, Top(Nil)).Stuck? {
      var k := StuckSomewhere(input, Top(Nil));
    }
    forall k | 0 <= k < |input| && StuckAt(input, k, Top(Nil))
      ensures Sanitize(input, Top(Nil)) == Stuck(ScanTo(input, k, Top(Nil)).value)
    {
      var o := ScanTo(input, k, Top(Nil)).value;
      ScanSplits(input, k, Top(Nil));
      StuckToken(o, NextToken(input[k..]).0);
      StuckAtOnce(input[k..], o);
    }
  }

  lemma SlashToken()
    ensures NextToken("<a /x>").0 == Start(A, " /x>")
  {
    hide Span, TagLen;
    var t := "<a /x>";
    assert t[1..] == "a /x>" && t[1..][0..] == t[1..];
    SpanIs(IsSpace, t[1..], 0);
    SpanIs(IsTagNameChar, "a /x>", 1);
    assert ("a /x>")[..1] == "a" && LowerAll("a") == "a" && !IsDangerous("a");
    TagLenPasses(t, 5);
    assert t[5..] == ">";
    assert TagLen(">", Unquoted) == 1 by { OneBracket(); }
    assert t[2..6] == " /x>";
  }

  lemma OneBracket()
    ensures TagLen(">", Unquoted) == 1
  {
  }

  /** An input that does. */
  lemma SlashHangs(max: nat)
    requires max > 0
    ensures SanitizeOutcome("<a /x>", max) == Hangs
  {
    hide NextToken, Sanitize, Span, HrefLoop, PrintOpen;
    var t, inner := "<a /x>", " /x>";
    SlashToken();
    SpanIs(IsSpace, inner, 1);
    assert SkipBlank(inner) == "/x>";
    SpanIs(IsSpace, "/x>", 0);
    assert ("/x>")[0..] == "/x>";
    BlockedLoop("/x>", "");
    StuckAtOnce(t, Top(Nil));
    assert PrintOpen(Top(Nil)) == "" by { NothingPrinted(); }
  }

  lemma NothingPrinted()
    ensures PrintOpen(Top(Nil)) == ""
  {
  }
}
