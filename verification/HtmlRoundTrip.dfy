/**
What the sanitizer keeps: allowed markup is read back exactly, escaping once more is the only
effect of sanitizing twice, and dangerous elements leave no trace.
*/
module HtmlRoundTrip {
  import opened Ascii
  import opened HtmlScan
  import opened HtmlTree
  import opened HtmlSpec
  import opened HtmlGrammar

  // ---------------------------------------------------------------- parse after print

  function RawOpenTag(tag: Tag): string {
    if tag.tid == A then "<a href=\"" + tag.href + "\">" else OpenTag(tag)
  }

  /** A tree as an author would write it: nothing escaped. */
  function RawNode(n: Node): string {
    match n
    case Text(c) => [c]
    case LineBreak => "<br>"
    case Element(tag, kids) => RawOpenTag(tag) + Raw(kids) + CloseTag(tag)
  }

  function Raw(f: Forest): string {
    match f
    case Nil => ""
    case Snoc(front, last) => Raw(front) + RawNode(last)
  }

  /** No text character opens a tag, no target ends its own quotes. */
  predicate Writable(f: Forest) {
    match f
    case Nil => true
    case Snoc(front, last) =>
      && Writable(front)
      && match last
         case Text(c) => c != '<'
         case LineBreak => true
         case Element(tag, kids) => '"' !in tag.href && Writable(kids)
  }

  function AppendAll(o: Open, f: Forest): (r: Open)
    ensures PrintOpen(r) == PrintOpen(o) + Print(f)
    ensures Depth(r) == Depth(o)
  {
    match f
    case Nil => o
    case Snoc(front, last) =>
      var x, y, z := PrintOpen(o), Print(front), PrintNode(last);
      assert x + (y + z) == x + y + z;
      Append(AppendAll(o, front), last)
  }

  lemma {:induction false} AppendInside(up: Open, tag: Tag, done: Forest, f: Forest)
    requires done == Nil
    ensures AppendAll(Inside(up, tag, done), f) == Inside(up, tag, f)
  {
    match f
    case Nil =>
    case Snoc(front, last) => AppendInside(up, tag, done, front);
  }

  lemma {:induction false} AppendTop(f: Forest)
    ensures AppendAll(Top(Nil), f) == Top(f)
  {
    match f
    case Nil =>
    case Snoc(front, last) => AppendTop(front);
  }

  /** `TagName(tid)>` as the sanitizer meets it after `<` or `</`. */
  lemma MeetsName(tid: Tid, rest: string)
    requires rest != [] && !IsTagNameChar(rest[0])
    ensures var u := TagName(tid) + rest;
      && Blank(u) == 0 && Span(IsTagNameChar, u) == |TagName(tid)|
      && Classify(TagName(tid)) == Some(tid) && !IsDangerous(TagName(tid))
  {
    var name := TagName(tid);
    var u := name + rest;
    assert u[0] == name[0];
    SpanIs(IsTagNameChar, u, |name|);
    assert LowerAll(name) == name;
  }

  lemma MeetsPlainTag(tid: Tid, rest: string)
    requires tid != A
    ensures var s := "<" + TagName(tid) + ">" + rest; var n := |TagName(tid)| + 2;
      && TagLen(s, Unquoted) == n && s[n..] == rest
      && NextToken(s).1 == n
      && if tid == BR then NextToken(s).0 == Break else NextToken(s).0.Start? && NextToken(s).0.tid == tid
  {
    var name := TagName(tid);
    var s := "<" + name + ">" + rest;
    assert s[1..] == name + (">" + rest);
    MeetsName(tid, ">" + rest);
    assert s[1..][..|name|] == name && s[1] == name[0] && s[|name| + 1] == '>';
    assert forall i | 1 <= i <= |name| :: s[i] == name[i - 1];
    TagLenPasses(s, |name| + 1);
  }

  lemma MeetsCloseTag(tag: Tag, rest: string)
    requires tag.tid != BR
    ensures NextToken(CloseTag(tag) + rest) == (End(tag.tid), |CloseTag(tag)|)
  {
    var name := TagName(tag.tid);
    var s := CloseTag(tag) + rest;
    assert s[2..] == name + (">" + rest);
    MeetsName(tag.tid, ">" + rest);
    assert s[2..][..|name|] == name && s[|name| + 2] == '>';
    assert forall i | 2 <= i <= |name| + 1 :: s[i] == name[i - 2];
    TagLenPasses(s, |name| + 2);
  }

  lemma {:induction false} TagLenInQuotes(t: string, k: nat)
    requires k < |t| && t[k] == '"' && forall i | 0 <= i < k :: t[i] != '"'
    ensures TagLen(t, Double) == k + 1 + TagLen(t[k + 1..], Unquoted)
  {
    if k > 0 {
      TagLenInQuotes(t[1..], k - 1);
      assert t[1..][k..] == t[k + 1..];
    }
  }

  /** A link tag ends at the `>` after its target, whatever the target holds. */
  lemma LinkTagLen(href: string, rest: string)
    requires '"' !in href
    ensures TagLen("<a href=\"" + href + "\">" + rest, Unquoted) == |href| + 11
  {
    hide Span, LowerAll;
    var t := href + "\">" + rest;
    var s := "<a href=\"" + href + "\">" + rest;
    assert s == "<a href=\"" + t;
    TagLenPasses(s, 8);
    assert s[8..] == "\"" + t && s[8..][1..] == t;
    TagLenInQuotes(t, |href|);
    assert t[|href| + 1..] == ">" + rest;
  }

  lemma MeetsLink(href: string, rest: string)
    requires '"' !in href
    ensures var tag := RawOpenTag(Tag(A, href));
      NextToken(tag + rest) == (Start(A, " href=\"" + href + "\">"), |tag|)
  {
    hide TagLen, Span, LowerAll, FindClose, IsCloseTag, CommentLen;
    var tag := RawOpenTag(Tag(A, href));
    var s := tag + rest;
    LinkTagLen(href, rest);
    assert "<a href=\"" + href + "\">" + rest == s;
    var u := " href=\"" + href + "\">" + rest;
    assert s[1..] == TagName(A) + u;
    MeetsName(A, u);
    assert s[1..][0..] == s[1..] && s[1..][..1] == "a" && s[1] == 'a';
    assert Inner(s) == s[2..|tag|] == " href=\"" + href + "\">";
  }

  lemma ReadsTarget(href: string)
    requires '"' !in href
    ensures var y := "\"" + href + "\">"; Value(y) == href && ValueLen(y) == |href| + 2 && y[|href| + 2..] == ">"
  {
    var y := "\"" + href + "\">";
    assert y[1..] == href + "\">" && y[1..][..|href|] == href;
    UptoIs('"', y[1..], |href|);
  }

  lemma NoBlank(t: string)
    requires t == [] || !IsSpace(t[0])
    ensures SkipBlank(t) == t
  {
    SpanIs(IsSpace, t, 0);
  }

  /** A turn on an `href` attribute with nothing before it, seen through its parts. */
  lemma TurnOnHref(t: string, y: string)
    requires SkipBlank(t) == t && |t| >= 4 && t[..4] == "href" && Span(IsAttrNameChar, t) == 4
    requires t[4..] == "=" + y && y != [] && SkipBlank("=" + y) == "=" + y && SkipBlank(y) == y
    ensures HrefTurn(t, "") == ValueTurn("href", y, "")
  {
    hide SkipBlank, Span, ValueTurn;
    assert ("=" + y)[1..] == y;
    assert t[0] == t[..4][0] == 'h';
  }

  lemma TakesHref(y: string)
    requires y != [] && HrefSafe(Value(y)) && |Value(y)| < HREF_CAP
    ensures ValueTurn("href", y, "") == Scanning(y[ValueLen(y)..], CString(Value(y)))
  {
    hide HrefSafe, Value, ValueLen, CString;
    assert LowerAll("href") == "href";
  }

  lemma CStringIs(s: string)
    requires '\0' !in s
    ensures CString(s) == s
  {
    assert s[..|s|] == s;
    UptoIs('\0', s, |s|);
  }

  /** The turn on the attribute of a link tag, up to its value. */
  lemma TurnsOnLink(href: string)
    ensures HrefTurn("href=\"" + href + "\">", "") == ValueTurn("href", "\"" + href + "\">", "")
  {
    hide ValueTurn, HrefTurn, Span;
    var y := "\"" + href + "\">";
    var t := "href=" + y;
    assert "href=\"" + href + "\">" == t;
    assert forall i | 0 <= i < 4 :: t[i] == "href"[i];
    SpanIs(IsAttrNameChar, t, 4);
    assert t[..4] == "href" && t[4..] == "=" + y;
    NoBlank(t);
    NoBlank("=" + y);
    NoBlank(y);
    TurnOnHref(t, y);
  }

  lemma TurnsOnTarget(href: string)
    requires GoodHref(href) && '"' !in href
    ensures HrefTurn("href=\"" + href + "\">", "") == Scanning(">", href)
  {
    hide HrefSafe, Value, ValueLen, ValueTurn, HrefTurn, CString;
    TurnsOnLink(href);
    ReadsTarget(href);
    CStringIs(href);
    TakesHref("\"" + href + "\">");
  }

  lemma FindsTarget(href: string)
    requires GoodHref(href) && '"' !in href
    ensures FindHref(" href=\"" + href + "\">") == Some(href)
  {
    hide HrefSafe, GoodHref, HrefTurn;
    var inner := " href=\"" + href + "\">";
    var t := "href=\"" + href + "\">";
    assert inner[1..] == t && inner[0] == ' ' && inner[1] == 'h';
    SpanIs(IsSpace, inner, 1);
    TurnsOnTarget(href);
    EndsAtBracket(href);
    assert HrefLoop(">", href) == Some(href);
  }

  lemma EndsAtBracket(href: string)
    ensures HrefTurn(">", href) == Finished(href)
  {
    NoBlank(">");
  }

  /** One step of the scan. */
  lemma Takes(s: string, o: Open, tok: Token, n: nat, rest: string)
    requires s != [] && NextToken(s) == (tok, n) && s[n..] == rest && Apply(o, tok).Running?
    ensures Sanitize(s, o) == Sanitize(rest, Apply(o, tok).open)
  {
  }

  lemma GoodHrefNotEmpty(href: string)
    requires GoodHref(href)
    ensures href != ""
  {
  }

  lemma TakesOpenTag(tag: Tag, rest: string, o: Open)
    requires GoodTag(tag) && '"' !in tag.href && Depth(o) < MAX_DEPTH
    ensures Sanitize(RawOpenTag(tag) + rest, o) == Sanitize(rest, Push(o, tag))
  {
    hide Sanitize, NextToken, FindHref, GoodHref, TagLen, PrintOpen;
    var s := RawOpenTag(tag) + rest;
    assert s[|RawOpenTag(tag)|..] == rest;
    if tag.tid == A {
      MeetsLink(tag.href, rest);
      FindsTarget(tag.href);
      assert tag.href != "" by { GoodHrefNotEmpty(tag.href); }
      Takes(s, o, NextToken(s).0, |RawOpenTag(tag)|, rest);
    } else {
      MeetsPlainTag(tag.tid, rest);
      assert "<" + TagName(tag.tid) + ">" + rest == s;
      Takes(s, o, NextToken(s).0, |RawOpenTag(tag)|, rest);
    }
  }

  lemma TakesCloseTag(tag: Tag, rest: string, o: Open)
    requires tag.tid != BR && o.Inside? && o.tag == tag
    ensures Sanitize(CloseTag(tag) + rest, o) == Sanitize(rest, Pop(o))
  {
    hide Sanitize, NextToken, PrintOpen;
    var s := CloseTag(tag) + rest;
    MeetsCloseTag(tag, rest);
    assert s[|CloseTag(tag)|..] == rest;
    Takes(s, o, End(tag.tid), |CloseTag(tag)|, rest);
  }

  lemma {:induction false} ReadsRawNode(n: Node, rest: string, o: Open)
    requires Depth(o) <= MAX_DEPTH && WellFormed(Snoc(Nil, n), MAX_DEPTH - Depth(o)) && Writable(Snoc(Nil, n))
    ensures Sanitize(RawNode(n) + rest, o) == Sanitize(rest, Append(o, n))
    decreases n
  {
    hide Sanitize, NextToken, GoodTag, PrintOpen, CloseTag, RawOpenTag;
    match n
    case Text(c) =>
      assert ([c] + rest)[1..] == rest;
      TakesText(c, rest, o);
    case LineBreak => TakesBreak(rest, o);
    case Element(tag, kids) =>
      var tail := CloseTag(tag) + rest;
      assert RawNode(n) + rest == RawOpenTag(tag) + (Raw(kids) + tail);
      TakesOpenTag(tag, Raw(kids) + tail, o);
      ReadsRaw(kids, tail, Push(o, tag));
      AppendInside(o, tag, Nil, kids);
      assert tag.tid != BR by { GoodTagIsSafe(tag); }
      TakesCloseTag(tag, rest, Inside(o, tag, kids));
  }

  lemma TakesText(c: char, rest: string, o: Open)
    requires c != '<'
    ensures Sanitize([c] + rest, o) == Sanitize(rest, Append(o, Text(c)))
  {
    hide Sanitize, PrintOpen;
    assert ([c] + rest)[1..] == rest;
    Takes([c] + rest, o, Char(c), 1, rest);
  }

  lemma TakesBreak(rest: string, o: Open)
    ensures Sanitize("<br>" + rest, o) == Sanitize(rest, Append(o, LineBreak))
  {
    hide Sanitize, NextToken, PrintOpen;
    MeetsPlainTag(BR, rest);
    assert "<" + TagName(BR) + ">" + rest == "<br>" + rest;
    Takes("<br>" + rest, o, Break, 4, rest);
  }

  lemma {:induction false} ReadsRaw(f: Forest, rest: string, o: Open)
    requires Depth(o) <= MAX_DEPTH && WellFormed(f, MAX_DEPTH - Depth(o)) && Writable(f)
    ensures Sanitize(Raw(f) + rest, o) == Sanitize(rest, AppendAll(o, f))
    decreases f
  {
    hide Sanitize, NextToken, PrintOpen;
    match f
    case Nil => assert Raw(f) + rest == rest;
    case Snoc(front, last) =>
      assert Raw(f) + rest == Raw(front) + (RawNode(last) + rest);
      ReadsRaw(front, RawNode(last) + rest, o);
      ReadsRawNode(last, rest, AppendAll(o, front));
  }

  /** Allowed markup comes back as it was meant, with texts and targets escaped, whenever it fits. */
  lemma ParseAfterPrint(f: Forest, max: nat)
    requires WellFormed(f, MAX_DEPTH) && Writable(f)
    ensures SanitizeOutcome(Raw(f), max) ==
            if |Raw(f)| <= MAX_IN && Fits(Print(f), max) then Accepted(Print(f)) else Rejected
  {
    ReadsRaw(f, "", Top(Nil));
    assert Raw(f) + "" == Raw(f);
    AppendTop(f);
  }

  // ---------------------------------------------------------------- sanitizing twice

  function AppendText(f: Forest, s: string): (r: Forest)
    ensures Raw(r) == Raw(f) + s
  {
    if s == [] then f
    else
      var i := |s| - 1;
      assert Raw(f) + s[..i] + [s[i]] == Raw(f) + s;
      Snoc(AppendText(f, s[..i]), Text(s[i]))
  }

  /** The tree whose texts and targets are the escaped ones of `f`. */
  function Escaped(f: Forest): (r: Forest)
    ensures Raw(r) == Print(f)
  {
    match f
    case Nil => Nil
    case Snoc(front, Text(c)) => AppendText(Escaped(front), Escape(c))
    case Snoc(front, LineBreak) => Snoc(Escaped(front), LineBreak)
    case Snoc(front, Element(tag, kids)) =>
      Snoc(Escaped(front), Element(Tag(tag.tid, EscapeAll(tag.href)), Escaped(kids)))
  }

  predicate TargetsStayShort(f: Forest) {
    match f
    case Nil => true
    case Snoc(front, last) =>
      && TargetsStayShort(front)
      && (last.Element? ==> |EscapeAll(last.tag.href)| < HREF_CAP && TargetsStayShort(last.kids))
  }

  predicate NeedsNoEscape(c: char) { c != '&' && c != '<' && c != '>' && c != '"' }

  lemma {:induction false} EscapeKeepsClean(h: string)
    requires forall i | 0 <= i < |h| :: NeedsNoEscape(h[i])
    ensures EscapeAll(h) == h
  {
    if h != [] { EscapeKeepsClean(h[..|h| - 1]); }
  }

  lemma EscapeKeepsPrefix(h: string, n: nat)
    requires n <= |h| && forall i | 0 <= i < n :: NeedsNoEscape(h[i])
    ensures n <= |EscapeAll(h)| && EscapeAll(h)[..n] == h[..n]
  {
    hide EscapeAll;
    assert h == h[..n] + h[n..];
    EscapeAllConcat(h[..n], h[n..]);
    EscapeKeepsClean(h[..n]);
  }

  lemma SchemeStays(h: string, k: nat, lit: string)
    requires k <= |h| && (forall i | 0 <= i < k :: NeedsNoEscape(h[i])) && StartsCi(h[k..], lit)
    requires forall c | c in lit :: NeedsNoEscape(c)
    ensures k <= |EscapeAll(h)| && StartsCi(EscapeAll(h)[k..], lit)
  {
    var n := k + |lit|;
    forall i | 0 <= i < n ensures NeedsNoEscape(h[i]) {
      if i >= k {
        assert h[i] == h[k..][..|lit|][i - k];
        assert Lower(h[i]) == lit[i - k] && lit[i - k] in lit;
      }
    }
    EscapeKeepsPrefix(h, n);
    assert EscapeAll(h)[k..][..|lit|] == EscapeAll(h)[..n][k..] == h[..n][k..] == h[k..][..|lit|];
  }

  lemma SchemeFirst(t: string)
    requires StartsCi(t, "http://") || StartsCi(t, "https://") || StartsCi(t, "mailto:")
    ensures t != [] && !IsSpace(t[0])
  {
    assert LowerAll(t[..7])[0] == Lower(t[0]);
    if StartsCi(t, "https://") { assert LowerAll(t[..8])[0] == Lower(t[0]); }
  }

  lemma EscapedTargetSafe(h: string)
    requires HrefSafe(h)
    ensures HrefSafe(EscapeAll(h))
  {
    hide EscapeAll, Span, StartsCi;
    var e := EscapeAll(h);
    var k := Blank(h);
    assert forall i | 0 <= i < k :: IsSpace(h[i]);
    if h[k] == '#' {
      EscapeKeepsPrefix(h, k + 1);
      assert e[k] == e[..k + 1][k];
    } else if StartsCi(h[k..], "http://") {
      SchemeStays(h, k, "http://");
    } else if StartsCi(h[k..], "https://") {
      SchemeStays(h, k, "https://");
    } else {
      SchemeStays(h, k, "mailto:");
    }
    EscapeKeepsPrefix(h, k);
    assert forall i | 0 <= i < k :: e[i] == e[..k][i] == h[i];
    assert k < |e| && !IsSpace(e[k]) by {
      if h[k] != '#' { SchemeFirst(e[k..]); }
    }
    SpanIs(IsSpace, e, k);
  }

  lemma {:induction false} EscapeAddsNoNul(h: string)
    requires '\0' !in h
    ensures '\0' !in EscapeAll(h)
  {
    if h != [] {
      EscapeAddsNoNul(h[..|h| - 1]);
      assert h[|h| - 1] in h;
    }
  }

  lemma {:induction false} AppendTextFits(f: Forest, s: string, room: nat)
    requires Nested(f, room) && Writable(f) && '<' !in s
    ensures Nested(AppendText(f, s), room) && Writable(AppendText(f, s)) && Short(AppendText(f, s)) == Short(f)
  {
    if s != [] { AppendTextFits(f, s[..|s| - 1], room); }
  }

  lemma {:induction false} EscapedFits(f: Forest, room: nat)
    requires WellFormed(f, room)
    ensures Nested(Escaped(f), room) && Writable(Escaped(f)) && Short(Escaped(f)) == TargetsStayShort(f)
  {
    hide HrefSafe;
    match f
    case Nil =>
    case Snoc(front, last) =>
      EscapedFits(front, room);
      match last
      case Text(c) => AppendTextFits(Escaped(front), Escape(c), room);
      case LineBreak =>
      case Element(tag, kids) =>
        EscapedFits(kids, room - 1);
        EscapeAllClean(tag.href);
        if tag.tid == A {
          EscapedTargetSafe(tag.href);
          EscapeAddsNoNul(tag.href);
        }
  }

  /**
  Sanitizing a printed tree again drops and adds no tag, and only escapes texts and targets once
  more, if and only if the escaped targets still fit the buffer of `parse_anchor_href`.
  */
  lemma PrintedTwice(f: Forest, max: nat)
    requires WellFormed(f, MAX_DEPTH)
    ensures SanitizeOutcome(Print(f), max) == Accepted(Print(Escaped(f))) <==>
            TargetsStayShort(f) && |Print(f)| <= MAX_IN && Fits(Print(Escaped(f)), max)
    ensures TargetsStayShort(f) && (|Print(f)| > MAX_IN || !Fits(Print(Escaped(f)), max)) ==>
              SanitizeOutcome(Print(f), max) == Rejected
  {
    hide Sanitize, Accepts, WellFormed, TargetsStayShort;
    var g := Escaped(f);
    EscapedFits(f, MAX_DEPTH);
    NestedAndShort(g, MAX_DEPTH);
    if TargetsStayShort(f) {
      ParseAfterPrint(g, max);
    } else {
      OutputInGrammar(Print(f), max);
      AcceptsForest(g, "", []);
      assert Print(g) + "" == Print(g);
    }
  }

  /** The same for whatever the sanitizer returned. */
  lemma SanitizeTwice(input: string, max: nat, max': nat)
    requires SanitizeOutcome(input, max).Accepted?
    ensures var f := CloseAll(Sanitize(input, Top(Nil)).open);
      && SanitizeOutcome(input, max) == Accepted(Print(f))
      && (SanitizeOutcome(Print(f), max') == Accepted(Print(Escaped(f))) <==>
            TargetsStayShort(f) && |Print(f)| <= MAX_IN && Fits(Print(Escaped(f)), max'))
  {
    var o := Sanitize(input, Top(Nil)).open;
    SanitizeWellFormed(input, Top(Nil));
    CloseAllWellFormed(o);
    PrintedTwice(CloseAll(o), max');
  }

  // ---------------------------------------------------------------- a target that does not stay short

  function Ampersands(n: nat): string { if n == 0 then "" else Ampersands(n - 1) + "&" }

  lemma {:induction false} ManyAmpersands(n: nat)
    ensures |Ampersands(n)| == n && |EscapeAll(Ampersands(n))| == 5 * n
    ensures forall c | c in Ampersands(n) :: c == '&'
  {
    if n > 0 {
      ManyAmpersands(n - 1);
      assert Ampersands(n)[..n - 1] == Ampersands(n - 1);
    }
  }

  function LongTag(n: nat): Tag { Tag(A, "#" + Ampersands(n)) }

  function LongLink(n: nat): Forest { Snoc(Nil, Element(LongTag(n), Nil)) }

  lemma LongTarget(n: nat)
    ensures var h := LongTag(n).href;
      SafeHref(h) && '"' !in h && |h| == n + 1 && |EscapeAll(h)| == 5 * n + 1
  {
    hide Ampersands, EscapeAll;
    var amps := Ampersands(n);
    var h := "#" + amps;
    ManyAmpersands(n);
    EscapeAllConcat("#", amps);
    EscapeKeepsClean("#");
    SpanIs(IsSpace, h, 0);
    assert SkipBlank(h) == h && h[0] == '#';
    assert forall c | c in h :: c == '#' || c == '&';
  }

  lemma LongLinkShape(n: nat)
    requires 2047 <= 5 * n && n < 2047
    ensures var f := LongLink(n);
      && WellFormed(f, MAX_DEPTH) && Writable(f) && !TargetsStayShort(f)
      && |Raw(f)| <= MAX_IN && Fits(Print(f), MAX_IN)
  {
    hide EscapeAll, SafeHref, Ampersands;
    LongTarget(n);
    var tag := LongTag(n);
    var f := LongLink(n);
    assert GoodTag(tag) && WellFormed(Nil, 63) && WellFormed(Nil, 64);
    assert Raw(Nil) == "" == Print(Nil);
    assert Raw(f) == "" + (RawOpenTag(tag) + "" + CloseTag(tag));
    assert Print(f) == "" + (OpenTag(tag) + "" + CloseTag(tag));
  }

  /** Such a link is accepted as it is written, and not kept when that output is sanitized again. */
  lemma LongLinkIsDropped(n: nat, max: nat)
    requires 2047 <= 5 * n && n < 2047
    ensures var f := LongLink(n);
      && SanitizeOutcome(Raw(f), MAX_IN) == Accepted(Print(f))
      && SanitizeOutcome(Print(f), max) != Accepted(Print(Escaped(f)))
  {
    hide SanitizeOutcome, LongLink, WellFormed, Writable, TargetsStayShort;
    LongLinkShape(n);
    ParseAfterPrint(LongLink(n), MAX_IN);
    PrintedTwice(LongLink(n), max);
  }
}
