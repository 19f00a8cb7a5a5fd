/**
The sanitizer as a program: one pass over the input with a growing buffer and a stack of 64 open
tags, proved to compute `SanitizeOutcome`.
*/
module HtmlSanitizer {
  import opened Ascii
  import opened HtmlScan
  import opened HtmlTree
  import opened HtmlSpec
  import opened HtmlGrammar
  import opened HtmlBuf
  import opened HtmlLexer

  // ---------------------------------------------------------------- link targets

  /** A run of characters satisfying `f`. */
  method ReadWord(f: char -> bool, s: string, p: nat) returns (q: nat, word: string)
    requires p <= |s|
    ensures p <= q <= |s| && |word| == Span(f, s[p..]) && word == s[p..][..|word|] && s[q..] == s[p..][|word|..]
    ensures q == p + |word|
  {
    hide Span;
    q := SkipWhile(f, s, p);
    word := s[p..q];
    assert word == s[p..][..q - p];
  }

  /** The body of the loop of `parse_anchor_href`. */
  method TakeTurn(t: string, start: nat, href: string) returns (ended: bool, p: nat, href': string)
    requires start <= |t|
    ensures ended ==> HrefTurn(t[start..], href) == Finished(href')
    ensures !ended ==> start <= p <= |t| && HrefTurn(t[start..], href) == Scanning(t[p..], href')
  {
    hide HrefTurn, ValueTurn, Span, SkipBlank, Blank;
    ghost var u := t[start..];
    href' := href;
    p := SkipWs(t, start);
    ghost var v := t[p..];
    if p >= |t| { TurnAtEnd(u, href); return true, p, href; }
    Rest(t, p);
    if t[p] == '>' || (t[p] == '/' && p + 1 < |t| && t[p + 1] == '>') {
      TurnEnds(u, href, v);
      return true, p, href;
    }
    var name;
    p, name := ReadWord(IsAttrNameChar, t, p);
    p := SkipWs(t, p);
    TurnAt(u, href, v, |name|, t[p..]);
    if p >= |t| || t[p] != '=' { return false, p, href; }
    Rest(t, p);
    p := SkipWs(t, p + 1);
    if p >= |t| { ValueTurnAtEnd(name, t[p..], href); return true, p, href; }
    p, href' := ReadAttribute(t, p, name, href);
    ended := false;
  }

  /** `parse_anchor_href`; `None` where a turn would repeat itself for ever. */
  method ParseAnchorHref(t: string) returns (r: Option<string>)
    ensures r == FindHref(t)
  {
    hide HrefTurn, SkipBlank;
    var href := "";
    assert t[0..] == t;
    var p := SkipWs(t, 0);
    while p < |t|
      invariant p <= |t|
      invariant HrefLoop(t[p..], href) == FindHref(t)
    {
      var start := p;
      var ended;
      ended, p, href := TakeTurn(t, start, href);
      if ended { return Some(href); }
      if p == start { return None; }
    }
    assert t[p..] == "";
    TurnAtEnd("", href) by { BlankNothing(); }
    r := Some(href);
  }

  lemma BlankNothing()
    ensures SkipBlank("") == ""
  {
  }

  lemma ValueTurnAtEnd(name: string, y: string, href: string)
    requires y == ""
    ensures ValueTurn(name, y, href) == Finished(href)
  {
  }

  /** The value of an attribute: skipped, or taken as the target. */
  method ReadAttribute(t: string, p: nat, name: string, href: string) returns (q: nat, href': string)
    requires p < |t|
    ensures p <= q <= |t| && ValueTurn(name, t[p..], href) == Scanning(t[q..], href')
  {
    hide HrefSafe, Value, ValueLen, CString, LowerAll, AttrDangerous;
    var value;
    value, q := ReadAttrValue(t, p);
    assert t[p..][q - p..] == t[q..];
    href' := href;
    var danger := AttrNameIsDanger(name);
    if danger { return; }
    var isHref := TagNameEq(name, "href");
    if isHref && href == "" {
      var safe := HrefIsSafe(value);
      if safe && |value| + 1 <= HREF_CAP {
        href' := CString(value);
      }
    }
  }

  // ---------------------------------------------------------------- emitting tags

  datatype Emit = Emitted | SkipTag | Failed | NoReturn

  /** `"<" name ">"` and `"</" name ">"` in three appends. */
  method EmitThree(b: Buf, s1: string, s2: string, s3: string) returns (ok: bool)
    requires b.Valid()
    modifies b, b.d
    ensures b.Valid() && (b.d == old(b.d) || fresh(b.d))
    ensures ok == (|old(b.Text())| + |s1 + s2 + s3| + 1 <= b.maxTotal)
    ensures ok ==> b.Text() == old(b.Text()) + (s1 + s2 + s3)
  {
    ghost var t := b.Text();
    assert |s1 + s2 + s3| == |s1| + |s2| + |s3|;
    ok := b.Append(s1);
    if !ok { return; }
    ok := b.Append(s2);
    if !ok { return; }
    ok := b.Append(s3);
    Regrouped(t, s1, s2, s3);
  }

  lemma Regrouped(t: string, s1: string, s2: string, s3: string)
    ensures t + s1 + s2 + s3 == t + (s1 + s2 + s3)
  {
  }

  /** The link branch of `buf_emit_open_tag`. */
  method EmitLink(b: Buf, inner: string) returns (e: Emit, href: string)
    requires b.Valid()
    modifies b, b.d
    ensures b.Valid() && (b.d == old(b.d) || fresh(b.d))
    ensures match FindHref(inner)
            case None => e == NoReturn && b.Text() == old(b.Text())
            case Some(h) =>
              if h == "" then e == SkipTag && b.Text() == old(b.Text())
              else var tag := OpenTag(Tag(A, h));
                if |old(b.Text())| + |tag| + 1 <= b.maxTotal
                then e == Emitted && href == h && b.Text() == old(b.Text()) + tag
                else e == Failed
  {
    hide FindHref, EscapeAll, Decode;
    href := "";
    var h := ParseAnchorHref(inner);
    if h.None? { return NoReturn, ""; }
    if h.value == "" { return SkipTag, ""; }
    href := h.value;
    ghost var t0 := b.Text();
    var ok := b.Append("<a href=\"");
    if !ok { return Failed, ""; }
    ok := EmitEscaped(b, href);
    if !ok { return Failed, ""; }
    ok := b.Append("\">");
    if !ok { return Failed, ""; }
    Regrouped(t0, "<a href=\"", EscapeAll(href), "\">");
    e := Emitted;
  }

  // ---------------------------------------------------------------- one token

  /** What the local variables of the scan mean. */
  ghost predicate Holds(b: Buf, stack: array<Tid>, sp: nat, o: Open)
    reads b, b.d, stack
  {
    && b.Valid() && b.Text() == PrintOpen(o)
    && stack.Length == MAX_DEPTH && sp == Depth(o) <= MAX_DEPTH && stack[..sp] == Stack(o)
  }

  lemma {:induction false} StackDepth(o: Open)
    ensures |Stack(o)| == Depth(o)
    ensures o.Inside? ==> Stack(o)[|Stack(o)| - 1] == o.tag.tid
  {
    if o.Inside? { StackDepth(o.up); }
  }

  datatype Status = Go | Fail | Hang

  /** How handling a token may end. */
  ghost predicate Handled(o: Open, tok: Token, max: nat, st: Status, o': Open) {
    match st
    case Go => Apply(o, tok) == Running(o')
    case Fail => !Fits(PrintOpen(Apply(o, tok).open), max)
    case Hang => Apply(o, tok) == Stuck(o') && o' == o
  }

  lemma TopOfStack(b: Buf, stack: array<Tid>, sp: nat, o: Open)
    requires Holds(b, stack, sp, o)
    ensures sp <= stack.Length && (sp > 0 <==> o.Inside?)
    ensures sp > 0 ==> stack[sp - 1] == o.tag.tid
  {
    StackDepth(o);
    assert sp > 0 ==> stack[sp - 1] == stack[..sp][sp - 1];
  }

  /** Write the closing tag of the innermost open element and take it off the stack. */
  method CloseOne(b: Buf, stack: array<Tid>, sp: nat, ghost o: Open) returns (ok: bool)
    requires Holds(b, stack, sp, o) && sp > 0
    modifies b, b.d
    ensures b.Valid() && (b.d == old(b.d) || fresh(b.d))
    ensures o.Inside? && ok == Fits(PrintOpen(Pop(o)), b.maxTotal)
    ensures ok ==> Holds(b, stack, sp - 1, Pop(o))
  {
    hide PrintOpen;
    TopOfStack(b, stack, sp, o);
    ok := EmitThree(b, "</", TagName(stack[sp - 1]), ">");
    assert stack[..sp - 1] == stack[..sp][..sp - 1];
  }

  /** The closing-tag branch, once the tag is known to be `tid`. */
  method CloseTop(b: Buf, stack: array<Tid>, sp: nat, tid: Tid, ghost o: Open)
    returns (st: Status, sp': nat, ghost o': Open)
    requires Holds(b, stack, sp, o) && tid != BR
    modifies b, b.d
    ensures b.d == old(b.d) || fresh(b.d)
    ensures st != Fail ==> Holds(b, stack, sp', o')
    ensures Handled(o, End(tid), b.maxTotal, st, o') && st != Hang
  {
    hide PrintOpen, CloseAll, Holds;
    TopOfStack(b, stack, sp, o);
    st, sp', o' := Go, sp, o;
    if sp > 0 && stack[sp - 1] == tid {
      var ok := CloseOne(b, stack, sp, o);
      o' := Pop(o);
      if !ok { return Fail, sp, o'; }
      sp' := sp - 1;
    }
  }

  /** The opening-tag branch, once the tag is known to be an allowed one. */
  method OpenTop(b: Buf, stack: array<Tid>, sp: nat, tid: Tid, inner: string, ghost o: Open)
    returns (st: Status, sp': nat, ghost o': Open)
    requires Holds(b, stack, sp, o) && tid != BR
    modifies b, b.d, stack
    ensures b.d == old(b.d) || fresh(b.d)
    ensures st == Go ==> Holds(b, stack, sp', o')
    ensures st == Hang ==> b.Valid() && b.Text() == PrintOpen(o)
    ensures Handled(o, Start(tid, inner), b.maxTotal, st, o')
  {
    hide PrintOpen, CloseAll, FindHref, OpenTag;
    st, sp', o' := Go, sp, o;
    if sp >= MAX_DEPTH { return; }
    var href := "";
    if tid == A {
      var e;
      e, href := EmitLink(b, inner);
      match e {
        case NoReturn => return Hang, sp, o;
        case SkipTag => return;
        case Failed => return Fail, sp, o;
        case Emitted =>
      }
    } else {
      var ok := EmitThree(b, "<", TagName(tid), ">");
      PlainOpenTag(tid);
      if !ok { return Fail, sp, o; }
    }
    o' := Push(o, Tag(tid, href));
    stack[sp] := tid;
    sp' := sp + 1;
    assert stack[..sp'] == stack[..sp] + [tid];
  }

  lemma PlainOpenTag(tid: Tid)
    requires tid != A
    ensures OpenTag(Tag(tid, "")) == "<" + TagName(tid) + ">"
  {
  }

  // ---------------------------------------------------------------- the scan

  /** Step over the rest of a dangerous element: `skip_dangerous_content`. */
  method SkipDangerousContent(s: string, lt: nat, tagEnd: nat, name: string) returns (q: nat)
    requires lt < |s| && tagEnd == lt + TagLen(s[lt..], Unquoted)
    ensures q == lt + DangerLen(s[lt..], name)
  {
    hide FindClose, TagLen;
    ghost var t := s[lt..];
    assert t[tagEnd - lt..] == s[tagEnd..];
    q := FindCloseTagOpen(s, tagEnd, name);
    assert t[q - lt..] == s[q..];
    if q >= |s| {
      NothingToSkip();
      q := |s|;
    } else {
      q := SkipToTagEnd(s, q);
    }
  }

  lemma NothingToSkip()
    ensures TagLen("", Unquoted) == 0
  {
  }

  /** A `<` that opens no tag is written as text. */
  method LiteralBracket(b: Buf, stack: array<Tid>, sp: nat, ghost o: Open) returns (st: Status, ghost o': Open)
    requires Holds(b, stack, sp, o)
    modifies b, b.d
    ensures b.d == old(b.d) || fresh(b.d)
    ensures st != Fail ==> Holds(b, stack, sp, o')
    ensures Handled(o, Char('<'), b.maxTotal, st, o') && st != Hang
  {
    hide PrintOpen;
    var ok := b.Append("&lt;");
    o' := Append(o, Text('<'));
    st := if ok then Go else Fail;
  }

  /** The token of an opening tag with this name and these attributes. */
  ghost function TagToken(t: string, name: string, inner: string): (Token, nat)
    requires t != []
  {
    var n := TagLen(t, Unquoted);
    if IsDangerous(name) then (Skip, DangerLen(t, LowerAll(name)))
    else
      match Classify(name)
      case None => (Skip, n)
      case Some(tid) => (if tid == BR then Break else Start(tid, inner), n)
  }

  /** An opening tag, by its name. */
  method HandleNamed(s: string, lt: nat, tagEnd: nat, name: string, inner: string,
                     b: Buf, stack: array<Tid>, sp: nat, ghost o: Open)
    returns (st: Status, p: nat, sp': nat, ghost o': Open)
    requires lt < |s| && tagEnd == lt + TagLen(s[lt..], Unquoted) && Holds(b, stack, sp, o)
    modifies b, b.d, stack
    ensures b.d == old(b.d) || fresh(b.d)
    ensures st == Go ==> Holds(b, stack, sp', o') && p == lt + TagToken(s[lt..], name, inner).1
    ensures st == Hang ==> b.Valid() && b.Text() == PrintOpen(o)
    ensures Handled(o, TagToken(s[lt..], name, inner).0, b.maxTotal, st, o')
  {
    hide TagLen, PrintOpen, IsDangerous, Classify, DangerLen, OpenTag, FindHref, LowerAll;
    st, p, sp', o' := Go, tagEnd, sp, o;
    var danger := DangerousName(name);
    if danger.Some? {
      p := SkipDangerousContent(s, lt, tagEnd, danger.value);
      return;
    }
    var tid := ClassifyTag(name);
    if tid.None? { return; }
    if tid.value == BR {
      var ok := b.Append("<br>");
      o' := Append(o, LineBreak);
      st := if ok then Go else Fail;
      return;
    }
    st, sp', o' := OpenTop(b, stack, sp, tid.value, inner, o);
  }

  /** White space and a tag name. */
  method ReadName(s: string, from: nat) returns (q: nat, name: string)
    requires from <= |s|
    ensures q <= |s|
    ensures var u := SkipBlank(s[from..]); var n := Span(IsTagNameChar, u);
      name == u[..n] && q == from + Blank(s[from..]) + n
  {
    hide Span;
    var start := SkipWs(s, from);
    q, name := ReadWord(IsTagNameChar, s, start);
  }

  /** The end of an opening tag, its name, and its attributes; no name where there is no tag. */
  method ReadTag(s: string, lt: nat) returns (tagEnd: nat, name: string, inner: string)
    requires lt < |s| && s[lt] == '<'
    requires !(lt + 1 < |s| && (s[lt + 1] == '!' || s[lt + 1] == '?' || s[lt + 1] == '/'))
    ensures tagEnd == lt + TagLen(s[lt..], Unquoted)
    ensures NextToken(s[lt..]) == if name == "" then (Char('<'), 1) else TagToken(s[lt..], name, inner)
  {
    hide NextToken, TagLen, Span, IsDangerous, Classify, DangerLen, LowerAll, Blank, SkipBlank, Inner;
    ghost var t := s[lt..];
    Rest(s, lt);
    assert |t| >= 2 ==> t[1] == s[lt + 1];
    MeetsTag(t);
    InnerWithin(t);
    InnerIs(t);
    tagEnd := SkipToTagEnd(s, lt);
    var q;
    q, name := ReadName(s, lt + 1);
    inner := s[q..tagEnd];
    assert inner == t[q - lt..tagEnd - lt];
  }

  /** The opening-tag branch of the scan. */
  method HandleOpen(s: string, lt: nat, b: Buf, stack: array<Tid>, sp: nat, ghost o: Open)
    returns (st: Status, p: nat, sp': nat, ghost o': Open)
    requires lt < |s| && s[lt] == '<' && Holds(b, stack, sp, o)
    requires !(lt + 1 < |s| && (s[lt + 1] == '!' || s[lt + 1] == '?' || s[lt + 1] == '/'))
    modifies b, b.d, stack
    ensures b.d == old(b.d) || fresh(b.d)
    ensures st == Go ==> Holds(b, stack, sp', o') && p == lt + NextToken(s[lt..]).1
    ensures st == Hang ==> b.Valid() && b.Text() == PrintOpen(o)
    ensures Handled(o, NextToken(s[lt..]).0, b.maxTotal, st, o')
  {
    hide NextToken, TagLen, PrintOpen, TagToken, Handled, Holds;
    var tagEnd, name, inner := ReadTag(s, lt);
    if name == "" {
      st, o' := LiteralBracket(b, stack, sp, o);
      p, sp' := lt + 1, sp;
    } else {
      st, p, sp', o' := HandleNamed(s, lt, tagEnd, name, inner, b, stack, sp, o);
    }
  }

  /** The closing-tag branch of the scan. */
  method HandleClose(s: string, lt: nat, b: Buf, stack: array<Tid>, sp: nat, ghost o: Open)
    returns (st: Status, p: nat, sp': nat, ghost o': Open)
    requires lt + 1 < |s| && s[lt] == '<' && s[lt + 1] == '/' && Holds(b, stack, sp, o)
    modifies b, b.d
    ensures b.d == old(b.d) || fresh(b.d)
    ensures st != Fail ==> Holds(b, stack, sp', o') && p == lt + NextToken(s[lt..]).1
    ensures Handled(o, NextToken(s[lt..]).0, b.maxTotal, st, o') && st != Hang
  {
    hide NextToken, TagLen, Span, PrintOpen, Classify, LowerAll, Blank, SkipBlank;
    ghost var t := s[lt..];
    assert t[0] == '<' && t[1] == '/' && t[2..] == s[lt + 2..];
    MeetsClose(t);
    var _, name := ReadName(s, lt + 2);
    if name == "" {
      st, o' := LiteralBracket(b, stack, sp, o);
      p, sp' := lt + 1, sp;
      return;
    }
    p := SkipToTagEnd(s, lt);
    var tid := ClassifyTag(name);
    st, sp', o' := Go, sp, o;
    if tid.None? || tid.value == BR { return; }
    st, sp', o' := CloseTop(b, stack, sp, tid.value, o);
  }

  /** Comments and declarations. */
  method HandleMarkup(s: string, lt: nat) returns (p: nat)
    requires lt + 1 < |s| && s[lt] == '<' && (s[lt + 1] == '!' || s[lt + 1] == '?')
    ensures NextToken(s[lt..]) == (Skip, p - lt)
  {
    ghost var t := s[lt..];
    assert t[0] == '<' && t[1] == s[lt + 1];
    if lt + 4 <= |s| && s[lt + 1] == '!' && s[lt + 2] == '-' && s[lt + 3] == '-' {
      assert t[4..] == s[lt + 4..] && t[2] == s[lt + 2] && t[3] == s[lt + 3];
      p := SkipComment(s, lt + 4);
    } else {
      assert |t| >= 4 ==> t[2] == s[lt + 2] && t[3] == s[lt + 3];
      p := SkipToTagEnd(s, lt);
    }
  }

  /** One turn of the main loop at a `<`. */
  method HandleTag(s: string, lt: nat, b: Buf, stack: array<Tid>, sp: nat, ghost o: Open)
    returns (st: Status, p: nat, sp': nat, ghost o': Open)
    requires lt < |s| && s[lt] == '<' && Holds(b, stack, sp, o)
    modifies b, b.d, stack
    ensures b.d == old(b.d) || fresh(b.d)
    ensures st == Go ==> Holds(b, stack, sp', o') && p == lt + NextToken(s[lt..]).1
    ensures st == Hang ==> b.Valid() && b.Text() == PrintOpen(o)
    ensures Handled(o, NextToken(s[lt..]).0, b.maxTotal, st, o')
  {
    hide NextToken, PrintOpen;
    if lt + 1 < |s| && (s[lt + 1] == '!' || s[lt + 1] == '?') {
      p := HandleMarkup(s, lt);
      st, sp', o' := Go, sp, o;
    } else if lt + 1 < |s| && s[lt + 1] == '/' {
      st, p, sp', o' := HandleClose(s, lt, b, stack, sp, o);
    } else {
      st, p, sp', o' := HandleOpen(s, lt, b, stack, sp, o);
    }
  }

  /** A state of the scan whose output is already too long decides the result. */
  lemma TooLong(s: string, max: nat, x: Open)
    requires |s| <= MAX_IN && max > 0
    requires PrintOpen(x) <= PrintOpen(Sanitize(s, Top(Nil)).open) && !Fits(PrintOpen(x), max)
    ensures SanitizeOutcome(s, max) == Rejected
  {
    hide PrintOpen, Print, Sanitize;
  }

  /** One step of the scan, in both of its endings. */
  lemma StepOf(t: string, o: Open)
    requires t != []
    ensures var (tok, n) := NextToken(t); var s := Apply(o, tok);
      Sanitize(t, o) == (if s.Stuck? then s else Sanitize(t[n..], s.open)) &&
      PrintOpen(s.open) <= PrintOpen(Sanitize(t, o).open)
  {
    hide NextToken, Apply, PrintOpen;
  }

  /** Close what is still open, innermost first. */
  method CloseRemaining(b: Buf, stack: array<Tid>, sp: nat, ghost o: Open) returns (ok: bool)
    requires Holds(b, stack, sp, o) && GoodStack(o)
    modifies b, b.d
    ensures b.Valid() && ok == Fits(Print(CloseAll(o)), b.maxTotal)
    ensures ok ==> b.Text() == Print(CloseAll(o))
  {
    hide PrintOpen, Print;
    var i: nat := sp;
    ghost var x := o;
    while i > 0
      invariant Holds(b, stack, i, x) && GoodStack(x) && CloseAll(x) == CloseAll(o)
      invariant b.d == old(b.d) || fresh(b.d)
      decreases i
    {
      ok := CloseOne(b, stack, i, x);
      i := i - 1;
      x := Pop(x);
      if !ok { return; }
    }
    PrintTop(x);
    ok := true;
  }

  /** No `<br>` is ever on the stack. */
  predicate GoodStack(o: Open) { o.Inside? ==> o.tag.tid != BR && GoodStack(o.up) }

  lemma PrintTop(o: Open)
    requires Depth(o) == 0
    ensures CloseAll(o) == o.done && PrintOpen(o) == Print(o.done)
  {
  }

  /** The text up to the next `<`. */
  method TakeText(s: string, p: nat, b: Buf, stack: array<Tid>, sp: nat, ghost o: Open)
    returns (st: Status, lt: nat, ghost o': Open)
    requires p <= |s| && Holds(b, stack, sp, o)
    modifies b, b.d
    ensures b.d == old(b.d) || fresh(b.d)
    ensures p <= lt <= |s| && (lt < |s| ==> s[lt] == '<') && st != Hang
    ensures Sanitize(s[p..], o) == Sanitize(s[lt..], o')
    ensures if st == Go then Holds(b, stack, sp, o') else !Fits(PrintOpen(o'), b.maxTotal)
  {
    hide Sanitize, PrintOpen, EscapeAll;
    ghost var t := s[p..];
    lt := FindChar('<', s, p);
    o' := AppendChars(o, t[..lt - p]);
    PassesText(t, lt - p, o);
    assert s[p..lt] == t[..lt - p] && t[lt - p..] == s[lt..];
    st := Go;
    if lt > p {
      var ok := EmitEscaped(b, s[p..lt]);
      if !ok { st := Fail; }
    }
  }

  /** The tag there, with what it means for the rest of the scan. */
  method TakeTag(s: string, lt: nat, b: Buf, stack: array<Tid>, sp: nat, ghost o: Open)
    returns (st: Status, p: nat, sp': nat, ghost o': Open)
    requires lt < |s| && s[lt] == '<' && Holds(b, stack, sp, o)
    modifies b, b.d, stack
    ensures b.d == old(b.d) || fresh(b.d)
    ensures match st
            case Go => Holds(b, stack, sp', o') && lt < p <= |s| && Sanitize(s[lt..], o) == Sanitize(s[p..], o')
            case Fail => PrintOpen(o') <= PrintOpen(Sanitize(s[lt..], o).open) && !Fits(PrintOpen(o'), b.maxTotal)
            case Hang => b.Valid() && b.Text() == PrintOpen(o') && Sanitize(s[lt..], o) == Stuck(o')
  {
    hide NextToken, Apply, Sanitize, PrintOpen;
    StepOf(s[lt..], o);
    st, p, sp', o' := HandleTag(s, lt, b, stack, sp, o);
    if st == Fail {
      o' := Apply(o, NextToken(s[lt..]).0).open;
    } else if st == Go {
      assert s[lt..][p - lt..] == s[p..];
    }
  }

  /** `update_html_sanitize_alloc` */
  method SanitizeAlloc(s: string, max: nat) returns (r: Outcome)
    ensures r == SanitizeOutcome(s, max)
  {
    hide NextToken, Apply, Sanitize, PrintOpen, EscapeAll, Print, CloseAll, WellFormedOpen;
    if max == 0 || |s| > MAX_IN { return Rejected; }
    var b := new Buf(max);
    var stack := new Tid[MAX_DEPTH](_ => B);
    var sp, p := 0, 0;
    ghost var o := Top(Nil);
    ghost var goal := Sanitize(s, o);
    StartHolds(o);
    assert s[0..] == s;
    while p < |s|
      invariant p <= |s| && b.maxTotal == max && fresh(b) && fresh(b.d)
      invariant Holds(b, stack, sp, o) && Sanitize(s[p..], o) == goal
      decreases |s| - p
    {
      var st, lt;
      st, lt, o := TakeText(s, p, b, stack, sp, o);
      if st == Fail {
        TooLong(s, max, o);
        return Rejected;
      }
      if lt == |s| { p := lt; break; }
      st, p, sp, o := TakeTag(s, lt, b, stack, sp, o);
      if st == Fail {
        TooLong(s, max, o);
        return Rejected;
      }
      if st == Hang { return Hangs; }
    }
    assert goal == Running(o) by { assert s[p..] == ""; EndOfInput(o); }
    SanitizeWellFormed(s, Top(Nil)) by { EmptyWellFormed(); }
    GoodStackOf(o);
    var ok := CloseRemaining(b, stack, sp, o);
    if !ok { return Rejected; }
    r := Accepted(b.d[..b.len]);
  }

  lemma EmptyWellFormed()
    ensures WellFormedOpen(Top(Nil))
  {
  }

  lemma {:induction false} GoodStackOf(o: Open)
    requires WellFormedOpen(o)
    ensures GoodStack(o)
  {
    if o.Inside? { GoodStackOf(o.up); }
  }

  lemma StartHolds(o: Open)
    requires o == Top(Nil)
    ensures PrintOpen(o) == "" && Stack(o) == [] && Depth(o) == 0
  {
  }

  lemma EndOfInput(o: Open)
    ensures Sanitize("", o) == Running(o)
  {
  }
}
