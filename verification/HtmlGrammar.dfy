/**
What a sanitized text can look like, for every input: a strict acceptor of output strings, and the
proof that it accepts whatever the sanitizer returns.
*/
module HtmlGrammar {
  import opened Ascii
  import opened HtmlScan
  import opened HtmlTree
  import opened HtmlSpec

  // ---------------------------------------------------------------- trees the scan can build

  /** A target that `parse_anchor_href` can return, but for its length. */
  predicate SafeHref(h: string) { HrefSafe(h) && '\0' !in h }

  predicate GoodHref(h: string) { SafeHref(h) && |h| < HREF_CAP }

  predicate SafeTag(tag: Tag) {
    tag.tid != BR && if tag.tid == A then SafeHref(tag.href) else tag.href == ""
  }

  predicate GoodTag(tag: Tag) {
    tag.tid != BR && if tag.tid == A then GoodHref(tag.href) else tag.href == ""
  }

  /** Every tag is good, and elements are nested at most `room` deep. */
  predicate WellFormed(f: Forest, room: nat) {
    match f
    case Nil => true
    case Snoc(front, last) =>
      && WellFormed(front, room)
      && (last.Element? ==> room > 0 && GoodTag(last.tag) && WellFormed(last.kids, room - 1))
  }

  predicate WellFormedOpen(o: Open) {
    && Depth(o) <= MAX_DEPTH
    && WellFormed(o.done, MAX_DEPTH - Depth(o))
    && (o.Inside? ==> GoodTag(o.tag) && WellFormedOpen(o.up))
  }

  /** The same without the limit on targets. */
  predicate Nested(f: Forest, room: nat) {
    match f
    case Nil => true
    case Snoc(front, last) =>
      && Nested(front, room)
      && (last.Element? ==> room > 0 && SafeTag(last.tag) && Nested(last.kids, room - 1))
  }

  /** The limit on targets. */
  predicate Short(f: Forest) {
    match f
    case Nil => true
    case Snoc(front, last) =>
      Short(front) && (last.Element? ==> |last.tag.href| < HREF_CAP && Short(last.kids))
  }

  lemma {:induction false} NestedAndShort(f: Forest, room: nat)
    ensures WellFormed(f, room) <==> Nested(f, room) && Short(f)
  {
    hide SafeHref;
    match f
    case Nil =>
    case Snoc(front, last) =>
      NestedAndShort(front, room);
      if last.Element? && room > 0 { NestedAndShort(last.kids, room - 1); }
  }

  /** A prefix without NULs survives the cut at the first NUL. */
  lemma CStringPrefix(v: string, n: nat)
    requires n <= |v| && forall i | 0 <= i < n :: v[i] != '\0'
    ensures n <= |CString(v)| && CString(v)[..n] == v[..n]
  {
  }

  lemma SchemeSurvives(v: string, k: nat, lit: string)
    requires k <= |v| && (forall i | 0 <= i < k :: v[i] != '\0') && '\0' !in lit
    requires StartsCi(v[k..], lit)
    ensures k <= |CString(v)| && StartsCi(CString(v)[k..], lit)
  {
    var n := k + |lit|;
    forall i | 0 <= i < n ensures v[i] != '\0' {
      if i >= k {
        assert v[i] == v[k..][..|lit|][i - k];
        assert Lower(v[i]) == lit[i - k] && lit[i - k] in lit;
      }
    }
    CStringPrefix(v, n);
    var w := CString(v);
    assert w[k..][..|lit|] == w[..n][k..] == v[..n][k..] == v[k..][..|lit|];
  }

  lemma CStringKeepsSafety(v: string)
    requires HrefSafe(v)
    ensures HrefSafe(CString(v)) && '\0' !in CString(v) && |CString(v)| <= |v|
  {
    var w := CString(v);
    var k := Blank(v);
    assert forall i | 0 <= i < k :: IsSpace(v[i]);
    if v[k] == '#' {
      CStringPrefix(v, k + 1);
      assert w[k] == w[..k + 1][k];
    } else if StartsCi(v[k..], "http://") {
      SchemeSurvives(v, k, "http://");
    } else if StartsCi(v[k..], "https://") {
      SchemeSurvives(v, k, "https://");
    } else {
      SchemeSurvives(v, k, "mailto:");
    }
    assert forall i | 0 <= i < k && i < |w| :: w[i] == v[i];
    assert k < |w| && !IsSpace(w[k]) by { assert w[k] == v[k]; }
    SpanIs(IsSpace, w, k);
  }

  lemma ValueTurnGood(name: string, y: string, href: string)
    requires href == "" || GoodHref(href)
    ensures var s := ValueTurn(name, y, href); s.href == "" || GoodHref(s.href)
  {
    hide ValueLen, Value, HrefSafe, CString;
    if y != [] && HrefSafe(Value(y)) { CStringKeepsSafety(Value(y)); }
  }

  lemma HrefTurnGood(t: string, href: string)
    requires href == "" || GoodHref(href)
    ensures var s := HrefTurn(t, href); s.href == "" || GoodHref(s.href)
  {
    hide ValueTurn, HrefSafe, Span;
    var v := SkipBlank(t);
    var n := Span(IsAttrNameChar, v);
    var x := SkipBlank(v[n..]);
    if x != [] { ValueTurnGood(v[..n], SkipBlank(x[1..]), href); }
  }

  lemma {:induction false} HrefLoopGood(t: string, href: string)
    requires href == "" || GoodHref(href)
    ensures var r := HrefLoop(t, href); r.Some? && r.value != "" ==> GoodHref(r.value)
    decreases |t|
  {
    hide HrefTurn, GoodHref;
    HrefTurnGood(t, href);
    var s := HrefTurn(t, href);
    if s.Scanning? && |s.rest| < |t| { HrefLoopGood(s.rest, s.href); }
  }

  lemma LeafAppended(o: Open, n: Node)
    requires WellFormedOpen(o) && !n.Element?
    ensures WellFormedOpen(Append(o, n))
  {
    hide GoodTag, PrintOpen, PrintNode;
  }

  lemma TagPushed(o: Open, tag: Tag)
    requires WellFormedOpen(o) && Depth(o) < MAX_DEPTH && GoodTag(tag)
    ensures WellFormedOpen(Push(o, tag))
  {
    hide GoodTag, PrintOpen, OpenTag;
  }

  lemma TagPopped(o: Open)
    requires WellFormedOpen(o) && o.Inside?
    ensures WellFormedOpen(Pop(o))
  {
    hide GoodTag, PrintOpen, PrintNode, CloseTag;
  }

  lemma ApplyWellFormed(o: Open, tok: Token)
    requires WellFormedOpen(o) && (tok.Start? || tok.End? ==> tok.tid != BR)
    ensures WellFormedOpen(Apply(o, tok).open)
  {
    hide GoodHref, HrefLoop, SkipBlank, PrintOpen, WellFormedOpen, Append, Push, Pop;
    match tok
    case Start(tid, inner) =>
      if tid == A { HrefLoopGood(SkipBlank(inner), ""); }
      var href := if tid == A && FindHref(inner).Some? then FindHref(inner).value else "";
      if Depth(o) < MAX_DEPTH && GoodTag(Tag(tid, href)) { TagPushed(o, Tag(tid, href)); }
    case End(tid) => if o.Inside? { TagPopped(o); }
    case Char(c) => LeafAppended(o, Text(c));
    case Break => LeafAppended(o, LineBreak);
    case Skip =>
  }

  lemma {:induction false} SanitizeWellFormed(t: string, o: Open)
    requires WellFormedOpen(o)
    ensures WellFormedOpen(Sanitize(t, o).open)
    decreases |t|
  {
    if t != [] {
      var (tok, n) := NextToken(t);
      ApplyWellFormed(o, tok);
      var s := Apply(o, tok);
      if s.Running? { SanitizeWellFormed(t[n..], s.open); }
    }
  }

  lemma {:induction false} CloseAllWellFormed(o: Open)
    requires WellFormedOpen(o)
    ensures WellFormed(CloseAll(o), MAX_DEPTH)
    decreases Depth(o)
  {
    if o.Inside? { CloseAllWellFormed(Pop(o)); }
  }

  // ---------------------------------------------------------------- the output language

  predicate StartsWith(s: string, lit: string) { |lit| <= |s| && s[..|lit|] == lit }

  /** The length of the entity at the head of `s`, 0 if there is none. */
  function EntityLen(s: string): (n: nat)
    ensures n <= |s|
  {
    if StartsWith(s, "&amp;") then 5
    else if StartsWith(s, "&lt;") then 4
    else if StartsWith(s, "&gt;") then 4
    else if StartsWith(s, "&quot;") then 6
    else 0
  }

  function Decode(s: string): string
    decreases |s|
  {
    if s == [] then []
    else if StartsWith(s, "&amp;") then ['&'] + Decode(s[5..])
    else if StartsWith(s, "&lt;") then ['<'] + Decode(s[4..])
    else if StartsWith(s, "&gt;") then ['>'] + Decode(s[4..])
    else if StartsWith(s, "&quot;") then ['"'] + Decode(s[6..])
    else [s[0]] + Decode(s[1..])
  }

  /** One piece of output: text, `<br>`, an opening or a closing tag, or nothing allowed. */
  datatype Mark = Plain | BreakMark | OpenMark(tid: Tid) | CloseMark(tid: Tid) | Bad

  /** A lower-case name followed by `>`. */
  function ReadName(s: string): Option<Tid> {
    var n := Span(IsTagNameChar, s);
    var name := s[..n];
    if n < |s| && s[n] == '>' && LowerAll(name) == name && Classify(name) != Some(BR) then Classify(name) else None
  }

  /** The length of a good quoted target followed by `>`, 0 if there is none. */
  function ReadTarget(s: string): (n: nat)
    ensures n <= |s|
  {
    var n := Upto('"', s);
    if n + 2 <= |s| && s[n] == '"' && s[n + 1] == '>' && '<' !in s[..n] && '>' !in s[..n] && GoodHref(Decode(s[..n]))
    then n + 2 else 0
  }

  function ReadMark(s: string): (r: (Mark, nat))
    requires s != []
    ensures 1 <= r.1 <= |s|
  {
    if s[0] == '<' then
      if StartsWith(s, "<br>") then (BreakMark, 4)
      else if StartsWith(s, "</") then
        var tid := ReadName(s[2..]);
        if tid.Some? then (CloseMark(tid.value), 3 + Span(IsTagNameChar, s[2..])) else (Bad, 1)
      else if StartsWith(s, "<a href=\"") then
        var n := ReadTarget(s[9..]);
        if n > 0 then (OpenMark(A), 9 + n) else (Bad, 1)
      else
        var tid := ReadName(s[1..]);
        if tid.Some? && tid.value != A then (OpenMark(tid.value), 2 + Span(IsTagNameChar, s[1..])) else (Bad, 1)
    else if s[0] == '&' then if EntityLen(s) > 0 then (Plain, EntityLen(s)) else (Bad, 1)
    else if s[0] == '>' || s[0] == '"' then (Bad, 1)
    else (Plain, 1)
  }

  /**
  The output language: escaped text, `<br>`, and properly nested tags at most 64 deep, the only
  attribute being an `href` whose decoded value is a safe target that fits the buffer.  `stack` holds the open tags.
  */
  predicate Accepts(s: string, stack: seq<Tid>)
    decreases |s|
  {
    if s == [] then stack == []
    else
      var (mark, n) := ReadMark(s);
      match mark
      case Plain => Accepts(s[n..], stack)
      case BreakMark => Accepts(s[n..], stack)
      case OpenMark(tid) => |stack| < MAX_DEPTH && Accepts(s[n..], stack + [tid])
      case CloseMark(tid) =>
        stack != [] && stack[|stack| - 1] == tid && Accepts(s[n..], stack[..|stack| - 1])
      case Bad => false
  }

  // ---------------------------------------------------------------- escaping and decoding

  lemma {:induction false} EscapeAllConcat(a: string, b: string)
    ensures EscapeAll(a + b) == EscapeAll(a) + EscapeAll(b)
  {
    if b == [] {
      assert a + b == a;
    } else {
      var b' := b[..|b| - 1];
      var e := Escape(b[|b| - 1]);
      assert (a + b)[..|a + b| - 1] == a + b' && (a + b)[|a + b| - 1] == b[|b| - 1];
      EscapeAllConcat(a, b');
      assert EscapeAll(a) + EscapeAll(b') + e == EscapeAll(a) + (EscapeAll(b') + e);
    }
  }

  lemma DecodeEscape(c: char, r: string)
    ensures Decode(Escape(c) + r) == [c] + Decode(r)
  {
    var s := Escape(c) + r;
    assert s[|Escape(c)|..] == r;
    assert s[..|Escape(c)|] == Escape(c);
    assert s[0] == Escape(c)[0];
    if c != '&' && |s| >= 4 { assert s[..4][0] == s[0]; }
    if |s| >= 5 { assert s[..5][0] == s[0] && s[..5][1] == s[1]; }
    if |s| >= 6 { assert s[..6][0] == s[0]; }
    if |s| >= 4 { assert s[..4][1] == s[1]; }
  }

  /** Escaping loses nothing: decoding the four entities gives the text back. */
  lemma {:induction false} DecodeEscapeAll(s: string)
    ensures Decode(EscapeAll(s)) == s
  {
    if s != [] {
      EscapeAllConcat([s[0]], s[1..]);
      assert [s[0]] + s[1..] == s;
      assert EscapeAll([s[0]]) == EscapeAll([s[0]][..0]) + Escape(s[0]) == Escape(s[0]);
      DecodeEscape(s[0], EscapeAll(s[1..]));
      DecodeEscapeAll(s[1..]);
    }
  }

  lemma {:induction false} EscapeAllClean(s: string)
    ensures forall c | c in EscapeAll(s) :: c != '<' && c != '>' && c != '"'
  {
    if s != [] {
      EscapeAllClean(s[..|s| - 1]);
    }
  }

  // ---------------------------------------------------------------- printed trees are accepted

  lemma Differs(s: string, lit: string, i: nat)
    requires i < |lit| && i < |s| && s[i] != lit[i]
    ensures !StartsWith(s, lit)
  {
  }

  lemma ReadsText(c: char, rest: string)
    ensures ReadMark(Escape(c) + rest) == (Plain, |Escape(c)|)
  {
    var s := Escape(c) + rest;
    assert s[..|Escape(c)|] == Escape(c) && s[0] == Escape(c)[0];
    if c == '<' || c == '>' || c == '"' { Differs(s, "&amp;", 1); }
    if c == '>' || c == '"' { Differs(s, "&lt;", 1); }
    if c == '"' { Differs(s, "&gt;", 1); }
  }

  lemma ReadsName(tid: Tid, rest: string)
    requires tid != BR
    ensures var s := TagName(tid) + ">" + rest;
      ReadName(s) == Some(tid) && Span(IsTagNameChar, s) == |TagName(tid)|
  {
    var name := TagName(tid);
    var s := name + ">" + rest;
    assert s[..|name|] == name && s[|name|] == '>';
    SpanIs(IsTagNameChar, s, |name|);
    assert LowerAll(name) == name;
  }

  lemma ReadsLink(href: string, rest: string)
    requires SafeHref(href)
    ensures var tag := OpenTag(Tag(A, href));
      ReadMark(tag + rest) == if |href| < HREF_CAP then (OpenMark(A), |tag|) else (Bad, 1)
  {
    hide EscapeAll, SafeHref, Decode;
    var e := EscapeAll(href);
    var v := e + "\">" + rest;
    var s := OpenTag(Tag(A, href)) + rest;
    assert s == "<a href=\"" + v;
    assert s[..9] == "<a href=\"" && s[9..] == v;
    Differs(s, "<br>", 1);
    Differs(s, "</", 1);
    EscapeAllClean(href);
    assert v[..|e|] == e;
    UptoIs('"', v, |e|);
    DecodeEscapeAll(href);
  }

  lemma ReadsPlain(tid: Tid, rest: string)
    requires tid != A && tid != BR
    ensures var tag := OpenTag(Tag(tid, "")); ReadMark(tag + rest) == (OpenMark(tid), |tag|)
  {
    var s := OpenTag(Tag(tid, "")) + rest;
    assert s[1..] == TagName(tid) + ">" + rest && s[1] == TagName(tid)[0];
    Differs(s, "<br>", if tid == B then 2 else 1);
    Differs(s, "</", 1);
    Differs(s, "<a href=\"", 1);
    ReadsName(tid, rest);
  }

  lemma ReadsBreak(rest: string)
    ensures ReadMark("<br>" + rest) == (BreakMark, 4)
  {
    assert ("<br>" + rest)[..4] == "<br>";
  }

  lemma ReadsClose(tag: Tag, rest: string)
    requires tag.tid != BR
    ensures ReadMark(CloseTag(tag) + rest) == (CloseMark(tag.tid), |CloseTag(tag)|)
  {
    var s := CloseTag(tag) + rest;
    assert s[..2] == "</" && s[2..] == TagName(tag.tid) + ">" + rest;
    Differs(s, "<br>", 1);
    ReadsName(tag.tid, rest);
  }

  lemma GoodTagIsSafe(tag: Tag)
    requires GoodTag(tag)
    ensures SafeTag(tag) && tag.tid != BR
  {
  }

  lemma SafeTagNotBreak(tag: Tag)
    requires SafeTag(tag)
    ensures tag.tid != BR
  {
  }

  lemma AcceptsOpenTag(tag: Tag, rest: string, stack: seq<Tid>)
    requires SafeTag(tag) && |stack| < MAX_DEPTH
    ensures Accepts(OpenTag(tag) + rest, stack) == (|tag.href| < HREF_CAP && Accepts(rest, stack + [tag.tid]))
  {
    hide ReadMark, EscapeAll, SafeHref;
    if tag.tid == A { ReadsLink(tag.href, rest); } else { ReadsPlain(tag.tid, rest); }
    assert (OpenTag(tag) + rest)[|OpenTag(tag)|..] == rest;
  }

  lemma AcceptsCloseTag(tag: Tag, rest: string, stack: seq<Tid>)
    requires tag.tid != BR
    ensures Accepts(CloseTag(tag) + rest, stack + [tag.tid]) == Accepts(rest, stack)
  {
    hide ReadMark;
    ReadsClose(tag, rest);
    assert (CloseTag(tag) + rest)[|CloseTag(tag)|..] == rest && (stack + [tag.tid])[..|stack|] == stack;
  }

  lemma AcceptsText(c: char, rest: string, stack: seq<Tid>)
    ensures Accepts(Escape(c) + rest, stack) == Accepts(rest, stack)
  {
    hide ReadMark;
    ReadsText(c, rest);
    assert (Escape(c) + rest)[|Escape(c)|..] == rest;
  }

  lemma AcceptsBreak(rest: string, stack: seq<Tid>)
    ensures Accepts("<br>" + rest, stack) == Accepts(rest, stack)
  {
    hide ReadMark;
    ReadsBreak(rest);
    assert ("<br>" + rest)[4..] == rest;
  }

  lemma {:induction false} AcceptsNode(n: Node, rest: string, stack: seq<Tid>)
    requires |stack| <= MAX_DEPTH && Nested(Snoc(Nil, n), MAX_DEPTH - |stack|)
    ensures Accepts(PrintNode(n) + rest, stack) == (Short(Snoc(Nil, n)) && Accepts(rest, stack))
    decreases n
  {
    hide Accepts, SafeTag, OpenTag, CloseTag;
    match n
    case Text(c) => AcceptsText(c, rest, stack);
    case LineBreak => AcceptsBreak(rest, stack);
    case Element(tag, kids) =>
      var tail := CloseTag(tag) + rest;
      assert PrintNode(n) + rest == OpenTag(tag) + (Print(kids) + tail);
      AcceptsOpenTag(tag, Print(kids) + tail, stack);
      AcceptsForest(kids, tail, stack + [tag.tid]);
      assert tag.tid != BR by { SafeTagNotBreak(tag); }
      AcceptsCloseTag(tag, rest, stack);
  }

  /** A printed tree is in the language exactly when its targets are short. */
  lemma {:induction false} AcceptsForest(f: Forest, rest: string, stack: seq<Tid>)
    requires |stack| <= MAX_DEPTH && Nested(f, MAX_DEPTH - |stack|)
    ensures Accepts(Print(f) + rest, stack) == (Short(f) && Accepts(rest, stack))
    decreases f
  {
    hide Accepts, PrintNode;
    match f
    case Nil => assert Print(f) + rest == rest;
    case Snoc(front, last) =>
      assert Print(f) + rest == Print(front) + (PrintNode(last) + rest);
      AcceptsForest(front, PrintNode(last) + rest, stack);
      AcceptsNode(last, rest, stack);
  }

  /** Whatever the sanitizer returns is in the output language. */
  lemma OutputInGrammar(input: string, max: nat)
    ensures var r := SanitizeOutcome(input, max); r.Accepted? ==> Accepts(r.text, []) && Fits(r.text, max)
  {
    var o := Sanitize(input, Top(Nil)).open;
    SanitizeWellFormed(input, Top(Nil));
    CloseAllWellFormed(o);
    NestedAndShort(CloseAll(o), MAX_DEPTH);
    AcceptsForest(CloseAll(o), "", []);
    assert Print(CloseAll(o)) + "" == Print(CloseAll(o));
  }
}
