/**
What the sanitizer does with each piece of markup, spelled out: which names are dropped with their
content, which are dropped alone, which are kept, and how.
*/
module HtmlRules {
  import opened Ascii
  import opened HtmlScan
  import opened HtmlTree
  import opened HtmlSpec
  import opened HtmlGrammar
  import opened HtmlBoundary
  import opened HtmlErasure
  import opened HtmlRoundTrip

  // ---------------------------------------------------------------- tags as they are written

  predicate WordChar(c: char) {
    'a' <= c <= 'z' || 'A' <= c <= 'Z' || '0' <= c <= '9' || c == '-' || c == ':'
  }

  predicate Word(w: string) { w != "" && forall c | c in w :: WordChar(c) }

  predicate Blanks(s: string) {
    forall c | c in s :: c == ' ' || c == '\t' || c == '\n' || c == '\U{0B}' || c == '\U{0C}' || c == '\r'
  }

  /** What follows the name up to and including the `>` that ends the tag. */
  predicate Attrs(s: string) { s != "" && !WordChar(s[0]) && CompleteTag(s, Unquoted) }

  predicate Written(blanks: string, word: string, attrs: string) { Blanks(blanks) && Word(word) && Attrs(attrs) }

  /** Seventeen names are dropped together with what they enclose. */
  predicate Forbidden(word: string) {
    var n := LowerAll(word);
    || n == "script" || n == "style" || n == "iframe" || n == "img" || n == "video" || n == "audio"
    || n == "object" || n == "embed" || n == "link" || n == "meta" || n == "base" || n == "form"
    || n == "input" || n == "textarea" || n == "button" || n == "svg" || n == "math"
  }

  /** Eight names are kept without attributes. */
  predicate Plain(word: string) {
    var n := LowerAll(word);
    n == "b" || n == "i" || n == "u" || n == "p" || n == "ul" || n == "ol" || n == "li" || n == "span"
  }

  predicate Known(word: string) { Plain(word) || LowerAll(word) == "br" || LowerAll(word) == "a" }

  lemma ForbiddenExactly(word: string)
    ensures IsDangerous(word) <==> Forbidden(word)
  {
    hide LowerAll;
    DangerousIsList(LowerAll(word));
  }

  lemma DangerousIsList(n: string)
    ensures n in DANGEROUS <==>
            || n == "script" || n == "style" || n == "iframe" || n == "img" || n == "video" || n == "audio"
            || n == "object" || n == "embed" || n == "link" || n == "meta" || n == "base" || n == "form"
            || n == "input" || n == "textarea" || n == "button" || n == "svg" || n == "math"
  {
  }

  lemma KnownExactly(word: string)
    ensures Classify(word).Some? <==> Known(word)
    ensures Plain(word) ==> Classify(word).value != BR && Classify(word).value != A
    ensures LowerAll(word) == "br" ==> Classify(word) == Some(BR)
    ensures LowerAll(word) == "a" ==> Classify(word) == Some(A)
  {
  }

  /** How a plain tag is written back. */
  lemma PlainIsWritten(word: string)
    requires Plain(word)
    ensures Classify(word).Some?
    ensures var tag := Tag(Classify(word).value, "");
      OpenTag(tag) == "<" + LowerAll(word) + ">" && CloseTag(tag) == "</" + LowerAll(word) + ">"
  {
    KnownExactly(word);
  }

  // ---------------------------------------------------------------- reading a tag

  lemma BlanksAreSpan(blanks: string, x: string)
    requires Blanks(blanks) && x != "" && !IsSpace(x[0])
    ensures Blank(blanks + x) == |blanks| && SkipBlank(blanks + x) == x
  {
    var t := blanks + x;
    assert forall i | 0 <= i < |blanks| :: t[i] == blanks[i] && blanks[i] in blanks;
    SpanIs(IsSpace, t, |blanks|);
  }

  lemma WordIsSpan(word: string, x: string)
    requires Word(word) && x != "" && !WordChar(x[0])
    ensures Span(IsTagNameChar, word + x) == |word| && (word + x)[..|word|] == word && !IsSpace((word + x)[0])
  {
    var t := word + x;
    assert forall i | 0 <= i < |word| :: t[i] == word[i] && word[i] in word;
    SpanIs(IsTagNameChar, t, |word|);
  }

  /** The name behind `k` characters of a tag, and the length of the tag. */
  lemma ReadsTag(head: string, blanks: string, word: string, attrs: string, rest: string)
    requires (head == "<" || head == "</") && Written(blanks, word, attrs)
    ensures var t := head + blanks + word + attrs + rest; var k := |head|;
      && t != "" && NameBehind(t, k) == word && NameEnd(t, k) == k + |blanks| + |word|
      && TagLen(t, Unquoted) == k + |blanks| + |word| + |attrs|
      && t[k + |blanks| + |word| + |attrs|..] == rest
  {
    hide Span, TagLen, CompleteTag;
    var t, k := head + blanks + word + attrs + rest, |head|;
    var x := attrs + rest;
    assert t[k..] == blanks + (word + x);
    WordIsSpan(word, x);
    BlanksAreSpan(blanks, word + x);
    var e := k + |blanks| + |word|;
    forall i | 0 <= i < e ensures t[i] != '>' && t[i] != '"' && t[i] != '\'' {
      if i >= k + |blanks| { assert t[i] == word[i - k - |blanks|] && t[i] in word; }
      else if i >= k { assert t[i] == blanks[i - k] && t[i] in blanks; }
      else { assert t[i] == head[i]; }
    }
    TagLenPasses(t, e);
    assert t[e..] == x;
    CompleteTagLen(attrs, Unquoted, rest);
  }

  lemma OpensTag(blanks: string, word: string, attrs: string, rest: string)
    requires Written(blanks, word, attrs)
    ensures var t := "<" + blanks + word + attrs + rest; var n := 1 + |blanks| + |word| + |attrs|;
      NextToken(t) == OpenToken(t, word, 1 + |blanks| + |word|, n) && t[n..] == rest
  {
    hide NextToken, OpenToken, CloseToken, NameBehind, NameEnd, TagLen, CommentLen, CompleteTag;
    var t := "<" + blanks + word + attrs + rest;
    ReadsTag("<", blanks, word, attrs, rest);
    TokenIs(t);
    assert t[1] == if blanks == "" then word[0] else blanks[0];
    assert blanks != "" ==> blanks[0] in blanks;
    assert word[0] in word;
  }

  lemma ClosesTag(blanks: string, word: string, attrs: string, rest: string)
    requires Written(blanks, word, attrs)
    ensures var t := "</" + blanks + word + attrs + rest; var n := 2 + |blanks| + |word| + |attrs|;
      NextToken(t) == CloseToken(word, n) && t[n..] == rest
  {
    hide NextToken, OpenToken, CloseToken, NameBehind, NameEnd, TagLen, CommentLen, CompleteTag;
    var t := "</" + blanks + word + attrs + rest;
    ReadsTag("</", blanks, word, attrs, rest);
    TokenIs(t);
  }

  // ---------------------------------------------------------------- names that are not kept

  /** `</name` in any case, at `i`. */
  predicate ClosesAt(body: string, i: nat, name: string) {
    i + 2 + |name| <= |body| && LowerAll(body[i..i + 2 + |name|]) == "</" + name
  }

  predicate NoClosing(body: string, name: string) { forall i | 0 <= i < |body| :: !ClosesAt(body, i, name) }

  lemma ClosingAt(body: string, i: nat, name: string)
    requires i < |body|
    ensures IsCloseTag(body[i..], name) ==> ClosesAt(body, i, name)
  {
    var t, n := body[i..], 2 + |name|;
    if IsCloseTag(t, name) {
      assert t[..n] == body[i..i + n];
      forall j | 0 <= j < n ensures LowerAll(t[..n])[j] == ("</" + name)[j] {
        assert j >= 2 ==> LowerAll(t[2..n])[j - 2] == Lower(t[j]) == name[j - 2];
      }
      assert LowerAll(t[..n]) == "</" + name;
    }
  }

  lemma NoClosingHolds(body: string, name: string)
    requires NoClosing(body, name)
    ensures HoldsNoClose(body, name)
  {
    hide IsCloseTag, ClosesAt;
    forall i | 0 <= i < |body| ensures !IsCloseTag(body[i..], name) {
      ClosingAt(body, i, name);
      assert !ClosesAt(body, i, name);
    }
  }

  /**
  A forbidden element, in any case and with any attributes, contributes nothing at any point of any
  scan, and neither does what it encloses.
  */
  lemma ForbiddenElement(blanks: string, word: string, attrs: string, body: string,
                         closing: string, closingAttrs: string, rest: string, o: Open)
    requires Written(blanks, word, attrs) && Written("", closing, closingAttrs)
    requires Forbidden(word) && LowerAll(closing) == LowerAll(word) && NoClosing(body, LowerAll(word))
    ensures Sanitize("<" + blanks + word + attrs + body + ("</" + closing + closingAttrs) + rest, o) ==
            Sanitize(rest, o)
  {
    hide Sanitize, Forbidden, CompleteTag, HoldsNoClose, NoClosing, IsDangerous, IsCloseTag, LowerAll, NameOf;
    var open, close := "<" + blanks + word + attrs, "</" + closing + closingAttrs;
    ForbiddenExactly(word);
    NoClosingHolds(body, LowerAll(word));
    WrittenIsComplete("<", blanks, word, attrs);
    WrittenIsComplete("</", "", closing, closingAttrs);
    assert "</" + "" + closing + closingAttrs == close;
    NameWritten(blanks, word, attrs);
    ClosingWritten(closing, closingAttrs);
    Erasure(open, body, close, rest, o);
  }

  lemma {:induction false} PassesUnquoted(a: string, b: string)
    requires forall c | c in a :: c != '>' && c != '"' && c != '\''
    ensures CompleteTag(a + b, Unquoted) == CompleteTag(b, Unquoted)
  {
    if a == "" {
      assert a + b == b;
    } else {
      assert a[0] in a && (a + b)[1..] == a[1..] + b;
      assert forall c | c in a[1..] :: c in a;
      PassesUnquoted(a[1..], b);
    }
  }

  lemma WrittenIsComplete(head: string, blanks: string, word: string, attrs: string)
    requires (head == "<" || head == "</") && Written(blanks, word, attrs)
    ensures CompleteTag(head + blanks + word + attrs, Unquoted)
  {
    PassesUnquoted(head + blanks + word, attrs);
  }

  lemma NameWritten(blanks: string, word: string, attrs: string)
    requires Written(blanks, word, attrs)
    ensures NameOf("<" + blanks + word + attrs) == word
  {
    hide Span, CompleteTag;
    var t := "<" + blanks + word + attrs;
    assert t[1..] == blanks + (word + attrs);
    WordIsSpan(word, attrs);
    BlanksAreSpan(blanks, word + attrs);
  }

  lemma ClosingWritten(word: string, attrs: string)
    requires Word(word) && Attrs(attrs)
    ensures IsCloseTag("</" + word + attrs, LowerAll(word))
  {
    var t := "</" + word + attrs;
    assert t[2..2 + |word|] == word && t[2 + |word|] == attrs[0];
  }

  /** Without a closing tag, everything behind a forbidden tag is dropped. */
  lemma ForbiddenToTheEnd(blanks: string, word: string, attrs: string, body: string, o: Open)
    requires Written(blanks, word, attrs) && Forbidden(word) && NoClosing(body, LowerAll(word))
    ensures Sanitize("<" + blanks + word + attrs + body, o) == Running(o)
  {
    hide NextToken, Forbidden, NoClosing, FindClose, TagLen, LowerAll, IsDangerous, PrintOpen, HoldsNoClose;
    var t := "<" + blanks + word + attrs + body;
    var n := 1 + |blanks| + |word| + |attrs|;
    ForbiddenExactly(word);
    NoClosingHolds(body, LowerAll(word));
    ReadsTag("<", blanks, word, attrs, body);
    OpensTag(blanks, word, attrs, body);
    OpenTokenLen(t, word, 1 + |blanks| + |word|, n);
    NothingFound(body, LowerAll(word));
    assert t[n + |body|..] == "";
    assert TagLen("", Unquoted) == 0 by { NoTag(); }
    assert DangerLen(t, LowerAll(word)) == |t|;
    DangerSkips(t, word, 1 + |blanks| + |word|, n);
    assert t[|t|..] == "";
  }

  lemma DangerSkips(t: string, word: string, e: nat, n: nat)
    requires t != "" && n <= |t| && word != "" && IsDangerous(word)
    ensures OpenToken(t, word, e, n) == (Skip, DangerLen(t, LowerAll(word)))
  {
    hide DangerLen, IsDangerous, LowerAll, Classify;
  }

  lemma NoTag()
    ensures TagLen("", Unquoted) == 0
  {
  }

  lemma NothingFound(body: string, name: string)
    requires HoldsNoClose(body, name)
    ensures FindClose(body, name) == |body|
  {
    FindCloseIs(body, name, |body|);
  }

  /** A tag with any other name is dropped alone; what it encloses stays. */
  lemma OtherTag(blanks: string, word: string, attrs: string, rest: string, o: Open)
    requires Written(blanks, word, attrs) && !Forbidden(word) && !Known(word)
    ensures Sanitize("<" + blanks + word + attrs + rest, o) == Sanitize(rest, o)
  {
    hide NextToken, Sanitize, Forbidden, Known, Plain, Written, IsDangerous, Classify, PrintOpen;
    var t := "<" + blanks + word + attrs + rest;
    var n := 1 + |blanks| + |word| + |attrs|;
    ForbiddenExactly(word);
    KnownExactly(word);
    OpensTag(blanks, word, attrs, rest);
    assert word != "" by { WordsAreNotEmpty(blanks, word, attrs); }
    Takes(t, o, Skip, n, rest);
  }

  lemma WordsAreNotEmpty(blanks: string, word: string, attrs: string)
    requires Written(blanks, word, attrs)
    ensures word != ""
  {
  }

  // ---------------------------------------------------------------- names that are kept

  /** An opening tag with a plain name: written back in lower case without attributes, at most 64 deep. */
  lemma PlainTag(blanks: string, word: string, attrs: string, rest: string, o: Open)
    requires Written(blanks, word, attrs) && Plain(word)
    ensures Classify(word).Some?
    ensures var tag := Tag(Classify(word).value, "");
      && Sanitize("<" + blanks + word + attrs + rest, o) == Sanitize(rest, if Depth(o) < 64 then Push(o, tag) else o)
      && OpenTag(tag) == "<" + LowerAll(word) + ">" && CloseTag(tag) == "</" + LowerAll(word) + ">"
  {
    hide NextToken, Sanitize, Forbidden, Plain, Written, IsDangerous, Classify, PrintOpen, OpenTag, CloseTag, LowerAll;
    var t := "<" + blanks + word + attrs + rest;
    var e, n := 1 + |blanks| + |word|, 1 + |blanks| + |word| + |attrs|;
    ForbiddenExactly(word);
    PlainNotForbidden(word);
    KnownExactly(word);
    PlainIsWritten(word);
    OpensTag(blanks, word, attrs, rest);
    assert word != "" by { WordsAreNotEmpty(blanks, word, attrs); }
    var tid := Classify(word).value;
    var inner := if e <= n then t[e..n] else "";
    assert NextToken(t) == (Start(tid, inner), n);
    Takes(t, o, Start(tid, inner), n, rest);
  }

  lemma PlainNotForbidden(word: string)
    ensures Known(word) ==> !Forbidden(word)
  {
    var n := LowerAll(word);
    assert Known(word) ==> |n| <= 2 || n == "span";
  }

  lemma BreakTag(blanks: string, word: string, attrs: string, rest: string, o: Open)
    requires Written(blanks, word, attrs) && LowerAll(word) == "br"
    ensures Sanitize("<" + blanks + word + attrs + rest, o) == Sanitize(rest, Append(o, LineBreak))
    ensures PrintNode(LineBreak) == "<br>"
  {
    hide NextToken, Sanitize, Forbidden, Written, IsDangerous, Classify, PrintOpen, LowerAll;
    ForbiddenExactly(word);
    PlainNotForbidden(word);
    KnownExactly(word);
    OpensTag(blanks, word, attrs, rest);
    assert word != "" by { WordsAreNotEmpty(blanks, word, attrs); }
    Takes("<" + blanks + word + attrs + rest, o, Break, 1 + |blanks| + |word| + |attrs|, rest);
  }

  /**
  A closing tag closes the innermost open element if it is of that name; any other closing tag is
  dropped, `</br>` and those of forbidden and unknown names included.
  */
  lemma ClosingTag(blanks: string, word: string, attrs: string, rest: string, o: Open)
    requires Written(blanks, word, attrs) && (o.Inside? ==> o.tag.tid != BR)
    ensures Sanitize("</" + blanks + word + attrs + rest, o) ==
            Sanitize(rest, if o.Inside? && CloseTag(o.tag) == "</" + LowerAll(word) + ">" then Pop(o) else o)
  {
    hide NextToken, Sanitize, Written, Classify, PrintOpen, CloseTag, LowerAll;
    ClosesTag(blanks, word, attrs, rest);
    assert word != "" by { WordsAreNotEmpty(blanks, word, attrs); }
    var t, n := "</" + blanks + word + attrs + rest, 2 + |blanks| + |word| + |attrs|;
    if o.Inside? { ClosesExactly(word, o.tag); }
    Takes(t, o, NextToken(t).0, n, rest);
  }

  lemma ClosesExactly(word: string, tag: Tag)
    requires tag.tid != BR
    ensures CloseTag(tag) == "</" + LowerAll(word) + ">" <==> Classify(word) == Some(tag.tid)
  {
    var s := "</" + LowerAll(word) + ">";
    assert s[2..|s| - 1] == LowerAll(word);
    assert CloseTag(tag)[2..|CloseTag(tag)| - 1] == TagName(tag.tid);
  }

  // ---------------------------------------------------------------- text, comments, declarations

  /** One character of text, with the four escapes. */
  lemma TextChar(c: char, rest: string, o: Open)
    requires c != '<'
    ensures Sanitize([c] + rest, o) == Sanitize(rest, Append(o, Text(c)))
    ensures PrintNode(Text('&')) == "&amp;" && PrintNode(Text('<')) == "&lt;" && PrintNode(Text('>')) == "&gt;"
    ensures PrintNode(Text('"')) == "&quot;"
    ensures c != '&' && c != '>' && c != '"' ==> PrintNode(Text(c)) == [c]
  {
    hide Sanitize, PrintOpen;
    TakesText(c, rest, o);
  }

  /** A `<` that no name follows is text. */
  lemma LoneOpening(blanks: string, rest: string, o: Open)
    requires Blanks(blanks) && (rest == "" || (!WordChar(rest[0]) && !IsSpace(rest[0])))
    requires blanks != "" || rest == "" || (rest[0] != '!' && rest[0] != '?' && rest[0] != '/')
    ensures Sanitize("<" + blanks + rest, o) == Sanitize(blanks + rest, Append(o, Text('<')))
  {
    hide Sanitize, PrintOpen, NextToken, Span, TagLen, NameEnd;
    var t := "<" + blanks + rest;
    assert t[1..] == blanks + rest;
    NoNameThere(blanks, rest);
    assert NameBehind(t, 1) == "";
    assert blanks != "" ==> blanks[0] in blanks;
    TokenIs(t);
    assert NextToken(t) == (Char('<'), 1);
    Takes(t, o, Char('<'), 1, blanks + rest);
  }

  lemma NoNameThere(blanks: string, rest: string)
    requires Blanks(blanks) && (rest == "" || (!WordChar(rest[0]) && !IsSpace(rest[0])))
    ensures var v := SkipBlank(blanks + rest); Span(IsTagNameChar, v) == 0
  {
    if rest == "" {
      assert blanks + rest == blanks;
      assert forall i | 0 <= i < |blanks| :: blanks[i] in blanks;
      SpanIs(IsSpace, blanks, |blanks|);
    } else {
      BlanksAreSpan(blanks, rest);
    }
  }

  /** A comment is dropped up to its first `-->`. */
  lemma Comment(body: string, rest: string, o: Open)
    requires FirstMatch(body + "-->", "-->") == |body|
    ensures Sanitize("<!--" + body + "-->" + rest, o) == Sanitize(rest, o)
  {
    hide Sanitize, PrintOpen, NextToken, FirstMatch, CommentLen;
    var t := "<!--" + body + "-->" + rest;
    assert t[4..] == body + "-->" + rest;
    CommentIs(body, rest);
    TokenIs(t);
    assert t[4 + |body| + 3..] == rest;
    Takes(t, o, Skip, 4 + |body| + 3, rest);
  }

  lemma {:induction false} CommentIs(body: string, rest: string)
    requires FirstMatch(body + "-->", "-->") == |body|
    ensures CommentLen(body + "-->" + rest) == |body| + 3
  {
    var s := body + "-->";
    var t := s + rest;
    assert t == body + "-->" + rest;
    if body == "" {
      assert s == "-->";
    } else {
      assert !MatchesAt(s, 0, "-->") && s[..3] == s[0..3] == [s[0], s[1], s[2]];
      assert t[0] == s[0] && t[1] == s[1] && t[2] == s[2];
      assert s[1..] == body[1..] + "-->" && t[1..] == body[1..] + "-->" + rest;
      CommentIs(body[1..], rest);
    }
  }

  /** Declarations and processing instructions are dropped like tags. */
  lemma Declaration(mark: char, attrs: string, rest: string, o: Open)
    requires (mark == '!' || mark == '?') && CompleteTag(attrs, Unquoted)
    requires mark == '!' ==> !(|attrs| >= 2 && attrs[0] == '-' && attrs[1] == '-')
    ensures Sanitize(['<', mark] + attrs + rest, o) == Sanitize(rest, o)
  {
    hide Sanitize, PrintOpen, NextToken, TagLen, CompleteTag;
    var t := ['<', mark] + attrs + rest;
    assert attrs != "" by { CompleteNotEmpty(attrs); }
    TagLenPasses(t, 2);
    assert t[2..] == attrs + rest;
    CompleteTagLen(attrs, Unquoted, rest);
    if |attrs| == 1 { CompleteDashes(attrs); }
    assert |attrs| >= 2 ==> t[2] == attrs[0] && t[3] == attrs[1];
    TokenIs(t);
    Takes(t, o, Skip, 2 + |attrs|, rest);
  }

  lemma CompleteNotEmpty(attrs: string)
    requires CompleteTag(attrs, Unquoted)
    ensures attrs != ""
  {
  }

  lemma CompleteDashes(attrs: string)
    requires CompleteTag(attrs, Unquoted) && |attrs| == 1
    ensures attrs == ">"
  {
  }

  // ---------------------------------------------------------------- links

  predicate StartsAnyCase(h: string, k: nat, lit: string) { k + |lit| <= |h| && LowerAll(h[k..k + |lit|]) == lit }

  /** White space, then a fragment or one of three schemes. */
  predicate SafeFrom(h: string, k: nat) {
    && k < |h| && Blanks(h[..k])
    && (h[k] == '#' || StartsAnyCase(h, k, "http://") || StartsAnyCase(h, k, "https://") ||
        StartsAnyCase(h, k, "mailto:"))
  }

  predicate SafeTarget(h: string) { exists k | 0 <= k < |h| :: SafeFrom(h, k) }

  lemma StartsAlike(h: string, k: nat, lit: string)
    requires k <= |h|
    ensures StartsCi(h[k..], lit) <==> StartsAnyCase(h, k, lit)
  {
    assert k + |lit| <= |h| ==> h[k..][..|lit|] == h[k..k + |lit|];
  }

  lemma FirstLetter(h: string, k: nat, lit: string)
    requires StartsAnyCase(h, k, lit) && lit != "" && 'a' <= lit[0] <= 'z'
    ensures !IsSpace(h[k])
  {
    assert Lower(h[k]) == LowerAll(h[k..k + |lit|])[0] == lit[0];
  }

  lemma SafeNotBlank(h: string, k: nat)
    requires SafeFrom(h, k)
    ensures !IsSpace(h[k]) && Blank(h) == k
  {
    hide StartsAnyCase, Span;
    if StartsAnyCase(h, k, "http://") { FirstLetter(h, k, "http://"); }
    if StartsAnyCase(h, k, "https://") { FirstLetter(h, k, "https://"); }
    if StartsAnyCase(h, k, "mailto:") { FirstLetter(h, k, "mailto:"); }
    assert h[..k] + h[k..] == h;
    BlanksAreSpan(h[..k], h[k..]);
  }

  lemma SafeExactly(h: string)
    ensures HrefSafe(h) <==> SafeTarget(h)
  {
    hide StartsCi, StartsAnyCase, Span;
    var b := Blank(h);
    assert Blanks(h[..b]) by { assert forall i | 0 <= i < b :: IsSpace(h[i]) && h[..b][i] == h[i]; }
    StartsAlike(h, b, "http://");
    StartsAlike(h, b, "https://");
    StartsAlike(h, b, "mailto:");
    if HrefSafe(h) { assert SafeFrom(h, b); }
    if SafeTarget(h) {
      var k :| 0 <= k < |h| && SafeFrom(h, k);
      SafeNotBlank(h, k);
    }
  }

  lemma RefusesHref(y: string)
    requires y != [] && !(HrefSafe(Value(y)) && |Value(y)| < HREF_CAP)
    ensures ValueTurn("href", y, "") == Scanning(y[ValueLen(y)..], "")
  {
    hide HrefSafe, Value, ValueLen, CString;
  }

  lemma TurnsOffTarget(href: string)
    requires '"' !in href && !(HrefSafe(href) && |href| < HREF_CAP)
    ensures HrefTurn("href=\"" + href + "\">", "") == Scanning(">", "")
  {
    hide HrefSafe, Value, ValueLen, ValueTurn, HrefTurn, CString;
    TurnsOnLink(href);
    ReadsTarget(href);
    RefusesHref("\"" + href + "\">");
  }

  lemma FindsNoTarget(href: string)
    requires '"' !in href && !(HrefSafe(href) && |href| < HREF_CAP)
    ensures FindHref(" href=\"" + href + "\">") == Some("")
  {
    hide HrefSafe, HrefTurn;
    var inner := " href=\"" + href + "\">";
    var t := "href=\"" + href + "\">";
    assert inner[1..] == t && inner[0] == ' ' && inner[1] == 'h';
    SpanIs(IsSpace, inner, 1);
    TurnsOffTarget(href);
    EndsAtBracket("");
    assert HrefLoop(">", "") == Some("");
  }

  // ---------------------------------------------------------------- attributes of a link

  /** A link tag in any spelling: what counts is the target found among its attributes. */
  lemma LinkTag(blanks: string, word: string, attrs: string, rest: string, o: Open)
    requires Written(blanks, word, attrs) && LowerAll(word) == "a" && Depth(o) < 64
    ensures var found := FindHref(attrs);
      Sanitize("<" + blanks + word + attrs + rest, o) ==
      if found.None? then Stuck(o)
      else Sanitize(rest, if found.value == "" then o else Push(o, Tag(A, found.value)))
  {
    hide NextToken, Sanitize, Forbidden, Written, IsDangerous, Classify, PrintOpen, LowerAll, FindHref, DangerLen;
    var t := "<" + blanks + word + attrs + rest;
    var e, n := 1 + |blanks| + |word|, 1 + |blanks| + |word| + |attrs|;
    ForbiddenExactly(word);
    PlainNotForbidden(word);
    KnownExactly(word);
    OpensTag(blanks, word, attrs, rest);
    assert word != "" by { WordsAreNotEmpty(blanks, word, attrs); }
    assert t[e..n] == attrs;
    assert NextToken(t) == (Start(A, attrs), n);
    if FindHref(attrs).None? {
      StuckAtOnce(t, o);
    } else {
      Takes(t, o, Start(A, attrs), n, rest);
    }
  }

  lemma TurnFromBlank(t: string, href: string)
    ensures HrefTurn(SkipBlank(t), href) == HrefTurn(t, href)
  {
    hide ValueTurn, SkipBlank, Span;
    SkipBlankTwice(t);
  }

  lemma {:induction false} LoopFromBlank(t: string, href: string)
    ensures HrefLoop(SkipBlank(t), href) == HrefLoop(t, href)
  {
    hide HrefTurn;
    TurnFromBlank(t, href);
  }

  predicate AttrName(name: string) { name != "" && forall c | c in name :: WordChar(c) || c == '_' }

  /** One turn at `name="value"` or `name='value'`. */
  lemma AttrTurn(name: string, quote: char, value: string, more: string, href: string)
    requires AttrName(name) && (quote == '"' || quote == '\'') && quote !in value
    ensures var y := [quote] + value + [quote] + more;
      HrefTurn(name + "=" + y, href) == ValueTurn(name, y, href) && Value(y) == value && y[ValueLen(y)..] == more
  {
    hide Span, ValueTurn, HrefTurn, SkipBlank, Value, ValueLen;
    var y := [quote] + value + [quote] + more;
    var t := name + "=" + y;
    assert forall i | 0 <= i < |name| :: t[i] == name[i] && name[i] in name;
    SpanIs(IsAttrNameChar, t, |name|);
    assert t[|name|..] == "=" + y && t[..|name|] == name && t[0] == name[0];
    NoBlank(t);
    NoBlank("=" + y);
    NoBlank(y);
    assert ("=" + y)[1..] == y;
    TurnAt(t, href, t, |name|, "=" + y);
    QuotedValue(quote, value, more);
  }

  lemma QuotedValue(quote: char, value: string, more: string)
    requires (quote == '"' || quote == '\'') && quote !in value
    ensures var y := [quote] + value + [quote] + more; Value(y) == value && y[ValueLen(y)..] == more
  {
    var y := [quote] + value + [quote] + more;
    assert y[1..] == value + [quote] + more && y[1..][..|value|] == value;
    UptoIs(quote, y[1..], |value|);
  }

  /** A quoted attribute of another name is passed over. */
  lemma OtherAttribute(name: string, quote: char, value: string, more: string, href: string)
    requires AttrName(name) && (quote == '"' || quote == '\'') && quote !in value && LowerAll(name) != "href"
    ensures HrefLoop(name + "=" + ([quote] + value + [quote] + more), href) == HrefLoop(SkipBlank(more), href)
  {
    hide HrefTurn, Value, ValueLen, HrefSafe, CString, AttrDangerous;
    AttrTurn(name, quote, value, more, href);
    LoopFromBlank(more, href);
  }

  /** A quoted target counts if it is the first, safe, and shorter than 2048. */
  lemma HrefAttribute(name: string, quote: char, value: string, more: string, href: string)
    requires (quote == '"' || quote == '\'') && quote !in value && LowerAll(name) == "href" && '\0' !in value
    ensures HrefLoop(name + "=" + ([quote] + value + [quote] + more), href) ==
            HrefLoop(SkipBlank(more), if href == "" && SafeTarget(value) && |value| <= 2047 then value else href)
  {
    hide HrefTurn, Value, ValueLen, HrefSafe, SafeTarget, CString;
    HrefIsName(name);
    AttrTurn(name, quote, value, more, href);
    SafeExactly(value);
    CStringIs(value);
    LoopFromBlank(more, if href == "" && SafeTarget(value) && |value| <= 2047 then value else href);
  }

  lemma HrefIsName(name: string)
    requires LowerAll(name) == "href"
    ensures AttrName(name) && !AttrDangerous(name)
  {
    assert |name| == 4;
    forall i | 0 <= i < 4 ensures WordChar(name[i]) && name[i] != '(' {
      assert Lower(name[i]) == "href"[i];
    }
    assert forall c | c in name :: exists i | 0 <= i < 4 :: name[i] == c;
    assert Lower(name[0]) == "href"[0];
  }

  /** Where the tag ends, the search ends. */
  lemma AttributesEnd(more: string, href: string)
    ensures HrefLoop(">" + more, href) == Some(href) && HrefLoop("/>" + more, href) == Some(href)
  {
    hide HrefTurn, SkipBlank;
    NoBlank(">" + more);
    NoBlank("/>" + more);
    TurnEnds(">" + more, href, ">" + more);
    TurnEnds("/>" + more, href, "/>" + more);
  }

  /** A link is kept, with its target escaped, exactly if the target is safe and shorter than 2048. */
  lemma Link(href: string, rest: string, o: Open)
    requires '"' !in href && '\0' !in href && Depth(o) < 64
    ensures var tag := Tag(A, href);
      && Sanitize("<a href=\"" + href + "\">" + rest, o) ==
         Sanitize(rest, if SafeTarget(href) && |href| <= 2047 then Push(o, tag) else o)
      && OpenTag(tag) == "<a href=\"" + EscapeAll(href) + "\">" && CloseTag(tag) == "</a>"
  {
    hide Sanitize, NextToken, FindHref, HrefSafe, SafeTarget, PrintOpen, EscapeAll;
    var tag := Tag(A, href);
    var t := "<a href=\"" + href + "\">" + rest;
    SafeExactly(href);
    if SafeTarget(href) && |href| <= 2047 {
      TakesOpenTag(tag, rest, o);
    } else {
      MeetsLink(href, rest);
      FindsNoTarget(href);
      assert t[|RawOpenTag(tag)|..] == rest;
      Takes(t, o, NextToken(t).0, |RawOpenTag(tag)|, rest);
    }
  }

  /** A scheme that is not among the three is never kept. */
  lemma ScriptTarget(rest: string)
    ensures !SafeTarget("javascript:" + rest)
  {
    hide StartsAnyCase, SafeTarget;
    var h := "javascript:" + rest;
    assert h[0] == 'j';
    OtherBeginning(h);
  }

  /** A target that begins with none of the four characters a safe one can begin with. */
  lemma OtherBeginning(h: string)
    requires h != "" && !IsSpace(h[0]) && h[0] != '#' && Lower(h[0]) != 'h' && Lower(h[0]) != 'm'
    ensures !SafeTarget(h)
  {
    hide StartsAnyCase, Lower;
    NotTheScheme(h, "http://");
    NotTheScheme(h, "https://");
    NotTheScheme(h, "mailto:");
    forall k | 0 <= k < |h| ensures !SafeFrom(h, k) {
      if k > 0 { assert h[..k][0] == h[0] && h[0] in h[..k]; }
    }
  }

  lemma NotTheScheme(h: string, lit: string)
    requires h != "" && lit != "" && Lower(h[0]) != lit[0]
    ensures !StartsAnyCase(h, 0, lit)
  {
    assert |lit| <= |h| ==> LowerAll(h[0..0 + |lit|])[0] == Lower(h[0]);
  }

  // ---------------------------------------------------------------- the end of the input

  /** The closing tags of what is still open, innermost first. */
  function Closings(o: Open): string { if o.Top? then "" else CloseTag(o.tag) + Closings(o.up) }

  lemma ClosingsOfPop(o: Open)
    requires o.Inside?
    ensures Closings(Pop(o)) == Closings(o.up)
  {
    hide CloseTag, PrintOpen, PrintNode;
  }

  lemma AtTheEnd(o: Open)
    ensures o.Top? ==> CloseAll(o) == o.done && PrintOpen(o) == Print(o.done)
    ensures o.Inside? ==> CloseAll(o) == CloseAll(Pop(o))
  {
    hide Print, Pop;
  }

  /** Where the input ends, what is still open is closed, innermost first. */
  lemma {:induction false} ClosingsAppended(o: Open)
    ensures Print(CloseAll(o)) == PrintOpen(o) + Closings(o)
    decreases Depth(o)
  {
    hide CloseTag, Print, PrintOpen, Pop, CloseAll;
    AtTheEnd(o);
    if o.Inside? {
      ClosingsAppended(Pop(o));
      ClosingsOfPop(o);
      assert PrintOpen(o) + CloseTag(o.tag) + Closings(o.up) == PrintOpen(o) + (CloseTag(o.tag) + Closings(o.up));
    } else {
      assert Print(o.done) + "" == Print(o.done);
    }
  }

  // ---------------------------------------------------------------- limits

  /** Inputs of more than 512 KiB are refused. */
  lemma LongInput(input: string, max: nat)
    requires |input| > 524288
    ensures SanitizeOutcome(input, max) == Rejected
  {
  }

  /** Nothing is kept of a forbidden element with its content: a whole input. */
  lemma ScriptIsDropped(max: nat)
    requires max >= 3
    ensures SanitizeOutcome("<" + "" + "script" + ">" + "alert(1)" + ("</" + "script" + ">") + "hi", max) ==
            Accepted("hi")
  {
    hide Sanitize, LowerAll, NoClosing, PrintOpen, Print;
    ScriptWords();
    ForbiddenElement("", "script", ">", "alert(1)", "script", ">", "hi", Top(Nil));
    TakesText('h', "i", Top(Nil));
    TakesText('i', "", Top(Snoc(Nil, Text('h'))));
    assert ['h'] + "i" == "hi" && ['i'] + "" == "i";
    HiPrinted();
  }

  lemma ScriptWords()
    ensures Written("", "script", ">") && Forbidden("script") && NoClosing("alert(1)", LowerAll("script"))
  {
    assert LowerAll("script") == "script";
    assert LowerAll("alert(1)"[0..8])[0] == 'a';
  }

  lemma HiPrinted()
    ensures var f := Snoc(Snoc(Nil, Text('h')), Text('i')); Print(f) == "hi" && Sanitize("", Top(f)) == Running(Top(f))
  {
    assert "" + "h" + "i" == "hi";
  }
}
