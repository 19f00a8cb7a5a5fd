/**
Dangerous elements leave no trace: wherever the scan stands, it passes over such an element as if
it were not there.
*/
module HtmlErasure {
  import opened Ascii
  import opened HtmlScan
  import opened HtmlTree
  import opened HtmlSpec
  import opened HtmlBoundary

  /** `t` is one complete tag: the first `>` outside quotes is its last character. */
  predicate CompleteTag(t: string, q: Quote) {
    t != [] &&
    match q
    case Double => CompleteTag(t[1..], if t[0] == '"' then Unquoted else Double)
    case Single => CompleteTag(t[1..], if t[0] == '\'' then Unquoted else Single)
    case Unquoted =>
      if t[0] == '>' then |t| == 1
      else CompleteTag(t[1..], if t[0] == '"' then Double else if t[0] == '\'' then Single else Unquoted)
  }

  lemma {:induction false} CompleteTagLen(t: string, q: Quote, rest: string)
    requires CompleteTag(t, q)
    ensures TagLen(t + rest, q) == |t| && t[|t| - 1] == '>'
    decreases |t|
  {
    var u := t + rest;
    assert u[1..] == t[1..] + rest && u[0] == t[0];
    if !(q == Unquoted && t[0] == '>') {
      CompleteTagLen(t[1..], match q
        case Double => if t[0] == '"' then Unquoted else Double
        case Single => if t[0] == '\'' then Unquoted else Single
        case Unquoted => if t[0] == '"' then Double else if t[0] == '\'' then Single else Unquoted, rest);
    }
  }

  /** The name in an opening tag. */
  function NameOf(t: string): string
    requires t != []
  {
    var u := SkipBlank(t[1..]);
    u[..Span(IsTagNameChar, u)]
  }

  /** Text after a complete tag does not change the name in it. */
  lemma NameOfPrefix(t: string, rest: string)
    requires CompleteTag(t, Unquoted) && t[0] == '<'
    ensures NameOf(t + rest) == NameOf(t)
  {
    hide Span, TagLen, LowerAll;
    CompleteTagLen(t, Unquoted, "");
    var v := t[1..];
    var w := (t + rest)[1..];
    assert w == v + rest;
    var k := Blank(v);
    assert v[|v| - 1] == '>' by { assert v[|v| - 1] == t[|t| - 1]; }
    assert k < |v|;
    assert forall i | 0 <= i < k :: w[i] == v[i];
    SpanIs(IsSpace, w, k);
    var x, y := v[k..], w[k..];
    var n := Span(IsTagNameChar, x);
    assert x[|x| - 1] == '>';
    assert n < |x|;
    assert y == x + rest;
    assert forall i | 0 <= i < n :: y[i] == x[i];
    SpanIs(IsTagNameChar, y, n);
    assert y[..n] == x[..n];
  }

  /** No closing tag for `name` in `body`, not even one cut off by its end. */
  predicate HoldsNoClose(body: string, name: string) {
    forall i | 0 <= i < |body| :: !IsCloseTag(body[i..], name)
  }

  /** A closing tag found at `i` of `body + close` cannot begin inside `body`. */
  lemma NoStraddle(body: string, tail: string, name: string, i: nat)
    requires i < |body| && !IsCloseTag(body[i..], name)
    requires '<' !in name && tail != [] && tail[0] == '<'
    ensures !IsCloseTag((body + tail)[i..], name)
  {
    var t := (body + tail)[i..];
    var n := 2 + |name|;
    var k := |body| - i;
    assert t == body[i..] + tail && t[k] == '<';
    if n <= k {
      assert body[i..][..n] == t[..n];
      assert body[i..][2..n] == t[2..n];
    } else if 2 <= k && n <= |t| {
      assert LowerAll(t[2..n])[k - 2] == Lower('<');
      assert forall c | c in name :: c != '<';
    }
  }

  lemma ClosePrefix(close: string, rest: string, name: string)
    requires IsCloseTag(close, name) && CompleteTag(close, Unquoted) && forall c | c in name :: 'a' <= c <= 'z'
    ensures IsCloseTag(close + rest, name)
  {
    var n := 2 + |name|;
    CompleteTagLen(close, Unquoted, "");
    assert n < |close| by {
      assert forall j | 2 <= j < n :: LowerAll(close[2..n])[j - 2] == Lower(close[j]) && name[j - 2] in name;
    }
    assert (close + rest)[2..n] == close[2..n];
  }

  lemma FindsClose(body: string, close: string, rest: string, name: string)
    requires name in DANGEROUS && HoldsNoClose(body, name)
    requires IsCloseTag(close, name) && CompleteTag(close, Unquoted)
    ensures FindClose(body + close + rest, name) == |body|
  {
    DangerousNamesAreLetters(name);
    var tail := close + rest;
    var t := body + close + rest;
    assert t == body + tail;
    ClosePrefix(close, rest, name);
    assert t[|body|..] == tail;
    forall i | 0 <= i < |body| ensures !IsCloseTag(t[i..], name) {
      NoStraddle(body, tail, name, i);
    }
    FindCloseIs(t, name, |body|);
  }

  /** An opening tag with a dangerous name, a body without a closing tag for it, a closing tag. */
  predicate DangerousElement(open: string, body: string, close: string) {
    && open != [] && CompleteTag(open, Unquoted) && open[0] == '<' && IsDangerous(NameOf(open))
    && HoldsNoClose(body, LowerAll(NameOf(open)))
    && CompleteTag(close, Unquoted) && IsCloseTag(close, LowerAll(NameOf(open)))
  }

  lemma IsDangerousIn(name: string)
    requires IsDangerous(name)
    ensures LowerAll(name) in DANGEROUS
  {
  }

  lemma DangerTokenLen(open: string, body: string, close: string, rest: string)
    requires DangerousElement(open, body, close)
    ensures DangerLen(open + body + close + rest, LowerAll(NameOf(open))) == |open| + |body| + |close|
  {
    hide FindClose, TagLen, CompleteTag, HoldsNoClose, IsCloseTag, LowerAll, NameOf, IsDangerous;
    var name := LowerAll(NameOf(open));
    assert name in DANGEROUS by { IsDangerousIn(NameOf(open)); }
    var t := open + body + close + rest;
    assert t == open + (body + close + rest);
    CompleteTagLen(open, Unquoted, body + close + rest);
    assert t[|open|..] == body + close + rest;
    FindsClose(body, close, rest, name);
    assert t[|open| + |body|..] == close + rest;
    CompleteTagLen(close, Unquoted, rest);
  }

  lemma DangerToken(open: string, body: string, close: string, rest: string)
    requires DangerousElement(open, body, close)
    ensures NextToken(open + body + close + rest) == (Skip, |open| + |body| + |close|)
  {
    hide TagLen, CompleteTag, HoldsNoClose, IsCloseTag, LowerAll, CommentLen, DangerLen;
    hide Span, SkipBlank, Classify, Inner;
    var t := open + body + close + rest;
    assert t == open + (body + close + rest);
    NameOfPrefix(open, body + close + rest);
    DangerTokenLen(open, body, close, rest);
    var name := NameOf(t);
    assert name != "" by { DangerousNotEmpty(name); }
    SpecialsHaveNoName(t);
    assert t[0] == '<' && name == NameOf(open) && IsDangerous(name);
  }

  lemma DangerousNotEmpty(name: string)
    requires IsDangerous(name)
    ensures name != ""
  {
    DangerousNamesAreLetters(LowerAll(name));
  }

  /** `<!`, `<?` and `</` are not followed by a name. */
  lemma SpecialsHaveNoName(t: string)
    requires t != [] && NameOf(t) != ""
    ensures |t| >= 2 && t[1] != '!' && t[1] != '?' && t[1] != '/'
  {
    var u := SkipBlank(t[1..]);
    assert IsTagNameChar(u[0]);
    if Blank(t[1..]) == 0 { assert u == t[1..]; } else { assert IsSpace(t[1..][0]); }
  }

  /**
  Erasure: at any point of any scan, with any open tags, a dangerous element whose body holds no
  closing tag of its own name contributes nothing to the result.
  */
  lemma Erasure(open: string, body: string, close: string, rest: string, o: Open)
    requires DangerousElement(open, body, close)
    ensures Sanitize(open + body + close + rest, o) == Sanitize(rest, o)
  {
    hide NextToken, PrintOpen, CompleteTag, IsDangerous, HoldsNoClose, IsCloseTag;
    var t := open + body + close + rest;
    DangerToken(open, body, close, rest);
    assert t[|open| + |body| + |close|..] == rest;
    assert t != [];
  }

  /**
  The same inside a whole input: sanitizing with and without the element gives the same, wherever
  both scans have a token boundary at its place.
  */
  lemma ErasureInContext(before: string, open: string, body: string, close: string, rest: string)
    requires DangerousElement(open, body, close)
    requires ScanTo(before + open + body + close + rest, |before|, Top(Nil)).Some?
    requires ScanTo(before + rest, |before|, Top(Nil)).Some?
    ensures Sanitize(before + open + body + close + rest, Top(Nil)) == Sanitize(before + rest, Top(Nil))
  {
    hide Sanitize, ScanTo, DangerousElement;
    var element := open + body + close + rest;
    assert before + open + body + close + rest == before + element;
    ScanSplits(before + element, |before|, Top(Nil));
    ScanSplits(before + rest, |before|, Top(Nil));
    ScanLocal(before, element, Top(Nil));
    ScanLocal(before, rest, Top(Nil));
    assert (before + element)[|before|..] == element && (before + rest)[|before|..] == rest;
    Erasure(open, body, close, rest, ScanTo(before, |before|, Top(Nil)).value);
  }
}
