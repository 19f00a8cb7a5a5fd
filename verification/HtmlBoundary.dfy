/**
A token that ends within a text does not depend on what follows the text.
*/
module HtmlBoundary {
  import opened Ascii
  import opened HtmlScan
  import opened HtmlTree
  import opened HtmlSpec

  lemma {:induction false} TagLenLocal(u: string, x: string, q: Quote)
    requires TagLen(u + x, q) <= |u|
    ensures TagLen(u, q) == TagLen(u + x, q)
    decreases |u|
  {
    if u != "" {
      var t := u + x;
      assert t[0] == u[0] && t[1..] == u[1..] + x;
      if !(q == Unquoted && t[0] == '>') {
        TagLenLocal(u[1..], x, match q
          case Double => if t[0] == '"' then Unquoted else Double
          case Single => if t[0] == '\'' then Unquoted else Single
          case Unquoted => if t[0] == '"' then Double else if t[0] == '\'' then Single else Unquoted);
      }
    } else {
      assert u + x == x;
    }
  }

  /** A tag that does not use up its text ends in `>`. */
  lemma {:induction false} TagEnds(t: string, q: Quote)
    requires TagLen(t, q) < |t|
    ensures TagLen(t, q) > 0 && t[TagLen(t, q) - 1] == '>'
    decreases |t|
  {
    if !(q == Unquoted && t[0] == '>') {
      TagEnds(t[1..], match q
        case Double => if t[0] == '"' then Unquoted else Double
        case Single => if t[0] == '\'' then Unquoted else Single
        case Unquoted => if t[0] == '"' then Double else if t[0] == '\'' then Single else Unquoted);
    }
  }

  lemma {:induction false} CommentLenLocal(u: string, x: string)
    requires CommentLen(u + x) <= |u|
    ensures CommentLen(u) == CommentLen(u + x)
    decreases |u|
  {
    var t := u + x;
    CommentNotShort(t);
    if |t| > 2 {
      assert t[0] == u[0] && t[1] == u[1] && t[1..] == u[1..] + x;
      if !(t[0] == '-' && t[1] == '-' && t[2] == '>') {
        CommentLenLocal(u[1..], x);
        CommentNotShort(t[1..]);
      }
    } else {
      assert x == "" && t == u;
    }
  }

  lemma {:induction false} CommentNotShort(t: string)
    ensures CommentLen(t) >= if |t| < 3 then |t| else 3
  {
    if |t| > 2 { CommentNotShort(t[1..]); }
  }

  /** A run of characters that ends within `u`, or one that stops where `u` does. */
  lemma SpanLocal(p: char -> bool, u: string, x: string)
    ensures Span(p, u) < |u| ==> Span(p, u + x) == Span(p, u)
    ensures Span(p, u) == |u| ==> Span(p, u + x) >= |u|
  {
    var n := Span(p, u);
    if n < |u| {
      SpanIs(p, u + x, n);
    } else {
      assert forall i | 0 <= i < |u| :: (u + x)[i] == u[i];
    }
  }

  // ---------------------------------------------------------------- dangerous elements

  predicate Letters(name: string) { forall c | c in name :: 'a' <= c <= 'z' }

  lemma DangerousNamesAreLetters(name: string)
    requires name in DANGEROUS
    ensures '<' !in name && name != "" && forall c | c in name :: 'a' <= c <= 'z'
  {
    var i :| 0 <= i < |DANGEROUS| && name == DANGEROUS[i];
    assert forall c | c in DANGEROUS[i] :: 'a' <= c <= 'z';
  }

  /** The first characters of a closing tag. */
  lemma CloseTagChars(t: string, name: string)
    requires IsCloseTag(t, name) && Letters(name)
    ensures forall i | 1 <= i < 2 + |name| :: t[i] != '>' && t[i] != '<'
  {
    var n := 2 + |name|;
    forall i | 2 <= i < n ensures t[i] != '>' && t[i] != '<' {
      assert Lower(t[i]) == LowerAll(t[2..n])[i - 2] == name[i - 2] && name[i - 2] in name;
    }
  }

  lemma CloseTagLocal(v: string, x: string, name: string)
    requires 2 + |name| < |v|
    ensures IsCloseTag(v + x, name) <==> IsCloseTag(v, name)
  {
    assert (v + x)[2..2 + |name|] == v[2..2 + |name|];
  }

  lemma FindCloseLocal(v: string, x: string, name: string)
    requires Letters(name) && x != ""
    requires var t := v + x; var b := FindClose(t, name); b <= |t| && b + TagLen(t[b..], Unquoted) <= |v|
    ensures FindClose(v, name) == FindClose(v + x, name)
  {
    hide FindClose, TagLen, IsCloseTag;
    var t := v + x;
    var b := FindClose(t, name);
    var c := v[b..];
    assert t[b..] == c + x && IsCloseTag(c + x, name);
    TagEnds(c + x, Unquoted);
    CloseTagChars(c + x, name);
    CloseTagShape(c + x, name);
    assert 2 + |name| < |c|;
    CloseTagLocal(c, x, name);
    forall j | 0 <= j < b ensures !IsCloseTag(v[j..], name) {
      var d := v[j..];
      assert t[j..] == d + x && d[b - j] == '<';
      NoEarlierClose(d, x, name, b - j);
    }
    FindCloseIs(v, name, b);
  }

  lemma CloseTagShape(t: string, name: string)
    requires IsCloseTag(t, name)
    ensures 2 + |name| <= |t| && t[0] == '<' && t[1] == '/'
  {
  }

  lemma NoEarlierClose(d: string, x: string, name: string, k: nat)
    requires Letters(name) && 0 < k < |d| && d[k] == '<' && !IsCloseTag(d + x, name)
    ensures !IsCloseTag(d, name)
  {
    if IsCloseTag(d, name) {
      CloseTagChars(d, name);
      CloseTagLocal(d, x, name);
    }
  }

  lemma DangerLenLocal(u: string, x: string, name: string)
    requires u != "" && x != "" && Letters(name) && DangerLen(u + x, name) <= |u|
    ensures DangerLen(u, name) == DangerLen(u + x, name)
  {
    hide FindClose, TagLen;
    var t := u + x;
    var after := TagLen(t, Unquoted);
    TagLenLocal(u, x, Unquoted);
    var v := u[after..];
    assert t[after..] == v + x;
    var b := FindClose(v + x, name);
    assert t[after + b..] == (v + x)[b..];
    FindCloseLocal(v, x, name);
    assert u[after + b..] == v[b..] && (v + x)[b..] == v[b..] + x;
    TagLenLocal(v[b..], x, Unquoted);
  }

  // ---------------------------------------------------------------- names

  /** The name behind the first `k` characters. */
  function NameBehind(t: string, k: nat): string
    requires k <= |t|
  {
    var v := SkipBlank(t[k..]);
    v[..Span(IsTagNameChar, v)]
  }

  function NameEnd(t: string, k: nat): nat
    requires k <= |t|
  {
    k + Blank(t[k..]) + Span(IsTagNameChar, SkipBlank(t[k..]))
  }

  /** A name that ends within the text is not changed by what follows; nor is there one if none begins. */
  lemma NameLocal(u: string, x: string, k: nat)
    requires k <= |u|
    ensures NameEnd(u + x, k) < |u| ==> NameEnd(u, k) == NameEnd(u + x, k) && NameBehind(u, k) == NameBehind(u + x, k)
    ensures NameBehind(u + x, k) == "" ==> NameBehind(u, k) == ""
  {
    hide Span;
    var t := u + x;
    var a := u[k..];
    assert t[k..] == a + x;
    SpanLocal(IsSpace, a, x);
    var n := Blank(a);
    if n < |a| {
      var v := a[n..];
      assert (a + x)[n..] == v + x;
      SpanLocal(IsTagNameChar, v, x);
      assert Span(IsTagNameChar, v) < |v| ==> (v + x)[..Span(IsTagNameChar, v)] == v[..Span(IsTagNameChar, v)];
      assert Span(IsTagNameChar, v) == |v| ==> NameBehind(t, k) != "" && NameEnd(t, k) >= |u|;
    } else {
      assert a[n..] == "";
      SpanOfNothing();
    }
  }

  lemma SpanOfNothing()
    ensures Span(IsTagNameChar, "") == 0
  {
  }

  /** The blanks and the name lie before the end of the tag. */
  lemma NameBeforeEnd(t: string, k: nat)
    requires k <= |t| && 1 <= k <= 2 && t[0] == '<' && (k == 2 ==> t[1] == '/') && TagLen(t, Unquoted) < |t|
    ensures NameEnd(t, k) < TagLen(t, Unquoted)
  {
    hide Span, TagLen;
    var e := NameEnd(t, k);
    forall i | 0 <= i < e ensures t[i] != '>' && t[i] != '"' && t[i] != '\'' {
      if k + Blank(t[k..]) <= i {
        assert t[i] == SkipBlank(t[k..])[i - k - Blank(t[k..])];
      } else if k <= i {
        assert t[i] == t[k..][i - k];
      }
    }
    TagLenPasses(t, e);
  }

  // ---------------------------------------------------------------- tokens

  /** `NextToken` by the names of this module. */
  lemma TokenIs(t: string)
    requires t != ""
    ensures var n := TagLen(t, Unquoted);
      NextToken(t) ==
      if t[0] != '<' then (Char(t[0]), 1)
      else if |t| >= 4 && t[1] == '!' && t[2] == '-' && t[3] == '-' then (Skip, 4 + CommentLen(t[4..]))
      else if |t| >= 2 && (t[1] == '!' || t[1] == '?') then (Skip, n)
      else if |t| >= 2 && t[1] == '/' then CloseToken(NameBehind(t, 2), n)
      else OpenToken(t, NameBehind(t, 1), NameEnd(t, 1), n)
  {
    hide NextToken, Span, SkipBlank, Blank, TagLen, CommentLen, DangerLen, Classify, LowerAll, IsDangerous, Inner;
    if t[0] != '<' || (|t| >= 2 && (t[1] == '!' || t[1] == '?')) {
      MeetsOther(t);
    } else if |t| >= 2 && t[1] == '/' {
      MeetsClose(t);
    } else {
      MeetsTag(t);
      InnerIs(t);
    }
  }

  lemma MeetsOther(t: string)
    requires t != "" && (t[0] != '<' || (|t| >= 2 && (t[1] == '!' || t[1] == '?')))
    ensures NextToken(t) ==
            if t[0] != '<' then (Char(t[0]), 1)
            else if |t| >= 4 && t[1] == '!' && t[2] == '-' && t[3] == '-' then (Skip, 4 + CommentLen(t[4..]))
            else (Skip, TagLen(t, Unquoted))
  {
    hide Span, SkipBlank, TagLen, CommentLen, DangerLen, Classify, LowerAll, IsDangerous, Inner;
  }

  function CloseToken(name: string, n: nat): (Token, nat) {
    if name == "" then (Char('<'), 1)
    else
      match Classify(name)
      case None => (Skip, n)
      case Some(tid) => (if tid == BR then Skip else End(tid), n)
  }

  function OpenToken(t: string, name: string, e: nat, n: nat): (Token, nat)
    requires t != "" && n <= |t|
  {
    if name == "" then (Char('<'), 1)
    else if IsDangerous(name) then (Skip, DangerLen(t, LowerAll(name)))
    else
      match Classify(name)
      case None => (Skip, n)
      case Some(tid) => (if tid == BR then Break else Start(tid, if e <= n then t[e..n] else ""), n)
  }

  lemma CloseTokenLocal(u: string, x: string)
    requires |u| >= 2 && x != "" && u[0] == '<' && u[1] == '/'
    requires var t := u + x; CloseToken(NameBehind(t, 2), TagLen(t, Unquoted)).1 <= |u|
    ensures var t := u + x;
      CloseToken(NameBehind(u, 2), TagLen(u, Unquoted)) == CloseToken(NameBehind(t, 2), TagLen(t, Unquoted))
  {
    hide TagLen, NameBehind, NameEnd, Classify;
    var t := u + x;
    NameLocal(u, x, 2);
    if NameBehind(t, 2) != "" {
      TagLenLocal(u, x, Unquoted);
      NameBeforeEnd(t, 2);
    }
  }

  lemma OpenTokenLen(t: string, name: string, e: nat, n: nat)
    requires t != "" && n <= |t| && name != ""
    ensures OpenToken(t, name, e, n).1 == if IsDangerous(name) then DangerLen(t, LowerAll(name)) else n
  {
    hide DangerLen, IsDangerous, LowerAll, Classify;
  }

  lemma OpenTokenSame(u: string, t: string, name: string, e: nat, n: nat)
    requires u != "" && t != "" && e <= n <= |u| && n <= |t| && u[e..n] == t[e..n]
    requires IsDangerous(name) ==> DangerLen(u, LowerAll(name)) == DangerLen(t, LowerAll(name))
    ensures OpenToken(u, name, e, n) == OpenToken(t, name, e, n)
  {
    hide DangerLen, IsDangerous, LowerAll, Classify;
  }

  lemma NoNameToken(t: string, e: nat, n: nat)
    requires t != "" && n <= |t|
    ensures OpenToken(t, "", e, n) == (Char('<'), 1)
  {
  }

  /** What `OpenToken` needs to know about the tag when the token ends within `u`. */
  lemma OpenLenLocal(u: string, x: string, name: string)
    requires u != "" && x != ""
    requires (if IsDangerous(name) then DangerLen(u + x, LowerAll(name)) else TagLen(u + x, Unquoted)) <= |u|
    ensures TagLen(u, Unquoted) == TagLen(u + x, Unquoted) <= |u|
    ensures IsDangerous(name) ==> DangerLen(u, LowerAll(name)) == DangerLen(u + x, LowerAll(name))
  {
    hide TagLen, DangerLen, LowerAll, IsDangerous;
    if IsDangerous(name) {
      DangerousWord(name);
      DangerAtLeastTag(u + x, LowerAll(name));
      DangerLenLocal(u, x, LowerAll(name));
    }
    TagLenLocal(u, x, Unquoted);
  }

  lemma OpenTokenLocal(u: string, x: string, t: string)
    requires u != "" && x != "" && u[0] == '<' && t == u + x
    requires OpenToken(t, NameBehind(t, 1), NameEnd(t, 1), TagLen(t, Unquoted)).1 <= |u|
    ensures OpenToken(u, NameBehind(u, 1), NameEnd(u, 1), TagLen(u, Unquoted)) ==
            OpenToken(t, NameBehind(t, 1), NameEnd(t, 1), TagLen(t, Unquoted))
  {
    hide TagLen, NameBehind, NameEnd, DangerLen, LowerAll, IsDangerous, OpenToken;
    var name, e, n := NameBehind(t, 1), NameEnd(t, 1), TagLen(t, Unquoted);
    NameLocal(u, x, 1);
    if name == "" {
      NoNameToken(t, e, n);
      NoNameToken(u, NameEnd(u, 1), TagLen(u, Unquoted));
    } else {
      OpenTokenLen(t, name, e, n);
      OpenLenLocal(u, x, name);
      NameBeforeEnd(t, 1);
      assert u[e..n] == t[e..n];
      OpenTokenSame(u, t, name, e, n);
    }
  }

  lemma DangerousWord(name: string)
    requires IsDangerous(name)
    ensures Letters(LowerAll(name))
  {
    DangerousNamesAreLetters(LowerAll(name));
  }

  lemma DangerAtLeastTag(t: string, name: string)
    requires t != ""
    ensures DangerLen(t, name) >= TagLen(t, Unquoted)
  {
  }

  /** The token at the head of a text, when it ends within the text. */
  lemma TokenLocal(u: string, x: string)
    requires u != "" && NextToken(u + x).1 <= |u|
    ensures NextToken(u) == NextToken(u + x)
  {
    hide NextToken, TagLen, CommentLen, CloseToken, OpenToken, NameBehind, NameEnd;
    var t := u + x;
    if x == "" {
      assert t == u;
    } else {
      TokenIs(t);
      TokenIs(u);
      assert forall i | 0 <= i < |u| :: t[i] == u[i];
      if t[0] != '<' {
      } else if |t| >= 4 && t[1] == '!' && t[2] == '-' && t[3] == '-' {
        assert t[4..] == u[4..] + x;
        CommentLenLocal(u[4..], x);
      } else if |t| >= 2 && (t[1] == '!' || t[1] == '?') {
        TagLenLocal(u, x, Unquoted);
        NotOne(t);
      } else if |t| >= 2 && t[1] == '/' {
        if |u| == 1 {
          LoneBracket(u);
          NotOneName(t);
        } else {
          CloseTokenLocal(u, x);
        }
      } else {
        OpenTokenLocal(u, x, t);
      }
    }
  }

  lemma NotOne(t: string)
    requires |t| >= 2 && t[0] == '<'
    ensures TagLen(t, Unquoted) >= 2
  {
  }

  lemma LoneBracket(u: string)
    requires u == "<"
    ensures OpenToken(u, NameBehind(u, 1), NameEnd(u, 1), TagLen(u, Unquoted)) == (Char('<'), 1)
  {
    assert u[1..] == "";
    assert SkipBlank("") == "";
    SpanOfNothing();
  }

  lemma NotOneName(t: string)
    requires |t| >= 2 && t[0] == '<'
    ensures CloseToken(NameBehind(t, 2), TagLen(t, Unquoted)).1 <= 1 ==>
              CloseToken(NameBehind(t, 2), TagLen(t, Unquoted)) == (Char('<'), 1)
  {
    hide TagLen, NameBehind, Classify;
    NotOne(t);
  }

  // ---------------------------------------------------------------- scans

  /** Where a scan stands at a token boundary depends on nothing behind the boundary. */
  lemma {:induction false} ScanLocal(u: string, x: string, o: Open)
    requires ScanTo(u + x, |u|, o).Some?
    ensures ScanTo(u, |u|, o) == ScanTo(u + x, |u|, o)
    decreases |u|
  {
    hide NextToken, Apply, PrintOpen;
    if u != "" {
      var t := u + x;
      var (tok, n) := NextToken(t);
      TokenLocal(u, x);
      assert t[n..] == u[n..] + x;
      ScanLocal(u[n..], x, Apply(o, tok).open);
    }
  }
}
