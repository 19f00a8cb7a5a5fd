/**
The scanning loops of the sanitizer.  A pointer `p` into a text ending at `end` is an index into
the sequence up to `end`.
*/
module HtmlLexer {
  import opened Ascii
  import opened HtmlScan

  /** The loop that looks for the end of a quoted value. */
  method FindChar(c: char, s: string, p: nat) returns (q: nat)
    requires p <= |s|
    ensures q == p + Upto(c, s[p..])
  {
    q := p;
    while q < |s| && s[q] != c
      invariant p <= q <= |s|
      invariant p + Upto(c, s[p..]) == q + Upto(c, s[q..])
    {
      Rest(s, q);
      q := q + 1;
    }
  }

  /** `tag_name_eq_lc` */
  method TagNameEq(s: string, lit: string) returns (eq: bool)
    ensures eq == (LowerAll(s) == lit)
  {
    if |s| != |lit| { return false; }
    for i := 0 to |s|
      invariant forall j | 0 <= j < i :: Lower(s[j]) == lit[j]
    {
      if Lower(s[i]) != lit[i] {
        assert LowerAll(s)[i] != lit[i];
        return false;
      }
    }
    eq := true;
  }

  /** `skip_to_tag_end` */
  method SkipToTagEnd(s: string, p: nat) returns (q: nat)
    requires p <= |s|
    ensures q == p + TagLen(s[p..], Unquoted)
  {
    var dq, sq := false, false;
    q := p;
    while q < |s|
      invariant p <= q <= |s| && !(dq && sq)
      invariant p + TagLen(s[p..], Unquoted) ==
                q + TagLen(s[q..], if dq then Double else if sq then Single else Unquoted)
    {
      Rest(s, q);
      if dq {
        if s[q] == '"' { dq := false; }
      } else if sq {
        if s[q] == '\'' { sq := false; }
      } else if s[q] == '"' {
        dq := true;
      } else if s[q] == '\'' {
        sq := true;
      } else if s[q] == '>' {
        return q + 1;
      }
      q := q + 1;
    }
  }

  /** The test inside `find_close_tag_open`. */
  method ClosesHere(s: string, p: nat, name: string) returns (b: bool)
    requires p + 2 + |name| <= |s|
    ensures b == IsCloseTag(s[p..], name)
  {
    hide LowerAll;
    if s[p] != '<' || s[p + 1] != '/' { return false; }
    var after := p + 2 + |name|;
    b := TagNameEq(s[p + 2..after], name);
    assert s[p..][2..2 + |name|] == s[p + 2..after];
    b := b && (after >= |s| || !IsTagNameChar(s[after]));
  }

  /** `find_close_tag_open`; `|s|` when there is none. */
  method FindCloseTagOpen(s: string, p: nat, name: string) returns (q: nat)
    requires p <= |s|
    ensures q == p + FindClose(s[p..], name)
  {
    hide IsCloseTag;
    q := p;
    while q + 2 + |name| <= |s|
      invariant p <= q <= |s|
      invariant p + FindClose(s[p..], name) == q + FindClose(s[q..], name)
    {
      Rest(s, q);
      var here := ClosesHere(s, q, name);
      if here { return; }
      q := q + 1;
    }
    NoRoomForClose(s[q..], name);
    q := |s|;
  }

  lemma {:induction false} NoRoomForClose(t: string, name: string)
    requires |t| < 2 + |name|
    ensures FindClose(t, name) == |t|
  {
    if t != [] { NoRoomForClose(t[1..], name); }
  }

  /** The loop over a comment, from behind its `<!--`. */
  method SkipComment(s: string, p: nat) returns (q: nat)
    requires p <= |s|
    ensures q == p + CommentLen(s[p..])
  {
    q := p;
    while q + 2 < |s|
      invariant p <= q <= |s|
      invariant p + CommentLen(s[p..]) == q + CommentLen(s[q..])
    {
      Rest(s, q);
      if s[q] == '-' && s[q + 1] == '-' && s[q + 2] == '>' { return q + 3; }
      q := q + 1;
    }
    q := |s|;
  }

  /** `starts_ci` */
  method StartsWithCi(s: string, lit: string) returns (b: bool)
    ensures b == StartsCi(s, lit)
  {
    var i := 0;
    while i < |lit| && i < |s|
      invariant i <= |lit| && i <= |s|
      invariant forall j | 0 <= j < i :: Lower(s[j]) == lit[j]
    {
      if Lower(s[i]) != lit[i] {
        if |lit| <= |s| { assert LowerAll(s[..|lit|])[i] != lit[i]; }
        return false;
      }
      i := i + 1;
    }
    b := i == |lit|;
  }

  /** `href_is_safe` */
  method HrefIsSafe(h: string) returns (b: bool)
    ensures b == HrefSafe(h)
  {
    var i := SkipWs(h, 0);
    assert h[0..] == h;
    if i >= |h| { return false; }
    if h[i] == '#' { return true; }
    b := StartsWithCi(h[i..], "http://");
    if b { return; }
    b := StartsWithCi(h[i..], "https://");
    if b { return; }
    b := StartsWithCi(h[i..], "mailto:");
  }

  /** `tag_is_dangerous` together with `dangerous_tag_lc`: the lower-case name, if it is listed. */
  method DangerousName(name: string) returns (r: Option<string>)
    ensures r == if IsDangerous(name) then Some(LowerAll(name)) else None
  {
    for i := 0 to |DANGEROUS|
      invariant LowerAll(name) !in DANGEROUS[..i]
    {
      var eq := TagNameEq(name, DANGEROUS[i]);
      if eq { return Some(DANGEROUS[i]); }
      assert DANGEROUS[..i + 1] == DANGEROUS[..i] + [DANGEROUS[i]];
    }
    assert DANGEROUS[..|DANGEROUS|] == DANGEROUS;
    r := None;
  }

  /** `classify_tag` */
  method ClassifyTag(name: string) returns (r: Option<Tid>)
    ensures r == Classify(name)
  {
    hide LowerAll;
    var eq := TagNameEq(name, "b");
    if eq { return Some(B); }
    eq := TagNameEq(name, "i");
    if eq { return Some(I); }
    eq := TagNameEq(name, "u");
    if eq { return Some(U); }
    eq := TagNameEq(name, "br");
    if eq { return Some(BR); }
    eq := TagNameEq(name, "p");
    if eq { return Some(P); }
    eq := TagNameEq(name, "ul");
    if eq { return Some(UL); }
    eq := TagNameEq(name, "ol");
    if eq { return Some(OL); }
    eq := TagNameEq(name, "li");
    if eq { return Some(LI); }
    eq := TagNameEq(name, "a");
    if eq { return Some(A); }
    eq := TagNameEq(name, "span");
    if eq { return Some(SPAN); }
    r := None;
  }

  /** `attr_name_is_danger` */
  method AttrNameIsDanger(name: string) returns (b: bool)
    ensures b == AttrDangerous(name)
  {
    if |name| >= 2 && Lower(name[0]) == 'o' && Lower(name[1]) == 'n' { return true; }
    for j := 0 to |name|
      invariant '(' !in name[..j]
    {
      if name[j] == '(' { return true; }
    }
    b := false;
  }

  /** `skip_attr_value`, also giving the value without its quotes. */
  method ReadAttrValue(s: string, p: nat) returns (value: string, q: nat)
    requires p <= |s|
    ensures q == p + ValueLen(s[p..]) && value == Value(s[p..])
  {
    if p >= |s| { return "", |s|; }
    Rest(s, p);
    if s[p] == '"' || s[p] == '\'' {
      q := FindChar(s[p], s, p + 1);
      value := s[p + 1..q];
      assert value == s[p..][1..][..q - p - 1];
      if q < |s| { q := q + 1; }
    } else {
      q := SkipWhile(UnquotedChar, s, p);
      value := s[p..q];
      assert value == s[p..][..q - p];
    }
  }
}
