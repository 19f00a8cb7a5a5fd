/**
The scanning primitives of the release-notes sanitizer, as functions on the unread rest of the
input: each says how many characters it passes over.
*/
module HtmlScan {
  import opened Ascii

  // ---------------------------------------------------------------- characters

  predicate IsTagNameChar(c: char) {
    'a' <= c <= 'z' || 'A' <= c <= 'Z' || '0' <= c <= '9' || c == '-' || c == ':'
  }

  predicate IsAttrNameChar(c: char) { IsTagNameChar(c) || c == '_' }

  // ---------------------------------------------------------------- tags

  datatype Quote = Unquoted | Single | Double

  /** `skip_to_tag_end`: up to and including the first `>` outside quotes, or everything. */
  function TagLen(t: string, q: Quote): (n: nat)
    ensures n <= |t|
    ensures t != [] ==> n >= 1
  {
    if t == [] then 0
    else
      match q
      case Double => 1 + TagLen(t[1..], if t[0] == '"' then Unquoted else Double)
      case Single => 1 + TagLen(t[1..], if t[0] == '\'' then Unquoted else Single)
      case Unquoted =>
        if t[0] == '>' then 1
        else 1 + TagLen(t[1..], if t[0] == '"' then Double else if t[0] == '\'' then Single else Unquoted)
  }

  /** A closing tag for `name` starts here: not merely for a longer name. */
  predicate IsCloseTag(t: string, name: string) {
    var n := 2 + |name|;
    && n <= |t| && t[0] == '<' && t[1] == '/' && LowerAll(t[2..n]) == name
    && (n == |t| || !IsTagNameChar(t[n]))
  }

  /** `find_close_tag_open`; `|t|` stands for "none". */
  function FindClose(t: string, name: string): (n: nat)
    ensures n <= |t|
    ensures n < |t| ==> IsCloseTag(t[n..], name)
    ensures forall i | 0 <= i < n :: !IsCloseTag(t[i..], name)
  {
    if t == [] || IsCloseTag(t, name) then 0
    else
      var n := FindClose(t[1..], name);
      assert forall i | 1 <= i <= |t| :: t[i..] == t[1..][i - 1..];
      1 + n
  }

  lemma {:induction false} FindCloseIs(t: string, name: string, n: nat)
    requires n <= |t| && (n < |t| ==> IsCloseTag(t[n..], name))
    requires forall i | 0 <= i < n :: !IsCloseTag(t[i..], name)
    ensures FindClose(t, name) == n
  {
    if n > 0 {
      assert t[0..] == t;
      assert forall i | 0 <= i < |t| :: t[1..][i..] == t[i + 1..];
      FindCloseIs(t[1..], name, n - 1);
    }
  }

  /** What follows `<!--`: up to and including the first `-->`, or everything. */
  function CommentLen(t: string): (n: nat)
    ensures n <= |t|
  {
    if |t| <= 2 then |t|
    else if t[0] == '-' && t[1] == '-' && t[2] == '>' then 3
    else 1 + CommentLen(t[1..])
  }

  const DANGEROUS: seq<string> := [
    "script", "style", "iframe", "img", "video", "audio", "object", "embed", "link", "meta", "base",
    "form", "input", "textarea", "button", "svg", "math"]

  predicate IsDangerous(name: string) { LowerAll(name) in DANGEROUS }

  datatype Tid = B | I | U | BR | P | UL | OL | LI | A | SPAN

  function TagName(tid: Tid): string {
    match tid
    case B => "b"
    case I => "i"
    case U => "u"
    case BR => "br"
    case P => "p"
    case UL => "ul"
    case OL => "ol"
    case LI => "li"
    case A => "a"
    case SPAN => "span"
  }

  function Classify(name: string): (r: Option<Tid>)
    ensures r.Some? ==> TagName(r.value) == LowerAll(name)
  {
    var n := LowerAll(name);
    if n == "b" then Some(B)
    else if n == "i" then Some(I)
    else if n == "u" then Some(U)
    else if n == "br" then Some(BR)
    else if n == "p" then Some(P)
    else if n == "ul" then Some(UL)
    else if n == "ol" then Some(OL)
    else if n == "li" then Some(LI)
    else if n == "a" then Some(A)
    else if n == "span" then Some(SPAN)
    else None
  }

  // ---------------------------------------------------------------- link targets

  predicate StartsCi(s: string, lit: string) {
    |lit| <= |s| && LowerAll(s[..|lit|]) == lit
  }

  /** `href_is_safe`: after white space a fragment or one of three schemes. */
  predicate HrefSafe(h: string) {
    var t := SkipBlank(h);
    && t != []
    && (t[0] == '#' || StartsCi(t, "http://") || StartsCi(t, "https://") || StartsCi(t, "mailto:"))
  }

  predicate AttrDangerous(name: string) {
    (|name| >= 2 && Lower(name[0]) == 'o' && Lower(name[1]) == 'n') || '(' in name
  }

  predicate UnquotedChar(c: char) { !IsSpace(c) && c != '>' && c != '/' }

  /** `skip_attr_value` */
  function ValueLen(t: string): (n: nat)
    ensures n <= |t|
  {
    if t == [] then 0
    else if t[0] == '"' || t[0] == '\'' then
      var n := Upto(t[0], t[1..]);
      if 1 + n < |t| then n + 2 else |t|
    else Span(UnquotedChar, t)
  }

  /** The value of an attribute, without its quotes. */
  function Value(t: string): string {
    if t == [] then ""
    else if t[0] == '"' || t[0] == '\'' then t[1..][..Upto(t[0], t[1..])]
    else t[..Span(UnquotedChar, t)]
  }

  const HREF_CAP := 2048

  datatype HrefScan = Scanning(rest: string, href: string) | Finished(href: string)

  /** The end of a turn, at the value of an attribute. */
  function ValueTurn(name: string, y: string, href: string): (s: HrefScan)
    ensures s.Scanning? ==> |s.rest| <= |y|
  {
    var z := y[ValueLen(y)..];
    if y == [] then Finished(href)
    else if AttrDangerous(name) || LowerAll(name) != "href" || href != "" then Scanning(z, href)
    else if HrefSafe(Value(y)) && |Value(y)| + 1 <= HREF_CAP then Scanning(z, CString(Value(y)))
    else Scanning(z, href)
  }

  /** One turn of the loop of `parse_anchor_href`. */
  function HrefTurn(t: string, href: string): (s: HrefScan)
    ensures s.Scanning? ==> |s.rest| <= |t|
    ensures s.Scanning? && |s.rest| == |t| ==> s == Scanning(t, href)
  {
    var v := SkipBlank(t);
    if v == [] || v[0] == '>' || (|v| >= 2 && v[0] == '/' && v[1] == '>') then Finished(href)
    else
      var n := Span(IsAttrNameChar, v);
      var x := SkipBlank(v[n..]);
      if x == [] || x[0] != '=' then Scanning(x, href)
      else ValueTurn(v[..n], SkipBlank(x[1..]), href)
  }

  lemma TurnAtEnd(t: string, href: string)
    requires SkipBlank(t) == ""
    ensures HrefTurn(t, href) == Finished(href)
  {
  }

  /** What one turn does, from the positions the loop computes. */
  lemma TurnAt(t: string, href: string, v: string, n: nat, x: string)
    requires v == SkipBlank(t) && v != [] && v[0] != '>' && !(|v| >= 2 && v[0] == '/' && v[1] == '>')
    requires n == Span(IsAttrNameChar, v) && x == SkipBlank(v[n..])
    ensures HrefTurn(t, href) ==
            if x == [] || x[0] != '=' then Scanning(x, href) else ValueTurn(v[..n], SkipBlank(x[1..]), href)
  {
  }

  lemma TurnEnds(t: string, href: string, v: string)
    requires v == SkipBlank(t) && v != [] && (v[0] == '>' || (|v| >= 2 && v[0] == '/' && v[1] == '>'))
    ensures HrefTurn(t, href) == Finished(href)
  {
  }

  /** The whole loop; `None` when a turn neither ends it nor moves on, so that it never ends. */
  function HrefLoop(t: string, href: string): Option<string>
    decreases |t|
  {
    match HrefTurn(t, href)
    case Finished(h) => Some(h)
    case Scanning(rest, h) => if |rest| < |t| then HrefLoop(rest, h) else None
  }

  /** `parse_anchor_href`: the first safe target, "" if there is none. */
  function FindHref(inner: string): Option<string> { HrefLoop(SkipBlank(inner), "") }
}
