/**
What the sanitizer computes: a tree, read off the input token by token.
*/
module HtmlSpec {
  import opened Ascii
  import opened HtmlScan
  import opened HtmlTree

  const MAX_DEPTH := 64
  const MAX_IN := 512 * 1024

  datatype Token = Char(c: char) | Skip | Break | Start(tid: Tid, inner: string) | End(tid: Tid)

  /** How much is dropped with a dangerous tag: its content and its closing tag, or all the rest. */
  function DangerLen(t: string, name: string): (n: nat)
    requires t != []
    ensures 1 <= n <= |t|
  {
    var after := TagLen(t, Unquoted);
    var body := FindClose(t[after..], name);
    after + body + TagLen(t[after + body..], Unquoted)
  }

  /** The token at the head of the input, and its length. */
  function NextToken(t: string): (r: (Token, nat))
    requires t != []
    ensures 1 <= r.1 <= |t|
  {
    var n := TagLen(t, Unquoted);
    if t[0] != '<' then (Char(t[0]), 1)
    else if |t| >= 4 && t[1] == '!' && t[2] == '-' && t[3] == '-' then (Skip, 4 + CommentLen(t[4..]))
    else if |t| >= 2 && (t[1] == '!' || t[1] == '?') then (Skip, n)
    else if |t| >= 2 && t[1] == '/' then
      var u := SkipBlank(t[2..]);
      var name := u[..Span(IsTagNameChar, u)];
      if name == "" then (Char('<'), 1)
      else
        match Classify(name)
        case None => (Skip, n)
        case Some(tid) => (if tid == BR then Skip else End(tid), n)
    else
      var u := SkipBlank(t[1..]);
      var name := u[..Span(IsTagNameChar, u)];
      if name == "" then (Char('<'), 1)
      else if IsDangerous(name) then (Skip, DangerLen(t, LowerAll(name)))
      else
        match Classify(name)
        case None => (Skip, n)
        case Some(tid) => (if tid == BR then Break else Start(tid, Inner(t)), n)
  }

  /** The attributes of the opening tag at the head of `t`, with the closing `>`. */
  function Inner(t: string): string
    requires t != []
  {
    var q := 1 + Blank(t[1..]) + Span(IsTagNameChar, SkipBlank(t[1..]));
    var n := TagLen(t, Unquoted);
    if q <= n then t[q..n] else ""
  }

  lemma MeetsTag(t: string)
    requires t != [] && t[0] == '<'
    requires !(|t| >= 2 && (t[1] == '!' || t[1] == '?' || t[1] == '/'))
    ensures var u := SkipBlank(t[1..]); var name := u[..Span(IsTagNameChar, u)]; var n := TagLen(t, Unquoted);
      NextToken(t) ==
      if name == "" then (Char('<'), 1)
      else if IsDangerous(name) then (Skip, DangerLen(t, LowerAll(name)))
      else match Classify(name)
           case None => (Skip, n)
           case Some(tid) => (if tid == BR then Break else Start(tid, Inner(t)), n)
  {
    hide Span, SkipBlank, TagLen, DangerLen, Classify, LowerAll, IsDangerous, CommentLen, Inner;
  }

  lemma MeetsClose(t: string)
    requires |t| >= 2 && t[0] == '<' && t[1] == '/'
    ensures var u := SkipBlank(t[2..]); var name := u[..Span(IsTagNameChar, u)]; var n := TagLen(t, Unquoted);
      NextToken(t) ==
      if name == "" then (Char('<'), 1)
      else match Classify(name)
           case None => (Skip, n)
           case Some(tid) => (if tid == BR then Skip else End(tid), n)
  {
    hide Span, SkipBlank, TagLen, DangerLen, Classify, LowerAll, IsDangerous, CommentLen, Inner;
  }

  lemma InnerIs(t: string)
    requires t != []
    ensures var q := 1 + Blank(t[1..]) + Span(IsTagNameChar, SkipBlank(t[1..])); var n := TagLen(t, Unquoted);
      Inner(t) == if q <= n then t[q..n] else ""
  {
  }

  /** `Stuck` where `parse_anchor_href` would not return. */
  datatype Scan = Running(open: Open) | Stuck(open: Open)

  function Apply(o: Open, tok: Token): (s: Scan)
    ensures PrintOpen(o) <= PrintOpen(s.open)
  {
    match tok
    case Char(c) => Running(Append(o, Text(c)))
    case Skip => Running(o)
    case Break => Running(Append(o, LineBreak))
    case End(tid) => Running(if o.Inside? && o.tag.tid == tid then Pop(o) else o)
    case Start(tid, inner) =>
      if Depth(o) >= MAX_DEPTH then Running(o)
      else if tid != A then Running(Push(o, Tag(tid, "")))
      else
        match FindHref(inner)
        case None => Stuck(o)
        case Some(href) => Running(if href == "" then o else Push(o, Tag(A, href)))
  }

  function Sanitize(t: string, o: Open): (s: Scan)
    ensures PrintOpen(o) <= PrintOpen(s.open)
    decreases |t|
  {
    if t == [] then Running(o)
    else
      var (tok, n) := NextToken(t);
      var s := Apply(o, tok);
      if s.Stuck? then s else Sanitize(t[n..], s.open)
  }

  /** The state of the scan when it has passed over exactly `k` characters, if it stops there. */
  function ScanTo(t: string, k: nat, o: Open): Option<Open>
    requires k <= |t|
    decreases |t|
  {
    if k == 0 then Some(o)
    else
      var (tok, n) := NextToken(t);
      var s := Apply(o, tok);
      if s.Stuck? || n > k then None else ScanTo(t[n..], k - n, s.open)
  }

  /** A token boundary splits the scan. */
  lemma {:induction false} ScanSplits(t: string, k: nat, o: Open)
    requires k <= |t| && ScanTo(t, k, o).Some?
    ensures Sanitize(t, o) == Sanitize(t[k..], ScanTo(t, k, o).value)
    decreases |t|
  {
    hide NextToken, Apply;
    if k > 0 {
      var (tok, n) := NextToken(t);
      ScanSplits(t[n..], k - n, Apply(o, tok).open);
      assert t[n..][k - n..] == t[k..];
    } else {
      assert t[0..] == t;
    }
  }

  lemma StuckAtOnce(t: string, o: Open)
    requires t != [] && Apply(o, NextToken(t).0) == Stuck(o)
    ensures Sanitize(t, o) == Stuck(o)
  {
    hide NextToken, Apply, PrintOpen;
  }

  datatype Outcome = Accepted(text: string) | Rejected | Hangs

  predicate Fits(s: string, max: nat) { |s| + 1 <= max }

  /** The result of `update_html_sanitize_alloc`, allocation failures aside. */
  function SanitizeOutcome(input: string, max: nat): Outcome {
    if |input| > MAX_IN || max == 0 then Rejected
    else
      match Sanitize(input, Top(Nil))
      case Stuck(o) => if Fits(PrintOpen(o), max) then Hangs else Rejected
      case Running(o) =>
        if Fits(Print(CloseAll(o)), max) then Accepted(Print(CloseAll(o))) else Rejected
  }

  /** Inner begins inside the tag: blanks and names hold neither quotes nor `>`. */
  lemma {:induction false} TagLenPasses(t: string, k: nat)
    requires k <= |t| && forall i | 0 <= i < k :: t[i] != '>' && t[i] != '"' && t[i] != '\''
    ensures TagLen(t, Unquoted) == k + TagLen(t[k..], Unquoted)
  {
    if k > 0 {
      TagLenPasses(t[1..], k - 1);
      assert t[1..][k - 1..] == t[k..];
    } else {
      assert t[0..] == t;
    }
  }

  lemma InnerWithin(t: string)
    requires t != [] && t[0] == '<'
    ensures 1 + Blank(t[1..]) + Span(IsTagNameChar, SkipBlank(t[1..])) <= TagLen(t, Unquoted)
  {
    TagLenPasses(t, 1 + Blank(t[1..]) + Span(IsTagNameChar, SkipBlank(t[1..])));
  }
}
