/**
The trees the sanitizer emits, their printing, and the state of a scan: the stack of open tags
together with what has already been written inside each of them.
*/
module HtmlTree {
  import opened HtmlScan

  /** `href` is "" for every tag but `A`. */
  datatype Tag = Tag(tid: Tid, href: string)

  /** One text character, one `<br>`, or an element around a forest. */
  datatype Node = Text(c: char) | LineBreak | Element(tag: Tag, kids: Forest)

  /** Siblings, the last one outermost. */
  datatype Forest = Nil | Snoc(front: Forest, last: Node)

  datatype Open = Top(done: Forest) | Inside(up: Open, tag: Tag, done: Forest)

  // ---------------------------------------------------------------- printing

  function Escape(c: char): string {
    if c == '&' then "&amp;" else if c == '<' then "&lt;" else if c == '>' then "&gt;"
    else if c == '"' then "&quot;" else [c]
  }

  function EscapeAll(s: string): string {
    if s == [] then [] else EscapeAll(s[..|s| - 1]) + Escape(s[|s| - 1])
  }

  function OpenTag(tag: Tag): string {
    if tag.tid == A then "<a href=\"" + EscapeAll(tag.href) + "\">" else "<" + TagName(tag.tid) + ">"
  }

  function CloseTag(tag: Tag): string { "</" + TagName(tag.tid) + ">" }

  function PrintNode(n: Node): string {
    match n
    case Text(c) => Escape(c)
    case LineBreak => "<br>"
    case Element(tag, kids) => OpenTag(tag) + Print(kids) + CloseTag(tag)
  }

  function Print(f: Forest): string {
    match f
    case Nil => ""
    case Snoc(front, last) => Print(front) + PrintNode(last)
  }

  function PrintOpen(o: Open): string {
    match o
    case Top(done) => Print(done)
    case Inside(up, tag, done) => PrintOpen(up) + OpenTag(tag) + Print(done)
  }

  // ---------------------------------------------------------------- the scan state

  function Depth(o: Open): nat { if o.Top? then 0 else 1 + Depth(o.up) }

  function Stack(o: Open): seq<Tid> { if o.Top? then [] else Stack(o.up) + [o.tag.tid] }

  function Append(o: Open, n: Node): (r: Open)
    ensures PrintOpen(r) == PrintOpen(o) + PrintNode(n)
    ensures Stack(r) == Stack(o) && Depth(r) == Depth(o)
  {
    match o
    case Top(done) => Top(Snoc(done, n))
    case Inside(up, tag, done) =>
      var x, y, z := PrintOpen(up) + OpenTag(tag), Print(done), PrintNode(n);
      assert x + (y + z) == x + y + z;
      Inside(up, tag, Snoc(done, n))
  }

  function Push(o: Open, tag: Tag): (r: Open)
    ensures PrintOpen(r) == PrintOpen(o) + OpenTag(tag)
    ensures Stack(r) == Stack(o) + [tag.tid]
  {
    Inside(o, tag, Nil)
  }

  function Pop(o: Open): (r: Open)
    requires o.Inside?
    ensures PrintOpen(r) == PrintOpen(o) + CloseTag(o.tag)
    ensures Stack(r) == Stack(o)[..|Stack(o)| - 1]
    ensures Depth(r) == Depth(o) - 1
  {
    Append(o.up, Element(o.tag, o.done))
  }

  /** Close whatever is still open. */
  function CloseAll(o: Open): (f: Forest)
    ensures PrintOpen(o) <= Print(f)
    decreases Depth(o)
  {
    if o.Top? then o.done else CloseAll(Pop(o))
  }
}
