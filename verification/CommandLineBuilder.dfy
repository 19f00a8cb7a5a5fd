/**
The two passes that build a Windows command line: one measures, one writes, and they agree.
*/
module CommandLineBuilder {
  import opened CommandLine

  const MAX_LINE := 1000000

  datatype Result = Built(line: string) | InvalidArgument | LimitExceeded

  /** `win_arg_needs_quotes` */
  method ArgNeedsQuotes(arg: string) returns (b: bool)
    ensures b == NeedsQuotes(arg)
  {
    if arg == "" { return true; }
    for i := 0 to |arg|
      invariant forall j | 0 <= j < i :: !ForcesQuotes(arg[j])
    {
      if ForcesQuotes(arg[i]) { return true; }
    }
    b := false;
  }

  lemma NextChar(arg: string, i: nat)
    requires i < |arg|
    ensures arg[i..] != "" && arg[i..][0] == arg[i] && arg[i..][1..] == arg[i + 1..]
  {
  }

  lemma SlashesLength(n: nat)
    ensures |Slashes(n)| == n
  {
  }

  /** `win_one_arg_cmdline_len`: the measuring pass. */
  method OneArgLength(arg: string) returns (n: nat)
    ensures n == |Quote(arg)|
  {
    hide Slashes, NeedsQuotes;
    var quoted := ArgNeedsQuotes(arg);
    if !quoted { return |arg|; }
    n := 2;
    var slashes := 0;
    assert arg[0..] == arg;
    for i := 0 to |arg|
      invariant n + |QuotedRest(arg[i..], slashes)| == |Quote(arg)| + 1
    {
      NextChar(arg, i);
      SlashesLength(slashes * 2 + 1);
      SlashesLength(slashes);
      if arg[i] == '\\' {
        slashes := slashes + 1;
      } else if arg[i] == '"' {
        n := n + slashes * 2 + 1;
        slashes := 0;
        n := n + 1;
      } else {
        n := n + slashes;
        slashes := 0;
        n := n + 1;
      }
    }
    assert arg[|arg|..] == "";
    SlashesLength(slashes * 2);
    n := n + slashes * 2;
  }

  /** Write one character if it leaves room for the terminating NUL. */
  method Put(buf: array<char>, pos: nat, c: char) returns (ok: bool)
    modifies buf
    ensures ok == (pos + 1 < buf.Length)
    ensures ok ==> buf[..pos + 1] == old(buf[..pos]) + [c]
  {
    if pos + 1 >= buf.Length { return false; }
    buf[pos] := c;
    ok := true;
  }

  /** The three loops that write backslashes. */
  method PutSlashes(buf: array<char>, pos: nat, count: nat) returns (ok: bool)
    requires pos < buf.Length
    modifies buf
    ensures ok == (pos + count < buf.Length)
    ensures ok ==> buf[..pos + count] == old(buf[..pos]) + Slashes(count)
  {
    for k := 0 to count
      invariant pos + k < buf.Length
      invariant buf[..pos + k] == old(buf[..pos]) + Slashes(k)
    {
      ok := Put(buf, pos + k, '\\');
      if !ok { return; }
      assert Slashes(k) + ['\\'] == Slashes(k + 1);
    }
    ok := true;
  }

  /** A character that is no backslash: the pending ones first. */
  method PutChar(buf: array<char>, pos: nat, slashes: nat, c: char) returns (ok: bool, pos': nat)
    requires pos < buf.Length
    modifies buf
    ensures pos' == pos + (if c == '"' then slashes * 2 + 1 else slashes) + 1
    ensures ok == (pos' < buf.Length)
    ensures ok ==> buf[..pos'] == old(buf[..pos]) +
                     (Slashes(if c == '"' then slashes * 2 + 1 else slashes) + [c])
  {
    hide Slashes;
    var count := if c == '"' then slashes * 2 + 1 else slashes;
    pos' := pos + count + 1;
    ok := PutSlashes(buf, pos, count);
    if !ok { return; }
    ok := Put(buf, pos + count, c);
  }

  /** The quoted branch of `win_append_one_arg`, behind the opening quote. */
  method AppendQuoted(buf: array<char>, start: nat, arg: string) returns (ok: bool, pos: nat)
    requires start < buf.Length
    modifies buf
    ensures ok == (start + |QuotedRest(arg, 0)| < buf.Length)
    ensures ok ==> pos == start + |QuotedRest(arg, 0)| && buf[..pos] == old(buf[..start]) + QuotedRest(arg, 0)
  {
    hide Slashes;
    pos := start;
    var slashes := 0;
    ghost var goal := QuotedRest(arg, 0);
    assert arg[0..] == arg;
    for i := 0 to |arg|
      invariant pos < buf.Length
      invariant pos + |QuotedRest(arg[i..], slashes)| == start + |goal|
      invariant buf[..pos] + QuotedRest(arg[i..], slashes) == old(buf[..start]) + goal
    {
      NextChar(arg, i);
      if arg[i] == '\\' {
        slashes := slashes + 1;
      } else {
        ghost var before := buf[..pos];
        ghost var count := if arg[i] == '"' then slashes * 2 + 1 else slashes;
        ghost var more := QuotedRest(arg[i + 1..], 0);
        SlashesLength(count);
        assert before + (Slashes(count) + [arg[i]] + more) == before + (Slashes(count) + [arg[i]]) + more;
        ok, pos := PutChar(buf, pos, slashes, arg[i]);
        if !ok { return; }
        slashes := 0;
      }
    }
    assert arg[|arg|..] == "";
    ghost var before := buf[..pos];
    SlashesLength(slashes * 2);
    assert before + (Slashes(slashes * 2) + "\"") == before + Slashes(slashes * 2) + "\"";
    ok := PutSlashes(buf, pos, slashes * 2);
    if ok {
      ok := Put(buf, pos + slashes * 2, '"');
    }
    pos := pos + slashes * 2 + 1;
  }

  /** The unquoted branch of `win_append_one_arg`. */
  method AppendBare(buf: array<char>, start: nat, arg: string) returns (ok: bool, pos: nat)
    requires start < buf.Length
    modifies buf
    ensures ok == (start + |arg| < buf.Length)
    ensures ok ==> pos == start + |arg| && buf[..pos] == old(buf[..start]) + arg
  {
    for i := 0 to |arg|
      invariant start + i < buf.Length
      invariant buf[..start + i] == old(buf[..start]) + arg[..i]
    {
      ok := Put(buf, start + i, arg[i]);
      if !ok { return false, start + i; }
      assert arg[..i + 1] == arg[..i] + [arg[i]];
    }
    assert arg[..|arg|] == arg;
    ok, pos := true, start + |arg|;
  }

  /** `win_append_one_arg`: the writing pass. */
  method AppendOneArg(buf: array<char>, start: nat, arg: string) returns (ok: bool, pos: nat)
    requires start < buf.Length
    modifies buf
    ensures ok == (start + |Quote(arg)| < buf.Length)
    ensures ok ==> pos == start + |Quote(arg)| && buf[..pos] == old(buf[..start]) + Quote(arg)
  {
    hide QuotedRest, NeedsQuotes;
    var quoted := ArgNeedsQuotes(arg);
    if !quoted {
      ok, pos := AppendBare(buf, start, arg);
      return;
    }
    QuotedNotEmpty(arg, 0);
    ok := Put(buf, start, '"');
    if !ok { return false, start; }
    ghost var before := old(buf[..start]);
    assert before + ['"'] + QuotedRest(arg, 0) == before + Quote(arg);
    ok, pos := AppendQuoted(buf, start + 1, arg);
  }

  lemma {:induction false} QuotedNotEmpty(arg: string, pending: nat)
    ensures QuotedRest(arg, pending) != ""
  {
    if arg != "" && arg[0] == '\\' { QuotedNotEmpty(arg[1..], pending + 1); }
  }

  /** The line up to argument `k`. */
  function Prefix(argv: seq<string>, k: nat): string
    requires k <= |argv|
  {
    if k == 0 then "" else Prefix(argv, k - 1) + (if k > 1 then " " else "") + Quote(argv[k - 1])
  }

  lemma {:induction false} PrefixIsLine(argv: seq<string>, k: nat)
    requires 1 <= k <= |argv|
    ensures Prefix(argv, k) + Tail(argv[k..]) == Line(argv)
  {
    hide Quote;
    if k == 1 {
      assert Prefix(argv, 1) == Prefix(argv, 0) + "" + Quote(argv[0]) == Quote(argv[0]);
    } else {
      PrefixIsLine(argv, k - 1);
      assert argv[k - 1..][0] == argv[k - 1] && argv[k - 1..][1..] == argv[k..];
      var x, q, t := Prefix(argv, k - 1), Quote(argv[k - 1]), Tail(argv[k..]);
      assert x + (" " + q + t) == x + " " + q + t;
    }
  }

  lemma {:induction false} PrefixGrows(argv: seq<string>, j: nat, k: nat)
    requires j <= k <= |argv|
    ensures |Prefix(argv, j)| <= |Prefix(argv, k)|
  {
    hide Quote;
    if j < k { PrefixGrows(argv, j, k - 1); }
  }

  lemma PrefixWhole(argv: seq<string>)
    requires argv != []
    ensures Prefix(argv, |argv|) == Line(argv)
  {
    hide Quote;
    PrefixIsLine(argv, |argv|);
    assert argv[|argv|..] == [];
    assert Prefix(argv, |argv|) + "" == Prefix(argv, |argv|);
  }

  /**
  `win_build_cmdline`: a line within the limit is always written in full; the limit checks of the
  writing pass never fire.
  */
  method BuildCommandLine(argv: seq<string>) returns (r: Result)
    ensures r == if argv == [] then InvalidArgument
                 else if |Line(argv)| + 1 > 1000000 then LimitExceeded
                 else Built(Line(argv))
  {
    hide Quote, Line;
    if argv == [] { return InvalidArgument; }
    PrefixWhole(argv);
    var total := 1;
    for j := 0 to |argv|
      invariant total == 1 + |Prefix(argv, j)| <= MAX_LINE
    {
      if j > 0 { total := total + 1; }
      var n := OneArgLength(argv[j]);
      total := total + n;
      PrefixGrows(argv, j + 1, |argv|);
      if total > MAX_LINE { return LimitExceeded; }
    }

    var buf := new char[total](_ => '\0');
    var pos := 0;
    for j := 0 to |argv|
      invariant pos == |Prefix(argv, j)| < buf.Length && buf[..pos] == Prefix(argv, j)
    {
      PrefixGrows(argv, j + 1, |argv|);
      ghost var before := buf[..pos];
      if j > 0 {
        var room := Put(buf, pos, ' ');
        assert room;
        pos := pos + 1;
      }
      assert buf[..pos] == before + (if j > 0 then " " else "");
      var ok;
      ok, pos := AppendOneArg(buf, pos, argv[j]);
      assert ok;
    }
    buf[pos] := '\0';
    r := Built(buf[..pos]);
  }
}
