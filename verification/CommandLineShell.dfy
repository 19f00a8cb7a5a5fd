/**
The other reading of the program name.  `CommandLineToArgvW` ends a quoted name at the next quotation
mark, where the C run time (`CommandLine.SplitProgram`) lets marks open and close quoted parts; behind
the name both split alike.
*/
module CommandLineShell {
  import opened Ascii
  import opened CommandLine

  predicate NotBlank(c: char) { !IsBlank(c) }

  function ShellProgram(line: string): (string, string) {
    if line != "" && line[0] == '"' then
      var n := Upto('"', line[1..]);
      (line[1..][..n], if n + 2 <= |line| then line[n + 2..] else "")
    else
      var n := Span(NotBlank, line);
      (line[..n], line[n..])
  }

  function ShellSplit(line: string, pairs: bool): (string, seq<string>) {
    var (name, rest) := ShellProgram(line);
    (name, SplitArgs(rest, pairs))
  }

  lemma ReadsQuotedName(seen: string, rest: string)
    requires '"' !in seen
    ensures ShellProgram("\"" + seen + "\"" + rest) == (seen, rest)
  {
    var line := "\"" + seen + "\"" + rest;
    var t := line[1..];
    assert t == seen + "\"" + rest && t[..|seen|] == seen;
    UptoIs('"', t, |seen|);
    assert line[|seen| + 2..] == rest;
  }

  lemma ReadsBareName(name: string, rest: string)
    requires '"' !in name && name != "" && Ends(rest) && forall i | 0 <= i < |name| :: NotBlank(name[i])
    ensures ShellProgram(name + rest) == (name, rest)
  {
    var line := name + rest;
    assert line[0] == name[0] && name[0] in name;
    SpanIs(NotBlank, line, |name|);
    assert line[..|name|] == name && line[|name|..] == rest;
  }

  lemma ReadsName(name: string, rest: string)
    requires '"' !in name && Ends(rest)
    ensures ShellProgram(Quote(name) + rest) == (SeenName(name), rest)
  {
    hide ShellProgram;
    if NeedsQuotes(name) {
      hide QuotedRest, Slashes, Trailing;
      QuotedName(name, 0);
      SlashesAdd(0, name);
      assert Quote(name) + rest == "\"" + SeenName(name) + "\"" + rest;
      NoMarkInSeen(name);
      ReadsQuotedName(SeenName(name), rest);
    } else {
      assert forall i | 0 <= i < |name| :: !ForcesQuotes(name[i]);
      ReadsBareName(name, rest);
    }
  }

  /** A mark inside the name is written in front of the closing one. */
  lemma MarkComesFirst(name: string, pending: nat)
    requires '"' in name
    ensures var q := QuotedRest(name, pending); Upto('"', q) < |q| - 1 && q[|q| - 1] == '"'
  {
    hide Slashes, Upto;
    var q := QuotedRest(name, pending);
    QuotedEndsInMark(name, pending);
    var i := MarkAt(name, pending);
    UptoAtMost('"', q, i);
  }

  lemma {:induction false} MarkAt(name: string, pending: nat) returns (i: nat)
    requires '"' in name
    ensures var q := QuotedRest(name, pending); i < |q| - 1 && q[i] == '"'
    decreases |name|
  {
    var tail := name[1..];
    if name[0] == '\\' {
      i := MarkAt(tail, pending + 1);
    } else {
      QuotedEndsInMark(tail, 0);
      if name[0] == '"' {
        i := pending * 2 + 1;
      } else {
        i := MarkAt(tail, 0);
        i := i + pending + 1;
      }
    }
  }

  lemma SplitsAtMark(name: string, pairs: bool)
    requires '"' in name
    ensures SplitArgs(ShellProgram("\"" + QuotedRest(name, 0)).1, pairs) != []
  {
    hide QuotedRest, Upto, SplitArgs;
    var q := QuotedRest(name, 0);
    var line := "\"" + q;
    assert line[1..] == q;
    MarkComesFirst(name, 0);
    var n := Upto('"', q);
    var rest := line[n + 2..];
    assert rest == q[n + 1..] && rest[|rest| - 1] == q[|q| - 1];
    MarkMakesArgument(rest, |rest| - 1, pairs);
  }

  /** The round trip under this rule. */
  lemma ShellRoundTrip(argv: seq<string>, pairs: bool)
    requires argv != [] && '"' !in argv[0]
    ensures ShellSplit(Line(argv), pairs) == (SeenName(argv[0]), argv[1..])
  {
    hide ShellProgram, SplitArgs, Quote, Tail, SeenName;
    ReadsTail(argv[1..], pairs);
    ReadsName(argv[0], Tail(argv[1..]));
  }

  /** Under this rule every list of arguments comes back if and only if the program name holds no mark. */
  lemma ShellKeepsArgumentsExactly(name: string, pairs: bool)
    ensures '"' !in name <==>
            forall args: seq<string> :: ShellSplit(Line([name] + args), pairs).1 == args
  {
    hide ShellProgram, SplitArgs, QuotedRest;
    if '"' in name {
      SplitsAtMark(name, pairs);
      MarkNeedsQuotes(name);
      assert ([name] + [])[1..] == [];
      assert Line([name] + []) == "\"" + QuotedRest(name, 0);
    } else {
      forall args: seq<string> ensures ShellSplit(Line([name] + args), pairs).1 == args {
        assert ([name] + args)[1..] == args;
        ShellRoundTrip([name] + args, pairs);
      }
    }
  }

  lemma MarkNeedsQuotes(name: string)
    requires '"' in name
    ensures NeedsQuotes(name)
  {
    var i :| 0 <= i < |name| && name[i] == '"';
    assert ForcesQuotes(name[i]);
  }

  lemma QuotedMark()
    ensures NeedsQuotes("\"") && QuotedRest("\"", 0) == Slashes(1) + "\"" + "\""
  {
    MarkNeedsQuotes("\"");
    assert ("\"")[1..] == "" && Slashes(0) == "";
  }

  /** A name that fails under both rules, a single mark: one loses an argument, the other adds one. */
  lemma LoneMark(pairs: bool)
    ensures Split(Line(["\"", "x"]), pairs).1 == []
    ensures ShellSplit(Line(["\""]), pairs).1 != []
  {
    hide SplitArgs, SplitProgram, Tail, QuotedRest, Slashes, ShellProgram;
    var name, more := "\"", Tail(["x"]);
    QuotedMark();
    assert ["\"", "x"][1..] == ["x"] && ["\""][1..] == [];
    SwallowsX(pairs);
    var line := Slashes(1) + ("\"" + ("\"" + more));
    assert Line(["\"", "x"]) == "\"" + line;
    TogglesQuote(line, false);
    SkipsSlashes(1, "\"" + ("\"" + more), true);
    TogglesQuote("\"" + more, true);
    TogglesQuote(more, false);
    SplitsAtMark(name, pairs);
    assert Line(["\""]) == "\"" + QuotedRest(name, 0);
  }
}
