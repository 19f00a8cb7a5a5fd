/**
Windows command lines: what quoting writes, and the documented rules by which the started program
splits the line again.
*/
module CommandLine {

  // ---------------------------------------------------------------- quoting

  predicate ForcesQuotes(c: char) {
    c == ' ' || c == '\t' || c == '\n' || c == '\r' || c == '\U{0B}' || c == '"'
  }

  predicate NeedsQuotes(arg: string) { arg == "" || exists i | 0 <= i < |arg| :: ForcesQuotes(arg[i]) }

  function Slashes(n: nat): string { seq(n, _ => '\\') }

  /** What follows the opening quote, `pending` backslashes having been read but not written. */
  function QuotedRest(arg: string, pending: nat): string {
    if arg == "" then Slashes(pending * 2) + "\""
    else if arg[0] == '\\' then QuotedRest(arg[1..], pending + 1)
    else if arg[0] == '"' then Slashes(pending * 2 + 1) + "\"" + QuotedRest(arg[1..], 0)
    else Slashes(pending) + [arg[0]] + QuotedRest(arg[1..], 0)
  }

  function Quote(arg: string): string {
    if NeedsQuotes(arg) then "\"" + QuotedRest(arg, 0) else arg
  }

  /** The arguments behind the program name, each after a space. */
  function Tail(args: seq<string>): string {
    if args == [] then "" else " " + Quote(args[0]) + Tail(args[1..])
  }

  function Line(argv: seq<string>): string
    requires argv != []
  {
    Quote(argv[0]) + Tail(argv[1..])
  }

  // ---------------------------------------------------------------- the documented splitting rules

  predicate IsBlank(c: char) { c == ' ' || c == '\t' }

  /**
  "Parsing C command-line arguments": 2n backslashes before a quotation mark stand for n of them
  and the mark opens or closes a quoted part; 2n + 1 stand for n and a literal mark; backslashes
  elsewhere stand for themselves.  `pairs` says whether a doubled mark inside a quoted part is a
  literal mark, on which the documented splitters differ.
  Returns the rest of the argument, `n` backslashes having been read, and the rest of the line.
  */
  function SplitArg(line: string, n: nat, quoted: bool, pairs: bool): (r: (string, string))
    ensures |r.1| <= |line|
    decreases |line|
  {
    if line == "" then (Slashes(n), "")
    else if line[0] == '\\' then SplitArg(line[1..], n + 1, quoted, pairs)
    else if line[0] == '"' then
      if n % 2 == 1 then
        var (a, rest) := SplitArg(line[1..], 0, quoted, pairs);
        (Slashes(n / 2) + "\"" + a, rest)
      else if pairs && quoted && |line| > 1 && line[1] == '"' then
        var (a, rest) := SplitArg(line[2..], 0, quoted, pairs);
        (Slashes(n / 2) + "\"" + a, rest)
      else
        var (a, rest) := SplitArg(line[1..], 0, !quoted, pairs);
        (Slashes(n / 2) + a, rest)
    else if IsBlank(line[0]) && !quoted then (Slashes(n), line)
    else
      var (a, rest) := SplitArg(line[1..], 0, quoted, pairs);
      (Slashes(n) + [line[0]] + a, rest)
  }

  function SplitArgs(line: string, pairs: bool): seq<string>
    decreases |line|
  {
    if line == "" then []
    else if IsBlank(line[0]) then SplitArgs(line[1..], pairs)
    else
      var (a, rest) := SplitArg(line, 0, false, pairs);
      if |rest| < |line| then [a] + SplitArgs(rest, pairs) else [a]
  }

  /** The program name as the C run time reads it: quotation marks are dropped, backslashes are ordinary characters. */
  function SplitProgram(line: string, quoted: bool): (string, string) {
    if line == "" then ("", "")
    else if line[0] == '"' then SplitProgram(line[1..], !quoted)
    else if IsBlank(line[0]) && !quoted then ("", line)
    else
      var (a, rest) := SplitProgram(line[1..], quoted);
      ([line[0]] + a, rest)
  }

  function Split(line: string, pairs: bool): (string, seq<string>) {
    var (name, rest) := SplitProgram(line, false);
    (name, SplitArgs(rest, pairs))
  }

  // ---------------------------------------------------------------- round trip of one argument

  /** An argument ends at the end of the line or at a blank. */
  predicate Ends(rest: string) { rest == "" || rest[0] == ' ' }

  lemma {:induction false} ReadsSlashes(n: nat, j: nat, rest: string, quoted: bool, pairs: bool)
    ensures SplitArg(Slashes(n) + rest, j, quoted, pairs) == SplitArg(rest, j + n, quoted, pairs)
  {
    if n == 0 {
      assert Slashes(n) + rest == rest;
    } else {
      assert (Slashes(n) + rest)[1..] == Slashes(n - 1) + rest;
      ReadsSlashes(n - 1, j + 1, rest, quoted, pairs);
    }
  }

  lemma ClosesQuote(pending: nat, rest: string, pairs: bool)
    requires Ends(rest)
    ensures SplitArg("\"" + rest, pending * 2, true, pairs) == (Slashes(pending), rest)
  {
    var line := "\"" + rest;
    assert line[1..] == rest;
    assert Slashes(0) == "";
    assert SplitArg(rest, 0, false, pairs) == ("", rest);
    assert Slashes(pending) + "" == Slashes(pending);
  }

  lemma ReadsMark(pending: nat, more: string, quoted: bool, pairs: bool)
    ensures var r := SplitArg(more, 0, quoted, pairs);
      SplitArg("\"" + more, pending * 2 + 1, quoted, pairs) == (Slashes(pending) + "\"" + r.0, r.1)
  {
    assert ("\"" + more)[1..] == more && (pending * 2 + 1) % 2 == 1 && (pending * 2 + 1) / 2 == pending;
  }

  lemma ReadsChar(c: char, n: nat, more: string, quoted: bool, pairs: bool)
    requires c != '\\' && c != '"' && (quoted || !IsBlank(c))
    ensures var r := SplitArg(more, 0, quoted, pairs);
      SplitArg([c] + more, n, quoted, pairs) == (Slashes(n) + [c] + r.0, r.1)
  {
    assert ([c] + more)[1..] == more;
  }

  lemma SlashesAdd(n: nat, s: string)
    ensures Slashes(n + 1) + s == Slashes(n) + (['\\'] + s)
    ensures Slashes(0) + s == s && Slashes(n) + "" == Slashes(n)
  {
  }

  lemma {:induction false} ReadsQuoted(arg: string, pending: nat, rest: string, pairs: bool)
    requires Ends(rest)
    ensures SplitArg(QuotedRest(arg, pending) + rest, 0, true, pairs) == (Slashes(pending) + arg, rest)
    decreases |arg|
  {
    hide SplitArg, Slashes;
    if arg == "" {
      assert QuotedRest(arg, pending) + rest == Slashes(pending * 2) + ("\"" + rest);
      ReadsSlashes(pending * 2, 0, "\"" + rest, true, pairs);
      ClosesQuote(pending, rest, pairs);
      SlashesAdd(pending, "");
    } else {
      var c, tail := arg[0], arg[1..];
      assert [c] + tail == arg;
      SlashesAdd(pending, tail);
      if c == '\\' {
        ReadsQuoted(tail, pending + 1, rest, pairs);
      } else {
        var more := QuotedRest(tail, 0) + rest;
        ReadsQuoted(tail, 0, rest, pairs);
        assert Slashes(pending) + [c] + tail == Slashes(pending) + arg;
        if c == '"' {
          assert QuotedRest(arg, pending) + rest == Slashes(pending * 2 + 1) + ("\"" + more);
          ReadsSlashes(pending * 2 + 1, 0, "\"" + more, true, pairs);
          ReadsMark(pending, more, true, pairs);
        } else {
          assert QuotedRest(arg, pending) + rest == Slashes(pending) + ([c] + more);
          ReadsSlashes(pending, 0, [c] + more, true, pairs);
          ReadsChar(c, pending, more, true, pairs);
        }
      }
    }
  }

  lemma StopsBare(n: nat, rest: string, pairs: bool)
    requires Ends(rest)
    ensures SplitArg(rest, n, false, pairs) == (Slashes(n), rest)
  {
  }

  lemma {:induction false} ReadsBare(arg: string, n: nat, rest: string, pairs: bool)
    requires Ends(rest) && forall i | 0 <= i < |arg| :: !ForcesQuotes(arg[i])
    ensures SplitArg(arg + rest, n, false, pairs) == (Slashes(n) + arg, rest)
    decreases |arg|
  {
    hide SplitArg, Slashes;
    SlashesAdd(n, "");
    if arg == "" {
      assert arg + rest == rest;
      StopsBare(n, rest, pairs);
    } else {
      var c, tail := arg[0], arg[1..];
      assert [c] + tail == arg && arg + rest == [c] + (tail + rest);
      SlashesAdd(n, tail);
      if c == '\\' {
        ReadsBare(tail, n + 1, rest, pairs);
        ReadsSlash(n, tail + rest, pairs);
      } else {
        ReadsBare(tail, 0, rest, pairs);
        ReadsChar(c, n, tail + rest, false, pairs);
        assert Slashes(n) + [c] + tail == Slashes(n) + arg;
      }
    }
  }

  lemma ReadsSlash(n: nat, more: string, pairs: bool)
    ensures SplitArg(['\\'] + more, n, false, pairs) == SplitArg(more, n + 1, false, pairs)
  {
    assert (['\\'] + more)[1..] == more;
  }

  lemma OpensQuote(more: string, pairs: bool)
    ensures SplitArg("\"" + more, 0, false, pairs) == SplitArg(more, 0, true, pairs)
  {
    assert ("\"" + more)[1..] == more;
    var a := SplitArg(more, 0, true, pairs).0;
    assert Slashes(0) + a == a;
  }

  lemma ReadsArg(arg: string, rest: string, pairs: bool)
    requires Ends(rest)
    ensures SplitArg(Quote(arg) + rest, 0, false, pairs) == (arg, rest)
    ensures Quote(arg) != "" && !IsBlank(Quote(arg)[0])
  {
    hide SplitArg, QuotedRest, Slashes;
    SlashesAdd(0, arg);
    if NeedsQuotes(arg) {
      var more := QuotedRest(arg, 0) + rest;
      assert Quote(arg) + rest == "\"" + more;
      OpensQuote(more, pairs);
      ReadsQuoted(arg, 0, rest, pairs);
    } else {
      ReadsBare(arg, 0, rest, pairs);
      assert !ForcesQuotes(arg[0]);
    }
  }

  // ---------------------------------------------------------------- round trip of a command line

  lemma {:induction false} ReadsTail(args: seq<string>, pairs: bool)
    ensures SplitArgs(Tail(args), pairs) == args
    ensures Ends(Tail(args))
  {
    hide SplitArg, Quote;
    if args != [] {
      var rest := Tail(args[1..]);
      ReadsTail(args[1..], pairs);
      ReadsArg(args[0], rest, pairs);
      var line := Quote(args[0]) + rest;
      assert Tail(args) == " " + line && Tail(args)[1..] == line;
      assert line[0] == Quote(args[0])[0];
    }
  }

  /** How many backslashes `Slashes(pending) + name` ends in. */
  function Trailing(name: string, pending: nat): nat {
    if name == "" then pending
    else if name[0] == '\\' then Trailing(name[1..], pending + 1)
    else Trailing(name[1..], 0)
  }

  lemma SlashesDouble(n: nat)
    ensures Slashes(n * 2) == Slashes(n) + Slashes(n)
  {
  }

  lemma {:induction false} QuotedName(name: string, pending: nat)
    requires '"' !in name
    ensures QuotedRest(name, pending) == Slashes(pending) + name + Slashes(Trailing(name, pending)) + "\""
  {
    hide Slashes;
    if name == "" {
      SlashesDouble(pending);
      SlashesAdd(pending, "");
    } else {
      var c, tail := name[0], name[1..];
      assert [c] + tail == name;
      SlashesAdd(pending, tail);
      if c == '\\' {
        QuotedName(tail, pending + 1);
      } else {
        QuotedName(tail, 0);
        var x, y, z := Slashes(pending) + [c], tail, Slashes(Trailing(tail, 0)) + "\"";
        assert x + y == Slashes(pending) + name;
        assert x + (y + z) == x + y + z;
      }
    }
  }

  lemma {:induction false} ReadsProgramPart(name: string, rest: string, quoted: bool)
    requires '"' !in name && (quoted || forall i | 0 <= i < |name| :: !IsBlank(name[i]))
    ensures var r := SplitProgram(rest, quoted);
      SplitProgram(name + rest, quoted) == (name + r.0, r.1)
  {
    if name == "" {
      assert name + rest == rest && name + SplitProgram(rest, quoted).0 == SplitProgram(rest, quoted).0;
    } else {
      assert (name + rest)[1..] == name[1..] + rest;
      ReadsProgramPart(name[1..], rest, quoted);
      var r := SplitProgram(rest, quoted);
      assert [name[0]] + (name[1..] + r.0) == name + r.0;
    }
  }

  /** What the started program sees as its own name. */
  function SeenName(name: string): string {
    if NeedsQuotes(name) then name + Slashes(Trailing(name, 0)) else name
  }

  lemma TogglesQuote(more: string, quoted: bool)
    ensures SplitProgram("\"" + more, quoted) == SplitProgram(more, !quoted)
  {
    assert ("\"" + more)[1..] == more;
  }

  lemma ReadsQuotedProgram(seen: string, rest: string)
    requires '"' !in seen && Ends(rest)
    ensures SplitProgram("\"" + seen + "\"" + rest, false) == (seen, rest)
  {
    assert SplitProgram(rest, false) == ("", rest);
    hide SplitProgram;
    assert "\"" + seen + "\"" + rest == "\"" + (seen + ("\"" + rest));
    TogglesQuote(seen + ("\"" + rest), false);
    TogglesQuote(rest, true);
    ReadsProgramPart(seen, "\"" + rest, true);
    assert seen + "" == seen;
  }

  lemma ReadsProgram(name: string, rest: string)
    requires '"' !in name && Ends(rest)
    ensures SplitProgram(Quote(name) + rest, false) == (SeenName(name), rest)
  {
    if NeedsQuotes(name) {
      hide SplitProgram, QuotedRest, Slashes, Trailing;
      QuotedName(name, 0);
      SlashesAdd(0, name);
      assert Quote(name) == "\"" + SeenName(name) + "\"";
      NoMarkInSeen(name);
      ReadsQuotedProgram(SeenName(name), rest);
    } else {
      assert forall i | 0 <= i < |name| :: !ForcesQuotes(name[i]);
      ReadsProgramPart(name, rest, false);
      assert SplitProgram(rest, false) == ("", rest) && name + "" == name;
    }
  }

  lemma NoMarkInSeen(name: string)
    requires '"' !in name
    ensures '"' !in SeenName(name)
  {
  }

  /**
  The round trip: for a program name without quotation marks, as Windows file names are, every
  list of arguments comes back exactly, under either reading of doubled marks; the name itself
  comes back exactly unless it had to be quoted and ends in backslashes.
  */
  lemma RoundTrip(argv: seq<string>, pairs: bool)
    requires argv != [] && '"' !in argv[0]
    ensures Split(Line(argv), pairs) == (SeenName(argv[0]), argv[1..])
    ensures SeenName(argv[0]) == argv[0] <==> !(NeedsQuotes(argv[0]) && Trailing(argv[0], 0) > 0)
  {
    ReadsTail(argv[1..], pairs);
    ReadsProgram(argv[0], Tail(argv[1..]));
    if NeedsQuotes(argv[0]) {
      assert |SeenName(argv[0])| == |argv[0]| + Trailing(argv[0], 0);
      if Trailing(argv[0], 0) == 0 { assert argv[0] + Slashes(0) == argv[0]; }
    }
  }

  // ---------------------------------------------------------------- which program names keep the arguments

  /**
  Reading the quoted name as a program name, `quoted` telling whether marks so far leave a quoted
  part open: it does not break at a blank, and its own closing mark does close it.
  */
  predicate HoldsTogether(name: string, quoted: bool) {
    if name == "" then quoted
    else if name[0] == '"' then HoldsTogether(name[1..], !quoted)
    else !(IsBlank(name[0]) && !quoted) && HoldsTogether(name[1..], quoted)
  }

  predicate BreaksEarly(name: string, quoted: bool) {
    name != "" &&
    if name[0] == '"' then BreaksEarly(name[1..], !quoted)
    else (IsBlank(name[0]) && !quoted) || BreaksEarly(name[1..], quoted)
  }

  predicate KeepsArguments(name: string) { NeedsQuotes(name) ==> HoldsTogether(name, true) }

  lemma {:induction false} SkipsSlashes(n: nat, more: string, quoted: bool)
    ensures SplitProgram(Slashes(n) + more, quoted).1 == SplitProgram(more, quoted).1
  {
    if n == 0 {
      assert Slashes(0) + more == more;
    } else {
      assert (Slashes(n) + more)[1..] == Slashes(n - 1) + more;
      SkipsSlashes(n - 1, more, quoted);
    }
  }

  lemma SkipsChar(c: char, more: string, quoted: bool)
    requires c != '"' && (quoted || !IsBlank(c))
    ensures SplitProgram([c] + more, quoted).1 == SplitProgram(more, quoted).1
  {
    assert ([c] + more)[1..] == more;
  }

  lemma {:induction false} NameStaysWhole(name: string, pending: nat, rest: string, quoted: bool)
    requires HoldsTogether(name, quoted) && Ends(rest)
    ensures SplitProgram(QuotedRest(name, pending) + rest, quoted).1 == rest
    decreases |name|
  {
    assert SplitProgram(rest, false).1 == rest;
    hide SplitProgram, Slashes;
    if name == "" {
      assert QuotedRest(name, pending) + rest == Slashes(pending * 2) + ("\"" + rest);
      SkipsSlashes(pending * 2, "\"" + rest, quoted);
      TogglesQuote(rest, quoted);
    } else {
      var c, more := name[0], QuotedRest(name[1..], 0) + rest;
      if c == '\\' {
        NameStaysWhole(name[1..], pending + 1, rest, quoted);
      } else if c == '"' {
        assert QuotedRest(name, pending) + rest == Slashes(pending * 2 + 1) + ("\"" + more);
        SkipsSlashes(pending * 2 + 1, "\"" + more, quoted);
        TogglesQuote(more, quoted);
        NameStaysWhole(name[1..], 0, rest, !quoted);
      } else {
        assert QuotedRest(name, pending) + rest == Slashes(pending) + ([c] + more);
        SkipsSlashes(pending, [c] + more, quoted);
        SkipsChar(c, more, quoted);
        NameStaysWhole(name[1..], 0, rest, quoted);
      }
    }
  }

  lemma {:induction false} MarkMakesArgument(line: string, i: nat, pairs: bool)
    requires i < |line| && !IsBlank(line[i])
    ensures SplitArgs(line, pairs) != []
  {
    if IsBlank(line[0]) { MarkMakesArgument(line[1..], i - 1, pairs); }
  }

  lemma {:induction false} QuotedEndsInMark(name: string, pending: nat)
    ensures var q := QuotedRest(name, pending); q != "" && q[|q| - 1] == '"'
  {
    if name != "" { QuotedEndsInMark(name[1..], if name[0] == '\\' then pending + 1 else 0); }
  }

  lemma BreaksAtBlank(c: char, more: string, i: nat, pairs: bool)
    requires IsBlank(c) && i < |more| && !IsBlank(more[i])
    ensures SplitArgs(SplitProgram([c] + more, false).1, pairs) != []
  {
    MarkMakesArgument([c] + more, i + 1, pairs);
  }

  /** A name that does not hold together yields a spurious argument, or swallows what follows. */
  lemma {:induction false} NameFallsApart(name: string, pending: nat, rest: string, quoted: bool, pairs: bool)
    requires !HoldsTogether(name, quoted)
    ensures var after := SplitProgram(QuotedRest(name, pending) + rest, quoted).1;
      if BreaksEarly(name, quoted) then SplitArgs(after, pairs) != [] else after == SplitProgram(rest, true).1
    decreases |name|
  {
    hide SplitProgram, SplitArgs, Slashes;
    if name == "" {
      assert QuotedRest(name, pending) + rest == Slashes(pending * 2) + ("\"" + rest);
      SkipsSlashes(pending * 2, "\"" + rest, quoted);
      TogglesQuote(rest, quoted);
    } else {
      var c, body := name[0], QuotedRest(name[1..], 0);
      var more := body + rest;
      if c == '\\' {
        NameFallsApart(name[1..], pending + 1, rest, quoted, pairs);
      } else if c == '"' {
        assert QuotedRest(name, pending) + rest == Slashes(pending * 2 + 1) + ("\"" + more);
        SkipsSlashes(pending * 2 + 1, "\"" + more, quoted);
        TogglesQuote(more, quoted);
        NameFallsApart(name[1..], 0, rest, !quoted, pairs);
      } else {
        assert QuotedRest(name, pending) + rest == Slashes(pending) + ([c] + more);
        SkipsSlashes(pending, [c] + more, quoted);
        if IsBlank(c) && !quoted {
          QuotedEndsInMark(name[1..], 0);
          assert more[|body| - 1] == body[|body| - 1];
          BreaksAtBlank(c, more, |body| - 1, pairs);
        } else {
          SkipsChar(c, more, quoted);
          NameFallsApart(name[1..], 0, rest, quoted, pairs);
        }
      }
    }
  }

  lemma SwallowsX(pairs: bool)
    ensures SplitArgs(SplitProgram(Tail(["x"]), true).1, pairs) == []
    ensures SplitArgs(SplitProgram("", true).1, pairs) == []
    ensures Tail([]) == ""
  {
    assert !NeedsQuotes("x") && ["x"][1..] == [];
    assert Tail(["x"]) == " x" && " x"[1..] == "x" && "x"[1..] == "";
    assert SplitProgram("x", true).1 == "";
  }

  /**
  The exact condition on the program name, as the C run time reads it: every list of arguments
  behind it comes back if and only if the quoted name holds together.
  */
  lemma KeepsArgumentsExactly(name: string, pairs: bool)
    ensures KeepsArguments(name) <==>
            forall args: seq<string> :: Split(Line([name] + args), pairs).1 == args
  {
    hide SplitProgram, SplitArgs, HoldsTogether, QuotedRest, Tail, NeedsQuotes;
    if KeepsArguments(name) {
      forall args: seq<string> ensures Split(Line([name] + args), pairs).1 == args {
        assert ([name] + args)[1..] == args;
        ReadsTail(args, pairs);
        KeptProgram(name, Tail(args));
      }
    } else {
      var body := QuotedRest(name, 0);
      forall args: seq<string>
        ensures Split(Line([name] + args), pairs).1 == SplitArgs(SplitProgram(body + Tail(args), true).1, pairs)
      {
        assert ([name] + args)[1..] == args;
        assert Line([name] + args) == "\"" + (body + Tail(args));
        TogglesQuote(body + Tail(args), false);
      }
      NameFallsApart(name, 0, Tail([]), true, pairs);
      NameFallsApart(name, 0, Tail(["x"]), true, pairs);
      SwallowsX(pairs);
      assert Split(Line([name] + []), pairs).1 != [] || Split(Line([name] + ["x"]), pairs).1 != ["x"];
    }
  }

  lemma KeptProgram(name: string, rest: string)
    requires KeepsArguments(name) && Ends(rest)
    ensures SplitProgram(Quote(name) + rest, false).1 == rest
  {
    if NeedsQuotes(name) {
      hide SplitProgram;
      var more := QuotedRest(name, 0) + rest;
      assert Quote(name) + rest == "\"" + more;
      TogglesQuote(more, false);
      NameStaysWhole(name, 0, rest, true);
    } else {
      assert forall i | 0 <= i < |name| :: !ForcesQuotes(name[i]);
      ReadsProgramPart(name, rest, false) by { assert '"' !in name; }
    }
  }

  /** Windows file names hold no quotation mark, and such names always keep the arguments. */
  lemma {:induction false} NoMarkHoldsTogether(name: string)
    requires '"' !in name
    ensures HoldsTogether(name, true)
  {
    if name != "" { NoMarkHoldsTogether(name[1..]); }
  }

  // ---------------------------------------------------------------- what is quoted at all

  lemma {:induction false} QuotedIsLonger(arg: string, pending: nat)
    ensures |QuotedRest(arg, pending)| >= |arg| + pending + 1
  {
    if arg != "" { QuotedIsLonger(arg[1..], if arg[0] == '\\' then pending + 1 else 0); }
  }

  /** Exactly the arguments without white space and quotation marks, the empty one apart, are written as they are. */
  lemma WrittenAsIs(arg: string)
    ensures Quote(arg) == arg <==>
            arg != "" && forall c | c in arg ::
              c != ' ' && c != '\t' && c != '\n' && c != '\r' && c != '\U{0B}' && c != '"'
  {
    QuotedIsLonger(arg, 0);
    if exists i | 0 <= i < |arg| :: ForcesQuotes(arg[i]) {
      var i :| 0 <= i < |arg| && ForcesQuotes(arg[i]);
      assert arg[i] in arg;
    }
  }
}
