/**
The updater's state file: its writer, its reader, and when the reader gets back what was written.
*/
module StateFile {
  import opened Ascii
  import opened JsonMini
  import opened Paths

  const PHASE_CAP := 64
  const PATH_CAP := 4096
  const STATE_READ_MAX := 65536
  const READ_BLOCK := 4096

  datatype State = State(phase: string, target: string, staging: string, backup: string, package: string)

  // ---------------------------------------------------------------- writing

  function Escape(s: string): string {
    if s == "" then ""
    else (if s[0] == '"' || s[0] == '\\' then ['\\', s[0]] else [s[0]]) + Escape(s[1..])
  }

  function Quoted(s: string): string { "\"" + Escape(s) + "\"" }

  /** A key and its quoted value behind `c`. */
  function Member(c: char, key: string, value: string): string { [c] + Needle(key) + ":" + Quoted(value) }

  function StateText(st: State): string {
    Member('{', "phase", st.phase) + (Member(',', "target", st.target) + (Member(',', "staging", st.staging) +
    (Member(',', "backup", st.backup) + (Member(',', "package", st.package) + "}\n"))))
  }

  /** The file being written. */
  class Output {
    var text: string

    constructor ()
      ensures text == ""
    {
      text := "";
    }

    method Putc(c: char)
      modifies this
      ensures text == old(text) + [c]
    {
      text := text + [c];
    }

    method Puts(s: string)
      modifies this
      ensures text == old(text) + s
    {
      text := text + s;
    }

    /** `json_emit_escaped_string` */
    method EmitEscaped(s: string)
      modifies this
      ensures text == old(text) + Quoted(s)
    {
      hide Escape;
      Putc('"');
      ghost var before := text;
      assert s[..0] == "" && before + Escape("") == before by { EscapeNothing(); }
      for i := 0 to |s|
        invariant text == before + Escape(s[..i])
      {
        assert s[..i + 1][..i] == s[..i];
        EscapeLast(s[..i + 1]);
        ghost var e := Escape(s[..i]);
        if s[i] == '"' || s[i] == '\\' {
          Putc('\\');
        }
        Putc(s[i]);
        assert before + e + ['\\'] + [s[i]] == before + (e + ['\\', s[i]]);
        assert before + e + [s[i]] == before + (e + [s[i]]);
      }
      assert s[..|s|] == s;
      Putc('"');
    }
  }

  lemma EscapeNothing()
    ensures Escape("") == ""
  {
  }

  /** A name with its colon, and the value. */
  method WriteMember(f: Output, name: string, ghost c: char, ghost key: string, value: string)
    requires name == [c] + Needle(key) + ":"
    modifies f
    ensures f.text == old(f.text) + Member(c, key, value)
  {
    hide Quoted, Needle;
    f.Puts(name);
    f.EmitEscaped(value);
    assert old(f.text) + name + Quoted(value) == old(f.text) + (name + Quoted(value));
  }

  /** The body of `updater_state_save_atomic` between opening and closing the file. */
  method WriteState(st: State) returns (text: string)
    ensures text == StateText(st)
  {
    hide Member;
    var f := new Output();
    WriteMember(f, "{\"phase\":", '{', "phase", st.phase);
    WriteMember(f, ",\"target\":", ',', "target", st.target);
    WriteMember(f, ",\"staging\":", ',', "staging", st.staging);
    WriteMember(f, ",\"backup\":", ',', "backup", st.backup);
    WriteMember(f, ",\"package\":", ',', "package", st.package);
    f.Puts("}\n");
    text := f.text;
    assert "" + Member('{', "phase", st.phase) == Member('{', "phase", st.phase);
    FiveParts(Member('{', "phase", st.phase), Member(',', "target", st.target), Member(',', "staging", st.staging),
              Member(',', "backup", st.backup), Member(',', "package", st.package), "}\n");
  }

  lemma FiveParts(a: string, b: string, c: string, d: string, e: string, f: string)
    ensures a + b + c + d + e + f == a + (b + (c + (d + (e + f))))
  {
  }

  // ---------------------------------------------------------------- reading

  /** The five members of a text, a C string. */
  function Fields(text: string): Option<State> {
    var phase := Extract(text, "phase", PHASE_CAP);
    var target := Extract(text, "target", PATH_CAP);
    var staging := Extract(text, "staging", PATH_CAP);
    var backup := Extract(text, "backup", PATH_CAP);
    var package := Extract(text, "package", PATH_CAP);
    if phase.None? || target.None? || staging.None? || backup.None? || package.None? then None
    else Some(State(phase.value, target.value, staging.value, backup.value, package.value))
  }

  /** What `updater_state_load` makes of a file; `None` is its error return. */
  function LoadText(file: string): Option<State> {
    if |file| >= STATE_READ_MAX then None else Fields(CString(file))
  }

  /** What `updater_state_validate` demands. */
  predicate Valid(st: State, install: string, staging: string, backup: string, zip: string) {
    && st.target == install && st.staging == staging && st.backup == backup && st.package == zip
    && st.staging != install
    && ValidPath(st.target, true) && ValidPath(st.staging, true) && ValidPath(st.backup, true)
    && ValidPath(st.package, false)
  }

  lemma {:induction false} ValueHasNoNul(t: string)
    requires '\0' !in t
    ensures StringValue(t).Some? ==> '\0' !in StringValue(t).value.0
  {
    if t != "" && t[0] != '"' {
      ValueStep(t);
      ValueHasNoNul(t[if t[0] == '\\' && |t| > 1 then 2 else 1..]);
      assert t[0] in t && (|t| > 1 ==> t[1] in t);
    }
  }

  lemma FieldHasNoNul(text: string, key: string, cap: nat)
    requires '\0' !in text
    ensures Extract(text, key, cap).Some? ==> '\0' !in Extract(text, key, cap).value
  {
    hide StringValue, FirstMatch;
    if FindValue(text, key).Some? { ValueHasNoNul(FindValue(text, key).value); }
  }

  /** One field of the state: extracted into a buffer of its size, then a C string. */
  method LoadField(text: string, key: string, cap: nat) returns (r: Option<string>)
    requires '\0' !in text
    ensures r == Extract(text, key, cap)
  {
    hide Extract;
    var out := new char[cap](_ => '\0');
    var ok, value := ExtractString(text, key, out);
    if !ok { return None; }
    FieldHasNoNul(text, key, cap);
    assert forall j | 0 <= j < |value| :: value[j] != '\0' && out[..|value|][j] == value[j];
    var n := 0;
    while out[n] != '\0'
      invariant n <= |value| < out.Length && out[..|value|] == value && out[|value|] == '\0'
      invariant forall j | 0 <= j < |value| :: out[j] != '\0'
      decreases |value| - n
    {
      n := n + 1;
    }
    assert n == |value|;
    r := Some(out[..n]);
  }

  /** The reading loop of `updater_state_load`: blocks of 4096 bytes up to the first short one. */
  method ReadFile(file: string) returns (text: Option<string>)
    ensures text == if |file| >= 65536 then None else Some(CString(file))
  {
    var len := 0;
    var more := true;
    while more
      invariant len <= |file| && len <= STATE_READ_MAX
      invariant if more then len % READ_BLOCK == 0 else len == |file| < STATE_READ_MAX
      decreases |file| - len, more
    {
      if len + READ_BLOCK > STATE_READ_MAX { return None; }
      var n := if |file| - len < READ_BLOCK then |file| - len else READ_BLOCK;
      len := len + n;
      more := n == READ_BLOCK;
    }
    text := Some(CString(file));
  }

  /** `updater_state_load` */
  method LoadState(file: string) returns (r: Option<State>)
    ensures r == LoadText(file)
  {
    hide Fields, CString;
    var text := ReadFile(file);
    if text.None? { return None; }
    assert '\0' !in text.value by { NoNulInCString(file); }
    r := ReadFields(text.value);
  }

  lemma NoNulInCString(s: string)
    ensures '\0' !in CString(s)
  {
  }

  /** The extractions of `updater_state_load`. */
  method ReadFields(text: string) returns (r: Option<State>)
    requires '\0' !in text
    ensures r == Fields(text)
  {
    hide Extract;
    var phase := LoadField(text, "phase", PHASE_CAP);
    if phase.None? { return None; }
    var target := LoadField(text, "target", PATH_CAP);
    if target.None? { return None; }
    var staging := LoadField(text, "staging", PATH_CAP);
    if staging.None? { return None; }
    var backup := LoadField(text, "backup", PATH_CAP);
    if backup.None? { return None; }
    var package := LoadField(text, "package", PATH_CAP);
    if package.None? { return None; }
    r := Some(State(phase.value, target.value, staging.value, backup.value, package.value));
  }

  /** `updater_state_validate` */
  method ValidateState(st: State, install: string, staging: string, backup: string, zip: string) returns (ok: bool)
    ensures ok == Valid(st, install, staging, backup, zip)
  {
    hide ValidPath;
    if st.target != install { return false; }
    if st.staging != staging || st.backup != backup { return false; }
    if st.package != zip { return false; }
    if st.staging == install { return false; }
    ok := ValidatePath(st.target, true);
    if !ok { return; }
    ok := ValidatePath(st.staging, true);
    if !ok { return; }
    ok := ValidatePath(st.backup, true);
    if !ok { return; }
    ok := ValidatePath(st.package, false);
  }

  // ---------------------------------------------------------------- values come back

  lemma {:induction false} ValueOfEscape(v: string, rest: string)
    ensures StringValue(Escape(v) + "\"" + rest) == Some((v, |Escape(v)|))
  {
    hide StringValue;
    var t := Escape(v) + "\"" + rest;
    if v == "" {
      assert t[0] == '"';
      ClosingQuote(t);
    } else {
      var more := Escape(v[1..]) + "\"" + rest;
      ValueOfEscape(v[1..], rest);
      if v[0] == '"' || v[0] == '\\' {
        assert t == ['\\', v[0]] + more && t[2..] == more;
      } else {
        assert t == [v[0]] + more && t[1..] == more;
      }
      ValueStep(t);
      assert [v[0]] + v[1..] == v;
    }
  }

  lemma ReadsColon(x: string)
    ensures ReadColon(":\"" + x) == Some(x)
  {
    var s, u := ":\"" + x, "\"" + x;
    SpanIs(IsSpace, s, 0);
    SpanIs(IsSpace, u, 0);
    assert s[0..] == s && s[1..] == u && u[0..] == u && u[1..] == x;
  }

  /** At a member the reader finds the value written there. */
  lemma FindsMember(c: char, key: string, value: string, rest: string)
    requires |key| + 3 <= NEEDLE_CAP && c != '"'
    ensures FirstMatch(Member(c, key, value) + rest, Needle(key)) == 1
    ensures FindValue(Member(c, key, value) + rest, key) == Some(Escape(value) + "\"" + rest)
  {
    hide Escape, FirstMatch, ReadColon, Needle;
    var t := Member(c, key, value) + rest;
    var x := Escape(value) + "\"" + rest;
    var m := Needle(key);
    NeedleLength(key);
    assert t == [c] + m + (":\"" + x);
    assert t[1..|key| + 3] == m && t[|key| + 3..] == ":\"" + x;
    MatchesSecond(t, key);
    ReadsColon(x);
  }

  lemma MatchesSecond(t: string, key: string)
    requires |key| + 3 <= |t| && t[0] != '"' && t[1..|key| + 3] == Needle(key)
    ensures FirstMatch(t, Needle(key)) == 1
  {
    assert !MatchesAt(t, 0, Needle(key)) by { assert t[0] != Needle(key)[0]; }
    assert MatchesAt(t, 1, Needle(key));
  }

  // ---------------------------------------------------------------- where keys are found

  /** Keys are lower-case words. */
  predicate IsKey(key: string) { key != "" && forall i | 0 <= i < |key| :: 'a' <= key[i] <= 'z' }

  /** A match is an opening mark, the key, a closing mark. */
  lemma MatchShape(t: string, i: nat, key: string)
    requires i <= |t| && MatchesAt(t, i, Needle(key))
    ensures i + |key| + 2 <= |t| && t[i] == '"' && t[i + 1 + |key|] == '"'
    ensures forall j | 0 <= j < |key| :: t[i + 1 + j] == key[j]
  {
    var m := t[i..i + |key| + 2];
    assert m == Needle(key);
    assert m[0] == t[i] && m[1 + |key|] == t[i + 1 + |key|];
    assert forall j | 0 <= j < |key| :: m[1 + j] == t[i + 1 + j] == key[j];
  }

  /** Passing over `,"other":` or `{"other":` on the way to another key. */
  lemma QuietName(c: char, other: string, rest: string, key: string)
    requires IsKey(key) && IsKey(other) && key != other && c != '"'
    ensures FirstMatch([c] + Needle(other) + ":" + rest, Needle(key)) ==
            |other| + 4 + FirstMatch(rest, Needle(key))
  {
    var a := [c] + Needle(other) + ":";
    var t := a + rest;
    forall i | 0 <= i < |a| ensures !MatchesAt(t, i, Needle(key)) {
      assert forall j | 0 <= j < |other| :: t[2 + j] == other[j];
      assert t[1] == '"' && t[2 + |other|] == '"' && t[3 + |other|] == ':';
      if MatchesAt(t, i, Needle(key)) {
        MatchShape(t, i, key);
        NameClash(t, i, other, key);
      }
    }
    SkipQuiet(a, rest, Needle(key));
  }

  lemma NameClash(t: string, i: nat, other: string, key: string)
    requires IsKey(key) && IsKey(other) && i + |key| + 2 <= |t| && |other| + 4 <= |t| && i < |other| + 4
    requires t[i] == '"' && t[i + 1 + |key|] == '"' && (forall j | 0 <= j < |key| :: t[i + 1 + j] == key[j])
    requires t[0] != '"' && t[1] == '"' && t[2 + |other|] == '"' && t[3 + |other|] == ':'
    requires forall j | 0 <= j < |other| :: t[2 + j] == other[j]
    ensures key == other
  {
    assert forall k | 2 <= k < 2 + |other| :: t[k] == other[k - 2] && t[k] != '"';
    forall k | i + 1 <= k < i + 1 + |key| ensures t[k] == key[k - i - 1] && 'a' <= t[k] <= 'z' {
      assert t[i + 1 + (k - i - 1)] == key[k - i - 1];
    }
    assert i == 1;
    assert |key| == |other|;
    assert forall j | 0 <= j < |key| :: key[j] == t[2 + j] == other[j];
  }

  // ---------------------------------------------------------------- passing over values

  predicate EndsWith(s: string, tail: string) { |tail| <= |s| && s[|s| - |tail|..] == tail }

  /** The one way a value can be taken for a key: it ends in a mark and the key. */
  predicate Mimics(value: string, key: string) { EndsWith(value, "\"" + key) }

  /** In an escaped text every mark stands behind a backslash. */
  lemma {:induction false} MarksAreEscaped(s: string, i: nat)
    requires i < |Escape(s)| && Escape(s)[i] == '"'
    ensures i > 0 && Escape(s)[i - 1] == '\\'
  {
    var n := if s[0] == '"' || s[0] == '\\' then 2 else 1;
    assert Escape(s)[n..] == Escape(s[1..]);
    if i >= n {
      MarksAreEscaped(s[1..], i - n);
    }
  }

  lemma {:induction false} EscapeConcat(a: string, b: string)
    ensures Escape(a + b) == Escape(a) + Escape(b)
  {
    if a == "" {
      assert a + b == b;
    } else {
      assert (a + b)[1..] == a[1..] + b;
      EscapeConcat(a[1..], b);
    }
  }

  lemma {:induction false} EscapePlain(s: string)
    requires forall i | 0 <= i < |s| :: 'a' <= s[i] <= 'z'
    ensures Escape(s) == s
  {
    if s != "" { EscapePlain(s[1..]); }
  }

  lemma EscapeOne(c: char)
    ensures Escape([c]) == if c == '"' || c == '\\' then ['\\', c] else [c]
  {
    assert [c][1..] == "";
  }

  lemma EscapeLast(s: string)
    requires s != ""
    ensures var c := s[|s| - 1]; var e := Escape(s[..|s| - 1]);
      Escape(s) == if c == '"' || c == '\\' then e + ['\\', c] else e + [c]
  {
    hide Escape;
    var front, c := s[..|s| - 1], s[|s| - 1];
    EscapeConcat(front, [c]);
    EscapeOne(c);
    assert front + [c] == s;
  }

  /** A plain tail of an escaped text is the tail of the text itself. */
  lemma {:induction false} PlainTail(s: string, key: string)
    requires forall i | 0 <= i < |key| :: 'a' <= key[i] <= 'z'
    ensures EndsWith(Escape(s), "\"" + key) <==> Mimics(s, key)
    decreases |s|
  {
    if s != "" {
      var i, e := |s| - 1, Escape(s);
      var tail := "\"" + key;
      EscapeLast(s);
      assert e[|e| - 1] == s[i];
      if key == "" {
        assert EndsWith(e, tail) <==> e[|e| - 1] == '"';
        assert EndsWith(s, tail) <==> s[i] == '"';
      } else {
        var k := key[..|key| - 1];
        var c := key[|key| - 1];
        assert tail == ("\"" + k) + [c];
        DropLast(e, "\"" + k, c);
        DropLast(s, "\"" + k, c);
        if s[i] == c {
          assert e[..|e| - 1] == Escape(s[..i]);
          PlainTail(s[..i], k);
        }
      }
    }
  }

  lemma DropLast(s: string, front: string, c: char)
    requires s != ""
    ensures EndsWith(s, front + [c]) <==> s[|s| - 1] == c && EndsWith(s[..|s| - 1], front)
  {
    var t := front + [c];
    if |t| <= |s| {
      var u := s[|s| - |t|..];
      assert u == s[..|s| - 1][|s| - |t|..] + [s[|s| - 1]];
      if u == t { assert u[|u| - 1] == c && u[..|u| - 1] == front; }
    }
  }

  /** A match that begins inside a quoted value ends at its closing mark. */
  lemma MatchEndsValue(v: string, rest: string, key: string, i: nat)
    requires IsKey(key) && rest != "" && (rest[0] == ',' || rest[0] == '}')
    requires i < |Quoted(v)| && MatchesAt(Quoted(v) + rest, i, Needle(key))
    ensures i + |key| == |Escape(v)| && (Quoted(v) + rest)[i..i + |key| + 1] == "\"" + key
  {
    hide Escape;
    var t, e := Quoted(v) + rest, Escape(v);
    MatchShape(t, i, key);
    var last := i + 1 + |key|;
    forall k | i + 1 <= k < last ensures t[k] == key[k - i - 1] && 'a' <= t[k] <= 'z' {
      assert t[i + 1 + (k - i - 1)] == key[k - i - 1];
    }
    forall j | 1 <= j <= |e| && t[j] == '"' ensures t[j - 1] == '\\' {
      assert t[j] == e[j - 1];
      MarksAreEscaped(v, j - 1);
      assert t[j - 1] == e[j - 2];
    }
    assert t[|e| + 1] == '"' && t[|e| + 2] == rest[0];
    assert 'a' <= t[last - 1] <= 'z';
    assert last == |e| + 1;
    assert t[i..last] == "\"" + key;
  }

  /** ... so it is the whole value, or the mimicry. */
  lemma MatchInValue(v: string, rest: string, key: string, i: nat)
    requires IsKey(key) && rest != "" && (rest[0] == ',' || rest[0] == '}') && i < |Quoted(v)|
    ensures MatchesAt(Quoted(v) + rest, i, Needle(key)) ==>
              i + |key| == |Escape(v)| && if i == 0 then Escape(v) == key else Mimics(v, key)
  {
    hide Escape;
    var t, e := Quoted(v) + rest, Escape(v);
    if MatchesAt(t, i, Needle(key)) {
      MatchEndsValue(v, rest, key, i);
      assert t[1..|e| + 1] == e;
      if i == 0 {
        assert t[0..|e| + 1][1..] == t[1..|e| + 1] && ("\"" + key)[1..] == key;
      } else {
        assert e[i - 1..] == t[i..|e| + 1];
        PlainTail(v, key);
      }
    }
  }

  lemma MimicryMatches(v: string, rest: string, key: string)
    requires IsKey(key) && Mimics(v, key)
    ensures |key| < |Escape(v)| && MatchesAt(Quoted(v) + rest, |Escape(v)| - |key|, Needle(key))
  {
    hide Escape;
    var t, e := Quoted(v) + rest, Escape(v);
    PlainTail(v, key);
    var i := |e| - |key|;
    var tail := e[i - 1..];
    assert tail == "\"" + key;
    assert t[i..i + |key| + 2] == tail + "\"" by {
      assert Quoted(v) == "\"" + e[..i - 1] + tail + "\"";
    }
  }

  /** Passing over a value on the way to a key: nothing, or the one mimicry at its end. */
  lemma {:induction false} PassValue(v: string, rest: string, key: string)
    requires IsKey(key) && rest != "" && (rest[0] == ',' || rest[0] == '}') && Escape(v) != key
    ensures var n := FirstMatch(Quoted(v) + rest, Needle(key));
      n == if Mimics(v, key) then |Escape(v)| - |key| else |Quoted(v)| + FirstMatch(rest, Needle(key))
    ensures Mimics(v, key) ==> |key| < |Escape(v)|
  {
    hide Escape, FirstMatch, Mimics, Quoted, MatchesAt;
    var q, t := Quoted(v), Quoted(v) + rest;
    forall i | 0 <= i < |q| && MatchesAt(t, i, Needle(key))
      ensures i + |key| == |Escape(v)| && Mimics(v, key)
    {
      MatchInValue(v, rest, key, i);
    }
    if Mimics(v, key) {
      MimicryMatches(v, rest, key);
      QuotedLength(v);
      FirstMatchIs(t, Needle(key), |Escape(v)| - |key|);
    } else {
      SkipQuiet(q, rest, Needle(key));
    }
  }

  lemma QuotedLength(v: string)
    ensures |Quoted(v)| == |Escape(v)| + 2
  {
  }

  /** Passing over a whole member on the way to another key. */
  lemma PassMember(c: char, other: string, v: string, rest: string, key: string)
    requires IsKey(key) && IsKey(other) && key != other && (c == ',' || c == '{')
    requires rest != "" && (rest[0] == ',' || rest[0] == '}') && Escape(v) != key
    ensures var n := FirstMatch(Member(c, other, v) + rest, Needle(key));
      n == if Mimics(v, key) then |other| + 4 + |Escape(v)| - |key|
           else |Member(c, other, v)| + FirstMatch(rest, Needle(key))
    ensures Mimics(v, key) ==> |key| < |Escape(v)|
  {
    hide Escape, FirstMatch, Mimics, Quoted;
    var name := [c] + Needle(other) + ":";
    assert Member(c, other, v) + rest == name + (Quoted(v) + rest);
    QuietName(c, other, Quoted(v) + rest, key);
    PassValue(v, rest, key);
    QuotedLength(v);
  }

  /** Where the first match lies decides what is found. */
  lemma FindBehind(a: string, b: string, key: string)
    requires FirstMatch(a + b, Needle(key)) == |a| + FirstMatch(b, Needle(key))
    ensures FindValue(a + b, key) == FindValue(b, key)
  {
    hide FirstMatch, ReadColon, Needle;
    var n := FirstMatch(b, Needle(key));
    NeedleLength(key);
    if n < |b| {
      assert (a + b)[|a| + n + |key| + 2..] == b[n + |key| + 2..];
    }
  }

  lemma NeedleLength(key: string)
    ensures |Needle(key)| == |key| + 2
  {
  }

  /** Passing over a member that does not mimic the key. */
  lemma ReadPast(c: char, other: string, v: string, rest: string, key: string)
    requires IsKey(key) && IsKey(other) && key != other && (c == ',' || c == '{')
    requires rest != "" && (rest[0] == ',' || rest[0] == '}') && Escape(v) != key && !Mimics(v, key)
    ensures FindValue(Member(c, other, v) + rest, key) == FindValue(rest, key)
  {
    hide FindValue, Escape, Member, Mimics, FirstMatch;
    PassMember(c, other, v, rest, key);
    FindBehind(Member(c, other, v), rest, key);
  }

  /** A member that mimics the key hides it: what follows the match is no colon. */
  lemma {:induction false} Misled(c: char, other: string, v: string, rest: string, key: string)
    requires IsKey(key) && IsKey(other) && key != other && (c == ',' || c == '{')
    requires rest != "" && (rest[0] == ',' || rest[0] == '}') && Escape(v) != key && Mimics(v, key)
    ensures FindValue(Member(c, other, v) + rest, key) == None
  {
    hide Escape, FirstMatch, Mimics;
    var t := Member(c, other, v) + rest;
    PassMember(c, other, v, rest, key);
    var n := |other| + 4 + |Escape(v)| - |key|;
    assert |Member(c, other, v)| == |other| + 6 + |Escape(v)|;
    assert t[n + |key| + 2..] == rest;
    SpanIs(IsSpace, rest, 0);
    assert rest[0..] == rest;
  }

  // ---------------------------------------------------------------- the round trip

  predicate IsPhase(phase: string) {
    phase == "extracted" || phase == "install_backed_up" || phase == "installed"
  }

  /** The state that `main` saves for these arguments. */
  function StateOf(phase: string, install: string, zip: string): State {
    State(phase, install, StagingOf(install), BackupOf(install), zip)
  }

  /** The install directory does not end in a quotation mark and one of the later keys. */
  predicate Unmistakable(install: string) {
    !Mimics(install, "staging") && !Mimics(install, "backup") && !Mimics(install, "package")
  }

  lemma Keys()
    ensures IsKey("phase") && IsKey("target") && IsKey("staging") && IsKey("backup") && IsKey("package")
  {
  }

  /** A path is never a key, and a phase neither is nor mimics one. */
  lemma PathsAreNotKeys(path: string, key: string)
    requires IsKey(key) && path != "" && path[0] == '/'
    ensures Escape(path) != key
  {
    assert Escape(path)[0] == '/';
  }

  lemma NoMarkNoMimicry(v: string, key: string)
    requires '"' !in v
    ensures !Mimics(v, key)
  {
    var tail := "\"" + key;
    if |tail| <= |v| { assert v[|v| - |tail|..][0] == v[|v| - |tail|]; }
  }

  lemma LastDiffers(v: string, key: string)
    requires v != "" && key != "" && v[|v| - 1] != key[|key| - 1]
    ensures !Mimics(v, key)
  {
    var tail := "\"" + key;
    assert tail[|tail| - 1] == key[|key| - 1];
    if |tail| <= |v| { assert v[|v| - |tail|..][|tail| - 1] == v[|v| - 1]; }
  }

  lemma PhaseStarts(phase: string)
    requires IsPhase(phase)
    ensures phase != "" && (phase[0] == 'e' || phase[0] == 'i') && '"' !in phase
  {
  }

  lemma PhasesAreNotKeys(phase: string, key: string)
    requires IsPhase(phase) && key != "" && key[0] in ['t', 's', 'b', 'p']
    ensures Escape(phase) != key && !Mimics(phase, key)
  {
    hide IsPhase, Mimics, Escape;
    PhaseStarts(phase);
    NoMarkNoMimicry(phase, key);
    EscapeStarts(phase);
  }

  lemma EscapeStarts(v: string)
    requires v != "" && v[0] != '"' && v[0] != '\\'
    ensures Escape(v) != "" && Escape(v)[0] == v[0]
  {
  }

  /** The text from each member on. */
  function FromPackage(st: State): string { Member(',', "package", st.package) + "}\n" }

  function FromBackup(st: State): string { Member(',', "backup", st.backup) + FromPackage(st) }

  function FromStaging(st: State): string { Member(',', "staging", st.staging) + FromBackup(st) }

  function FromTarget(st: State): string { Member(',', "target", st.target) + FromStaging(st) }

  /** Where `key` is looked up, once the phase has been passed over. */
  lemma PastPhase(st: State, key: string)
    requires IsPhase(st.phase) && key in ["target", "staging", "backup", "package"]
    ensures FindValue(StateText(st), key) == FindValue(FromTarget(st), key)
  {
    hide FindValue, Mimics, Escape, Quoted;
    Keys();
    assert FromTarget(st)[0] == ',' && key != "phase";
    PhasesAreNotKeys(st.phase, key);
    ReadPast('{', "phase", st.phase, FromTarget(st), key);
  }

  /** What each key finds, for a valid installation. */
  lemma Finds(st: State, install: string, zip: string)
    requires IsPhase(st.phase) && install != "" && install[0] == '/' && st == StateOf(st.phase, install, zip)
    ensures var t := StateText(st); var rest := (v: string, r: string) => Some(Escape(v) + "\"" + r);
      && FindValue(t, "phase") == rest(st.phase, FromTarget(st))
      && FindValue(t, "target") == rest(st.target, FromStaging(st))
      && FindValue(t, "staging") == (if Mimics(install, "staging") then None else rest(st.staging, FromBackup(st)))
      && FindValue(t, "backup") == (if Mimics(install, "backup") then None else rest(st.backup, FromPackage(st)))
      && FindValue(t, "package") == (if Mimics(install, "package") then None else rest(st.package, "}\n"))
  {
    hide FindValue, Mimics, Escape, Quoted;
    Keys();
    FindsMember('{', "phase", st.phase, FromTarget(st));
    PastPhase(st, "target");
    FindsMember(',', "target", st.target, FromStaging(st));
    LookUp(st, install, "staging");
    FindsMember(',', "staging", st.staging, FromBackup(st));
    LookUp(st, install, "backup");
    PastStaging(st, install, "backup");
    FindsMember(',', "backup", st.backup, FromPackage(st));
    LookUp(st, install, "package");
    PastStaging(st, install, "package");
    PastBackup(st, install);
    FindsMember(',', "package", st.package, "}\n");
  }

  lemma LookUp(st: State, install: string, key: string)
    requires IsPhase(st.phase) && install != "" && install[0] == '/' && st.target == install
    requires key in ["staging", "backup", "package"]
    ensures FindValue(StateText(st), key) == if Mimics(install, key) then None else FindValue(FromStaging(st), key)
  {
    hide FindValue, Mimics, Escape, Quoted;
    Keys();
    PastPhase(st, key);
    PathsAreNotKeys(install, key);
    assert FromStaging(st)[0] == ',';
    if Mimics(install, key) {
      Misled(',', "target", install, FromStaging(st), key);
    } else {
      ReadPast(',', "target", install, FromStaging(st), key);
    }
  }

  lemma PastStaging(st: State, install: string, key: string)
    requires install != "" && install[0] == '/' && st.staging == StagingOf(install) && key in ["backup", "package"]
    ensures FindValue(FromStaging(st), key) == FindValue(FromBackup(st), key)
  {
    hide FindValue, Mimics, Escape, Quoted;
    Keys();
    PathsAreNotKeys(st.staging, key);
    LastDiffers(st.staging, key);
    assert FromBackup(st)[0] == ',';
    ReadPast(',', "staging", st.staging, FromBackup(st), key);
  }

  lemma PastBackup(st: State, install: string)
    requires install != "" && install[0] == '/' && st.backup == BackupOf(install)
    ensures FindValue(FromBackup(st), "package") == FindValue(FromPackage(st), "package")
  {
    hide FindValue, Mimics, Escape, Quoted;
    Keys();
    PathsAreNotKeys(st.backup, "package");
    LastDiffers(st.backup, "package");
    assert FromPackage(st)[0] == ',';
    ReadPast(',', "backup", st.backup, FromPackage(st), "package");
  }

  /** A value found is the one that was written, if it fits the field. */
  lemma ExtractsWritten(text: string, key: string, v: string, rest: string, cap: nat)
    requires FindValue(text, key) == Some(Escape(v) + "\"" + rest) && |v| < cap
    ensures Extract(text, key, cap) == Some(v)
  {
    hide FindValue, StringValue, Escape;
    ValueOfEscape(v, rest);
  }

  /**
  The round trip, and exactly when it works: for validated paths and any phase, loading what was
  saved gives every field back, unless the installation directory ends in a quotation mark and
  `staging`, `backup` or `package`; then loading reports an error.  What is loaded always passes
  validation for the same arguments.
  */
  lemma LoadAfterSave(phase: string, install: string, zip: string)
    requires IsPhase(phase)
    requires ValidInstall(zip, install, StagingOf(install), BackupOf(install), StatePathOf(install))
    ensures var st := StateOf(phase, install, zip);
      && LoadText(StateText(st)) == (if Unmistakable(install) then Some(st) else None)
      && Valid(st, install, StagingOf(install), BackupOf(install), zip)
  {
    hide FindValue, StringValue, Mimics, Escape, ValidPath, StateText, Extract, CString;
    var st := StateOf(phase, install, zip);
    var text := StateText(st);
    TextFitsReader(phase, install, zip);
    TextHasNoNul(phase, install, zip);
    WholeCString(text);
    ValidPathShape(install, true);
    ValidPathShape(st.staging, true);
    ValidPathShape(st.backup, true);
    ValidPathShape(zip, false);
    Finds(st, install, zip);
    ExtractsWritten(text, "phase", phase, FromTarget(st), PHASE_CAP);
    ExtractsWritten(text, "target", install, FromStaging(st), PATH_CAP);
    if Mimics(install, "staging") { ExtractsNothing(text, "staging", PATH_CAP); }
    else { ExtractsWritten(text, "staging", st.staging, FromBackup(st), PATH_CAP); }
    if Mimics(install, "backup") { ExtractsNothing(text, "backup", PATH_CAP); }
    else { ExtractsWritten(text, "backup", st.backup, FromPackage(st), PATH_CAP); }
    if Mimics(install, "package") { ExtractsNothing(text, "package", PATH_CAP); }
    else { ExtractsWritten(text, "package", zip, "}\n", PATH_CAP); }
  }

  lemma ExtractsNothing(text: string, key: string, cap: nat)
    requires FindValue(text, key) == None
    ensures Extract(text, key, cap) == None
  {
  }

  lemma ValidPathShape(path: string, absolute: bool)
    requires ValidPath(path, absolute)
    ensures 0 < |path| < PATH_CAP && (absolute ==> path[0] == '/')
  {
  }

  /** A saved file never reaches the reader's size limit. */
  lemma TextFitsReader(phase: string, install: string, zip: string)
    requires IsPhase(phase)
    requires ValidInstall(zip, install, StagingOf(install), BackupOf(install), StatePathOf(install))
    ensures |StateText(StateOf(phase, install, zip))| + 4096 <= STATE_READ_MAX
  {
    hide ValidPath;
    var st := StateOf(phase, install, zip);
    ValidPathShape(install, true);
    ValidPathShape(st.staging, true);
    ValidPathShape(st.backup, true);
    ValidPathShape(zip, false);
    EscapeAtMostDoubles(phase);
    EscapeAtMostDoubles(install);
    EscapeAtMostDoubles(st.staging);
    EscapeAtMostDoubles(st.backup);
    EscapeAtMostDoubles(zip);
  }

  lemma {:induction false} EscapeAtMostDoubles(s: string)
    ensures |Escape(s)| <= 2 * |s|
  {
    if s != "" { EscapeAtMostDoubles(s[1..]); }
  }

  lemma {:induction false} EscapeHasNoNul(s: string)
    requires '\0' !in s
    ensures '\0' !in Escape(s)
  {
    if s != "" { EscapeHasNoNul(s[1..]); }
  }

  lemma ValidPathHasNoNul(path: string, absolute: bool)
    requires ValidPath(path, absolute)
    ensures '\0' !in path
  {
  }

  lemma MemberHasNoNul(c: char, key: string, value: string)
    requires c != '\0' && '\0' !in key && '\0' !in value
    ensures '\0' !in Member(c, key, value)
  {
    hide Escape;
    EscapeHasNoNul(value);
  }

  lemma TextHasNoNul(phase: string, install: string, zip: string)
    requires IsPhase(phase)
    requires ValidInstall(zip, install, StagingOf(install), BackupOf(install), StatePathOf(install))
    ensures '\0' !in StateText(StateOf(phase, install, zip))
  {
    hide ValidPath, Member;
    var st := StateOf(phase, install, zip);
    ValidPathHasNoNul(install, true);
    ValidPathHasNoNul(st.staging, true);
    ValidPathHasNoNul(st.backup, true);
    ValidPathHasNoNul(zip, false);
    MemberHasNoNul('{', "phase", phase);
    MemberHasNoNul(',', "target", install);
    MemberHasNoNul(',', "staging", st.staging);
    MemberHasNoNul(',', "backup", st.backup);
    MemberHasNoNul(',', "package", zip);
  }

  // ---------------------------------------------------------------- as spelled

  lemma {:induction false} EscapeNeedless(s: string)
    requires '"' !in s && '\\' !in s
    ensures Escape(s) == s
  {
    if s != "" {
      EscapeNeedless(s[1..]);
      assert [s[0]] + s[1..] == s;
    }
  }

  /** The file that is written for paths without quotation marks and backslashes. */
  lemma PlainStateText(st: State, phase: string, target: string, staging: string, backup: string, package: string)
    requires forall v | v in [st.phase, st.target, st.staging, st.backup, st.package] :: '"' !in v && '\\' !in v
    requires phase == "{\"phase\":\"" + st.phase + "\""
    requires target == ",\"target\":\"" + st.target + "\""
    requires staging == ",\"staging\":\"" + st.staging + "\""
    requires backup == ",\"backup\":\"" + st.backup + "\""
    requires package == ",\"package\":\"" + st.package + "\""
    ensures StateText(st) == phase + (target + (staging + (backup + (package + "}\n"))))
  {
    hide Escape, Member, Needle, StateText;
    var values := [st.phase, st.target, st.staging, st.backup, st.package];
    assert st.phase in values && st.target in values && st.staging in values && st.backup in values &&
           st.package in values;
    NamesSpelled();
    PlainMember('{', "phase", st.phase, "{\"phase\":\"", phase);
    PlainMember(',', "target", st.target, ",\"target\":\"", target);
    PlainMember(',', "staging", st.staging, ",\"staging\":\"", staging);
    PlainMember(',', "backup", st.backup, ",\"backup\":\"", backup);
    PlainMember(',', "package", st.package, ",\"package\":\"", package);
    TextParts(st);
  }

  lemma TextParts(st: State)
    ensures StateText(st) ==
            Member('{', "phase", st.phase) + (Member(',', "target", st.target) +
            (Member(',', "staging", st.staging) + (Member(',', "backup", st.backup) +
            (Member(',', "package", st.package) + "}\n"))))
  {
    hide Member;
  }

  lemma PlainMember(c: char, key: string, value: string, name: string, text: string)
    requires '"' !in value && '\\' !in value
    requires name == [c] + Needle(key) + ":\"" && text == name + value + "\""
    ensures Member(c, key, value) == text
  {
    hide Escape, Needle;
    EscapeNeedless(value);
  }

  lemma NamesSpelled()
    ensures ['{'] + Needle("phase") + ":\"" == "{\"phase\":\""
    ensures [','] + Needle("target") + ":\"" == ",\"target\":\""
    ensures [','] + Needle("staging") + ":\"" == ",\"staging\":\""
    ensures [','] + Needle("backup") + ":\"" == ",\"backup\":\""
    ensures [','] + Needle("package") + ":\"" == ",\"package\":\""
  {
  }
}
