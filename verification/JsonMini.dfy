/**
The small JSON reader: the first string value behind a quoted key.  Texts are C strings, so they
hold no NUL.
*/
module JsonMini {
  import opened Ascii

  const NEEDLE_CAP := 96

  // ---------------------------------------------------------------- what is read

  function Needle(key: string): string { "\"" + key + "\"" }

  /** Behind a colon and an opening mark, white space around the colon. */
  function ReadColon(s: string): Option<string> {
    var t := SkipBlank(s);
    if t == "" || t[0] != ':' then None
    else
      var u := SkipBlank(t[1..]);
      if u == "" || u[0] != '"' then None else Some(u[1..])
  }

  /** The text from the first character of the string value behind `key`. */
  function FindValue(json: string, key: string): Option<string> {
    var n := FirstMatch(json, Needle(key));
    if |key| + 3 > NEEDLE_CAP || n == |json| then None else ReadColon(json[n + |key| + 2..])
  }

  function Unescape(c: char): char {
    if c == 'n' then '\n' else if c == 'r' then '\r' else if c == 't' then '\t' else c
  }

  /** The decoded value up to the closing quotation mark, and its length in the text. */
  function StringValue(t: string): (r: Option<(string, nat)>)
    ensures r.Some? ==> r.value.1 < |t| && |r.value.0| <= r.value.1
  {
    if t == "" then None
    else if t[0] == '"' then Some(("", 0))
    else
      var n := if t[0] == '\\' && |t| > 1 then 2 else 1;
      match StringValue(t[n..])
      case None => None
      case Some((v, k)) => Some(([Unescaped(t)] + v, n + k))
  }

  /** The first decoded character. */
  function Unescaped(t: string): char
    requires t != ""
  {
    if t[0] == '\\' && |t| > 1 then Unescape(t[1]) else t[0]
  }

  /** The value behind `key`, if it fits a buffer of `cap` characters with its NUL. */
  function Extract(json: string, key: string, cap: nat): Option<string> {
    match FindValue(json, key)
    case None => None
    case Some(t) =>
      match StringValue(t)
      case None => None
      case Some((v, _)) => if |v| < cap then Some(v) else None
  }

  // ---------------------------------------------------------------- the reader

  /** `find_string_value_start` */
  method FindStringValueStart(json: string, key: string) returns (p: Option<nat>)
    ensures p.Some? ==> p.value <= |json| && FindValue(json, key) == Some(json[p.value..])
    ensures p.None? ==> FindValue(json, key) == None
  {
    hide FirstMatch, SkipBlank;
    if |key| + 3 > NEEDLE_CAP { return None; }
    var n := Search(json, Needle(key));
    if n == |json| { return None; }
    var q := SkipWs(json, n + |key| + 2);
    if q == |json| || json[q] != ':' { return None; }
    assert json[q..][1..] == json[q + 1..];
    q := SkipWs(json, q + 1);
    if q == |json| || json[q] != '"' { return None; }
    assert json[q..][1..] == json[q + 1..];
    p := Some(q + 1);
  }

  lemma ValueStep(t: string)
    requires t != "" && t[0] != '"'
    ensures var n := if t[0] == '\\' && |t| > 1 then 2 else 1;
      StringValue(t) ==
      match StringValue(t[n..])
      case None => None
      case Some((v, k)) => Some(([Unescaped(t)] + v, n + k))
  {
  }

  /** How much of the value is still to come, in both passes. */
  ghost predicate Progress(t: string, p: nat, done: string)
    requires p <= |t|
  {
    StringValue(t) ==
    match StringValue(t[p..])
    case None => None
    case Some((v, k)) => Some((done + v, p + k))
  }

  lemma ProgressStep(t: string, p: nat, done: string)
    requires p < |t| && t[p] != '"' && Progress(t, p, done)
    ensures var n := if t[p] == '\\' && p + 1 < |t| then 2 else 1;
      Progress(t, p + n, done + [Unescaped(t[p..])])
  {
    hide StringValue;
    var u := t[p..];
    ValueStep(u);
    var n := if t[p] == '\\' && p + 1 < |t| then 2 else 1;
    assert u[n..] == t[p + n..];
    match StringValue(t[p + n..])
    case None =>
    case Some((v, k)) => assert done + ([Unescaped(u)] + v) == done + [Unescaped(u)] + v;
  }

  /**
  `parse_json_string_value` without an output buffer: the measuring pass.  `max` is the longest
  value allowed, `None` for no limit.
  */
  method MeasureValue(t: string, max: Option<nat>) returns (ok: bool, count: nat, end: nat)
    ensures ok <==> StringValue(t).Some? && (max.Some? ==> |StringValue(t).value.0| <= max.value)
    ensures ok ==> count == |StringValue(t).value.0| && end == StringValue(t).value.1
  {
    hide StringValue, Unescaped;
    var p, i := 0, 0;
    ghost var done := "";
    assert t[0..] == t;
    ProgressStart(t);
    while p < |t|
      invariant p <= |t| && i == |done| && Progress(t, p, done) && (max.Some? ==> i <= max.value)
      decreases |t| - p
    {
      if t[p] == '"' {
        ClosingQuote(t[p..]);
        return true, i, p;
      }
      ProgressStep(t, p, done);
      done := done + [Unescaped(t[p..])];
      if max.Some? && i >= max.value {
        return false, i, p;
      }
      p := if t[p] == '\\' && p + 1 < |t| then p + 2 else p + 1;
      i := i + 1;
    }
    ClosingQuote(t[p..]);
    ok, count, end := false, i, p;
  }

  lemma ProgressStart(t: string)
    ensures Progress(t, 0, "")
  {
    assert t[0..] == t;
    match StringValue(t)
    case None =>
    case Some((v, k)) => assert "" + v == v;
  }

  lemma ClosingQuote(t: string)
    ensures t == "" ==> StringValue(t) == None
    ensures t != "" && t[0] == '"' ==> StringValue(t) == Some(("", 0))
  {
  }

  /** The same with an output buffer: the decoding pass. */
  method DecodeValue(t: string, out: array<char>, max: Option<nat>) returns (ok: bool, count: nat, end: nat)
    modifies out
    ensures ok <==> StringValue(t).Some? && |StringValue(t).value.0| < out.Length &&
                    (max.Some? ==> |StringValue(t).value.0| <= max.value)
    ensures ok ==> count == |StringValue(t).value.0| && end == StringValue(t).value.1 &&
                   out[..count] == StringValue(t).value.0 && out[count] == '\0'
  {
    hide StringValue;
    var p, i := 0, 0;
    ghost var done := "";
    assert t[0..] == t;
    ProgressStart(t);
    while p < |t|
      invariant p <= |t| && i == |done| && Progress(t, p, done) && (max.Some? ==> i <= max.value)
      invariant i <= out.Length && out[..i] == done && (i > 0 ==> i < out.Length)
      decreases |t| - p
    {
      if t[p] == '"' {
        ClosingQuote(t[p..]);
        assert done + "" == done;
        if i >= out.Length { return false, i, p; }
        out[i] := '\0';
        return true, i, p;
      }
      ProgressStep(t, p, done);
      done := done + [Unescaped(t[p..])];
      if max.Some? && i >= max.value { return false, i, p; }
      if i + 1 >= out.Length { return false, i, p; }
      if t[p] == '\\' && p + 1 < |t| {
        p := p + 1;
        if t[p] == 'n' {
          out[i] := '\n';
        } else if t[p] == 'r' {
          out[i] := '\r';
        } else if t[p] == 't' {
          out[i] := '\t';
        } else {
          out[i] := t[p];
        }
      } else {
        out[i] := t[p];
      }
      p := p + 1;
      i := i + 1;
    }
    ClosingQuote(t[p..]);
    ok, count, end := false, i, p;
  }

  /** `json_mini_extract_string` */
  method ExtractString(json: string, key: string, out: array<char>) returns (ok: bool, ghost value: string)
    modifies out
    ensures ok <==> Extract(json, key, out.Length).Some?
    ensures ok ==> Extract(json, key, out.Length) == Some(value) &&
                   |value| < out.Length && out[..|value|] == value && out[|value|] == '\0'
  {
    hide FindValue, StringValue;
    value := "";
    if out.Length == 0 { return false, value; }
    var p := FindStringValueStart(json, key);
    if p.None? { return false, value; }
    var count, end;
    ok, count, end := DecodeValue(json[p.value..], out, None);
    if ok { value := out[..count]; }
  }

  datatype Found = Missing | Malformed | Value(text: string)

  /**
  `json_mini_extract_string_alloc`: measure, allocate exactly enough, decode.  The second pass never
  fails and finds the length of the first.
  */
  method ExtractStringAlloc(json: string, key: string, max: nat) returns (r: Found)
    ensures r == match FindValue(json, key)
                 case None => Missing
                 case Some(t) =>
                   match StringValue(t)
                   case None => Malformed
                   case Some((v, _)) => if |v| <= max then Value(v) else Malformed
  {
    hide FindValue, StringValue;
    var p := FindStringValueStart(json, key);
    if p.None? { return Missing; }
    var ok, count, end := MeasureValue(json[p.value..], Some(max));
    if !ok { return Malformed; }
    var buf := new char[count + 1];
    var ok2, count2, end2 := DecodeValue(json[p.value..], buf, Some(max));
    assert ok2 && count2 == count && end2 == end;
    r := Value(buf[..count2]);
  }

  // ---------------------------------------------------------------- escapes as spelled

  /** What stands behind a backslash, and what it is decoded to. */
  predicate Escapes(c: char, decoded: char) {
    if c == 'n' then decoded == '\n'
    else if c == 'r' then decoded == '\r'
    else if c == 't' then decoded == '\t'
    else decoded == c
  }

  lemma EscapeDecoded(c: char, decoded: char, rest: string)
    requires Escapes(c, decoded)
    ensures StringValue(['\\', c] + rest) ==
            match StringValue(rest)
            case None => None
            case Some((v, k)) => Some(([decoded] + v, 2 + k))
  {
    var t := ['\\', c] + rest;
    ValueStep(t);
    assert t[2..] == rest;
  }

  lemma CharDecoded(c: char, rest: string)
    requires c != '"' && c != '\\'
    ensures StringValue([c] + rest) ==
            match StringValue(rest)
            case None => None
            case Some((v, k)) => Some(([c] + v, 1 + k))
  {
    var t := [c] + rest;
    ValueStep(t);
    assert t[1..] == rest;
  }

  lemma ValueEnds(rest: string)
    ensures StringValue("\"" + rest) == Some(("", 0))
  {
  }

  predicate WhiteSpace(s: string) {
    forall c | c in s :: c == ' ' || c == '\t' || c == '\n' || c == '\U{0B}' || c == '\U{0C}' || c == '\r'
  }

  lemma SkipsWhiteSpace(blanks: string, x: string)
    requires WhiteSpace(blanks) && x != "" && !IsSpace(x[0])
    ensures SkipBlank(blanks + x) == x
  {
    var t := blanks + x;
    assert forall i | 0 <= i < |blanks| :: t[i] == blanks[i] && blanks[i] in blanks;
    SpanIs(IsSpace, t, |blanks|);
  }

  /** The first member of an object, with white space around the colon. */
  lemma FindsNotes(before: string, after: string, value: string)
    requires WhiteSpace(before) && WhiteSpace(after)
    ensures FindValue("{\"notes\"" + before + ":" + after + "\"" + value, "notes") == Some(value)
  {
    hide FirstMatch, Span, SkipBlank;
    var quoted := "\"" + value;
    var tail := ":" + (after + quoted);
    var json := "{\"notes\"" + before + ":" + after + "\"" + value;
    assert json == "{\"notes\"" + (before + tail);
    assert json[1..8] == Needle("notes") && json[0] != '"';
    FirstMatchIs(json, Needle("notes"), 1);
    assert json[8..] == before + tail && tail[1..] == after + quoted && quoted[1..] == value;
    SkipsWhiteSpace(before, tail);
    SkipsWhiteSpace(after, quoted);
  }

  /** A member with every letter escape, a quotation mark, a backslash, and an escape that stands for itself. */
  lemma NotesDecoded()
    ensures Extract("{\"notes\":\"\\n\\r\\t\\\"\\\\\\u\"}", "notes", 64) == Some("\n\r\t\"\\u")
  {
    hide StringValue, FindValue;
    var t0 := "\"" + "}";
    var t1 := ['\\', 'u'] + t0;
    var t2 := ['\\', '\\'] + t1;
    var t3 := ['\\', '"'] + t2;
    var t4 := ['\\', 't'] + t3;
    var t5 := ['\\', 'r'] + t4;
    var t6 := ['\\', 'n'] + t5;
    ValueEnds("}");
    EscapeDecoded('u', 'u', t0);
    EscapeDecoded('\\', '\\', t1);
    EscapeDecoded('"', '"', t2);
    EscapeDecoded('t', '\t', t3);
    EscapeDecoded('r', '\r', t4);
    EscapeDecoded('n', '\n', t5);
    assert ['u'] + "" == "u" && ['\\'] + "u" == "\\u" && ['"'] + "\\u" == "\"\\u";
    assert ['\t'] + "\"\\u" == "\t\"\\u" && ['\r'] + "\t\"\\u" == "\r\t\"\\u";
    assert ['\n'] + "\r\t\"\\u" == "\n\r\t\"\\u";
    FindsNotes("", "", t6);
    assert "{\"notes\"" + "" + ":" + "" + "\"" + t6 == "{\"notes\":\"" + t6;
    NotesSpelled(t6);
  }

  lemma NotesSpelled(t: string)
    requires t == ['\\', 'n'] + (['\\', 'r'] + (['\\', 't'] +
                  (['\\', '"'] + (['\\', '\\'] + (['\\', 'u'] + ("\"" + "}"))))))
    ensures "{\"notes\":\"\\n\\r\\t\\\"\\\\\\u\"}" == "{\"notes\":\"" + t
  {
  }
}
