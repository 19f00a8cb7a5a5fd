/**
The chunked coding of HTTP bodies (section 7.1 of RFC 9112) as the reader takes it apart, and as
a sender puts it together.
*/
module ChunkedCoding {
  import opened Ascii

  const LINE_CAP := 96
  const ULLONG_MAX := 0xffff_ffff_ffff_ffff
  const CRLF := "\r\n"

  // ---------------------------------------------------------------- decoding

  /** `read_line_src`: how much of `data` its first line takes, line end included. */
  function Line(data: string): (r: Option<nat>)
    ensures r.Some? ==> 2 <= r.value <= |data|
  {
    var n := FirstMatch(data, CRLF);
    if n < |data| && n + 2 < LINE_CAP then Some(n + 2) else None
  }

  predicate IsHex(c: char) { '0' <= c <= '9' || 'a' <= c <= 'f' || 'A' <= c <= 'F' }

  function HexValue(c: char): (v: nat)
    requires IsHex(c)
    ensures v < 16
  {
    if c <= '9' then c as int - '0' as int
    else if c <= 'F' then c as int - 'A' as int + 10
    else c as int - 'a' as int + 10
  }

  function Number(digits: string): nat
    requires forall i | 0 <= i < |digits| :: IsHex(digits[i])
  {
    if digits == "" then 0 else 16 * Number(digits[..|digits| - 1]) + HexValue(digits[|digits| - 1])
  }

  /** What `strtoull` with base 16 passes over before the digits. */
  function Unsigned(t: string): string {
    var u := if t != "" && (t[0] == '-' || t[0] == '+') then t[1..] else t;
    if |u| > 2 && u[0] == '0' && (u[1] == 'x' || u[1] == 'X') && IsHex(u[2]) then u[2..] else u
  }

  function Digits(line: string): (r: string)
    ensures forall i | 0 <= i < |r| :: IsHex(r[i])
  {
    var u := Unsigned(SkipBlank(line));
    u[..Span(IsHex, u)]
  }

  /** `strtoull(line, NULL, 16)`: too large a number saturates, a minus sign wraps around. */
  function ChunkSize(line: string): (n: nat)
    ensures n <= ULLONG_MAX
  {
    var t := SkipBlank(line);
    var n := Number(Digits(line));
    if n > ULLONG_MAX then ULLONG_MAX
    else if n > 0 && t != "" && t[0] == '-' then ULLONG_MAX + 1 - n
    else n
  }

  /** A decoded body and what is left unread behind it. */
  datatype Decoded = Decoded(body: string, rest: string)

  function Before(s: string, r: Option<Decoded>): Option<Decoded> {
    if r.None? then None else Some(r.value.(body := s + r.value.body))
  }

  /** What the chunked readers make of a stream; `None` is their error return. */
  function Decode(data: string): (r: Option<Decoded>)
    ensures r.Some? ==> |r.value.rest| <= |data|
    decreases |data|
  {
    var line := Line(data);
    if line.None? then None
    else
      var size, after := ChunkSize(data[..line.value]), data[line.value..];
      if size == 0 then
        var last := Line(after);
        if last.None? then None else Some(Decoded("", after[last.value..]))
      else if size > |after| then None
      else
        var end := Line(after[size..]);
        if end.None? then None
        else Before(after[..size], Decode(after[size..][end.value..]))
  }

  lemma DecodeStep(data: string)
    ensures var line := Line(data);
      if line.None? then Decode(data).None?
      else
        var size, after := ChunkSize(data[..line.value]), data[line.value..];
        && (size == 0 ==>
              Decode(data) == (if Line(after).None? then None else Some(Decoded("", after[Line(after).value..]))))
        && (size > |after| ==> Decode(data).None?)
        && (0 < size <= |after| ==>
              var end := Line(after[size..]);
              Decode(data) == if end.None? then None else Before(after[..size], Decode(after[size..][end.value..])))
  {
  }

  /** The data at the head of a stream, up to where the reader stops, malformed or cut off streams included. */
  function Delivered(data: string): string
    decreases |data|
  {
    var line := Line(data);
    if line.None? then ""
    else
      var size, after := ChunkSize(data[..line.value]), data[line.value..];
      if size == 0 then ""
      else if size > |after| then after
      else
        var end := Line(after[size..]);
        after[..size] + if end.None? then "" else Delivered(after[size..][end.value..])
  }

  lemma DeliveredStep(data: string)
    ensures var line := Line(data);
      if line.None? then Delivered(data) == ""
      else
        var size, after := ChunkSize(data[..line.value]), data[line.value..];
        && (size == 0 ==> Delivered(data) == "")
        && (size > |after| ==> Delivered(data) == after)
        && (0 < size <= |after| ==>
              var end := Line(after[size..]);
              Delivered(data) == after[..size] + if end.None? then "" else Delivered(after[size..][end.value..]))
  {
  }

  /** What is delivered of a stream that decodes is its body. */
  lemma {:induction false} DeliveredIsBody(data: string)
    ensures Decode(data).Some? ==> Decode(data).value.body == Delivered(data)
    decreases |data|
  {
    hide Decode, Delivered, Line, ChunkSize;
    DecodeStep(data);
    DeliveredStep(data);
    if Decode(data).Some? {
      var n := Line(data).value;
      var size, after := ChunkSize(data[..n]), data[n..];
      if size > 0 {
        DeliveredIsBody(after[size..][Line(after[size..]).value..]);
      }
    }
  }

  // ---------------------------------------------------------------- encoding

  /** Section 7.1: the size in hexadecimal, an optional extension, the data. */
  datatype Chunk = Chunk(digits: string, ext: string, data: string)

  predicate SizeLine(digits: string, ext: string) {
    && digits != "" && (forall i | 0 <= i < |digits| :: IsHex(digits[i]))
    && (ext != "" ==> ext[0] == ';' || ext[0] == ' ' || ext[0] == '\t')
    && '\n' !in ext
    && |digits| + |ext| + 2 < LINE_CAP
  }

  predicate WellFormed(c: Chunk) {
    && SizeLine(c.digits, c.ext)
    && Number(c.digits) == |c.data|
    && 0 < |c.data| <= ULLONG_MAX
  }

  function EncodeChunk(c: Chunk): string { c.digits + c.ext + CRLF + c.data + CRLF }

  function EncodeAll(chunks: seq<Chunk>): string {
    if chunks == [] then "" else EncodeChunk(chunks[0]) + EncodeAll(chunks[1..])
  }

  function DataOf(chunks: seq<Chunk>): string {
    if chunks == [] then "" else chunks[0].data + DataOf(chunks[1..])
  }

  /** The last chunk, of size zero, and the first line behind it: a trailer field or the empty line. */
  datatype End = End(digits: string, ext: string, trailer: string)

  predicate WellFormedEnd(e: End) {
    SizeLine(e.digits, e.ext) && Number(e.digits) == 0 && '\n' !in e.trailer && |e.trailer| + 2 < LINE_CAP
  }

  function EncodeEnd(e: End): string { e.digits + e.ext + CRLF + e.trailer + CRLF }

  function Encode(chunks: seq<Chunk>, e: End): string { EncodeAll(chunks) + EncodeEnd(e) }

  // ---------------------------------------------------------------- decoding what was encoded

  /** A line of more than 93 characters, its end not counted, is refused, and no shorter one. */
  lemma LineIs(text: string, tail: string)
    requires '\n' !in text
    ensures Line(text + "\r\n" + tail) == if |text| <= 93 then Some(|text| + 2) else None
  {
    hide FirstMatch;
    var data := text + CRLF + tail;
    var n := |text|;
    assert data[n..n + 2] == CRLF;
    forall i | 0 <= i < n ensures !MatchesAt(data, i, CRLF) {
      assert data[i..i + 2][1] == data[i + 1] == if i + 1 < n then text[i + 1] else '\r';
    }
    FirstMatchIs(data, CRLF, n);
  }

  /** The size line of a chunk is read as its number. */
  lemma SizeIs(digits: string, ext: string)
    requires SizeLine(digits, ext) && Number(digits) <= ULLONG_MAX
    ensures ChunkSize(digits + ext + CRLF) == Number(digits)
  {
    hide Number, Span;
    var line := digits + ext + CRLF;
    assert IsHex(line[0]);
    SpanIs(IsSpace, line, 0);
    assert SkipBlank(line) == line;
    assert |line| > 1 ==> line[1] != 'x' && line[1] != 'X' by {
      assert |digits| > 1 ==> IsHex(line[1]);
    }
    SpanIs(IsHex, line, |digits|);
    assert line[..|digits|] == digits;
  }

  /** Two lines, the first without a digit other than zero, are an end. */
  lemma EndDecodes(first: string, second: string, tail: string)
    requires '\n' !in first && |first| + 2 < LINE_CAP && '\n' !in second && |second| + 2 < LINE_CAP
    requires ChunkSize(first + CRLF) == 0
    ensures Decode(first + CRLF + second + CRLF + tail) == Some(Decoded("", tail))
  {
    hide Decode, Line, ChunkSize;
    var after := second + CRLF + tail;
    var data := first + CRLF + after;
    assert data == first + CRLF + second + CRLF + tail;
    LineIs(first, after);
    LineIs(second, tail);
    DecodeStep(data);
    assert data[..|first| + 2] == first + CRLF && data[|first| + 2..] == after;
    assert after[|second| + 2..] == tail;
  }

  /** The size line in front of anything. */
  lemma HeadIsLine(digits: string, ext: string, tail: string)
    requires SizeLine(digits, ext) && Number(digits) <= ULLONG_MAX
    ensures var data, n := digits + ext + CRLF + tail, |digits| + |ext| + 2;
      Line(data) == Some(n) && ChunkSize(data[..n]) == Number(digits) && data[n..] == tail
  {
    hide ChunkSize, Line, Number;
    assert '\n' !in digits;
    LineIs(digits + ext, tail);
    SizeIs(digits, ext);
    var data, n := digits + ext + CRLF + tail, |digits| + |ext| + 2;
    assert data[..n] == digits + ext + CRLF;
  }

  lemma ChunkDecodes(c: Chunk, more: string)
    requires WellFormed(c)
    ensures Decode(EncodeChunk(c) + more) == Before(c.data, Decode(more))
  {
    hide Decode, Line, ChunkSize, SizeLine;
    var data, after := EncodeChunk(c) + more, c.data + CRLF + more;
    HeadIsLine(c.digits, c.ext, after);
    assert data == c.digits + c.ext + CRLF + after;
    DecodeStep(data);
    assert after[..|c.data|] == c.data;
    assert after[|c.data|..] == "" + CRLF + more;
    LineIs("", more);
    assert ("" + CRLF + more)[2..] == more;
  }

  lemma BeforeBefore(s: string, t: string, r: Option<Decoded>)
    ensures Before(s, Before(t, r)) == Before(s + t, r)
  {
    assert r.Some? ==> s + (t + r.value.body) == s + t + r.value.body;
  }

  lemma BeforeNone(r: Option<Decoded>)
    ensures Before("", r) == r
  {
    assert r.Some? ==> "" + r.value.body == r.value.body;
  }

  lemma BeforeNothing(s: string, rest: string)
    ensures Before(s, Some(Decoded("", rest))) == Some(Decoded(s, rest))
  {
    assert s + "" == s;
  }

  lemma {:induction false} ChunksDecode(chunks: seq<Chunk>, more: string)
    requires forall c | c in chunks :: WellFormed(c)
    ensures Decode(EncodeAll(chunks) + more) == Before(DataOf(chunks), Decode(more))
  {
    hide Decode, WellFormed, EncodeChunk;
    if chunks == [] {
      assert "" + more == more;
      BeforeNone(Decode(more));
    } else {
      var c, others := chunks[0], chunks[1..];
      assert EncodeAll(chunks) + more == EncodeChunk(c) + (EncodeAll(others) + more);
      ChunksDecode(others, more);
      ChunkDecodes(c, EncodeAll(others) + more);
      BeforeBefore(c.data, DataOf(others), Decode(more));
    }
  }

  /**
  Any list of chunks, in any spelling of their sizes, ended by a last chunk, is decoded to the
  concatenation of their data; what follows the line behind the last chunk stays unread.
  */
  lemma {:induction false} DecodeAfterEncode(chunks: seq<Chunk>, e: End, tail: string)
    requires (forall c | c in chunks :: WellFormed(c)) && WellFormedEnd(e)
    ensures Decode(Encode(chunks, e) + tail) == Some(Decoded(DataOf(chunks), tail))
  {
    hide Decode, WellFormed, ChunkSize, EncodeAll, DataOf;
    ChunksDecode(chunks, EncodeEnd(e) + tail);
    assert Encode(chunks, e) + tail == EncodeAll(chunks) + (EncodeEnd(e) + tail);
    SizeIs(e.digits, e.ext);
    assert '\n' !in e.digits + e.ext;
    EndDecodes(e.digits + e.ext, e.trailer, tail);
    BeforeNothing(DataOf(chunks), tail);
  }

  // ---------------------------------------------------------------- more input, less input

  lemma LineExtends(s: string, t: string)
    requires Line(s).Some?
    ensures Line(s + t) == Line(s)
  {
    FirstMatchExtends(s, t, CRLF);
  }

  lemma CutOfConcat(s: string, t: string, n: nat)
    requires n <= |s|
    ensures (s + t)[..n] == s[..n] && (s + t)[n..] == s[n..] + t
  {
  }

  function WithRest(t: string, r: Option<Decoded>): Option<Decoded> {
    if r.None? then None else Some(r.value.(rest := r.value.rest + t))
  }

  /** Input that is decoded is decoded alike with more behind it. */
  lemma {:induction false} DecodeExtends(s: string, t: string)
    ensures Decode(s).Some? ==> Decode(s + t) == WithRest(t, Decode(s))
    decreases |s|
  {
    hide Decode, Line, ChunkSize;
    if Decode(s).Some? {
      DecodeStep(s);
      DecodeStep(s + t);
      LineExtends(s, t);
      var n := Line(s).value;
      CutOfConcat(s, t, n);
      var size, after := ChunkSize(s[..n]), s[n..];
      if size == 0 {
        LineExtends(after, t);
        CutOfConcat(after, t, Line(after).value);
      } else {
        CutOfConcat(after, t, size);
        var behind := after[size..];
        LineExtends(behind, t);
        var m := Line(behind).value;
        CutOfConcat(behind, t, m);
        DecodeExtends(behind[m..], t);
      }
    }
  }

  /** A message that was cut short anywhere is never taken for a whole one. */
  lemma TruncationIsNoticed(chunks: seq<Chunk>, e: End, part: string)
    requires (forall c | c in chunks :: WellFormed(c)) && WellFormedEnd(e)
    requires part <= Encode(chunks, e) && part != Encode(chunks, e)
    ensures Decode(part).None?
  {
    hide Decode, Encode, WellFormed, WellFormedEnd;
    var whole := Encode(chunks, e);
    var cut := whole[|part|..];
    assert whole == part + cut && whole + "" == whole;
    DecodeAfterEncode(chunks, e, "");
    DecodeExtends(part, cut);
  }

  // ---------------------------------------------------------------- malformed size lines

  lemma {:induction false} NumberIsZero(digits: string)
    requires forall i | 0 <= i < |digits| :: IsHex(digits[i])
    ensures Number(digits) == 0 <==> forall i | 0 <= i < |digits| :: digits[i] == '0'
  {
    if digits != "" {
      var front, c := digits[..|digits| - 1], digits[|digits| - 1];
      NumberIsZero(front);
      assert HexValue(c) == 0 <==> c == '0';
      assert forall i | 0 <= i < |front| :: front[i] == digits[i];
    }
  }

  /**
  Section 7.1 asks for at least one digit.  The reader does not: a size line ends the body exactly
  when every digit read from it is a zero, no digit at all included.
  */
  lemma EndsBodyExactly(line: string)
    ensures ChunkSize(line) == 0 <==> forall i | 0 <= i < |Digits(line)| :: Digits(line)[i] == '0'
  {
    NumberIsZero(Digits(line));
  }

  /** So a body with a damaged size line is cut off there, and accepted. */
  lemma {:induction false} DamagedSizeLineIsTheEnd(chunks: seq<Chunk>, damaged: string, second: string, tail: string)
    requires forall c | c in chunks :: WellFormed(c)
    requires '\n' !in damaged && |damaged| + 2 < LINE_CAP && '\n' !in second && |second| + 2 < LINE_CAP
    requires Digits(damaged + CRLF) == ""
    ensures Decode(EncodeAll(chunks) + (damaged + CRLF + second + CRLF + tail)) == Some(Decoded(DataOf(chunks), tail))
  {
    hide Decode, WellFormed, EncodeAll, Digits, ChunkSize, DataOf;
    ChunksDecode(chunks, damaged + CRLF + second + CRLF + tail);
    EndsBodyExactly(damaged + CRLF);
    EndDecodes(damaged, second, tail);
    BeforeNothing(DataOf(chunks), tail);
  }

  /** An instance: the second chunk is lost. */
  lemma DamagedSizeLine()
    ensures Decode("2\r\nab\r\n" + "zz\r\ncd\r\n" + "0\r\n\r\n") == Some(Decoded("ab", "0\r\n\r\n"))
  {
    hide Decode, Digits, ChunkSize;
    var c := Chunk("2", "", "ab");
    assert Number("2") == 2 && WellFormed(c);
    assert EncodeAll([c]) == EncodeChunk(c) + EncodeAll([]) == "2\r\nab\r\n";
    assert DataOf([c]) == "ab" + DataOf([]) == "ab";
    NoDigits();
    DamagedSizeLineIsTheEnd([c], "zz", "cd", "0\r\n\r\n");
    assert "zz" + CRLF + "cd" + CRLF + "0\r\n\r\n" == "zz\r\ncd\r\n" + "0\r\n\r\n";
    assert "2\r\nab\r\n" + ("zz\r\ncd\r\n" + "0\r\n\r\n") == "2\r\nab\r\n" + "zz\r\ncd\r\n" + "0\r\n\r\n";
  }

  lemma NoDigits()
    ensures Digits("zz" + CRLF) == ""
  {
    SpanIs(IsSpace, "zz" + CRLF, 0);
    SpanIs(IsHex, "zz" + CRLF, 0);
    assert SkipBlank("zz" + CRLF) == "zz" + CRLF;
  }
}
