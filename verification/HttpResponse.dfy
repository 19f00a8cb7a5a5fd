/**
Whole responses as they are spelled: header lines, the empty line, chunks with their sizes in
hexadecimal, the last chunk.
*/
module HttpResponse {
  import opened Ascii
  import opened ChunkedCoding
  import opened HttpBody

  // ---------------------------------------------------------------- hexadecimal sizes

  const HEX := "0123456789abcdef"

  function HexOf(n: nat): (r: string)
    ensures r != ""
  {
    if n < 16 then [HEX[n]] else HexOf(n / 16) + [HEX[n % 16]]
  }

  lemma DigitIs(n: nat, c: char)
    requires n < 16 && Lower(c) == HEX[n]
    ensures IsHex(c) && HexValue(c) == n
  {
  }

  lemma LowerParts(s: string, t: string, c: char)
    requires LowerAll(s) == t + [c]
    ensures s != "" && LowerAll(s[..|s| - 1]) == t && Lower(s[|s| - 1]) == c
  {
    var n := |s| - 1;
    assert Lower(s[n]) == LowerAll(s)[n] == c;
    assert forall i | 0 <= i < n :: LowerAll(s[..n])[i] == LowerAll(s)[i] == t[i];
  }

  /** A size in hexadecimal, in either case, is read as itself. */
  lemma {:induction false} HexIsRead(n: nat, digits: string)
    requires LowerAll(digits) == HexOf(n)
    ensures (forall i | 0 <= i < |digits| :: IsHex(digits[i])) && Number(digits) == n
    decreases n
  {
    hide HexValue, IsHex;
    if n < 16 {
      assert [HEX[n]] == "" + [HEX[n]];
      LowerParts(digits, "", HEX[n]);
      DigitIs(n, digits[0]);
      assert digits == [digits[0]] && digits[..0] == "" && Number("") == 0;
    } else {
      LowerParts(digits, HexOf(n / 16), HEX[n % 16]);
      var front := digits[..|digits| - 1];
      HexIsRead(n / 16, front);
      DigitIs(n % 16, digits[|digits| - 1]);
      assert forall i | 0 <= i < |front| :: digits[i] == front[i];
    }
  }

  function Pow16(k: nat): nat { if k == 0 then 1 else 16 * Pow16(k - 1) }

  lemma {:induction false} HexLength(n: nat, k: nat)
    requires k > 0 && n < Pow16(k)
    ensures |HexOf(n)| <= k
    decreases k
  {
    if n >= 16 { HexLength(n / 16, k - 1); }
  }

  lemma SixteenDigits()
    ensures Pow16(16) == 0x1_0000_0000_0000_0000
  {
    assert Pow16(4) == 0x1_0000;
    assert Pow16(8) == 0x1_0000_0000;
    assert Pow16(12) == 0x1_0000_0000_0000;
  }

  predicate Sign(s: string) { s == "" || s == "+" || s == "-" }

  predicate Prefix(s: string) { s == "" || s == "0x" || s == "0X" }

  lemma HexIsHex(n: nat, digits: string)
    requires LowerAll(digits) == HexOf(n)
    ensures digits != "" && forall i | 0 <= i < |digits| :: IsHex(digits[i])
  {
    HexIsRead(n, digits);
    assert |digits| == |HexOf(n)|;
  }

  lemma PassesSign(sign: string, u: string)
    requires Sign(sign) && u != "" && u[0] != '-' && u[0] != '+'
    ensures var t := sign + u; (if t[0] == '-' || t[0] == '+' then t[1..] else t) == u
  {
  }

  lemma PassesPrefix(prefix: string, v: string)
    requires Prefix(prefix) && v != "" && IsHex(v[0]) && (|v| > 1 ==> v[1] != 'x' && v[1] != 'X')
    ensures var u := prefix + v;
      (if |u| > 2 && u[0] == '0' && (u[1] == 'x' || u[1] == 'X') && IsHex(u[2]) then u[2..] else u) == v
  {
    hide IsHex;
    var u := prefix + v;
    if prefix == "" {
      assert u == v;
    } else {
      assert u[0] == prefix[0] && u[1] == prefix[1] && u[2] == v[0] && u[2..] == v;
    }
  }

  /** Sign and prefix are passed over, up to a character that is no digit. */
  lemma DigitsBehind(sign: string, prefix: string, digits: string, stop: string)
    requires Sign(sign) && Prefix(prefix) && digits != "" && forall i | 0 <= i < |digits| :: IsHex(digits[i])
    requires stop == "" || (!IsHex(stop[0]) && stop[0] != 'x' && stop[0] != 'X')
    ensures Digits(sign + prefix + digits + stop) == digits
    ensures SkipBlank(sign + prefix + digits + stop) == sign + prefix + digits + stop
  {
    hide Span, Unsigned, Sign, Prefix;
    var v := digits + stop;
    var u := prefix + v;
    var t := sign + u;
    assert t == sign + prefix + digits + stop;
    assert v[0] == digits[0] && (|v| > 1 ==> v[1] == if |digits| > 1 then digits[1] else stop[0]);
    PassesBoth(sign, prefix, v);
    SpanIs(IsSpace, t, 0);
    assert t[0..] == t && SkipBlank(t) == t;
    SpanIs(IsHex, v, |digits|);
    assert v[..|digits|] == digits;
  }

  lemma PassesBoth(sign: string, prefix: string, v: string)
    requires Sign(sign) && Prefix(prefix) && v != "" && IsHex(v[0]) && (|v| > 1 ==> v[1] != 'x' && v[1] != 'X')
    ensures var t := sign + (prefix + v); Unsigned(t) == v && !IsSpace(t[0])
  {
    var u := prefix + v;
    assert u[0] == if prefix == "" then v[0] else '0';
    PassesSign(sign, u);
    PassesPrefix(prefix, v);
  }

  /** How a number is read: sign, prefix, digits; too large a one saturates, a minus sign wraps around. */
  lemma NumberIsRead(sign: string, prefix: string, n: nat, digits: string, stop: string)
    requires Sign(sign) && Prefix(prefix) && LowerAll(digits) == HexOf(n)
    requires stop == "" || (!IsHex(stop[0]) && stop[0] != 'x' && stop[0] != 'X')
    ensures ChunkSize(sign + prefix + digits + stop) ==
            if n >= 0x1_0000_0000_0000_0000 then 0xffff_ffff_ffff_ffff
            else if sign == "-" && n > 0 then 0x1_0000_0000_0000_0000 - n else n
  {
    hide Span, Digits, SkipBlank;
    HexIsRead(n, digits);
    HexIsHex(n, digits);
    DigitsBehind(sign, prefix, digits, stop);
    var t := sign + prefix + digits + stop;
    assert t[0] == if sign != "" then sign[0] else if prefix != "" then prefix[0] else digits[0];
  }

  // ---------------------------------------------------------------- header lines

  predicate HeaderLine(line: string) { line != "" && '\r' !in line && '\n' !in line && '\0' !in line }

  function HeaderText(lines: seq<string>): string {
    if lines == [] then "" else lines[0] + "\r\n" + HeaderText(lines[1..])
  }

  lemma {:induction false} HeaderShape(lines: seq<string>)
    requires lines != [] && forall l | l in lines :: HeaderLine(l)
    ensures var t := HeaderText(lines);
      && |t| > 2 && t[|t| - 2..] == "\r\n" && t[0] != '\r' && t[0] != '\n' && '\0' !in t
  {
    var l, more := lines[0], HeaderText(lines[1..]);
    assert HeaderLine(l) && l[0] in l;
    if |lines| > 1 {
      HeaderShape(lines[1..]);
      assert HeaderText(lines)[|l| + 2..] == more;
    } else {
      assert more == "";
    }
  }

  /** The characters of a match. */
  lemma BlankChars(t: string, i: nat)
    requires i <= |t|
    ensures MatchesAt(t, i, "\r\n\r\n") ==>
              i + 4 <= |t| && t[i] == '\r' && t[i + 1] == '\n' && t[i + 2] == '\r' && t[i + 3] == '\n'
  {
    assert i + 4 <= |t| ==> t[i..i + 4] == [t[i], t[i + 1], t[i + 2], t[i + 3]];
  }

  lemma LineHasNoBlank(l: string, x: string, i: nat)
    requires HeaderLine(l) && i < |l| + 2 && |x| > 0 && x[0] != '\r' && x[0] != '\n'
    ensures !MatchesAt(l + "\r\n" + x, i, "\r\n\r\n")
  {
    hide MatchesAt;
    var t := l + "\r\n" + x;
    BlankChars(t, i);
    if i < |l| {
      assert t[i] == l[i] && l[i] in l;
    } else {
      assert t[|l| + 1] == '\n' && t[|l| + 2] == x[0];
    }
  }

  lemma LastLineHasNoBlank(l: string, x: string, i: nat)
    requires HeaderLine(l) && i < |l|
    ensures !MatchesAt(l + x, i, "\r\n\r\n")
  {
    hide MatchesAt;
    var t := l + x;
    BlankChars(t, i);
    assert t[i] == l[i] && l[i] in l;
  }

  lemma PassLine(l: string, x: string)
    requires HeaderLine(l) && |x| > 0 && x[0] != '\r' && x[0] != '\n'
    ensures FirstMatch(l + "\r\n" + x, "\r\n\r\n") == |l| + 2 + FirstMatch(x, "\r\n\r\n")
  {
    hide FirstMatch, HeaderLine, MatchesAt;
    var front := l + "\r\n";
    forall i | 0 <= i < |front| ensures !MatchesAt(front + x, i, "\r\n\r\n") { LineHasNoBlank(l, x, i); }
    SkipQuiet(front, x, "\r\n\r\n");
  }

  lemma PassLastLine(l: string, tail: string)
    requires HeaderLine(l)
    ensures FirstMatch(l + "\r\n" + "\r\n" + tail, "\r\n\r\n") == |l|
  {
    hide FirstMatch, HeaderLine;
    var x := "\r\n\r\n" + tail;
    assert l + "\r\n" + "\r\n" + tail == l + x;
    forall i | 0 <= i < |l| ensures !MatchesAt(l + x, i, "\r\n\r\n") { LastLineHasNoBlank(l, x, i); }
    assert (l + x)[|l|..|l| + 4] == "\r\n\r\n";
    FirstMatchIs(l + x, "\r\n\r\n", |l|);
  }

  /** The first empty line is the one behind the header lines. */
  lemma {:induction false} FirstBlank(lines: seq<string>, tail: string)
    requires lines != [] && forall l | l in lines :: HeaderLine(l)
    ensures FirstMatch(HeaderText(lines) + "\r\n" + tail, "\r\n\r\n") == |HeaderText(lines)| - 2
  {
    hide FirstMatch, HeaderLine, MatchesAt;
    var l, more := lines[0], HeaderText(lines[1..]);
    assert HeaderLine(l);
    if |lines| > 1 {
      var x := more + "\r\n" + tail;
      HeaderShape(lines[1..]);
      FirstBlank(lines[1..], tail);
      PassLine(l, x);
      assert l + "\r\n" + more + "\r\n" + tail == l + "\r\n" + x;
    } else {
      PassLastLine(l, tail);
      assert l + "\r\n" + "" == l + "\r\n";
    }
  }

  // ---------------------------------------------------------------- whole responses

  /** A piece of the body with its size, in digits of either case. */
  datatype Piece = Piece(size: string, data: string)

  predicate Sized(p: Piece) { 0 < |p.data| <= 0xffff_ffff_ffff_ffff && LowerAll(p.size) == HexOf(|p.data|) }

  function BodyText(pieces: seq<Piece>): string {
    if pieces == [] then "0\r\n\r\n"
    else pieces[0].size + "\r\n" + pieces[0].data + "\r\n" + BodyText(pieces[1..])
  }

  function Content(pieces: seq<Piece>): string {
    if pieces == [] then "" else pieces[0].data + Content(pieces[1..])
  }

  function AsChunks(pieces: seq<Piece>): (r: seq<Chunk>)
    ensures |r| == |pieces|
  {
    if pieces == [] then [] else [Chunk(pieces[0].size, "", pieces[0].data)] + AsChunks(pieces[1..])
  }

  lemma PieceIsChunk(p: Piece)
    requires Sized(p)
    ensures WellFormed(Chunk(p.size, "", p.data))
  {
    HexIsRead(|p.data|, p.size);
    SixteenDigits();
    HexLength(|p.data|, 16);
    assert |p.size| == |HexOf(|p.data|)|;
  }

  lemma PieceText(p: Piece)
    ensures EncodeChunk(Chunk(p.size, "", p.data)) == p.size + "\r\n" + p.data + "\r\n"
  {
    assert p.size + "" == p.size;
  }

  lemma LastChunkText()
    ensures EncodeEnd(End("0", "", "")) == "0\r\n\r\n"
  {
  }

  lemma OneMoreChunk(c: Chunk, chunks: seq<Chunk>, text: string)
    requires text == Encode(chunks, End("0", "", ""))
    ensures EncodeChunk(c) + text == Encode([c] + chunks, End("0", "", ""))
  {
    hide EncodeChunk, EncodeEnd;
    assert ([c] + chunks)[1..] == chunks;
    assert EncodeChunk(c) + (EncodeAll(chunks) + EncodeEnd(End("0", "", ""))) ==
           EncodeChunk(c) + EncodeAll(chunks) + EncodeEnd(End("0", "", ""));
  }

  lemma {:induction false} BodyIsChunks(pieces: seq<Piece>)
    requires forall p | p in pieces :: Sized(p)
    ensures BodyText(pieces) == Encode(AsChunks(pieces), End("0", "", ""))
    ensures Content(pieces) == DataOf(AsChunks(pieces))
    ensures forall c | c in AsChunks(pieces) :: WellFormed(c)
  {
    hide WellFormed, Sized, Encode, EncodeChunk;
    if pieces == [] {
      LastChunkText();
      NoChunks();
    } else {
      var p, chunks := pieces[0], AsChunks(pieces[1..]);
      var c := Chunk(p.size, "", p.data);
      BodyIsChunks(pieces[1..]);
      assert Sized(p);
      PieceIsChunk(p);
      PieceText(p);
      OneMoreChunk(c, chunks, BodyText(pieces[1..]));
      assert ([c] + chunks)[1..] == chunks;
    }
  }

  lemma NoChunks()
    ensures Encode([], End("0", "", "")) == EncodeEnd(End("0", "", ""))
  {
    assert EncodeAll([]) == "";
  }

  /**
  Any list of header lines, the empty line, any list of pieces with their sizes in hexadecimal, and
  the last chunk: the body is the content of the pieces, and nothing is left over.
  */
  lemma WholeResponse(lines: seq<string>, pieces: seq<Piece>)
    requires lines != [] && (forall l | l in lines :: HeaderLine(l)) && forall p | p in pieces :: Sized(p)
    ensures var all := HeaderText(lines) + "\r\n" + BodyText(pieces);
      && HeaderEnd(all) == Some(|HeaderText(lines)| + 2)
      && Decode(all[|HeaderText(lines)| + 2..]) == Some(Decoded(Content(pieces), ""))
  {
    hide HeaderLine, Sized, WellFormed, WellFormedEnd, FirstMatch, Decode, HeaderEnd;
    hide HeaderText, BodyText, Content, Encode, EncodeAll, DataOf;
    var text, body := HeaderText(lines), BodyText(pieces);
    HeaderShape(lines);
    FirstBlank(lines, "");
    BodyIsChunks(pieces);
    var header := text[..|text| - 2];
    BehindHeader(text, header, body);
    ZeroEnds();
    ResponseDecodes(header, AsChunks(pieces), End("0", "", ""), "");
  }

  lemma BehindHeader(text: string, header: string, body: string)
    requires |text| > 2 && text[|text| - 2..] == "\r\n" && header == text[..|text| - 2]
    ensures text + "\r\n" + "" == header + BLANK_LINE
    ensures header + BLANK_LINE + (body + "") == text + "\r\n" + body
  {
    assert text == header + "\r\n";
  }

  lemma ZeroEnds()
    ensures WellFormedEnd(End("0", "", ""))
  {
    assert Number("0") == 0;
  }
}
