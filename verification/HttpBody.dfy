/**
The readers of chunked bodies: a buffered source over a connection that delivers its bytes in
pieces of any size, and the two readers on top of it, into a file and into memory.
*/
module HttpBody {
  import opened Ascii
  import opened ChunkedCoding

  const BLOCK := 8192
  const FETCH_MAX := 512 * 1024
  const HEADER_READ := 2048
  const HEADER_MAX := 256 * 1024
  const FIRST_CAP := 4096
  const BLANK_LINE := "\r\n\r\n"

  /** `memcpy` */
  method CopyBytes(dst: array<char>, at: nat, bytes: string)
    requires at + |bytes| <= dst.Length
    modifies dst
    ensures dst[..at] == old(dst[..at]) && dst[at..at + |bytes|] == bytes
  {
    forall i | 0 <= i < |bytes| { dst[at + i] := bytes[i]; }
  }

  // ---------------------------------------------------------------- the source

  /** A connection: the bytes that will still arrive, and whether it breaks behind them or is closed. */
  class Connection {
    var incoming: string
    const broken: bool

    constructor (incoming: string, broken: bool)
      ensures this.incoming == incoming && this.broken == broken
    {
      this.incoming := incoming;
      this.broken := broken;
    }

    /** `conn_recv`: some of the bytes, at least one while there are any. */
    method Recv(buf: array<char>, from: nat, cap: nat) returns (rd: int)
      requires cap > 0 && from + cap <= buf.Length
      modifies this, buf
      ensures old(incoming) == "" ==> rd == (if broken then -1 else 0) && incoming == "" && buf[..] == old(buf[..])
      ensures old(incoming) != "" ==> 0 < rd <= cap && rd <= |old(incoming)| && incoming == old(incoming)[rd..]
      ensures old(incoming) != "" ==>
                buf[..from] == old(buf[..from]) && buf[from..from + rd] == old(incoming)[..rd]
    {
      if incoming == "" {
        rd := if broken then -1 else 0;
      } else {
        var n: nat := *;
        rd := if 0 < n <= cap && n <= |incoming| then n else 1;
        CopyBytes(buf, from, incoming[..rd]);
        incoming := incoming[rd..];
      }
    }
  }

  /** `io_src`: a prefix that was read together with the headers, then the connection. */
  class Source {
    const pfx: string
    var pos: nat
    const conn: Connection

    ghost predicate Valid()
      reads this
    {
      pos <= |pfx|
    }

    ghost function Remaining(): string
      requires Valid()
      reads this, conn
    {
      pfx[pos..] + conn.incoming
    }

    constructor (pfx: string, conn: Connection)
      ensures Valid() && Remaining() == pfx + conn.incoming && this.conn == conn
    {
      this.pfx := pfx;
      this.conn := conn;
      pos := 0;
    }

    /** One turn of the loop of `src_read`: from the prefix while it lasts, then from the connection. */
    method ReadSome(buf: array<char>, from: nat, cap: nat) returns (rd: int)
      requires Valid() && cap > 0 && from + cap <= buf.Length
      modifies this, conn, buf
      ensures Valid() && buf[..from] == old(buf[..from])
      ensures old(Remaining()) == "" ==> rd == (if conn.broken then -1 else 0) && Remaining() == ""
      ensures old(Remaining()) != "" ==> 0 < rd <= cap && rd <= |old(Remaining())|
      ensures old(Remaining()) != "" ==>
                buf[from..from + rd] == old(Remaining())[..rd] && Remaining() == old(Remaining())[rd..]
    {
      if pos < |pfx| {
        rd := |pfx| - pos;
        if rd > cap { rd := cap; }
        CopyBytes(buf, from, pfx[pos..pos + rd]);
        CutOfConcat(pfx[pos..], conn.incoming, rd);
        assert pfx[pos..][..rd] == pfx[pos..pos + rd] && pfx[pos..][rd..] == pfx[pos + rd..];
        pos := pos + rd;
      } else {
        assert pfx[pos..] == "" && Remaining() == conn.incoming;
        rd := conn.Recv(buf, from, cap);
        assert Remaining() == conn.incoming;
      }
    }

    /** `src_read`: fills `cap` bytes unless the stream ends before. */
    method Read(buf: array<char>, cap: nat) returns (got: int)
      requires Valid() && cap <= buf.Length
      modifies this, conn, buf
      ensures Valid() && got <= cap
      ensures cap <= |old(Remaining())| ==> got == cap
      ensures cap > |old(Remaining())| ==> got == if conn.broken then -1 else |old(Remaining())|
      ensures got >= 0 ==> buf[..got] == old(Remaining())[..got] && Remaining() == old(Remaining())[got..]
    {
      ghost var all := Remaining();
      got := 0;
      while got < cap
        invariant Valid() && 0 <= got <= cap && got <= |all|
        invariant buf[..got] == all[..got] && Remaining() == all[got..]
        decreases cap - got
      {
        var rd := ReadSome(buf, got, cap - got);
        if rd < 0 { return -1; }
        if rd == 0 { return; }
        Filled(buf, got, rd, all);
        got := got + rd;
      }
    }
  }

  lemma Adjacent(a: array<char>, i: nat, j: nat)
    requires i <= j <= a.Length
    ensures a[..j] == a[..i] + a[i..j]
  {
  }

  /** The filled part of a buffer grows by the next `n` bytes of the stream. */
  lemma Filled(buf: array<char>, got: nat, n: nat, all: string)
    requires got + n <= |all| && got + n <= buf.Length
    requires buf[..got] == all[..got] && buf[got..got + n] == all[got..][..n]
    ensures buf[..got + n] == all[..got + n] && all[got..][n..] == all[got + n..]
  {
    Adjacent(buf, got, got + n);
    assert all[..got + n] == all[..got] + all[got..][..n];
  }

  // ---------------------------------------------------------------- lines

  /** No line end among the first `pos` characters. */
  predicate NoLineEnd(all: string, pos: nat)
    requires pos <= |all|
  {
    forall i | 0 <= i < pos - 1 :: !(all[i] == '\r' && all[i + 1] == '\n')
  }

  lemma LineFound(all: string, pos: nat)
    requires 2 <= pos <= |all| && pos < LINE_CAP && NoLineEnd(all, pos - 1)
    requires all[pos - 2] == '\r' && all[pos - 1] == '\n'
    ensures Line(all) == Some(pos)
  {
    hide FirstMatch;
    forall i | 0 <= i < pos - 2 ensures !MatchesAt(all, i, CRLF) {
      assert all[i..i + 2] == [all[i], all[i + 1]];
    }
    assert all[pos - 2..pos] == CRLF;
    FirstMatchIs(all, CRLF, pos - 2);
  }

  lemma NoLine(all: string, pos: nat)
    requires pos <= |all| && NoLineEnd(all, pos) && (pos == |all| || pos == LINE_CAP - 1)
    ensures Line(all).None?
  {
    hide FirstMatch;
    var n := FirstMatch(all, CRLF);
    assert n < |all| ==> all[n] == all[n..n + 2][0] && all[n + 1] == all[n..n + 2][1];
  }

  /** `read_line_src`; the line's text is returned. */
  method ReadLine(src: Source) returns (line: Option<string>)
    requires src.Valid()
    modifies src, src.conn
    ensures src.Valid()
    ensures line.Some? <==> Line(old(src.Remaining())).Some?
    ensures line.Some? ==>
              var n := Line(old(src.Remaining())).value;
              line.value == old(src.Remaining())[..n] && src.Remaining() == old(src.Remaining())[n..]
  {
    hide Line;
    ghost var all := src.Remaining();
    var text := new char[LINE_CAP];
    var c := new char[1];
    var pos := 0;
    while pos + 1 < LINE_CAP
      invariant src.Valid() && pos < LINE_CAP && pos <= |all|
      invariant text[..pos] == all[..pos] && src.Remaining() == all[pos..] && NoLineEnd(all, pos)
    {
      var rd := src.Read(c, 1);
      if rd != 1 {
        NoLine(all, pos);
        return None;
      }
      assert c[0] == c[..1][0] == all[pos..][..1][0] == all[pos];
      text[pos] := c[0];
      pos := pos + 1;
      assert all[..pos] == all[..pos - 1] + [all[pos - 1]] && text[..pos] == text[..pos - 1] + [c[0]];
      assert all[pos - 1..][1..] == all[pos..];
      if pos >= 2 && text[pos - 1] == '\n' && text[pos - 2] == '\r' {
        assert text[pos - 2] == text[..pos][pos - 2] == all[pos - 2];
        LineFound(all, pos);
        return Some(text[..pos]);
      }
      assert pos >= 2 ==> text[pos - 2] == text[..pos][pos - 2] == all[pos - 2];
    }
    NoLine(all, pos);
    line := None;
  }

  // ---------------------------------------------------------------- into a file

  /** A file open for writing; on a reliable one no write fails. */
  class File {
    const reliable: bool
    var text: string

    constructor (reliable: bool)
      ensures text == "" && this.reliable == reliable
    {
      this.reliable := reliable;
      text := "";
    }

    /** `fwrite`: all of it, or a part and an error. */
    method Write(buf: array<char>, n: nat) returns (ok: bool)
      requires n <= buf.Length
      modifies this
      ensures ok ==> text == old(text) + buf[..n]
      ensures !ok ==> old(text) <= text <= old(text) + buf[..n]
      ensures reliable ==> ok
    {
      var written: int := *;
      ok := reliable || !(0 <= written < n);
      if ok { written := n; }
      assert buf[..written] == buf[..n][..written];
      text := text + buf[..written];
    }
  }

  function Head(s: string, n: nat): string { if n <= |s| then s[..n] else s }

  /** `text` is `before` and a part of `more`. */
  predicate Between(before: string, text: string, more: string) { before <= text <= before + more }

  lemma HeadGrows(before: string, all: string, i: nat, size: nat)
    requires i <= size && i <= |all|
    ensures before + all[..i] <= before + Head(all, size)
    ensures Between(before, before + all[..i], Head(all, size))
  {
    assert Head(all, size)[..i] == all[..i];
    assert before + Head(all, size) == before + all[..i] + Head(all, size)[i..];
  }

  lemma PrefixesBetween(before: string, a: string, text: string, b: string, more: string)
    requires before <= a <= text <= b <= before + more
    ensures Between(before, text, more)
  {
  }

  /** The loop over the data of one chunk. */
  method CopyChunk(src: Source, out: File, buf: array<char>, size: nat) returns (ok: bool)
    requires src.Valid() && buf.Length == BLOCK
    modifies src, src.conn, out, buf
    ensures src.Valid()
    ensures ok ==> size <= |old(src.Remaining())|
    ensures ok ==> out.text == old(out.text) + old(src.Remaining())[..size]
    ensures ok ==> src.Remaining() == old(src.Remaining())[size..]
    ensures !ok ==> Between(old(out.text), out.text, Head(old(src.Remaining()), size))
    ensures out.reliable && size <= |old(src.Remaining())| ==> ok
  {
    ghost var all, before := src.Remaining(), out.text;
    var i := 0;
    assert before + all[..0] == before;
    while i < size
      invariant src.Valid() && i <= size && i <= |all|
      invariant out.text == before + all[..i] && src.Remaining() == all[i..]
    {
      var want := size - i;
      if want > BLOCK { want := BLOCK; }
      var rd := src.Read(buf, want);
      if rd <= 0 {
        HeadGrows(before, all, i, size);
        return false;
      }
      NextPart(before, all, i, rd);
      HeadGrows(before, all, i + rd, size);
      ok := out.Write(buf, rd);
      if !ok {
        PrefixesBetween(before, before + all[..i], out.text, before + all[..i + rd], Head(all, size));
        return;
      }
      i := i + rd;
    }
    ok := true;
  }

  lemma NextPart(before: string, all: string, i: nat, n: nat)
    requires i + n <= |all|
    ensures before + all[..i] + all[i..][..n] == before + all[..i + n]
    ensures all[i..][n..] == all[i + n..]
  {
    assert all[..i + n] == all[..i] + all[i..][..n];
  }

  /** One more chunk in front of what is still to be decoded. */
  lemma NextChunk(all: string, written: string, rest: string)
    requires Decode(all) == Before(written, Decode(rest))
    ensures var line := Line(rest);
      if line.None? then Decode(all).None?
      else
        var size, after := ChunkSize(rest[..line.value]), rest[line.value..];
        && (size == 0 ==>
              var last := Line(after);
              Decode(all) == if last.None? then None else Some(Decoded(written, after[last.value..])))
        && (size > |after| ==> Decode(all).None?)
        && (0 < size <= |after| ==>
              var end := Line(after[size..]);
              if end.None? then Decode(all).None?
              else Decode(all) == Before(written + after[..size], Decode(after[size..][end.value..])))
  {
    hide Decode, Line, ChunkSize;
    DecodeStep(rest);
    var line := Line(rest);
    if line.Some? {
      var size, after := ChunkSize(rest[..line.value]), rest[line.value..];
      if size == 0 {
        var last := Line(after);
        if last.Some? { BeforeNothing(written, after[last.value..]); }
      } else if size <= |after| {
        var end := Line(after[size..]);
        if end.Some? { BeforeBefore(written, after[..size], Decode(after[size..][end.value..])); }
      }
    }
  }

  lemma PartDelivered(before: string, written: string, more: string)
    ensures Between(before, before + written, written + more)
  {
    assert before + (written + more) == before + written + more;
  }

  lemma PartOfChunk(before: string, written: string, text: string, chunk: string, more: string)
    requires Between(before + written, text, chunk) && chunk <= more
    ensures Between(before, text, written + more)
  {
    assert before + written + chunk + more[|chunk|..] == before + (written + more);
  }

  /** One more chunk of what is delivered. */
  lemma NextDelivered(all: string, written: string, rest: string)
    requires Delivered(all) == written + Delivered(rest) && Line(rest).Some?
    ensures var n := Line(rest).value;
      var size, after := ChunkSize(rest[..n]), rest[n..];
      && (size > 0 ==> Head(after, size) <= Delivered(rest))
      && (0 < size <= |after| ==>
            var end := Line(after[size..]);
            Delivered(all) == written + after[..size] + if end.None? then "" else Delivered(after[size..][end.value..]))
  {
    hide Delivered, Line, ChunkSize;
    DeliveredStep(rest);
  }

  /** The loop of the reader stands in front of a chunk, having written what was delivered so far. */
  ghost predicate Reading(src: Source, out: File, all: string, before: string, written: string)
    reads src, src.conn, out
  {
    && src.Valid() && out.text == before + written
    && Decode(all) == Before(written, Decode(src.Remaining())) && Delivered(all) == written + Delivered(src.Remaining())
  }

  /** What the reader promises at its end. */
  ghost predicate HasRead(src: Source, out: File, all: string, before: string, ok: bool)
    reads src, src.conn, out
  {
    && src.Valid()
    && (ok ==>
          && Decode(all).Some?
          && out.text == before + Decode(all).value.body && src.Remaining() == Decode(all).value.rest)
    && (!ok ==> Between(before, out.text, Delivered(all)))
    && (out.reliable && Decode(all).Some? ==> ok)
  }

  /** The last line, or the data of a chunk and the end of its line. */
  method ReadChunkRest(src: Source, out: File, buf: array<char>, size: nat,
                       ghost all: string, ghost before: string, ghost written: string, ghost rest: string)
    returns (more: bool, ok: bool, ghost written': string)
    requires Line(rest).Some? && size == ChunkSize(rest[..Line(rest).value]) && buf.Length == BLOCK
    requires src.Valid() && src.Remaining() == rest[Line(rest).value..] && out.text == before + written
    requires Decode(all) == Before(written, Decode(rest)) && Delivered(all) == written + Delivered(rest)
    modifies src, src.conn, out, buf
    ensures more ==> Reading(src, out, all, before, written') && |src.Remaining()| < |rest|
    ensures !more ==> HasRead(src, out, all, before, ok)
  {
    hide Decode, Delivered, Line, ChunkSize, Between;
    ghost var after := src.Remaining();
    NextChunk(all, written, rest);
    PartDelivered(before, written, Delivered(rest));
    if size == 0 {
      var line := ReadLine(src);
      return false, line.Some?, written;
    }
    NextDelivered(all, written, rest);
    ok := CopyChunk(src, out, buf, size);
    if !ok {
      PartOfChunk(before, written, out.text, Head(after, size), Delivered(rest));
      return false, false, written;
    }
    written' := written + after[..size];
    assert before + written' == before + written + after[..size];
    PartDelivered(before, written', Delivered(all)[|written'|..]);
    assert written' + Delivered(all)[|written'|..] == Delivered(all);
    var line := ReadLine(src);
    more := line.Some?;
    ok := false;
  }

  /** `read_body_chunked_src` */
  method ReadBodyChunked(src: Source, out: File) returns (ok: bool)
    requires src.Valid()
    modifies src, src.conn, out
    ensures src.Valid()
    ensures ok ==> Decode(old(src.Remaining())).Some?
    ensures ok ==> var d := Decode(old(src.Remaining())).value;
                   out.text == old(out.text) + d.body && src.Remaining() == d.rest
    ensures !ok ==> Between(old(out.text), out.text, Delivered(old(src.Remaining())))
    ensures out.reliable && Decode(old(src.Remaining())).Some? ==> ok
  {
    hide Decode, Delivered, Line, ChunkSize, Between;
    ghost var all, before, written := src.Remaining(), out.text, "";
    var buf := new char[BLOCK];
    BeforeNone(Decode(all));
    assert before + "" == before && "" + Delivered(all) == Delivered(all);
    while true
      invariant Reading(src, out, all, before, written)
      decreases |src.Remaining()|
    {
      ghost var rest := src.Remaining();
      PartDelivered(before, written, Delivered(rest));
      NextChunk(all, written, rest);
      var line := ReadLine(src);
      if line.None? { return false; }
      var more;
      more, ok, written := ReadChunkRest(src, out, buf, ChunkSize(line.value), all, before, written, rest);
      if !more { return; }
    }
  }

  // ---------------------------------------------------------------- into memory

  /** The buffer of `append_grow`: doubled when full, always ended by a NUL. */
  class Memory {
    var data: array<char>
    var len: nat

    ghost predicate Valid()
      reads this, data
    {
      (len == 0 && data.Length == 0) || (len < data.Length && data[len] == '\0')
    }

    ghost function Text(): string
      requires Valid()
      reads this, data
    {
      data[..len]
    }

    constructor ()
      ensures Valid() && Text() == "" && fresh(data)
    {
      data := new char[0];
      len := 0;
    }

    /** The doubling of `append_grow`. */
    method Grow(need: nat)
      requires Valid() && need > data.Length
      modifies this
      ensures Valid() && Text() == old(Text()) && len == old(len) && fresh(data)
      ensures need <= data.Length && (data.Length <= FIRST_CAP || data.Length < 2 * need)
    {
      var ncap := if data.Length == 0 then FIRST_CAP else data.Length * 2;
      while ncap < need
        invariant 0 < ncap && (ncap <= FIRST_CAP || ncap < 2 * need)
      {
        ncap := ncap * 2;
      }
      var grown := new char[ncap](_ => '\0');
      forall i | 0 <= i < len { grown[i] := data[i]; }
      assert grown[..len] == data[..len];
      data := grown;
    }

    /** `append_grow` */
    method Append(chunk: array<char>, n: nat)
      requires Valid() && chunk != data && n <= chunk.Length
      modifies this, data
      ensures Valid() && Text() == old(Text()) + chunk[..n] && (data == old(data) || fresh(data))
    {
      if len + n + 1 > data.Length {
        Grow(len + n + 1);
      }
      ghost var before, added := data[..len], chunk[..n];
      CopyBytes(data, len, chunk[..n]);
      Adjacent(data, len, len + n);
      assert data[..len + n] == before + added;
      len := len + n;
      data[len] := '\0';
    }

    /** `mem_append` */
    method AppendBounded(chunk: array<char>, n: nat) returns (ok: bool)
      requires Valid() && chunk != data && n <= chunk.Length
      modifies this, data
      ensures Valid() && Text() == old(Text()) + chunk[..n] && (data == old(data) || fresh(data))
      ensures ok == (|Text()| <= FETCH_MAX)
    {
      Append(chunk, n);
      ok := len <= FETCH_MAX;
    }
  }

  /** The first `i` of all remaining bytes have moved from the source to the buffer. */
  ghost predicate Moved(src: Source, mem: Memory, all: string, before: string, i: nat)
    reads src, src.conn, mem, mem.data
  {
    && src.Valid() && mem.Valid() && i <= |all| && |before| + i <= FETCH_MAX
    && mem.Text() == before + all[..i] && src.Remaining() == all[i..]
  }

  /** One turn of that loop: reads and appends a block. */
  method CopyBlockMem(src: Source, mem: Memory, buf: array<char>, size: nat, i: nat,
                      ghost all: string, ghost before: string)
    returns (rd: int, ok: bool)
    requires Moved(src, mem, all, before, i) && i < size && buf.Length == BLOCK && buf != mem.data
    modifies src, src.conn, mem, mem.data, buf
    ensures src.Valid() && mem.Valid() && (mem.data == old(mem.data) || fresh(mem.data))
    ensures ok ==> 0 < rd && i + rd <= size && Moved(src, mem, all, before, i + rd)
    ensures !ok ==> size > |all| || |before| + size > FETCH_MAX
  {
    var want := size - i;
    if want > BLOCK { want := BLOCK; }
    rd := src.Read(buf, want);
    if rd <= 0 { return rd, false; }
    NextPart(before, all, i, rd);
    ok := mem.AppendBounded(buf, rd);
  }

  /** The loop over the data of one chunk, with the limit of an in-memory fetch. */
  method CopyChunkMem(src: Source, mem: Memory, buf: array<char>, size: nat) returns (ok: bool)
    requires src.Valid() && mem.Valid() && buf.Length == BLOCK && buf != mem.data && |mem.Text()| <= FETCH_MAX
    modifies src, src.conn, mem, mem.data, buf
    ensures src.Valid() && mem.Valid() && (mem.data == old(mem.data) || fresh(mem.data))
    ensures ok == (size <= |old(src.Remaining())| && |old(mem.Text())| + size <= FETCH_MAX)
    ensures ok ==> mem.Text() == old(mem.Text()) + old(src.Remaining())[..size]
    ensures ok ==> src.Remaining() == old(src.Remaining())[size..]
  {
    ghost var all, before := src.Remaining(), mem.Text();
    var i := 0;
    assert before + all[..0] == before;
    while i < size
      invariant i <= size && Moved(src, mem, all, before, i) && buf != mem.data
      invariant mem.data == old(mem.data) || fresh(mem.data)
    {
      var rd;
      rd, ok := CopyBlockMem(src, mem, buf, size, i, all, before);
      if !ok { return; }
      i := i + rd;
    }
    ok := true;
  }

  /** What is decoded is at least as long as what has been written. */
  lemma WrittenIsPart(all: string, written: string, rest: string)
    requires Decode(all) == Before(written, Decode(rest))
    ensures Decode(all).Some? ==> written <= Decode(all).value.body
  {
  }

  /** `read_body_chunked_src_mem` */
  method ReadBodyChunkedMem(src: Source, mem: Memory) returns (ok: bool)
    requires src.Valid() && mem.Valid() && mem.Text() == ""
    modifies src, src.conn, mem, mem.data
    ensures src.Valid() && mem.Valid() && (mem.data == old(mem.data) || fresh(mem.data))
    ensures var d := Decode(old(src.Remaining()));
      ok == (d.Some? && |d.value.body| <= 524288) &&
      (ok ==> mem.Text() == d.value.body && src.Remaining() == d.value.rest)
  {
    hide Decode, Line, ChunkSize;
    ghost var all := src.Remaining();
    var buf := new char[BLOCK];
    BeforeNone(Decode(all));
    while true
      invariant src.Valid() && mem.Valid() && (mem.data == old(mem.data) || fresh(mem.data)) && buf != mem.data
      invariant Decode(all) == Before(mem.Text(), Decode(src.Remaining())) && |mem.Text()| <= FETCH_MAX
      decreases |src.Remaining()|
    {
      ghost var written, rest := mem.Text(), src.Remaining();
      NextChunk(all, written, rest);
      var line := ReadLine(src);
      if line.None? { return false; }
      var size := ChunkSize(line.value);
      if size == 0 {
        line := ReadLine(src);
        return line.Some?;
      }
      ghost var after := src.Remaining();
      if size <= |after| && Line(after[size..]).Some? {
        WrittenIsPart(all, written + after[..size], after[size..][Line(after[size..]).value..]);
      }
      ok := CopyChunkMem(src, mem, buf, size);
      if !ok { return; }
      line := ReadLine(src);
      if line.None? { return false; }
    }
  }

  // ---------------------------------------------------------------- behind the headers

  /** Where the body begins: behind the first empty line, as `strstr` finds it in a C string. */
  function HeaderEnd(s: string): (r: Option<nat>)
    ensures r.Some? ==> r.value <= |s|
  {
    var t := CString(s);
    var n := FirstMatch(t, BLANK_LINE);
    if n < |t| then Some(n + 4) else None
  }

  lemma HeaderEndExtends(s: string, t: string)
    requires HeaderEnd(s).Some?
    ensures HeaderEnd(s + t) == HeaderEnd(s)
  {
    hide FirstMatch, Upto;
    var n := Upto('\0', s);
    if n < |s| {
      assert (s + t)[..n] == s[..n];
      UptoIs('\0', s + t, n);
    } else {
      var m := Upto('\0', s + t);
      assert m >= n by {
        assert forall i | 0 <= i < n :: (s + t)[i] == s[..n][i];
      }
      assert (s + t)[..m] == s + t[..m - n] && s[..n] == s;
      FirstMatchExtends(s, t[..m - n], BLANK_LINE);
    }
  }

  /** An empty line that lies within a prefix is found in it. */
  lemma HeaderEndWithin(s: string, t: string)
    requires HeaderEnd(s + t).Some? && HeaderEnd(s + t).value <= |s|
    ensures HeaderEnd(s).Some?
  {
    hide FirstMatch, Upto;
    var all := s + t;
    var m, n, e := Upto('\0', all), Upto('\0', s), HeaderEnd(all).value;
    assert e <= m && all[..m][e - 4..e] == BLANK_LINE;
    assert n >= e by {
      assert forall i | 0 <= i < e :: s[i] == all[..m][i];
    }
    assert s[..e] == s[..n][..e] == all[..m][..e];
    assert s[..n][e - 4..e] == s[..e][e - 4..e];
    assert all[..m][e - 4..e] == all[..m][..e][e - 4..e];
    assert MatchesAt(s[..n], e - 4, BLANK_LINE);
  }

  /** A whole response: headers without NUL, the first empty line, chunks and their end. */
  lemma ResponseDecodes(header: string, chunks: seq<Chunk>, e: End, tail: string)
    requires '\0' !in header && FirstMatch(header + BLANK_LINE, BLANK_LINE) == |header|
    requires (forall c | c in chunks :: WellFormed(c)) && WellFormedEnd(e)
    ensures var all := header + BLANK_LINE + (Encode(chunks, e) + tail);
      && HeaderEnd(all) == Some(|header| + 4)
      && Decode(all[|header| + 4..]) == Some(Decoded(DataOf(chunks), tail))
  {
    hide FirstMatch, Decode, WellFormed, WellFormedEnd;
    var head, message := header + BLANK_LINE, Encode(chunks, e) + tail;
    UptoIs('\0', head, |head|);
    assert head[..|head|] == head;
    HeaderEndExtends(head, message);
    assert (head + message)[|header| + 4..] == message;
    DecodeAfterEncode(chunks, e, tail);
  }

  /** One turn of the loop of `read_http_headers`. */
  method ReceiveHeaders(conn: Connection, headers: Memory, tmp: array<char>) returns (rd: int)
    requires headers.Valid() && tmp.Length == HEADER_READ && tmp != headers.data
    modifies conn, headers, headers.data, tmp
    ensures headers.Valid() && (headers.data == old(headers.data) || fresh(headers.data))
    ensures headers.Text() + conn.incoming == old(headers.Text() + conn.incoming)
    ensures rd <= 0 ==> conn.incoming == "" && old(conn.incoming) == ""
    ensures rd > 0 ==> old(|headers.Text()|) < |headers.Text()| <= old(|headers.Text()|) + HEADER_READ
  {
    ghost var text, coming := headers.Text(), conn.incoming;
    rd := conn.Recv(tmp, 0, HEADER_READ);
    if rd > 0 {
      assert tmp[..rd] == tmp[0..0 + rd] == coming[..rd];
      headers.Append(tmp, rd);
      assert text + coming == text + coming[..rd] + coming[rd..];
    }
  }

  /** `read_http_headers`: reads until the empty line has arrived, with whatever came along behind it. */
  method ReadHeaders(conn: Connection) returns (ok: bool, headers: Memory)
    modifies conn
    ensures fresh(headers) && fresh(headers.data) && headers.Valid()
    ensures ok ==> headers.Text() + conn.incoming == old(conn.incoming)
    ensures ok ==> HeaderEnd(headers.Text()).Some? && |headers.Text()| <= HEADER_MAX
    ensures !ok ==> HeaderEnd(old(conn.incoming)).None? ||
                    HeaderEnd(old(conn.incoming)).value + HEADER_READ - 1 > HEADER_MAX
  {
    hide HeaderEnd;
    ghost var all := conn.incoming;
    headers := new Memory();
    var tmp := new char[HEADER_READ];
    assert HeaderEnd("").None? by { NothingEnds(); }
    ok := false;
    while !ok
      invariant fresh(headers) && fresh(headers.data) && headers.Valid() && fresh(tmp) && tmp != headers.data
      invariant headers.Text() + conn.incoming == all && |headers.Text()| <= HEADER_MAX
      invariant ok == HeaderEnd(headers.Text()).Some?
      decreases |all| - |headers.Text()|, !ok
    {
      ghost var text, coming := headers.Text(), conn.incoming;
      assert coming == "" ==> text + coming == text;
      var rd := ReceiveHeaders(conn, headers, tmp);
      if rd <= 0 { return; }
      if HeaderEnd(all).Some? && HeaderEnd(all).value <= |text| {
        HeaderEndWithin(text, coming);
      }
      if headers.len > HEADER_MAX { return; }
      ok := EndsHeaders(headers);
    }
  }

  lemma NothingEnds()
    ensures HeaderEnd("").None?
  {
  }

  /** The test `strstr(buf, "\r\n\r\n") != NULL`. */
  method EndsHeaders(m: Memory) returns (ok: bool)
    requires m.Valid()
    ensures ok == HeaderEnd(m.Text()).Some?
  {
    var t := TextOf(m);
    var n := Search(t, BLANK_LINE);
    ok := n < |t|;
  }

  /** The bytes up to the first NUL. */
  method TextOf(m: Memory) returns (t: string)
    requires m.Valid()
    ensures t == CString(m.Text())
  {
    var n := 0;
    ghost var all := m.Text();
    assert all[0..] == all;
    while n < m.len && m.data[n] != '\0'
      invariant n <= m.len && Upto('\0', all) == n + Upto('\0', all[n..])
    {
      assert all[n..][0] == m.data[n] && all[n..][1..] == all[n + 1..];
      n := n + 1;
    }
    t := m.data[..n];
    assert n < m.len ==> all[n..][0] == m.data[n];
    assert t == all[..n];
  }

  /**
  `update_http_fetch` from the response on, for one with status 200 and the chunked coding.
  However the connection cuts the stream, the result is the decoding of what follows its empty
  line; only a header block within 2047 bytes of the limit may be accepted or not.
  */
  method FetchChunked(conn: Connection) returns (ok: bool, body: Memory)
    modifies conn
    ensures fresh(body) && fresh(body.data) && body.Valid()
    ensures var e := HeaderEnd(old(conn.incoming));
      if e.None? then !ok
      else
        var d := Decode(old(conn.incoming)[e.value..]);
        && (ok ==> d.Some? && body.Text() == d.value.body && |d.value.body| <= 524288)
        && (d.Some? && |d.value.body| <= 524288 && e.value + 2047 <= 262144 ==> ok)
  {
    hide HeaderEnd, Decode;
    ghost var all := conn.incoming;
    body := new Memory();
    var headers;
    ok, headers := ReadHeaders(conn);
    if ok { HeaderEndExtends(headers.Text(), conn.incoming); }
    if !ok { return; }
    var sep := BodyStart(headers);
    ghost var text := headers.Text();
    var src := new Source(headers.data[sep..headers.len], conn);
    assert headers.data[sep..headers.len] == text[sep..];
    assert src.Remaining() == all[sep..];
    ok := ReadBodyChunkedMem(src, body);
  }

  /** `body_sep` */
  method BodyStart(m: Memory) returns (e: nat)
    requires m.Valid() && HeaderEnd(m.Text()).Some?
    ensures e == HeaderEnd(m.Text()).value
  {
    var t := TextOf(m);
    var n := Search(t, BLANK_LINE);
    e := n + 4;
  }
}
