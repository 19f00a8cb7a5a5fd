/**
The growing output buffer of the sanitizer, as a bounded string, and plain-text escaping on it.
*/
module HtmlBuf {
  import opened Ascii
  import opened HtmlTree
  import opened HtmlSpec
  import opened HtmlGrammar

  const INITIAL_CAP := 4096

  /** `d` always has room for the terminating NUL and never outgrows `maxTotal`. */
  class Buf {
    var d: array<char>
    var len: nat
    const maxTotal: nat

    ghost predicate Valid()
      reads this, d
    {
      len < d.Length <= maxTotal && d[len] == '\0'
    }

    ghost function Text(): string
      requires Valid()
      reads this, d
    {
      d[..len]
    }

    constructor (maxTotal: nat)
      requires maxTotal > 0
      ensures Valid() && Text() == "" && this.maxTotal == maxTotal && fresh(d)
    {
      this.maxTotal := maxTotal;
      var first := if INITIAL_CAP < maxTotal then INITIAL_CAP else maxTotal;
      d := new char[first](_ => '\0');
      len := 0;
    }

    /** `buf_ensure`: room for `add` more characters, by doubling up to the limit. */
    method Ensure(add: nat) returns (ok: bool)
      requires Valid()
      modifies this
      ensures Valid() && Text() == old(Text()) && (d == old(d) || fresh(d))
      ensures ok == (len + add + 1 <= maxTotal)
      ensures ok ==> len + add + 1 <= d.Length
    {
      if add > maxTotal - len - 1 { return false; }
      var need := len + add + 1;
      if need <= d.Length { return true; }
      var ncap := d.Length;
      while ncap < need && ncap < maxTotal
        invariant d.Length <= ncap
      {
        ncap := ncap * 2;
      }
      if ncap > maxTotal { ncap := maxTotal; }
      if ncap < need { return false; }
      var nd := new char[ncap](_ => '\0');
      forall i | 0 <= i <= len { nd[i] := d[i]; }
      assert nd[..len] == d[..len];
      d := nd;
      return true;
    }

    /** `buf_append`: all of `s` or nothing. */
    method Append(s: string) returns (ok: bool)
      requires Valid()
      modifies this, d
      ensures Valid() && (d == old(d) || fresh(d))
      ensures ok == (|old(Text())| + |s| + 1 <= maxTotal)
      ensures Text() == if ok then old(Text()) + s else old(Text())
    {
      ok := Ensure(|s|);
      if ok {
        ghost var before := d[..len];
        forall i | 0 <= i < |s| { d[len + i] := s[i]; }
        len := len + |s|;
        d[len] := '\0';
        assert d[..len] == before + s;
      }
    }
  }

  lemma {:induction false} EscapeAllGrows(s: string, i: nat)
    requires i <= |s|
    ensures EscapeAll(s[..i]) <= EscapeAll(s)
  {
    assert s == s[..i] + s[i..];
    EscapeAllConcat(s[..i], s[i..]);
  }

  lemma EscapeAllNext(s: string, i: nat)
    requires i < |s|
    ensures EscapeAll(s[..i + 1]) == EscapeAll(s[..i]) + Escape(s[i])
  {
    assert s[..i + 1][..i] == s[..i];
  }

  method EmitEscapedChar(b: Buf, c: char) returns (ok: bool)
    requires b.Valid()
    modifies b, b.d
    ensures b.Valid() && (b.d == old(b.d) || fresh(b.d))
    ensures ok == (|old(b.Text())| + |Escape(c)| + 1 <= b.maxTotal)
    ensures b.Text() == if ok then old(b.Text()) + Escape(c) else old(b.Text())
  {
    if c == '&' {
      ok := b.Append("&amp;");
    } else if c == '<' {
      ok := b.Append("&lt;");
    } else if c == '>' {
      ok := b.Append("&gt;");
    } else if c == '"' {
      ok := b.Append("&quot;");
    } else {
      ok := b.Append([c]);
    }
  }

  /** `emit_html_escaped`: succeeds exactly when the whole escaped text fits. */
  method EmitEscaped(b: Buf, s: string) returns (ok: bool)
    requires b.Valid()
    modifies b, b.d
    ensures b.Valid() && (b.d == old(b.d) || fresh(b.d))
    ensures ok == (|old(b.Text())| + |EscapeAll(s)| + 1 <= b.maxTotal)
    ensures ok ==> b.Text() == old(b.Text()) + EscapeAll(s)
  {
    hide EscapeAll, Escape;
    assert EscapeAll(s[..0]) == "" by { EscapeAllOfNone(s[..0]); }
    for i := 0 to |s|
      invariant b.Valid() && (b.d == old(b.d) || fresh(b.d))
      invariant b.Text() == old(b.Text()) + EscapeAll(s[..i])
      invariant |b.Text()| + 1 <= b.maxTotal
    {
      EscapeAllNext(s, i);
      EscapeAllGrows(s, i + 1);
      ok := EmitEscapedChar(b, s[i]);
      if !ok { return; }
    }
    assert s[..|s|] == s;
    ok := true;
  }

  lemma EscapeAllOfNone(s: string)
    requires s == ""
    ensures EscapeAll(s) == ""
  {
  }

  /** `update_html_escape_plain_alloc` */
  method EscapePlain(input: string, max: nat) returns (r: Option<string>)
    ensures r.Some? <==> max > 0 && |input| <= MAX_IN && Fits(EscapeAll(input), max)
    ensures r.Some? ==> r.value == EscapeAll(input) && Decode(r.value) == input
  {
    if max == 0 || |input| > MAX_IN { return None; }
    var b := new Buf(max);
    var ok := EmitEscaped(b, input);
    if !ok { return None; }
    DecodeEscapeAll(input);
    r := Some(b.d[..b.len]);
  }

  /** Text without `<` is treated alike by both entry points. */
  lemma {:induction false} PlainIsSanitized(input: string, max: nat)
    requires '<' !in input
    ensures SanitizeOutcome(input, max) ==
            if max > 0 && |input| <= MAX_IN && Fits(EscapeAll(input), max)
            then Accepted(EscapeAll(input)) else Rejected
  {
    hide NextToken, EscapeAll, Apply;
    var o := Top(Nil);
    PassesText(input, |input|, o);
    assert input[|input|..] == "" && input[..|input|] == input;
    assert Print(Nil) + EscapeAll(input) == EscapeAll(input);
  }

  function AppendChars(o: Open, s: string): (r: Open)
    ensures PrintOpen(r) == PrintOpen(o) + EscapeAll(s)
    ensures Stack(r) == Stack(o) && Depth(r) == Depth(o) && (o.Top? ==> r.Top?)
  {
    if s == [] then o
    else
      var i := |s| - 1;
      var x, y, z := PrintOpen(o), EscapeAll(s[..i]), Escape(s[i]);
      assert x + (y + z) == x + y + z;
      Append(AppendChars(o, s[..i]), Text(s[i]))
  }

  /** A run of text is taken character by character. */
  lemma {:induction false} PassesText(t: string, k: nat, o: Open)
    requires k <= |t| && '<' !in t[..k]
    ensures Sanitize(t, o) == Sanitize(t[k..], AppendChars(o, t[..k]))
  {
    hide EscapeAll, PrintOpen;
    if k == 0 {
      assert t[0..] == t;
    } else {
      assert t[..k][..k - 1] == t[..k - 1];
      PassesText(t, k - 1, o);
      var u := t[k - 1..];
      assert u[0] == t[..k][k - 1] && u[1..] == t[k..];
      assert NextToken(u) == (Char(u[0]), 1);
    }
  }
}
