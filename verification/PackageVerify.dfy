/**
Verification of a downloaded package: the file's SHA-256 digest against a text in hexadecimal.
*/
module PackageVerify {
  import opened Ascii
  import opened Sha256Spec
  import Sha256

  // ---------------------------------------------------------------- hexadecimal text

  const DIGITS := "0123456789abcdef"

  const NIBBLES: seq<Byte> := [0, 1, 2, 3, 4, 5, 6, 7, 8, 9, 10, 11, 12, 13, 14, 15]

  function Digit(n: Byte): char
    requires n < 16
  {
    DIGITS[n as int]
  }

  /** Two lower-case digits a byte. */
  function HexText(bytes: seq<Byte>): string {
    if bytes == [] then ""
    else
      var b := bytes[|bytes| - 1];
      HexText(bytes[..|bytes| - 1]) + [Digit(b >> 4), Digit(b & 15)]
  }

  /** White space at both ends removed. */
  function Trim(s: string): string { TrimEnd(SkipBlank(s)) }

  function TrimEnd(s: string): (r: string)
    ensures r <= s && (r != "" ==> !IsSpace(r[|r| - 1]))
  {
    if s != "" && IsSpace(s[|s| - 1]) then TrimEnd(s[..|s| - 1]) else s
  }

  /** `hex_nibble` */
  function HexNibble(c: char): Option<Byte> {
    if '0' <= c <= '9' then Some(NIBBLES[c as int - '0' as int])
    else if 'a' <= c <= 'f' then Some(NIBBLES[c as int - 'a' as int + 10])
    else if 'A' <= c <= 'F' then Some(NIBBLES[c as int - 'A' as int + 10])
    else None
  }

  lemma NibbleAt(k: nat)
    requires k < 16
    ensures NIBBLES[k] < 16 && NIBBLES[k] as int == k
  {
  }

  /** A nibble is read from exactly the two cases of its digit. */
  lemma NibbleOfDigit(c: char, n: Byte)
    requires n < 16
    ensures HexNibble(c) == Some(n) <==> Lower(c) == Digit(n)
  {
    forall k: nat | k < 16 ensures NIBBLES[k] as int == k { NibbleAt(k); }
  }

  lemma {:induction false} HexTextAt(bytes: seq<Byte>, i: nat)
    requires i < |bytes|
    ensures var t := HexText(bytes);
      |t| == 2 * |bytes| && t[2 * i] == Digit(bytes[i] >> 4) && t[2 * i + 1] == Digit(bytes[i] & 15)
  {
    hide Digit;
    var front := bytes[..|bytes| - 1];
    if front == [] {
    } else if i < |front| {
      HexTextAt(front, i);
    } else {
      HexTextAt(front, 0);
    }
  }

  /** Two nibbles make the byte whose digits they are. */
  lemma NibblesOfByte(hi: Byte, lo: Byte)
    requires hi < 16 && lo < 16
    ensures ((hi << 4) | lo) >> 4 == hi && ((hi << 4) | lo) & 15 == lo
  {
  }

  lemma NibbleSmall(c: char)
    ensures HexNibble(c).Some? ==> HexNibble(c).value < 16
  {
    forall k: nat | k < 16 ensures NIBBLES[k] < 16 { NibbleAt(k); }
  }

  // ---------------------------------------------------------------- reading the expected digest

  /** `hex_skip_space` and `hex_trim_end` */
  method TrimText(s: string) returns (t: string)
    ensures t == Trim(s)
  {
    var p := 0;
    while p < |s| && IsSpace(s[p])
      invariant p <= |s| && SkipBlank(s) == SkipBlank(s[p..])
    {
      assert s[p..][1..] == s[p + 1..];
      assert Blank(s[p..]) == 1 + Blank(s[p + 1..]);
      assert SkipBlank(s[p..]) == SkipBlank(s[p + 1..]);
      p := p + 1;
    }
    t := s[p..];
    assert SkipBlank(t) == t by { SpanIs(IsSpace, t, 0); }
    ghost var u := t;
    while |t| > 0 && IsSpace(t[|t| - 1])
      invariant TrimEnd(t) == TrimEnd(u)
      decreases |t|
    {
      t := t[..|t| - 1];
    }
  }

  /** `parse_sha256_hex`: 64 digits of either case, white space around them ignored. */
  method ParseSha256Hex(hex: string) returns (r: Option<seq<Byte>>)
    ensures r.Some? ==> |r.value| == 32 && HexText(r.value) == LowerAll(Trim(hex))
    ensures r.None? ==> forall bytes: seq<Byte> | |bytes| == 32 :: HexText(bytes) != LowerAll(Trim(hex))
  {
    hide Digit, HexNibble, Trim, HexText;
    var p := TrimText(hex);
    if |p| != 64 {
      forall bytes: seq<Byte> | |bytes| == 32 ensures HexText(bytes) != LowerAll(p) {
        HexTextAt(bytes, 0);
      }
      return None;
    }
    var out: seq<Byte> := [];
    assert HexText([]) == LowerAll(p[..0]) by { NoBytes(); }
    for i := 0 to 32
      invariant |out| == i && HexText(out) == LowerAll(p[..2 * i])
    {
      var hi, lo := HexNibble(p[2 * i]), HexNibble(p[2 * i + 1]);
      if hi.None? || lo.None? {
        forall bytes: seq<Byte> | |bytes| == 32 ensures HexText(bytes) != LowerAll(p) {
          HexTextAt(bytes, i);
          ByteNibbles(bytes[i]);
          NibbleOfDigit(p[2 * i], bytes[i] >> 4);
          NibbleOfDigit(p[2 * i + 1], bytes[i] & 15);
        }
        return None;
      }
      NibbleSmall(p[2 * i]);
      NibbleSmall(p[2 * i + 1]);
      out := AppendByte(p, i, out, hi.value, lo.value);
    }
    assert p[..64] == p;
    r := Some(out);
  }

  lemma NoBytes()
    ensures HexText([]) == ""
  {
  }

  lemma ByteNibbles(b: Byte)
    ensures b >> 4 < 16 && b & 15 < 16
  {
  }

  method AppendByte(p: string, i: nat, out: seq<Byte>, hi: Byte, lo: Byte) returns (r: seq<Byte>)
    requires 2 * i + 2 <= |p| && |out| == i && HexText(out) == LowerAll(p[..2 * i]) && hi < 16 && lo < 16
    requires HexNibble(p[2 * i]) == Some(hi) && HexNibble(p[2 * i + 1]) == Some(lo)
    ensures |r| == i + 1 && HexText(r) == LowerAll(p[..2 * i + 2])
  {
    hide Digit, HexNibble;
    var b := (hi << 4) | lo;
    r := out + [b];
    NibblesOfByte(hi, lo);
    NibbleOfDigit(p[2 * i], hi);
    NibbleOfDigit(p[2 * i + 1], lo);
    assert r[..i] == out;
    assert LowerAll(p[..2 * i + 2]) == LowerAll(p[..2 * i]) + [Lower(p[2 * i]), Lower(p[2 * i + 1])];
  }

  // ---------------------------------------------------------------- comparing and verifying

  lemma OrOfXor(d: Byte, x: Byte, y: Byte)
    ensures d | (x ^ y) == 0 <==> d == 0 && x == y
  {
  }

  /** `sha256_digest_equals_ct`: differences are collected, never branched on. */
  method DigestsEqual(a: seq<Byte>, b: seq<Byte>) returns (eq: bool)
    requires |a| == |b| == 32
    ensures eq == (a == b)
  {
    var d: Byte := 0;
    for i := 0 to 32
      invariant d == 0 <==> a[..i] == b[..i]
    {
      OrOfXor(d, a[i], b[i]);
      assert a[..i + 1] == a[..i] + [a[i]] && b[..i + 1] == b[..i] + [b[i]];
      d := d | (a[i] ^ b[i]);
    }
    assert a[..32] == a && b[..32] == b;
    eq := d == 0;
  }

  const BLOCK := 8192

  /** The read loop of `update_verify` and the end of the hash. */
  method HashFile(content: seq<Byte>) returns (digest: seq<Byte>)
    ensures digest == Sha256Spec.Sha256(content)
  {
    hide HashBlocks, Pad, DigestBytes, Sha256Spec.Sha256;
    var ctx := new Sha256.Context();
    var pos := 0;
    assert content[..0] == [];
    while true
      invariant pos <= |content| && ctx.Absorbed(content[..pos])
      invariant fresh(ctx) && fresh(ctx.h) && fresh(ctx.buf)
      decreases |content| - pos
    {
      var n := if |content| - pos < BLOCK then |content| - pos else BLOCK;
      if n > 0 {
        ctx.Update(content[pos..pos + n], content[..pos]);
        assert content[..pos] + content[pos..pos + n] == content[..pos + n];
        pos := pos + n;
      }
      if n < BLOCK { break; }
    }
    assert content[..pos] == content;
    var out := new Byte[32];
    ctx.Final(out, content);
    digest := out[..];
  }

  /**
  `update_verify`: `file` is `None` when it cannot be opened, `readError` tells of a failed read.
  Accepted exactly when the trimmed text is the hexadecimal digest of the file, in either case.
  */
  method UpdateVerify(file: Option<seq<Byte>>, readError: bool, expected: string) returns (ok: bool)
    ensures ok <==>
            file.Some? && !readError && LowerAll(Trim(expected)) == HexText(Sha256Spec.Sha256(file.value))
  {
    hide HexText, Trim, Sha256Spec.Sha256;
    var wanted := ParseSha256Hex(expected);
    if wanted.None? || file.None? { return false; }
    var digest := HashFile(file.value);
    if readError { return false; }
    ok := DigestsEqual(digest, wanted.value);
    if !ok { HexTextInjective(digest, wanted.value); }
  }

  lemma {:induction false} HexTextInjective(a: seq<Byte>, b: seq<Byte>)
    requires |a| == |b| && a != b
    ensures HexText(a) != HexText(b)
  {
    hide HexText;
    var i :| 0 <= i < |a| && a[i] != b[i];
    HexTextAt(a, i);
    HexTextAt(b, i);
    DigitsDiffer(a[i], b[i]);
  }

  lemma DigitsDiffer(x: Byte, y: Byte)
    requires x != y
    ensures Digit(x >> 4) != Digit(y >> 4) || Digit(x & 15) != Digit(y & 15)
  {
    hide Digit;
    ByteNibbles(x);
    ByteNibbles(y);
    SameDigit(x >> 4, y >> 4);
    SameDigit(x & 15, y & 15);
    assert x >> 4 == y >> 4 && x & 15 == y & 15 ==> x == y;
  }

  lemma SameDigit(m: Byte, n: Byte)
    requires m < 16 && n < 16
    ensures Digit(m) == Digit(n) ==> m == n
  {
    NibbleOfDigit(Digit(m), m);
    NibbleOfDigit(Digit(n), n);
    LowerDigit(m);
    LowerDigit(n);
  }

  lemma LowerDigit(n: Byte)
    requires n < 16
    ensures Lower(Digit(n)) == Digit(n)
  {
  }
}
