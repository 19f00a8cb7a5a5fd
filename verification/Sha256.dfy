/**
Streaming SHA-256: a context that takes a message in pieces of any size, proved against the
standard's definition.
*/
module Sha256 {
  import opened Sha256Spec

  const TWO_TO_THE_64 := 0x1_0000_0000_0000_0000

  /** The loops that fill the message schedule. */
  method FillSchedule(block: array<Byte>, start: nat, w: array<Word>)
    requires start + 64 <= block.Length && w.Length == 64
    modifies w
    ensures forall t | 0 <= t < 64 :: w[t] == W(block[start..start + 64], t)
  {
    hide BigEndianWord, Sum4, SmallSigma0, SmallSigma1;
    ghost var b := block[start..start + 64];
    for t := 0 to 16
      invariant forall j | 0 <= j < t :: w[j] == W(b, j)
    {
      var i := start + 4 * t;
      assert block[i] == b[4 * t] && block[i + 1] == b[4 * t + 1] && block[i + 2] == b[4 * t + 2] &&
             block[i + 3] == b[4 * t + 3];
      w[t] := BigEndianWord(block[i], block[i + 1], block[i + 2], block[i + 3]);
    }
    for t := 16 to 64
      invariant forall j | 0 <= j < t :: w[j] == W(b, j)
    {
      w[t] := Sum4(SmallSigma1(w[t - 2]), w[t - 7], SmallSigma0(w[t - 15]), w[t - 16]);
    }
  }

  /** `sha256_transform`: one block, in place. */
  method Transform(state: array<Word>, block: array<Byte>, start: nat)
    requires state.Length == 8 && start + 64 <= block.Length
    modifies state
    ensures state[..] == Compress(old(state[..]), block[start..start + 64])
  {
    hide W, Plus, Sum5, BigSigma0, BigSigma1, Ch, Maj, AddAll;
    ghost var data := block[start..start + 64];
    ghost var before := state[..];
    var w := new Word[64];
    FillSchedule(block, start, w);
    var a, b, c, d := state[0], state[1], state[2], state[3];
    var e, f, g, h := state[4], state[5], state[6], state[7];
    for t := 0 to 64
      invariant Working(a, b, c, d, e, f, g, h) == Rounds(data, Load(before), t)
      invariant state[..] == before
    {
      var t1 := Sum5(h, BigSigma1(e), Ch(e, f, g), K[t], w[t]);
      var t2 := Plus(BigSigma0(a), Maj(a, b, c));
      h := g;
      g := f;
      f := e;
      e := Plus(d, t1);
      d := c;
      c := b;
      b := a;
      a := Plus(t1, t2);
    }
    AddInto(state, Working(a, b, c, d, e, f, g, h));
  }

  /** The end of `sha256_transform`. */
  method AddInto(state: array<Word>, v: Working)
    requires state.Length == 8
    modifies state
    ensures state[..] == AddAll(old(state[..]), v)
  {
    hide Plus;
    state[0], state[1], state[2], state[3], state[4], state[5], state[6], state[7] :=
      Plus(state[0], v.a), Plus(state[1], v.b), Plus(state[2], v.c), Plus(state[3], v.d),
      Plus(state[4], v.e), Plus(state[5], v.f), Plus(state[6], v.g), Plus(state[7], v.h);
  }

  lemma RestOf(whole: seq<Byte>, rest: seq<Byte>)
    requires |whole| % 64 == 0 && |rest| <= 64
    ensures |whole + rest| % 64 == |rest| % 64
  {
  }

  lemma BitsAdd(m: nat, n: nat)
    ensures (8 * m % TWO_TO_THE_64 + n * 8) % TWO_TO_THE_64 == 8 * (m + n) % TWO_TO_THE_64
  {
  }

  /** `sha256_ctx` */
  class Context {
    var nbit: nat  // modulo 2^64
    const h: array<Word>
    const buf: array<Byte>
    var buflen: nat

    /** `data` has been taken in: whole blocks are hashed, the rest waits in the buffer. */
    ghost predicate Took(data: seq<Byte>)
      reads this, h, buf
    {
      && h.Length == 8 && buf.Length == 64
      && buflen == |data| % 64
      && h[..] == HashBlocks(INITIAL, data[..|data| - buflen])
      && buf[..buflen] == data[|data| - buflen..]
    }

    ghost predicate Absorbed(msg: seq<Byte>)
      reads this, h, buf
    {
      Took(msg) && nbit == 8 * |msg| % TWO_TO_THE_64
    }

    /** `sha256_init` */
    constructor ()
      ensures Absorbed([]) && fresh(h) && fresh(buf)
    {
      nbit, buflen := 0, 0;
      h := new Word[8](i requires 0 <= i < 8 => INITIAL[i]);
      buf := new Byte[64](_ => 0);
      new;
      assert h[..] == INITIAL;
    }

    /** One turn of the loop of `sha256_update`: as much as fits, and a block when it is full. */
    method Feed(data: seq<Byte>, from: nat, ghost done: seq<Byte>) returns (n: nat)
      requires Took(done) && from < |data|
      modifies this`buflen, h, buf
      ensures 0 < n && from + n <= |data| && Took(done + data[from..from + n])
    {
      hide HashBlocks, Compress;
      var space := 64 - buflen;
      n := if |data| - from < space then |data| - from else space;
      ghost var piece := data[from..from + n];
      ghost var whole := done[..|done| - buflen];
      ghost var tail := done[|done| - buflen..];
      assert whole + tail == done;
      ghost var h0 := h[..];
      assert h0 == HashBlocks(INITIAL, whole);
      forall i | 0 <= i < n { buf[buflen + i] := data[from + i]; }
      buflen := buflen + n;
      assert buf[..buflen] == tail + piece;
      assert h[..] == h0;
      RestOf(whole, tail + piece);
      ghost var now := done + piece;
      if buflen == 64 {
        assert buf[0..0 + 64] == tail + piece;
        Transform(h, buf, 0);
        HashOneMore(INITIAL, whole, tail + piece);
        assert h[..] == Compress(h0, tail + piece);
        buflen := 0;
        assert h[..] == HashBlocks(INITIAL, whole + (tail + piece));
        assert whole + (tail + piece) == now;
        assert now[..|now| - buflen] == now && now[|now| - buflen..] == [];
      } else {
        assert now == whole + (tail + piece);
        assert now[..|now| - buflen] == whole && now[|now| - buflen..] == tail + piece;
      }
      assert now == whole + (tail + piece);
      assert buflen == |now| % 64;
      assert h[..] == HashBlocks(INITIAL, now[..|now| - buflen]);
      assert buf[..buflen] == now[|now| - buflen..];
    }

    /** `sha256_update` */
    method Update(data: seq<Byte>, ghost msg: seq<Byte>)
      requires Absorbed(msg)
      modifies this, h, buf
      ensures Absorbed(msg + data)
    {
      hide HashBlocks;
      BitsAdd(|msg|, |data|);
      nbit := (nbit + |data| * 8) % TWO_TO_THE_64;
      ghost var bits := nbit;
      assert |msg + data| == |msg| + |data|;
      var p := 0;
      assert msg + data[..0] == msg;
      while p < |data|
        invariant p <= |data| && Took(msg + data[..p]) && nbit == bits
      {
        var n := Feed(data, p, msg + data[..p]);
        assert msg + data[..p] + data[p..p + n] == msg + data[..p + n];
        p := p + n;
      }
      assert data[..p] == data;
    }

    /** The waiting bytes and the byte 0x80. */
    method CopyTail(block: array<Byte>) returns (n: nat)
      requires buf.Length == 64 && buflen < 64 && block.Length == 128 && block != buf
      modifies block
      ensures n == buflen + 1 && block[..n] == buf[..buflen] + [0x80]
    {
      n := buflen;
      forall i | 0 <= i < n { block[i] := buf[i]; }
      assert block[..n] == buf[..n];
      block[n] := 0x80;
      n := n + 1;
    }

    /** The padding written behind the waiting bytes: it always fits the 128 bytes of `block`. */
    method WritePadding(block: array<Byte>, ghost msg: seq<Byte>) returns (n: nat)
      requires Absorbed(msg) && block.Length == 128 && block != buf
      modifies block
      ensures n % 64 == 0 && n <= 128
      ensures msg[..|msg| - buflen] + block[..n] == Pad(msg)
    {
      hide HashBlocks, BigEndian64, ByteOf, ZeroBytes, Zeros, Pad;
      ghost var whole, tail := msg[..|msg| - buflen], msg[|msg| - buflen..];
      n := CopyTail(block);
      ZeroCount(|msg|, buflen, 0);
      n := FillZeros(block, n, |msg|);
      WriteLength(block, n, nbit);
      LowBytes(8 * |msg|);
      n := n + 8;
      assert whole + tail == msg;
      PadIs(msg, whole, tail, block[..n]);
    }

    /** The loop over the padded blocks. */
    method HashPadding(block: array<Byte>, n: nat, ghost whole: seq<Byte>)
      requires h.Length == 8 && n % 64 == 0 && n <= block.Length && |whole| % 64 == 0
      requires h[..] == HashBlocks(INITIAL, whole)
      modifies h
      ensures h[..] == HashBlocks(INITIAL, whole + block[..n])
    {
      hide HashBlocks, Compress;
      ghost var p := block[..n];
      assert whole + p[..0] == whole;
      for k := 0 to n / 64
        invariant block[..n] == p
        invariant h[..] == HashBlocks(INITIAL, whole + p[..64 * k])
      {
        var i := 64 * k;
        assert block[i..i + 64] == block[..n][i..i + 64] == p[i..i + 64];
        Transform(h, block, i);
        HashOneMore(INITIAL, whole + p[..i], p[i..i + 64]);
        assert whole + p[..i] + p[i..i + 64] == whole + p[..i + 64];
      }
      assert p[..64 * (n / 64)] == p;
    }

    /** `sha256_final` */
    method Final(out: array<Byte>, ghost msg: seq<Byte>)
      requires Absorbed(msg) && out.Length == 32 && out != buf
      modifies h, out
      ensures out[..] == Sha256(msg)
    {
      hide HashBlocks, Pad, DigestBytes;
      var block := new Byte[128](_ => 0);
      var n := WritePadding(block, msg);
      HashPadding(block, n, msg[..|msg| - buflen]);
      WriteDigest(out);
    }

    /** The last loop of `sha256_final`. */
    method WriteDigest(out: array<Byte>)
      requires h.Length == 8 && out.Length == 32
      modifies out
      ensures out[..] == DigestBytes(h[..])
    {
      hide WordBytes;
      assert DigestBytes(h[..0]) == [];
      for i := 0 to 8
        invariant out[..4 * i] == DigestBytes(h[..i])
      {
        var b := WordBytes(h[i]);
        WordBytesLength(h[i]);
        out[4 * i] := b[0];
        out[4 * i + 1] := b[1];
        out[4 * i + 2] := b[2];
        out[4 * i + 3] := b[3];
        assert h[..i + 1][..i] == h[..i];
        assert out[..4 * (i + 1)] == DigestBytes(h[..i]) + b;
      }
      assert h[..8] == h[..] && out[..32] == out[..];
    }
  }

  lemma WordBytesLength(w: Word)
    ensures |WordBytes(w)| == 4
  {
  }

  /** How far the zero bytes go. */
  lemma ZeroCount(len: nat, buflen: nat, z: nat)
    requires buflen == len % 64 && z <= ZeroBytes(len)
    ensures buflen + 1 + ZeroBytes(len) <= 120
    ensures (buflen + 1 + z) % 64 == 56 <==> z == ZeroBytes(len)
  {
  }

  /** The counter wraps around, but its eight bytes are the low bytes of the true length. */
  lemma LowBytes(n: nat)
    ensures BigEndian64(n % TWO_TO_THE_64) == BigEndian64(n)
  {
    assert Pow256(8) == TWO_TO_THE_64;
    forall i | 0 <= i < 8 ensures ByteOf(n % TWO_TO_THE_64, i) == ByteOf(n, i) {
      ByteOfMod(n, i, 8);
    }
  }

  function Pow256(k: nat): (r: nat)
    ensures r > 0
  {
    if k == 0 then 1 else 256 * Pow256(k - 1)
  }

  lemma SplitMod(n: nat, m: nat)
    requires m > 0
    ensures n % (256 * m) % 256 == n % 256 && n % (256 * m) / 256 == n / 256 % m
  {
    var q, r := n / (256 * m), n % (256 * m);
    var h, l := r / 256, r % 256;
    assert n == 256 * (m * q + h) + l by {
      assert n == 256 * m * q + r;
      assert 256 * m * q == 256 * (m * q);
    }
    assert n / 256 == m * q + h && n % 256 == l;
    assert h < m by { assert 256 * h <= r < 256 * m; }
    DivIs(m * q + h, m, q, h);
  }

  lemma DivIs(x: nat, m: nat, q: nat, h: nat)
    requires m > 0 && h < m && x == m * q + h
    ensures x % m == h
  {
    var y := x / m;
    assert x == m * y + x % m;
    assert y < q ==> m * (y + 1) <= m * q;
    assert q < y ==> m * (q + 1) <= m * y;
  }

  lemma {:induction false} ByteOfMod(n: nat, i: nat, k: nat)
    requires i < k
    ensures ByteOf(n % Pow256(k), i) == ByteOf(n, i)
  {
    SplitMod(n, Pow256(k - 1));
    if i > 0 { ByteOfMod(n / 256, i - 1, k - 1); }
  }

  /** The loop that fills up to the place of the length. */
  method FillZeros(block: array<Byte>, from: nat, ghost len: nat) returns (n: nat)
    requires block.Length == 128 && from == len % 64 + 1
    modifies block
    ensures n == from + ZeroBytes(len) <= 120 && n % 64 == 56
    ensures block[..n] == old(block[..from]) + Zeros(ZeroBytes(len))
  {
    hide ZeroBytes;
    n := from;
    ghost var z := 0;
    ZeroCount(len, from - 1, 0);
    while n % 64 != 56
      invariant n == from + z && z <= ZeroBytes(len) && n <= 120
      invariant block[..n] == old(block[..from]) + Zeros(z)
      decreases ZeroBytes(len) - z
    {
      ZeroCount(len, from - 1, z);
      block[n] := 0;
      n := n + 1;
      assert Zeros(z) + [0] == Zeros(z + 1);
      z := z + 1;
    }
    ZeroCount(len, from - 1, z);
  }

  lemma PadIs(msg: seq<Byte>, whole: seq<Byte>, tail: seq<Byte>, end: seq<Byte>)
    requires whole + tail == msg
    requires end == tail + [0x80] + Zeros(ZeroBytes(|msg|)) + BigEndian64(8 * |msg|)
    ensures whole + end == Pad(msg)
  {
    hide Zeros, BigEndian64, ZeroBytes;
    var x, y := Zeros(ZeroBytes(|msg|)), BigEndian64(8 * |msg|);
    assert whole + (tail + [0x80] + x + y) == whole + tail + [0x80] + x + y;
  }

  /** The loop that appends the length in bits. */
  method WriteLength(block: array<Byte>, n: nat, bitlen: nat)
    requires n + 8 <= block.Length
    modifies block
    ensures block[..n + 8] == old(block[..n]) + BigEndian64(bitlen)
  {
    hide ByteOf;
    for i := 0 to 8
      invariant block[..n + i] == old(block[..n]) + BigEndian64(bitlen)[..i]
    {
      block[n + i] := ByteOf(bitlen, 7 - i);
    }
  }

  function Join(pieces: seq<seq<Byte>>): seq<Byte> {
    if pieces == [] then [] else Join(pieces[..|pieces| - 1]) + pieces[|pieces| - 1]
  }

  /** Init, any number of updates with pieces of any size, final: the digest of the whole. */
  method DigestOfPieces(pieces: seq<seq<Byte>>) returns (digest: seq<Byte>)
    ensures digest == Sha256(Join(pieces))
  {
    hide HashBlocks, Pad, DigestBytes, Sha256;
    var ctx := new Context();
    for i := 0 to |pieces|
      invariant ctx.Absorbed(Join(pieces[..i])) && fresh(ctx) && fresh(ctx.h) && fresh(ctx.buf)
    {
      assert pieces[..i + 1][..i] == pieces[..i];
      ctx.Update(pieces[i], Join(pieces[..i]));
    }
    assert pieces[..|pieces|] == pieces;
    var out := new Byte[32];
    ctx.Final(out, Join(pieces));
    digest := out[..];
  }
}
