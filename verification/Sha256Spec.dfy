/**
SHA-256 as the Secure Hash Standard, FIPS 180-4, defines it; section numbers are its own.
*/
module Sha256Spec {

  type Byte = bv8
  type Word = bv32

  // ---------------------------------------------------------------- section 4.1.2

  function Ch(x: Word, y: Word, z: Word): Word { (x & y) ^ (!x & z) }

  function Maj(x: Word, y: Word, z: Word): Word { (x & y) ^ (x & z) ^ (y & z) }

  // A rotation to the right by n is written out as (x >> n) | (x << (32 - n)).

  function BigSigma0(x: Word): Word { ((x >> 2) | (x << 30)) ^ ((x >> 13) | (x << 19)) ^ ((x >> 22) | (x << 10)) }

  function BigSigma1(x: Word): Word { ((x >> 6) | (x << 26)) ^ ((x >> 11) | (x << 21)) ^ ((x >> 25) | (x << 7)) }

  function SmallSigma0(x: Word): Word { ((x >> 7) | (x << 25)) ^ ((x >> 18) | (x << 14)) ^ (x >> 3) }

  function SmallSigma1(x: Word): Word { ((x >> 17) | (x << 15)) ^ ((x >> 19) | (x << 13)) ^ (x >> 10) }

  /** Addition modulo 2^32. */
  function Plus(x: Word, y: Word): Word { x + y }

  function Sum4(x: Word, y: Word, z: Word, u: Word): Word { x + y + z + u }

  function Sum5(x: Word, y: Word, z: Word, u: Word, v: Word): Word { x + y + z + u + v }

  // ---------------------------------------------------------------- section 4.2.2

  const K0: seq<Word> := [
    0x428a2f98, 0x71374491, 0xb5c0fbcf, 0xe9b5dba5, 0x3956c25b, 0x59f111f1, 0x923f82a4, 0xab1c5ed5]
  const K1: seq<Word> := [
    0xd807aa98, 0x12835b01, 0x243185be, 0x550c7dc3, 0x72be5d74, 0x80deb1fe, 0x9bdc06a7, 0xc19bf174]
  const K2: seq<Word> := [
    0xe49b69c1, 0xefbe4786, 0x0fc19dc6, 0x240ca1cc, 0x2de92c6f, 0x4a7484aa, 0x5cb0a9dc, 0x76f988da]
  const K3: seq<Word> := [
    0x983e5152, 0xa831c66d, 0xb00327c8, 0xbf597fc7, 0xc6e00bf3, 0xd5a79147, 0x06ca6351, 0x14292967]
  const K4: seq<Word> := [
    0x27b70a85, 0x2e1b2138, 0x4d2c6dfc, 0x53380d13, 0x650a7354, 0x766a0abb, 0x81c2c92e, 0x92722c85]
  const K5: seq<Word> := [
    0xa2bfe8a1, 0xa81a664b, 0xc24b8b70, 0xc76c51a3, 0xd192e819, 0xd6990624, 0xf40e3585, 0x106aa070]
  const K6: seq<Word> := [
    0x19a4c116, 0x1e376c08, 0x2748774c, 0x34b0bcb5, 0x391c0cb3, 0x4ed8aa4a, 0x5b9cca4f, 0x682e6ff3]
  const K7: seq<Word> := [
    0x748f82ee, 0x78a5636f, 0x84c87814, 0x8cc70208, 0x90befffa, 0xa4506ceb, 0xbef9a3f7, 0xc67178f2]

  const K: seq<Word> := K0 + K1 + K2 + K3 + K4 + K5 + K6 + K7

  // ---------------------------------------------------------------- section 5.1.1: padding

  /** `n` as eight bytes, the most significant first. */
  function BigEndian64(n: nat): (r: seq<Byte>)
    ensures |r| == 8
  {
    seq(8, i requires 0 <= i < 8 => ByteOf(n, 7 - i))
  }

  /** Byte `i` of `n`, counted from the least significant one. */
  function ByteOf(n: nat, i: nat): Byte {
    if i == 0 then (n % 256) as Byte else ByteOf(n / 256, i - 1)
  }

  /** The least number of zero bytes that leaves eight bytes of the last block for the length. */
  function ZeroBytes(len: nat): (z: nat)
    ensures (len + 1 + z) % 64 == 56 && z < 64
  {
    (119 - len % 64) % 64
  }

  function Zeros(n: nat): seq<Byte> { seq(n, _ => 0) }

  function Pad(msg: seq<Byte>): (r: seq<Byte>)
    ensures |r| % 64 == 0 && msg <= r
  {
    msg + [0x80] + Zeros(ZeroBytes(|msg|)) + BigEndian64(8 * |msg|)
  }

  // ---------------------------------------------------------------- section 5.3.3

  const INITIAL: seq<Word> := [
    0x6a09e667, 0xbb67ae85, 0x3c6ef372, 0xa54ff53a, 0x510e527f, 0x9b05688c, 0x1f83d9ab, 0x5be0cd19]

  // ---------------------------------------------------------------- section 6.2.2

  function BigEndianWord(b0: Byte, b1: Byte, b2: Byte, b3: Byte): Word {
    (b0 as Word << 24) | (b1 as Word << 16) | (b2 as Word << 8) | (b3 as Word)
  }

  function NextW(w2: Word, w7: Word, w15: Word, w16: Word): Word {
    Sum4(SmallSigma1(w2), w7, SmallSigma0(w15), w16)
  }

  /** The message schedule. */
  function W(block: seq<Byte>, t: nat): Word
    requires |block| == 64 && t < 64
  {
    if t < 16 then BigEndianWord(block[4 * t], block[4 * t + 1], block[4 * t + 2], block[4 * t + 3])
    else NextW(W(block, t - 2), W(block, t - 7), W(block, t - 15), W(block, t - 16))
  }

  datatype Working = Working(a: Word, b: Word, c: Word, d: Word, e: Word, f: Word, g: Word, h: Word)

  function Round(v: Working, k: Word, w: Word): Working {
    var t1 := Sum5(v.h, BigSigma1(v.e), Ch(v.e, v.f, v.g), k, w);
    var t2 := Plus(BigSigma0(v.a), Maj(v.a, v.b, v.c));
    Working(Plus(t1, t2), v.a, v.b, v.c, Plus(v.d, t1), v.e, v.f, v.g)
  }

  function Rounds(block: seq<Byte>, v: Working, t: nat): Working
    requires |block| == 64 && t <= 64
  {
    if t == 0 then v else Round(Rounds(block, v, t - 1), K[t - 1], W(block, t - 1))
  }

  function Load(h: seq<Word>): Working
    requires |h| == 8
  {
    Working(h[0], h[1], h[2], h[3], h[4], h[5], h[6], h[7])
  }

  function Compress(h: seq<Word>, block: seq<Byte>): (r: seq<Word>)
    requires |h| == 8 && |block| == 64
    ensures |r| == 8
  {
    AddAll(h, Rounds(block, Load(h), 64))
  }

  function AddAll(h: seq<Word>, v: Working): (r: seq<Word>)
    requires |h| == 8
    ensures |r| == 8
  {
    [Plus(h[0], v.a), Plus(h[1], v.b), Plus(h[2], v.c), Plus(h[3], v.d),
     Plus(h[4], v.e), Plus(h[5], v.f), Plus(h[6], v.g), Plus(h[7], v.h)]
  }

  function HashBlocks(h: seq<Word>, blocks: seq<Byte>): (r: seq<Word>)
    requires |h| == 8 && |blocks| % 64 == 0
    ensures |r| == 8
    decreases |blocks|
  {
    if blocks == [] then h else HashBlocks(Compress(h, blocks[..64]), blocks[64..])
  }

  function WordBytes(w: Word): seq<Byte> {
    [((w >> 24) & 255) as Byte, ((w >> 16) & 255) as Byte, ((w >> 8) & 255) as Byte, (w & 255) as Byte]
  }

  function DigestBytes(h: seq<Word>): (r: seq<Byte>)
    ensures |r| == 4 * |h|
  {
    if h == [] then [] else DigestBytes(h[..|h| - 1]) + WordBytes(h[|h| - 1])
  }

  /** The message digest; the standard defines it for messages of less than 2^64 bits. */
  function Sha256(msg: seq<Byte>): (r: seq<Byte>)
    ensures |r| == 32
  {
    DigestBytes(HashBlocks(INITIAL, Pad(msg)))
  }

  // ---------------------------------------------------------------- facts

  /** No smaller amount of zero padding would do. */
  lemma ZeroBytesLeast(len: nat, z: nat)
    requires (len + 1 + z) % 64 == 56
    ensures ZeroBytes(len) <= z
  {
  }

  /** Whole blocks can be hashed in two parts. */
  lemma {:induction false} HashBlocksConcat(h: seq<Word>, a: seq<Byte>, b: seq<Byte>)
    requires |h| == 8 && |a| % 64 == 0 && |b| % 64 == 0
    ensures HashBlocks(h, a + b) == HashBlocks(HashBlocks(h, a), b)
    decreases |a|
  {
    hide Compress;
    if a == [] {
      assert a + b == b;
    } else {
      assert (a + b)[..64] == a[..64] && (a + b)[64..] == a[64..] + b;
      HashBlocksConcat(Compress(h, a[..64]), a[64..], b);
    }
  }

  lemma HashOneMore(h: seq<Word>, a: seq<Byte>, block: seq<Byte>)
    requires |h| == 8 && |a| % 64 == 0 && |block| == 64
    ensures HashBlocks(h, a + block) == Compress(HashBlocks(h, a), block)
  {
    hide Compress;
    HashBlocksConcat(h, a, block);
    assert block[..64] == block && block[64..] == [];
  }
}
