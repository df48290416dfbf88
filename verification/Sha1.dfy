/** SHA-1 as sections 4.1.1, 4.2.1, 5.1.1, 5.3.1 and 6.1.2 of FIPS 180-4 define it. */
module Sha1 {
  import opened Bytes

  type word = bv32

  function Rotl(x: word, n: nat): word
    requires 0 < n < 32
  {
    (x << n) | (x >> (32 - n))
  }

  function Ch(x: word, y: word, z: word): word { (x & y) ^ (!x & z) }

  function Parity(x: word, y: word, z: word): word { x ^ y ^ z }

  function Maj(x: word, y: word, z: word): word { (x & y) ^ (x & z) ^ (y & z) }

  function F(t: nat, x: word, y: word, z: word): word {
    if t < 20 then Ch(x, y, z) else if t < 40 then Parity(x, y, z) else if t < 60 then Maj(x, y, z)
    else Parity(x, y, z)
  }

  function K(t: nat): word {
    if t < 20 then 0x5a827999 else if t < 40 then 0x6ed9eba1 else if t < 60 then 0x8f1bbcdc else 0xca62c1d6
  }

  type Block = s: seq<word> | |s| == 16 witness seq(16, _ => 0)

  function Mix(a: word, b: word, c: word, d: word): word { Rotl(a ^ b ^ c ^ d, 1) }

  /** The message schedule. */
  function W(m: Block, t: nat): word {
    if t < 16 then m[t] else Mix(W(m, t - 3), W(m, t - 8), W(m, t - 14), W(m, t - 16))
  }

  datatype State = State(a: word, b: word, c: word, d: word, e: word)

  /** The sum of a round, modulo 2^32. */
  function Total(a: word, f: word, e: word, k: word, w: word): word { Rotl(a, 5) + f + e + k + w }

  function Round(t: nat, w: word, s: State): State {
    State(Total(s.a, F(t, s.b, s.c, s.d), s.e, K(t), w), s.a, Rotl(s.b, 30), s.c, s.d)
  }

  /** The working variables after `t` rounds. */
  function Rounds(m: Block, s: State, t: nat): State {
    if t == 0 then s else Round(t - 1, W(m, t - 1), Rounds(m, s, t - 1))
  }

  function Sum(s: State, r: State): State {
    State(s.a + r.a, s.b + r.b, s.c + r.c, s.d + r.d, s.e + r.e)
  }

  function Compress(digest: State, m: Block): State {
    Sum(digest, Rounds(m, digest, 80))
  }

  /** A word from four bytes, the first one highest. */
  function WordOf(b0: byte, b1: byte, b2: byte, b3: byte): word {
    ((((((b0 as word) << 8) | (b1 as word)) << 8) | (b2 as word)) << 8) | (b3 as word)
  }

  function WordAt(buf: seq<byte>, i: nat): word
    requires 4 * i + 4 <= |buf|
  {
    WordOf(buf[4 * i], buf[4 * i + 1], buf[4 * i + 2], buf[4 * i + 3])
  }

  function WordsOf(buf: seq<byte>): Block
    requires |buf| == 64
  {
    seq(16, i requires 0 <= i < 16 => WordAt(buf, i))
  }

  const INITIAL := State(0x67452301, 0xEFCDAB89, 0x98BADCFE, 0x10325476, 0xC3D2E1F0)

  /** The digest after all the blocks of 64 bytes. */
  function Hash(blocks: seq<byte>): State
    requires |blocks| % 64 == 0
    decreases |blocks|
  {
    if |blocks| == 0 then INITIAL
    else
      var before := |blocks| - 64;
      Compress(Hash(blocks[..before]), WordsOf(blocks[before..]))
  }

  function Zeros(n: nat): (r: seq<byte>)
    ensures |r| == n
  {
    seq(n, _ => 0)
  }

  /** The last `n` bytes of a number, the highest first. */
  function BigEndian(x: nat, n: nat): (r: seq<byte>)
    ensures |r| == n
  {
    if n == 0 then [] else BigEndian(x / 256, n - 1) + [x % 256]
  }

  /** The message, a one bit, zeros up to 8 bytes before the end of a block, and the length field. */
  function PaddedWith(message: seq<byte>, field: seq<byte>): (r: seq<byte>)
    requires |field| == 8
    ensures |r| % 64 == 0
  {
    message + [0x80] + Zeros((119 - |message| % 64) % 64) + field
  }

  /** The length is in bits, in 64 bits, highest byte first. */
  function Padded(message: seq<byte>): (r: seq<byte>)
    ensures |r| % 64 == 0
  {
    PaddedWith(message, BigEndian(8 * |message|, 8))
  }

  function Digest(message: seq<byte>): State {
    Hash(Padded(message))
  }

  // --- what the definitions above mean ---

  /** Section 6.1.2: every block is compressed into the digest of those before it. */
  lemma {:induction false} HashNextBlock(blocks: seq<byte>, block: seq<byte>)
    requires |blocks| % 64 == 0 && |block| == 64
    ensures |blocks + block| % 64 == 0 && Hash(blocks + block) == Compress(Hash(blocks), WordsOf(block))
  {
    var all := blocks + block;
    assert |all| % 64 == 0;
    assert all[..|all| - 64] == blocks && all[|all| - 64..] == block;
  }

  /** The number that bytes write, the highest first. */
  function NumberOf(s: seq<byte>): nat
    decreases |s|
  {
    if |s| == 0 then 0 else NumberOf(s[..|s| - 1]) * 256 + s[|s| - 1]
  }

  function Power256(n: nat): (r: nat)
    ensures r > 0
  {
    if n == 0 then 1 else 256 * Power256(n - 1)
  }

  /** The length field writes the number, when there are bytes enough for it. */
  lemma {:induction false} BigEndianIsNumber(x: nat, n: nat)
    requires x < Power256(n)
    ensures NumberOf(BigEndian(x, n)) == x
  {
    if n > 0 {
      BigEndianIsNumber(x / 256, n - 1);
      assert BigEndian(x, n)[..n - 1] == BigEndian(x / 256, n - 1);
    }
  }
}
