/** SHA-1 as FIPS 180-4 defines it: sections 4.1.1, 4.2.1, 5.1.1, 5.3.1 and 6.1.2. */
module Fips180 {
  import opened Networking

  type Word = bv32

  function Rotl1(x: Word): Word { x.RotateLeft(1) }
  function Rotl5(x: Word): Word { x.RotateLeft(5) }
  function Rotl30(x: Word): Word { x.RotateLeft(30) }
  function Xor4(x: Word, y: Word, z: Word, w: Word): Word { x ^ y ^ z ^ w }

  function Ch(x: Word, y: Word, z: Word): Word { (x & y) ^ (!x & z) }
  function Parity(x: Word, y: Word, z: Word): Word { x ^ y ^ z }
  function Maj(x: Word, y: Word, z: Word): Word { (x & y) ^ (x & z) ^ (y & z) }

  /** The function and the constant of round `t`. */
  function F(t: nat, x: Word, y: Word, z: Word): Word {
    if t < 20 then Ch(x, y, z) else if t < 40 then Parity(x, y, z) else if t < 60 then Maj(x, y, z) else Parity(x, y, z)
  }

  function K(t: nat): Word {
    if t < 20 then 0x5a827999 else if t < 40 then 0x6ed9eba1 else if t < 60 then 0x8f1bbcdc else 0xca62c1d6
  }

  /** The message schedule: 80 words (and more, were they needed) from the 16 of a block. */
  function W(block: seq<Word>, t: nat): Word
    requires |block| == 16
  {
    if t < 16 then block[t]
    else Rotl1(Xor4(W(block, t - 3), W(block, t - 8), W(block, t - 14), W(block, t - 16)))
  }

  datatype State = State(a: Word, b: Word, c: Word, d: Word, e: Word)

  const INITIAL: State := State(0x67452301, 0xefcdab89, 0x98badcfe, 0x10325476, 0xc3d2e1f0)

  function Sum5(v: Word, f: Word, e: Word, k: Word, w: Word): Word { v + f + e + k + w }

  function Round(t: nat, s: State, w: Word): State {
    State(Sum5(Rotl5(s.a), F(t, s.b, s.c, s.d), s.e, K(t), w), s.a, Rotl30(s.b), s.c, s.d)
  }

  /** The working variables after the first `t` rounds. */
  function Rounds(h: State, block: seq<Word>, t: nat): State
    requires |block| == 16
  {
    if t == 0 then h else Round(t - 1, Rounds(h, block, t - 1), W(block, t - 1))
  }

  function Plus(x: Word, y: Word): Word { x + y }

  function Add(s: State, t: State): State {
    State(Plus(s.a, t.a), Plus(s.b, t.b), Plus(s.c, t.c), Plus(s.d, t.d), Plus(s.e, t.e))
  }

  /** One block's step of the hash value. */
  function Compress(h: State, block: seq<Word>): State
    requires |block| == 16
  {
    Add(h, Rounds(h, block, 80))
  }

  /** The 32-bit words that bytes stand for, most significant byte first. */
  function Words(bytes: seq<byte>): (ws: seq<Word>)
    requires |bytes| % 4 == 0
    ensures |ws| == |bytes| / 4
  {
    seq(|bytes| / 4, i requires 0 <= i < |bytes| / 4 =>
      Join32(bytes[4 * i], bytes[4 * i + 1], bytes[4 * i + 2], bytes[4 * i + 3]))
  }

  /** The hash value after all full blocks of `bytes`. */
  function Blocks(h: State, bytes: seq<byte>): State
    decreases |bytes|
  {
    if |bytes| < 64 then h else Blocks(Compress(h, Words(bytes[..64])), bytes[64..])
  }

  /** The number of zero bytes in the padding: the least one that makes the length a multiple of 64. */
  function Zeros(len: nat): (k: nat)
    ensures k < 64 && (len + 1 + k + 8) % 64 == 0
  {
    (119 - len % 64) % 64
  }

  /** Padding: a 1 bit, zeros, and the length in bits as 64 bits. */
  function Pad(message: seq<byte>): (p: seq<byte>)
    ensures |p| % 64 == 0 && message <= p
  {
    message + [0x80] + seq(Zeros(|message|), _ => 0) + Digits(8 * |message|, 8)
  }

  function Bytes(s: State): (bytes: seq<byte>)
    ensures |bytes| == 20
  {
    Bytes32(s.a) + Bytes32(s.b) + Bytes32(s.c) + Bytes32(s.d) + Bytes32(s.e)
  }

  function Sha1(message: seq<byte>): (digest: seq<byte>)
    ensures |digest| == 20
  {
    Bytes(Blocks(INITIAL, Pad(message)))
  }

  /** Hashing goes block by block. */
  lemma {:induction false} BlocksSnoc(h: State, x: seq<byte>, y: seq<byte>)
    requires |x| % 64 == 0
    ensures Blocks(h, x + y) == Blocks(Blocks(h, x), y)
    decreases |x|
  {
    hide Compress, Words;
    if x == [] {
      assert x + y == y;
    } else {
      assert (x + y)[..64] == x[..64] && (x + y)[64..] == x[64..] + y;
      BlocksSnoc(Compress(h, Words(x[..64])), x[64..], y);
    }
  }

  /** One more block. */
  lemma BlocksOne(h: State, x: seq<byte>, block: seq<byte>)
    requires |x| % 64 == 0 && |block| == 64
    ensures Blocks(h, x + block) == Compress(Blocks(h, x), Words(block))
  {
    hide Compress, Words;
    BlocksSnoc(h, x, block);
    assert block[..64] == block;
  }
}
