/**
 The client's SHA-1: a schedule of 16 words that is overwritten as it is used, and five registers that change
 places instead of being shifted.
 */
module Sha1 {
  import opened Bits
  import opened Networking
  import opened Fips180

  const BLOCK_BYTES: nat := 64

  function Rol(value: Word, bits: bv6): Word
    requires 0 < bits < 32
  {
    (value << bits) | (value >> (32 - bits))
  }

  lemma RolIsRotate(x: Word)
    ensures Rol(x, 1) == Rotl1(x) && Rol(x, 5) == Rotl5(x) && Rol(x, 30) == Rotl30(x)
  {
  }

  /** The round functions as the client computes them. */
  function F1(w: Word, x: Word, y: Word): Word { (w & (x ^ y)) ^ y }
  function F2(w: Word, x: Word, y: Word): Word { w ^ x ^ y }
  function F3(w: Word, x: Word, y: Word): Word { ((w | x) & y) | (w & x) }

  lemma Distribute(w: Word, x: Word, y: Word)
    ensures w & (x ^ y) == (w & x) ^ (w & y)
  {
  }

  lemma Complement(w: Word, y: Word)
    ensures (w & y) ^ y == !w & y
  {
  }

  lemma Regroup(a: Word, b: Word, c: Word)
    ensures (a ^ b) ^ c == a ^ (b ^ c)
  {
  }

  lemma F1IsCh(w: Word, x: Word, y: Word)
    ensures F1(w, x, y) == Ch(w, x, y)
  {
    Distribute(w, x, y);
    Regroup(w & x, w & y, y);
    Complement(w, y);
  }

  lemma AnyTwo(w: Word, x: Word, y: Word)
    ensures F3(w, x, y) == (w & x) | (w & y) | (x & y)
  {
  }

  lemma MajIsAnyTwo(w: Word, x: Word, y: Word)
    ensures Maj(w, x, y) == (w & x) | (w & y) | (x & y)
  {
  }

  lemma F3IsMaj(w: Word, x: Word, y: Word)
    ensures F3(w, x, y) == Maj(w, x, y)
  {
    hide F3, Maj;
    AnyTwo(w, x, y);
    MajIsAnyTwo(w, x, y);
  }

  /** `z += f + block + k + v`. */
  function Added(z: Word, f: Word, word: Word, k: Word, v: Word): Word {
    z + (f + word + k + v)
  }

  lemma AddedIsSum5(z: Word, f: Word, word: Word, k: Word, v: Word)
    ensures Added(z, f, word, k, v) == Sum5(v, f, z, k, word)
  {
  }

  /** `i & 15`. */
  lemma Mask15(i: nat)
    ensures BitAnd(i, 15) == i % 16
  {
    assert BitAnd(1, 0) == 0;
    assert BitAnd(4, 3) == 0;
    assert IsPowerOfTwo(16);
    MaskIsMod(i, 16);
  }

  /**
   The 16 words are those of the schedule that come before `t`, each at its index modulo 16; in the first rounds,
   which only read them, they are those of the block.
   */
  ghost predicate Window(words: seq<Word>, m: seq<Word>, t: nat)
    requires |m| == 16
  {
    && |words| == 16
    && if t < 16 then words == m else forall j | t - 16 <= j < t :: words[j % 16] == W(m, j)
  }

  lemma WindowFull(words: seq<Word>, m: seq<Word>)
    requires |m| == 16 && Window(words, m, 15)
    ensures Window(words, m, 16)
  {
  }

  /** `blk`. */
  function Blk(block: seq<Word>, i: nat): Word
    requires |block| == 16 && i < 16
  {
    Mask15(i + 13);
    Mask15(i + 8);
    Mask15(i + 2);
    Rol(Xor4(block[BitAnd(i + 13, 15)], block[BitAnd(i + 8, 15)], block[BitAnd(i + 2, 15)], block[i]), 1)
  }

  /** The words that `blk` combines, in the place of round `t`. */
  lemma BlkOperands(t: nat, i: nat)
    requires t >= 16 && i == t % 16
    ensures BitAnd(i + 13, 15) == (t - 3) % 16 && BitAnd(i + 8, 15) == (t - 8) % 16
    ensures BitAnd(i + 2, 15) == (t - 14) % 16 && i == (t - 16) % 16
  {
    hide BitAnd;
    Mask15(i + 13);
    Mask15(i + 8);
    Mask15(i + 2);
    SameRemainder(t - 3, i + 13, t / 16 - 1);
    SameRemainder(t - 8, i + 8, t / 16 - 1);
    SameRemainder(t - 14, i + 2, t / 16 - 1);
    SameRemainder(t - 16, i, t / 16 - 1);
  }

  lemma SameRemainder(x: nat, y: nat, q: nat)
    requires x == 16 * q + y
    ensures x % 16 == y % 16
  {
  }

  /** `blk` computes the next word of the schedule. */
  lemma NextWord(words: seq<Word>, m: seq<Word>, t: nat, i: nat)
    requires |m| == 16 && t >= 16 && i == t % 16 && Window(words, m, t)
    ensures Blk(words, i) == W(m, t)
  {
    hide BitAnd, Xor4, Rotl1, Rol;
    BlkOperands(t, i);
    RolIsRotate(Xor4(W(m, t - 3), W(m, t - 8), W(m, t - 14), W(m, t - 16)));
  }

  /** It takes the place of the word that is needed no more. */
  lemma WindowSlides(words: seq<Word>, m: seq<Word>, t: nat, i: nat)
    requires |m| == 16 && t >= 16 && i == t % 16 && Window(words, m, t)
    ensures Window(words[i := W(m, t)], m, t + 1)
  {
    hide W;
    forall j | t - 15 <= j < t ensures j % 16 != i {
    }
  }

  // ---- the rounds --------------------------------------------------------------------------------------------

  /** Before round `t` of the block `m`: the schedule, and the registers in their rotated places. */
  ghost predicate Before(t: nat, h: State, m: seq<Word>, words: seq<Word>, s: State)
    requires |m| == 16
  {
    Window(words, m, t) && s == Rounds(h, m, t)
  }

  lemma Next(t: nat, h: State, m: seq<Word>, v: Word, w: Word, x: Word, y: Word, z: Word, f: Word)
    requires |m| == 16 && State(v, w, x, y, z) == Rounds(h, m, t) && f == F(t, w, x, y)
    ensures State(Added(z, f, W(m, t), K(t), Rol(v, 5)), v, Rol(w, 30), x, y) == Rounds(h, m, t + 1)
  {
    hide Rol, Rotl5, Rotl30, Added, Sum5, F, K, W;
    RolIsRotate(w);
    RolIsRotate(v);
    AddedIsSum5(z, f, W(m, t), K(t), Rol(v, 5));
  }

  method R0(block: array<Word>, v: Word, w: Word, x: Word, y: Word, z: Word, i: nat, ghost t: nat,
            ghost h: State, ghost m: seq<Word>)
    returns (w': Word, z': Word)
    requires |m| == 16 && block.Length == 16 && 0 <= t < 16 && i == t % 16
    requires Before(t, h, m, block[..], State(v, w, x, y, z))
    ensures Before(t + 1, h, m, block[..], State(z', v, w', x, y))
  {
    hide Rol, Added, F1, F2, F3, Rounds, W, Blk;
    if t == 15 {
      WindowFull(block[..], m);
    }
    assert block[i] == W(m, t) by {
      FirstWords(m, t);
    }
    z' := Added(z, F1(w, x, y), block[i], 0x5a827999, Rol(v, 5));
    w' := Rol(w, 30);
    RoundFunction(t, w, x, y);
    Next(t, h, m, v, w, x, y, z, F1(w, x, y));
  }

  method R1(block: array<Word>, v: Word, w: Word, x: Word, y: Word, z: Word, i: nat, ghost t: nat,
            ghost h: State, ghost m: seq<Word>)
    returns (w': Word, z': Word)
    requires |m| == 16 && block.Length == 16 && 16 <= t < 20 && i == t % 16
    requires Before(t, h, m, block[..], State(v, w, x, y, z))
    modifies block
    ensures Before(t + 1, h, m, block[..], State(z', v, w', x, y))
  {
    hide Rol, Added, F1, F2, F3, Rounds, W, Window, Blk;
    NextWord(block[..], m, t, i);
    WindowSlides(block[..], m, t, i);
    block[i] := Blk(block[..], i);
    z' := Added(z, F1(w, x, y), block[i], 0x5a827999, Rol(v, 5));
    w' := Rol(w, 30);
    RoundFunction(t, w, x, y);
    Next(t, h, m, v, w, x, y, z, F1(w, x, y));
  }

  method R2(block: array<Word>, v: Word, w: Word, x: Word, y: Word, z: Word, i: nat, ghost t: nat,
            ghost h: State, ghost m: seq<Word>)
    returns (w': Word, z': Word)
    requires |m| == 16 && block.Length == 16 && 20 <= t < 40 && i == t % 16
    requires Before(t, h, m, block[..], State(v, w, x, y, z))
    modifies block
    ensures Before(t + 1, h, m, block[..], State(z', v, w', x, y))
  {
    hide Rol, Added, F1, F2, F3, Rounds, W, Window, Blk;
    NextWord(block[..], m, t, i);
    WindowSlides(block[..], m, t, i);
    block[i] := Blk(block[..], i);
    z' := Added(z, F2(w, x, y), block[i], 0x6ed9eba1, Rol(v, 5));
    w' := Rol(w, 30);
    RoundFunction(t, w, x, y);
    Next(t, h, m, v, w, x, y, z, F2(w, x, y));
  }

  method R3(block: array<Word>, v: Word, w: Word, x: Word, y: Word, z: Word, i: nat, ghost t: nat,
            ghost h: State, ghost m: seq<Word>)
    returns (w': Word, z': Word)
    requires |m| == 16 && block.Length == 16 && 40 <= t < 60 && i == t % 16
    requires Before(t, h, m, block[..], State(v, w, x, y, z))
    modifies block
    ensures Before(t + 1, h, m, block[..], State(z', v, w', x, y))
  {
    hide Rol, Added, F1, F2, F3, Rounds, W, Window, Blk;
    NextWord(block[..], m, t, i);
    WindowSlides(block[..], m, t, i);
    block[i] := Blk(block[..], i);
    z' := Added(z, F3(w, x, y), block[i], 0x8f1bbcdc, Rol(v, 5));
    w' := Rol(w, 30);
    RoundFunction(t, w, x, y);
    Next(t, h, m, v, w, x, y, z, F3(w, x, y));
  }

  method R4(block: array<Word>, v: Word, w: Word, x: Word, y: Word, z: Word, i: nat, ghost t: nat,
            ghost h: State, ghost m: seq<Word>)
    returns (w': Word, z': Word)
    requires |m| == 16 && block.Length == 16 && 60 <= t < 80 && i == t % 16
    requires Before(t, h, m, block[..], State(v, w, x, y, z))
    modifies block
    ensures Before(t + 1, h, m, block[..], State(z', v, w', x, y))
  {
    hide Rol, Added, F1, F2, F3, Rounds, W, Window, Blk;
    NextWord(block[..], m, t, i);
    WindowSlides(block[..], m, t, i);
    block[i] := Blk(block[..], i);
    z' := Added(z, F2(w, x, y), block[i], 0xca62c1d6, Rol(v, 5));
    w' := Rol(w, 30);
    RoundFunction(t, w, x, y);
    Next(t, h, m, v, w, x, y, z, F2(w, x, y));
  }

  lemma FirstWords(m: seq<Word>, t: nat)
    requires |m| == 16 && t < 16
    ensures W(m, t) == m[t]
  {
  }

  lemma RoundFunction(t: nat, w: Word, x: Word, y: Word)
    ensures F(t, w, x, y) == if t < 20 then F1(w, x, y) else if 40 <= t < 60 then F3(w, x, y) else F2(w, x, y)
  {
    hide F1, F2, F3, Ch, Parity, Maj;
    F1IsCh(w, x, y);
    F2IsParity(w, x, y);
    F3IsMaj(w, x, y);
  }

  lemma F2IsParity(w: Word, x: Word, y: Word)
    ensures F2(w, x, y) == Parity(w, x, y)
  {
  }

  method Rounds0(block: array<Word>, s: State, ghost h: State, ghost m: seq<Word>) returns (s': State)
    requires |m| == 16 && block.Length == 16 && Before(0, h, m, block[..], s)
    modifies block
    ensures Before(20, h, m, block[..], s')
  {
    hide *;
    var a, b, c, d, e := s.a, s.b, s.c, s.d, s.e;
    b, e := R0(block, a, b, c, d, e, 0, 0, h, m);
    a, d := R0(block, e, a, b, c, d, 1, 1, h, m);
    e, c := R0(block, d, e, a, b, c, 2, 2, h, m);
    d, b := R0(block, c, d, e, a, b, 3, 3, h, m);
    c, a := R0(block, b, c, d, e, a, 4, 4, h, m);
    b, e := R0(block, a, b, c, d, e, 5, 5, h, m);
    a, d := R0(block, e, a, b, c, d, 6, 6, h, m);
    e, c := R0(block, d, e, a, b, c, 7, 7, h, m);
    d, b := R0(block, c, d, e, a, b, 8, 8, h, m);
    c, a := R0(block, b, c, d, e, a, 9, 9, h, m);
    b, e := R0(block, a, b, c, d, e, 10, 10, h, m);
    a, d := R0(block, e, a, b, c, d, 11, 11, h, m);
    e, c := R0(block, d, e, a, b, c, 12, 12, h, m);
    d, b := R0(block, c, d, e, a, b, 13, 13, h, m);
    c, a := R0(block, b, c, d, e, a, 14, 14, h, m);
    b, e := R0(block, a, b, c, d, e, 15, 15, h, m);
    a, d := R1(block, e, a, b, c, d, 0, 16, h, m);
    e, c := R1(block, d, e, a, b, c, 1, 17, h, m);
    d, b := R1(block, c, d, e, a, b, 2, 18, h, m);
    c, a := R1(block, b, c, d, e, a, 3, 19, h, m);
    s' := State(a, b, c, d, e);
  }

  method Rounds20(block: array<Word>, s: State, ghost h: State, ghost m: seq<Word>) returns (s': State)
    requires |m| == 16 && block.Length == 16 && Before(20, h, m, block[..], s)
    modifies block
    ensures Before(40, h, m, block[..], s')
  {
    hide *;
    var a, b, c, d, e := s.a, s.b, s.c, s.d, s.e;
    b, e := R2(block, a, b, c, d, e, 4, 20, h, m);
    a, d := R2(block, e, a, b, c, d, 5, 21, h, m);
    e, c := R2(block, d, e, a, b, c, 6, 22, h, m);
    d, b := R2(block, c, d, e, a, b, 7, 23, h, m);
    c, a := R2(block, b, c, d, e, a, 8, 24, h, m);
    b, e := R2(block, a, b, c, d, e, 9, 25, h, m);
    a, d := R2(block, e, a, b, c, d, 10, 26, h, m);
    e, c := R2(block, d, e, a, b, c, 11, 27, h, m);
    d, b := R2(block, c, d, e, a, b, 12, 28, h, m);
    c, a := R2(block, b, c, d, e, a, 13, 29, h, m);
    b, e := R2(block, a, b, c, d, e, 14, 30, h, m);
    a, d := R2(block, e, a, b, c, d, 15, 31, h, m);
    e, c := R2(block, d, e, a, b, c, 0, 32, h, m);
    d, b := R2(block, c, d, e, a, b, 1, 33, h, m);
    c, a := R2(block, b, c, d, e, a, 2, 34, h, m);
    b, e := R2(block, a, b, c, d, e, 3, 35, h, m);
    a, d := R2(block, e, a, b, c, d, 4, 36, h, m);
    e, c := R2(block, d, e, a, b, c, 5, 37, h, m);
    d, b := R2(block, c, d, e, a, b, 6, 38, h, m);
    c, a := R2(block, b, c, d, e, a, 7, 39, h, m);
    s' := State(a, b, c, d, e);
  }

  method Rounds40(block: array<Word>, s: State, ghost h: State, ghost m: seq<Word>) returns (s': State)
    requires |m| == 16 && block.Length == 16 && Before(40, h, m, block[..], s)
    modifies block
    ensures Before(60, h, m, block[..], s')
  {
    hide *;
    var a, b, c, d, e := s.a, s.b, s.c, s.d, s.e;
    b, e := R3(block, a, b, c, d, e, 8, 40, h, m);
    a, d := R3(block, e, a, b, c, d, 9, 41, h, m);
    e, c := R3(block, d, e, a, b, c, 10, 42, h, m);
    d, b := R3(block, c, d, e, a, b, 11, 43, h, m);
    c, a := R3(block, b, c, d, e, a, 12, 44, h, m);
    b, e := R3(block, a, b, c, d, e, 13, 45, h, m);
    a, d := R3(block, e, a, b, c, d, 14, 46, h, m);
    e, c := R3(block, d, e, a, b, c, 15, 47, h, m);
    d, b := R3(block, c, d, e, a, b, 0, 48, h, m);
    c, a := R3(block, b, c, d, e, a, 1, 49, h, m);
    b, e := R3(block, a, b, c, d, e, 2, 50, h, m);
    a, d := R3(block, e, a, b, c, d, 3, 51, h, m);
    e, c := R3(block, d, e, a, b, c, 4, 52, h, m);
    d, b := R3(block, c, d, e, a, b, 5, 53, h, m);
    c, a := R3(block, b, c, d, e, a, 6, 54, h, m);
    b, e := R3(block, a, b, c, d, e, 7, 55, h, m);
    a, d := R3(block, e, a, b, c, d, 8, 56, h, m);
    e, c := R3(block, d, e, a, b, c, 9, 57, h, m);
    d, b := R3(block, c, d, e, a, b, 10, 58, h, m);
    c, a := R3(block, b, c, d, e, a, 11, 59, h, m);
    s' := State(a, b, c, d, e);
  }

  method Rounds60(block: array<Word>, s: State, ghost h: State, ghost m: seq<Word>) returns (s': State)
    requires |m| == 16 && block.Length == 16 && Before(60, h, m, block[..], s)
    modifies block
    ensures Before(80, h, m, block[..], s')
  {
    hide *;
    var a, b, c, d, e := s.a, s.b, s.c, s.d, s.e;
    b, e := R4(block, a, b, c, d, e, 12, 60, h, m);
    a, d := R4(block, e, a, b, c, d, 13, 61, h, m);
    e, c := R4(block, d, e, a, b, c, 14, 62, h, m);
    d, b := R4(block, c, d, e, a, b, 15, 63, h, m);
    c, a := R4(block, b, c, d, e, a, 0, 64, h, m);
    b, e := R4(block, a, b, c, d, e, 1, 65, h, m);
    a, d := R4(block, e, a, b, c, d, 2, 66, h, m);
    e, c := R4(block, d, e, a, b, c, 3, 67, h, m);
    d, b := R4(block, c, d, e, a, b, 4, 68, h, m);
    c, a := R4(block, b, c, d, e, a, 5, 69, h, m);
    b, e := R4(block, a, b, c, d, e, 6, 70, h, m);
    a, d := R4(block, e, a, b, c, d, 7, 71, h, m);
    e, c := R4(block, d, e, a, b, c, 8, 72, h, m);
    d, b := R4(block, c, d, e, a, b, 9, 73, h, m);
    c, a := R4(block, b, c, d, e, a, 10, 74, h, m);
    b, e := R4(block, a, b, c, d, e, 11, 75, h, m);
    a, d := R4(block, e, a, b, c, d, 12, 76, h, m);
    e, c := R4(block, d, e, a, b, c, 13, 77, h, m);
    d, b := R4(block, c, d, e, a, b, 14, 78, h, m);
    c, a := R4(block, b, c, d, e, a, 15, 79, h, m);
    s' := State(a, b, c, d, e);
  }

  // ---- hashing -----------------------------------------------------------------------------------------------

  /** The 32 low bits of a number, as a word. */
  function ToWord(n: nat): Word {
    var s := Digits(n, 4);
    Join32(s[0], s[1], s[2], s[3])
  }

  /** The last, incomplete block of a message. */
  function Tail(message: seq<byte>): (tail: seq<byte>)
    ensures |tail| == |message| % 64
  {
    message[|message| - |message| % 64..]
  }

  /** Everything before it. */
  function Full(message: seq<byte>): (full: seq<byte>)
    ensures |full| % 64 == 0 && full + Tail(message) == message
  {
    message[..|message| - |message| % 64]
  }

  lemma FullAndTail(full: seq<byte>, tail: seq<byte>)
    requires |full| % 64 == 0 && |tail| < 64
    ensures Full(full + tail) == full && Tail(full + tail) == tail
  {
  }

  function StateOf(digest: seq<Word>): State
    requires |digest| == 5
  {
    State(digest[0], digest[1], digest[2], digest[3], digest[4])
  }

  const UINT64_SIZE: nat := 0x1_0000_0000_0000_0000

  method AllRounds(block: array<Word>, s: State, ghost h: State, ghost m: seq<Word>) returns (s': State)
    requires block.Length == 16 && m == block[..] && s == h
    modifies block
    ensures s' == Rounds(h, m, 80)
  {
    hide Rounds, W;
    Start(h, m);
    s' := Rounds0(block, s, h, m);
    s' := Rounds20(block, s', h, m);
    s' := Rounds40(block, s', h, m);
    s' := Rounds60(block, s', h, m);
  }

  class SHA1 {
    const digest: array<Word>
    var buffer: seq<byte>
    var transforms: nat  // an unsigned 64-bit counter

    ghost var message: seq<byte>  // everything since the object was created or reset

    /** The object has hashed the full blocks of the message and holds the rest. */
    ghost predicate Valid()
      reads this, digest
    {
      && digest.Length == 5
      && buffer == Tail(message)
      && StateOf(digest[..]) == Blocks(INITIAL, Full(message))
      && transforms == |message| / 64 % UINT64_SIZE
    }

    constructor ()
      ensures Valid() && message == [] && fresh(digest)
    {
      digest := new Word[5];
      new;
      Reset();
    }

    method Reset()
      requires digest.Length == 5
      modifies this, digest
      ensures Valid() && message == []
    {
      digest[0], digest[1], digest[2], digest[3], digest[4] :=
        0x67452301, 0xefcdab89, 0x98badcfe, 0x10325476, 0xc3d2e1f0;
      buffer := [];
      transforms := 0;
      message := [];
    }

    /** Hash one block. The schedule is used up. */
    method Transform(block: array<Word>)
      requires digest.Length == 5 && block.Length == 16 && block != digest
      modifies this`transforms, digest, block
      ensures StateOf(digest[..]) == Compress(old(StateOf(digest[..])), old(block[..]))
      ensures transforms == (old(transforms) + 1) % UINT64_SIZE
    {
      hide Rounds, Plus;
      ghost var h, m := StateOf(digest[..]), block[..];
      var s := AllRounds(block, State(digest[0], digest[1], digest[2], digest[3], digest[4]), h, m);
      digest[0] := Plus(digest[0], s.a);
      digest[1] := Plus(digest[1], s.b);
      digest[2] := Plus(digest[2], s.c);
      digest[3] := Plus(digest[3], s.d);
      digest[4] := Plus(digest[4], s.e);
      transforms := (transforms + 1) % UINT64_SIZE;
    }

    /** The words of a 64-byte buffer. */
    method BufferToBlock(bytes: seq<byte>) returns (block: array<Word>)
      requires |bytes| == 64
      ensures fresh(block) && block.Length == 16 && block[..] == Words(bytes)
    {
      hide Join32;
      block := new Word[16];
      for i := 0 to 16
        invariant block[..i] == Words(bytes)[..i]
      {
        block[i] := Join32(bytes[4 * i], bytes[4 * i + 1], bytes[4 * i + 2], bytes[4 * i + 3]);
      }
    }

    /** Continue the message: any split of it into updates leads to the same state. */
    method Update(s: seq<byte>)
      requires Valid()
      modifies this, digest
      ensures Valid() && message == old(message) + s
    {
      hide Blocks, Words, StateOf, Full, Tail;
      var pos := 0;
      while true
        invariant Valid() && pos <= |s| && message == old(message) + s[..pos]
        decreases |s| - pos
      {
        var n := if BLOCK_BYTES - |buffer| < |s| - pos then BLOCK_BYTES - |buffer| else |s| - pos;
        var more := s[pos..pos + n];
        assert s[..pos] + more == s[..pos + n];
        buffer := buffer + more;
        pos := pos + n;
        if |buffer| != BLOCK_BYTES {
          GrowTail(message, more);
          message := message + more;
          return;
        }
        HashBuffer(more);
      }
    }

    /** The buffer has been filled up with `more`: hash it. */
    method HashBuffer(ghost more: seq<byte>)
      requires digest.Length == 5 && buffer == Tail(message) + more && |buffer| == BLOCK_BYTES
      requires StateOf(digest[..]) == Blocks(INITIAL, Full(message)) && transforms == |message| / 64 % UINT64_SIZE
      modifies this, digest
      ensures Valid() && message == old(message) + more
    {
      hide Blocks, Words, StateOf, Compress;
      FillTail(message, more);
      BlocksOne(INITIAL, Full(message), buffer);
      var block := BufferToBlock(buffer);
      Transform(block);
      buffer := [];
      message := message + more;
    }

    /** Pad and hash what is left, return the digest, and start over. */
    method FinalBytes() returns (result: seq<byte>)
      requires Valid()
      modifies this, digest
      ensures result == Sha1(old(message))
      ensures Valid() && message == []
    {
      hide Blocks, Words, Digits, Compress, Pad, Full, StateOf, LastBlocks;
      var totalBits := ((transforms * BLOCK_BYTES + |buffer|) * 8) % UINT64_SIZE;
      TotalBits(message);
      Padded(message, totalBits);
      HashTail(totalBits);
      result := DigestBytes();
      Reset();
    }

    /** Hash the last, partial block, marked and followed by the length, in one block or two. */
    method HashTail(totalBits: nat)
      requires digest.Length == 5 && |buffer| < BLOCK_BYTES
      modifies this`buffer, this`transforms, digest
      ensures StateOf(digest[..]) == LastBlocks(old(StateOf(digest[..])), old(buffer), totalBits)
    {
      hide Words, Compress, StateOf, ToWord;
      ghost var tail, h := buffer, StateOf(digest[..]);
      buffer := buffer + [0x80];
      var origSize := |buffer|;
      buffer := buffer + seq(BLOCK_BYTES - origSize, _ => 0);
      assert buffer == Marked(tail);
      var block := BufferToBlock(buffer);
      if origSize > BLOCK_BYTES - 8 {
        Transform(block);
        for i := 0 to 14
          invariant forall j | 0 <= j < i :: block[j] == 0
          invariant StateOf(digest[..]) == Compress(h, Words(Marked(tail)))
          modifies block
        {
          block[i] := 0;
        }
      }
      block[15] := ToWord(totalBits);
      block[14] := ToWord(totalBits / 0x1_0000_0000);
      assert block[..] == WithLength(if |tail| < 56 then Words(Marked(tail)) else seq(16, _ => 0), totalBits);
      Transform(block);
    }

    method DigestBytes() returns (result: seq<byte>)
      requires digest.Length == 5
      ensures result == Bytes(StateOf(digest[..]))
    {
      hide Bytes32;
      result := [];
      for i := 0 to 5
        invariant |result| == 4 * i
        invariant forall j | 0 <= j < i :: result[4 * j..4 * j + 4] == Bytes32(digest[j])
      {
        ghost var before := result;
        result := result + Bytes32(digest[i]);
        assert forall j | 0 <= j < i :: result[4 * j..4 * j + 4] == before[4 * j..4 * j + 4];
        assert result[4 * i..4 * i + 4] == Bytes32(digest[i]);
      }
      assert result == result[0..4] + result[4..8] + result[8..12] + result[12..16] + result[16..20] by {
        assert result == result[4 * 0..4 * 0 + 4] + result[4 * 1..4 * 1 + 4] + result[4 * 2..4 * 2 + 4]
                         + result[4 * 3..4 * 3 + 4] + result[4 * 4..4 * 4 + 4];
      }
    }
  }

  lemma Start(h: State, m: seq<Word>)
    requires |m| == 16
    ensures Before(0, h, m, m, h)
  {
  }

  /** Adding to the last block without filling it. */
  lemma GrowTail(message: seq<byte>, more: seq<byte>)
    requires |Tail(message)| + |more| < 64
    ensures Full(message + more) == Full(message) && Tail(message + more) == Tail(message) + more
    ensures |message + more| / 64 == |message| / 64
  {
    assert message + more == Full(message) + (Tail(message) + more);
    FullAndTail(Full(message), Tail(message) + more);
  }

  /** Filling it. */
  lemma FillTail(message: seq<byte>, more: seq<byte>)
    requires |Tail(message)| + |more| == 64
    ensures Full(message + more) == Full(message) + (Tail(message) + more) && Tail(message + more) == []
    ensures |message + more| / 64 % UINT64_SIZE == (|message| / 64 % UINT64_SIZE + 1) % UINT64_SIZE
  {
    hide Full, Tail;
    assert message + more == Full(message) + (Tail(message) + more) + [];
    FullAndTail(Full(message) + (Tail(message) + more), []);
    assert Full(message) + (Tail(message) + more) + [] == Full(message) + (Tail(message) + more);
    NextBlock(|message|, |more|);
  }

  lemma NextBlock(n: nat, k: nat)
    requires n % 64 + k == 64
    ensures (n + k) / 64 % UINT64_SIZE == (n / 64 % UINT64_SIZE + 1) % UINT64_SIZE
  {
    var q := n / 64;
    assert (n + k) / 64 == q + 1;
    var r := q % UINT64_SIZE;
    var next := if r + 1 == UINT64_SIZE then 0 else r + 1;
    ModUnique(q + 1, UINT64_SIZE, q / UINT64_SIZE + (if r + 1 == UINT64_SIZE then 1 else 0), next);
    ModUnique(r + 1, UINT64_SIZE, if r + 1 == UINT64_SIZE then 1 else 0, next);
  }

  /** The number of bits the padding records, as far as 64 bits hold it. */
  lemma TotalBits(message: seq<byte>)
    ensures ((|message| / 64 % UINT64_SIZE * 64 + |message| % 64) * 8) % UINT64_SIZE == 8 * |message| % UINT64_SIZE
  {
    var k, r := |message| / 64, |message| % 64;
    var t := (k % UINT64_SIZE * 64 + r) * 8;
    ModUnique(8 * |message|, UINT64_SIZE, 512 * (k / UINT64_SIZE) + t / UINT64_SIZE, t % UINT64_SIZE);
  }

  /** A block's last two words replaced by a length in bits. */
  function WithLength(words: seq<Word>, bits: nat): (ws: seq<Word>)
    requires |words| == 16
    ensures |ws| == 16
  {
    words[15 := ToWord(bits)][14 := ToWord(bits / 0x1_0000_0000)]
  }

  lemma LengthWords(front: seq<byte>, back: seq<byte>, bits: nat)
    requires |front| == 56 && |back| == 8
    ensures Words(front + Digits(bits, 8)) == WithLength(Words(front + back), bits)
  {
    hide Digits, Join32;
    DigitsHalves(bits);
    var d, hi, lo := Digits(bits, 8), Digits(bits / 0x1_0000_0000, 4), Digits(bits, 4);
    assert d == [hi[0], hi[1], hi[2], hi[3], lo[0], lo[1], lo[2], lo[3]];
  }

  /** The last, partial block with the 1 bit, filled up with zeros. */
  function Marked(tail: seq<byte>): (block: seq<byte>)
    requires |tail| < 64
    ensures |block| == 64
  {
    tail + [0x80] + seq(63 - |tail|, _ => 0)
  }

  function Blank(len: nat): (bytes: seq<byte>)
    ensures |bytes| == len
  {
    seq(len, _ => 0)
  }

  lemma BlankWords()
    ensures Words(Blank(64)) == seq(16, _ => 0)
  {
    assert Join32(0, 0, 0, 0) == 0;
  }

  /** The padded message: its full blocks, and one block or two more. */
  lemma PadBlocks(message: seq<byte>, bits: nat)
    requires bits == 8 * |message| % UINT64_SIZE
    ensures var tail := Tail(message);
            Pad(message) == Full(message) +
              if |tail| < 56 then tail + [0x80] + Blank(55 - |tail|) + Digits(bits, 8)
              else Marked(tail) + (Blank(56) + Digits(bits, 8))
  {
    hide Digits;
    assert Power256(8) == UINT64_SIZE by {
      assert Power256(4) == 0x1_0000_0000;
    }
    DigitsModulo(8 * |message|, 8);
  }

  /** What is hashed after the full blocks of a message. */
  lemma Padded(message: seq<byte>, bits: nat)
    requires bits == 8 * |message| % UINT64_SIZE
    ensures Blocks(INITIAL, Pad(message)) == LastBlocks(Blocks(INITIAL, Full(message)), Tail(message), bits)
  {
    hide Blocks, Digits, Compress, Pad, Full, Tail, Words, WithLength;
    var full, tail, d := Full(message), Tail(message), Digits(bits, 8);
    PadBlocks(message, bits);
    if |tail| < 56 {
      var front := tail + [0x80] + Blank(55 - |tail|);
      assert front + Blank(8) == Marked(tail);
      LengthWords(front, Blank(8), bits);
      BlocksOne(INITIAL, full, front + d);
    } else {
      BlankWords();
      assert Blank(56) + Blank(8) == Blank(64);
      LengthWords(Blank(56), Blank(8), bits);
      BlocksOne(INITIAL, full, Marked(tail));
      BlocksOne(INITIAL, full + Marked(tail), Blank(56) + d);
      assert full + Marked(tail) + (Blank(56) + d) == full + (Marked(tail) + (Blank(56) + d));
    }
  }

  /** The state after the last blocks: one if the 1 bit and the length fit behind `tail`, else two. */
  function LastBlocks(h: State, tail: seq<byte>, bits: nat): State
    requires |tail| < 64
  {
    if |tail| < 56 then Compress(h, WithLength(Words(Marked(tail)), bits))
    else Compress(Compress(h, Words(Marked(tail))), WithLength(seq(16, _ => 0), bits))
  }
}
