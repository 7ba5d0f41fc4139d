/**
 Masking a payload in place, in aligned chunks, against the byte-by-byte rule of section 5.3 of RFC 6455.
 A key is its four bytes as they sit in memory, which is also how they go out on the wire.
 */
module MaskKey {
  import opened Bits
  import opened Networking
  import opened Seqs

  function Xor(a: byte, b: byte): byte {
    a ^ b
  }

  /** The rule of RFC 6455: byte `i` is combined with key byte `i` modulo 4. */
  function Bytewise(key: seq<byte>, s: seq<byte>): (t: seq<byte>)
    requires |key| == 4
  {
    seq(|s|, i requires 0 <= i < |s| => Xor(s[i], key[i % 4]))
  }

  predicate IsChunkSize(align: nat) {
    align == 8 || align == 16
  }

  /** `x & (align - 1)`, for the two chunk sizes. */
  function Rem(x: nat, align: nat): (r: nat)
    requires IsChunkSize(align)
    ensures r < align && r <= x
  {
    if align == 8 then x % 8 else x % 16
  }

  /** How many bytes come before the first aligned address. */
  function Lead(addr: nat, align: nat, len: nat): (n: nat)
    requires IsChunkSize(align)
    ensures n <= len && n < align
  {
    var unaligned := if Rem(addr, align) == 0 then 0 else align - Rem(addr, align);
    if unaligned > len then len else unaligned
  }

  /** Where the last full chunk ends. */
  function ChunksEnd(addr: nat, align: nat, len: nat): (n: nat)
    requires IsChunkSize(align)
    ensures Lead(addr, align, len) <= n <= len && len < n + align
    ensures Rem(n - Lead(addr, align, len), align) == 0
  {
    len - Rem(len - Lead(addr, align, len), align)
  }

  /** The key byte that byte `i` of the data is combined with: in the chunks the key starts over at the first one. */
  function KeyIndex(addr: nat, align: nat, len: nat, i: nat): (k: nat)
    requires IsChunkSize(align)
    ensures k < 4
  {
    var lead := Lead(addr, align, len);
    if lead <= i < ChunksEnd(addr, align, len) then (i - lead) % 4 else i % 4
  }

  /** What masking data at address `addr` makes of it. */
  function Masked(addr: nat, align: nat, key: seq<byte>, s: seq<byte>): (t: seq<byte>)
    requires IsChunkSize(align) && |key| == 4
    ensures |t| == |s|
  {
    seq(|s|, i requires 0 <= i < |s| => Xor(s[i], key[KeyIndex(addr, align, |s|, i)]))
  }

  // ---- the chunk kernels -------------------------------------------------------------------------------------

  function Load32(e: Endian, s: seq<byte>): bv32
    requires |s| == 4
  {
    if e == Little then Join32(s[3], s[2], s[1], s[0]) else Join32(s[0], s[1], s[2], s[3])
  }

  function Image32(e: Endian, v: bv32): (s: seq<byte>)
    ensures |s| == 4
  {
    var b := Bytes32(v);
    if e == Little then [b[3], b[2], b[1], b[0]] else b
  }

  // Facts about bit-vectors alone.

  lemma SplitJoined32(b3: byte, b2: byte, b1: byte, b0: byte)
    ensures Bytes32(Join32(b3, b2, b1, b0)) == [b3, b2, b1, b0]
  {
  }

  lemma XorJoined32(a3: byte, a2: byte, a1: byte, a0: byte, b3: byte, b2: byte, b1: byte, b0: byte)
    ensures Xor32(Join32(a3, a2, a1, a0), Join32(b3, b2, b1, b0)) ==
            Join32(Xor(a3, b3), Xor(a2, b2), Xor(a1, b1), Xor(a0, b0))
  {
  }

  lemma XorJoined64(a7: byte, a6: byte, a5: byte, a4: byte, a3: byte, a2: byte, a1: byte, a0: byte,
                    b7: byte, b6: byte, b5: byte, b4: byte, b3: byte, b2: byte, b1: byte, b0: byte)
    ensures Xor64(Join64(a7, a6, a5, a4, a3, a2, a1, a0), Join64(b7, b6, b5, b4, b3, b2, b1, b0)) ==
            Join64(Xor(a7, b7), Xor(a6, b6), Xor(a5, b5), Xor(a4, b4),
                   Xor(a3, b3), Xor(a2, b2), Xor(a1, b1), Xor(a0, b0))
  {
  }

  /** The key twice, side by side. */
  function Twice(k: bv32): bv64 {
    (k as bv64 << 32) | k as bv64
  }

  function Widened(k: bv32): bv64 { k as bv64 }
  function Doubled(w: bv64): bv64 { (w << 32) | w }

  function LowHalf(b3: byte, b2: byte, b1: byte, b0: byte): bv64 {
    (b3 as bv64 << 24) | (b2 as bv64 << 16) | (b1 as bv64 << 8) | b0 as bv64
  }

  lemma WidenedJoined(k3: byte, k2: byte, k1: byte, k0: byte)
    ensures Widened(Join32(k3, k2, k1, k0)) == LowHalf(k3, k2, k1, k0)
  {
  }

  lemma DoubledHalf(k3: byte, k2: byte, k1: byte, k0: byte)
    ensures Doubled(LowHalf(k3, k2, k1, k0)) == Join64(k3, k2, k1, k0, k3, k2, k1, k0)
  {
  }

  lemma TwiceIsDoubled(k: bv32)
    ensures Twice(k) == Doubled(Widened(k))
  {
  }

  lemma TwiceJoined(k3: byte, k2: byte, k1: byte, k0: byte)
    ensures Twice(Join32(k3, k2, k1, k0)) == Join64(k3, k2, k1, k0, k3, k2, k1, k0)
  {
    hide *;
    WidenedJoined(k3, k2, k1, k0);
    DoubledHalf(k3, k2, k1, k0);
    TwiceIsDoubled(Join32(k3, k2, k1, k0));
  }

  function Xor64(v: bv64, w: bv64): bv64 {
    v ^ w
  }

  function Xor32(v: bv32, w: bv32): bv32 {
    v ^ w
  }

  /** One 32-bit lane: load, combine with the key, store. */
  function Lane(e: Endian, key: seq<byte>, s: seq<byte>): (t: seq<byte>)
    requires |key| == 4 && |s| == 4
    ensures |t| == 4
  {
    Image32(e, Xor32(Load32(e, s), Load32(e, key)))
  }

  lemma LaneIsBytewise(e: Endian, key: seq<byte>, s: seq<byte>)
    requires |key| == 4 && |s| == 4
    ensures Lane(e, key, s) == Bytewise(key, s)
  {
    hide Join32, Bytes32, Xor, Xor32, Image32, Bytewise;
    Bytewise4(key, s);
    if e == Little {
      XorJoined32(s[3], s[2], s[1], s[0], key[3], key[2], key[1], key[0]);
      SplitJoined32(Xor(s[3], key[3]), Xor(s[2], key[2]), Xor(s[1], key[1]), Xor(s[0], key[0]));
    } else {
      XorJoined32(s[0], s[1], s[2], s[3], key[0], key[1], key[2], key[3]);
      SplitJoined32(Xor(s[0], key[0]), Xor(s[1], key[1]), Xor(s[2], key[2]), Xor(s[3], key[3]));
    }
    ImageOf32(e, Xor32(Load32(e, s), Load32(e, key)));
  }

  lemma ImageOf32(e: Endian, v: bv32)
    ensures var b := Bytes32(v); Image32(e, v) == if e == Little then [b[3], b[2], b[1], b[0]] else b
  {
    hide Bytes32;
  }

  lemma Bytewise4(key: seq<byte>, s: seq<byte>)
    requires |key| == 4 && |s| == 4
    ensures Bytewise(key, s) == [Xor(s[0], key[0]), Xor(s[1], key[1]), Xor(s[2], key[2]), Xor(s[3], key[3])]
  {
    hide Xor;
  }

  /** The 64-bit kernel: the key twice, side by side. */
  function Chunk64(e: Endian, key: seq<byte>, s: seq<byte>): (t: seq<byte>)
    requires |key| == 4 && |s| == 8
    ensures |t| == 8
  {
    Image64(e, Xor64(Load64(e, s), Twice(Load32(e, key))))
  }

  /** The 64-bit kernel combines every byte of a chunk with the key byte of its position in the chunk. */
  lemma Chunk64IsBytewise(e: Endian, key: seq<byte>, s: seq<byte>)
    requires |key| == 4 && |s| == 8
    ensures Chunk64(e, key, s) == Bytewise(key, s)
  {
    hide *;
    if e == Little {
      Chunk64IsBytewiseLittle(key, s);
    } else {
      Chunk64IsBytewiseBig(key, s);
    }
  }

  lemma XoredBytes(a7: byte, a6: byte, a5: byte, a4: byte, a3: byte, a2: byte, a1: byte, a0: byte,
                   k3: byte, k2: byte, k1: byte, k0: byte)
    ensures Bytes64(Xor64(Join64(a7, a6, a5, a4, a3, a2, a1, a0), Twice(Join32(k3, k2, k1, k0)))) ==
            [Xor(a7, k3), Xor(a6, k2), Xor(a5, k1), Xor(a4, k0), Xor(a3, k3), Xor(a2, k2), Xor(a1, k1), Xor(a0, k0)]
  {
    hide *;
    TwiceJoined(k3, k2, k1, k0);
    XorJoined64(a7, a6, a5, a4, a3, a2, a1, a0, k3, k2, k1, k0, k3, k2, k1, k0);
    SplitJoined64(Xor(a7, k3), Xor(a6, k2), Xor(a5, k1), Xor(a4, k0),
                  Xor(a3, k3), Xor(a2, k2), Xor(a1, k1), Xor(a0, k0));
  }

  lemma Bytewise8(key: seq<byte>, s: seq<byte>)
    requires |key| == 4 && |s| == 8
    ensures Bytewise(key, s) ==
            [Xor(s[0], key[0]), Xor(s[1], key[1]), Xor(s[2], key[2]), Xor(s[3], key[3]),
             Xor(s[4], key[0]), Xor(s[5], key[1]), Xor(s[6], key[2]), Xor(s[7], key[3])]
  {
    hide Xor;
  }

  lemma Chunk64IsBytewiseLittle(key: seq<byte>, s: seq<byte>)
    requires |key| == 4 && |s| == 8
    ensures Chunk64(Little, key, s) == Bytewise(key, s)
  {
    hide Join32, Bytes32, Join64, Bytes64, Twice, Xor64, Xor, Bytewise;
    XoredBytes(s[7], s[6], s[5], s[4], s[3], s[2], s[1], s[0], key[3], key[2], key[1], key[0]);
    Bytewise8(key, s);
  }

  lemma Chunk64IsBytewiseBig(key: seq<byte>, s: seq<byte>)
    requires |key| == 4 && |s| == 8
    ensures Chunk64(Big, key, s) == Bytewise(key, s)
  {
    hide Join32, Bytes32, Join64, Bytes64, Twice, Xor64, Xor, Bytewise;
    XoredBytes(s[0], s[1], s[2], s[3], s[4], s[5], s[6], s[7], key[0], key[1], key[2], key[3]);
    Bytewise8(key, s);
  }

  /** The 128-bit kernels (SSE2 and NEON): four 32-bit lanes. */
  function Chunk128(e: Endian, key: seq<byte>, s: seq<byte>): (t: seq<byte>)
    requires |key| == 4 && |s| == 16
    ensures |t| == 16
  {
    Lane(e, key, s[..4]) + Lane(e, key, s[4..8]) + Lane(e, key, s[8..12]) + Lane(e, key, s[12..])
  }

  /** So do the 128-bit kernels. */
  lemma Chunk128IsBytewise(e: Endian, key: seq<byte>, s: seq<byte>)
    requires |key| == 4 && |s| == 16
    ensures Chunk128(e, key, s) == Bytewise(key, s)
  {
    hide Lane, Xor;
    LaneIsBytewise(e, key, s[..4]);
    LaneIsBytewise(e, key, s[4..8]);
    LaneIsBytewise(e, key, s[8..12]);
    LaneIsBytewise(e, key, s[12..]);
    BytewiseLanes(key, s);
  }

  lemma BytewiseLanes(key: seq<byte>, s: seq<byte>)
    requires |key| == 4 && |s| == 16
    ensures Bytewise(key, s) ==
            Bytewise(key, s[..4]) + Bytewise(key, s[4..8]) + Bytewise(key, s[8..12]) + Bytewise(key, s[12..])
  {
    hide Xor;
    var t := Bytewise(key, s[..4]) + Bytewise(key, s[4..8]) + Bytewise(key, s[8..12]) + Bytewise(key, s[12..]);
    forall i | 0 <= i < 16 ensures Bytewise(key, s)[i] == t[i] {
    }
  }

  /** One full chunk, by the kernel for its size. */
  function Chunk(e: Endian, align: nat, key: seq<byte>, s: seq<byte>): (t: seq<byte>)
    requires IsChunkSize(align) && |key| == 4 && |s| == align
    ensures t == Bytewise(key, s)
  {
    if align == 8 then
      Chunk64IsBytewise(e, key, s);
      Chunk64(e, key, s)
    else
      Chunk128IsBytewise(e, key, s);
      Chunk128(e, key, s)
  }

  // ---- masking in place --------------------------------------------------------------------------------------

  /** `t` is `s` masked up to, but not including, position `n`. */
  ghost predicate MaskedUpTo(addr: nat, align: nat, key: seq<byte>, s: seq<byte>, n: nat, t: seq<byte>)
    requires IsChunkSize(align) && |key| == 4
  {
    && |t| == |s| && n <= |s|
    && forall i | 0 <= i < |s| :: t[i] == if i < n then Xor(s[i], key[KeyIndex(addr, align, |s|, i)]) else s[i]
  }

  lemma OneMasked(addr: nat, align: nat, key: seq<byte>, s: seq<byte>, n: nat, t: seq<byte>)
    requires IsChunkSize(align) && |key| == 4 && MaskedUpTo(addr, align, key, s, n, t) && n < |s|
    requires n < Lead(addr, align, |s|) || n >= ChunksEnd(addr, align, |s|)
    ensures MaskedUpTo(addr, align, key, s, n + 1, t[n := Xor(t[n], key[n % 4])])
  {
    hide Xor, Lead, ChunksEnd;
  }

  lemma ChunkMasked(addr: nat, align: nat, key: seq<byte>, s: seq<byte>, n: nat, t: seq<byte>)
    requires IsChunkSize(align) && |key| == 4 && MaskedUpTo(addr, align, key, s, n, t)
    requires Lead(addr, align, |s|) <= n && n + align <= ChunksEnd(addr, align, |s|)
    requires (n - Lead(addr, align, |s|)) % 4 == 0
    ensures n + align <= |t|
    ensures MaskedUpTo(addr, align, key, s, n + align, Splice(t, n, Bytewise(key, t[n..n + align])))
  {
    hide Xor, Lead, ChunksEnd;
    var t' := Splice(t, n, Bytewise(key, t[n..n + align]));
    forall i | n <= i < n + align ensures t'[i] == Xor(s[i], key[KeyIndex(addr, align, |s|, i)]) {
      assert (i - n) % 4 == (i - Lead(addr, align, |s|)) % 4;
    }
  }

  /** Another chunk fits exactly when it ends at or before the last full one. */
  lemma NextChunk(addr: nat, align: nat, len: nat, n: nat)
    requires IsChunkSize(align) && Lead(addr, align, len) <= n <= ChunksEnd(addr, align, len)
    requires Rem(n - Lead(addr, align, len), align) == 0
    ensures n + align <= len <==> n < ChunksEnd(addr, align, len)
    ensures n < ChunksEnd(addr, align, len) ==> n + align <= ChunksEnd(addr, align, len)
    ensures (n - Lead(addr, align, len)) % 4 == 0 && Rem(n + align - Lead(addr, align, len), align) == 0
  {
    hide Lead;
    var lead := Lead(addr, align, len);
    var q := Quotient(len - lead, align);
    var p := Quotient(n - lead, align);
  }

  lemma Quotient(x: nat, align: nat) returns (q: nat)
    requires IsChunkSize(align)
    ensures x == (if align == 8 then 8 * q else 16 * q) + Rem(x, align)
    ensures Rem(x, align) % 4 == x % 4
    ensures Rem(x + align, align) == Rem(x, align)
  {
    if align == 8 {
      q := x / 8;
      Remainders8(x);
    } else {
      q := x / 16;
      Remainders16(x);
    }
  }

  lemma Remainders8(x: nat)
    ensures x == 8 * (x / 8) + x % 8 && x % 8 % 4 == x % 4 && (x + 8) % 8 == x % 8
  {
    var q, r := x / 8, x % 8;
    ModUnique(x, 4, 2 * q + r / 4, r % 4);
    ModUnique(x + 8, 8, q + 1, r);
  }

  lemma Remainders16(x: nat)
    ensures x == 16 * (x / 16) + x % 16 && x % 16 % 4 == x % 4 && (x + 16) % 16 == x % 16
  {
    var q, r := x / 16, x % 16;
    ModUnique(x, 4, 4 * q + r / 4, r % 4);
    ModUnique(x + 16, 16, q + 1, r);
  }

  /** Mask `data[off..off + len]`, which sits at address `addr`: bytes up to alignment, full chunks, the rest. */
  method MaskAligned(e: Endian, align: nat, data: array<byte>, off: nat, len: nat, addr: nat, key: seq<byte>)
    requires IsChunkSize(align) && |key| == 4 && off + len <= data.Length
    modifies data
    ensures data[..] == Splice(old(data[..]), off, Masked(addr, align, key, old(data[off..off + len])))
  {
    hide Xor, KeyIndex, ChunksEnd;
    ghost var s := data[off..off + len];
    var unaligned := Rem(addr, align);
    if unaligned != 0 {
      unaligned := align - unaligned;
    }
    unaligned := if unaligned > len then len else unaligned;
    MaskBytes(align, data, off, len, 0, unaligned, key, s, addr);
    var i := MaskChunks(e, align, data, off, len, unaligned, key, s, addr);
    MaskBytes(align, data, off, len, i, len, key, s, addr);
    assert data[off..off + len] == Masked(addr, align, key, s);
    assert data[..] == data[..off] + data[off..off + len] + data[off + len..];
  }

  /** The loops over leading and trailing bytes: positions `from` up to `to`, one by one. */
  method MaskBytes(align: nat, data: array<byte>, off: nat, len: nat, from: nat, to: nat, key: seq<byte>,
                   ghost s: seq<byte>, ghost addr: nat)
    requires IsChunkSize(align) && |key| == 4 && off + len <= data.Length && |s| == len && from <= to <= len
    requires to <= Lead(addr, align, len) || from >= ChunksEnd(addr, align, len)
    requires MaskedUpTo(addr, align, key, s, from, data[off..off + len])
    modifies data
    ensures MaskedUpTo(addr, align, key, s, to, data[off..off + len])
    ensures data[..off] == old(data[..off]) && data[off + len..] == old(data[off + len..])
  {
    hide Xor, Lead, ChunksEnd, MaskedUpTo;
    var i := from;
    while i < to
      invariant from <= i <= to
      invariant MaskedUpTo(addr, align, key, s, i, data[off..off + len])
      invariant data[..off] == old(data[..off]) && data[off + len..] == old(data[off + len..])
    {
      ghost var t := data[off..off + len];
      OneMasked(addr, align, key, s, i, t);
      data[off + i] := Xor(data[off + i], key[i % 4]);
      assert data[off..off + len] == t[i := Xor(t[i], key[i % 4])];
      i := i + 1;
    }
  }

  /** The loop over the full chunks from position `from` on. */
  method MaskChunks(e: Endian, align: nat, data: array<byte>, off: nat, len: nat, from: nat, key: seq<byte>,
                    ghost s: seq<byte>, ghost addr: nat) returns (i: nat)
    requires IsChunkSize(align) && |key| == 4 && off + len <= data.Length && |s| == len
    requires from == Lead(addr, align, len) && MaskedUpTo(addr, align, key, s, from, data[off..off + len])
    modifies data
    ensures i == ChunksEnd(addr, align, len) && MaskedUpTo(addr, align, key, s, i, data[off..off + len])
    ensures data[..off] == old(data[..off]) && data[off + len..] == old(data[off + len..])
  {
    hide Xor, MaskedUpTo;
    i := from;
    NextChunk(addr, align, len, i);
    while i + align <= len
      invariant from <= i <= ChunksEnd(addr, align, len) && Rem(i - from, align) == 0
      invariant i + align <= len <==> i < ChunksEnd(addr, align, len)
      invariant MaskedUpTo(addr, align, key, s, i, data[off..off + len])
      invariant data[..off] == old(data[..off]) && data[off + len..] == old(data[off + len..])
    {
      NextChunk(addr, align, len, i);
      ChunkMasked(addr, align, key, s, i, data[off..off + len]);
      MaskChunk(e, align, data, off, len, i, key);
      i := i + align;
      NextChunk(addr, align, len, i);
    }
  }

  /** Load the chunk at `i`, combine it with the key, and store it back. */
  method MaskChunk(e: Endian, align: nat, data: array<byte>, off: nat, len: nat, i: nat, key: seq<byte>)
    requires IsChunkSize(align) && |key| == 4 && i + align <= len && off + len <= data.Length
    modifies data
    ensures data[..off] == old(data[..off]) && data[off + len..] == old(data[off + len..])
    ensures data[off..off + len] ==
            Splice(old(data[off..off + len]), i, Bytewise(key, old(data[off..off + len])[i..i + align]))
  {
    hide Xor, Chunk;
    var chunk := Chunk(e, align, key, data[off..off + len][i..i + align]);
    forall j | 0 <= j < align {
      data[off + i + j] := chunk[j];
    }
  }

  // ---- what it amounts to ------------------------------------------------------------------------------------

  /** Masking twice with the same key at the same address restores the data. */
  lemma MaskTwice(addr: nat, align: nat, key: seq<byte>, s: seq<byte>)
    requires IsChunkSize(align) && |key| == 4
    ensures Masked(addr, align, key, Masked(addr, align, key, s)) == s
  {
    hide KeyIndex;
    forall i | 0 <= i < |s|
      ensures Masked(addr, align, key, Masked(addr, align, key, s))[i] == s[i]
    {
      XorTwiceIsIdentity(s[i], key[KeyIndex(addr, align, |s|, i)]);
    }
  }

  lemma XorTwiceIsIdentity(a: byte, k: byte)
    ensures Xor(Xor(a, k), k) == a
  {
  }

  /** The key, started over `shift` bytes later, is the same key. */
  predicate KeyRepeats(key: seq<byte>, shift: nat)
    requires |key| == 4 && shift < 4
  {
    var k := key + key;
    key == k[shift..shift + 4]
  }

  /** No full chunk lies inside the data. */
  predicate NoFullChunk(addr: nat, align: nat, len: nat)
    requires IsChunkSize(align)
  {
    ChunksEnd(addr, align, len) == Lead(addr, align, len)
  }

  /** The bytes before the chunks, when there are chunks, number as many modulo 4 as are missing to alignment. */
  lemma LeadModulo4(addr: nat, align: nat, len: nat)
    requires IsChunkSize(align) && !NoFullChunk(addr, align, len)
    ensures Lead(addr, align, len) % 4 == (4 - addr % 4) % 4
    ensures Lead(addr, align, len) + 4 <= ChunksEnd(addr, align, len)
  {
    var q := Quotient(addr, align);
    var q' := Quotient(len - Lead(addr, align, len), align);
  }

  lemma SumModulo4(i: nat, lead: nat, shift: nat)
    requires lead <= i && lead % 4 == shift
    ensures i % 4 == ((i - lead) % 4 + shift) % 4
  {
  }

  /** Byte `j` of a chunk meets key byte `j`, where RFC 6455 wants the one `shift` further on. */
  lemma KeyIndexes(addr: nat, align: nat, len: nat, i: nat)
    requires IsChunkSize(align) && i < len
    ensures var lead, shift := Lead(addr, align, len), (4 - addr % 4) % 4;
            if lead <= i < ChunksEnd(addr, align, len)
            then KeyIndex(addr, align, len, i) == (i - lead) % 4 && i % 4 == ((i - lead) % 4 + shift) % 4
            else KeyIndex(addr, align, len, i) == i % 4
  {
    hide Lead, ChunksEnd;
    var lead := Lead(addr, align, len);
    if lead <= i < ChunksEnd(addr, align, len) {
      LeadModulo4(addr, align, len);
      SumModulo4(i, lead, (4 - addr % 4) % 4);
    }
  }

  lemma KeyRepeatsAt(key: seq<byte>, shift: nat, j: nat)
    requires |key| == 4 && shift < 4 && j < 4
    ensures KeyRepeats(key, shift) ==> key[j] == key[(j + shift) % 4]
  {
    assert (key + key)[shift..shift + 4][j] == key[(j + shift) % 4];
  }

  /** Under the condition, every byte meets the right key byte. */
  lemma MaskedIsBytewise(addr: nat, align: nat, key: seq<byte>, s: seq<byte>)
    requires IsChunkSize(align) && |key| == 4
    requires NoFullChunk(addr, align, |s|) || KeyRepeats(key, (4 - addr % 4) % 4)
    ensures Masked(addr, align, key, s) == Bytewise(key, s)
  {
    hide Xor, KeyIndex, KeyRepeats, Lead, ChunksEnd;
    forall i | 0 <= i < |s| ensures key[KeyIndex(addr, align, |s|, i)] == key[i % 4] {
      KeyIndexes(addr, align, |s|, i);
      if !NoFullChunk(addr, align, |s|) {
        KeyRepeatsAt(key, (4 - addr % 4) % 4, KeyIndex(addr, align, |s|, i));
      }
    }
  }

  /** At an address that is a multiple of 4 nothing goes wrong. */
  lemma AlignedIsBytewise(addr: nat, align: nat, key: seq<byte>, s: seq<byte>)
    requires IsChunkSize(align) && |key| == 4 && addr % 4 == 0
    ensures Masked(addr, align, key, s) == Bytewise(key, s)
  {
    hide Masked, Bytewise;
    MaskedIsBytewise(addr, align, key, s);
  }

  lemma XorZero(k: byte)
    ensures Xor(0, k) == k
  {
  }

  /** Without it, the first chunk of a zero payload already shows a wrong key byte. */
  lemma MaskedIsNotBytewise(addr: nat, align: nat, key: seq<byte>, len: nat) returns (s: seq<byte>)
    requires IsChunkSize(align) && |key| == 4
    requires !NoFullChunk(addr, align, len) && !KeyRepeats(key, (4 - addr % 4) % 4)
    ensures |s| == len && Masked(addr, align, key, s) != Bytewise(key, s)
  {
    hide Xor, KeyIndex, Lead, ChunksEnd, KeyRepeats;
    var shift, lead := (4 - addr % 4) % 4, Lead(addr, align, len);
    s := seq(len, i => 0);
    LeadModulo4(addr, align, len);
    var j := KeyDiffers(key, shift);
    KeyIndexes(addr, align, len, lead + j);
    XorZero(key[j]);
    XorZero(key[(j + shift) % 4]);
    assert Masked(addr, align, key, s)[lead + j] == key[j];
    assert Bytewise(key, s)[lead + j] == key[(j + shift) % 4];
  }

  lemma KeyDiffers(key: seq<byte>, shift: nat) returns (j: nat)
    requires |key| == 4 && shift < 4 && !KeyRepeats(key, shift)
    ensures j < 4 && key[j] != key[(j + shift) % 4]
  {
    var k := key + key;
    j :| 0 <= j < 4 && key[j] != k[shift..shift + 4][j];
  }

  /**
   For which calls does chunked masking agree with RFC 6455 whatever the data? Precisely when no full chunk lies
   inside the data, or the key repeats with the misalignment; in particular always when the address is a
   multiple of 4.
   */
  lemma MaskedIsBytewiseIff(addr: nat, align: nat, key: seq<byte>, len: nat)
    requires IsChunkSize(align) && |key| == 4
    ensures (forall s | |s| == len :: Masked(addr, align, key, s) == Bytewise(key, s)) <==>
            NoFullChunk(addr, align, len) || KeyRepeats(key, (4 - addr % 4) % 4)
    ensures addr % 4 == 0 ==> KeyRepeats(key, (4 - addr % 4) % 4)
  {
    hide Masked, Bytewise, NoFullChunk;
    if NoFullChunk(addr, align, len) || KeyRepeats(key, (4 - addr % 4) % 4) {
      forall s: seq<byte> | |s| == len ensures Masked(addr, align, key, s) == Bytewise(key, s) {
        MaskedIsBytewise(addr, align, key, s);
      }
    } else {
      var s := MaskedIsNotBytewise(addr, align, key, len);
    }
  }
}
