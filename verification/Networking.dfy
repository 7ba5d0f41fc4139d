/**
 16- and 64-bit conversions between host and network byte order, together with the memory image of the
 converted value: whatever the host's byte order, that image is big-endian.
 */
module Networking {

  import opened Bits

  type byte = bv8

  datatype Endian = Little | Big

  const UINT64_MAX: nat := 0xFFFF_FFFF_FFFF_FFFF

  /** Bytes put together, most significant first. */
  function Join16(b1: byte, b0: byte): bv16 {
    (b1 as bv16 << 8) | b0 as bv16
  }

  function Join32(b3: byte, b2: byte, b1: byte, b0: byte): bv32 {
    (b3 as bv32 << 24) | (b2 as bv32 << 16) | (b1 as bv32 << 8) | b0 as bv32
  }

  function Join64(b7: byte, b6: byte, b5: byte, b4: byte, b3: byte, b2: byte, b1: byte, b0: byte): bv64 {
    (b7 as bv64 << 56) | (b6 as bv64 << 48) | (b5 as bv64 << 40) | (b4 as bv64 << 32)
    | (b3 as bv64 << 24) | (b2 as bv64 << 16) | (b1 as bv64 << 8) | b0 as bv64
  }

  /** The bytes of a value, most significant first. */
  function Bytes16(v: bv16): (s: seq<byte>)
    ensures |s| == 2
  {
    [(v >> 8) as byte, (v & 0xFF) as byte]
  }

  function Bytes32(v: bv32): (s: seq<byte>)
    ensures |s| == 4
  {
    [(v >> 24) as byte, ((v >> 16) & 0xFF) as byte, ((v >> 8) & 0xFF) as byte, (v & 0xFF) as byte]
  }

  function Bytes64(v: bv64): (s: seq<byte>)
    ensures |s| == 8
  {
    [(v >> 56) as byte, ((v >> 48) & 0xFF) as byte, ((v >> 40) & 0xFF) as byte, ((v >> 32) & 0xFF) as byte,
     ((v >> 24) & 0xFF) as byte, ((v >> 16) & 0xFF) as byte, ((v >> 8) & 0xFF) as byte, (v & 0xFF) as byte]
  }

  /** The number that big-endian bytes stand for. */
  function BigEndian(s: seq<byte>): (n: nat) {
    if s == [] then 0 else BigEndian(s[..|s| - 1]) * 0x100 + s[|s| - 1] as int
  }

  function ByteOf(n: nat): (b: byte)
    requires n < 0x100
  {
    n as byte
  }

  /** The `len` lowest base-256 digits of a number, most significant first. */
  function Digits(n: nat, len: nat): (s: seq<byte>)
    ensures |s| == len
  {
    if len == 0 then [] else Digits(n / 0x100, len - 1) + [ByteOf(n % 0x100)]
  }

  /** The casts between fixed-width values and numbers, digit by digit. */
  function ToNat16(v: bv16): nat {
    BigEndian(Bytes16(v))
  }

  function ToNat64(v: bv64): nat {
    BigEndian(Bytes64(v))
  }

  function ToBv16(n: nat): bv16
    requires n < 0x1_0000
  {
    var s := Digits(n, 2);
    Join16(s[0], s[1])
  }

  function ToBv64(n: nat): bv64
    requires n <= UINT64_MAX
  {
    var s := Digits(n, 8);
    Join64(s[0], s[1], s[2], s[3], s[4], s[5], s[6], s[7])
  }

  /** The bytes of a value as the host stores them. */
  function Image16(e: Endian, v: bv16): (s: seq<byte>)
    ensures |s| == 2
  {
    var b := Bytes16(v);
    if e == Little then [b[1], b[0]] else b
  }

  function Image64(e: Endian, v: bv64): (s: seq<byte>)
    ensures |s| == 8
  {
    var b := Bytes64(v);
    if e == Little then [b[7], b[6], b[5], b[4], b[3], b[2], b[1], b[0]] else b
  }

  /** The value the host reads from memory. */
  function Load16(e: Endian, s: seq<byte>): bv16
    requires |s| == 2
  {
    if e == Little then Join16(s[1], s[0]) else Join16(s[0], s[1])
  }

  function Load64(e: Endian, s: seq<byte>): bv64
    requires |s| == 8
  {
    if e == Little then Join64(s[7], s[6], s[5], s[4], s[3], s[2], s[1], s[0])
    else Join64(s[0], s[1], s[2], s[3], s[4], s[5], s[6], s[7])
  }

  /** `host_to_network`, which is also `network_to_host`: a byte swap on little-endian hosts. */
  function Convert16(e: Endian, v: bv16): bv16 {
    if e == Little then ((v & 0xFF00) >> 8) | ((v & 0x00FF) << 8) else v
  }

  function Convert64(e: Endian, v: bv64): bv64 {
    if e == Little then
      ((v & 0xFF00000000000000) >> 56) | ((v & 0x00FF000000000000) >> 40)
      | ((v & 0x0000FF0000000000) >> 24) | ((v & 0x000000FF00000000) >> 8)
      | ((v & 0x00000000FF000000) << 8) | ((v & 0x0000000000FF0000) << 24)
      | ((v & 0x000000000000FF00) << 40) | ((v & 0x00000000000000FF) << 56)
    else v
  }

  // Facts about bit-vectors alone.

  lemma SplitJoined16(b1: byte, b0: byte)
    ensures Bytes16(Join16(b1, b0)) == [b1, b0]
  {
  }

  lemma SplitJoined64(b7: byte, b6: byte, b5: byte, b4: byte, b3: byte, b2: byte, b1: byte, b0: byte)
    ensures Bytes64(Join64(b7, b6, b5, b4, b3, b2, b1, b0)) == [b7, b6, b5, b4, b3, b2, b1, b0]
  {
  }

  lemma Swapped16(b1: byte, b0: byte)
    ensures Convert16(Little, Join16(b1, b0)) == Join16(b0, b1)
  {
  }

  lemma Swapped64(b7: byte, b6: byte, b5: byte, b4: byte, b3: byte, b2: byte, b1: byte, b0: byte)
    ensures Convert64(Little, Join64(b7, b6, b5, b4, b3, b2, b1, b0)) == Join64(b0, b1, b2, b3, b4, b5, b6, b7)
  {
  }

  lemma Unchanged(v: bv16, w: bv64)
    ensures Convert16(Big, v) == v && Convert64(Big, w) == w
  {
  }

  /** Whatever the host, a converted load joins the bytes in wire order. */
  lemma ConvertedLoad16(e: Endian, s: seq<byte>)
    requires |s| == 2
    ensures Convert16(e, Load16(e, s)) == Join16(s[0], s[1])
  {
    hide Join16, Convert16;
    Swapped16(s[1], s[0]);
    Unchanged(Load16(e, s), 0);
  }

  lemma ConvertedLoad64(e: Endian, s: seq<byte>)
    requires |s| == 8
    ensures Convert64(e, Load64(e, s)) == Join64(s[0], s[1], s[2], s[3], s[4], s[5], s[6], s[7])
  {
    hide Join64, Convert64;
    Swapped64(s[7], s[6], s[5], s[4], s[3], s[2], s[1], s[0]);
    Unchanged(0, Load64(e, s));
  }

  /** Whatever the host, joined bytes are converted and stored in the same order. */
  lemma StoredJoin16(e: Endian, s: seq<byte>)
    requires |s| == 2
    ensures Image16(e, Convert16(e, Join16(s[0], s[1]))) == s
  {
    hide Join16, Convert16, Bytes16;
    Swapped16(s[0], s[1]);
    Unchanged(Join16(s[0], s[1]), 0);
    SplitJoined16(s[0], s[1]);
    SplitJoined16(s[1], s[0]);
  }

  lemma StoredJoin64(e: Endian, s: seq<byte>)
    requires |s| == 8
    ensures Image64(e, Convert64(e, Join64(s[0], s[1], s[2], s[3], s[4], s[5], s[6], s[7]))) == s
  {
    hide Join64, Convert64, Bytes64, Image64;
    if e == Little {
      Swapped64(s[0], s[1], s[2], s[3], s[4], s[5], s[6], s[7]);
      SplitJoined64(s[7], s[6], s[5], s[4], s[3], s[2], s[1], s[0]);
      var reversed := [s[7], s[6], s[5], s[4], s[3], s[2], s[1], s[0]];
      ImageOf(e, Join64(s[7], s[6], s[5], s[4], s[3], s[2], s[1], s[0]), reversed);
    } else {
      Unchanged(0, Join64(s[0], s[1], s[2], s[3], s[4], s[5], s[6], s[7]));
      SplitJoined64(s[0], s[1], s[2], s[3], s[4], s[5], s[6], s[7]);
      ImageOf(e, Join64(s[0], s[1], s[2], s[3], s[4], s[5], s[6], s[7]), s);
    }
  }

  lemma ImageOf(e: Endian, v: bv64, b: seq<byte>)
    requires |b| == 8 && Bytes64(v) == b
    ensures Image64(e, v) == if e == Little then [b[7], b[6], b[5], b[4], b[3], b[2], b[1], b[0]] else b
  {
    hide Bytes64;
  }

  /** A 16-bit value as a number, byte by byte. */
  lemma ValueOf16(v: bv16)
    ensures v as int == 0x100 * ((v >> 8) as byte) as int + ((v & 0xFF) as byte) as int
  {
  }

  lemma JoinedValue(hi: byte, lo: byte)
    ensures Join16(hi, lo) as int == 0x100 * hi as int + lo as int
  {
    hide Join16;
    SplitJoined16(hi, lo);
    ValueOf16(Join16(hi, lo));
  }

  lemma Rejoined16(v: bv16)
    ensures Join16(Bytes16(v)[0], Bytes16(v)[1]) == v
  {
  }

  /** Whatever the host, a converted value is stored big-endian. */
  lemma StoredValue16(e: Endian, v: bv16)
    ensures Image16(e, Convert16(e, v)) == Bytes16(v)
  {
    hide *;
    Rejoined16(v);
    StoredJoin16(e, Bytes16(v));
  }

  lemma NextByte(b: byte)
    requires b != 0xFF
    ensures (b + 1) as int == b as int + 1
  {
  }

  lemma CastBack(b: byte)
    ensures (b as int) as byte == b
  {
  }

  lemma {:induction false} ByteOfValue(n: nat)
    requires n < 0x100
    ensures ByteOf(n) as int == n
  {
    if n > 0 {
      ByteOfValue(n - 1);
      var b := ByteOf(n - 1);
      assert b != 0xFF;
      NextByte(b);
      CastBack(b + 1);
    }
  }

  function Power256(len: nat): (p: nat)
    ensures p > 0
  {
    if len == 0 then 1 else 0x100 * Power256(len - 1)
  }

  /** The digits of a number that has no more of them stand for the number. */
  lemma {:induction false} DigitsValue(n: nat, len: nat)
    requires n < Power256(len)
    ensures BigEndian(Digits(n, len)) == n
  {
    if len > 0 {
      var s := Digits(n, len);
      assert s[..len - 1] == Digits(n / 0x100, len - 1);
      DigitsValue(n / 0x100, len - 1);
      ByteOfValue(n % 0x100);
    }
  }

  lemma ModuloThenDigit(n: nat, p: nat)
    requires p > 0
    ensures n % (0x100 * p) / 0x100 == n / 0x100 % p && n % (0x100 * p) % 0x100 == n % 0x100
  {
    var q, r := n / (0x100 * p), n % (0x100 * p);
    var pq := p * q;
    assert n == 0x100 * pq + r by {
      assert n == (0x100 * p) * q + r;
      assert (0x100 * p) * q == 0x100 * (p * q);
    }
    assert n / 0x100 == pq + r / 0x100;
    ModUnique(n / 0x100, p, q, r / 0x100);
  }

  /** Digits beyond the `len` lowest ones do not matter. */
  lemma {:induction false} DigitsModulo(n: nat, len: nat)
    ensures Digits(n % Power256(len), len) == Digits(n, len)
  {
    hide ByteOf;
    if len > 0 {
      ModuloThenDigit(n, Power256(len - 1));
      DigitsModulo(n / 0x100, len - 1);
    }
  }

  /** Eight digits are the four high ones and the four low ones. */
  lemma DigitsHalves(n: nat)
    ensures Digits(n, 8) == Digits(n / 0x1_0000_0000, 4) + Digits(n, 4)
  {
    hide ByteOf;
    var n1, n2, n3 := n / 0x100, n / 0x100 / 0x100, n / 0x100 / 0x100 / 0x100;
    var d0, d1, d2, d3 := ByteOf(n % 0x100), ByteOf(n1 % 0x100), ByteOf(n2 % 0x100), ByteOf(n3 % 0x100);
    assert n3 / 0x100 == n / 0x1_0000_0000;
    assert Digits(n, 4) == [d3, d2, d1, d0] by {
      assert Digits(n3, 1) == [d3];
      assert Digits(n2, 2) == [d3, d2];
      assert Digits(n1, 3) == [d3, d2, d1];
    }
    assert Digits(n3, 5) == Digits(n3 / 0x100, 4) + [d3];
    assert Digits(n2, 6) == Digits(n3, 5) + [d2];
    assert Digits(n1, 7) == Digits(n2, 6) + [d1];
  }

  /** Big-endian numbers, written out. */
  lemma TwoBytes(s: seq<byte>)
    requires |s| == 2
    ensures BigEndian(s) == 0x100 * s[0] as int + s[1] as int
  {
    assert s[..1] == [s[0]];
    assert BigEndian([]) == 0;
    assert BigEndian([s[0]]) == s[0] as int;
  }

  lemma FourBytes(s: seq<byte>)
    requires |s| == 4
    ensures BigEndian(s) == 0x100_0000 * s[0] as int + 0x1_0000 * s[1] as int + 0x100 * s[2] as int + s[3] as int
  {
    hide BigEndian;
    TwoBytes(s[..2]);
    MoreBytes(s[..3]);
    MoreBytes(s);
    assert s[..3][..2] == s[..2];
  }

  lemma MoreBytes(s: seq<byte>)
    requires s != []
    ensures BigEndian(s) == 0x100 * BigEndian(s[..|s| - 1]) + s[|s| - 1] as int
  {
  }

  lemma FourMore(s: seq<byte>)
    requires |s| == 8
    ensures BigEndian(s) ==
            0x1_0000_0000 * BigEndian(s[..4])
            + 0x100_0000 * s[4] as int + 0x1_0000 * s[5] as int + 0x100 * s[6] as int + s[7] as int
  {
    hide BigEndian;
    MoreBytes(s[..5]);
    MoreBytes(s[..6]);
    MoreBytes(s[..7]);
    MoreBytes(s);
    assert s[..5][..4] == s[..4] && s[..6][..5] == s[..5] && s[..7][..6] == s[..6];
  }

  lemma EightBytes(s: seq<byte>)
    requires |s| == 8
    ensures BigEndian(s) ==
            0x100_0000_0000_0000 * s[0] as int + 0x1_0000_0000_0000 * s[1] as int + 0x100_0000_0000 * s[2] as int
            + 0x1_0000_0000 * s[3] as int + 0x100_0000 * s[4] as int + 0x1_0000 * s[5] as int
            + 0x100 * s[6] as int + s[7] as int
  {
    hide BigEndian;
    FourBytes(s[..4]);
    FourMore(s);
  }

  /** A converted load reads the big-endian number on the wire. */
  lemma Loaded16(e: Endian, s: seq<byte>)
    requires |s| == 2
    ensures ToNat16(Convert16(e, Load16(e, s))) == BigEndian(s)
  {
    hide Join16, Convert16, Bytes16, Load16, BigEndian;
    ConvertedLoad16(e, s);
    SplitJoined16(s[0], s[1]);
    assert s == [s[0], s[1]];
  }

  lemma Loaded64(e: Endian, s: seq<byte>)
    requires |s| == 8
    ensures ToNat64(Convert64(e, Load64(e, s))) == BigEndian(s)
  {
    hide Join64, Convert64, Bytes64, Load64, BigEndian;
    ConvertedLoad64(e, s);
    SplitJoined64(s[0], s[1], s[2], s[3], s[4], s[5], s[6], s[7]);
    assert s == [s[0], s[1], s[2], s[3], s[4], s[5], s[6], s[7]];
  }

  /** A number that fits, cast, converted and stored, is big-endian on the wire. */
  lemma Stored16(e: Endian, n: nat)
    requires n < 0x1_0000
    ensures BigEndian(Image16(e, Convert16(e, ToBv16(n)))) == n
  {
    hide Join16, Convert16, Image16, BigEndian, Digits;
    StoredJoin16(e, Digits(n, 2));
    DigitsValue(n, 2);
  }

  lemma Stored64(e: Endian, n: nat)
    requires n <= UINT64_MAX
    ensures BigEndian(Image64(e, Convert64(e, ToBv64(n)))) == n
  {
    hide Join64, Convert64, Image64, BigEndian, Digits;
    StoredJoin64(e, Digits(n, 8));
    assert Power256(8) == UINT64_MAX + 1 by {
      assert Power256(4) == 0x1_0000_0000;
    }
    DigitsValue(n, 8);
  }
}
