/** What a client puts on the wire, and how a server takes it apart (sections 5.2 and 5.3 of RFC 6455). */
module Sending {
  import opened Errors
  import opened Networking
  import opened Frame
  import opened MaskKey

  /** The bytes of an extended payload length: none, two or eight, whichever is the shortest form. */
  function LengthExt(size: nat): (s: seq<byte>)
    ensures |s| == if size <= 125 then 0 else if size <= 0xFFFF then 2 else 8
  {
    if size <= 125 then [] else if size <= 0xFFFF then Digits(size, 2) else Digits(size, 8)
  }

  /** A masked frame: header, extended length, key, and the payload as masked. */
  function SentBytes(h: FrameHeader, key: seq<byte>, data: seq<byte>): seq<byte> {
    [h.b0, h.b1] + LengthExt(|data|) + key + data
  }

  /** The header of a single-frame message from a client. */
  predicate IsClientHeader(h: FrameHeader, op: Opcode, compressed: bool, size: nat) {
    && h.OpCode() == op && h.IsFinal() && h.IsMasked()
    && h.Rsv1() == compressed && !h.Rsv2() && !h.Rsv3()
    && h.BasicSize() == LengthCode(size)
  }

  /** A frame as a server decodes it: the header, the unmasked payload, and how many bytes it took. */
  datatype Decoded = Decoded(header: FrameHeader, size: nat, payload: seq<byte>, used: nat)

  /** A server decoding the frame at the front of a client's byte stream. */
  function DecodeMaskedFrame(s: seq<byte>): (r: Option<Decoded>)
    ensures r.Some? ==> 0 < r.value.used <= |s|
  {
    if |s| < 2 || !FrameHeader(s[0], s[1]).IsMasked() then None
    else
      var h := FrameHeader(s[0], s[1]);
      var used := if h.BasicSize() <= 125 then 2 else if h.BasicSize() == 126 then 4 else 10;
      if |s| < used + 4 then None
      else
        var size := if h.BasicSize() <= 125 then h.BasicSize() else BigEndian(s[2..used]);
        if |s| < used + 4 + size then None
        else
          var key, data := s[used..used + 4], s[used + 4..used + 4 + size];
          Some(Decoded(h, size, Bytewise(key, data), used + 4 + size))
  }

  lemma LengthExtValue(size: nat)
    requires size <= UINT64_MAX
    ensures size > 125 ==> BigEndian(LengthExt(size)) == size
  {
    hide Digits, BigEndian;
    if 125 < size <= 0xFFFF {
      DigitsValue(size, 2);
    } else if size > 0xFFFF {
      assert Power256(8) == UINT64_MAX + 1 by {
        assert Power256(4) == 0x1_0000_0000;
      }
      DigitsValue(size, 8);
    }
  }

  /** A server decodes what was sent: the header, and the payload unmasked byte by byte; nothing is left over. */
  lemma SentIsDecoded(h: FrameHeader, key: seq<byte>, data: seq<byte>, rest: seq<byte>)
    requires h.IsMasked() && h.BasicSize() == LengthCode(|data|) && |key| == 4 && |data| <= UINT64_MAX
    ensures DecodeMaskedFrame(SentBytes(h, key, data) + rest) ==
            Some(Decoded(h, |data|, Bytewise(key, data), |SentBytes(h, key, data)|))
  {
    hide Digits, BigEndian, Bytewise, FrameHeader.BasicSize, FrameHeader.IsMasked;
    LengthExtValue(|data|);
    var s := SentBytes(h, key, data) + rest;
    var ext := LengthExt(|data|);
    assert s[2..2 + |ext|] == ext;
    assert s[2 + |ext|..2 + |ext| + 4] == key;
    assert s[2 + |ext| + 4..2 + |ext| + 4 + |data|] == data;
  }

  /** Unmasking byte by byte undoes itself. */
  lemma BytewiseTwice(key: seq<byte>, s: seq<byte>)
    requires |key| == 4
    ensures Bytewise(key, Bytewise(key, s)) == s
  {
    hide Xor;
    forall i | 0 <= i < |s| ensures Bytewise(key, Bytewise(key, s))[i] == s[i] {
      XorTwiceIsIdentity(s[i], key[i % 4]);
    }
  }

  /** A server gets back exactly `payload` when it is sent masked in chunks of `align` from address `addr`. */
  predicate ServerRecovers(h: FrameHeader, addr: nat, align: nat, key: seq<byte>, payload: seq<byte>)
    requires IsChunkSize(align) && |key| == 4
  {
    var r := DecodeMaskedFrame(SentBytes(h, key, Masked(addr, align, key, payload)));
    r.Some? && r.value.payload == payload
  }

  lemma RecoveredWhenBytewise(h: FrameHeader, addr: nat, align: nat, key: seq<byte>, payload: seq<byte>)
    requires IsChunkSize(align) && |key| == 4 && |payload| <= UINT64_MAX
    requires h.IsMasked() && h.BasicSize() == LengthCode(|payload|)
    ensures ServerRecovers(h, addr, align, key, payload) <==>
            Masked(addr, align, key, payload) == Bytewise(key, payload)
  {
    hide SentBytes, Masked, Bytewise, DecodeMaskedFrame, LengthCode, FrameHeader.BasicSize;
    var data := Masked(addr, align, key, payload);
    SentIsDecoded(h, key, data, []);
    assert SentBytes(h, key, data) + [] == SentBytes(h, key, data);
    BytewiseTwice(key, payload);
    BytewiseTwice(key, data);
  }

  /**
   A payload masked in chunks reaches the server intact, for every payload of its length, precisely when no full
   chunk lies inside it or the key repeats with the misalignment of its address.
   */
  lemma ServerRecoversIff(h: FrameHeader, addr: nat, align: nat, key: seq<byte>, len: nat)
    requires IsChunkSize(align) && |key| == 4 && len <= UINT64_MAX
    requires h.IsMasked() && h.BasicSize() == LengthCode(len)
    ensures (forall payload | |payload| == len :: ServerRecovers(h, addr, align, key, payload)) <==>
            NoFullChunk(addr, align, len) || KeyRepeats(key, (4 - addr % 4) % 4)
  {
    hide ServerRecovers, Masked, Bytewise, NoFullChunk, KeyRepeats, LengthCode, FrameHeader.BasicSize;
    forall payload: seq<byte> | |payload| == len
      ensures ServerRecovers(h, addr, align, key, payload) <==>
              Masked(addr, align, key, payload) == Bytewise(key, payload)
    {
      RecoveredWhenBytewise(h, addr, align, key, payload);
    }
    MaskedIsBytewiseIff(addr, align, key, len);
  }

  // ---- frames on the wire ------------------------------------------------------------------------------------

  /** A frame as the client builds it: header, key, and the payload before it is masked in chunks at its address. */
  datatype ClientFrame = ClientFrame(header: FrameHeader, key: seq<byte>, payload: seq<byte>, addr: nat, align: nat) {
    /** Final, masked, with the shortest length code for its payload. */
    predicate Valid() {
      && |key| == 4 && IsChunkSize(align) && |payload| <= UINT64_MAX
      && IsClientHeader(header, header.OpCode(), header.Rsv1(), |payload|)
    }

    function Bytes(): seq<byte>
      requires Valid()
    {
      SentBytes(header, key, Masked(addr, align, key, payload))
    }

    /** On the wire it begins with this byte. */
    predicate Begins(b: byte) {
      Valid() && Bytes() != [] && Bytes()[0] == b
    }

    /** A frame of this opcode and payload, marked compressed or not. */
    predicate Is(op: Opcode, compressed: bool, payload: seq<byte>, addr: nat, align: nat) {
      && Valid() && header.OpCode() == op && header.Rsv1() == compressed
      && this.payload == payload && this.addr == addr && this.align == align
    }

    /** A server unmasks the payload byte by byte, so this is when it gets the payload back. */
    predicate Recoverable()
      requires Valid()
    {
      Masked(addr, align, key, payload) == Bytewise(key, payload)
    }

    /** What a server makes of the frame. */
    function Seen(): Decoded
      requires Valid()
    {
      Decoded(header, |payload|, Bytewise(key, Masked(addr, align, key, payload)), |Bytes()|)
    }
  }

  /** The shortest length field for `n`, with the mask bit: 0x80 more in its first byte (section 5.2). */
  predicate IsMaskedLength(l: seq<byte>, n: nat) {
    && l != [] && l[0] >= 0x80 && IsLength([l[0] - 0x80] + l[1..], n)
    && |l| == if n <= 125 then 1 else if n <= 0xFFFF then 3 else 9
  }

  /** The bytes of a frame in numbers: FIN, RSV1 and opcode, the length field, the key, and the masked payload. */
  lemma OnTheWire(f: ClientFrame, op: Opcode, z: bool, payload: seq<byte>, addr: nat, align: nat)
    returns (l: seq<byte>)
    requires f.Is(op, z, payload, addr, align) && op <= 0xF
    ensures IsMaskedLength(l, |payload|)
    ensures f.Bytes() == [(if z then 0xC0 else 0x80) + op] + l + f.key + Masked(addr, align, f.key, payload)
  {
    hide Masked, IsLength, LengthExt, FrameHeader.BasicSize, FrameHeader.OpCode, FrameHeader.IsMasked;
    hide FrameHeader.IsFinal, FrameHeader.Rsv1, FrameHeader.Rsv2, FrameHeader.Rsv3;
    l := [f.header.b1] + LengthExt(|payload|);
    FirstByte(f.header, op, z);
    LengthInNumbers(f.header, |payload|);
    assert [f.header.b0, f.header.b1] + LengthExt(|payload|) == [f.header.b0] + l;
  }

  lemma FirstByte(h: FrameHeader, op: Opcode, z: bool)
    requires h.OpCode() == op && h.IsFinal() && h.Rsv1() == z && !h.Rsv2() && !h.Rsv3()
    ensures op <= 0xF && h.b0 == (if z then 0xC0 else 0x80) + op
  {
  }

  lemma StartsWith(f: ClientFrame, op: Opcode, z: bool)
    requires f.Is(op, z, f.payload, f.addr, f.align)
    ensures op <= 0xF && f.Begins((if z then 0xC0 else 0x80) + op)
  {
    hide Masked, LengthExt, FrameHeader.BasicSize;
    FirstByte(f.header, op, z);
  }

  lemma LengthInNumbers(h: FrameHeader, n: nat)
    requires h.IsMasked() && h.BasicSize() == LengthCode(n) && n <= UINT64_MAX
    ensures IsMaskedLength([h.b1] + LengthExt(n), n)
  {
    hide LengthExt, IsLength, BigEndian;
    LowBits(h.b1);
    LengthExtValue(n);
    var l := [h.b1] + LengthExt(n);
    assert [l[0] - 0x80] + l[1..] == [h.b1 - 0x80] + LengthExt(n);
    CodeAndExt(h.b1 - 0x80, n);
  }

  lemma LowBits(b: byte)
    requires b & 0x80 == 0x80
    ensures b >= 0x80 && b & 0x7F == b - 0x80
  {
  }

  lemma CodeAndExt(b: byte, n: nat)
    requires b as int == LengthCode(n) && n <= UINT64_MAX
    ensures IsLength([b] + LengthExt(n), n)
  {
    hide Digits, BigEndian;
    LengthExtValue(n);
    var l := [b] + LengthExt(n);
    assert l[1..] == LengthExt(n);
    CodeAsByte(b);
    if 125 < n <= 0xFFFF {
      TwoBytes(l[1..]);
    } else if n > 0xFFFF {
      EightBytes(l[1..]);
    }
  }

  lemma CodeAsByte(b: byte)
    ensures b as int <= 125 ==> b <= 125
    ensures b as int == 126 ==> b == 126
    ensures b as int == 127 ==> b == 127
  {
  }

  lemma FrameIsSeen(f: ClientFrame, rest: seq<byte>)
    requires f.Valid()
    ensures DecodeMaskedFrame(f.Bytes() + rest) == Some(f.Seen())
    ensures f.Recoverable() <==> f.Seen().payload == f.payload
  {
    hide Masked, Bytewise, DecodeMaskedFrame, LengthCode, FrameHeader.BasicSize;
    var data := Masked(f.addr, f.align, f.key, f.payload);
    SentIsDecoded(f.header, f.key, data, rest);
    BytewiseTwice(f.key, f.payload);
    BytewiseTwice(f.key, data);
  }

  /** A server taking a client's stream apart, frame by frame; what does not start a whole frame is left over. */
  function DecodeAll(s: seq<byte>): (r: (seq<Decoded>, seq<byte>))
    decreases |s|
  {
    var d := DecodeMaskedFrame(s);
    if d.None? then ([], s)
    else
      var (ds, rest) := DecodeAll(s[d.value.used..]);
      ([d.value] + ds, rest)
  }

  /** The masked example of section 5.7 of RFC 6455: a text message `Hello`. */
  lemma MaskedHello()
    ensures DecodeMaskedFrame([0x81, 0x85, 0x37, 0xFA, 0x21, 0x3D, 0x7F, 0x9F, 0x4D, 0x51, 0x58]) ==
            Some(Decoded(FrameHeader(0x81, 0x85), 5, [0x48, 0x65, 0x6C, 0x6C, 0x6F], 11))
  {
    var s: seq<byte> := [0x81, 0x85, 0x37, 0xFA, 0x21, 0x3D, 0x7F, 0x9F, 0x4D, 0x51, 0x58];
    var key: seq<byte> := [0x37, 0xFA, 0x21, 0x3D];
    var data: seq<byte> := [0x7F, 0x9F, 0x4D, 0x51, 0x58];
    assert s[2..6] == key && s[6..11] == data;
    assert Bytewise(key, data) == [0x48, 0x65, 0x6C, 0x6C, 0x6F];
  }
}
