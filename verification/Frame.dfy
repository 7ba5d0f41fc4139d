/** The two header bytes of a frame (section 5.2 of RFC 6455), and the frame under construction on the send side. */
module Frame {
  import opened Networking

  type Opcode = bv8

  const CONTINUATION: Opcode := 0x0
  const TEXT: Opcode := 0x1
  const BINARY: Opcode := 0x2
  const CLOSE: Opcode := 0x8
  const PING: Opcode := 0x9
  const PONG: Opcode := 0xA
  const NOT_SET_OPCODE: Opcode := 0xFF

  predicate IsReserved(op: Opcode) {
    0x3 <= op <= 0x7 || 0xB <= op <= 0xF
  }

  datatype FrameHeader = FrameHeader(b0: byte, b1: byte) {
    function OpCode(): Opcode { b0 & 0x0F }
    predicate IsFinal() { b0 & 0x80 == 0x80 }
    predicate IsControl() { OpCode() >= 0x8 }
    predicate HasRsvBits() { b0 & 0x70 != 0 }
    predicate Rsv1() { b0 & 0x40 == 0x40 }
    predicate Rsv2() { b0 & 0x20 == 0x20 }
    predicate Rsv3() { b0 & 0x10 == 0x10 }
    predicate IsMasked() { b1 & 0x80 == 0x80 }

    /** The 7-bit length field: a length up to 125, or 126 or 127 for the extended forms. */
    function BasicSize(): (n: nat)
      ensures n <= 127
    {
      (b1 & 0x7F) as int
    }
  }

  /** The first header byte, put together from its fields. */
  function HeaderByte(fin: bool, rsv: bv8, op: Opcode): byte
    requires rsv <= 7 && op <= 0xF
  {
    (if fin then 0x80 else 0) | (rsv << 4) | op
  }

  /** The fields of the first header byte are those it was put together from. */
  lemma HeaderByteFields(fin: bool, rsv: bv8, op: Opcode, b1: byte)
    requires rsv <= 7 && op <= 0xF
    ensures var h := FrameHeader(HeaderByte(fin, rsv, op), b1);
            && h.OpCode() == op && h.IsFinal() == fin
            && h.Rsv1() == (rsv & 4 == 4) && h.Rsv2() == (rsv & 2 == 2) && h.Rsv3() == (rsv & 1 == 1)
            && h.HasRsvBits() == (rsv != 0)
  {
  }

  /** Every first header byte is put together from fields. */
  lemma HeaderByteOfFields(b: byte)
    ensures b == HeaderByte(FrameHeader(b, 0).IsFinal(), (b >> 4) & 7, b & 0x0F)
  {
  }

  /** The shortest length code for a payload size (section 5.2 of RFC 6455). */
  function LengthCode(size: nat): (n: nat)
    ensures n <= 127
  {
    if size <= 125 then size else if size <= 0xFFFF then 126 else 127
  }

  /** The length field of an unmasked frame (section 5.2): one byte, or 126 and two more, or 127 and eight more. */
  predicate IsLength(l: seq<byte>, n: nat) {
    || (|l| == 1 && l[0] <= 125 && n == l[0] as int)
    || (|l| == 3 && l[0] == 126 && n == 0x100 * l[1] as int + l[2] as int)
    || (&& |l| == 9 && l[0] == 127
        && n == 0x100_0000_0000_0000 * l[1] as int + 0x1_0000_0000_0000 * l[2] as int
                + 0x100_0000_0000 * l[3] as int + 0x1_0000_0000 * l[4] as int
                + 0x100_0000 * l[5] as int + 0x1_0000 * l[6] as int + 0x100 * l[7] as int + l[8] as int)
  }

  lemma SevenBits(b: byte)
    requires b <= 127
    ensures b & 0x7F == b && b & 0x80 == 0 && b as int <= 127 && (b <= 125 <==> b as int <= 125)
  {
  }

  class Frame {
    var header: FrameHeader
    var maskKey: seq<byte>
    var payloadSize: nat

    constructor ()
      ensures header == FrameHeader(0, 0) && payloadSize == 0 && maskKey == [0, 0, 0, 0]
    {
      header, maskKey, payloadSize := FrameHeader(0, 0), [0, 0, 0, 0], 0;
    }

    method SetOpcode(op: Opcode)
      modifies this`header
      ensures header.OpCode() == op & 0x0F
      ensures header.b0 & 0xF0 == old(header.b0) & 0xF0 && header.b1 == old(header.b1)
    {
      header := FrameHeader((header.b0 & !0x0F) | (op & 0x0F), header.b1);
    }

    method SetIsFinal(value: bool)
      modifies this`header
      ensures header.IsFinal() == value
      ensures header.b0 & 0x7F == old(header.b0) & 0x7F && header.b1 == old(header.b1)
    {
      header := FrameHeader((header.b0 & !0x80) | (if value then 0x80 else 0), header.b1);
    }

    method SetIsMasked(value: bool)
      modifies this`header
      ensures header.IsMasked() == value
      ensures header.b1 & 0x7F == old(header.b1) & 0x7F && header.b0 == old(header.b0)
    {
      header := FrameHeader(header.b0, (header.b1 & !0x80) | (if value then 0x80 else 0));
    }

    method SetIsCompressed(value: bool)
      modifies this`header
      ensures header.Rsv1() == value
      ensures header.b0 & 0xBF == old(header.b0) & 0xBF && header.b1 == old(header.b1)
    {
      header := FrameHeader((header.b0 & !0x40) | (if value then 0x40 else 0), header.b1);
    }

    /**
     Record the payload size and its length code. The long forms are ORed into the length field, so the code
     comes out right exactly when the bits of the old field are among its own.
     */
    method SetPayloadSize(size: nat)
      modifies this`header, this`payloadSize
      ensures payloadSize == size
      ensures header.b0 == old(header.b0) && header.IsMasked() == old(header.IsMasked())
      ensures header.BasicSize() == LengthCode(size) <==>
              size <= 125 || size > 0xFFFF || old(header.b1) & 1 == 0
    {
      if size <= 125 {
        SmallSize(size, header.b1);
        header := FrameHeader(header.b0, (header.b1 & !0x7F) | (ByteOf(size) & 0x7F));
      } else if size <= 0xFFFF {
        LongSizes(header.b1);
        header := FrameHeader(header.b0, header.b1 | 0x7E);
      } else {
        LongSizes(header.b1);
        header := FrameHeader(header.b0, header.b1 | 0x7F);
      }
      payloadSize := size;
    }
  }

  lemma SmallSize(size: nat, b1: byte)
    requires size <= 125
    ensures ((((b1 & !0x7F) | (ByteOf(size) & 0x7F))) & 0x7F) as int == size
  {
    hide *;
    ByteOfValue(size);
    SmallByte(ByteOf(size), b1);
  }

  lemma SmallByte(b: byte, b1: byte)
    requires b as int <= 125
    ensures ((b1 & !0x7F) | (b & 0x7F)) & 0x7F == b
  {
  }

  lemma LongSizes(b1: byte)
    ensures ((b1 | 0x7E) & 0x7F) as int == 126 <==> b1 & 1 == 0
    ensures ((b1 | 0x7F) & 0x7F) as int == 127
  {
  }
}
