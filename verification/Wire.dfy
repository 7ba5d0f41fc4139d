/**
 What a client makes of the bytes of a server's frames, written out as section 5 of RFC 6455 numbers them: opcodes,
 flags, the three length forms, and the status codes of errors.
 */
module Wire {
  import opened Errors
  import opened Seqs
  import opened Networking
  import opened Frame
  import opened Utf8
  import opened Receiver
  import opened Rfc6455
  import opened Conformance

  /** The payload with this length field is a body of the grammar. */
  lemma LengthIsField(l: seq<byte>, data: seq<byte>) returns (body: Body)
    requires IsLength(l, |data|)
    ensures body.Valid() && body.bytes == data && [body.len.code] + body.len.ext == l
  {
    hide BigEndian;
    body := Body(data, LengthField(l[0], l[1..]));
    SevenBits(l[0]);
    assert [l[0]] + l[1..] == l;
    if |l| == 3 {
      TwoBytes(l[1..]);
    } else if |l| == 9 {
      EightBytes(l[1..]);
    }
  }

  /** The bytes of a frame, its first byte as a number. */
  lemma FrameIs(b0: byte, fin: bool, rsv: bv8, op: Opcode, body: Body, l: seq<byte>)
    requires rsv <= 7 && op <= 0xF && b0 == HeaderByte(fin, rsv, op) && [body.len.code] + body.len.ext == l
    ensures FrameBytes(fin, rsv, op, body) == [b0] + l + body.bytes
  {
    assert [b0, body.len.code] + body.len.ext == [b0] + ([body.len.code] + body.len.ext);
  }

  // ---- control frames ----------------------------------------------------------------------------------------

  lemma ControlBytes(b0: byte, op: Opcode, l: seq<byte>, data: seq<byte>) returns (c: ControlFrame)
    requires op <= 0xF && b0 == HeaderByte(true, 0, op)
    requires IsLength(l, |data|)
    ensures c.op == op && c.body.bytes == data && c.body.Valid() && c.Bytes() == [b0] + l + data
  {
    hide IsLength, HeaderByte, FrameBytes;
    var body := LengthIsField(l, data);
    FrameIs(b0, true, 0, op, body, l);
    c := Rfc6455.ControlFrame(op, body);
  }

  /** 0x89 is a ping, at any point of a message. */
  lemma PingIsRead(cfg: Config, p: Progress, l: seq<byte>, data: seq<byte>, rest: seq<byte>)
    requires |data| <= 125 && IsLength(l, |data|)
    ensures ReadAll(cfg, p, [0x89] + l + data + rest) == [PingFrame(data)] + ReadAll(cfg, p, rest)
  {
    hide ReadAll, IsLength;
    var c := ControlBytes(0x89, PING, l, data);
    ControlIsRead(cfg, p, c, rest);
  }

  /** 0x8A is a pong. */
  lemma PongIsRead(cfg: Config, p: Progress, l: seq<byte>, data: seq<byte>, rest: seq<byte>)
    requires |data| <= 125 && IsLength(l, |data|)
    ensures ReadAll(cfg, p, [0x8A] + l + data + rest) == [PongFrame(data)] + ReadAll(cfg, p, rest)
  {
    hide ReadAll, IsLength;
    var c := ControlBytes(0x8A, PONG, l, data);
    ControlIsRead(cfg, p, c, rest);
  }

  /** The number in the first two bytes of a close frame. */
  function StatusCode(data: seq<byte>): nat
    requires |data| >= 2
  {
    0x100 * data[0] as int + data[1] as int
  }

  /** The status codes of sections 7.4.1 and 7.4.2 that a frame may carry. */
  predicate MayCarry(code: nat) {
    1000 <= code <= 1003 || 1007 <= code <= 1011 || 3000 <= code <= 4999
  }

  lemma CodeInNumbers(code: CloseCode)
    ensures MaySend(code) <==> MayCarry(code as int)
  {
  }

  lemma ReasonInNumbers(data: seq<byte>)
    ensures IsReason(data) <==> |data| >= 2 && MayCarry(StatusCode(data)) && ValidUtf8(data[2..])
  {
    hide ValidUtf8, MaySend, MayCarry, Join16;
    if |data| >= 2 {
      var code := Join16(data[0], data[1]);
      JoinedValue(data[0], data[1]);
      CodeInNumbers(code);
      assert code as int == StatusCode(data);
    }
  }

  /** 0x88 is a close frame, with nothing in it or a status code and a reason. */
  lemma CloseIsRead(cfg: Config, p: Progress, l: seq<byte>, data: seq<byte>, rest: seq<byte>)
    requires |data| <= 125 && IsLength(l, |data|)
    requires data == [] || (|data| >= 2 && MayCarry(StatusCode(data)) && ValidUtf8(data[2..]))
    ensures ReadAll(cfg, p, [0x88] + l + data + rest) == [CloseFrame(data)] + ReadAll(cfg, p, rest)
  {
    hide ReadAll, IsLength, IsReason, MayCarry;
    var c := ControlBytes(0x88, CLOSE, l, data);
    ReasonInNumbers(data);
    ControlIsRead(cfg, p, c, rest);
  }

  // ---- messages ----------------------------------------------------------------------------------------------

  lemma TextIsAccepted(data: seq<byte>)
    requires ValidUtf8(data) && |data| < 0x7FFF_FFFE
    ensures TextAccepted(data)
  {
    hide ValidUtf8;
    NoOverflow(data, 0);
    assert Examined(data) == data;
  }

  /** A message in one frame. */
  lemma MessageIsRead(cfg: Config, p: Progress, b0: byte, op: Opcode, l: seq<byte>, data: seq<byte>, rest: seq<byte>)
    returns (q: Progress)
    requires BetweenMessages(p) && |data| <= cfg.maxSize && IsLength(l, |data|)
    requires (op == TEXT || op == BINARY) && b0 == HeaderByte(true, 0, op) && (op == TEXT ==> TextAccepted(data))
    ensures BetweenMessages(q) && q.inflated == p.inflated
    ensures ReadAll(cfg, p, [b0] + l + data + rest) == [Message(op, data)] + ReadAll(cfg, q, rest)
  {
    hide ReadAll, IsLength, HeaderByte, FrameBytes, TextAccepted;
    var body := LengthIsField(l, data);
    FrameIs(b0, true, 0, op, body, l);
    var t := Data(op, false, body, []);
    NoMore(data, rest);
    assert data + Joined([]) == data && FrameBytes(true, 0, op, body) + FragmentBytes([]) == [b0] + l + data;
    q := TransmissionIsRead(cfg, p, t, rest);
    assert Interleaved([]) + [Message(op, data)] == [Message(op, data)];
  }

  /** 0x81 is a text message. */
  lemma TextIsRead(cfg: Config, p: Progress, l: seq<byte>, data: seq<byte>, rest: seq<byte>) returns (q: Progress)
    requires BetweenMessages(p) && |data| <= cfg.maxSize && IsLength(l, |data|)
    requires ValidUtf8(data) && |data| < 0x7FFF_FFFE
    ensures BetweenMessages(q) && q.inflated == p.inflated
    ensures ReadAll(cfg, p, [0x81] + l + data + rest) == [Message(1, data)] + ReadAll(cfg, q, rest)
  {
    hide ReadAll, IsLength, ValidUtf8, TextAccepted;
    TextIsAccepted(data);
    q := MessageIsRead(cfg, p, 0x81, TEXT, l, data, rest);
  }

  /** 0x82 is a binary message. */
  lemma BinaryIsRead(cfg: Config, p: Progress, l: seq<byte>, data: seq<byte>, rest: seq<byte>) returns (q: Progress)
    requires BetweenMessages(p) && |data| <= cfg.maxSize && IsLength(l, |data|)
    ensures BetweenMessages(q) && q.inflated == p.inflated
    ensures ReadAll(cfg, p, [0x82] + l + data + rest) == [Message(2, data)] + ReadAll(cfg, q, rest)
  {
    hide ReadAll, IsLength, TextAccepted;
    q := MessageIsRead(cfg, p, 0x82, BINARY, l, data, rest);
  }

  /** 0x01 begins a text message that 0x80 ends; a ping in between is returned first. */
  lemma FragmentsAreRead(cfg: Config, p: Progress, l1: seq<byte>, a: seq<byte>, l2: seq<byte>, ping: seq<byte>,
                         l3: seq<byte>, b: seq<byte>, rest: seq<byte>)
    returns (q: Progress)
    requires BetweenMessages(p) && |a + b| <= cfg.maxSize && |ping| <= 125
    requires IsLength(l1, |a|) && IsLength(l2, |ping|) && IsLength(l3, |b|)
    requires ValidUtf8(a + b) && |a + b| < 0x7FFF_FFFE
    ensures BetweenMessages(q) && q.inflated == p.inflated
    ensures ReadAll(cfg, p, ([0x01] + l1 + a) + ([0x89] + l2 + ping) + ([0x80] + l3 + b) + rest) ==
            [PingFrame(ping), Message(1, a + b)] + ReadAll(cfg, q, rest)
  {
    hide ReadAll, IsLength, ValidUtf8, TextAccepted, FrameBytes, FragmentBytes, Interleaved, Joined;
    TextIsAccepted(a + b);
    var first := LengthIsField(l1, a);
    var last := LengthIsField(l3, b);
    var c := ControlBytes(0x89, PING, l2, ping);
    FrameIs(0x01, false, 0, TEXT, first, l1);
    FrameIs(0x80, true, 0, CONTINUATION, last, l3);
    var t := Data(TEXT, false, first, [Fragment([c], last)]);
    OneFragment(c, last);
    assert TransmissionBytes(t) == ([0x01] + l1 + a) + (([0x89] + l2 + ping) + ([0x80] + l3 + b));
    Assoc([0x01] + l1 + a, [0x89] + l2 + ping, [0x80] + l3 + b);
    q := TransmissionIsRead(cfg, p, t, rest);
    assert Meaning(cfg, p.inflated, t) == [PingFrame(ping), Message(1, a + b)];
  }

  lemma OneFragment(c: ControlFrame, body: Body)
    requires body.Valid() && c.Valid()
    ensures var fs := [Fragment([c], body)];
            && ValidFragments(fs) && Joined(fs) == body.bytes && Interleaved(fs) == [c.Meaning()]
            && FragmentBytes(fs) == c.Bytes() + FrameBytes(true, 0, CONTINUATION, body)
  {
    hide FrameBytes, Rfc6455.ControlFrame.Bytes, Rfc6455.ControlFrame.Meaning;
    var fs := [Fragment([c], body)];
    OneControl(c);
    assert fs[1..] == [] && body.bytes + [] == body.bytes && [c.Meaning()] + [] == [c.Meaning()];
    var s := c.Bytes() + FrameBytes(true, 0, CONTINUATION, body);
    assert s + [] == s;
  }

  lemma OneControl(c: ControlFrame)
    requires c.Valid()
    ensures ValidControls([c]) && ControlMeanings([c]) == [c.Meaning()]
    ensures Rfc6455.ControlBytes([c]) == c.Bytes()
  {
    hide FrameBytes, Rfc6455.ControlFrame.Meaning;
    assert [c][1..] == [] && c.Bytes() + [] == c.Bytes();
  }

  /** 0xC1 and 0xC2 are messages compressed in one frame: RSV1 says so (section 6 of RFC 7692). */
  lemma CompressedIsRead(cfg: Config, p: Progress, kind: byte, l: seq<byte>, data: seq<byte>, content: seq<byte>,
                         rest: seq<byte>) returns (q: Progress)
    requires BetweenMessages(p) && |data| <= cfg.maxSize && IsLength(l, |data|)
    requires cfg.zMax.Some? && |data| <= cfg.zMax.value && cfg.inflate(p.inflated + [data], cfg.maxSize) == Ok(content)
    requires |content| <= cfg.maxSize && (kind == 1 || kind == 2)
    requires kind == 1 ==> ValidUtf8(content) && |content| < 0x7FFF_FFFE
    ensures BetweenMessages(q) && q.inflated == p.inflated + [data]
    ensures ReadAll(cfg, p, [0xC0 + kind] + l + data + rest) == [Message(kind, content)] + ReadAll(cfg, q, rest)
  {
    hide ReadAll, IsLength, ValidUtf8, TextAccepted, FrameBytes, HeaderByte;
    if kind == 1 {
      TextIsAccepted(content);
    }
    var body := LengthIsField(l, data);
    CompressedByte(kind);
    FrameIs(0xC0 + kind, true, 4, kind, body, l);
    var t := Data(kind, true, body, []);
    NoMore(data, rest);
    assert data + Joined([]) == data && FrameBytes(true, 4, kind, body) + FragmentBytes([]) == [0xC0 + kind] + l + data;
    q := TransmissionIsRead(cfg, p, t, rest);
    assert Interleaved([]) + [Message(kind, content)] == [Message(kind, content)];
  }

  lemma CompressedByte(kind: byte)
    requires kind == 1 || kind == 2
    ensures kind <= 0xF && (kind == TEXT || kind == BINARY) && HeaderByte(true, 4, kind) == 0xC0 + kind
    ensures Rsv(true) == 4
  {
  }

  // ---- what is refused, and with which status code -----------------------------------------------------------

  /** The connection fails with this status code, and nothing more is received. */
  ghost predicate FailsWith(cfg: Config, p: Progress, s: seq<byte>, code: ErrorCode, status: CloseCode) {
    ReadAll(cfg, p, s) == [Failure(WSError(code, status))]
  }

  lemma FailsAtFrame(cfg: Config, p: Progress, s: seq<byte>, code: ErrorCode, status: CloseCode, used: nat)
    requires StepFrame(cfg, p, s) == Returned(Failure(WSError(code, status)), used)
    ensures FailsWith(cfg, p, s, code, status)
  {
    hide StepFrame, ReadAll;
    ReadAllFrame(cfg, p, s);
  }

  /** Frames from a server must not be masked (section 5.1). */
  lemma MaskedIsRefused(cfg: Config, p: Progress, b0: byte, b1: byte, rest: seq<byte>)
    requires b1 >= 0x80 && (b1 <= 0xFD || |rest| >= 8)
    ensures FailsWith(cfg, p, [b0, b1] + rest, ProtocolError, 1002)
  {
    hide ReadAll, BigEndian, FrameHeader.OpCode, FrameHeader.IsFinal;
    var s := [b0, b1] + rest;
    assert s[0] == b0 && s[1] == b1;
    MaskedByte(b0, b1);
    var used :| StepFrame(cfg, p, s) == Returned(Failure(WSError(ProtocolError, 1002)), used);
    FailsAtFrame(cfg, p, s, ProtocolError, 1002, used);
  }

  lemma MaskedByte(b0: byte, b1: byte)
    requires b1 >= 0x80
    ensures FrameHeader(b0, b1).IsMasked() && (b1 <= 0xFD ==> FrameHeader(b0, b1).BasicSize() <= 125)
  {
    assert b1 <= 0xFD ==> b1 & 0x7F <= 125;
    SevenBits(b1 & 0x7F);
  }

  /** A header whose length field is complete is decoded, wherever the payload is. */
  lemma HeaderIsRead(b0: byte, l: seq<byte>, n: nat, rest: seq<byte>)
    requires IsLength(l, n)
    ensures DecodeHeader([b0] + l + rest) ==
            if b0 & 0x80 == 0 && b0 & 0x0F == 8 then BadHeader(WSError(ProtocolError, 1002), 2)
            else Header(FrameHeader(b0, l[0]), n, 1 + |l|)
    ensures ([b0] + l + rest)[1 + |l|..] == rest
  {
    hide BigEndian;
    var s := [b0] + l + rest;
    SevenBits(l[0]);
    assert s[0] == b0 && s[1] == l[0] && s[..1 + |l|] == [b0] + l;
    if |l| == 3 {
      assert s[2..4] == l[1..];
      TwoBytes(l[1..]);
    } else if |l| == 9 {
      assert s[2..10] == l[1..];
      EightBytes(l[1..]);
    }
  }

  /** A control frame is refused unless it is final, without RSV bits, of a known kind and short (section 5.5). */
  lemma ControlIsRefused(cfg: Config, p: Progress, b0: byte, l: seq<byte>, n: nat, rest: seq<byte>)
    requires b0 & 0x0F >= 8 && IsLength(l, n) && (!(b0 == 0x88 || b0 == 0x89 || b0 == 0x8A) || n > 125)
    ensures FailsWith(cfg, p, [b0] + l + rest, ProtocolError, 1002)
  {
    hide ReadAll, DecodeHeader;
    var s := [b0] + l + rest;
    HeaderIsRead(b0, l, n, rest);
    KnownControls(b0, l[0]);
    var used :| StepFrame(cfg, p, s) == Returned(Failure(WSError(ProtocolError, 1002)), used);
    FailsAtFrame(cfg, p, s, ProtocolError, 1002, used);
  }

  lemma KnownControls(b0: byte, b1: byte)
    requires b0 & 0x0F >= 8
    ensures var h := FrameHeader(b0, b1);
            && h.IsControl()
            && (h.IsFinal() && !h.HasRsvBits() && !IsReserved(h.OpCode()) <==> b0 == 0x88 || b0 == 0x89 || b0 == 0x8A)
  {
  }

  /** The opcodes 3 to 7 are refused. */
  lemma ReservedIsRefused(cfg: Config, p: Progress, b0: byte, l: seq<byte>, n: nat, rest: seq<byte>)
    requires 3 <= b0 & 0x0F <= 7 && IsLength(l, n)
    ensures FailsWith(cfg, p, [b0] + l + rest, ProtocolError, 1002)
  {
    hide ReadAll, DecodeHeader, IsLength;
    var s := [b0] + l + rest;
    HeaderIsRead(b0, l, n, rest);
    FailsAtFrame(cfg, p, s, ProtocolError, 1002, 1 + |l|);
  }

  /** A close frame with a single byte, a code that may not be sent, or a reason that is not UTF-8 (section 5.5.1). */
  lemma CloseIsRefused(cfg: Config, p: Progress, l: seq<byte>, data: seq<byte>, rest: seq<byte>)
    requires 0 < |data| <= 125 && IsLength(l, |data|)
    ensures |data| == 1 || !MayCarry(StatusCode(data)) ==>
              FailsWith(cfg, p, [0x88] + l + data + rest, ProtocolError, 1002)
    ensures |data| >= 2 && MayCarry(StatusCode(data)) && !ValidUtf8(data[2..]) ==>
              FailsWith(cfg, p, [0x88] + l + data + rest, ProtocolError, 1007)
  {
    hide ReadAll, DecodeHeader, IsLength, MayCarry, ValidUtf8, StatusCode, StepFrame;
    var s := [0x88] + l + data + rest;
    Assoc([0x88] + l, data, rest);
    HeaderIsRead(0x88, l, |data|, data + rest);
    if |data| == 1 {
      SingleByte(cfg, p, l, data + rest);
      FailsAtFrame(cfg, p, s, ProtocolError, 1002, 1 + |l|);
    } else {
      CloseStep(cfg, p, l, data, rest);
      CheckInNumbers(data);
      if !MayCarry(StatusCode(data)) {
        FailsAtFrame(cfg, p, s, ProtocolError, 1002, 1 + |l| + |data|);
      } else if !ValidUtf8(data[2..]) {
        FailsAtFrame(cfg, p, s, ProtocolError, 1007, 1 + |l| + |data|);
      }
    }
  }

  lemma SingleByte(cfg: Config, p: Progress, l: seq<byte>, rest: seq<byte>)
    requires IsLength(l, 1)
    ensures StepFrame(cfg, p, [0x88] + l + rest) == Returned(Failure(WSError(ProtocolError, 1002)), 1 + |l|)
  {
    hide DecodeHeader, IsLength;
    HeaderIsRead(0x88, l, 1, rest);
  }

  lemma CloseStep(cfg: Config, p: Progress, l: seq<byte>, data: seq<byte>, rest: seq<byte>)
    requires 2 <= |data| <= 125 && IsLength(l, |data|)
    ensures StepFrame(cfg, p, [0x88] + l + data + rest) == Returned(CheckClose(data), 1 + |l| + |data|)
  {
    hide DecodeHeader, IsLength, CheckClose;
    Assoc([0x88] + l, data, rest);
    HeaderIsRead(0x88, l, |data|, data + rest);
    assert (data + rest)[..|data|] == data;
  }

  lemma CheckInNumbers(data: seq<byte>)
    requires |data| >= 2
    ensures CheckClose(data) ==
            if !MayCarry(StatusCode(data)) then Failure(WSError(ProtocolError, 1002))
            else if !ValidUtf8(data[2..]) then Failure(WSError(ProtocolError, 1007))
            else CloseFrame(data)
  {
    hide ValidUtf8, MayCarry, Join16, MaySend, IsValidCloseCode;
    var code := Join16(data[0], data[1]);
    JoinedValue(data[0], data[1]);
    CodesAgree(code);
    CodeInNumbers(code);
    assert code as int == StatusCode(data);
  }

  /** A data frame whose payload does not fit the buffer (section 7.4.1). */
  lemma TooBigIsRefused(cfg: Config, p: Progress, b0: byte, l: seq<byte>, n: nat, rest: seq<byte>)
    requires b0 & 0x0F <= 2 && IsLength(l, n) && n > cfg.maxSize - if p.state.isFirst then 0 else |p.data|
    ensures FailsWith(cfg, p, [b0] + l + rest, BufferError, 1009)
  {
    hide ReadAll, DecodeHeader, IsLength;
    HeaderIsRead(b0, l, n, rest);
    FailsAtFrame(cfg, p, [b0] + l + rest, BufferError, 1009, 1 + |l|);
  }

  /** RSV bits that mean nothing, and a new message or RSV bits while one is in progress (sections 5.2 and 5.4). */
  lemma DataIsRefused(cfg: Config, p: Progress, b0: byte, l: seq<byte>, n: nat, rest: seq<byte>)
    requires b0 & 0x0F <= 2 && IsLength(l, n) && n <= cfg.maxSize - if p.state.isFirst then 0 else |p.data|
    requires if p.state.isFirst then b0 & 0x30 != 0 || (b0 & 0x40 != 0 && cfg.zMax.None?)
             else b0 & 0x0F != 0 || b0 & 0x70 != 0
    ensures FailsWith(cfg, p, [b0] + l + rest, ProtocolError, 1002)
  {
    hide ReadAll, DecodeHeader, IsLength;
    HeaderIsRead(b0, l, n, rest);
    RsvInNumbers(b0);
    FailsAtFrame(cfg, p, [b0] + l + rest, ProtocolError, 1002, 1 + |l|);
  }

  lemma RsvInNumbers(b0: byte)
    ensures b0 & 0x30 != 0 <==> b0 & 0x20 == 0x20 || b0 & 0x10 == 0x10
    ensures b0 & 0x40 != 0 <==> b0 & 0x40 == 0x40
  {
  }

  /** A text message that is not UTF-8 (section 8.1). */
  lemma BadTextIsRefused(cfg: Config, p: Progress, l: seq<byte>, data: seq<byte>, rest: seq<byte>)
    requires BetweenMessages(p) && |data| <= cfg.maxSize && IsLength(l, |data|)
    requires !ValidUtf8(data) && |data| < 0x7FFF_FFFE
    ensures FailsWith(cfg, p, [0x81] + l + data + rest, ProtocolError, 1007)
  {
    hide ReadAll, IsLength, StepFrame, FrameBytes, DataResult, ValidUtf8, HeaderByte;
    var s := [0x81] + l + data + rest;
    var body := LengthIsField(l, data);
    assert HeaderByte(true, 0, TEXT) == 0x81 by {
      TextByte();
    }
    FrameIs(0x81, true, 0, TEXT, body, l);
    StepDataFrame(cfg, p, true, 0, TEXT, body, rest);
    var q := FirstFrameStarts(cfg, p, TEXT, false, true, body, 2 + |body.len.ext|);
    ReadAllFrame(cfg, p, s);
    BadTextFails(cfg, q, data);
  }

  lemma TextByte()
    ensures HeaderByte(true, 0, TEXT) == 0x81
  {
  }

  lemma BadTextFails(cfg: Config, q: Progress, data: seq<byte>)
    requires InMessage(q, TEXT, false, data) && !ValidUtf8(data) && |data| < 0x7FFF_FFFE
    ensures Deliver(cfg, q).0 == Failure(WSError(ProtocolError, 1007))
  {
    hide ValidUtf8;
    NoOverflow(data, 0);
    assert Examined(data) == data;
  }
}
