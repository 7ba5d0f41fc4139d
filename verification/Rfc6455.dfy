/**
 The framing and fragmentation rules of RFC 6455 as a grammar: frames (section 5.2) put together into messages
 with control frames anywhere between their fragments (sections 5.4 and 5.5). What is valid says nothing about how a
 client reads; only `Fits`, which singles out what a particular client can take, refers to its limits and to its text
 check. That the receiver understands exactly this grammar is proved in `Conformance`.
 */
module Rfc6455 {
  import opened Errors
  import opened Networking
  import opened Frame
  import opened Receiver
  import opened Utf8

  /** The payload length field: a 7-bit code and, for 126 and 127, two or eight more bytes. */
  datatype LengthField = LengthField(code: byte, ext: seq<byte>) {
    /** The field stands for `n`, not necessarily in the shortest form. */
    predicate Denotes(n: nat) {
      var basic := FrameHeader(0, code).BasicSize();
      && !FrameHeader(0, code).IsMasked()
      && if basic <= 125 then ext == [] && n == basic
         else if basic == 126 then |ext| == 2 && n == BigEndian(ext)
         else |ext| == 8 && n == BigEndian(ext)
    }
  }

  /** A payload with its length field. */
  datatype Body = Body(bytes: seq<byte>, len: LengthField) {
    predicate Valid() {
      len.Denotes(|bytes|)
    }
  }

  /** An unmasked frame, as servers send them. */
  function FrameBytes(fin: bool, rsv: bv8, op: Opcode, body: Body): (s: seq<byte>)
    requires rsv <= 7 && op <= 0xF
    ensures |s| == 2 + |body.len.ext| + |body.bytes|
  {
    [HeaderByte(fin, rsv, op), body.len.code] + body.len.ext + body.bytes
  }

  /** The status codes of sections 7.4.1 and 7.4.2 that may be put on the wire. */
  predicate MaySend(code: CloseCode) {
    (1000 <= code <= 1011 && !(1004 <= code <= 1006)) || 3000 <= code <= 4999
  }

  /** The body of a close frame (section 5.5.1): a status code in two bytes, and a reason in UTF-8. */
  ghost predicate IsReason(payload: seq<byte>) {
    |payload| >= 2 && MaySend(Join16(payload[0], payload[1])) && ValidUtf8(payload[2..])
  }

  datatype ControlFrame = ControlFrame(op: Opcode, body: Body) {
    function Bytes(): seq<byte>
      requires op <= 0xF
    {
      FrameBytes(true, 0, op, body)
    }

    /** At most 125 bytes; a close frame carries nothing, or a status code and a reason. */
    ghost predicate Valid() {
      && (op == CLOSE || op == PING || op == PONG)
      && body.Valid() && |body.bytes| <= 125
      && (op == CLOSE && body.bytes != [] ==> IsReason(body.bytes))
    }

    function Meaning(): Received {
      if op == CLOSE then CloseFrame(body.bytes)
      else if op == PING then PingFrame(body.bytes)
      else PongFrame(body.bytes)
    }
  }

  /** A later fragment of a message, and the control frames injected before it. */
  datatype Fragment = Fragment(before: seq<ControlFrame>, body: Body)

  /** What a server sends: messages in one or more fragments, and control frames between messages. */
  datatype Transmission =
    | Control(frame: ControlFrame)
    | Data(op: Opcode, compressed: bool, first: Body, more: seq<Fragment>)

  ghost predicate ValidControls(cs: seq<ControlFrame>) {
    forall i | 0 <= i < |cs| :: cs[i].Valid()
  }

  ghost predicate ValidFragments(fs: seq<Fragment>) {
    forall i | 0 <= i < |fs| :: fs[i].body.Valid() && ValidControls(fs[i].before)
  }

  ghost function ControlBytes(cs: seq<ControlFrame>): seq<byte>
    requires ValidControls(cs)
  {
    if cs == [] then [] else cs[0].Bytes() + ControlBytes(cs[1..])
  }

  ghost function FragmentBytes(fs: seq<Fragment>): seq<byte>
    requires ValidFragments(fs)
  {
    if fs == [] then []
    else ControlBytes(fs[0].before) + FrameBytes(|fs| == 1, 0, CONTINUATION, fs[0].body) + FragmentBytes(fs[1..])
  }

  /** RSV1 on the first frame marks a compressed message (section 6 of RFC 7692). */
  function Rsv(compressed: bool): (r: bv8)
    ensures r <= 7
  {
    if compressed then 4 else 0
  }

  ghost predicate ValidTransmission(t: Transmission) {
    match t
    case Control(c) => c.Valid()
    case Data(op, _, first, more) => (op == TEXT || op == BINARY) && first.Valid() && ValidFragments(more)
  }

  ghost function TransmissionBytes(t: Transmission): seq<byte>
    requires ValidTransmission(t)
  {
    match t
    case Control(c) => c.Bytes()
    case Data(op, z, first, more) => FrameBytes(more == [], Rsv(z), op, first) + FragmentBytes(more)
  }

  ghost function Bytes(ts: seq<Transmission>): seq<byte>
    requires forall i | 0 <= i < |ts| :: ValidTransmission(ts[i])
  {
    if ts == [] then [] else TransmissionBytes(ts[0]) + Bytes(ts[1..])
  }

  // ---- what a transmission means -----------------------------------------------------------------------------

  function ControlMeanings(cs: seq<ControlFrame>): seq<Received> {
    if cs == [] then [] else [cs[0].Meaning()] + ControlMeanings(cs[1..])
  }

  /** The control frames among the fragments, in order of arrival. */
  function Interleaved(fs: seq<Fragment>): seq<Received> {
    if fs == [] then [] else ControlMeanings(fs[0].before) + Interleaved(fs[1..])
  }

  /** The payloads of the fragments, put together. */
  function Joined(fs: seq<Fragment>): seq<byte> {
    if fs == [] then [] else fs[0].body.bytes + Joined(fs[1..])
  }

  /** The content of a message: its payload, or what the payload decompresses to after the earlier ones. */
  function Content(cfg: Config, compressed: bool, payload: seq<byte>, inflated: seq<seq<byte>>): Result<seq<byte>> {
    if compressed then cfg.inflate(inflated + [payload], cfg.maxSize) else Ok(payload)
  }

  /** The message fits the buffers of this client, decompresses, and is acceptable text if it is text. */
  ghost predicate Fits(cfg: Config, inflated: seq<seq<byte>>, t: Transmission)
    requires t.Data?
  {
    var payload := t.first.bytes + Joined(t.more);
    && (t.compressed ==>
          && cfg.zMax.Some? && |payload| <= cfg.zMax.value
          && |t.first.bytes| <= cfg.maxSize
          && forall i | 0 <= i < |t.more| :: |t.more[i].body.bytes| <= cfg.maxSize)
    && match Content(cfg, t.compressed, payload, inflated)
       case Err(_) => false
       case Ok(content) => |content| <= cfg.maxSize && (t.op == TEXT ==> TextAccepted(content))
  }

  function HistoryAfter(inflated: seq<seq<byte>>, t: Transmission): seq<seq<byte>> {
    if t.Data? && t.compressed then inflated + [t.first.bytes + Joined(t.more)] else inflated
  }

  ghost predicate Acceptable(cfg: Config, inflated: seq<seq<byte>>, ts: seq<Transmission>)
    decreases |ts|
  {
    ts == [] ||
    (&& ValidTransmission(ts[0])
     && (ts[0].Data? ==> Fits(cfg, inflated, ts[0]))
     && Acceptable(cfg, HistoryAfter(inflated, ts[0]), ts[1..]))
  }

  /** What the application is to receive for one transmission. */
  function Meaning(cfg: Config, inflated: seq<seq<byte>>, t: Transmission): (rs: seq<Received>)
    requires t.Data? ==> Content(cfg, t.compressed, t.first.bytes + Joined(t.more), inflated).Ok?
  {
    match t
    case Control(c) => [c.Meaning()]
    case Data(op, z, first, more) =>
      Interleaved(more) + [Message(op, Content(cfg, z, first.bytes + Joined(more), inflated).value)]
  }

  ghost function Meanings(cfg: Config, inflated: seq<seq<byte>>, ts: seq<Transmission>): (rs: seq<Received>)
    requires Acceptable(cfg, inflated, ts)
    decreases |ts|
  {
    if ts == [] then []
    else Meaning(cfg, inflated, ts[0]) + Meanings(cfg, HistoryAfter(inflated, ts[0]), ts[1..])
  }

  ghost function HistoryAfterAll(inflated: seq<seq<byte>>, ts: seq<Transmission>): seq<seq<byte>>
    decreases |ts|
  {
    if ts == [] then inflated else HistoryAfterAll(HistoryAfter(inflated, ts[0]), ts[1..])
  }

  lemma {:induction false} AcceptableIsValid(cfg: Config, inflated: seq<seq<byte>>, ts: seq<Transmission>)
    requires Acceptable(cfg, inflated, ts)
    ensures forall i | 0 <= i < |ts| :: ValidTransmission(ts[i])
    decreases |ts|
  {
    if ts != [] {
      AcceptableIsValid(cfg, HistoryAfter(inflated, ts[0]), ts[1..]);
    }
  }
}
