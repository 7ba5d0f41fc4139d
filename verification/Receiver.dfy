/**
 What a client must make of a server's byte stream, as pure functions of that stream: no ring, no reads, no
 chunks. The client class is proved to compute exactly this.
 */
module Receiver {
  import opened Errors
  import opened Networking
  import opened Frame
  import opened Utf8

  const PROTOCOL_VIOLATION: WSError := WSError(ProtocolError, PROTOCOL_ERROR)
  const BUFFER_TOO_SMALL: WSError := WSError(BufferError, NOT_SET)

  /** What `read_message` returns. A message's kind is the opcode of its first frame. */
  datatype Received =
    | Message(kind: Opcode, data: seq<byte>)
    | PingFrame(payload: seq<byte>)
    | PongFrame(payload: seq<byte>)
    | CloseFrame(payload: seq<byte>)
    | Failure(error: WSError)

  /** The state that survives from one call to the next while a message is incomplete. */
  datatype MessageReadState = MessageReadState(isCompressed: bool, isFirst: bool, opCode: Opcode)

  const INITIAL_STATE: MessageReadState := MessageReadState(false, true, NOT_SET_OPCODE)

  /**
     The fixed parameters of a connection: the size of the caller's message buffer and, if permessage-deflate was
     negotiated, the size of the decompression buffer. `inflate` stands for zlib, which remembers earlier messages,
     together with the output buffer it is given: it maps the compressed payloads so far, the last one included, and
     the room left for output to the uncompressed form of the last one. It may fail although that form would fit,
     because output space is set aside ahead of each call of zlib, 64 bytes or five times the input at least.
   */
  datatype Config = Config(maxSize: nat, zMax: Option<nat>, inflate: (seq<seq<byte>>, nat) -> Result<seq<byte>>)

  /** A message in progress: its read state, and what the message and decompression buffers hold. */
  datatype Progress = Progress(state: MessageReadState, data: seq<byte>, zdata: seq<byte>, inflated: seq<seq<byte>>)

  // ---- one frame header ------------------------------------------------------------------------------------

  datatype HeaderResult =
    | ShortHeader
    | BadHeader(error: WSError, used: nat)
    | Header(header: FrameHeader, size: nat, used: nat)

  function DecodeHeader(s: seq<byte>): (r: HeaderResult)
    ensures !r.ShortHeader? ==> 2 <= r.used <= |s|
  {
    if |s| < 2 then ShortHeader
    else
      var h := FrameHeader(s[0], s[1]);
      if !h.IsFinal() && h.OpCode() == CLOSE then BadHeader(PROTOCOL_VIOLATION, 2)
      else if h.BasicSize() <= 125 then CheckMask(h, h.BasicSize(), 2)
      else if h.BasicSize() == 126 then
        if |s| < 4 then ShortHeader else CheckMask(h, BigEndian(s[2..4]), 4)
      else
        if |s| < 10 then ShortHeader else CheckMask(h, BigEndian(s[2..10]), 10)
  }

  function CheckMask(h: FrameHeader, size: nat, used: nat): HeaderResult {
    if h.IsMasked() then BadHeader(PROTOCOL_VIOLATION, used) else Header(h, size, used)
  }

  // ---- one control frame -----------------------------------------------------------------------------------

  datatype ControlResult = ShortControl | Control(received: Received, used: nat)

  function CloseCodeOf(payload: seq<byte>): CloseCode
    requires |payload| >= 2
  {
    Join16(payload[0], payload[1])
  }

  /** The outcome of a control frame whose payload starts `s`. Close frames are checked, others taken as they are. */
  ghost function DecodeControl(h: FrameHeader, size: nat, s: seq<byte>): (r: ControlResult)
    ensures r.Control? ==> r.used <= |s|
  {
    if !h.IsFinal() || h.HasRsvBits() || size > 125 then Control(Failure(PROTOCOL_VIOLATION), 0)
    else if h.OpCode() == CLOSE then
      if size == 1 then Control(Failure(PROTOCOL_VIOLATION), 0)
      else if |s| < size then ShortControl
      else Control(CheckClose(s[..size]), size)
    else if h.OpCode() == PING then
      if |s| < size then ShortControl else Control(PingFrame(s[..size]), size)
    else if h.OpCode() == PONG then
      if |s| < size then ShortControl else Control(PongFrame(s[..size]), size)
    else Control(Failure(PROTOCOL_VIOLATION), 0)
  }

  ghost function CheckClose(payload: seq<byte>): Received
    requires |payload| != 1
  {
    if payload == [] then CloseFrame(payload)
    else if !IsValidCloseCode(CloseCodeOf(payload)) then Failure(PROTOCOL_VIOLATION)
    else if !ValidUtf8(payload[2..]) then Failure(WSError(ProtocolError, INVALID_FRAME_PAYLOAD_DATA))
    else CloseFrame(payload)
  }

  // ---- one data frame --------------------------------------------------------------------------------------

  /** What a data frame's header does to the read state: the rules of section 5.4 of RFC 6455, and of RFC 7692. */
  function NextState(compressing: bool, st: MessageReadState, h: FrameHeader): (r: Result<MessageReadState>) {
    if st.isFirst then
      if h.Rsv1() && !compressing then Err(PROTOCOL_VIOLATION)
      else if h.Rsv2() || h.Rsv3() then Err(PROTOCOL_VIOLATION)
      else CheckOpcode(MessageReadState(st.isCompressed || h.Rsv1(), false, h.OpCode()))
    else if h.OpCode() != CONTINUATION || h.HasRsvBits() then Err(PROTOCOL_VIOLATION)
    else CheckOpcode(st)
  }

  function CheckOpcode(st: MessageReadState): Result<MessageReadState> {
    if st.opCode != CONTINUATION && st.opCode != TEXT && st.opCode != BINARY then Err(PROTOCOL_VIOLATION) else Ok(st)
  }

  /** The checks on a data frame, and the progress they lead to before its payload is read. */
  function AcceptHeader(cfg: Config, p: Progress, h: FrameHeader, size: nat): (r: Result<Progress>) {
    var data := if p.state.isFirst then [] else p.data;
    if cfg.maxSize - |data| < size then Err(WSError(BufferError, MESSAGE_TOO_BIG))
    else
      match NextState(cfg.zMax.Some?, p.state, h)
      case Err(e) => Err(e)
      case Ok(st) => Ok(Progress(st, data, if p.state.isFirst && h.Rsv1() then [] else p.zdata, p.inflated))
  }

  datatype PayloadResult = ShortPayload | BadPayload(error: WSError) | Taken(progress: Progress)

  /** Append the next `size` bytes of `s` to the buffer the message is collected in. */
  function TakePayload(cfg: Config, p: Progress, size: nat, s: seq<byte>): (r: PayloadResult)
    ensures r.Taken? ==> size <= |s|
  {
    if size == 0 then Taken(p)
    else if p.state.isCompressed then
      if cfg.zMax.None? || |p.zdata| + size > cfg.zMax.value then BadPayload(BUFFER_TOO_SMALL)
      else if |s| < size then ShortPayload
      else Taken(p.(zdata := p.zdata + s[..size]))
    else if |p.data| + size > cfg.maxSize then BadPayload(BUFFER_TOO_SMALL)
    else if |s| < size then ShortPayload
    else Taken(p.(data := p.data + s[..size]))
  }

  // ---- one frame -------------------------------------------------------------------------------------------

  /** What one frame leads to: more bytes needed, another frame, a message complete, or a result for the caller. */
  datatype FrameResult =
    | ShortFrame
    | More(progress: Progress, used: nat)
    | Complete(progress: Progress, used: nat)
    | Returned(received: Received, used: nat)

  ghost function StepFrame(cfg: Config, p: Progress, s: seq<byte>): (r: FrameResult)
    ensures !r.ShortFrame? ==> 2 <= r.used <= |s|
    ensures r.Returned? && !r.received.Failure? ==> !r.received.Message?
  {
    match DecodeHeader(s)
    case ShortHeader => ShortFrame
    case BadHeader(e, used) => Returned(Failure(e), used)
    case Header(h, size, used) =>
      if IsReserved(h.OpCode()) then Returned(Failure(PROTOCOL_VIOLATION), used)
      else if h.IsControl() then StepControl(h, size, s, used)
      else StepData(cfg, p, h, size, s, used)
  }

  /** A control frame with its header, the first `used` bytes of `s`, decoded: the message in progress is left alone. */
  ghost function StepControl(h: FrameHeader, size: nat, s: seq<byte>, used: nat): (r: FrameResult)
    requires 2 <= used <= |s|
    ensures !r.ShortFrame? ==> r.Returned? && used <= r.used <= |s|
    ensures r.Returned? && !r.received.Failure? ==> !r.received.Message?
  {
    match DecodeControl(h, size, s[used..])
    case ShortControl => ShortFrame
    case Control(r, n) => Returned(r, used + n)
  }

  /** A data frame with its header, the first `used` bytes of `s`, decoded. */
  function StepData(cfg: Config, p: Progress, h: FrameHeader, size: nat, s: seq<byte>, used: nat): (r: FrameResult)
    requires 2 <= used <= |s|
    ensures !r.ShortFrame? ==> used <= r.used <= |s|
    ensures r.Returned? ==> r.received.Failure?
  {
    match AcceptHeader(cfg, p, h, size)
    case Err(e) => Returned(Failure(e), used)
    case Ok(q) =>
      match TakePayload(cfg, q, size, s[used..])
      case ShortPayload => ShortFrame
      case BadPayload(e) => Returned(Failure(e), used)
      case Taken(q') => if h.IsFinal() then Complete(q', used + size) else More(q', used + size)
  }

  // ---- a complete message ----------------------------------------------------------------------------------

  function RoomLeft(cfg: Config, p: Progress): nat {
    if |p.data| <= cfg.maxSize then cfg.maxSize - |p.data| else 0
  }

  /** Decompress a compressed message behind what the message buffer holds. */
  function Inflate(cfg: Config, p: Progress): (r: Result<Progress>) {
    if !p.state.isCompressed then Ok(p)
    else
      var history, room := p.inflated + [p.zdata], RoomLeft(cfg, p);
      match cfg.inflate(history, room)
      case Err(e) => Err(e)
      case Ok(out) =>
        if |out| > room then Err(BUFFER_TOO_SMALL)
        else Ok(p.(data := p.data + out, inflated := history))
  }

  /** Stands for undefined behaviour: what the program does then, the model does not say. */
  const UNDEFINED: WSError := WSError(LogicError, NOT_SET)

  /** Text is validated as far as the validator's `int` reaches; see `Utf8.ExactIff`. */
  ghost predicate TextAccepted(data: seq<byte>) {
    Checked(Examined(data)) == Done(true)
  }

  /** Why text is not accepted. */
  ghost function TextError(data: seq<byte>): WSError {
    if Checked(Examined(data)).Undefined? then UNDEFINED else WSError(ProtocolError, INVALID_FRAME_PAYLOAD_DATA)
  }

  /** What a message with its last frame read is returned as; afterwards the read state is reset. */
  ghost function Deliver(cfg: Config, p: Progress): (r: (Received, Progress)) {
    match Inflate(cfg, p)
    case Err(e) => (Failure(e), p)
    case Ok(q) =>
      if q.state.opCode == TEXT && !TextAccepted(q.data) then
        (Failure(TextError(q.data)), q)
      else if q.state.opCode == TEXT || q.state.opCode == BINARY then
        (Message(q.state.opCode, q.data), q.(state := INITIAL_STATE))
      else (Failure(PROTOCOL_VIOLATION), q)
  }

  // ---- frame after frame -----------------------------------------------------------------------------------

  /** One call of `read_message`: frames up to the first one that produces a result. */
  datatype ReadResult = Unfinished | Finished(received: Received, progress: Progress, rest: seq<byte>)

  ghost function ReadMessage(cfg: Config, p: Progress, s: seq<byte>): (r: ReadResult)
    ensures r.Finished? ==> |r.rest| < |s| && r.rest == s[|s| - |r.rest|..]
    decreases |s|
  {
    match StepFrame(cfg, p, s)
    case ShortFrame => Unfinished
    case Returned(r, used) => Finished(r, p, s[used..])
    case Complete(q, used) =>
      var (r, q') := Deliver(cfg, q);
      Finished(r, q', s[used..])
    case More(q, used) => ReadMessage(cfg, q, s[used..])
  }

  /** One frame of a call at a time. */
  lemma {:induction false} ReadMessageStep(cfg: Config, p: Progress, s: seq<byte>)
    ensures match StepFrame(cfg, p, s)
            case ShortFrame => true
            case Returned(r, used) => ReadMessage(cfg, p, s) == Finished(r, p, s[used..])
            case Complete(q, used) =>
              ReadMessage(cfg, p, s) == Finished(Deliver(cfg, q).0, Deliver(cfg, q).1, s[used..])
            case More(q, used) => ReadMessage(cfg, p, s) == ReadMessage(cfg, q, s[used..])
  {
  }

  /** Repeated calls, up to the first failure or until the stream runs out. */
  ghost function ReadAll(cfg: Config, p: Progress, s: seq<byte>): (rs: seq<Received>)
    decreases |s|
  {
    match ReadMessage(cfg, p, s)
    case Unfinished => []
    case Finished(r, q, rest) => if r.Failure? then [r] else [r] + ReadAll(cfg, q, rest)
  }
}
