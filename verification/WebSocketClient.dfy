/** The client: reading messages, sending frames, and the life of the connection. */
module WebSocketClient {
  import opened Errors
  import opened Seqs
  import opened Bits
  import opened Networking
  import opened Frame
  import opened Utf8
  import opened CircularBuffer
  import opened Socket
  import opened Buffer
  import opened BufferedSocket
  import opened Delimiters
  import opened Receiver
  import opened MaskKey
  import opened Sending
  import opened Lifecycle
  import H = Handshake
  import HttpHeader
  import HttpParser
  import P = PermessageDeflate

  /** The clock of one operation: once it has expired it stays expired. */
  class Timeout {
    var expired: bool

    constructor ()
      ensures !expired
    {
      expired := false;
    }

    method IsExpired() returns (b: bool)
      modifies this
      ensures old(expired) ==> expired
      ensures b == expired
    {
      var late: bool := *;
      expired := expired || late;
      b := expired;
    }
  }

  const NOT_OPEN: WSError := WSError(ConnectionClosed, NOT_SET)
  const TIMED_OUT: WSError := WSError(TimeoutError, NOT_SET)

  /** The payload of a close frame: nothing, or the status code in network order. */
  function ClosePayload(code: CloseCode): (s: seq<byte>)
    ensures |s| <= 2
  {
    if code == NOT_SET then [] else Bytes16(code)
  }

  /** The codes for which the connection is failed without a close frame (section 7.1.7 of RFC 6455). */
  predicate FailsConnection(code: CloseCode) {
    || code == NOT_SET || code == PROTOCOL_ERROR || code == UNACCEPTABLE_DATA_TYPE
    || code == INVALID_FRAME_PAYLOAD_DATA || code == POLICY_VIOLATION || code == MESSAGE_TOO_BIG
    || code == MISSING_EXTENSION || code == UNEXPECTED_CONDITION
  }

  /** Stands for an assertion of the ring buffer failing, which ends a debug build. */
  const ASSERTION_FAILED: WSError := WSError(LogicError, NOT_SET)

  class WebSocketClient {
    var closed: bool
    const io: BufferedSocket
    const endian: Endian
    var readState: MessageReadState
    const writeBuffer: array<byte>
    const writeBufferAddress: nat  // in memory; the buffer is aligned to 64 bytes
    const chunkSize: nat           // of the masking kernel the build has selected

    // permessage-deflate, once negotiated
    var compressing: bool
    const inflate: (seq<seq<byte>>, nat) -> Result<seq<byte>>
    const zbuffer: Buffer
    var inflated: seq<seq<byte>>
    const deflate: seq<seq<byte>> -> Result<seq<byte>>
    const initialize: P.Parameters -> Result<()>  // whether zlib takes the negotiated parameters
    var deflated: seq<seq<byte>>

    ghost var log: seq<Event>
    ghost const origin: seq<byte>  // what the transport had sent before this client

    ghost predicate Valid()
      reads this, io, io.ring, zbuffer
    {
      && io.Valid() && io.ring.Capacity() == READ_BUFFER_SIZE
      && zbuffer.Valid()
      && writeBuffer.Length == 128 && writeBufferAddress % 64 == 0 && IsChunkSize(chunkSize)
      && writeBuffer != io.ring.buffer
      && zbuffer.storage != io.ring.buffer
      && zbuffer.storage != writeBuffer
      && (!closed ==> !io.ring.full)
    }

    /** What of the server's stream has not been parsed yet. */
    ghost function Pending(): seq<byte>
      requires Valid()
      reads this, io, io.ring, io.ring.buffer, io.socket, zbuffer
    {
      io.Pending()
    }

    ghost predicate Failed()
      reads io.socket
    {
      io.socket.failed
    }

    /**
     The connection is in the phase its log says, and open exactly while frames may be exchanged; and the log
     accounts for all bytes sent.
     */
    ghost predicate Logged()
      reads this, io.socket
    {
      && (if closed then PhaseOf(log) == New || PhaseOf(log) == Refused || PhaseOf(log) == Ended
          else PhaseOf(log) == Open)
      && Accounts(log, origin, io.socket.outgoing, io.socket.failed)
    }

    /** The message buffer a caller passes is its own, and the same from one call to the next. */
    ghost predicate Accepts(buffer: Buffer)
      reads this, zbuffer, buffer
    {
      && buffer.Valid()
      && buffer != zbuffer
      && buffer.storage != io.ring.buffer
      && buffer.storage != writeBuffer
      && (buffer.storage != zbuffer.storage || buffer.storage == null)
      && buffer.maxSize + zbuffer.maxSize <= SIZE_MAX
    }

    ghost function Config(buffer: Buffer): Config
      reads this, zbuffer, buffer
    {
      Receiver.Config(buffer.maxSize, if compressing then Some(zbuffer.maxSize) else None, inflate)
    }

    ghost function Progress(buffer: Buffer): Progress
      requires zbuffer.Valid() && buffer.Valid()
      reads this, zbuffer, zbuffer.storage, buffer, buffer.storage
    {
      Receiver.Progress(readState, buffer.Data(), zbuffer.Data(), inflated)
    }

    constructor (socket: Socket, endian: Endian, chunkSize: nat, writeBufferAddress: nat,
                 inflate: (seq<seq<byte>>, nat) -> Result<seq<byte>>, deflate: seq<seq<byte>> -> Result<seq<byte>>,
                 initialize: P.Parameters -> Result<()>)
      requires IsChunkSize(chunkSize) && writeBufferAddress % 64 == 0
      ensures Valid() && closed && Logged() && log == []
      ensures io.socket == socket && fresh(io) && fresh(io.ring) && fresh(io.ring.buffer) && fresh(zbuffer)
      ensures readState == INITIAL_STATE && !compressing && io.ring.Contents() == [] && zbuffer.storage == null
      ensures io.ring.Capacity() == READ_BUFFER_SIZE && this.chunkSize == chunkSize
    {
      closed, readState, compressing, inflated := true, INITIAL_STATE, false, [];
      this.endian, this.inflate, this.deflate, this.initialize := endian, inflate, deflate, initialize;
      deflated := [];
      this.chunkSize, this.writeBufferAddress := chunkSize, writeBufferAddress;
      io := new BufferedSocket(socket);
      writeBuffer := new byte[128];
      zbuffer := new Buffer(0);
      log, origin := [], socket.outgoing;
    }

    // ---- reading -------------------------------------------------------------------------------------------

    /** `read_exact` into a local variable of `n` bytes. */
    method ReadBytes(n: nat) returns (r: Result<seq<byte>>)
      requires Valid() && !io.ring.full && !Failed()
      modifies io.ring`head, io.ring`tail, io.ring`full, io.ring.buffer,
               io.socket`incoming, io.socket`chunks, io.socket`calls, io.socket`failed
      ensures Valid() && !io.ring.full
      ensures Failed() <==> r.Err?
      ensures r.Ok? ==> |old(Pending())| >= n && r.value == old(Pending())[..n] && Pending() == old(Pending())[n..]
    {
      hide Ring, IsPowerOfTwo;
      var tmp := new byte[n];
      var read := io.ReadExact(tmp, 0, n);
      if read.Err? {
        return Err(read.error);
      }
      r := Ok(tmp[..]);
    }

    /** Read and check the next frame header. */
    method ReadFrame() returns (r: Result<FrameHeader>, size: nat)
      requires Valid() && !io.ring.full && !Failed()
      modifies io.ring`head, io.ring`tail, io.ring`full, io.ring.buffer,
               io.socket`incoming, io.socket`chunks, io.socket`calls, io.socket`failed
      ensures Valid() && !io.ring.full
      ensures Failed() ==> r.Err?
      ensures !Failed() ==>
                match DecodeHeader(old(Pending()))
                case ShortHeader => false
                case BadHeader(e, used) => r == Err(e) && Pending() == old(Pending())[used..]
                case Header(h, n, used) => r == Ok(h) && size == n && Pending() == old(Pending())[used..]
    {
      hide Ring, IsPowerOfTwo, BigEndian;
      size := 0;
      ghost var s := Pending();
      var tmp1 := ReadBytes(2);
      if tmp1.Err? {
        return Err(tmp1.error), size;
      }
      var header := FrameHeader(tmp1.value[0], tmp1.value[1]);
      if !header.IsFinal() && header.OpCode() == CLOSE {
        return Err(PROTOCOL_VIOLATION), size;
      }
      var len := ReadSize(header, s);
      if len.Err? {
        return Err(len.error), size;
      }
      size := len.value;
      if header.IsMasked() {
        return Err(PROTOCOL_VIOLATION), size;
      }
      r := Ok(header);
    }

    /** The payload size: the 7-bit field itself, or the 2 or 8 bytes that follow the first two of `s`. */
    method ReadSize(header: FrameHeader, ghost s: seq<byte>) returns (r: Result<nat>)
      requires Valid() && !io.ring.full && !Failed()
      requires |s| >= 2 && Pending() == s[2..]
      modifies io.ring`head, io.ring`tail, io.ring`full, io.ring.buffer,
               io.socket`incoming, io.socket`chunks, io.socket`calls, io.socket`failed
      ensures Valid() && !io.ring.full
      ensures Failed() <==> r.Err?
      ensures r.Ok? ==>
                if header.BasicSize() <= 125 then r.value == header.BasicSize() && Pending() == s[2..]
                else if header.BasicSize() == 126 then |s| >= 4 && r.value == BigEndian(s[2..4]) && Pending() == s[4..]
                else |s| >= 10 && r.value == BigEndian(s[2..10]) && Pending() == s[10..]
    {
      hide Ring, IsPowerOfTwo, BigEndian, Join16, Join64, Bytes16, Bytes64;
      if header.BasicSize() <= 125 {
        return Ok(header.BasicSize());
      } else if header.BasicSize() == 126 {
        var bytes := ReadBytes(2);
        if bytes.Err? {
          return Err(bytes.error);
        }
        assert bytes.value == s[2..4];
        Loaded16(endian, bytes.value);
        return Ok(ToNat16(Convert16(endian, Load16(endian, bytes.value))));
      } else {
        var bytes := ReadBytes(8);
        if bytes.Err? {
          return Err(bytes.error);
        }
        assert bytes.value == s[2..10];
        Loaded64(endian, bytes.value);
        return Ok(ToNat64(Convert64(endian, Load64(endian, bytes.value))));
      }
    }

    /** Read the payload of a control frame and check it. */
    method HandleControlFrame(header: FrameHeader, size: nat) returns (r: Received)
      requires Valid() && !io.ring.full && !Failed()
      modifies io.ring`head, io.ring`tail, io.ring`full, io.ring.buffer,
               io.socket`incoming, io.socket`chunks, io.socket`calls, io.socket`failed
      ensures Valid() && !io.ring.full
      ensures Failed() ==> r.Failure?
      ensures !Failed() ==>
                match DecodeControl(header, size, old(Pending()))
                case ShortControl => false
                case Control(c, n) => r == c && Pending() == old(Pending())[n..]
    {
      hide Ring, IsPowerOfTwo, ValidUtf8, Join16;
      if !header.IsFinal() || header.HasRsvBits() || size > 125 {
        return Failure(PROTOCOL_VIOLATION);
      }
      if header.OpCode() == CLOSE {
        if size == 1 {
          return Failure(PROTOCOL_VIOLATION);
        }
        var payload := ReadBytes(size);
        if payload.Err? {
          return Failure(payload.error);
        }
        r := CheckCloseFrame(payload.value);
      } else if header.OpCode() == PING {
        var payload := ReadBytes(size);
        r := if payload.Err? then Failure(payload.error) else PingFrame(payload.value);
      } else if header.OpCode() == PONG {
        var payload := ReadBytes(size);
        r := if payload.Err? then Failure(payload.error) else PongFrame(payload.value);
      } else {
        r := Failure(PROTOCOL_VIOLATION);
      }
    }

    /** The close code, if there is one, must be valid, and the reason behind it UTF-8. */
    method CheckCloseFrame(payload: seq<byte>) returns (r: Received)
      requires |payload| != 1 && |payload| <= 125
      ensures r == CheckClose(payload)
    {
      hide ValidUtf8, Join16, Overflows;
      if payload == [] {
        return CloseFrame(payload);
      }
      ConvertedLoad16(endian, payload[..2]);
      var code := Convert16(endian, Load16(endian, payload[..2]));
      if !IsValidCloseCode(code) {
        return Failure(PROTOCOL_VIOLATION);
      }
      var check := IsValidUtf8(payload[2..], |payload| - 2);
      NoOverflow(payload[2..], 0);
      assert payload[2..][..|payload| - 2] == payload[2..];
      assert |payload| == 2 ==> payload[2..] == [];
      r := if check == Done(true) then CloseFrame(payload)
           else Failure(WSError(ProtocolError, INVALID_FRAME_PAYLOAD_DATA));
    }

    /** The checks on a data frame: the first frame of a message clears the buffer, and the payload must fit. */
    method AcceptDataFrame(buffer: Buffer, header: FrameHeader, size: nat) returns (r: Result<()>)
      requires Valid() && Accepts(buffer)
      modifies this`readState, buffer`used, zbuffer`used
      ensures Valid() && Accepts(buffer)
      ensures match AcceptHeader(Config(buffer), old(Progress(buffer)), header, size)
              case Err(e) => r == Err(e)
              case Ok(q) => r.Ok? && Progress(buffer) == q && buffer.used + size <= buffer.maxSize
    {
      hide Ring, IsPowerOfTwo, NextState, FrameHeader.Rsv1;
      if readState.isFirst {
        buffer.Clear();
      }
      if buffer.maxSize - buffer.used < size {
        return Err(WSError(BufferError, MESSAGE_TOO_BIG));
      }
      r := UpdateReadState(header);
    }

    /** The first frame of a message sets the read state, the others must be plain continuations. */
    method UpdateReadState(header: FrameHeader) returns (r: Result<()>)
      requires Valid()
      modifies this`readState, zbuffer`used
      ensures Valid()
      ensures match NextState(compressing, old(readState), header)
              case Err(e) => r == Err(e)
              case Ok(st) =>
                && r.Ok? && readState == st
                && zbuffer.Data() == if old(readState).isFirst && header.Rsv1() then [] else old(zbuffer.Data())
    {
      hide Ring, IsPowerOfTwo;
      hide FrameHeader.OpCode, FrameHeader.Rsv1, FrameHeader.Rsv2, FrameHeader.Rsv3, FrameHeader.HasRsvBits;
      if readState.isFirst {
        readState := readState.(isFirst := false, opCode := header.OpCode());
        if header.Rsv1() {
          readState := readState.(isCompressed := true);
          if compressing {
            zbuffer.Clear();
          } else {
            return Err(PROTOCOL_VIOLATION);
          }
        }
        if header.Rsv2() || header.Rsv3() {
          return Err(PROTOCOL_VIOLATION);
        }
      } else {
        if header.OpCode() != CONTINUATION {
          return Err(PROTOCOL_VIOLATION);
        }
        if header.HasRsvBits() {
          return Err(PROTOCOL_VIOLATION);
        }
      }
      if readState.opCode != CONTINUATION && readState.opCode != TEXT && readState.opCode != BINARY {
        return Err(PROTOCOL_VIOLATION);
      }
      r := Ok(());
    }

    /** Append the next `size` bytes of the stream to `b`, read directly into its storage. */
    method AppendPayload(b: Buffer, size: nat) returns (r: Result<()>)
      requires Valid() && b.Valid() && !io.ring.full && !Failed()
      requires b.storage != io.ring.buffer && b.storage != writeBuffer
      requires b != zbuffer ==> b.storage != zbuffer.storage || b.storage == null
      requires 0 < size && b.used + size <= SIZE_MAX
      modifies b`storage, b`capacity, b`used, b.storage,
               io.ring`head, io.ring`tail, io.ring`full, io.ring.buffer,
               io.socket`incoming, io.socket`chunks, io.socket`calls, io.socket`failed
      ensures Valid() && b.Valid() && !io.ring.full
      ensures b.storage == old(b.storage) || fresh(b.storage)
      ensures Failed() ==> r.Err?
      ensures !Failed() && old(b.used) + size > b.maxSize ==> r == Err(BUFFER_TOO_SMALL) && Pending() == old(Pending())
      ensures !Failed() && old(b.used) + size <= b.maxSize ==>
                && r.Ok?
                && size <= |old(Pending())|
                && b.Data() == old(b.Data()) + old(Pending())[..size]
                && Pending() == old(Pending())[size..]
    {
      hide Ring, IsPowerOfTwo;
      var at := b.Append(size);
      if at.Err? {
        return Err(at.error);
      }
      ghost var d, s := b.Data(), Pending();
      var read := io.ReadExact(b.storage, at.value, size);
      if read.Err? {
        return Err(read.error);
      }
      assert b.Data() == d[..at.value] + s[..size];
      r := Ok(());
    }

    /** Read the payload into the decompression buffer if the message is compressed, else into the message buffer. */
    method ReadPayload(buffer: Buffer, size: nat) returns (r: Result<()>)
      requires Valid() && Accepts(buffer) && !io.ring.full && !Failed()
      requires buffer.used + size <= buffer.maxSize
      requires readState.isCompressed ==> compressing
      modifies buffer`storage, buffer`capacity, buffer`used, buffer.storage,
               zbuffer`storage, zbuffer`capacity, zbuffer`used, zbuffer.storage,
               io.ring`head, io.ring`tail, io.ring`full, io.ring.buffer,
               io.socket`incoming, io.socket`chunks, io.socket`calls, io.socket`failed
      ensures Valid() && Accepts(buffer) && !io.ring.full
      ensures buffer.storage == old(buffer.storage) || fresh(buffer.storage)
      ensures zbuffer.storage == old(zbuffer.storage) || fresh(zbuffer.storage)
      ensures Failed() ==> r.Err?
      ensures !Failed() ==>
                match TakePayload(Config(buffer), old(Progress(buffer)), size, old(Pending()))
                case ShortPayload => false
                case BadPayload(e) => r == Err(e) && Pending() == old(Pending())
                case Taken(q) => r.Ok? && Progress(buffer) == q && Pending() == old(Pending())[size..]
    {
      hide Ring, IsPowerOfTwo;
      if size == 0 {
        return Ok(());
      }
      if readState.isCompressed {
        r := AppendPayload(zbuffer, size);
      } else {
        r := AppendPayload(buffer, size);
      }
    }

    /** Hand the collected payload to zlib, with the room left in the message buffer, and append what it returns. */
    method Decompress(buffer: Buffer) returns (r: Result<()>)
      requires Valid() && Accepts(buffer) && readState.isCompressed
      modifies this`inflated, buffer`storage, buffer`capacity, buffer`used, buffer.storage
      ensures Valid() && Accepts(buffer)
      ensures buffer.storage == old(buffer.storage) || fresh(buffer.storage)
      ensures match Inflate(Config(buffer), old(Progress(buffer)))
              case Err(e) => r == Err(e)
              case Ok(q) => r.Ok? && Progress(buffer) == q
    {
      hide Ring, IsPowerOfTwo;
      var history := inflated + [zbuffer.Data()];
      var room := buffer.maxSize - buffer.used;
      var out := inflate(history, room);
      if out.Err? {
        return Err(out.error);
      }
      if |out.value| > room {
        return Err(BUFFER_TOO_SMALL);
      }
      var at := buffer.AppendCopy(out.value);
      inflated := history;
      r := Ok(());
    }

    /** The length is passed on as an `int`. */
    static method ValidateText(payload: seq<byte>) returns (r: Result<()>)
      ensures r == if TextAccepted(payload) then Ok(()) else Err(TextError(payload))
    {
      hide Checked;
      var check := IsValidUtf8(payload, ToInt(|payload|));
      match check {
        case Undefined => r := Err(UNDEFINED);
        case Done(ok) => r := if ok then Ok(()) else Err(WSError(ProtocolError, INVALID_FRAME_PAYLOAD_DATA));
      }
    }

    /** The last frame has been read: decompress, validate text, and return the message. */
    method FinishMessage(buffer: Buffer) returns (r: Received)
      requires Valid() && Accepts(buffer)
      modifies this`readState, this`inflated, buffer`storage, buffer`capacity, buffer`used, buffer.storage
      ensures Valid() && Accepts(buffer)
      ensures buffer.storage == old(buffer.storage) || fresh(buffer.storage)
      ensures var (d, q) := Deliver(Config(buffer), old(Progress(buffer)));
              r == d && (!r.Failure? ==> Progress(buffer) == q)
    {
      hide Ring, IsPowerOfTwo, TextAccepted, TextError;
      if readState.isCompressed {
        var inflatedRes := Decompress(buffer);
        if inflatedRes.Err? {
          return Failure(inflatedRes.error);
        }
      }
      var payload := buffer.Data();
      if readState.opCode == TEXT {
        var valid := ValidateText(payload);
        if valid.Err? {
          return Failure(valid.error);
        }
      } else if readState.opCode != BINARY {
        return Failure(PROTOCOL_VIOLATION);
      }
      r := Message(readState.opCode, payload);
      readState := INITIAL_STATE;
    }

    /** The read state is consistent with what was negotiated. */
    predicate Usable()
      reads `readState, `compressing
    {
      readState.isCompressed ==> compressing
    }

    /** Read one frame: control frames are returned, data frames added to the message in progress. */
    method ReadOneFrame(buffer: Buffer) returns (r: FrameOutcome)
      requires Valid() && Accepts(buffer) && Usable() && !io.ring.full && !Failed()
      modifies this`readState, buffer`storage, buffer`capacity, buffer`used, buffer.storage,
               zbuffer`storage, zbuffer`capacity, zbuffer`used, zbuffer.storage,
               io.ring`head, io.ring`tail, io.ring`full, io.ring.buffer,
               io.socket`incoming, io.socket`chunks, io.socket`calls, io.socket`failed
      ensures Valid() && Accepts(buffer) && !io.ring.full
      ensures buffer.storage == old(buffer.storage) || fresh(buffer.storage)
      ensures zbuffer.storage == old(zbuffer.storage) || fresh(zbuffer.storage)
      ensures Failed() ==> r.Result? && r.received.Failure?
      ensures !Failed() ==>
                match StepFrame(Config(buffer), old(Progress(buffer)), old(Pending()))
                case ShortFrame => false
                case Returned(c, used) =>
                  && r == FrameOutcome.Result(c) && Pending() == old(Pending())[used..]
                  && (!c.Failure? ==> Progress(buffer) == old(Progress(buffer)) && Usable())
                case More(q, used) =>
                  r == FrameOutcome.Continue && Pending() == old(Pending())[used..] && Progress(buffer) == q && Usable()
                case Complete(q, used) =>
                  && r == FrameOutcome.LastFrame
                  && Pending() == old(Pending())[used..] && Progress(buffer) == q && Usable()
    {
      hide Ring, IsPowerOfTwo, DecodeHeader, DecodeControl, AcceptHeader, TakePayload;
      hide FrameHeader.OpCode, FrameHeader.IsControl, FrameHeader.IsFinal, FrameHeader.Rsv1;
      var frame, size := ReadFrame();
      if frame.Err? {
        return FrameOutcome.Result(Failure(frame.error));
      }
      var header := frame.value;
      if IsReserved(header.OpCode()) {
        return FrameOutcome.Result(Failure(PROTOCOL_VIOLATION));
      }
      if header.IsControl() {
        var c := HandleControlFrame(header, size);
        return FrameOutcome.Result(c);
      }
      r := ReadDataFrame(buffer, header, size);
    }

    /** Check a data frame and add its payload to the message in progress. */
    method ReadDataFrame(buffer: Buffer, header: FrameHeader, size: nat) returns (r: FrameOutcome)
      requires Valid() && Accepts(buffer) && Usable() && !io.ring.full && !Failed()
      modifies this`readState, buffer`storage, buffer`capacity, buffer`used, buffer.storage,
               zbuffer`storage, zbuffer`capacity, zbuffer`used, zbuffer.storage,
               io.ring`head, io.ring`tail, io.ring`full, io.ring.buffer,
               io.socket`incoming, io.socket`chunks, io.socket`calls, io.socket`failed
      ensures Valid() && Accepts(buffer) && !io.ring.full
      ensures buffer.storage == old(buffer.storage) || fresh(buffer.storage)
      ensures zbuffer.storage == old(zbuffer.storage) || fresh(zbuffer.storage)
      ensures Failed() ==> r.Result? && r.received.Failure?
      ensures !Failed() ==>
                match AcceptHeader(Config(buffer), old(Progress(buffer)), header, size)
                case Err(e) => r == FrameOutcome.Result(Failure(e)) && Pending() == old(Pending())
                case Ok(q) =>
                  match TakePayload(Config(buffer), q, size, old(Pending()))
                  case ShortPayload => false
                  case BadPayload(e) => r == FrameOutcome.Result(Failure(e)) && Pending() == old(Pending())
                  case Taken(q') =>
                    && r == (if header.IsFinal() then FrameOutcome.LastFrame else FrameOutcome.Continue)
                    && Progress(buffer) == q' && Pending() == old(Pending())[size..] && Usable()
    {
      hide Ring, IsPowerOfTwo, AcceptHeader, TakePayload, FrameHeader.IsFinal, NextState, FrameHeader.Rsv1;
      var accepted := AcceptDataFrame(buffer, header, size);
      if accepted.Err? {
        return FrameOutcome.Result(Failure(accepted.error));
      }
      AcceptedIsUsable(Config(buffer), old(Progress(buffer)), header, size);
      var taken := ReadPayload(buffer, size);
      if taken.Err? {
        return FrameOutcome.Result(Failure(taken.error));
      }
      r := if header.IsFinal() then FrameOutcome.LastFrame else FrameOutcome.Continue;
    }

    /**
     Read the next message or control frame. Whatever the reads were, the result is the one the stream itself
     determines, and exactly the bytes of the frames read have been taken off the stream; unless the transport
     failed or the time ran out. A message in progress survives the call in `readState` and the buffers.
     */
    method ReadMessage(buffer: Buffer, timeout: Timeout) returns (r: Received)
      requires Valid() && Accepts(buffer)
      requires !closed ==> Usable() && !Failed()
      modifies this`readState, this`inflated, timeout, buffer`storage, buffer`capacity, buffer`used, buffer.storage,
               zbuffer`storage, zbuffer`capacity, zbuffer`used, zbuffer.storage,
               io.ring`head, io.ring`tail, io.ring`full, io.ring.buffer,
               io.socket`incoming, io.socket`chunks, io.socket`calls, io.socket`failed
      ensures Valid() && Accepts(buffer)
      ensures buffer.storage == old(buffer.storage) || fresh(buffer.storage)
      ensures zbuffer.storage == old(zbuffer.storage) || fresh(zbuffer.storage)
      ensures closed ==> r == Failure(WSError(ConnectionClosed, 0))
      ensures closed ==> unchanged(this, io.socket, io.ring, buffer, zbuffer)
      ensures !closed && Failed() ==> r.Failure?
      ensures !closed && !Failed() ==>
                || (timeout.expired && r == Failure(WSError(TimeoutError, 0)))
                || match Receiver.ReadMessage(Config(buffer), old(Progress(buffer)), old(Pending()))
                   case Unfinished => false
                   case Finished(c, q, rest) =>
                     r == c && Pending() == rest && (!r.Failure? ==> Progress(buffer) == q && Usable())
    {
      hide Ring, IsPowerOfTwo, Receiver.ReadMessage, Deliver;
      if closed {
        return Failure(NOT_OPEN);
      }
      var frame := ReadFrames(buffer, timeout);
      if frame.Result? {
        return frame.received;
      }
      r := EndMessage(buffer, timeout);
    }

    /** How the pure reading of `s` from `p` goes on after the frames read so far ended in `r`. */
    ghost predicate Reads(buffer: Buffer, cfg: Config, p: Progress, s: seq<byte>, r: FrameOutcome)
      requires Valid() && buffer.Valid()
      reads this, io, io.ring, io.ring.buffer, io.socket, zbuffer, zbuffer.storage, buffer, buffer.storage
    {
      match r
      case Continue =>
        Usable() && Receiver.ReadMessage(cfg, Progress(buffer), Pending()) == Receiver.ReadMessage(cfg, p, s)
      case LastFrame =>
        && Usable()
        && Receiver.ReadMessage(cfg, p, s) ==
           Finished(Deliver(cfg, Progress(buffer)).0, Deliver(cfg, Progress(buffer)).1, Pending())
      case Result(c) =>
        && Receiver.ReadMessage(cfg, p, s).Finished?
        && Receiver.ReadMessage(cfg, p, s).received == c
        && Receiver.ReadMessage(cfg, p, s).rest == Pending()
        && (!c.Failure? ==> Usable() && Receiver.ReadMessage(cfg, p, s).progress == Progress(buffer))
    }

    /** The loop over frames: until one produces a result, the last frame of a message is read, or time runs out. */
    method ReadFrames(buffer: Buffer, timeout: Timeout) returns (r: FrameOutcome)
      requires Valid() && Accepts(buffer) && !closed && Usable() && !Failed()
      modifies this`readState, timeout, buffer`storage, buffer`capacity, buffer`used, buffer.storage,
               zbuffer`storage, zbuffer`capacity, zbuffer`used, zbuffer.storage,
               io.ring`head, io.ring`tail, io.ring`full, io.ring.buffer,
               io.socket`incoming, io.socket`chunks, io.socket`calls, io.socket`failed
      ensures Valid() && Accepts(buffer)
      ensures buffer.storage == old(buffer.storage) || fresh(buffer.storage)
      ensures zbuffer.storage == old(zbuffer.storage) || fresh(zbuffer.storage)
      ensures Failed() ==> r.Result? && r.received.Failure?
      ensures r.Continue? ==> timeout.expired
      ensures !Failed() ==> Reads(buffer, Config(buffer), old(Progress(buffer)), old(Pending()), r)
    {
      hide Ring, IsPowerOfTwo, StepFrame, Deliver, Receiver.ReadMessage;
      hide WebSocketClient.Progress, WebSocketClient.Pending;
      ghost var cfg, p, s := Config(buffer), Progress(buffer), Pending();
      r := FrameOutcome.Continue;
      var expired := timeout.IsExpired();
      while !expired
        invariant Valid() && Accepts(buffer) && !Failed() && Config(buffer) == cfg
        invariant buffer.storage == old(buffer.storage) || fresh(buffer.storage)
        invariant zbuffer.storage == old(zbuffer.storage) || fresh(zbuffer.storage)
        invariant Reads(buffer, cfg, p, s, FrameOutcome.Continue)
        invariant r == FrameOutcome.Continue && expired == timeout.expired
        decreases |Pending()|
      {
        r := ReadNextFrame(buffer);
        if !r.Continue? {
          return;
        }
        expired := timeout.IsExpired();
      }
    }

    /** One frame, as a step of the pure reading. */
    method ReadNextFrame(buffer: Buffer) returns (r: FrameOutcome)
      requires Valid() && Accepts(buffer) && Usable() && !io.ring.full && !Failed()
      modifies this`readState, buffer`storage, buffer`capacity, buffer`used, buffer.storage,
               zbuffer`storage, zbuffer`capacity, zbuffer`used, zbuffer.storage,
               io.ring`head, io.ring`tail, io.ring`full, io.ring.buffer,
               io.socket`incoming, io.socket`chunks, io.socket`calls, io.socket`failed
      ensures Valid() && Accepts(buffer) && !io.ring.full
      ensures buffer.storage == old(buffer.storage) || fresh(buffer.storage)
      ensures zbuffer.storage == old(zbuffer.storage) || fresh(zbuffer.storage)
      ensures Failed() ==> r.Result? && r.received.Failure?
      ensures Config(buffer) == old(Config(buffer))
      ensures !Failed() ==> Reads(buffer, Config(buffer), old(Progress(buffer)), old(Pending()), r)
      ensures !Failed() ==> |Pending()| < |old(Pending())|
    {
      hide Ring, IsPowerOfTwo, StepFrame, Deliver, Receiver.ReadMessage;
      ReadMessageStep(Config(buffer), Progress(buffer), Pending());
      r := ReadOneFrame(buffer);
    }

    /** The last frame of a message has been read: it is returned unless the time has run out meanwhile. */
    method EndMessage(buffer: Buffer, timeout: Timeout) returns (r: Received)
      requires Valid() && Accepts(buffer)
      modifies this`readState, this`inflated, timeout, buffer`storage, buffer`capacity, buffer`used, buffer.storage
      ensures Valid() && Accepts(buffer)
      ensures buffer.storage == old(buffer.storage) || fresh(buffer.storage)
      ensures old(timeout.expired) ==> timeout.expired && r == Failure(WSError(TimeoutError, 0))
      ensures var (d, q) := Deliver(Config(buffer), old(Progress(buffer)));
              || (timeout.expired && r == Failure(WSError(TimeoutError, 0)))
              || (r == d && (!r.Failure? ==> Progress(buffer) == q && Usable()))
    {
      hide Ring, IsPowerOfTwo, Examined, Checked;
      var expired := timeout.IsExpired();
      if expired {
        return Failure(TIMED_OUT);
      }
      r := FinishMessage(buffer);
    }

    // ---- writing -------------------------------------------------------------------------------------------

    /** The key of a frame: any four bytes. */
    method GenerateMaskKey() returns (key: seq<byte>)
      ensures |key| == 4
    {
      var k0: byte, k1: byte, k2: byte, k3: byte := *, *, *, *;
      key := [k0, k1, k2, k3];
    }

    /** A final, masked frame with the shortest length code, built field by field. */
    method MakeFrame(op: Opcode, compressed: bool, size: nat) returns (frame: Frame)
      requires op <= 0xF
      ensures fresh(frame) && frame.payloadSize == size && |frame.maskKey| == 4
      ensures IsClientHeader(frame.header, op, compressed, size)
    {
      frame := new Frame();
      frame.SetOpcode(op);
      frame.SetIsFinal(true);
      frame.SetIsMasked(true);
      frame.maskKey := GenerateMaskKey();
      ghost var h := frame.header;
      if compressed {
        frame.SetIsCompressed(true);
      }
      HeaderSoFar(op, h, frame.header, compressed);
      frame.SetPayloadSize(size);
    }

    /** Put the header and, in the shortest form, the extended payload length at the front of the write buffer. */
    method WriteHeader(header: FrameHeader, size: nat) returns (offset: nat)
      requires writeBuffer.Length == 128 && size <= UINT64_MAX
      modifies writeBuffer
      ensures offset <= 10 && writeBuffer[14..] == old(writeBuffer[14..])
      ensures writeBuffer[..offset] == [header.b0, header.b1] + LengthExt(size)
    {
      hide Digits, Join16, Join64, Convert16, Convert64, Bytes16, Bytes64;
      writeBuffer[0], writeBuffer[1] := header.b0, header.b1;
      offset := 2;
      if 125 < size <= 0xFFFF {
        var nlen := Image16(endian, Convert16(endian, ToBv16(size)));
        StoredJoin16(endian, Digits(size, 2));
        StoreAt(2, nlen);
        offset := 4;
      } else if size > 0xFFFF {
        var nlen := Image64(endian, Convert64(endian, ToBv64(size)));
        StoredJoin64(endian, Digits(size, 8));
        StoreAt(2, nlen);
        offset := 10;
      }
    }

    /** `memcpy` into the write buffer. */
    method StoreAt(at: nat, bytes: seq<byte>)
      requires writeBuffer.Length == 128 && at + |bytes| <= 14
      modifies writeBuffer
      ensures writeBuffer[..at + |bytes|] == old(writeBuffer[..at]) + bytes
      ensures writeBuffer[14..] == old(writeBuffer[14..])
    {
      forall i | 0 <= i < |bytes| {
        writeBuffer[at + i] := bytes[i];
      }
    }

    /**
     Send one frame: the header from the front of the write buffer, then the payload, masked in place. The payload
     may itself lie in the write buffer, behind the 14 bytes a header can take.
     */
    method WriteFrame(frame: Frame, payload: array<byte>, off: nat, len: nat, addr: nat) returns (r: Result<()>)
      requires Valid() && |frame.maskKey| == 4 && frame.payloadSize == len <= UINT64_MAX
      requires off + len <= payload.Length && payload != io.ring.buffer && (payload == writeBuffer ==> off >= 14)
      modifies writeBuffer, payload, io.socket`outgoing, io.socket`calls, io.socket`failed
      ensures Valid() && io.ring.Contents() == old(io.ring.Contents())
      ensures !frame.header.IsMasked() ==> r == Err(PROTOCOL_VIOLATION) && unchanged(io.socket)
      ensures frame.header.IsMasked() ==>
                Wrote(old(io.socket.outgoing), io.socket.outgoing,
                      SentBytes(frame.header, frame.maskKey,
                                Masked(addr, chunkSize, frame.maskKey, old(payload[off..off + len]))), r.Ok?)
      ensures frame.header.IsMasked() ==> if r.Ok? then Failed() == old(Failed()) else Failed()
      ensures payload != writeBuffer && frame.header.IsMasked() ==>
                payload[..] == Splice(old(payload[..]), off,
                                      Masked(addr, chunkSize, frame.maskKey, old(payload[off..off + len])))
    {
      hide Ring, IsPowerOfTwo, Masked, LengthExt, Splice, FrameHeader.IsMasked, Wrote;
      var offset := WriteHeader(frame.header, len);
      if !frame.header.IsMasked() {
        return Err(PROTOCOL_VIOLATION);
      }
      assert payload[off..off + len] == old(payload[off..off + len]) by {
        if payload == writeBuffer {
          SameTail(old(payload[..]), payload[..], 14, off, len);
        }
      }
      assert payload != writeBuffer ==> payload[..] == old(payload[..]);
      offset := MaskPayload(frame.maskKey, offset, payload, off, len, addr);
      ghost var header, data := writeBuffer[0..offset], payload[off..off + len];
      r := io.Write(writeBuffer, 0, offset);
      if r.Err? {
        WroteFirst(old(io.socket.outgoing), io.socket.outgoing, header, data);
        return;
      }
      ghost var middle := io.socket.outgoing;
      WroteAll(old(io.socket.outgoing), middle, header);
      if frame.payloadSize > 0 {
        r := io.Write(payload, off, len);
      } else {
        WroteNothing(middle);
      }
      WroteBoth(old(io.socket.outgoing), middle, io.socket.outgoing, header, data, r.Ok?);
    }

    /** Put the key behind the header of `offset` bytes, and mask the payload in place. */
    method MaskPayload(key: seq<byte>, offset: nat, payload: array<byte>, off: nat, len: nat, addr: nat)
      returns (headerSize: nat)
      requires writeBuffer.Length == 128 && IsChunkSize(chunkSize) && |key| == 4 && offset <= 10
      requires off + len <= payload.Length && (payload == writeBuffer ==> off >= 14)
      modifies writeBuffer, payload
      ensures headerSize == offset + 4 && writeBuffer[0..headerSize] == old(writeBuffer[..offset]) + key
      ensures payload[off..off + len] == Masked(addr, chunkSize, key, old(payload[off..off + len]))
      ensures payload != writeBuffer ==>
                payload[..] == Splice(old(payload[..]), off, Masked(addr, chunkSize, key, old(payload[off..off + len])))
    {
      hide Masked, Splice;
      ghost var plain := payload[off..off + len];
      StoreAt(offset, key);
      headerSize := offset + 4;
      assert payload[off..off + len] == plain by {
        if payload == writeBuffer {
          SameTail(old(payload[..]), payload[..], 14, off, len);
        }
      }
      ghost var written, before := writeBuffer[..], payload[..];
      assert written[0..headerSize] == old(writeBuffer[..offset]) + key;
      MaskAligned(endian, chunkSize, payload, off, len, addr, key);
      SpliceParts(before, off, Masked(addr, chunkSize, key, plain), if off < headerSize then off else headerSize);
      assert payload[off..off + len] == payload[..][off..off + len];
      if payload == writeBuffer {
        assert writeBuffer[..][0..headerSize] == before[0..headerSize];
      } else {
        assert writeBuffer[..] == written;
      }
      assert writeBuffer[0..headerSize] == writeBuffer[..][0..headerSize];
    }

    /** Compress a message; zlib remembers the earlier ones. What it returns is aligned memory of its own. */
    method Compress(payload: seq<byte>) returns (r: Result<seq<byte>>)
      modifies this`deflated
      ensures r == deflate(old(deflated) + [payload])
      ensures deflated == if r.Ok? then old(deflated) + [payload] else old(deflated)
    {
      r := deflate(deflated + [payload]);
      if r.Ok? {
        deflated := deflated + [payload];
      }
    }

    /** Build a frame and send it; the log records it with what of it was sent. */
    method SendFrame(op: Opcode, compressed: bool, payload: array<byte>, off: nat, len: nat, addr: nat)
      returns (r: Result<()>, ghost f: ClientFrame)
      requires Valid() && Accounts(log, origin, io.socket.outgoing, Failed()) && op <= 0xF && len <= UINT64_MAX
      requires off + len <= payload.Length && payload != io.ring.buffer && (payload == writeBuffer ==> off >= 14)
      modifies this`log, writeBuffer, payload, io.socket`outgoing, io.socket`calls, io.socket`failed
      ensures Valid() && Accounts(log, origin, io.socket.outgoing, Failed())
      ensures f.Is(op, compressed, old(payload[off..off + len]), addr, chunkSize)
      ensures f.Begins((if compressed then 0xC0 else 0x80) + op)
      ensures Emitted(old(log), log, f, old(io.socket.outgoing), io.socket.outgoing, r.Ok?)
      ensures if r.Ok? then Failed() == old(Failed()) else Failed()
      ensures payload != writeBuffer ==>
                payload[..] == Splice(old(payload[..]), off, Masked(addr, chunkSize, f.key, f.payload))
    {
      hide Ring, IsPowerOfTwo, Masked, IsClientHeader, SentBytes, Accounts, Wrote, Splice;
      var frame := MakeFrame(op, compressed, len);
      MaskedHeader(frame.header, op, compressed, len);
      f := ClientFrame(frame.header, frame.maskKey, payload[off..off + len], addr, chunkSize);
      FrameIs(f, op, compressed);
      StartsWith(f, op, compressed);
      r := WriteFrame(frame, payload, off, len, addr);
      log := log + [FrameSent(f, Added(old(io.socket.outgoing), io.socket.outgoing))];
      EmittedIsAccounted(old(log), log, f, origin, old(io.socket.outgoing), io.socket.outgoing, r.Ok?,
                         old(Failed()), Failed());
    }

    /**
     Send a message as one frame, compressed if that was negotiated and asked for. The caller's bytes are masked
     in place when they are not compressed.
     */
    method SendMessage(op: Opcode, data: array<byte>, off: nat, len: nat, addr: nat, compress: bool)
      returns (r: Result<()>, ghost f: ClientFrame)
      requires Valid() && Logged() && (op == TEXT || op == BINARY)
      requires off + len <= data.Length <= UINT64_MAX && data != io.ring.buffer && data != writeBuffer
      modifies this`log, this`deflated, writeBuffer, data, io.socket`outgoing, io.socket`calls, io.socket`failed
      ensures Valid() && Logged()
      ensures closed ==> r == Err(WSError(ConnectionClosed, 0)) && unchanged(this, data, writeBuffer, io.socket)
      ensures log == old(log) ==> unchanged(io.socket)
      ensures !closed && log == old(log) ==>
                && r.Err? && compressing && compress
                && NotCompressed(deflate(old(deflated) + [old(data[off..off + len])]), r.error)
      ensures log != old(log) ==> Emitted(old(log), log, f, old(io.socket.outgoing), io.socket.outgoing, r.Ok?)
      ensures log != old(log) ==> if r.Ok? then Failed() == old(Failed()) else Failed()
      ensures log != old(log) && compressing && compress ==>
                IsCompressed(f, op, deflate(old(deflated) + [old(data[off..off + len])]))
      ensures log != old(log) && !(compressing && compress) ==>
                && f.Is(op, false, old(data[off..off + len]), addr, chunkSize)
                && f.Begins(if op == TEXT then 0x81 else 0x82)
                && data[..] == Splice(old(data[..]), off, Masked(addr, chunkSize, f.key, f.payload))
    {
      hide Ring, IsPowerOfTwo, Masked, IsClientHeader, SentBytes, PhaseOf, Advance, Accounts, Wrote, Splice;
      hide FrameHeader.OpCode, FrameHeader.Rsv1, ClientFrame.Valid, ClientFrame.Bytes;
      f := ClientFrame(FrameHeader(0, 0), [], [], 0, 0);
      if closed {
        return Err(NOT_OPEN), f;
      }
      if compressing && compress {
        var compressed := Compress(data[off..off + len]);
        if compressed.Err? || |compressed.value| > UINT64_MAX {
          return Err(if compressed.Err? then compressed.error else BUFFER_TOO_SMALL), f;
        }
        r, f := SendCompressed(op, compressed.value);
      } else {
        r, f := SendFrame(op, false, data, off, len, addr);
      }
      StaysOpen(old(log), f, Added(old(io.socket.outgoing), io.socket.outgoing));
    }

    method CopyOf(out: seq<byte>) returns (data: array<byte>)
      ensures fresh(data) && data.Length == |out| && data[0..|out|] == out
    {
      data := new byte[|out|];
      forall i | 0 <= i < |out| {
        data[i] := out[i];
      }
    }

    /** The frame of a compressed message: its payload is in zlib's output buffer, aligned to 16 bytes. */
    method SendCompressed(op: Opcode, out: seq<byte>) returns (r: Result<()>, ghost f: ClientFrame)
      requires Valid() && Accounts(log, origin, io.socket.outgoing, Failed())
      requires (op == TEXT || op == BINARY) && |out| <= UINT64_MAX
      modifies this`log, writeBuffer, io.socket`outgoing, io.socket`calls, io.socket`failed
      ensures Valid() && Accounts(log, origin, io.socket.outgoing, Failed())
      ensures f.Is(op, true, out, 0, chunkSize) && f.Recoverable()
      ensures f.Begins(if op == TEXT then 0xC1 else 0xC2)
      ensures Emitted(old(log), log, f, old(io.socket.outgoing), io.socket.outgoing, r.Ok?)
      ensures if r.Ok? then Failed() == old(Failed()) else Failed()
    {
      hide Ring, IsPowerOfTwo, Masked, Accounts, Wrote, Bytewise, IsClientHeader, SentBytes, Splice;
      var data := CopyOf(out);
      r, f := SendFrame(op, true, data, 0, |out|, 0);
      AlignedIsBytewise(0, chunkSize, f.key, out);
    }

    /** Answer a ping; the payload is masked in place. */
    method SendPongFrame(payload: array<byte>, off: nat, len: nat, addr: nat)
      returns (r: Result<()>, ghost f: ClientFrame)
      requires Valid() && Logged()
      requires off + len <= payload.Length <= UINT64_MAX && payload != io.ring.buffer && payload != writeBuffer
      modifies this`log, writeBuffer, payload, io.socket`outgoing, io.socket`calls, io.socket`failed
      ensures Valid() && Logged()
      ensures closed ==> r == Err(WSError(ConnectionClosed, 0)) && unchanged(this, payload, writeBuffer, io.socket)
      ensures !closed ==>
                && f.Is(PONG, false, old(payload[off..off + len]), addr, chunkSize) && f.Begins(0x8A)
                && Emitted(old(log), log, f, old(io.socket.outgoing), io.socket.outgoing, r.Ok?)
                && if r.Ok? then Failed() == old(Failed()) else Failed()
    {
      hide Ring, IsPowerOfTwo, Masked, IsClientHeader, SentBytes, PhaseOf, Advance, Accounts, Wrote, Splice;
      hide FrameHeader.OpCode, FrameHeader.Rsv1, ClientFrame.Valid, ClientFrame.Bytes;
      f := ClientFrame(FrameHeader(0, 0), [], [], 0, 0);
      if closed {
        return Err(NOT_OPEN), f;
      }
      r, f := SendFrame(PONG, false, payload, off, len, addr);
      StaysOpen(old(log), f, Added(old(io.socket.outgoing), io.socket.outgoing));
    }

    /**
     Send a close frame. The status code is kept at the very end of the write buffer, where the header being
     written at its front does not reach it, and is too short for a masking chunk.
     */
    method SendCloseFrame(code: CloseCode) returns (r: Result<()>, ghost f: ClientFrame)
      requires Valid() && Accounts(log, origin, io.socket.outgoing, Failed())
      modifies this`log, writeBuffer, io.socket`outgoing, io.socket`calls, io.socket`failed
      ensures Valid() && Accounts(log, origin, io.socket.outgoing, Failed())
      ensures f.Is(CLOSE, false, ClosePayload(code), writeBufferAddress + 125, chunkSize) && f.Recoverable()
      ensures f.Begins(0x88)
      ensures Emitted(old(log), log, f, old(io.socket.outgoing), io.socket.outgoing, r.Ok?)
      ensures if r.Ok? then Failed() == old(Failed()) else Failed()
    {
      hide Ring, IsPowerOfTwo, Masked, IsClientHeader, SentBytes, KeyRepeats, Bytewise, NoFullChunk, Bytes16;
      hide Accounts, Wrote, Splice;
      var len := 0;
      if code != NOT_SET {
        StoredValue16(endian, code);
        var statusCode := Image16(endian, Convert16(endian, code));
        writeBuffer[125], writeBuffer[126] := statusCode[0], statusCode[1];
        len := 2;
      }
      assert writeBuffer[125..125 + len] == ClosePayload(code);
      r, f := SendFrame(CLOSE, false, writeBuffer, 125, len, writeBufferAddress + 125);
      NoChunkAt125(writeBufferAddress, chunkSize, len);
      MaskedIsBytewise(writeBufferAddress + 125, chunkSize, f.key, ClosePayload(code));
    }

    // ---- opening and closing -------------------------------------------------------------------------------

    /**
     Close the connection: a close frame first, unless the code says to fail the connection, then the transport.
     On a closed connection nothing happens.
     */
    method Close(code: CloseCode) returns (r: Result<()>, ghost f: ClientFrame)
      requires Valid() && Logged()
      modifies this`log, this`closed, writeBuffer, io.socket`outgoing, io.socket`calls, io.socket`failed
      ensures Valid() && Logged() && closed
      ensures old(closed) ==> r == Ok(()) && unchanged(this, writeBuffer, io.socket)
      ensures r.Err? ==> Failed()
      ensures old(Failed()) ==> Failed()
      ensures !old(closed) && FailsConnection(code) ==>
                log == old(log) + [Shutdown] && io.socket.outgoing == old(io.socket.outgoing)
      ensures !old(closed) && !FailsConnection(code) ==>
                && f.Is(CLOSE, false, ClosePayload(code), writeBufferAddress + 125, chunkSize) && f.Recoverable()
                && exists middle, ok ::
                     && Emitted(old(log), middle, f, old(io.socket.outgoing), io.socket.outgoing, ok)
                     && log == middle + [Shutdown] && (ok || Failed())
      ensures !old(closed) && !Failed() ==>
                && old(io.socket.outgoing) <= io.socket.outgoing
                && IsClosing(code as int, Added(old(io.socket.outgoing), io.socket.outgoing))
    {
      hide Ring, IsPowerOfTwo, IsClientHeader, SentBytes, Bytewise, PhaseOf, Advance, ClosePayload, Accounts, Wrote;
      hide FrameHeader.OpCode, FrameHeader.Rsv1, ClientFrame.Valid, ClientFrame.Bytes, ClientFrame.Recoverable;
      hide ClientFrame.Begins, IsClosing, FailsConnection, Added;
      f := ClientFrame(FrameHeader(0, 0), [], [], 0, 0);
      if closed {
        return Ok(()), f;
      }
      var failConn := FailsConnection(code);
      if failConn {
        NothingIsClosing(code, io.socket.outgoing);
      }
      if !failConn {
        var sent;
        sent, f := SendCloseFrame(code);
        ClosesWith(old(log), f, Added(old(io.socket.outgoing), io.socket.outgoing));
        assert Emitted(old(log), log, f, old(io.socket.outgoing), io.socket.outgoing, sent.Ok?);
        if sent.Err? {
          failConn := true;
        } else {
          ClosesInNumbers(code, old(log), log, f, old(io.socket.outgoing), io.socket.outgoing);
        }
      }
      closed := true;
      ShutsDown(old(log), log);
      ghost var before := Failed();
      r := io.socket.ShutdownAndClose(failConn);
      assert io.socket.outgoing + [] == io.socket.outgoing;
      AccountsMore(log, Shutdown, origin, io.socket.outgoing, io.socket.outgoing, before, Failed());
      log := log + [Shutdown];
    }

    /**
     No response could be read although the transport did not fail: its headers exceed a mebibyte, or more than the
     ring holds was read from their end on, which with an empty ring only some streams allow. `start` was in the
     ring, with its head at `head`, before `stream`, and `base` reads had been made.
     */
    ghost predicate Unreadable(error: WSError, stream: seq<byte>, start: seq<byte>, head: nat, base: nat)
      reads io, io.socket
    {
      && base <= |io.socket.chunks|
      && var taken := start + Concat(io.socket.chunks[base..]);
      || (error.code == BufferError && |taken| > 1024 * 1024)
      || (&& error == ASSERTION_FAILED
          && (start == [] ==> !NeverOverflows(READ_BUFFER_SIZE, head, stream, H.TERMINATOR))
          && exists p: nat :: FirstAt(taken, H.TERMINATOR, p) && |taken| - p > READ_BUFFER_SIZE)
    }

    /** The response headers, read up to the terminator, which is then taken off the stream. */
    method ReadResponse() returns (r: Result<seq<byte>>)
      requires Valid() && closed
      modifies io.ring, io.ring.buffer, io.socket`incoming, io.socket`chunks, io.socket`calls, io.socket`failed
      ensures Valid()
      ensures r.Ok? ==>
                && FirstAt(old(Pending()), H.TERMINATOR, |r.value|)
                && r.value == old(Pending())[..|r.value|]
                && Pending() == old(Pending())[|r.value| + 4..]
                && !io.ring.full && Failed() == old(Failed())
      ensures old(Failed()) ==> Failed()
      ensures r.Err? && !Failed() ==>
                Unreadable(r.error, old(Pending()), old(io.ring.Contents()), old(io.ring.head), |old(io.socket.chunks)|)
    {
      hide Ring, IsPowerOfTwo, FirstAt, WebSocketClient.Unreadable;
      ghost var s := Pending();
      var headers := new Buffer(1024 * 1024);
      var reserved := headers.Reserve(1024);
      r := ReadHeaders(headers);
      if r.Ok? {
        Suffix(s, r.value, Pending());
        var delim := ReadDelimiter();
        r := if delim.Err? then Err(delim.error) else r;
      }
    }

    /** The part up to the terminator, read into a fresh buffer of a mebibyte. */
    method ReadHeaders(headers: Buffer) returns (r: Result<seq<byte>>)
      requires Valid() && closed && headers.Valid() && headers.Data() == [] && headers.maxSize == 1024 * 1024
      requires headers.storage != io.ring.buffer && headers != zbuffer
      modifies io.ring, io.ring.buffer, io.socket`incoming, io.socket`chunks, io.socket`calls, io.socket`failed,
               headers, headers.storage
      ensures Valid()
      ensures r.Ok? ==>
                && FirstAt(old(Pending()), H.TERMINATOR, |r.value|)
                && r.value + Pending() == old(Pending()) && Failed() == old(Failed())
      ensures old(Failed()) ==> Failed()
      ensures r.Err? && !Failed() ==>
                Unreadable(r.error, old(Pending()), old(io.ring.Contents()), old(io.ring.head), |old(io.socket.chunks)|)
    {
      hide Ring, IsPowerOfTwo, FirstAt, Concat, NeverOverflows, IsSplit;
      ghost var s, items := Pending(), io.ring.Contents();
      assert [] + s == s && [] + items == items;
      var until := io.ReadUntil(headers, H.TERMINATOR);
      match until {
        case Failed(e) => return Err(e);
        case PushBackOverflow =>
          ghost var p: nat :|
            && FirstAt(headers.Data() + io.ring.Contents(), H.TERMINATOR, p)
            && |headers.Data() + io.ring.Contents()| - p > READ_BUFFER_SIZE;
          return Err(ASSERTION_FAILED);
        case Found =>
      }
      r := Ok(headers.Data());
    }

    /** Take the terminator, the next four bytes, off the stream. */
    method ReadDelimiter() returns (r: Result<nat>)
      requires Valid()
      modifies io.ring`head, io.ring`tail, io.ring`full, io.ring.buffer,
               io.socket`incoming, io.socket`chunks, io.socket`calls, io.socket`failed
      ensures Valid()
      ensures r.Ok? ==> |old(Pending())| >= 4 && Pending() == old(Pending())[4..] && Failed() == old(Failed())
      ensures r.Err? ==> Failed()
      ensures !io.ring.full
    {
      hide Ring, IsPowerOfTwo;
      var delim := new byte[4];
      r := io.ReadExact(delim, 0, 4);
    }

    /** Set up compression as negotiated: first the decompression buffer, then zlib, which may refuse to work so. */
    method InitCompression(offer: H.Offer) returns (r: Result<()>)
      requires Valid()
      modifies this`compressing, zbuffer
      ensures Valid() && compressing && zbuffer.maxSize == offer.room && zbuffer.Data() == []
      ensures zbuffer.storage == null || fresh(zbuffer.storage)
      ensures r == initialize(offer.settings)
    {
      compressing := true;
      zbuffer.Reset();
      zbuffer.SetMaxSize(offer.room);
      var reserved := zbuffer.Reserve(if offer.room < 1024 then offer.room else 1024);
      r := initialize(offer.settings);
    }

    /** The state a successful handshake leaves: ready to read, with compression set up if it was negotiated. */
    ghost predicate Ready(negotiated: Option<H.Offer>)
      requires zbuffer.Valid()
      reads `readState, `compressing, io.ring, zbuffer, zbuffer.storage
    {
      && !io.ring.full && Usable() && compressing == negotiated.Some?
      && (negotiated.Some? ==>
            && zbuffer.maxSize == negotiated.value.room && zbuffer.Data() == []
            && initialize(negotiated.value.settings).Ok?)
    }

    /** The decompression buffer may grow as before, or as far as was offered. */
    ghost predicate Prepared(before: nat, asked: Option<H.Offer>)
      reads zbuffer
    {
      zbuffer.maxSize == before || (asked.Some? && zbuffer.maxSize == asked.value.room)
    }

    /** The response at the front of `stream` was accepted; what follows its blank line is pending. */
    ghost predicate Accepted(stream: seq<byte>, key: string, asked: Option<H.Offer>)
      requires io.Valid() && zbuffer.Valid()
      reads `readState, `compressing, io, io.ring, io.ring.buffer, io.socket, zbuffer, zbuffer.storage
    {
      exists p: nat ::
        && FirstAt(stream, H.TERMINATOR, p)
        && VerdictOn(stream, p, key, asked).Ok?
        && io.Pending() == stream[p + 4..]
        && Ready(VerdictOn(stream, p, key, asked).value)
    }

    /** The response at the front of `stream` was accepted, but zlib refused the parameters negotiated. */
    ghost predicate Unusable(stream: seq<byte>, key: string, asked: Option<H.Offer>, error: WSError) {
      exists p: nat ::
        && FirstAt(stream, H.TERMINATOR, p)
        && Refuses(VerdictOn(stream, p, key, asked), error)
    }

    predicate Refuses(verdict: Result<Option<H.Offer>>, error: WSError) {
      verdict.Ok? && verdict.value.Some? && initialize(verdict.value.value.settings) == Err(error)
    }

    /**
     The opening handshake: send the request, read the response up to the blank line, take the blank line off the
     stream, and let the handshake judge the response. Only after all of this is the connection open, and what the
     server sent next is still pending.
     */
    method Handshake(h: H.Handshake) returns (r: Result<()>)
      requires Valid() && Logged() && (closed ==> log == [] && !compressing && Usable())
      requires h.Valid() && !h.negotiated
      modifies this`log, this`closed, this`compressing, zbuffer, io.ring, io.ring.buffer, io.socket,
               h`key, h`responseFields, h`negotiated, h`success, h.rnd.s, h.requestFields, h.deflate
      ensures Valid() && Logged()
      ensures !old(closed) ==> r == Err(WSError(LogicError, NOT_SET)) && unchanged(this, zbuffer, io.ring, io.socket)
      ensures old(Failed()) ==> Failed()
      ensures old(closed) ==> h.Requests(old(h.requestFields.fields), old(h.rnd.View()), old(h.Asked()))
      ensures old(closed) ==>
                && closed == r.Err?
                && log == [Event.Handshake(r.Ok?, RequestBytes(h), Added(old(io.socket.outgoing), io.socket.outgoing))]
      ensures r.Err? && compressing != old(compressing) ==> Unusable(old(Pending()), h.key, old(h.Asked()), r.error)
      ensures Prepared(old(zbuffer.maxSize), old(h.Asked()))
      ensures zbuffer.storage == old(zbuffer.storage) || zbuffer.storage == null || fresh(zbuffer.storage)
      ensures old(closed) && r.Err? && !Failed() ==>
                || Unreadable(r.error, old(Pending()), old(io.ring.Contents()), old(io.ring.head),
                              |old(io.socket.chunks)|)
                || Rejected(old(Pending()), h.key, old(h.Asked()), r.error)
                || Unusable(old(Pending()), h.key, old(h.Asked()), r.error)
      ensures old(closed) && r.Ok? ==>
                && io.socket.outgoing == old(io.socket.outgoing) + RequestBytes(h)
                && Failed() == old(Failed())
                && Accepted(old(Pending()), h.key, old(h.Asked()))
    {
      hide Ring, IsPowerOfTwo, PhaseOf, Advance, Accounts, Unreadable, Rejected, FirstAt, Wire;
      hide H.RequestText, H.BytesOf, H.Handshake.Requests, RequestBytes, VerdictOn;
      hide WebSocketClient.Accepted, WebSocketClient.Prepared;
      Unprepared(h.Asked());
      if !closed {
        return Err(WSError(LogicError, NOT_SET));
      }
      var request := RequestOf(h);
      r := Establish(request, h);
    }

    /** Perform the handshake and log it. */
    method Establish(request: array<byte>, h: H.Handshake) returns (r: Result<()>)
      requires Valid() && Logged() && closed && log == [] && !compressing && Usable() && !h.negotiated
      modifies this`log, this`closed, this`compressing, zbuffer, io.ring, io.ring.buffer, io.socket,
               h`responseFields, h`negotiated, h`success, h.deflate
      ensures Valid() && Logged() && closed == r.Err?
      ensures old(Failed()) ==> Failed()
      ensures log == [Event.Handshake(r.Ok?, old(request[..]), Added(old(io.socket.outgoing), io.socket.outgoing))]
      ensures r.Err? && compressing != old(compressing) ==> Unusable(old(Pending()), h.key, old(h.Asked()), r.error)
      ensures Prepared(old(zbuffer.maxSize), old(h.Asked()))
      ensures zbuffer.storage == old(zbuffer.storage) || zbuffer.storage == null || fresh(zbuffer.storage)
      ensures r.Err? && !Failed() ==>
                || Unreadable(r.error, old(Pending()), old(io.ring.Contents()), old(io.ring.head),
                              |old(io.socket.chunks)|)
                || Rejected(old(Pending()), h.key, old(h.Asked()), r.error)
                || Unusable(old(Pending()), h.key, old(h.Asked()), r.error)
      ensures r.Ok? ==>
                && io.socket.outgoing == old(io.socket.outgoing) + old(request[..])
                && Failed() == old(Failed())
                && Accepted(old(Pending()), h.key, old(h.Asked()))
    {
      hide Ring, IsPowerOfTwo, PhaseOf, Advance, Accounts, Unreadable, Rejected, Consistent, FirstAt;
      hide Requested, H.Handshake.Asked, InFull, Wire, WebSocketClient.Accepted, WebSocketClient.Prepared;
      ghost var bytes, before := request[..], Failed();
      r := PerformHandshake(request, h);
      ghost var e := Event.Handshake(r.Ok?, bytes, Added(old(io.socket.outgoing), io.socket.outgoing));
      Opens(e);
      RequestPart(old(io.socket.outgoing), io.socket.outgoing, bytes, Failed(), r.Ok?);
      AccountsMore([], e, origin, old(io.socket.outgoing), io.socket.outgoing, before, Failed());
      log := log + [e];
      closed := r.Err?;
    }

    /** The request with a new key, as bytes. */
    static method RequestOf(h: H.Handshake) returns (request: array<byte>)
      requires h.Valid()
      modifies h`key, h.rnd.s, h.requestFields
      ensures h.Requests(old(h.requestFields.fields), old(h.rnd.View()), old(h.Asked())) && h.Asked() == old(h.Asked())
      ensures fresh(request) && request[..] == RequestBytes(h)
    {
      hide H.CharByte, H.RequestText;
      var text := h.GetRequestMessage();
      request := new byte[|text|](i requires 0 <= i < |text| => H.CharByte(text[i]));
    }

    /** Everything of the handshake but the request text and marking the connection open. */
    method PerformHandshake(request: array<byte>, h: H.Handshake) returns (r: Result<()>)
      requires Valid() && closed && Usable() && !compressing && !h.negotiated
      modifies this`compressing, zbuffer, io.ring, io.ring.buffer, io.socket,
               h`responseFields, h`negotiated, h`success, h.deflate
      ensures Valid() && Usable()
      ensures r.Err? && compressing != old(compressing) ==> Unusable(old(Pending()), h.key, old(h.Asked()), r.error)
      ensures old(Failed()) ==> Failed()
      ensures Requested(old(io.socket.outgoing), io.socket.outgoing, old(request[..]), Failed())
      ensures Prepared(old(zbuffer.maxSize), old(h.Asked()))
      ensures zbuffer.storage == old(zbuffer.storage) || zbuffer.storage == null || fresh(zbuffer.storage)
      ensures r.Err? && !Failed() ==>
                || Unreadable(r.error, old(Pending()), old(io.ring.Contents()), old(io.ring.head),
                              |old(io.socket.chunks)|)
                || Rejected(old(Pending()), h.key, old(h.Asked()), r.error)
                || Unusable(old(Pending()), h.key, old(h.Asked()), r.error)
      ensures r.Ok? ==>
                && io.socket.outgoing == old(io.socket.outgoing) + old(request[..])
                && !io.ring.full && Failed() == old(Failed())
                && Accepted(old(Pending()), h.key, old(h.Asked()))
    {
      hide Ring, IsPowerOfTwo, FirstAt, Unreadable, Wrote, Rejected, Requested;
      hide WebSocketClient.Accepted, WebSocketClient.Prepared, VerdictOn, H.Handshake.Asked;
      Unprepared(h.Asked());
      assert request[0..request.Length] == request[..];
      r := io.Write(request, 0, request.Length);
      RequestedBy(old(io.socket.outgoing), io.socket.outgoing, old(request[..]), r.Ok?);
      if r.Err? {
        return;
      }
      WroteAll(old(io.socket.outgoing), io.socket.outgoing, old(request[..]));
      r := Answered(h);
    }

    /** Read the response and judge it. */
    method Answered(h: H.Handshake) returns (r: Result<()>)
      requires Valid() && closed && Usable() && !compressing && !h.negotiated
      modifies this`compressing, zbuffer, io.ring, io.ring.buffer,
               io.socket`incoming, io.socket`chunks, io.socket`calls, io.socket`failed,
               h`responseFields, h`negotiated, h`success, h.deflate
      ensures Valid() && Usable()
      ensures r.Err? && compressing != old(compressing) ==> Unusable(old(Pending()), h.key, old(h.Asked()), r.error)
      ensures old(Failed()) ==> Failed()
      ensures Prepared(old(zbuffer.maxSize), old(h.Asked()))
      ensures zbuffer.storage == old(zbuffer.storage) || zbuffer.storage == null || fresh(zbuffer.storage)
      ensures r.Err? && !Failed() ==>
                || Unreadable(r.error, old(Pending()), old(io.ring.Contents()), old(io.ring.head),
                              |old(io.socket.chunks)|)
                || Rejected(old(Pending()), h.key, old(h.Asked()), r.error)
                || Unusable(old(Pending()), h.key, old(h.Asked()), r.error)
      ensures r.Ok? ==> !io.ring.full && Failed() == old(Failed()) && Accepted(old(Pending()), h.key, old(h.Asked()))
    {
      hide Ring, IsPowerOfTwo, FirstAt, Unreadable, Rejected, H.Handshake.Asked, H.Verdict;
      hide WebSocketClient.Accepted, WebSocketClient.Prepared, WebSocketClient.Ready;
      ghost var s, asked := Pending(), h.Asked();
      Unprepared(asked);
      var headers := ReadResponse();
      if headers.Err? {
        return Err(headers.error);
      }
      r := JudgeResponse(headers.value, h);
      Judged(s, h.key, asked, |headers.value|);
    }

    lemma Unprepared(asked: Option<H.Offer>)
      ensures Prepared(zbuffer.maxSize, asked)
    {
    }

    lemma Judged(stream: seq<byte>, key: string, asked: Option<H.Offer>, p: nat)
      requires Valid() && FirstAt(stream, H.TERMINATOR, p) && Pending() == stream[p + 4..]
      ensures var v := VerdictOn(stream, p, key, asked);
              && (v.Ok? && Ready(v.value) ==> Accepted(stream, key, asked))
              && (v.Err? ==> Rejected(stream, key, asked, v.error))
              && forall e :: Refuses(v, e) ==> Unusable(stream, key, asked, e)
    {
      hide VerdictOn, WebSocketClient.Refuses;
    }

    /** Let the handshake judge the response, and set up compression if it was negotiated. */
    method JudgeResponse(headers: seq<byte>, h: H.Handshake) returns (r: Result<()>)
      requires Valid() && closed && Usable() && !compressing && !io.ring.full && !h.negotiated
      modifies this`compressing, zbuffer, h`responseFields, h`negotiated, h`success, h.deflate
      ensures Valid() && Usable() && Prepared(old(zbuffer.maxSize), old(h.Asked()))
      ensures zbuffer.storage == old(zbuffer.storage) || zbuffer.storage == null || fresh(zbuffer.storage)
      ensures var v := H.Verdict(H.StringOf(headers), h.key, old(h.Asked()));
              if r.Ok? then v.Ok? && Ready(v.value)
              else (v == Err(r.error) && !compressing) || Refuses(v, r.error)
    {
      hide Ring, IsPowerOfTwo, H.Verdict, H.StringOf;
      r := h.ProcessResponse(H.StringOf(headers));
      if r.Err? {
        return;
      }
      if h.negotiated {
        r := InitCompression(h.Asked().value);
      }
    }

    /**
     A well-formed response in the server's stream, whatever follows it: the handshake can only accept it if its
     status is 101 and its fields are as they must be, and can only reject it if not.
     */
    lemma ResponseDecides(line: HttpParser.HttpStatusLine, fields: seq<HttpHeader.Field>, after: seq<byte>,
                          stream: seq<byte>, key: string, asked: Option<H.Offer>)
      requires Valid() && IsResponse(line, fields, after, stream)
      ensures Accepted(stream, key, asked) ==> line.code == 101 && H.Judge(fields, key, asked).Ok?
      ensures forall e :: Rejected(stream, key, asked, e) ==> line.code != 101 || H.Judge(fields, key, asked) == Err(e)
      ensures forall e :: Unusable(stream, key, asked, e) ==>
                            line.code == 101 && Refuses(H.Judge(fields, key, asked), e)
    {
      hide IsResponse, H.Judge, VerdictOn, Occurs;
      forall p: nat | FirstAt(stream, H.TERMINATOR, p)
        ensures p <= |stream|
        ensures VerdictOn(stream, p, key, asked) ==
                if line.code == 101 then H.Judge(fields, key, asked) else Err(H.REFUSED)
      {
        ResponseVerdict(line, fields, after, stream, key, asked, p);
      }
    }
  }

  /** The server's stream is a well-formed response with `after` behind it. */
  predicate IsResponse(line: HttpParser.HttpStatusLine, fields: seq<HttpHeader.Field>, after: seq<byte>,
                       stream: seq<byte>)
  {
    && HttpParser.IsStatus(line) && (forall f | f in fields :: HttpParser.IsGood(f))
    && H.AreBytes(H.ResponseText(line, fields)) && stream == H.BytesOf(H.ResponseText(line, fields)) + after
  }

  lemma ResponseVerdict(line: HttpParser.HttpStatusLine, fields: seq<HttpHeader.Field>, after: seq<byte>,
                        stream: seq<byte>, key: string, asked: Option<H.Offer>, p: nat)
    requires IsResponse(line, fields, after, stream) && FirstAt(stream, H.TERMINATOR, p)
    ensures p <= |stream|
    ensures VerdictOn(stream, p, key, asked) ==
            if line.code == 101 then H.Judge(fields, key, asked) else Err(H.REFUSED)
  {
    hide HttpParser.IsGood, HttpParser.IsStatus, H.ResponseText, H.Verdict, H.Judge, H.AreBytes, H.BytesOf, H.StringOf;
    assert Occurs(stream, H.TERMINATOR, p);
    H.ResponseIsJudged(line, fields, after, key, asked, p);
  }

  /**
     What closing with the status code `n` puts on the wire: nothing for the codes that fail the connection, else one
     frame that a server decodes as 0x88, a close frame, with the two bytes of the number.
   */
  ghost predicate IsClosing(n: int, bytes: seq<byte>) {
    if n == 0 || n == 1002 || n == 1003 || 1007 <= n <= 1011 then bytes == []
    else
      var d := DecodeMaskedFrame(bytes);
      && d.Some? && d.value.used == |bytes| && d.value.header.b0 == 0x88
      && |d.value.payload| == 2
      && d.value.payload[0] as int == n / 0x100 && d.value.payload[1] as int == n % 0x100
  }

  lemma FailsInNumbers(code: CloseCode)
    ensures FailsConnection(code) <==>
            var n := code as int; n == 0 || n == 1002 || n == 1003 || 1007 <= n <= 1011
  {
  }

  lemma PayloadInNumbers(code: CloseCode)
    requires code != 0
    ensures var s := ClosePayload(code);
            |s| == 2 && s[0] as int == code as int / 0x100 && s[1] as int == code as int % 0x100
  {
    ValueOf16(code);
  }

  lemma NothingIsClosing(code: CloseCode, out: seq<byte>)
    requires FailsConnection(code)
    ensures IsClosing(code as int, Added(out, out))
  {
    FailsInNumbers(code);
  }

  lemma ClosesInNumbers(code: CloseCode, log: seq<Event>, log': seq<Event>, f: ClientFrame,
                        before: seq<byte>, after: seq<byte>)
    requires !FailsConnection(code) && Emitted(log, log', f, before, after, true)
    requires f.Is(CLOSE, false, ClosePayload(code), f.addr, f.align) && f.Recoverable() && f.Begins(0x88)
    ensures before <= after && IsClosing(code as int, Added(before, after))
  {
    hide ClientFrame.Recoverable, ClientFrame.Bytes, ClientFrame.Valid, ClosePayload, IsClosing, FailsConnection;
    hide ClientFrame.Begins, FrameHeader.OpCode;
    FrameIsClosing(code, f);
    WroteAll(before, after, f.Bytes());
    assert Added(before, after) == f.Bytes();
  }

  lemma FrameIsClosing(code: CloseCode, f: ClientFrame)
    requires !FailsConnection(code)
    requires f.Is(CLOSE, false, ClosePayload(code), f.addr, f.align) && f.Recoverable() && f.Begins(0x88)
    ensures IsClosing(code as int, f.Bytes())
  {
    hide ClientFrame.Recoverable, ClientFrame.Seen, ClientFrame.Bytes, ClientFrame.Valid, ClosePayload;
    hide DecodeMaskedFrame, FrameHeader.OpCode, FailsConnection;
    FailsInNumbers(code);
    PayloadInNumbers(code);
    FrameIsSeen(f, []);
    SeenWhole(f);
    assert f.Bytes() + [] == f.Bytes();
  }

  lemma SeenWhole(f: ClientFrame)
    requires f.Valid()
    ensures f.Seen().used == |f.Bytes()| && f.Seen().header.b0 == f.Bytes()[0]
  {
  }

  /** What a response is judged as that ends at `p`. */
  ghost function VerdictOn(stream: seq<byte>, p: nat, key: string, asked: Option<H.Offer>): Result<Option<H.Offer>>
    requires p <= |stream|
  {
    H.Verdict(H.StringOf(stream[..p]), key, asked)
  }

  /** The request as it goes out. */
  function RequestBytes(h: H.Handshake): seq<byte>
    reads h.requestFields
  {
    H.BytesOf(H.RequestText(h.url.resource, h.requestFields.fields))
  }

  /** The response at the front of `stream` was rejected. */
  ghost predicate Rejected(stream: seq<byte>, key: string, asked: Option<H.Offer>, error: WSError) {
    exists p: nat :: FirstAt(stream, H.TERMINATOR, p) && VerdictOn(stream, p, key, asked) == Err(error)
  }

  /** Compression failed, or its output is too large. */
  predicate NotCompressed(out: Result<seq<byte>>, error: WSError) {
    out == Err(error) || (out.Ok? && |out.value| > UINT64_MAX)
  }

  /** The frame carries the compressed payload, so that a server recovers it. */
  predicate IsCompressed(f: ClientFrame, op: Opcode, out: Result<seq<byte>>) {
    out.Ok? && f.Is(op, true, out.value, f.addr, f.align) && f.Recoverable()
  }

  /** Marking a frame compressed touches none of its other fields. */
  lemma HeaderSoFar(op: Opcode, h: FrameHeader, h': FrameHeader, compressed: bool)
    requires op <= 0xF && h.OpCode() == op & 0x0F && h.IsFinal() && h.IsMasked() && h.b1 & 0x7F == 0
    requires h.b0 & 0x70 == 0
    requires if compressed then h'.Rsv1() && h'.b0 & 0xBF == h.b0 & 0xBF && h'.b1 == h.b1 else h' == h
    ensures h'.OpCode() == op && h'.IsFinal() && h'.IsMasked() && h'.b1 & 1 == 0
    ensures h'.Rsv1() == compressed && !h'.Rsv2() && !h'.Rsv3()
  {
  }

  /** How one frame ends inside the loop of `ReadMessage`. */
  datatype FrameOutcome = Continue | LastFrame | Result(received: Received)

  /** A message is only marked compressed when compression was negotiated. */
  lemma AcceptedIsUsable(cfg: Config, p: Progress, h: FrameHeader, size: nat)
    requires p.state.isCompressed ==> cfg.zMax.Some?
    ensures var r := AcceptHeader(cfg, p, h, size); r.Ok? && r.value.state.isCompressed ==> cfg.zMax.Some?
  {
    hide FrameHeader.OpCode, FrameHeader.Rsv1, FrameHeader.Rsv2, FrameHeader.Rsv3, FrameHeader.HasRsvBits;
  }

  /** A frame other than a close frame leaves the connection open. */
  lemma StaysOpen(log: seq<Event>, f: ClientFrame, sent: seq<byte>)
    requires f.header.OpCode() == TEXT || f.header.OpCode() == BINARY || f.header.OpCode() == PONG
    ensures PhaseOf(log) == Open ==> PhaseOf(log + [FrameSent(f, sent)]) == Open
  {
    PhaseSnoc(log, FrameSent(f, sent));
  }

  lemma ClosesWith(log: seq<Event>, f: ClientFrame, sent: seq<byte>)
    requires f.header.OpCode() == CLOSE
    ensures PhaseOf(log) == Open ==> PhaseOf(log + [FrameSent(f, sent)]) == Closing
  {
    PhaseSnoc(log, FrameSent(f, sent));
  }

  lemma ShutsDown(before: seq<Event>, log: seq<Event>)
    requires PhaseOf(before) == Open
    ensures PhaseOf(log) == Closing || log == before ==> PhaseOf(log + [Shutdown]) == Ended
  {
    PhaseSnoc(log, Shutdown);
  }

  lemma Opens(e: Event)
    requires e.Handshake?
    ensures PhaseOf([]) == New && PhaseOf([] + [e]) == if e.success then Open else Refused
  {
    PhaseSnoc([], e);
  }

  /** The request was sent, in full unless the transport failed. */
  ghost predicate Requested(before: seq<byte>, after: seq<byte>, request: seq<byte>, failed: bool) {
    exists ok :: Wrote(before, after, request, ok) && (ok || failed)
  }

  lemma RequestedBy(before: seq<byte>, after: seq<byte>, request: seq<byte>, ok: bool)
    requires Wrote(before, after, request, ok)
    ensures Requested(before, after, request, true) && (ok ==> Requested(before, after, request, false))
  {
  }

  /** What was sent of the request, as an event. */
  lemma RequestPart(before: seq<byte>, after: seq<byte>, request: seq<byte>, failed: bool, success: bool)
    requires Requested(before, after, request, failed)
    requires success ==> after == before + request
    ensures var e := Event.Handshake(success, request, Added(before, after));
            after == before + Added(before, after) && Consistent(e) && (!failed ==> InFull(e))
  {
    var ok :| Wrote(before, after, request, ok) && (ok || failed);
    WrotePart(before, after, request, ok);
  }

  lemma FrameIs(f: ClientFrame, op: Opcode, compressed: bool)
    requires |f.key| == 4 && IsChunkSize(f.align) && |f.payload| <= UINT64_MAX
    requires IsClientHeader(f.header, op, compressed, |f.payload|)
    ensures f.Is(op, compressed, f.payload, f.addr, f.align)
  {
  }

  lemma MaskedHeader(h: FrameHeader, op: Opcode, compressed: bool, size: nat)
    requires IsClientHeader(h, op, compressed, size)
    ensures h.IsMasked()
  {
  }

  /** Two bytes from offset 125 of a 64-byte aligned buffer hold no aligned chunk. */
  lemma NoChunkAt125(base: nat, align: nat, len: nat)
    requires IsChunkSize(align) && base % 64 == 0 && len <= 2
    ensures NoFullChunk(base + 125, align, len)
  {
    var k := base / 64;
    ModUnique(base + 125, 8, 8 * k + 15, 5);
    ModUnique(base + 125, 16, 4 * k + 7, 13);
  }

  lemma Suffix(s: seq<byte>, a: seq<byte>, b: seq<byte>)
    requires a + b == s
    ensures a == s[..|a|] && b == s[|a|..]
    ensures |b| >= 4 ==> b[4..] == s[|a| + 4..]
  {
  }
}
