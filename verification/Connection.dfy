/** A whole connection: any sequence of calls on one client, with whatever the transport and the server do. */
module Connection {
  import opened Errors
  import opened Frame
  import opened Bits
  import opened CircularBuffer
  import opened Buffer
  import opened Networking
  import opened Lifecycle
  import opened WebSocketClient
  import opened Seqs
  import opened Sending
  import H = Handshake
  import HttpHeader
  import Url
  import Random
  import Base64
  import P = PermessageDeflate
  import MaskKey
  import Delimiters

  /** What a handshake is set up from: where to, the user's own fields, what is offered, and a seed for the key. */
  datatype Opening = Opening(url: Url.URL, user: seq<HttpHeader.Field>, asked: Option<H.Offer>, endian: Endian,
                             seed: bv64)
  {
    function Key(): string {
      Base64.Encode(H.KeyBytes(endian, Random.Seeded(seed)))
    }

    function Request(): seq<byte> {
      H.BytesOf(H.RequestText(url.resource, H.FilledIn(user, Url.Authority(url), Key(), asked)))
    }
  }

  /** A call on the client; the addresses are those of the payloads in memory. */
  datatype Command =
    | Open(opening: Opening)
    | Read
    | Send(op: Opcode, data: seq<byte>, addr: nat, compress: bool)
    | Pong(data: seq<byte>, addr: nat)
    | Close(code: CloseCode)

  /**
     What can be seen of a connection at one moment: its log, whether compression was negotiated, and what has happened
     on the wire.
   */
  datatype Snapshot = Snapshot(log: seq<Event>, compressing: bool, sent: seq<byte>, unread: seq<byte>, calls: nat,
                               failed: bool)

  ghost function Observe(client: WebSocketClient): Snapshot
    reads client, client.io, client.io.socket
  {
    Snapshot(client.log, client.compressing, client.io.socket.outgoing, client.io.socket.incoming,
             client.io.socket.calls, client.io.socket.failed)
  }

  /** No further command can change anything: the connection was refused or has ended. */
  predicate Over(s: Snapshot) {
    PhaseOf(s.log) == Refused || PhaseOf(s.log) == Ended
  }

  /**
     One command's effect: the bytes sent are exactly those of the events it adds to the log, and after the end
     nothing happens at all.
   */
  predicate Step(s: Snapshot, t: Snapshot) {
    && s.log <= t.log && t.sent == s.sent + Wire(t.log[|s.log|..])
    && (s.failed ==> t.failed)
    && (PhaseOf(s.log) != New ==> t.compressing == s.compressing)
    && (Over(s) ==> t == s)
  }

  /** A message that is to be compressed, which may fail. */
  predicate MayFail(c: Command, compressing: bool) {
    c.Send? && c.compress && compressing
  }

  /** The frame that a command sends. What is compressed is sent so that a server recovers it. */
  predicate Carries(c: Command, compressing: bool, f: ClientFrame) {
    && f.Valid() && f.header.Rsv1() == MayFail(c, compressing)
    && match c
       case Send(op, data, addr, _) =>
         && (op == TEXT || op == BINARY) && f.header.OpCode() == op
         && if MayFail(c, compressing) then f.Recoverable() else f.payload == data && f.addr == addr
       case Pong(data, addr) => f.header.OpCode() == PONG && f.payload == data && f.addr == addr
       case Close(code) => f.header.OpCode() == CLOSE && f.payload == ClosePayload(code) && f.Recoverable()
       case _ => false
  }

  /** The command may leave the log as it is. */
  predicate Idle(c: Command, s: Snapshot) {
    if c.Open? then PhaseOf(s.log) != New
    else c.Read? || PhaseOf(s.log) != Phase.Open || MayFail(c, s.compressing)
  }

  /**
     What a command adds to the log: the one handshake, or on an open connection its frame, and the shutdown if it
     closes the connection.
   */
  predicate Adds(c: Command, s: Snapshot, t: Snapshot) {
    var events := Added(s.log, t.log);
    || (Idle(c, s) && events == [])
    || (!Idle(c, s) && c.Open? && |events| == 1 && events[0].Handshake? && events[0].request == c.opening.Request())
    || (&& !c.Open? && !c.Read? && PhaseOf(s.log) == Phase.Open
        && if c.Close? && FailsConnection(c.code) then events == [Shutdown]
           else
             && events != [] && events[0].FrameSent? && Carries(c, s.compressing, events[0].frame)
             && events[1..] == if c.Close? then [Shutdown] else [])
  }

  /** Neither the log nor the wire has changed. */
  lemma AddsNothing(c: Command, s: Snapshot, t: Snapshot)
    requires t.log == s.log && t.sent == s.sent && t.compressing == s.compressing
    requires (s.failed ==> t.failed) && (Over(s) ==> t == s) && Idle(c, s)
    ensures Step(s, t) && Adds(c, s, t)
  {
    hide PhaseOf;
    assert t.log[|s.log|..] == [];
  }

  /** One frame, or what of it was sent. */
  lemma AddsFrame(c: Command, s: Snapshot, t: Snapshot, f: ClientFrame, ok: bool)
    requires Emitted(s.log, t.log, f, s.sent, t.sent, ok) && PhaseOf(s.log) == Phase.Open
    requires t.compressing == s.compressing && (s.failed ==> t.failed)
    requires (c.Send? || c.Pong?) && Carries(c, s.compressing, f)
    ensures Step(s, t) && Adds(c, s, t)
  {
    hide PhaseOf, Wrote, Carries, ClientFrame.Valid, ClientFrame.Bytes;
    WrotePart(s.sent, t.sent, f.Bytes(), ok);
    var e := FrameSent(f, Added(s.sent, t.sent));
    assert t.log[|s.log|..] == [e] && [e][1..] == [];
    WireOne(e);
  }

  /** The client between commands, with the buffer its caller reads into. */
  ghost predicate Running(client: WebSocketClient, buffer: Buffer)
    reads client, client.io, client.io.ring, client.io.socket, client.zbuffer, buffer
  {
    && client.Valid() && client.Accepts(buffer) && client.Logged()
    && (client.closed && client.log == [] ==> !client.compressing && client.Usable())
  }

  /** The decompression buffer that is set up together with the caller's buffer must not exceed a `size_t`. */
  predicate Bounded(maxSize: nat, o: Opening) {
    o.asked.Some? ==> maxSize + o.asked.value.room <= SIZE_MAX
  }

  /** A handshake object as the user sets it up. */
  method SetUp(o: Opening) returns (h: H.Handshake)
    ensures fresh(h) && fresh(h.rnd.s) && fresh(h.requestFields) && (h.deflate != null ==> fresh(h.deflate))
    ensures h.Valid() && !h.negotiated && h.url == o.url && h.endian == o.endian && h.Asked() == o.asked
    ensures h.requestFields.fields == o.user && h.rnd.View() == Random.Seeded(o.seed)
  {
    hide Random.Seeded;
    h := new H.Handshake(o.url, o.endian, o.seed);
    h.requestFields.fields := o.user;
    if o.asked.Some? {
      var settings := o.asked.value.settings;
      var deflate := new P.PermessageDeflate();
      deflate.serverMaxWindowBits, deflate.clientMaxWindowBits := settings.serverBits, settings.clientBits;
      deflate.serverNoContextTakeover := settings.serverReset;
      deflate.clientNoContextTakeover := settings.clientReset;
      deflate.decompressBufferSize := o.asked.value.room;
      h.SetPermessageDeflate(deflate);
    }
  }

  /** The opening handshake, which is performed once, as the first command on the wire. */
  method PerformOpen(client: WebSocketClient, buffer: Buffer, o: Opening) returns (ok: bool)
    requires Running(client, buffer) && Bounded(buffer.maxSize, o) && client.closed && client.log == []
    modifies client, client.zbuffer, client.io.ring, client.io.ring.buffer, client.io.socket
    ensures Running(client, buffer)
    ensures client.zbuffer.storage == old(client.zbuffer.storage) || client.zbuffer.storage == null
            || fresh(client.zbuffer.storage)
    ensures Step(old(Observe(client)), Observe(client))
    ensures Adds(Command.Open(o), old(Observe(client)), Observe(client)) && client.log != []
    ensures ok ==> !client.closed && client.Usable() && client.Failed() == old(client.Failed())
  {
    hide Ring, IsPowerOfTwo, PhaseOf, Advance, Rejected, WebSocketClient.Unreadable, Delimiters.FirstAt;
    hide Random.Seeded, VerdictOn, H.BytesOf, H.RequestText, Base64.Encode, H.KeyBytes, H.FilledIn, Url.Authority;
    hide Accounts, Step, Adds, WebSocketClient.Accepted;
    var h := SetUp(o);
    var r := client.Handshake(h);
    ok := r.Ok?;
    Opened(old(Observe(client)), Observe(client), ok, o, client.origin);
  }

  lemma Opened(s: Snapshot, t: Snapshot, ok: bool, o: Opening, origin: seq<byte>)
    requires s.log == [] && t.log == [Event.Handshake(ok, o.Request(), Added(s.sent, t.sent))]
    requires Accounts(s.log, origin, s.sent, s.failed) && Accounts(t.log, origin, t.sent, t.failed)
    requires s.failed ==> t.failed
    ensures Step(s, t) && Adds(Command.Open(o), s, t) && t.log != []
  {
    hide Opening.Request;
    WireOne(t.log[0]);
    assert origin + [] == origin;
    assert t.log[0..] == t.log;
  }

  /** Reading goes on until the first failure; later reads on an open connection are not the caller's to make. */
  method PerformRead(client: WebSocketClient, buffer: Buffer) returns (ok: bool)
    requires Running(client, buffer) && (!client.closed ==> client.Usable() && !client.Failed())
    modifies client`readState, client`inflated, buffer`storage, buffer`capacity, buffer`used, buffer.storage,
             client.zbuffer`storage, client.zbuffer`capacity, client.zbuffer`used, client.zbuffer.storage,
             client.io.ring`head, client.io.ring`tail, client.io.ring`full, client.io.ring.buffer,
             client.io.socket`incoming, client.io.socket`chunks, client.io.socket`calls, client.io.socket`failed
    ensures Running(client, buffer) && client.closed == old(client.closed)
    ensures client.closed ==> Observe(client) == old(Observe(client))
    ensures buffer.storage == old(buffer.storage) || fresh(buffer.storage)
    ensures client.zbuffer.storage == old(client.zbuffer.storage) || fresh(client.zbuffer.storage)
    ensures Step(old(Observe(client)), Observe(client)) && Adds(Read, old(Observe(client)), Observe(client))
    ensures ok && !client.closed ==> client.Usable() && !client.Failed()
  {
    hide Ring, IsPowerOfTwo, PhaseOf, Advance, Receiver.ReadMessage, WebSocketClient.Progress, WebSocketClient.Pending;
    hide Consistent, InFull;
    var timeout := new Timeout();
    var r := client.ReadMessage(buffer, timeout);
    ok := !r.Failure?;
    AddsNothing(Read, old(Observe(client)), Observe(client));
  }

  method PerformSend(client: WebSocketClient, buffer: Buffer, op: Opcode, data: seq<byte>, addr: nat, compress: bool)
    returns (ok: bool)
    requires Running(client, buffer) && (op == TEXT || op == BINARY) && |data| <= UINT64_MAX
    modifies client`log, client`deflated, client.writeBuffer,
             client.io.socket`outgoing, client.io.socket`calls, client.io.socket`failed
    ensures Running(client, buffer) && client.closed == old(client.closed)
    ensures client.closed ==> Observe(client) == old(Observe(client))
    ensures Step(old(Observe(client)), Observe(client))
    ensures Adds(Send(op, data, addr, compress), old(Observe(client)), Observe(client))
    ensures ok ==> client.Failed() == old(client.Failed())
  {
    hide Ring, IsPowerOfTwo, PhaseOf, Advance, MaskKey.Masked, Sending.IsClientHeader, Sending.SentBytes;
    hide Accounts, Emitted, Splice, FrameHeader.OpCode, FrameHeader.Rsv1, ClientFrame.Recoverable;
    var bytes := new byte[|data|](i requires 0 <= i < |data| => data[i]);
    assert bytes[0..|data|] == data;
    var r, f := client.SendMessage(op, bytes, 0, |data|, addr, compress);
    ok := r.Ok?;
    ghost var c, s, t := Send(op, data, addr, compress), old(Observe(client)), Observe(client);
    if client.log == old(client.log) {
      AddsNothing(c, s, t);
    } else {
      AddsFrame(c, s, t, f, ok);
    }
  }

  method PerformPong(client: WebSocketClient, buffer: Buffer, data: seq<byte>, addr: nat) returns (ok: bool)
    requires Running(client, buffer) && |data| <= UINT64_MAX
    modifies client`log, client.writeBuffer, client.io.socket`outgoing, client.io.socket`calls, client.io.socket`failed
    ensures Running(client, buffer) && client.closed == old(client.closed)
    ensures client.closed ==> Observe(client) == old(Observe(client))
    ensures Step(old(Observe(client)), Observe(client))
    ensures Adds(Pong(data, addr), old(Observe(client)), Observe(client))
    ensures ok ==> client.Failed() == old(client.Failed())
  {
    hide Ring, IsPowerOfTwo, PhaseOf, Advance, MaskKey.Masked, Sending.IsClientHeader, Sending.SentBytes;
    hide Accounts, Wrote, Splice, FrameHeader.OpCode, FrameHeader.Rsv1, ClientFrame.Recoverable;
    var bytes := new byte[|data|](i requires 0 <= i < |data| => data[i]);
    assert bytes[0..|data|] == data;
    var r, f := client.SendPongFrame(bytes, 0, |data|, addr);
    ok := r.Ok?;
    if client.closed {
      AddsNothing(Pong(data, addr), old(Observe(client)), Observe(client));
    } else {
      AddsFrame(Pong(data, addr), old(Observe(client)), Observe(client), f, ok);
    }
  }

  method PerformClose(client: WebSocketClient, buffer: Buffer, code: CloseCode)
    requires Running(client, buffer)
    modifies client`log, client`closed, client.writeBuffer,
             client.io.socket`outgoing, client.io.socket`calls, client.io.socket`failed
    ensures Running(client, buffer) && client.closed
    ensures old(client.closed) ==> Observe(client) == old(Observe(client))
    ensures Step(old(Observe(client)), Observe(client))
    ensures Adds(Close(code), old(Observe(client)), Observe(client))
  {
    hide Ring, IsPowerOfTwo, PhaseOf, Advance, MaskKey.Bytewise, Sending.IsClientHeader, Sending.SentBytes;
    hide Accounts, Wrote, ClosePayload, FrameHeader.OpCode, FrameHeader.Rsv1, ClientFrame.Recoverable, Emitted;
    var r, f := client.Close(code);
    ghost var s, t := old(Observe(client)), Observe(client);
    if old(client.closed) {
      AddsNothing(Close(code), s, t);
    } else if FailsConnection(code) {
      AddsShutdown(code, s, t);
    } else {
      ghost var middle, ok :| Emitted(s.log, middle, f, s.sent, t.sent, ok) && t.log == middle + [Shutdown];
      AddsClose(code, s, middle, t, f, ok);
    }
  }

  lemma AddsShutdown(code: CloseCode, s: Snapshot, t: Snapshot)
    requires PhaseOf(s.log) == Phase.Open && FailsConnection(code) && t.compressing == s.compressing
    requires t.log == s.log + [Shutdown] && t.sent == s.sent && (s.failed ==> t.failed)
    ensures Step(s, t) && Adds(Close(code), s, t)
  {
    hide PhaseOf;
    assert t.log[|s.log|..] == [Shutdown];
    WireOne(Shutdown);
  }

  lemma AddsClose(code: CloseCode, s: Snapshot, middle: seq<Event>, t: Snapshot, f: ClientFrame, ok: bool)
    requires PhaseOf(s.log) == Phase.Open && Emitted(s.log, middle, f, s.sent, t.sent, ok)
    requires t.log == middle + [Shutdown] && !FailsConnection(code) && t.compressing == s.compressing
    requires (s.failed ==> t.failed) && Carries(Close(code), s.compressing, f)
    ensures Step(s, t) && Adds(Close(code), s, t)
  {
    hide PhaseOf, Wrote, Carries, ClientFrame.Valid, ClientFrame.Bytes;
    WrotePart(s.sent, t.sent, f.Bytes(), ok);
    var e := FrameSent(f, Added(s.sent, t.sent));
    assert t.log[|s.log|..] == [e] + [Shutdown] && ([e] + [Shutdown])[1..] == [Shutdown];
    WireConcat([e], [Shutdown]);
    WireOne(e);
    WireOne(Shutdown);
  }

  /** What the types of the source say about a command: messages are text or binary, and sizes fit a `size_t`. */
  predicate WellFormed(c: Command) {
    match c
    case Send(op, data, _, _) => (op == TEXT || op == BINARY) && |data| <= UINT64_MAX
    case Pong(data, _) => |data| <= UINT64_MAX
    case _ => true
  }

  /** One command other than the handshake. `reading` says that no call has failed yet. */
  method Perform(client: WebSocketClient, buffer: Buffer, c: Command, reading: bool) returns (ok: bool)
    requires Running(client, buffer) && WellFormed(c) && !c.Open?
    requires reading && !client.closed ==> client.Usable() && !client.Failed()
    modifies client, buffer, buffer.storage, client.zbuffer, client.zbuffer.storage, client.writeBuffer,
             client.io.ring, client.io.ring.buffer, client.io.socket
    ensures Running(client, buffer)
    ensures old(client.closed) ==> client.closed && Observe(client) == old(Observe(client))
    ensures buffer.storage == old(buffer.storage) || fresh(buffer.storage)
    ensures buffer.maxSize == old(buffer.maxSize)
    ensures client.zbuffer.storage == old(client.zbuffer.storage) || fresh(client.zbuffer.storage)
    ensures Step(old(Observe(client)), Observe(client)) && Adds(c, old(Observe(client)), Observe(client))
    ensures old(client.log) <= client.log
    ensures reading && ok && !client.closed ==> client.Usable() && !client.Failed()
  {
    hide Ring, IsPowerOfTwo, PhaseOf, Advance, Adds, Accounts, Wire;
    ok := false;
    match c {
      case Open(_) =>
      case Read =>
        if reading {
          ok := PerformRead(client, buffer);
        } else {
          AddsNothing(c, Observe(client), Observe(client));
        }
      case Send(op, data, addr, compress) =>
        ok := PerformSend(client, buffer, op, data, addr, compress);
      case Pong(data, addr) =>
        ok := PerformPong(client, buffer, data, addr);
      case Close(code) =>
        PerformClose(client, buffer, code);
    }
  }

  /** The snapshots of a run, the first before any command and then one after each of them. */
  ghost predicate IsTrace(trace: seq<Snapshot>, commands: seq<Command>, origin: seq<byte>) {
    && |trace| == |commands| + 1
    && (forall i | 0 <= i < |commands| ::
          Step(trace[i], trace[i + 1]) && Adds(commands[i], trace[i], trace[i + 1]))
    && (forall i | 0 <= i < |trace| ::
          PhaseOf(trace[i].log) != Impossible && Accounts(trace[i].log, origin, trace[i].sent, trace[i].failed))
  }

  /** Any sequence of commands, of which only the first handshake is carried out, produces a trace. */
  method Run(client: WebSocketClient, buffer: Buffer, commands: seq<Command>) returns (ghost trace: seq<Snapshot>)
    requires Running(client, buffer)
    requires forall i | 0 <= i < |commands| && commands[i].Open? :: Bounded(buffer.maxSize, commands[i].opening)
    requires client.closed && client.log == [] && !client.Failed()
    requires forall i | 0 <= i < |commands| :: WellFormed(commands[i])
    modifies client, buffer, buffer.storage, client.zbuffer, client.zbuffer.storage, client.writeBuffer,
             client.io.ring, client.io.ring.buffer, client.io.socket
    ensures Running(client, buffer)
    ensures IsTrace(trace, commands, client.origin)
    ensures trace[0] == old(Observe(client)) && trace[|commands|] == Observe(client)
  {
    hide Ring, IsPowerOfTwo, PhaseOf, Advance, Step, Adds, Accounts;
    var begun, reading := false, true;
    NewIsPossible();
    trace := [Observe(client)];
    for n := 0 to |commands|
      invariant Running(client, buffer) && buffer.maxSize == old(buffer.maxSize)
      invariant buffer.storage == old(buffer.storage) || fresh(buffer.storage)
      invariant client.zbuffer.storage == old(client.zbuffer.storage) || client.zbuffer.storage == null
                || fresh(client.zbuffer.storage)
      invariant IsTrace(trace, commands[..n], client.origin)
      invariant trace[0] == old(Observe(client)) && trace[n] == Observe(client)
      invariant begun ==> client.log != []
      invariant !begun ==> client.closed && client.log == [] && !client.Failed()
      invariant reading && !client.closed ==> client.Usable() && !client.Failed()
    {
      var ok: bool;
      if !commands[n].Open? {
        ok := Perform(client, buffer, commands[n], reading);
        reading := reading && ok;
      } else if !begun {
        ok := PerformOpen(client, buffer, commands[n].opening);
        begun, reading := true, ok;
      } else {
        OnlyEmptyIsNew(client.log);
        AddsNothing(commands[n], Observe(client), Observe(client));
      }
      Longer(trace, commands, n, Observe(client), client.origin);
      trace := trace + [Observe(client)];
    }
    assert commands[..|commands|] == commands;
  }

  lemma NewIsPossible()
    ensures PhaseOf([]) == New
  {
  }

  lemma Longer(trace: seq<Snapshot>, commands: seq<Command>, n: nat, t: Snapshot, origin: seq<byte>)
    requires n < |commands| && IsTrace(trace, commands[..n], origin)
    requires Step(trace[n], t) && Adds(commands[n], trace[n], t)
    requires PhaseOf(t.log) != Impossible && Accounts(t.log, origin, t.sent, t.failed)
    ensures IsTrace(trace + [t], commands[..n + 1], origin)
  {
    hide PhaseOf, Step, Adds, Accounts;
    assert commands[..n + 1][..n] == commands[..n];
    forall i | 0 <= i < n + 1 ensures
      Step((trace + [t])[i], (trace + [t])[i + 1]) && Adds(commands[..n + 1][i], (trace + [t])[i], (trace + [t])[i + 1])
    {
      if i < n {
        assert commands[..n][i] == commands[..n + 1][i];
      }
    }
  }

  /** In a trace, log and sent bytes only grow, and once the connection is over nothing changes any more. */
  lemma {:induction false} TraceGrows(trace: seq<Snapshot>, commands: seq<Command>, origin: seq<byte>, i: nat, j: nat)
    requires IsTrace(trace, commands, origin) && i <= j < |trace|
    ensures trace[i].log <= trace[j].log && trace[i].sent <= trace[j].sent && (trace[i].failed ==> trace[j].failed)
    ensures Over(trace[i]) ==> trace[j] == trace[i]
    decreases j - i
  {
    hide PhaseOf, Adds, Wire, Accounts;
    if i < j {
      assert Step(trace[i], trace[i + 1]);
      TraceGrows(trace, commands, origin, i + 1, j);
    }
  }

  lemma OnlyEmptyIsNew(log: seq<Event>)
    ensures PhaseOf(log) == New <==> log == []
  {
  }

  // ---- what the server gets to see ---------------------------------------------------------------------------

  /** On an open connection such a command sends a frame; closing does so but for eight status codes. */
  predicate IsSending(c: Command) {
    c.Send? || c.Pong? || (c.Close? && var n := c.code as int; !(n == 0 || n == 1002 || n == 1003 || 1007 <= n <= 1011))
  }

  lemma SendingCloses(c: Command)
    requires c.Close?
    ensures IsSending(c) <==> !FailsConnection(c.code)
  {
    hide FailsConnection;
    FailsInNumbers(c.code);
  }

  datatype Stage = Before | During | After

  /** Commands open a connection, if the handshake succeeds, and close it again. */
  function StageAfter(commands: seq<Command>): Stage
    decreases |commands|
  {
    if commands == [] then Before
    else
      match (StageAfter(commands[..|commands| - 1]), commands[|commands| - 1])
      case (Before, Open(_)) => During
      case (During, Close(_)) => After
      case (stage, _) => stage
  }

  /** The sending commands between the first handshake and the first close behind it, which is one of them. */
  function Sendings(commands: seq<Command>): seq<Command>
    decreases |commands|
  {
    if commands == [] then []
    else
      var front, c := commands[..|commands| - 1], commands[|commands| - 1];
      Sendings(front) + if StageAfter(front).During? && IsSending(c) then [c] else []
  }

  /** One frame for each command, in order; only a message that is to be compressed may be without one. */
  ghost predicate Answers(cs: seq<Command>, compressing: bool, fs: seq<ClientFrame>)
    decreases |cs|
  {
    if cs == [] then fs == []
    else
      var front, c := cs[..|cs| - 1], cs[|cs| - 1];
      || (fs != [] && Carries(c, compressing, fs[|fs| - 1]) && Answers(front, compressing, fs[..|fs| - 1]))
      || (MayFail(c, compressing) && Answers(front, compressing, fs))
  }

  /** So without compression there is exactly one frame for each. */
  lemma {:induction false} AnswersPlainly(cs: seq<Command>, fs: seq<ClientFrame>)
    requires Answers(cs, false, fs)
    ensures |fs| == |cs| && forall i | 0 <= i < |cs| :: Carries(cs[i], false, fs[i])
    decreases |cs|
  {
    hide Carries;
    if cs != [] {
      AnswersPlainly(cs[..|cs| - 1], fs[..|fs| - 1]);
      forall i | 0 <= i < |cs| ensures Carries(cs[i], false, fs[i]) {
        if i < |cs| - 1 {
          assert cs[..|cs| - 1][i] == cs[i] && fs[..|fs| - 1][i] == fs[i];
        }
      }
    }
  }

  /** A command on an open connection: the phase behind it, and the frame it adds. */
  lemma OpenStep(c: Command, s: Snapshot, t: Snapshot)
    requires PhaseOf(s.log) == Phase.Open && Step(s, t) && Adds(c, s, t)
    ensures PhaseOf(t.log) == (if c.Close? then Ended else Phase.Open) && t.compressing == s.compressing
    ensures || (IsSending(c) && exists f :: Carries(c, s.compressing, f) && Frames(t.log) == Frames(s.log) + [f])
            || ((!IsSending(c) || MayFail(c, s.compressing)) && Frames(t.log) == Frames(s.log))
  {
    hide Carries, Frames, PhaseOf, Opening.Request, Wire, FailsConnection, IsSending;
    KindOf(c);
    var events := Added(s.log, t.log);
    assert t.log == s.log + events;
    FramesConcat(s.log, events);
    FewFrames(events);
    assert Frames(s.log) + [] == Frames(s.log);
    if events == [] {
      assert t.log == s.log;
    } else if events[0].Shutdown? {
      ShutsDown(s.log, s.log);
    } else {
      AfterFrame(c, s, t, events);
    }
  }

  lemma KindOf(c: Command)
    ensures IsSending(c) <==> c.Send? || c.Pong? || (c.Close? && !FailsConnection(c.code))
  {
    if c.Close? {
      SendingCloses(c);
    }
  }

  lemma AfterFrame(c: Command, s: Snapshot, t: Snapshot, events: seq<Event>)
    requires PhaseOf(s.log) == Phase.Open && t.log == s.log + events && events != [] && events[0].FrameSent?
    requires Carries(c, s.compressing, events[0].frame) && events[1..] == if c.Close? then [Shutdown] else []
    ensures PhaseOf(t.log) == if c.Close? then Ended else Phase.Open
  {
    hide PhaseOf, ClientFrame.Valid, ClientFrame.Recoverable, FrameHeader.OpCode, FrameHeader.Rsv1;
    var FrameSent(f, sent) := events[0];
    assert s.log + events == s.log + [events[0]] + events[1..];
    if c.Close? {
      ClosesWith(s.log, f, sent);
      ShutsDown(s.log, s.log + [events[0]]);
    } else {
      StaysOpen(s.log, f, sent);
      assert s.log + [events[0]] + [] == s.log + [events[0]];
    }
  }

  lemma FewFrames(events: seq<Event>)
    ensures events == [] ==> Frames(events) == []
    ensures events != [] && (events[1..] == [] || events[1..] == [Shutdown]) ==> Frames(events) == FrameOf(events[0])
  {
    if events != [] {
      FramesOne(events[0]);
      FramesOne(Shutdown);
      FramesConcat([events[0]], events[1..]);
      assert events == [events[0]] + events[1..];
    }
  }

  /**
     The frames of a trace in which the handshake succeeds: at every moment they answer the sending commands so far,
     one frame each, and the phase is the one the commands lead to.
   */
  lemma {:induction false} TraceConveys(trace: seq<Snapshot>, commands: seq<Command>, origin: seq<byte>, n: nat)
    requires IsTrace(trace, commands, origin) && n <= |commands| && trace[0].log == []
    requires trace[|commands|].log != [] && IsOpening(trace[|commands|].log[0])
    ensures match StageAfter(commands[..n])
            case Before => trace[n].log == []
            case During => PhaseOf(trace[n].log) == Phase.Open
            case After => PhaseOf(trace[n].log) == Ended
    ensures StageAfter(commands[..n]) != Before ==> trace[n].compressing == trace[|commands|].compressing
    ensures Answers(Sendings(commands[..n]), trace[|commands|].compressing, Frames(trace[n].log))
  {
    hide PhaseOf, Adds, Accounts, Carries, Wire, Answers, Frames, Sendings, StageAfter;
    if n == 0 {
      NothingConveyed(commands[..0], trace[|commands|].compressing);
    } else {
      TraceConveys(trace, commands, origin, n - 1);
      var s, t, c := trace[n - 1], trace[n], commands[n - 1];
      assert Step(s, t) && Adds(c, s, t);
      assert commands[..n] == commands[..n - 1] + [c];
      OneMoreCommand(commands[..n - 1], c);
      TraceGrows(trace, commands, origin, n, |commands|);
      OnlyEmptyIsNew(t.log);
      if t.log != [] {
        Compressing(trace, commands, origin, n);
      }
      match StageAfter(commands[..n - 1]) {
        case Before => OpeningStep(c, s, t, trace[|commands|].log);
        case During => OpenStep(c, s, t);
        case After =>
      }
      AnswersMore(Sendings(commands[..n - 1]), c, trace[|commands|].compressing, Frames(s.log), Frames(t.log),
                  StageAfter(commands[..n - 1]).During? && IsSending(c));
    }
  }

  lemma OneMoreCommand(commands: seq<Command>, c: Command)
    ensures StageAfter(commands + [c]) ==
            match (StageAfter(commands), c)
            case (Before, Open(_)) => During
            case (During, Close(_)) => After
            case (stage, _) => stage
    ensures Sendings(commands + [c]) ==
            Sendings(commands) + if StageAfter(commands).During? && IsSending(c) then [c] else []
  {
    assert (commands + [c])[..|commands|] == commands;
  }

  /** Whether there is compression does not change once the handshake has been made. */
  lemma {:induction false} Compressing(trace: seq<Snapshot>, commands: seq<Command>, origin: seq<byte>, i: nat)
    requires IsTrace(trace, commands, origin) && i < |trace| && trace[i].log != []
    ensures trace[i].compressing == trace[|commands|].compressing
    decreases |commands| - i
  {
    hide PhaseOf, Adds, Wire, Accounts;
    if i < |commands| {
      assert Step(trace[i], trace[i + 1]);
      OnlyEmptyIsNew(trace[i].log);
      Compressing(trace, commands, origin, i + 1);
    }
  }

  /** Commands before the handshake add nothing, and the handshake no frame. */
  lemma OpeningStep(c: Command, s: Snapshot, t: Snapshot, log: seq<Event>)
    requires s.log == [] && Step(s, t) && Adds(c, s, t) && t.log <= log && log != [] && IsOpening(log[0])
    ensures if c.Open? then PhaseOf(t.log) == Phase.Open else t.log == []
    ensures Frames(t.log) == Frames(s.log)
  {
    hide Opening.Request, Wire, PhaseOf, Frames, Carries;
    assert t.log == s.log + Added(s.log, t.log) == Added(s.log, t.log);
    OnlyEmptyIsNew(s.log);
    if c.Open? {
      assert t.log[0] == log[0] && t.log == [log[0]] == [] + [log[0]];
      Opens(log[0]);
      FramesOne(log[0]);
    } else {
      assert t.log == s.log;
    }
  }

  lemma NothingConveyed(commands: seq<Command>, compressing: bool)
    requires commands == []
    ensures StageAfter(commands) == Before && Answers(Sendings(commands), compressing, Frames([]))
  {
  }

  lemma AnswersMore(cs: seq<Command>, c: Command, compressing: bool, fs: seq<ClientFrame>, fs': seq<ClientFrame>,
                    sends: bool)
    requires Answers(cs, compressing, fs)
    requires if sends then
               || (exists f :: Carries(c, compressing, f) && fs' == fs + [f])
               || (MayFail(c, compressing) && fs' == fs)
             else fs' == fs
    ensures Answers(cs + if sends then [c] else [], compressing, fs')
  {
    hide Carries;
    if sends {
      assert (cs + [c])[..|cs|] == cs;
    } else {
      assert cs + [] == cs;
    }
  }

  /**
     End to end: after any run in which the transport has not failed, what a server decodes behind the request of a
     successful handshake are, with nothing left over, the frames that the commands send, one for each sending command
     up to the first close, in order, except that a message to be compressed may be missing; each with its header, and
     with its payload exactly if the masking in chunks was one byte by byte. At most the last is a close frame.
   */
  lemma FramesArrive(trace: seq<Snapshot>, commands: seq<Command>, origin: seq<byte>)
    requires IsTrace(trace, commands, origin) && trace[0].log == []
    requires var t := trace[|commands|]; !t.failed && t.log != [] && IsOpening(t.log[0])
    ensures var t := trace[|commands|];
            var fs := Frames(t.log);
            && Answers(Sendings(commands), t.compressing, fs) && ValidFrames(fs)
            && origin + t.log[0].request <= t.sent
            && var (ds, rest) := DecodeAll(t.sent[|origin + t.log[0].request|..]);
               && rest == [] && |ds| == |fs|
               && (forall i | 0 <= i < |fs| ::
                     && ds[i].header == fs[i].header
                     && (ds[i].payload == fs[i].payload <==> fs[i].Recoverable()))
               && forall i | 0 <= i < |ds| - 1 :: ds[i].header.OpCode() != CLOSE
  {
    hide PhaseOf, Adds, Accounts, Carries, Wire, DecodeAll, Seen, Frames, Answers, Sendings, StageAfter;
    hide ClientFrame.Valid, ClientFrame.Recoverable, FrameHeader.OpCode;
    TraceConveys(trace, commands, origin, |commands|);
    assert commands[..|commands|] == commands;
    var t := trace[|commands|];
    assert PhaseOf(t.log) != Impossible && Accounts(t.log, origin, t.sent, t.failed);
    ServerSees(t.log, origin, t.sent);
    var fs := Frames(t.log);
    SeenLikewise(fs);
  }

  lemma SeenLikewise(fs: seq<ClientFrame>)
    requires ValidFrames(fs)
    ensures |Seen(fs)| == |fs|
    ensures forall i | 0 <= i < |fs| ::
              && Seen(fs)[i].header == fs[i].header
              && (Seen(fs)[i].payload == fs[i].payload <==> fs[i].Recoverable())
  {
    hide Seen, ClientFrame.Valid, ClientFrame.Recoverable;
    if fs == [] {
      NothingSeen();
    } else {
      forall i | 0 <= i < |fs|
        ensures |Seen(fs)| == |fs| && Seen(fs)[i].header == fs[i].header
        ensures Seen(fs)[i].payload == fs[i].payload <==> fs[i].Recoverable()
      {
        SeenAt(fs, i);
      }
      SeenAt(fs, 0);
    }
  }

  lemma NothingSeen()
    ensures Seen([]) == []
  {
  }

  /**
     What an uncompressed command is to the server: the first byte of a frame, and a payload, which for a close frame is
     the status code, most significant byte first.
   */
  predicate Delivers(c: Command, d: Decoded) {
    match c
    case Send(op, data, _, _) => (op == 1 || op == 2) && d.header.b0 == 0x80 + op && d.payload == data
    case Pong(data, _) => d.header.b0 == 0x8A && d.payload == data
    case Close(code) =>
      && d.header.b0 == 0x88 && |d.payload| == 2
      && d.payload[0] as int == code as int / 0x100 && d.payload[1] as int == code as int % 0x100
    case _ => false
  }

  /** The payload is masked byte by byte because of where it lies in memory. */
  predicate IsAligned(c: Command) {
    match c
    case Send(_, _, addr, _) => addr % 4 == 0
    case Pong(_, addr) => addr % 4 == 0
    case _ => true
  }

  lemma {:induction false} SendingsSend(commands: seq<Command>)
    ensures forall i | 0 <= i < |Sendings(commands)| :: IsSending(Sendings(commands)[i])
    decreases |commands|
  {
    hide IsSending, StageAfter;
    if commands != [] {
      SendingsSend(commands[..|commands| - 1]);
    }
  }

  /**
     Without compression, and with payloads at addresses that are multiples of 4, the server gets exactly what the
     commands say: their opcodes and payloads, one after the other, up to the first close.
   */
  lemma ContentsArrive(trace: seq<Snapshot>, commands: seq<Command>, origin: seq<byte>)
    requires IsTrace(trace, commands, origin) && trace[0].log == []
    requires var t := trace[|commands|];
             !t.failed && !t.compressing && t.log != [] && IsOpening(t.log[0])
    requires forall c | c in Sendings(commands) :: IsAligned(c)
    ensures var t := trace[|commands|];
            var cs := Sendings(commands);
            && (forall i | 0 <= i < |cs| :: IsSending(cs[i]))
            && origin + t.log[0].request <= t.sent
            && var (ds, rest) := DecodeAll(t.sent[|origin + t.log[0].request|..]);
               && rest == [] && |ds| == |cs|
               && forall i | 0 <= i < |cs| :: Delivers(cs[i], ds[i])
  {
    hide PhaseOf, Adds, Accounts, Carries, Wire, DecodeAll, Seen, Frames, Answers, Sendings, StageAfter;
    hide ClientFrame.Valid, ClientFrame.Recoverable, FrameHeader.OpCode, IsSending, IsAligned, Delivers;
    FramesArrive(trace, commands, origin);
    SendingsSend(commands);
    var t, cs := trace[|commands|], Sendings(commands);
    var fs := Frames(t.log);
    AnswersPlainly(cs, fs);
    var ds := DecodeAll(t.sent[|origin + t.log[0].request|..]).0;
    forall i | 0 <= i < |cs| ensures Delivers(cs[i], ds[i]) {
      assert cs[i] in cs;
      AlignedArrives(cs[i], fs[i], ds[i]);
    }
  }

  lemma AlignedArrives(c: Command, f: ClientFrame, d: Decoded)
    requires IsSending(c) && IsAligned(c) && Carries(c, false, f)
    requires d.header == f.header && (d.payload == f.payload <==> f.Recoverable())
    ensures Delivers(c, d)
  {
    hide FrameHeader.OpCode, FrameHeader.Rsv1, MaskKey.Masked, MaskKey.Bytewise, ClosePayload;
    hide FrameHeader.IsFinal, FrameHeader.IsMasked, FrameHeader.BasicSize, FrameHeader.Rsv2, FrameHeader.Rsv3;
    FirstByte(f.header, f.header.OpCode(), false);
    if c.Close? {
      NoCodeIsZero(c);
      PayloadInNumbers(c.code);
    } else {
      MaskKey.AlignedIsBytewise(f.addr, f.align, f.key, f.payload);
    }
  }

  lemma NoCodeIsZero(c: Command)
    requires c.Close? && IsSending(c)
    ensures c.code != 0
  {
  }
}
