/**
 The life of a connection as a log of events, each with the bytes it put on the wire, and which logs are possible.
 The client keeps such a log; that it is possible, and that it accounts for every byte sent, is part of its
 invariant.
 */
module Lifecycle {
  import opened Networking
  import opened Frame
  import opened Seqs
  import opened Sending

  datatype Event =
    | Handshake(success: bool, request: seq<byte>, sent: seq<byte>)  // the one handshake, and how it ended
    | FrameSent(frame: ClientFrame, sent: seq<byte>)                 // a frame was written, all or a part of it
    | Shutdown                                                       // the transport was shut down and closed

  /** The bytes an event put on the wire. */
  function Sent(e: Event): seq<byte> {
    if e.Shutdown? then [] else e.sent
  }

  function Wire(log: seq<Event>): seq<byte> {
    if log == [] then [] else Sent(log[0]) + Wire(log[1..])
  }

  /** No more was sent than the request or the frame, and a handshake only succeeds with all of the request. */
  predicate Consistent(e: Event) {
    match e
    case Handshake(success, request, sent) => sent <= request && (success ==> sent == request)
    case FrameSent(frame, sent) => frame.Valid() && sent <= frame.Bytes()
    case Shutdown => true
  }

  /** All of the request or the frame was sent. */
  predicate InFull(e: Event)
    requires Consistent(e)
  {
    match e
    case Handshake(_, request, sent) => sent == request
    case FrameSent(frame, sent) => sent == frame.Bytes()
    case Shutdown => true
  }

  /**
     A log that accounts for the bytes `out` sent since `origin`: they are exactly those of the events; and unless the
     transport has failed, everything was sent in full.
   */
  ghost predicate Accounts(log: seq<Event>, origin: seq<byte>, out: seq<byte>, failed: bool) {
    && out == origin + Wire(log)
    && forall i | 0 <= i < |log| :: Consistent(log[i]) && (!failed ==> InFull(log[i]))
  }

  lemma {:induction false} WireConcat(x: seq<Event>, y: seq<Event>)
    ensures Wire(x + y) == Wire(x) + Wire(y)
  {
    if x == [] {
      assert x + y == y;
    } else {
      assert (x + y)[1..] == x[1..] + y;
      WireConcat(x[1..], y);
    }
  }

  /** One more event, with the bytes it sent. */
  lemma AccountsMore(log: seq<Event>, e: Event, origin: seq<byte>, out: seq<byte>, out': seq<byte>,
                     failed: bool, failed': bool)
    requires Accounts(log, origin, out, failed) && Consistent(e) && out' == out + Sent(e)
    requires (failed ==> failed') && (!failed' ==> InFull(e))
    ensures Accounts(log + [e], origin, out', failed')
  {
    hide Consistent, InFull;
    WireConcat(log, [e]);
    WireOne(e);
    Assoc(origin, Wire(log), Sent(e));
  }

  /** A frame has been sent, all of it if that went well and else a front part, and this has been logged. */
  ghost predicate Emitted(log: seq<Event>, log': seq<Event>, f: ClientFrame,
                          before: seq<byte>, after: seq<byte>, ok: bool)
  {
    && f.Valid() && log' == log + [FrameSent(f, Added(before, after))]
    && Wrote(before, after, f.Bytes(), ok)
  }

  lemma EmittedIsAccounted(log: seq<Event>, log': seq<Event>, f: ClientFrame, origin: seq<byte>,
                           before: seq<byte>, after: seq<byte>, ok: bool, failed: bool, failed': bool)
    requires Accounts(log, origin, before, failed) && Emitted(log, log', f, before, after, ok)
    requires (failed ==> failed') && (ok || failed')
    ensures Accounts(log', origin, after, failed')
  {
    hide Accounts, Wrote, ClientFrame.Valid, ClientFrame.Bytes;
    WrotePart(before, after, f.Bytes(), ok);
    AccountsMore(log, FrameSent(f, Added(before, after)), origin, before, after, failed, failed');
  }

  // ---- possible logs -----------------------------------------------------------------------------------------

  datatype Phase = New | Refused | Open | Closing | Ended | Impossible

  function Advance(phase: Phase, event: Event): Phase {
    match (phase, event)
    case (New, Handshake(ok, _, _)) => if ok then Open else Refused
    case (Open, FrameSent(f, _)) => if f.header.OpCode() == CLOSE then Closing else Open
    case (Open, Shutdown) => Ended
    case (Closing, Shutdown) => Ended
    case _ => Impossible
  }

  function PhaseOf(log: seq<Event>): Phase {
    if log == [] then New else Advance(PhaseOf(log[..|log| - 1]), log[|log| - 1])
  }

  lemma PhaseSnoc(log: seq<Event>, e: Event)
    ensures PhaseOf(log + [e]) == Advance(PhaseOf(log), e)
  {
    assert (log + [e])[..|log|] == log;
  }

  predicate IsOpening(e: Event) {
    e.Handshake? && e.success
  }

  predicate IsClose(e: Event) {
    e.FrameSent? && e.frame.header.OpCode() == CLOSE
  }

  /** Only frames, none of them a close frame, from the second event on. */
  predicate OnlyOpenFrames(log: seq<Event>) {
    && log != [] && IsOpening(log[0])
    && forall i | 0 < i < |log| :: log[i].FrameSent? && !IsClose(log[i])
  }

  /** What a phase says about the events so far. */
  predicate Past(phase: Phase, log: seq<Event>)
    decreases log
  {
    match phase
    case New => log == []
    case Refused => |log| == 1 && log[0].Handshake? && !log[0].success
    case Open => OnlyOpenFrames(log)
    case Closing => log != [] && IsClose(log[|log| - 1]) && OnlyOpenFrames(log[..|log| - 1])
    case Ended =>
      && log != [] && log[|log| - 1] == Shutdown
      && (OnlyOpenFrames(log[..|log| - 1]) || Past(Closing, log[..|log| - 1]))
    case Impossible => true
  }

  lemma {:induction false} PhaseMeans(log: seq<Event>)
    ensures Past(PhaseOf(log), log)
  {
    hide FrameHeader.OpCode;
    if log != [] {
      PhaseMeans(log[..|log| - 1]);
    }
  }

  /**
   In every possible log, a frame comes only after a successful handshake and before the shutdown, at most one
   close frame is sent, after it comes nothing but the shutdown, and after the shutdown nothing at all.
   */
  lemma FramesOnlyWhileOpen(log: seq<Event>, i: nat, j: nat)
    requires PhaseOf(log) != Impossible && i < |log|
    ensures log[i].FrameSent? ==> i > 0 && IsOpening(log[0])
    ensures log[i].Handshake? ==> i == 0
    ensures log[i].Shutdown? ==> i == |log| - 1
    ensures IsClose(log[i]) && i < j < |log| ==> log[j] == Shutdown && j == |log| - 1
  {
    hide FrameHeader.OpCode;
    PhaseMeans(log);
    assert forall k | 0 <= k < |log| - 1 :: log[k] == log[..|log| - 1][k];
    assert forall k | 0 <= k < |log| - 2 :: log[k] == log[..|log| - 1][..|log| - 2][k];
  }

  // ---- on the wire -------------------------------------------------------------------------------------------

  /** The bytes before, of, and after one event. */
  lemma WireAround(log: seq<Event>, i: nat)
    requires i < |log|
    ensures Wire(log) == Wire(log[..i]) + Sent(log[i]) + Wire(log[i + 1..])
  {
    hide Wire, Sent;
    CutAround(log, i);
    WireConcat(log[..i] + [log[i]], log[i + 1..]);
    WireConcat(log[..i], [log[i]]);
    WireOne(log[i]);
  }

  lemma WireOne(e: Event)
    ensures Wire([e]) == Sent(e)
  {
  }

  lemma RequestFirst(log: seq<Event>, i: nat)
    requires 0 < i <= |log| && IsOpening(log[0])
    ensures log[0].sent <= Wire(log[..i])
  {
    assert log[..i][0] == log[0];
  }

  /**
     Under arbitrary failures: a byte of a frame is on the wire only behind the whole request of a successful
     handshake, as part of a front piece of a client frame; and once a close frame has been begun, the wire carries
     nothing else any more, and no second one was begun.
   */
  lemma WireOnlyWhileOpen(log: seq<Event>, origin: seq<byte>, out: seq<byte>, failed: bool, i: nat)
    requires Accounts(log, origin, out, failed) && PhaseOf(log) != Impossible && i < |log|
    ensures out == origin + (Wire(log[..i]) + Sent(log[i]) + Wire(log[i + 1..]))
    ensures log[i].FrameSent? ==>
              && i > 0 && IsOpening(log[0]) && log[0].sent == log[0].request <= Wire(log[..i])
              && log[i].frame.Valid() && log[i].sent <= log[i].frame.Bytes()
    ensures IsClose(log[i]) ==>
              Wire(log[i + 1..]) == [] && forall k | 0 <= k < |log| && k != i :: !IsClose(log[k])
  {
    hide PhaseOf, Wire, IsClose, ClientFrame.Valid, ClientFrame.Bytes;
    WireAround(log, i);
    FramesOnlyWhileOpen(log, i, i);
    if log[i].FrameSent? {
      assert Consistent(log[0]) && Consistent(log[i]);
      RequestFirst(log, i);
    }
    if IsClose(log[i]) {
      NothingBehindClose(log, i);
    }
  }

  lemma NothingBehindClose(log: seq<Event>, i: nat)
    requires PhaseOf(log) != Impossible && i < |log| && IsClose(log[i])
    ensures Wire(log[i + 1..]) == []
    ensures forall k | 0 <= k < |log| && k != i :: !IsClose(log[k])
  {
    hide PhaseOf, IsClose;
    forall k | 0 <= k < |log| && k != i ensures !IsClose(log[k]) {
      if k < i {
        FramesOnlyWhileOpen(log, k, i);
      } else {
        FramesOnlyWhileOpen(log, i, k);
      }
      CloseIsFrame(log[i]);
      CloseIsFrame(log[k]);
    }
    if i + 1 < |log| {
      FramesOnlyWhileOpen(log, i, i + 1);
      assert log[i + 1..] == [Shutdown];
    } else {
      assert log[i + 1..] == [];
    }
  }

  lemma CloseIsFrame(e: Event)
    ensures IsClose(e) ==> e != Shutdown
  {
  }

  /** The frames of a log, in order. */
  function Frames(log: seq<Event>): (fs: seq<ClientFrame>) {
    if log == [] then [] else FrameOf(log[0]) + Frames(log[1..])
  }

  ghost predicate ValidFrames(fs: seq<ClientFrame>) {
    forall i | 0 <= i < |fs| :: fs[i].Valid()
  }

  /** What a server makes of frames. */
  ghost function Seen(fs: seq<ClientFrame>): seq<Decoded>
    requires ValidFrames(fs)
  {
    if fs == [] then [] else [fs[0].Seen()] + Seen(fs[1..])
  }

  lemma DecodeFirst(f: ClientFrame, rest: seq<byte>)
    requires f.Valid()
    ensures DecodeAll(f.Bytes() + rest) == ([f.Seen()] + DecodeAll(rest).0, DecodeAll(rest).1)
  {
    hide DecodeMaskedFrame, ClientFrame.Valid, ClientFrame.Bytes, ClientFrame.Seen;
    FrameIsSeen(f, rest);
    SeenLength(f);
    assert (f.Bytes() + rest)[|f.Bytes()|..] == rest;
  }

  /** Frames sent in full decode, frame by frame, to what a server sees of each, and nothing is left over. */
  lemma {:induction false} FramesAreSeen(log: seq<Event>)
    requires forall i | 0 <= i < |log| :: !log[i].Handshake? && Consistent(log[i]) && InFull(log[i])
    ensures ValidFrames(Frames(log)) && DecodeAll(Wire(log)) == (Seen(Frames(log)), [])
  {
    hide DecodeAll, ClientFrame.Valid, ClientFrame.Bytes, ClientFrame.Seen;
    if log == [] {
      NothingToDecode();
    } else {
      FramesAreSeen(log[1..]);
      if log[0].FrameSent? {
        DecodeFirst(log[0].frame, Wire(log[1..]));
        assert Frames(log)[1..] == Frames(log[1..]);
      } else {
        assert [] + Wire(log[1..]) == Wire(log[1..]) && [] + Frames(log[1..]) == Frames(log[1..]);
      }
    }
  }

  lemma NothingToDecode()
    ensures DecodeAll([]) == ([], [])
  {
  }

  lemma SeenLength(f: ClientFrame)
    requires f.Valid()
    ensures f.Seen().used == |f.Bytes()|
  {
  }

  /** The frame of an event, if it is one. */
  function FrameOf(e: Event): (fs: seq<ClientFrame>)
    ensures |fs| <= 1
  {
    if e.FrameSent? then [e.frame] else []
  }

  lemma {:induction false} FramesConcat(x: seq<Event>, y: seq<Event>)
    ensures Frames(x + y) == Frames(x) + Frames(y)
  {
    hide FrameOf;
    if x == [] {
      assert x + y == y;
    } else {
      assert (x + y)[1..] == x[1..] + y && (x + y)[0] == x[0];
      FramesConcat(x[1..], y);
      Assoc(FrameOf(x[0]), Frames(x[1..]), Frames(y));
    }
  }

  /** In a possible log at most the last frame is a close frame. */
  lemma {:induction false} CloseIsLast(log: seq<Event>)
    requires PhaseOf(log) != Impossible
    ensures forall i | 0 <= i < |Frames(log)| - 1 :: Frames(log)[i].header.OpCode() != CLOSE
    ensures PhaseOf(log) == Open ==> forall i | 0 <= i < |Frames(log)| :: Frames(log)[i].header.OpCode() != CLOSE
    ensures PhaseOf(log) == New || PhaseOf(log) == Refused ==> Frames(log) == []
  {
    hide FrameHeader.OpCode, Frames;
    if log == [] {
      FramesOne(Shutdown);
    } else {
      var front, e := log[..|log| - 1], log[|log| - 1];
      CloseIsLast(front);
      assert log == front + [e];
      FramesConcat(front, [e]);
      FramesOne(e);
    }
  }

  lemma FramesOne(e: Event)
    ensures Frames([e]) == FrameOf(e) && Frames([]) == []
  {
    assert [e][1..] == [];
  }

  /**
     Without failures: what a server decodes behind the request of a successful handshake are exactly the frames of
     the log, in order, with their payloads unless chunked masking garbled them; at most the last is a close frame.
   */
  lemma ServerSees(log: seq<Event>, origin: seq<byte>, out: seq<byte>)
    requires Accounts(log, origin, out, false) && PhaseOf(log) != Impossible && log != [] && IsOpening(log[0])
    ensures ValidFrames(Frames(log))
    ensures origin + log[0].request <= out
    ensures DecodeAll(out[|origin + log[0].request|..]) == (Seen(Frames(log)), [])
    ensures forall i | 0 <= i < |Frames(log)| - 1 :: Frames(log)[i].header.OpCode() != CLOSE
  {
    hide PhaseOf, DecodeAll, IsClose, Wire, ClientFrame.Valid, ClientFrame.Bytes, Seen, Frames;
    CloseIsLast(log);
    BehindRequest(log, origin, out);
    FramesAreSeen(log[1..]);
  }

  /** The events behind the handshake, and their bytes. */
  lemma BehindRequest(log: seq<Event>, origin: seq<byte>, out: seq<byte>)
    requires Accounts(log, origin, out, false) && PhaseOf(log) != Impossible && log != [] && IsOpening(log[0])
    ensures forall i | 0 <= i < |log| - 1 ::
              !log[1..][i].Handshake? && Consistent(log[1..][i]) && InFull(log[1..][i])
    ensures origin + log[0].request <= out && out[|origin + log[0].request|..] == Wire(log[1..])
    ensures Frames(log) == Frames(log[1..])
  {
    hide PhaseOf, IsClose, ClientFrame.Valid, ClientFrame.Bytes;
    forall i | 0 <= i < |log| - 1 ensures !log[1..][i].Handshake? && Consistent(log[1..][i]) && InFull(log[1..][i]) {
      assert Consistent(log[i + 1]) && InFull(log[i + 1]);
      FramesOnlyWhileOpen(log, i + 1, 0);
    }
    assert Consistent(log[0]);
    Assoc(origin, log[0].request, Wire(log[1..]));
    assert [] + Frames(log[1..]) == Frames(log[1..]);
  }

  /** Frame by frame: the header as sent, and the payload exactly if masking in chunks was masking byte by byte. */
  lemma {:induction false} SeenAt(fs: seq<ClientFrame>, i: nat)
    requires ValidFrames(fs) && i < |fs|
    ensures |Seen(fs)| == |fs|
    ensures Seen(fs)[i].header == fs[i].header && (Seen(fs)[i].payload == fs[i].payload <==> fs[i].Recoverable())
    decreases |fs|
  {
    hide ClientFrame.Valid, ClientFrame.Bytes, ClientFrame.Recoverable, ClientFrame.Seen;
    FrameIsSeen(fs[0], []);
    SeenHeader(fs[0]);
    if |fs| > 1 {
      SeenAt(fs[1..], if i > 0 then i - 1 else 0);
    }
  }

  lemma SeenHeader(f: ClientFrame)
    requires f.Valid()
    ensures f.Seen().header == f.header
  {
  }
}
