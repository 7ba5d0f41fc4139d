/**
 The receiver understands exactly the grammar of `Rfc6455`. One direction: every acceptable sequence of
 transmissions is received as what it means. The other: whatever the stream, every message received comes from a
 transmission of the grammar, in place and complete.
 */
module Conformance {
  import opened Errors
  import opened Seqs
  import opened Networking
  import opened Frame
  import opened Receiver
  import opened Rfc6455
  import Utf8

  // ---- frames ------------------------------------------------------------------------------------------------

  /** Decoding inverts encoding, whatever length form was chosen, and consumes exactly the header. */
  lemma DecodeFrameBytes(fin: bool, rsv: bv8, op: Opcode, body: Body, rest: seq<byte>)
    requires rsv <= 7 && op <= 0xF && body.Valid() && (fin || op != CLOSE)
    ensures var s := FrameBytes(fin, rsv, op, body) + rest;
            && DecodeHeader(s) ==
               Header(FrameHeader(HeaderByte(fin, rsv, op), body.len.code), |body.bytes|, 2 + |body.len.ext|)
            && s[2 + |body.len.ext|..] == body.bytes + rest
  {
    hide BigEndian, HeaderByte;
    var s := FrameBytes(fin, rsv, op, body) + rest;
    var h := FrameHeader(s[0], s[1]);
    HeaderByteFields(fin, rsv, op, s[1]);
    assert h == FrameHeader(HeaderByte(fin, rsv, op), body.len.code);
    assert s[2..2 + |body.len.ext|] == body.len.ext;
    assert s[2 + |body.len.ext|..] == body.bytes + rest;
  }

  lemma TakeFront(bytes: seq<byte>, rest: seq<byte>)
    ensures (bytes + rest)[..|bytes|] == bytes
  {
  }

  /** The client's check of a close frame accepts exactly the bodies section 5.5.1 of RFC 6455 allows. */
  lemma CloseIsChecked(payload: seq<byte>)
    ensures |payload| != 1 && !CheckClose(payload).Failure? <==> payload == [] || IsReason(payload)
    ensures |payload| != 1 && !CheckClose(payload).Failure? ==> CheckClose(payload) == CloseFrame(payload)
  {
    hide Utf8.ValidUtf8, Join16;
    if |payload| >= 2 {
      CodesAgree(CloseCodeOf(payload));
    }
  }

  lemma CodesAgree(code: CloseCode)
    ensures IsValidCloseCode(code) <==> MaySend(code)
  {
  }

  /** A valid control frame is returned as it is, at any point of a message. */
  lemma StepControlFrame(cfg: Config, p: Progress, c: ControlFrame, rest: seq<byte>)
    requires c.Valid()
    ensures StepFrame(cfg, p, c.Bytes() + rest) == Returned(c.Meaning(), |c.Bytes()|)
  {
    hide HeaderByte, DecodeHeader, CheckClose, IsReason;
    CloseIsChecked(c.body.bytes);
    DecodeFrameBytes(true, 0, c.op, c.body, rest);
    HeaderByteFields(true, 0, c.op, c.body.len.code);
    TakeFront(c.body.bytes, rest);
  }

  /** What a data frame does, header and payload together. */
  function DataResult(cfg: Config, p: Progress, fin: bool, h: FrameHeader, bytes: seq<byte>, used: nat): FrameResult {
    match AcceptHeader(cfg, p, h, |bytes|)
    case Err(e) => Returned(Failure(e), used)
    case Ok(q) =>
      match TakePayload(cfg, q, |bytes|, bytes)
      case ShortPayload => ShortFrame
      case BadPayload(e) => Returned(Failure(e), used)
      case Taken(q') => if fin then Complete(q', used + |bytes|) else More(q', used + |bytes|)
  }

  lemma StepDataFrame(cfg: Config, p: Progress, fin: bool, rsv: bv8, op: Opcode, body: Body, rest: seq<byte>)
    requires rsv <= 7 && op <= 0x2 && body.Valid()
    ensures StepFrame(cfg, p, FrameBytes(fin, rsv, op, body) + rest) ==
            DataResult(cfg, p, fin, FrameHeader(HeaderByte(fin, rsv, op), body.len.code), body.bytes,
                       2 + |body.len.ext|)
  {
    hide HeaderByte, DecodeHeader, AcceptHeader, TakePayload, FrameBytes, LengthField.Denotes;
    hide FrameHeader.OpCode, FrameHeader.IsFinal;
    DecodeFrameBytes(fin, rsv, op, body, rest);
    HeaderByteFields(fin, rsv, op, body.len.code);
    var h := FrameHeader(HeaderByte(fin, rsv, op), body.len.code);
    match AcceptHeader(cfg, p, h, |body.bytes|) {
      case Err(e) =>
      case Ok(q) => TakeExactly(cfg, q, body.bytes, rest);
    }
  }

  /** What comes behind a payload makes no difference to it. */
  lemma TakeExactly(cfg: Config, p: Progress, bytes: seq<byte>, rest: seq<byte>)
    ensures TakePayload(cfg, p, |bytes|, bytes + rest) == TakePayload(cfg, p, |bytes|, bytes)
  {
    TakeFront(bytes, rest);
    assert bytes[..|bytes|] == bytes;
  }

  /** The results of a run, one frame at a time. */
  lemma {:induction false} ReadAllFrame(cfg: Config, p: Progress, s: seq<byte>)
    ensures match StepFrame(cfg, p, s)
            case ShortFrame => ReadAll(cfg, p, s) == []
            case Returned(r, used) =>
              ReadAll(cfg, p, s) == if r.Failure? then [r] else [r] + ReadAll(cfg, p, s[used..])
            case More(q, used) => ReadAll(cfg, p, s) == ReadAll(cfg, q, s[used..])
            case Complete(q, used) =>
              var (r, q') := Deliver(cfg, q);
              ReadAll(cfg, p, s) == if r.Failure? then [r] else [r] + ReadAll(cfg, q', s[used..])
  {
    hide StepFrame, Deliver;
    ReadMessageStep(cfg, p, s);
  }

  // ---- everything acceptable is received ---------------------------------------------------------------------

  lemma {:induction false} ControlsAreRead(cfg: Config, p: Progress, cs: seq<ControlFrame>, rest: seq<byte>)
    requires ValidControls(cs)
    ensures ReadAll(cfg, p, ControlBytes(cs) + rest) == ControlMeanings(cs) + ReadAll(cfg, p, rest)
  {
    hide ReadAll, StepFrame, Rfc6455.ControlFrame.Bytes;
    if cs == [] {
      assert ControlBytes(cs) + rest == rest;
    } else {
      var c, more := cs[0], ControlBytes(cs[1..]) + rest;
      Assoc(c.Bytes(), ControlBytes(cs[1..]), rest);
      assert (c.Bytes() + more)[|c.Bytes()|..] == more;
      StepControlFrame(cfg, p, c, more);
      ReadAllFrame(cfg, p, c.Bytes() + more);
      ControlsAreRead(cfg, p, cs[1..], rest);
      assert !c.Meaning().Failure?;
      Assoc([c.Meaning()], ControlMeanings(cs[1..]), ReadAll(cfg, p, rest));
    }
  }

  /** `p` is in the middle of a message that began with opcode `op` and whose fragments so far make up `payload`. */
  predicate InMessage(p: Progress, op: Opcode, compressed: bool, payload: seq<byte>) {
    && p.state == MessageReadState(compressed, false, op)
    && if compressed then p.data == [] && p.zdata == payload else p.data == payload
  }

  /** No message is in progress. */
  predicate BetweenMessages(p: Progress) {
    p.state == INITIAL_STATE
  }

  /** What remains to be received of a message that fits. */
  predicate Room(cfg: Config, compressed: bool, sofar: nat, more: seq<Fragment>) {
    if compressed then
      && cfg.zMax.Some? && sofar + |Joined(more)| <= cfg.zMax.value
      && forall i | 0 <= i < |more| :: |more[i].body.bytes| <= cfg.maxSize
    else sofar + |Joined(more)| <= cfg.maxSize
  }

  /** A continuation frame extends the message in progress. */
  lemma ContinuationExtends(cfg: Config, p: Progress, op: Opcode, z: bool, payload: seq<byte>, fin: bool, body: Body,
                            used: nat) returns (q: Progress)
    requires InMessage(p, op, z, payload) && (op == TEXT || op == BINARY)
    requires if z then cfg.zMax.Some? && |payload| + |body.bytes| <= cfg.zMax.value && |body.bytes| <= cfg.maxSize
             else |payload| + |body.bytes| <= cfg.maxSize
    ensures InMessage(q, op, z, payload + body.bytes) && q.inflated == p.inflated
    ensures DataResult(cfg, p, fin, FrameHeader(HeaderByte(fin, 0, CONTINUATION), body.len.code), body.bytes, used) ==
            if fin then Complete(q, used + |body.bytes|) else More(q, used + |body.bytes|)
  {
    hide HeaderByte;
    HeaderByteFields(fin, 0, CONTINUATION, body.len.code);
    assert body.bytes[..|body.bytes|] == body.bytes;
    assert body.bytes == [] ==> payload + body.bytes == payload;
    q := if z then p.(zdata := payload + body.bytes) else p.(data := payload + body.bytes);
  }

  /**
   The first frame of a message starts it, wherever the previous one left the buffers; so far, even one that is a
   continuation.
   */
  lemma FirstFrameStarts(cfg: Config, p: Progress, op: Opcode, z: bool, fin: bool, body: Body, used: nat)
    returns (q: Progress)
    requires BetweenMessages(p) && (op == TEXT || op == BINARY || op == CONTINUATION)
    requires |body.bytes| <= cfg.maxSize && (z ==> cfg.zMax.Some? && |body.bytes| <= cfg.zMax.value)
    ensures InMessage(q, op, z, body.bytes) && q.inflated == p.inflated
    ensures DataResult(cfg, p, fin, FrameHeader(HeaderByte(fin, Rsv(z), op), body.len.code), body.bytes, used) ==
            if fin then Complete(q, used + |body.bytes|) else More(q, used + |body.bytes|)
  {
    hide HeaderByte;
    HeaderByteFields(fin, Rsv(z), op, body.len.code);
    assert body.bytes[..|body.bytes|] == body.bytes;
    assert [] + body.bytes == body.bytes;
    q := Progress(MessageReadState(z, false, op), if z then [] else body.bytes,
                  if z then body.bytes else p.zdata, p.inflated);
  }

  /** What a completed message contributes, and what follows it. */
  ghost function AfterMessage(cfg: Config, q: Progress, rest: seq<byte>): seq<Received> {
    var (r, q') := Deliver(cfg, q);
    if r.Failure? then [r] else [r] + ReadAll(cfg, q', rest)
  }

  lemma AfterMessageIs(cfg: Config, q: Progress, rest: seq<byte>)
    ensures AfterMessage(cfg, q, rest) ==
            var (r, q') := Deliver(cfg, q);
            if r.Failure? then [r] else [r] + ReadAll(cfg, q', rest)
  {
  }

  /** One more fragment: the control frames before it are returned, and it extends or completes the message. */
  lemma FragmentIsRead(cfg: Config, p: Progress, op: Opcode, z: bool, payload: seq<byte>,
                       f: Fragment, fin: bool, tail: seq<byte>) returns (q: Progress)
    requires f.body.Valid() && ValidControls(f.before)
    requires InMessage(p, op, z, payload) && (op == TEXT || op == BINARY)
    requires if z then cfg.zMax.Some? && |payload| + |f.body.bytes| <= cfg.zMax.value && |f.body.bytes| <= cfg.maxSize
             else |payload| + |f.body.bytes| <= cfg.maxSize
    ensures InMessage(q, op, z, payload + f.body.bytes) && q.inflated == p.inflated
    ensures ReadAll(cfg, p, ControlBytes(f.before) + (FrameBytes(fin, 0, CONTINUATION, f.body) + tail)) ==
            ControlMeanings(f.before) + if fin then AfterMessage(cfg, q, tail) else ReadAll(cfg, q, tail)
  {
    hide ReadAll, StepFrame, DataResult, FrameBytes, AfterMessage, HeaderByte, Deliver, InMessage;
    hide ControlBytes, ControlMeanings;
    var front := FrameBytes(fin, 0, CONTINUATION, f.body);
    ControlsAreRead(cfg, p, f.before, front + tail);
    StepDataFrame(cfg, p, fin, 0, CONTINUATION, f.body, tail);
    q := ContinuationExtends(cfg, p, op, z, payload, fin, f.body, 2 + |f.body.len.ext|);
    ReadAllFrame(cfg, p, front + tail);
    assert (front + tail)[|front|..] == tail;
    AfterMessageIs(cfg, q, tail);
  }

  /** The fragments still to come are read up to the last one, and control frames among them returned meanwhile. */
  lemma {:induction false} FragmentsAreRead(cfg: Config, p: Progress, op: Opcode, z: bool, payload: seq<byte>,
                                            fs: seq<Fragment>, rest: seq<byte>) returns (q: Progress)
    requires fs != [] && ValidFragments(fs)
    requires InMessage(p, op, z, payload) && (op == TEXT || op == BINARY)
    requires Room(cfg, z, |payload|, fs)
    ensures InMessage(q, op, z, payload + Joined(fs)) && q.inflated == p.inflated
    ensures ReadAll(cfg, p, FragmentBytes(fs) + rest) == Interleaved(fs) + AfterMessage(cfg, q, rest)
    decreases |fs|
  {
    hide ReadAll, StepFrame, FrameBytes, AfterMessage, HeaderByte, InMessage, ControlBytes, ControlMeanings;
    var f, fin := fs[0], |fs| == 1;
    var front := FrameBytes(fin, 0, CONTINUATION, f.body);
    var tail := FragmentBytes(fs[1..]) + rest;
    RegroupFragment(ControlBytes(f.before), front, FragmentBytes(fs[1..]), rest);
    Assoc(payload, f.body.bytes, Joined(fs[1..]));
    var q1 := FragmentIsRead(cfg, p, op, z, payload, f, fin, tail);
    if fin {
      q := q1;
      assert tail == rest;
      assert Joined(fs) == f.body.bytes + [] == f.body.bytes;
      assert Interleaved(fs) == ControlMeanings(f.before) + [] == ControlMeanings(f.before);
    } else {
      q := FragmentsAreRead(cfg, q1, op, z, payload + f.body.bytes, fs[1..], rest);
      Assoc(ControlMeanings(f.before), Interleaved(fs[1..]), AfterMessage(cfg, q, rest));
    }
  }

  lemma RegroupFragment(a: seq<byte>, b: seq<byte>, c: seq<byte>, d: seq<byte>)
    ensures ((a + b) + c) + d == a + (b + (c + d))
  {
  }

  /** A complete message that fits is delivered with its content, and the client is ready for the next one. */
  lemma ContentIsDelivered(cfg: Config, q: Progress, t: Transmission) returns (q': Progress)
    requires t.Data? && (t.op == TEXT || t.op == BINARY) && Fits(cfg, q.inflated, t)
    requires InMessage(q, t.op, t.compressed, t.first.bytes + Joined(t.more))
    ensures Content(cfg, t.compressed, t.first.bytes + Joined(t.more), q.inflated).Ok?
    ensures Deliver(cfg, q) ==
            (Message(t.op, Content(cfg, t.compressed, t.first.bytes + Joined(t.more), q.inflated).value), q')
    ensures BetweenMessages(q') && q'.inflated == HistoryAfter(q.inflated, t)
  {
    hide Joined, TextAccepted, TextError;
    q' := Deliver(cfg, q).1;
    var out := Content(cfg, t.compressed, t.first.bytes + Joined(t.more), q.inflated).value;
    assert [] + out == out;
  }

  /** One transmission, received as what it means. */
  lemma TransmissionIsRead(cfg: Config, p: Progress, t: Transmission, rest: seq<byte>) returns (q: Progress)
    requires ValidTransmission(t) && BetweenMessages(p) && (t.Data? ==> Fits(cfg, p.inflated, t))
    ensures BetweenMessages(q) && q.inflated == HistoryAfter(p.inflated, t)
    ensures t.Data? ==> Content(cfg, t.compressed, t.first.bytes + Joined(t.more), p.inflated).Ok?
    ensures ReadAll(cfg, p, TransmissionBytes(t) + rest) == Meaning(cfg, p.inflated, t) + ReadAll(cfg, q, rest)
  {
    match t
    case Control(c) =>
      ControlIsRead(cfg, p, c, rest);
      q := p;
    case Data(op, z, first, more) =>
      q := DataIsRead(cfg, p, t, rest);
  }

  lemma ControlIsRead(cfg: Config, p: Progress, c: ControlFrame, rest: seq<byte>)
    requires c.Valid()
    ensures ReadAll(cfg, p, c.Bytes() + rest) == [c.Meaning()] + ReadAll(cfg, p, rest)
  {
    hide ReadAll, StepFrame, Rfc6455.ControlFrame.Bytes;
    StepControlFrame(cfg, p, c, rest);
    ReadAllFrame(cfg, p, c.Bytes() + rest);
    assert (c.Bytes() + rest)[|c.Bytes()|..] == rest;
  }

  lemma DataIsRead(cfg: Config, p: Progress, t: Transmission, rest: seq<byte>) returns (q: Progress)
    requires t.Data? && ValidTransmission(t) && BetweenMessages(p) && Fits(cfg, p.inflated, t)
    ensures BetweenMessages(q) && q.inflated == HistoryAfter(p.inflated, t)
    ensures Content(cfg, t.compressed, t.first.bytes + Joined(t.more), p.inflated).Ok?
    ensures ReadAll(cfg, p, TransmissionBytes(t) + rest) == Meaning(cfg, p.inflated, t) + ReadAll(cfg, q, rest)
  {
    hide ReadAll, StepFrame, FrameBytes, AfterMessage, HeaderByte, InMessage, Deliver, DataResult, FragmentBytes;
    var fin := t.more == [];
    var front, tail := FrameBytes(fin, Rsv(t.compressed), t.op, t.first), FragmentBytes(t.more) + rest;
    RoomForAll(cfg, p.inflated, t);
    Assoc(front, FragmentBytes(t.more), rest);
    StepDataFrame(cfg, p, fin, Rsv(t.compressed), t.op, t.first, tail);
    var q1 := FirstFrameStarts(cfg, p, t.op, t.compressed, fin, t.first, 2 + |t.first.len.ext|);
    ReadAllFrame(cfg, p, front + tail);
    assert (front + tail)[|front|..] == tail;
    var q2;
    if fin {
      NoMore(t.first.bytes, rest);
      q2 := q1;
    } else {
      q2 := FragmentsAreRead(cfg, q1, t.op, t.compressed, t.first.bytes, t.more, rest);
    }
    q := ContentIsDelivered(cfg, q2, t);
    AfterMessageIs(cfg, q2, rest);
    Assoc(Interleaved(t.more), [Deliver(cfg, q2).0], ReadAll(cfg, q, rest));
  }

  lemma NoMore(bytes: seq<byte>, rest: seq<byte>)
    ensures FragmentBytes([]) + rest == rest && bytes + Joined([]) == bytes && Interleaved([]) == []
  {
  }

  /** A message that fits leaves room for each of its parts. */
  lemma RoomForAll(cfg: Config, inflated: seq<seq<byte>>, t: Transmission)
    requires t.Data? && Fits(cfg, inflated, t)
    ensures |t.first.bytes| <= cfg.maxSize
    ensures t.compressed ==> cfg.zMax.Some? && |t.first.bytes| <= cfg.zMax.value
    ensures Room(cfg, t.compressed, |t.first.bytes|, t.more)
  {
    hide Joined, TextAccepted, TextError;
  }

  /**
   Every acceptable sequence of transmissions, in whatever length forms and fragments, is received as what it
   means, in order; and the client goes on with what follows it.
   */
  lemma {:induction false} TransmissionsAreRead(cfg: Config, p: Progress, ts: seq<Transmission>, rest: seq<byte>)
    returns (q: Progress)
    requires BetweenMessages(p) && Acceptable(cfg, p.inflated, ts)
    ensures BetweenMessages(q) && q.inflated == HistoryAfterAll(p.inflated, ts)
    ensures forall i | 0 <= i < |ts| :: ValidTransmission(ts[i])
    ensures ReadAll(cfg, p, Bytes(ts) + rest) == Meanings(cfg, p.inflated, ts) + ReadAll(cfg, q, rest)
    decreases |ts|
  {
    hide ReadAll, TransmissionBytes, Meaning, ValidTransmission, Fits;
    AcceptableIsValid(cfg, p.inflated, ts);
    if ts == [] {
      q := p;
      assert Bytes(ts) + rest == rest;
    } else {
      var tail := Bytes(ts[1..]) + rest;
      Assoc(TransmissionBytes(ts[0]), Bytes(ts[1..]), rest);
      var q1 := TransmissionIsRead(cfg, p, ts[0], tail);
      q := TransmissionsAreRead(cfg, q1, ts[1..], rest);
      Assoc(Meaning(cfg, p.inflated, ts[0]), Meanings(cfg, q1.inflated, ts[1..]), ReadAll(cfg, q, rest));
    }
  }

  // ---- nothing else is received ------------------------------------------------------------------------------

  lemma RsvBits(b0: byte, b1: byte)
    ensures var h := FrameHeader(b0, b1);
            && b0 == HeaderByte(h.IsFinal(), (b0 >> 4) & 7, h.OpCode()) && h.OpCode() <= 0xF
            && (!h.HasRsvBits() ==> (b0 >> 4) & 7 == 0)
            && (!h.Rsv2() && !h.Rsv3() ==> (b0 >> 4) & 7 == Rsv(h.Rsv1()))
  {
  }

  lemma CutInFour(s: seq<byte>, used: nat, size: nat)
    requires 2 <= used && used + size <= |s|
    ensures s == [s[0], s[1]] + s[2..used] + s[used..][..size] + s[used + size..]
  {
  }

  /** A decoded header: its bytes, and a length field that stands for the size. */
  lemma DecodedHeader(s: seq<byte>, h: FrameHeader, size: nat, used: nat)
    requires DecodeHeader(s) == Header(h, size, used)
    ensures 2 <= used <= |s| && h == FrameHeader(s[0], s[1])
    ensures LengthField(s[1], s[2..used]).Denotes(size)
  {
    hide BigEndian, FrameHeader.OpCode, FrameHeader.IsFinal;
  }

  /** The frame at the front of a stream whose header decodes and whose payload is there. */
  lemma HeaderIsFrame(s: seq<byte>, h: FrameHeader, size: nat, used: nat) returns (rsv: bv8, body: Body)
    requires DecodeHeader(s) == Header(h, size, used) && used + size <= |s|
    ensures rsv == (h.b0 >> 4) & 7 && rsv <= 7 && h.OpCode() <= 0xF
    ensures body.Valid() && body.bytes == s[used..][..size] && used == 2 + |body.len.ext| && body.len.code == h.b1
    ensures h.b0 == HeaderByte(h.IsFinal(), rsv, h.OpCode())
    ensures s == FrameBytes(h.IsFinal(), rsv, h.OpCode(), body) + s[used + size..]
  {
    hide DecodeHeader, LengthField.Denotes, HeaderByte, FrameHeader.OpCode, FrameHeader.IsFinal;
    DecodedHeader(s, h, size, used);
    RsvBits(s[0], s[1]);
    rsv := (s[0] >> 4) & 7;
    body := Body(s[used..][..size], LengthField(s[1], s[2..used]));
    CutInFour(s, used, size);
  }

  /** A control frame is returned only if it is a valid one. */
  lemma ReturnedIsControl(cfg: Config, p: Progress, s: seq<byte>, r: Received, used: nat) returns (c: ControlFrame)
    requires StepFrame(cfg, p, s) == Returned(r, used) && !r.Failure?
    ensures c.Valid() && r == c.Meaning() && s == c.Bytes() + s[used..]
  {
    hide DecodeHeader, FrameHeader.HasRsvBits, FrameHeader.IsFinal, FrameHeader.OpCode;
    hide HeaderByte, CheckClose, FrameBytes, IsReason;
    var Header(h, size, n) := DecodeHeader(s);
    var rsv, body := HeaderIsFrame(s, h, size, n);
    RsvBits(h.b0, h.b1);
    c := Rfc6455.ControlFrame(h.OpCode(), body);
    if c.op == CLOSE {
      CloseIsChecked(body.bytes);
    }
  }

  /** The data frame at the front of a stream that the receiver takes, and where it leads. */
  lemma TakenIsData(cfg: Config, p: Progress, s: seq<byte>, q: Progress, used: nat, fin: bool)
    returns (h: FrameHeader, rsv: bv8, body: Body)
    requires StepFrame(cfg, p, s) == if fin then Complete(q, used) else More(q, used)
    ensures rsv <= 7 && h.OpCode() <= 0xF && body.Valid() && used <= |s|
    ensures rsv == (h.b0 >> 4) & 7 && h.IsFinal() == fin
    ensures s == FrameBytes(fin, rsv, h.OpCode(), body) + s[used..]
    ensures AcceptHeader(cfg, p, h, |body.bytes|).Ok?
    ensures TakePayload(cfg, AcceptHeader(cfg, p, h, |body.bytes|).value, |body.bytes|, body.bytes) == Taken(q)
  {
    hide DecodeHeader, FrameHeader.HasRsvBits, FrameHeader.IsFinal, FrameHeader.OpCode;
    hide HeaderByte, FrameBytes, AcceptHeader;
    var Header(h', size, n) := DecodeHeader(s);
    h := h';
    rsv, body := HeaderIsFrame(s, h, size, n);
    assert body.bytes[..size] == body.bytes;
  }

  /** Inside a message, only a plain continuation is taken, and it extends the message. */
  lemma TakenContinues(cfg: Config, p: Progress, op: Opcode, z: bool, payload: seq<byte>,
                       s: seq<byte>, q: Progress, used: nat, fin: bool) returns (body: Body)
    requires StepFrame(cfg, p, s) == if fin then Complete(q, used) else More(q, used)
    requires InMessage(p, op, z, payload)
    ensures body.Valid() && used <= |s| && s == FrameBytes(fin, 0, CONTINUATION, body) + s[used..]
    ensures InMessage(q, op, z, payload + body.bytes) && q.inflated == p.inflated
    ensures if z then
              && |body.bytes| <= cfg.maxSize
              && (body.bytes != [] ==> cfg.zMax.Some? && |payload + body.bytes| <= cfg.zMax.value)
            else |payload + body.bytes| <= cfg.maxSize
  {
    hide StepFrame, FrameBytes, FrameHeader.OpCode, FrameHeader.IsFinal, FrameHeader.HasRsvBits;
    var h, rsv, body' := TakenIsData(cfg, p, s, q, used, fin);
    body := body';
    RsvBits(h.b0, h.b1);
    assert body.bytes[..|body.bytes|] == body.bytes;
    assert body.bytes == [] ==> payload + body.bytes == payload;
  }

  /** Between messages, the frame taken starts one. */
  lemma TakenStarts(cfg: Config, p: Progress, s: seq<byte>, q: Progress, used: nat, fin: bool)
    returns (op: Opcode, z: bool, body: Body)
    requires StepFrame(cfg, p, s) == if fin then Complete(q, used) else More(q, used)
    requires BetweenMessages(p)
    ensures op <= 0xF && body.Valid() && used <= |s| && s == FrameBytes(fin, Rsv(z), op, body) + s[used..]
    ensures InMessage(q, op, z, body.bytes) && q.inflated == p.inflated
    ensures |body.bytes| <= cfg.maxSize && (z ==> cfg.zMax.Some? && |body.bytes| <= cfg.zMax.value)
  {
    hide StepFrame, FrameBytes, FrameHeader.OpCode, FrameHeader.IsFinal, FrameHeader.HasRsvBits;
    hide FrameHeader.Rsv1, FrameHeader.Rsv2, FrameHeader.Rsv3;
    var h, rsv, body' := TakenIsData(cfg, p, s, q, used, fin);
    op, z, body := h.OpCode(), h.Rsv1(), body';
    RsvBits(h.b0, h.b1);
    assert body.bytes[..|body.bytes|] == body.bytes;
    assert [] + body.bytes == body.bytes;
  }

  predicate NoMessage(rs: seq<Received>) {
    forall i | 0 <= i < |rs| :: !rs[i].Message?
  }

  /** Among control frames and continuations, either the message in progress is completed or none is received. */
  lemma {:induction false} RestOfMessage(cfg: Config, p: Progress, op: Opcode, z: bool, payload: seq<byte>,
                                         s: seq<byte>)
    returns (found: bool, fs: seq<Fragment>, tail: seq<byte>, q: Progress)
    requires InMessage(p, op, z, payload) && (z ==> cfg.zMax.Some? && |payload| <= cfg.zMax.value)
    ensures found ==>
              && fs != [] && ValidFragments(fs) && |tail| < |s| && s == FragmentBytes(fs) + tail
              && Room(cfg, z, |payload|, fs)
              && InMessage(q, op, z, payload + Joined(fs)) && q.inflated == p.inflated
              && !Deliver(cfg, q).0.Failure?
    ensures !found ==> NoMessage(ReadAll(cfg, p, s))
    decreases |s|
  {
    hide StepFrame, FrameBytes, ReadAll, InMessage, Deliver;
    ReadAllFrame(cfg, p, s);
    match StepFrame(cfg, p, s) {
      case ShortFrame =>
        found, fs, tail, q := false, [], s, p;
      case Returned(r, used) =>
        found, fs, tail, q := false, [], s, p;
        if !r.Failure? {
          var c := ReturnedIsControl(cfg, p, s, r, used);
          var fs';
          found, fs', tail, q := RestOfMessage(cfg, p, op, z, payload, s[used..]);
          if found {
            fs := PrependControl(c, fs', tail, s[used..]);
            PrependControlKeeps(cfg, z, |payload|, c, fs');
          }
        }
      case More(q1, used) =>
        var body := TakenContinues(cfg, p, op, z, payload, s, q1, used, false);
        var fs';
        found, fs', tail, q := RestOfMessage(cfg, q1, op, z, payload + body.bytes, s[used..]);
        fs := [];
        if found {
          fs := PrependFragment(body, fs', tail, s[used..]);
          Assoc(payload, body.bytes, Joined(fs'));
        }
      case Complete(q1, used) =>
        var body := TakenContinues(cfg, p, op, z, payload, s, q1, used, true);
        found, tail, q := !Deliver(cfg, q1).0.Failure?, s[used..], q1;
        fs := LastFragment(body);
    }
  }

  lemma LastFragment(body: Body) returns (fs: seq<Fragment>)
    requires body.Valid()
    ensures fs == [Fragment([], body)] && ValidFragments(fs)
    ensures FragmentBytes(fs) == FrameBytes(true, 0, CONTINUATION, body) && Joined(fs) == body.bytes
  {
    fs := [Fragment([], body)];
    assert [] + FrameBytes(true, 0, CONTINUATION, body) + [] == FrameBytes(true, 0, CONTINUATION, body);
    assert body.bytes + [] == body.bytes;
  }

  lemma PrependFragment(body: Body, fs': seq<Fragment>, tail: seq<byte>, s': seq<byte>) returns (fs: seq<Fragment>)
    requires body.Valid() && fs' != [] && ValidFragments(fs') && s' == FragmentBytes(fs') + tail
    ensures fs == [Fragment([], body)] + fs' && ValidFragments(fs)
    ensures FragmentBytes(fs) + tail == FrameBytes(false, 0, CONTINUATION, body) + s'
    ensures Joined(fs) == body.bytes + Joined(fs')
  {
    fs := [Fragment([], body)] + fs';
    assert fs[1..] == fs';
    assert [] + FrameBytes(false, 0, CONTINUATION, body) == FrameBytes(false, 0, CONTINUATION, body);
    Assoc(FrameBytes(false, 0, CONTINUATION, body), FragmentBytes(fs'), tail);
  }

  function WithControl(c: ControlFrame, fs: seq<Fragment>): seq<Fragment>
    requires fs != []
  {
    [Fragment([c] + fs[0].before, fs[0].body)] + fs[1..]
  }

  lemma PrependControl(c: ControlFrame, fs': seq<Fragment>, tail: seq<byte>, s': seq<byte>) returns (fs: seq<Fragment>)
    requires c.Valid() && fs' != [] && ValidFragments(fs') && s' == FragmentBytes(fs') + tail
    ensures fs == WithControl(c, fs') && ValidFragments(fs)
    ensures FragmentBytes(fs) + tail == c.Bytes() + s'
  {
    hide FrameBytes, Rfc6455.ControlFrame.Bytes;
    fs := WithControl(c, fs');
    assert fs[1..] == fs'[1..];
    assert fs[0].before[1..] == fs'[0].before;
    var front := FrameBytes(|fs'| == 1, 0, CONTINUATION, fs'[0].body);
    RegroupFragment(c.Bytes() + ControlBytes(fs'[0].before), front, FragmentBytes(fs'[1..]), tail);
    RegroupFragment(ControlBytes(fs'[0].before), front, FragmentBytes(fs'[1..]), tail);
    Assoc(c.Bytes(), ControlBytes(fs'[0].before), front + (FragmentBytes(fs'[1..]) + tail));
  }

  lemma PrependControlKeeps(cfg: Config, z: bool, sofar: nat, c: ControlFrame, fs: seq<Fragment>)
    requires fs != []
    ensures Joined(WithControl(c, fs)) == Joined(fs)
    ensures Room(cfg, z, sofar, fs) ==> Room(cfg, z, sofar, WithControl(c, fs))
  {
    assert WithControl(c, fs)[1..] == fs[1..];
  }

  /** A message that is delivered is one of the grammar that fits. */
  lemma DeliveredFits(cfg: Config, q: Progress, op: Opcode, z: bool, first: Body, more: seq<Fragment>)
    requires InMessage(q, op, z, first.bytes + Joined(more)) && !Deliver(cfg, q).0.Failure?
    requires |first.bytes| <= cfg.maxSize && (z ==> cfg.zMax.Some?) && Room(cfg, z, |first.bytes|, more)
    ensures (op == TEXT || op == BINARY) && Fits(cfg, q.inflated, Data(op, z, first, more))
  {
    hide Joined, TextAccepted, TextError;
    var content := Content(cfg, z, first.bytes + Joined(more), q.inflated);
    assert content.Ok? ==> [] + content.value == content.value;
  }

  lemma NoFragments(first: Body)
    ensures ValidFragments([]) && FragmentBytes([]) == [] && Joined([]) == [] && first.bytes + [] == first.bytes
  {
  }

  /** A message at the front of the stream is either received whole, as one of the grammar, or not at all. */
  lemma FirstMessage(cfg: Config, p: Progress, s: seq<byte>, q1: Progress, used: nat, fin: bool)
    returns (found: bool, t: Transmission, tail: seq<byte>)
    requires BetweenMessages(p)
    requires StepFrame(cfg, p, s) == if fin then Complete(q1, used) else More(q1, used)
    ensures found ==>
              && t.Data? && ValidTransmission(t) && Fits(cfg, p.inflated, t)
              && |tail| < |s| && s == TransmissionBytes(t) + tail
    ensures !found ==> NoMessage(ReadAll(cfg, p, s))
  {
    hide StepFrame, FrameBytes, ReadAll, InMessage, Deliver, Fits, FragmentBytes, ValidFragments, Room;
    ReadAllFrame(cfg, p, s);
    var op, z, first := TakenStarts(cfg, p, s, q1, used, fin);
    t, tail := Data(op, z, first, []), s[used..];
    NoFragments(first);
    if fin {
      found := !Deliver(cfg, q1).0.Failure?;
      if found {
        RoomForNone(cfg, z, |first.bytes|);
        DeliveredFits(cfg, q1, op, z, first, []);
        assert FrameBytes(true, Rsv(z), op, first) + [] == FrameBytes(true, Rsv(z), op, first);
      }
    } else {
      var fs, q;
      found, fs, tail, q := RestOfMessage(cfg, q1, op, z, first.bytes, s[used..]);
      if found {
        t := Data(op, z, first, fs);
        DeliveredFits(cfg, q, op, z, first, fs);
        Assoc(FrameBytes(false, Rsv(z), op, first), FragmentBytes(fs), tail);
      }
    }
  }

  lemma RoomForNone(cfg: Config, z: bool, sofar: nat)
    requires if z then cfg.zMax.Some? && sofar <= cfg.zMax.value else sofar <= cfg.maxSize
    ensures Room(cfg, z, sofar, [])
  {
  }

  /**
   Whatever the stream, the run splits into transmissions of the grammar, received as what they mean, and a rest
   from which no message is received any more: every message received is one of the grammar, complete and in place.
   */
  lemma {:induction false} MessagesAreTransmissions(cfg: Config, p: Progress, s: seq<byte>)
    returns (ts: seq<Transmission>, tail: seq<byte>, q: Progress)
    requires BetweenMessages(p)
    ensures Acceptable(cfg, p.inflated, ts) && (forall i | 0 <= i < |ts| :: ValidTransmission(ts[i]))
    ensures s == Bytes(ts) + tail
    ensures ReadAll(cfg, p, s) == Meanings(cfg, p.inflated, ts) + ReadAll(cfg, q, tail)
    ensures NoMessage(ReadAll(cfg, q, tail))
    decreases |s|, 2
  {
    hide StepFrame, FrameBytes, ReadAll, InMessage, Deliver, Fits, TransmissionBytes, ValidTransmission, Meaning;
    ReadAllFrame(cfg, p, s);
    match StepFrame(cfg, p, s) {
      case ShortFrame =>
        ts, tail, q := NoTransmission(cfg, p, s);
      case Returned(r, used) =>
        if r.Failure? {
          ts, tail, q := NoTransmission(cfg, p, s);
        } else {
          var c := ReturnedIsControl(cfg, p, s, r, used);
          var t := ControlTransmission(c);
          ts, tail, q := OneMore(cfg, p, s, t, s[used..]);
        }
      case More(q1, used) =>
        ts, tail, q := MessageAndMore(cfg, p, s, q1, used, false);
      case Complete(q1, used) =>
        ts, tail, q := MessageAndMore(cfg, p, s, q1, used, true);
    }
  }

  lemma ControlTransmission(c: ControlFrame) returns (t: Transmission)
    requires c.Valid()
    ensures t == Transmission.Control(c) && ValidTransmission(t) && TransmissionBytes(t) == c.Bytes()
  {
    t := Transmission.Control(c);
  }

  lemma NoTransmission(cfg: Config, p: Progress, s: seq<byte>)
    returns (ts: seq<Transmission>, tail: seq<byte>, q: Progress)
    requires NoMessage(ReadAll(cfg, p, s))
    ensures ts == [] && Acceptable(cfg, p.inflated, ts) && s == Bytes(ts) + tail
    ensures ReadAll(cfg, p, s) == Meanings(cfg, p.inflated, ts) + ReadAll(cfg, q, tail)
    ensures NoMessage(ReadAll(cfg, q, tail))
  {
    hide ReadAll;
    ts, tail, q := [], s, p;
    assert [] + s == s;
    assert [] + ReadAll(cfg, p, s) == ReadAll(cfg, p, s);
  }

  lemma MessageAndMore(cfg: Config, p: Progress, s: seq<byte>, q1: Progress, used: nat, fin: bool)
    returns (ts: seq<Transmission>, tail: seq<byte>, q: Progress)
    requires BetweenMessages(p)
    requires StepFrame(cfg, p, s) == if fin then Complete(q1, used) else More(q1, used)
    ensures Acceptable(cfg, p.inflated, ts) && (forall i | 0 <= i < |ts| :: ValidTransmission(ts[i]))
    ensures s == Bytes(ts) + tail
    ensures ReadAll(cfg, p, s) == Meanings(cfg, p.inflated, ts) + ReadAll(cfg, q, tail)
    ensures NoMessage(ReadAll(cfg, q, tail))
    decreases |s|, 1
  {
    hide StepFrame, ReadAll, Fits, TransmissionBytes, ValidTransmission, Meaning;
    var found, t, rest := FirstMessage(cfg, p, s, q1, used, fin);
    if found {
      ts, tail, q := OneMore(cfg, p, s, t, rest);
    } else {
      ts, tail, q := NoTransmission(cfg, p, s);
    }
  }

  lemma OneMore(cfg: Config, p: Progress, s: seq<byte>, t: Transmission, rest: seq<byte>)
    returns (ts: seq<Transmission>, tail: seq<byte>, q: Progress)
    requires BetweenMessages(p) && ValidTransmission(t) && (t.Data? ==> Fits(cfg, p.inflated, t))
    requires s == TransmissionBytes(t) + rest && |rest| < |s|
    ensures Acceptable(cfg, p.inflated, ts) && (forall i | 0 <= i < |ts| :: ValidTransmission(ts[i]))
    ensures s == Bytes(ts) + tail
    ensures ReadAll(cfg, p, s) == Meanings(cfg, p.inflated, ts) + ReadAll(cfg, q, tail)
    ensures NoMessage(ReadAll(cfg, q, tail))
    decreases |s|, 0
  {
    hide StepFrame, ReadAll, Fits, TransmissionBytes, ValidTransmission, Meaning;
    var q1 := TransmissionIsRead(cfg, p, t, rest);
    var ts';
    ts', tail, q := MessagesAreTransmissions(cfg, q1, rest);
    ts := [t] + ts';
    assert ts[1..] == ts';
    Assoc(TransmissionBytes(t), Bytes(ts'), tail);
    Assoc(Meaning(cfg, p.inflated, t), Meanings(cfg, q1.inflated, ts'), ReadAll(cfg, q, tail));
  }

  // ---- a message that begins with a continuation -------------------------------------------------------------

  /** The frame at the front of the stream leads to a failure, without another frame being read. */
  ghost predicate FailsAtOnce(cfg: Config, p: Progress, s: seq<byte>) {
    match StepFrame(cfg, p, s)
    case Returned(r, _) => r.Failure?
    case Complete(q, _) => Deliver(cfg, q).0.Failure?
    case _ => false
  }

  /** The header of a first frame is refused: its RSV bits are not those of a message, or it does not fit. */
  predicate Refused(cfg: Config, rsv: bv8, size: nat) {
    || (rsv != Rsv(false) && rsv != Rsv(true))
    || size > cfg.maxSize
    || (rsv == Rsv(true) && (cfg.zMax.None? || size > cfg.zMax.value))
  }

  lemma RefusedHeader(cfg: Config, p: Progress, fin: bool, rsv: bv8, op: Opcode, body: Body, used: nat)
    requires BetweenMessages(p) && rsv <= 7 && op <= 0xF && Refused(cfg, rsv, |body.bytes|)
    ensures var r := DataResult(cfg, p, fin, FrameHeader(HeaderByte(fin, rsv, op), body.len.code), body.bytes, used);
            r.Returned? && r.received.Failure?
  {
    hide HeaderByte, FrameHeader.OpCode, FrameHeader.Rsv1, FrameHeader.Rsv2, FrameHeader.Rsv3;
    HeaderByteFields(fin, rsv, op, body.len.code);
    OtherRsv(rsv);
  }

  lemma OtherRsv(rsv: bv8)
    requires rsv <= 7
    ensures rsv & 3 == 0 <==> rsv == Rsv(false) || rsv == Rsv(true)
    ensures rsv & 3 == 0 && rsv & 4 != 0 <==> rsv == Rsv(true)
  {
  }

  /** No message can begin with a continuation: whatever it holds, it is not delivered. */
  lemma ContinuationFails(cfg: Config, q: Progress, z: bool, payload: seq<byte>)
    requires InMessage(q, CONTINUATION, z, payload)
    ensures Deliver(cfg, q).0.Failure?
  {
    hide TextAccepted, TextError;
  }

  /** Where a continuation between messages leads. */
  lemma ContinuationStarts(cfg: Config, p: Progress, fin: bool, rsv: bv8, body: Body, rest: seq<byte>)
    returns (q: Progress)
    requires BetweenMessages(p) && rsv <= 7 && body.Valid()
    ensures var front := FrameBytes(fin, rsv, CONTINUATION, body);
            var step := StepFrame(cfg, p, front + rest);
            if Refused(cfg, rsv, |body.bytes|) then step.Returned? && step.received.Failure?
            else
              && step == (if fin then Complete(q, |front|) else More(q, |front|))
              && InMessage(q, CONTINUATION, rsv == Rsv(true), body.bytes) && q.inflated == p.inflated
  {
    hide StepFrame, DataResult, HeaderByte, InMessage;
    StepDataFrame(cfg, p, fin, rsv, CONTINUATION, body, rest);
    if Refused(cfg, rsv, |body.bytes|) {
      RefusedHeader(cfg, p, fin, rsv, CONTINUATION, body, 2 + |body.len.ext|);
      q := p;
    } else {
      q := FirstFrameStarts(cfg, p, CONTINUATION, rsv == Rsv(true), fin, body, 2 + |body.len.ext|);
    }
  }

  /**
   Section 5.4 of RFC 6455 allows a continuation only while a message is in progress. A continuation between messages
   fails at its own frame if and only if it is final, or its header would be refused on any first frame.
   */
  lemma FirstContinuationIff(cfg: Config, p: Progress, fin: bool, rsv: bv8, body: Body, rest: seq<byte>)
    requires BetweenMessages(p) && rsv <= 7 && body.Valid()
    ensures FailsAtOnce(cfg, p, FrameBytes(fin, rsv, CONTINUATION, body) + rest) <==>
            fin || Refused(cfg, rsv, |body.bytes|)
  {
    hide StepFrame, FrameBytes, Deliver, Refused;
    var q := ContinuationStarts(cfg, p, fin, rsv, body, rest);
    if fin && !Refused(cfg, rsv, |body.bytes|) {
      ContinuationFails(cfg, q, rsv == Rsv(true), body.bytes);
    }
  }

  /** Such a frame: not final, empty, without RSV bits. */
  lemma ContinuationPasses(cfg: Config, p: Progress, rest: seq<byte>)
    requires BetweenMessages(p)
    ensures StepFrame(cfg, p, [0, 0] + rest).More? && !FailsAtOnce(cfg, p, [0, 0] + rest)
  {
    hide StepFrame, DecodeHeader;
    var body := Body([], LengthField(0, []));
    assert [HeaderByte(false, 0, CONTINUATION), 0] + [] + [] == [0, 0];
    var q := ContinuationStarts(cfg, p, false, 0, body, rest);
  }

  /** But no message is ever received from a stream that begins with a continuation. */
  lemma NothingFromAContinuation(cfg: Config, p: Progress, fin: bool, rsv: bv8, body: Body, rest: seq<byte>)
    requires BetweenMessages(p) && rsv <= 7 && body.Valid()
    ensures NoMessage(ReadAll(cfg, p, FrameBytes(fin, rsv, CONTINUATION, body) + rest))
  {
    hide StepFrame, FrameBytes, ReadAll, Deliver, InMessage;
    var s := FrameBytes(fin, rsv, CONTINUATION, body) + rest;
    var q := ContinuationStarts(cfg, p, fin, rsv, body, rest);
    ReadAllFrame(cfg, p, s);
    if !Refused(cfg, rsv, |body.bytes|) {
      var tail := s[|FrameBytes(fin, rsv, CONTINUATION, body)|..];
      if fin {
        ContinuationFails(cfg, q, rsv == Rsv(true), body.bytes);
      } else {
        NothingInAContinuation(cfg, q, rsv == Rsv(true), body.bytes, tail);
      }
    }
  }

  lemma NothingInAContinuation(cfg: Config, q: Progress, z: bool, payload: seq<byte>, s: seq<byte>)
    requires InMessage(q, CONTINUATION, z, payload) && (z ==> cfg.zMax.Some? && |payload| <= cfg.zMax.value)
    ensures NoMessage(ReadAll(cfg, q, s))
  {
    hide ReadAll, Deliver, InMessage;
    var found, fs, tail, q' := RestOfMessage(cfg, q, CONTINUATION, z, payload, s);
    if found {
      ContinuationFails(cfg, q', z, payload + Joined(fs));
    }
  }
}
