/** A client reading message after message, as the applications do: chunking independence over whole runs. */
module Session {
  import opened Errors
  import opened Bits
  import opened CircularBuffer
  import opened Buffer
  import opened Receiver
  import opened WebSocketClient
  import Rfc6455
  import Conformance

  lemma {:induction false} ReadAllStep(cfg: Config, p: Progress, s: seq<bv8>)
    ensures match Receiver.ReadMessage(cfg, p, s)
            case Unfinished => ReadAll(cfg, p, s) == []
            case Finished(r, q, rest) =>
              ReadAll(cfg, p, s) == if r.Failure? then [r] else [r] + ReadAll(cfg, q, rest)
  {
  }

  predicate NoFailure(rs: seq<Received>) {
    forall i | 0 <= i < |rs| :: !rs[i].Failure?
  }

  /**
     What `calls` reads return when the stream determines the results `all`: the first `calls` of them, or all of
     them if a failure is among those.
   */
  predicate IsOutcome(all: seq<Received>, calls: nat, rs: seq<Received>, failure: Option<WSError>) {
    && NoFailure(rs)
    && match failure
       case None => |rs| == calls && rs <= all
       case Some(e) => |rs| < calls && all == rs + [Failure(e)]
  }

  lemma OutcomeFailures(all: seq<Received>, calls: nat, rs: seq<Received>, failure: Option<WSError>)
    requires IsOutcome(all, calls, rs, failure)
    ensures failure.None? ==> calls <= |all| && forall i | 0 <= i < calls :: !all[i].Failure?
    ensures failure.Some? ==> |all| == |rs| + 1 <= calls && all[|rs|].Failure?
  {
    assert failure.None? ==> all[..calls] == rs;
  }

  /**
     Chunking independence: two runs over the same stream from the same state return the same results, however the
     transport splits the stream for either of them, if neither transport nor clock cuts them short.
   */
  lemma SameOutcome(all: seq<Received>, calls: nat, rs: seq<Received>, failure: Option<WSError>,
                    rs': seq<Received>, failure': Option<WSError>)
    requires IsOutcome(all, calls, rs, failure) && IsOutcome(all, calls, rs', failure')
    ensures rs == rs' && failure == failure'
  {
    OutcomeFailures(all, calls, rs, failure);
    OutcomeFailures(all, calls, rs', failure');
    if failure.None? && failure'.None? {
      assert rs == all[..calls] == rs';
    } else if failure.Some? && failure'.Some? {
      assert rs == all[..|all| - 1] == rs';
      assert all[|all| - 1] == Failure(failure.value);
    }
  }

  /** No valid transmission is received as a failure. */
  lemma {:induction false} MeaningsAreNoFailures(cfg: Config, inflated: seq<seq<bv8>>, ts: seq<Rfc6455.Transmission>)
    requires Rfc6455.Acceptable(cfg, inflated, ts)
    ensures NoFailure(Rfc6455.Meanings(cfg, inflated, ts))
    decreases |ts|
  {
    hide Rfc6455.ValidTransmission, Rfc6455.Fits, Rfc6455.HistoryAfter;
    if ts != [] {
      MeaningsAreNoFailures(cfg, Rfc6455.HistoryAfter(inflated, ts[0]), ts[1..]);
      if ts[0].Data? {
        InterleavedAreNoFailures(ts[0].more);
      }
    }
  }

  lemma {:induction false} InterleavedAreNoFailures(fs: seq<Rfc6455.Fragment>)
    ensures NoFailure(Rfc6455.Interleaved(fs))
  {
    if fs != [] {
      ControlsAreNoFailures(fs[0].before);
      InterleavedAreNoFailures(fs[1..]);
    }
  }

  lemma {:induction false} ControlsAreNoFailures(cs: seq<Rfc6455.ControlFrame>)
    ensures NoFailure(Rfc6455.ControlMeanings(cs))
  {
    if cs != [] {
      ControlsAreNoFailures(cs[1..]);
    }
  }

  /**
     End to end: when a server sends messages of section 5.4 of RFC 6455 that fit the buffers, then a client that
     reads as often as there is something to receive gets exactly their meanings, in order, whatever the server sends
     afterwards and however the transport splits the stream.
   */
  lemma MessagesArrive(cfg: Config, p: Progress, ts: seq<Rfc6455.Transmission>, after: seq<bv8>,
                       rs: seq<Received>, failure: Option<WSError>)
    requires Conformance.BetweenMessages(p) && Rfc6455.Acceptable(cfg, p.inflated, ts)
    requires (forall i | 0 <= i < |ts| :: Rfc6455.ValidTransmission(ts[i]))
    requires IsOutcome(ReadAll(cfg, p, Rfc6455.Bytes(ts) + after), |Rfc6455.Meanings(cfg, p.inflated, ts)|, rs, failure)
    ensures rs == Rfc6455.Meanings(cfg, p.inflated, ts) && failure == None
  {
    hide ReadAll, Rfc6455.Acceptable, Rfc6455.Meanings, Rfc6455.ValidTransmission, Rfc6455.Bytes;
    var q := Conformance.TransmissionsAreRead(cfg, p, ts, after);
    MeaningsAreNoFailures(cfg, p.inflated, ts);
    var ms := Rfc6455.Meanings(cfg, p.inflated, ts);
    assert ms <= ReadAll(cfg, p, Rfc6455.Bytes(ts) + after);
    SameOutcome(ReadAll(cfg, p, Rfc6455.Bytes(ts) + after), |ms|, rs, failure, ms, None);
  }

  /**
     Call `read_message` up to `calls` times, stopping at the first failure. Whatever pieces the stream arrives in,
     what has been received is a prefix of the one sequence of results that the stream determines; and it is all
     of it, the failure included, when neither the transport nor the clock ended the run.
   */
  method ReadMessages(client: WebSocketClient, buffer: Buffer, calls: nat)
    returns (rs: seq<Received>, failure: Option<WSError>, timedOut: bool)
    requires client.Valid() && client.Accepts(buffer) && !client.closed && client.Usable() && !client.Failed()
    modifies client`readState, client`inflated, buffer`storage, buffer`capacity, buffer`used, buffer.storage,
             client.zbuffer`storage, client.zbuffer`capacity, client.zbuffer`used, client.zbuffer.storage,
             client.io.ring`head, client.io.ring`tail, client.io.ring`full, client.io.ring.buffer,
             client.io.socket`incoming, client.io.socket`chunks, client.io.socket`calls, client.io.socket`failed
    ensures client.Valid() && client.Accepts(buffer)
    ensures client.Config(buffer) == old(client.Config(buffer))
    ensures rs <= ReadAll(client.Config(buffer), old(client.Progress(buffer)), old(client.Pending()))
    ensures failure.None? ==> |rs| == calls && !client.Failed() && client.Usable()
    ensures failure.None? ==>
              ReadAll(client.Config(buffer), old(client.Progress(buffer)), old(client.Pending())) ==
              rs + ReadAll(client.Config(buffer), client.Progress(buffer), client.Pending())
    ensures !timedOut && !client.Failed() ==>
              IsOutcome(ReadAll(client.Config(buffer), old(client.Progress(buffer)), old(client.Pending())),
                        calls, rs, failure)
  {
    hide Ring, IsPowerOfTwo, Receiver.ReadMessage, ReadAll;
    hide WebSocketClient.Progress, WebSocketClient.Pending;
    ghost var cfg := client.Config(buffer);
    ghost var all := ReadAll(cfg, client.Progress(buffer), client.Pending());
    rs, failure, timedOut := [], None, false;
    while |rs| < calls
      invariant client.Valid() && client.Accepts(buffer) && !client.closed && client.Usable() && !client.Failed()
      invariant client.Config(buffer) == cfg
      invariant buffer.storage == old(buffer.storage) || fresh(buffer.storage)
      invariant client.zbuffer.storage == old(client.zbuffer.storage) || fresh(client.zbuffer.storage)
      invariant |rs| <= calls && failure.None? && !timedOut && NoFailure(rs)
      invariant all == rs + ReadAll(cfg, client.Progress(buffer), client.Pending())
    {
      var r;
      r, timedOut := ReadOne(client, buffer);
      if r.Failure? {
        failure := Some(r.error);
        return;
      }
      rs := rs + [r];
    }
  }

  /** One call with its own timeout, as a step through the results the stream determines. */
  method ReadOne(client: WebSocketClient, buffer: Buffer) returns (r: Received, timedOut: bool)
    requires client.Valid() && client.Accepts(buffer) && !client.closed && client.Usable() && !client.Failed()
    modifies client`readState, client`inflated, buffer`storage, buffer`capacity, buffer`used, buffer.storage,
             client.zbuffer`storage, client.zbuffer`capacity, client.zbuffer`used, client.zbuffer.storage,
             client.io.ring`head, client.io.ring`tail, client.io.ring`full, client.io.ring.buffer,
             client.io.socket`incoming, client.io.socket`chunks, client.io.socket`calls, client.io.socket`failed
    ensures client.Valid() && client.Accepts(buffer)
    ensures buffer.storage == old(buffer.storage) || fresh(buffer.storage)
    ensures client.zbuffer.storage == old(client.zbuffer.storage) || fresh(client.zbuffer.storage)
    ensures !r.Failure? ==> client.Usable() && !client.Failed() && !timedOut
    ensures !r.Failure? ==>
              ReadAll(client.Config(buffer), old(client.Progress(buffer)), old(client.Pending())) ==
              [r] + ReadAll(client.Config(buffer), client.Progress(buffer), client.Pending())
    ensures r.Failure? && !timedOut && !client.Failed() ==>
              ReadAll(client.Config(buffer), old(client.Progress(buffer)), old(client.Pending())) == [r]
  {
    hide Ring, IsPowerOfTwo, Receiver.ReadMessage, ReadAll;
    hide WebSocketClient.Progress, WebSocketClient.Pending;
    ReadAllStep(client.Config(buffer), client.Progress(buffer), client.Pending());
    var timeout := new Timeout();
    r := client.ReadMessage(buffer, timeout);
    timedOut := timeout.expired && r == Failure(TIMED_OUT);
  }
}
