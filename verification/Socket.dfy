/**
 The transport as an adversary: it splits the server's byte stream and accepts the client's bytes
 in pieces of any non-zero size, and it may fail at any call.
 */
module Socket {
  import opened Errors
  import opened Seqs

  type byte = bv8

  class Socket {
    var incoming: seq<byte>           // what the server sent and nobody has read yet
    var outgoing: seq<byte>           // everything written so far
    ghost var chunks: seq<seq<byte>>  // how the reads so far split the stream
    ghost var calls: nat              // number of operations performed on the transport
    ghost var failed: bool            // some operation reported an error

    constructor (stream: seq<byte>)
      ensures incoming == stream && outgoing == [] && chunks == [] && calls == 0 && !failed
    {
      incoming, outgoing := stream, [];
      chunks, calls, failed := [], 0, false;
    }

    /**
     Read between 1 and `len` bytes into `dst` at `off`, or report an error.
     The transports never return 0: they report the end of the stream as an error.
     */
    method ReadSome(dst: array<byte>, off: nat, len: nat) returns (r: Result<nat>)
      requires 0 < len && off + len <= dst.Length
      modifies this`incoming, this`chunks, this`calls, this`failed, dst
      ensures r.Ok? ==>
                && 1 <= r.value <= len
                && r.value <= |old(incoming)|
                && dst[..] == Splice(old(dst[..]), off, old(incoming)[..r.value])
                && incoming == old(incoming)[r.value..]
                && chunks == old(chunks) + [old(incoming)[..r.value]]
                && failed == old(failed)
      ensures r.Err? ==> dst[..] == old(dst[..]) && incoming == old(incoming) && chunks == old(chunks) && failed
    {
      calls := calls + 1;
      var fails: bool := *;
      if fails || incoming == [] {
        var e: WSError := *;
        failed := true;
        return Err(e);
      }
      var n: nat :| 1 <= n <= len && n <= |incoming|;
      forall i | 0 <= i < n {
        dst[off + i] := incoming[i];
      }
      chunks := chunks + [incoming[..n]];
      incoming := incoming[n..];
      r := Ok(n);
    }

    /** Write between 1 and `len` bytes of `src` from `off` on, or report an error. */
    method WriteSome(src: array<byte>, off: nat, len: nat) returns (r: Result<nat>)
      requires 0 < len && off + len <= src.Length
      modifies this`outgoing, this`calls, this`failed
      ensures r.Ok? ==>
                && 1 <= r.value <= len
                && outgoing == old(outgoing) + src[off..off + r.value]
                && failed == old(failed)
      ensures r.Err? ==> outgoing == old(outgoing) && failed
    {
      calls := calls + 1;
      var fails: bool := *;
      if fails {
        var e: WSError := *;
        failed := true;
        return Err(e);
      }
      var n: nat :| 1 <= n <= len;
      outgoing := outgoing + src[off..off + n];
      r := Ok(n);
    }

    /** Shut down and close the transport. Its outcome does not change what was sent or received. */
    method ShutdownAndClose(failConnection: bool) returns (r: Result<()>)
      modifies this`calls, this`failed
      ensures r.Ok? ==> failed == old(failed)
      ensures r.Err? || old(failed) ==> failed
    {
      calls := calls + 1;
      var fails: bool := *;
      if fails {
        var e: WSError := *;
        failed := true;
        return Err(e);
      }
      r := Ok(());
    }
  }
}
