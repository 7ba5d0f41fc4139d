/**
 Buffered reading and complete writing over the transport. `Pending()` is everything of the server's
 byte stream that has not been handed to a caller: the ring contents, then what the transport still holds.
 */
module BufferedSocket {
  import opened Errors
  import opened Seqs
  import opened Bits
  import opened CircularBuffer
  import opened Socket
  import opened Buffer
  import opened Delimiters

  const READ_BUFFER_SIZE: nat := 4096

  /** How `ReadUntil` ends. The last case is the failed assertion of the ring when it cannot take the bytes back. */
  datatype Until = Found | Failed(error: WSError) | PushBackOverflow

  class BufferedSocket {
    const socket: Socket
    const ring: CircularBuffer<byte>

    ghost predicate Valid()
      reads this, ring
    {
      ring.Valid()
    }

    ghost function Pending(): seq<byte>
      requires Valid()
      reads this, ring, ring.buffer, socket
    {
      ring.Contents() + socket.incoming
    }

    constructor (socket: Socket)
      ensures Valid() && fresh(ring) && fresh(ring.buffer)
      ensures this.socket == socket && ring.Contents() == [] && ring.Capacity() == READ_BUFFER_SIZE
    {
      assert IsPowerOfTwo(READ_BUFFER_SIZE) by {
        ReadBufferSizeIsPowerOfTwo();
      }
      this.socket := socket;
      ring := new CircularBuffer(READ_BUFFER_SIZE);
    }

    /**
     Have between 1 and `desired` bytes ready in the ring, reading once from the transport if there are fewer;
     `got` is what that read delivered. The transport is only ever given a non-empty span, which is why a full
     ring must suffice.
     */
    method FillReadBuffer(desired: nat) returns (r: Result<nat>, ghost got: seq<byte>)
      requires Valid() && desired > 0
      requires ring.full ==> desired <= ring.Capacity()
      modifies ring`head, ring`full, ring.buffer, socket`incoming, socket`chunks, socket`calls, socket`failed
      ensures Valid() && Pending() == old(Pending())
      ensures r.Ok? ==> 1 <= r.value && r.value == if ring.Size() < desired then ring.Size() else desired
      ensures r.Ok? ==> (got == [] <==> old(ring.Size()) >= desired)
      ensures r.Ok? ==> ring.Contents() == old(ring.Contents()) + got
      ensures old(socket.incoming) == got + socket.incoming
      ensures socket.chunks == old(socket.chunks) + if got == [] then [] else [got]
      ensures r.Ok? && got != [] ==>
                |got| <= ring.Capacity() - old(ring.head)
                && ring.head == HeadAfterRead(old(ring.head), |got|)
      ensures r.Ok? ==> socket.failed == old(socket.failed)
      ensures r.Err? ==> socket.failed && got == [] && !ring.full
    {
      got := [];
      if ring.Size() >= desired {
        return Ok(desired), got;
      }
      r, got := ReadIntoRing();
      if r.Ok? {
        var n := if ring.Size() < desired then ring.Size() else desired;
        r := Ok(n);
      }
    }

    /** Where a read of `len` bytes leaves the head of the ring. */
    function HeadAfterRead(head: nat, len: nat): int
      reads this
    {
      if head + len < ring.Capacity() then head + len else head + len - ring.Capacity()
    }

    /** One read from the transport directly into the free contiguous span of the ring. */
    method ReadIntoRing() returns (r: Result<nat>, ghost got: seq<byte>)
      requires Valid() && !ring.full
      modifies ring`head, ring`full, ring.buffer, socket`incoming, socket`chunks, socket`calls, socket`failed
      ensures Valid() && Pending() == old(Pending())
      ensures old(socket.incoming) == got + socket.incoming
      ensures r.Ok? ==>
                && got != []
                && ring.Contents() == old(ring.Contents()) + got
                && socket.chunks == old(socket.chunks) + [got]
                && |got| <= ring.Capacity() - old(ring.head)
                && ring.head == HeadAfterRead(old(ring.head), |got|)
                && socket.failed == old(socket.failed)
      ensures r.Err? ==> socket.failed && got == [] && socket.chunks == old(socket.chunks) && !ring.full
    {
      hide IsPowerOfTwo;
      got := [];
      var (at, len) := ring.AvailableSpan();
      r := socket.ReadSome(ring.buffer, at, len);
      if r.Ok? {
        got := old(socket.incoming)[..r.value];
        RingFill(old(ring.buffer[..]), at, ring.tail, got);
        assert ring.Contents() == old(ring.Contents());
        assert Slots(ring.buffer[..], at, r.value) == got;
        ring.MoveHead(r.value);
        Assoc(old(ring.Contents()), got, socket.incoming);
      }
    }

    /** Read exactly the next `len` bytes of the stream into `dst` at `off`. */
    method ReadExact(dst: array<byte>, off: nat, len: nat) returns (r: Result<nat>)
      requires Valid() && off + len <= dst.Length && dst != ring.buffer
      requires ring.full ==> len <= ring.Capacity()
      modifies ring`head, ring`tail, ring`full, ring.buffer, dst,
               socket`incoming, socket`chunks, socket`calls, socket`failed
      ensures Valid()
      ensures r.Ok? ==>
                && r.value == len <= |old(Pending())|
                && dst[..] == Splice(old(dst[..]), off, old(Pending())[..len])
                && Pending() == old(Pending())[len..]
                && socket.failed == old(socket.failed)
      ensures r.Err? ==> socket.failed && !ring.full
      ensures len > 0 || !old(ring.full) ==> !ring.full
    {
      hide Ring, IsPowerOfTwo, Splice;
      SpliceNothing(dst[..], off);
      assert Pending()[..0] == [];
      var totalRead: nat, remaining: nat := 0, len;
      while remaining > 0
        invariant Valid() && totalRead + remaining == len
        invariant totalRead <= |old(Pending())|
        invariant dst[..] == Splice(old(dst[..]), off, old(Pending())[..totalRead])
        invariant Pending() == old(Pending())[totalRead..]
        invariant ring.full ==> totalRead == 0 && old(ring.full)
        invariant socket.failed == old(socket.failed)
      {
        ghost var got;
        r, got := FillReadBuffer(remaining);
        if r.Err? {
          return;
        }
        var readBytes := r.value;
        PopInto(dst, off, totalRead, readBytes, old(dst[..]), old(Pending()));
        totalRead := totalRead + readBytes;
        remaining := remaining - readBytes;
      }
      r := Ok(totalRead);
    }

    /** Hand over the next `n` bytes: after `done` bytes of `stream` have been delivered, deliver `n` more. */
    method PopInto(dst: array<byte>, off: nat, done: nat, n: nat, ghost d: seq<byte>, ghost stream: seq<byte>)
      requires Valid() && dst != ring.buffer && 0 < n <= ring.Size() && off + done + n <= dst.Length == |d|
      requires done <= |stream| && Pending() == stream[done..]
      requires dst[..] == Splice(d, off, stream[..done])
      modifies ring`tail, ring`full, dst
      ensures Valid() && !ring.full
      ensures done + n <= |stream| && Pending() == stream[done + n..]
      ensures dst[..] == Splice(d, off, stream[..done + n])
    {
      hide Ring, IsPowerOfTwo;
      ghost var items := ring.Contents()[..n];
      ring.Pop(dst, off + done, n);
      assert items == stream[done..][..n] == stream[done..done + n];
      SpliceSplice(d, off, stream[..done], items);
      assert stream[..done] + items == stream[..done + n];
    }

    /** Append everything in the ring to `buffer`. */
    method DrainRing(buffer: Buffer) returns (r: Result<()>)
      requires Valid() && buffer.Valid() && buffer.storage != ring.buffer && ring.Size() > 0
      requires buffer.used + ring.Size() <= SIZE_MAX
      modifies ring`tail, ring`full, buffer`storage, buffer`capacity, buffer`used, buffer.storage
      ensures Valid() && buffer.Valid() && buffer.storage != ring.buffer
      ensures buffer.storage == old(buffer.storage) || fresh(buffer.storage)
      ensures r.Ok? ==> buffer.Data() == old(buffer.Data()) + old(ring.Contents()) && ring.Contents() == []
      ensures r.Err? ==> r.error.code == BufferError && |old(buffer.Data()) + old(ring.Contents())| > buffer.maxSize
    {
      hide Ring, IsPowerOfTwo;
      ghost var items := ring.Contents();
      var n := ring.Size();
      var at := buffer.Append(n);
      if at.Err? {
        return Err(at.error);
      }
      ghost var d := buffer.Data();
      assert ring.Contents() == items;
      ring.Pop(buffer.storage, at.value, n);
      assert items[..n] == items;
      assert buffer.Data() == d[..at.value] + items;
      r := Ok(());
    }

    /**
     `taken` is what has been taken from the transport so far: `start` and the reads after the first `base` ones.
     It sits in `buffer`, followed by the ring, and the transport still holds the rest of `stream`.
     */
    ghost predicate Taking(buffer: Buffer, stream: seq<byte>, start: seq<byte>, base: nat, taken: seq<byte>)
      reads this, ring, ring.buffer, socket, buffer, buffer.storage
    {
      && Valid() && buffer.Valid() && buffer.storage != ring.buffer
      && base <= |socket.chunks|
      && taken == start + Concat(socket.chunks[base..])
      && taken == buffer.Data() + ring.Contents()
      && taken + socket.incoming == stream
    }

    /** More has been taken, `start` and the reads after the first `base` ones, than `buffer` may hold. */
    ghost predicate TooLong(buffer: Buffer, error: WSError, start: seq<byte>, base: nat)
      reads this, socket, buffer
    {
      error.code == BufferError && base <= |socket.chunks| && |start + Concat(socket.chunks[base..])| > buffer.maxSize
    }

    /** The reads after the first `base` ones are as a ring whose head was at `at` admits them. */
    ghost predicate Advanced(at: nat, base: nat)
      requires Valid()
      reads this, ring, socket
    {
      && base <= |socket.chunks|
      && Admitted(ring.Capacity(), at, socket.chunks[base..])
      && ring.head == (at + |Concat(socket.chunks[base..])|) % ring.Capacity()
    }

    /** The same, and the ring was empty before them and was emptied after each. */
    ghost predicate Aligned(at: nat, base: nat)
      requires Valid()
      reads this, ring, ring.buffer, socket
    {
      ring.Contents() == [] && Advanced(at, base)
    }

    /** Every read after the first `base` ones left room in the ring for all but the first byte of `delim`. */
    ghost predicate ReadsFit(base: nat, delim: seq<byte>)
      reads this, ring, socket
    {
      forall i | base <= i < |socket.chunks| :: |socket.chunks[i]| + |delim| - 1 <= ring.Capacity()
    }

    /** Have at least one byte of the stream in the ring, reading from the transport unless the ring is full. */
    method FillMore(buffer: Buffer, ghost stream: seq<byte>, ghost start: seq<byte>, ghost base: nat, ghost at: nat,
                    ghost taken: seq<byte>)
      returns (r: Result<()>, ghost taken': seq<byte>)
      requires Taking(buffer, stream, start, base, taken)
      modifies ring`head, ring`full, ring.buffer, socket`incoming, socket`chunks, socket`calls, socket`failed
      ensures Valid() && old(socket.chunks) <= socket.chunks
      ensures old(socket.failed) ==> socket.failed
      ensures r.Ok? ==>
                && Taking(buffer, stream, start, base, taken')
                && ring.Size() > 0 && socket.failed == old(socket.failed)
      ensures r.Ok? && old(Aligned(at, base)) ==>
                && Advanced(at, base)
                && socket.chunks[base..] != [] && DropLast(socket.chunks[base..]) == old(socket.chunks[base..])
      ensures r.Err? ==> socket.failed
    {
      hide Ring, IsPowerOfTwo, Concat, Admitted;
      ghost var data, items := buffer.Data(), ring.Contents();
      ghost var aligned := Aligned(at, base);
      var filled, got := FillReadBuffer(ring.Capacity());
      taken' := taken + got;
      if filled.Err? {
        return Err(filled.error), taken';
      }
      if aligned {
        ReadIsAdmitted(old(socket.chunks), base, got, at, ring.Capacity(), old(ring.head), ring.head);
      }
      ConcatMore(start, old(socket.chunks), base, got, socket.chunks);
      Assoc(data, items, got);
      Assoc(taken, got, socket.incoming);
      r := Ok(());
    }

    /** Append at least one more byte of the stream to `buffer`. */
    method TakeMore(buffer: Buffer, ghost stream: seq<byte>, ghost start: seq<byte>, ghost base: nat, ghost at: nat,
                    ghost taken: seq<byte>)
      returns (r: Result<()>, ghost taken': seq<byte>)
      requires Taking(buffer, stream, start, base, taken)
      requires buffer.maxSize + ring.Capacity() <= SIZE_MAX
      modifies ring, ring.buffer, buffer`storage, buffer`capacity, buffer`used, buffer.storage,
               socket`incoming, socket`chunks, socket`calls, socket`failed
      ensures buffer.storage == old(buffer.storage) || fresh(buffer.storage)
      ensures Valid() && buffer.Valid() && old(socket.chunks) <= socket.chunks
      ensures old(socket.failed) ==> socket.failed
      ensures r.Ok? ==>
                && Taking(buffer, stream, start, base, taken')
                && ring.Contents() == []
                && old(buffer.used) < buffer.used
                && old(buffer.Data()) <= buffer.Data()
                && socket.failed == old(socket.failed)
      ensures r.Ok? && old(Aligned(at, base)) ==>
                && Aligned(at, base)
                && socket.chunks[base..] != [] && DropLast(socket.chunks[base..]) == old(socket.chunks[base..])
      ensures r.Err? ==> socket.failed || TooLong(buffer, r.error, start, base)
    {
      hide Ring, IsPowerOfTwo, Concat, Admitted;
      r, taken' := FillMore(buffer, stream, start, base, at, taken);
      if r.Ok? {
        r := DrainRing(buffer);
      }
    }

    /** The search begun or resumed: it finds the first occurrence in all of `buffer`, if there is one. */
    method SearchBuffer(buffer: Buffer, delim: seq<byte>, searchOffset: nat, ghost before: seq<byte>)
      returns (res: nat)
      requires buffer.Valid() && delim != [] && before <= buffer.Data()
      requires searchOffset == 0 || (searchOffset == |before| && Absent(before, delim))
      ensures res <= buffer.used
      ensures if res != buffer.used then FirstAt(buffer.Data(), delim, res) else Absent(buffer.Data(), delim)
    {
      var back := if searchOffset < |delim| - 1 then searchOffset else |delim| - 1;
      res := Search(buffer.Data(), delim, searchOffset - back);
      if searchOffset > 0 {
        ResumedSearch(before, buffer.Data(), delim, searchOffset - back);
      }
    }

    /** One round of `FindDelimiter`: read, then search what has been searched in part before. */
    method ReadAndSearch(buffer: Buffer, delim: seq<byte>, searchOffset: nat, ghost stream: seq<byte>,
                         ghost start: seq<byte>, ghost base: nat, ghost at: nat, ghost taken: seq<byte>)
      returns (r: Result<nat>, ghost taken': seq<byte>)
      requires Taking(buffer, stream, start, base, taken) && delim != []
      requires searchOffset == 0 || (searchOffset == buffer.used && Absent(buffer.Data(), delim))
      requires start == [] ==> Aligned(at, base) && Absent(buffer.Data(), delim)
      requires buffer.maxSize + ring.Capacity() <= SIZE_MAX
      modifies ring, ring.buffer, buffer`storage, buffer`capacity, buffer`used, buffer.storage,
               socket`incoming, socket`chunks, socket`calls, socket`failed
      ensures buffer.storage == old(buffer.storage) || fresh(buffer.storage)
      ensures Valid() && buffer.Valid() && old(socket.chunks) <= socket.chunks
      ensures old(socket.failed) ==> socket.failed
      ensures r.Ok? ==>
                && Taking(buffer, stream, start, base, taken')
                && ring.Contents() == [] && taken' == buffer.Data()
                && old(buffer.used) < buffer.used && r.value <= buffer.used
                && socket.failed == old(socket.failed)
      ensures r.Ok? && r.value == buffer.used ==> Absent(buffer.Data(), delim) && (start == [] ==> Aligned(at, base))
      ensures r.Ok? && r.value < buffer.used ==>
                && FirstAt(taken', delim, r.value)
                && (start == [] ==> IsSplit(ring.Capacity(), at, stream, delim, socket.chunks[base..]))
      ensures r.Err? ==> socket.failed || TooLong(buffer, r.error, start, base)
    {
      hide Ring, IsPowerOfTwo, Concat, Admitted, Absent, FirstAt;
      ghost var before, earlier := buffer.Data(), socket.chunks[base..];
      var more;
      more, taken' := TakeMore(buffer, stream, start, base, at, taken);
      if more.Err? {
        return Err(more.error), taken';
      }
      assert taken' == buffer.Data();
      var res := SearchBuffer(buffer, delim, searchOffset, before);
      if res != buffer.used && start == [] {
        Completed(ring.Capacity(), at, stream, delim, start, earlier, socket.chunks[base..], before, taken',
                  socket.incoming, res);
      }
      r := Ok(res);
    }

    /**
     Read into `buffer` until it contains `delim`, and return the first occurrence. The delimiter may straddle
     reads: each search resumes `|delim| - 1` bytes before the part searched already.
     */
    method FindDelimiter(buffer: Buffer, delim: seq<byte>) returns (r: Result<nat>, ghost taken: seq<byte>)
      requires Valid() && buffer.Valid() && buffer.storage != ring.buffer && delim != []
      requires buffer.maxSize + ring.Capacity() <= SIZE_MAX
      modifies ring, ring.buffer, buffer`storage, buffer`capacity, buffer`used, buffer.storage,
               socket`incoming, socket`chunks, socket`calls, socket`failed
      ensures buffer.storage == old(buffer.storage) || fresh(buffer.storage)
      ensures Valid() && buffer.Valid() && old(socket.chunks) <= socket.chunks
      ensures old(socket.failed) ==> socket.failed
      ensures r.Ok? ==>
                && Taking(buffer, old(buffer.Data() + Pending()), old(buffer.Data() + ring.Contents()),
                          |old(socket.chunks)|, taken)
                && ring.Contents() == [] && taken == buffer.Data()
                && FirstAt(taken, delim, r.value)
                && r.value < buffer.used
                && socket.failed == old(socket.failed)
      ensures r.Ok? && old(buffer.Data() + ring.Contents()) == [] ==>
                IsSplit(ring.Capacity(), old(ring.head), old(buffer.Data() + Pending()), delim,
                        socket.chunks[|old(socket.chunks)|..])
      ensures r.Err? ==>
                socket.failed || TooLong(buffer, r.error, old(buffer.Data() + ring.Contents()), |old(socket.chunks)|)
    {
      hide Ring, IsPowerOfTwo, Concat, Admitted, Absent, FirstAt, IsSplit;
      ghost var stream, start := buffer.Data() + Pending(), buffer.Data() + ring.Contents();
      ghost var base, at := |socket.chunks|, ring.head;
      var searchOffset: nat := 0;
      taken := start;
      Begin(stream, buffer.Data(), ring.Contents(), socket.incoming, socket.chunks, ring.Capacity(), at);
      while true
        invariant Taking(buffer, stream, start, base, taken)
        invariant buffer.storage == old(buffer.storage) || fresh(buffer.storage)
        invariant buffer.maxSize == old(buffer.maxSize)
        invariant searchOffset == 0 || (searchOffset == buffer.used && Absent(buffer.Data(), delim))
        invariant old(socket.chunks) <= socket.chunks
        invariant socket.failed == old(socket.failed)
        invariant start == [] ==> Aligned(at, base) && Absent(buffer.Data(), delim)
        decreases |stream| - buffer.used
      {
        r, taken := ReadAndSearch(buffer, delim, searchOffset, stream, start, base, at, taken);
        if r.Err? || r.value != buffer.used {
          return;
        }
        searchOffset := buffer.used;
      }
    }

    /**
     Read into `buffer` up to the first occurrence of `delim`, and give the bytes from there on back to the ring.
     When that is possible nothing of the stream is lost or reordered; it is not possible exactly when more bytes
     than the ring holds have been read from the delimiter on. When nothing has been buffered before, that cannot
     happen if the stream meets the condition of `OverflowIff`, or if every read was short enough.
     */
    method ReadUntil(buffer: Buffer, delim: seq<byte>) returns (r: Until)
      requires Valid() && buffer.Valid() && buffer.storage != ring.buffer && delim != []
      requires buffer.maxSize + ring.Capacity() <= SIZE_MAX
      modifies ring, ring.buffer, buffer`storage, buffer`capacity, buffer`used, buffer.storage,
               socket`incoming, socket`chunks, socket`calls, socket`failed
      ensures Valid() && buffer.Valid()
      ensures old(socket.chunks) <= socket.chunks
      ensures old(socket.failed) ==> socket.failed
      ensures !r.Failed? ==>
                && buffer.Data() + Pending() == old(buffer.Data() + Pending())
                && buffer.Data() + ring.Contents() ==
                   old(buffer.Data() + ring.Contents()) + Concat(socket.chunks[|old(socket.chunks)|..])
                && socket.failed == old(socket.failed)
      ensures r.Found? ==> FirstAt(old(buffer.Data() + Pending()), delim, buffer.used)
      ensures !r.Failed? ==>
                exists p: nat :: FirstAt(buffer.Data() + ring.Contents(), delim, p) &&
                  (r.Found? <==> |buffer.Data() + ring.Contents()| - p <= ring.Capacity())
      ensures !r.Failed? && old(buffer.Data() + ring.Contents()) == [] ==>
                IsSplit(ring.Capacity(), old(ring.head), old(Pending()), delim, socket.chunks[|old(socket.chunks)|..])
      ensures old(buffer.Data() + ring.Contents()) == [] && ReadsFit(|old(socket.chunks)|, delim) ==>
                !r.PushBackOverflow?
      ensures old(buffer.Data() + ring.Contents()) == [] &&
              NeverOverflows(ring.Capacity(), old(ring.head), old(Pending()), delim) ==>
                !r.PushBackOverflow?
      ensures r.Failed? ==>
                socket.failed || TooLong(buffer, r.error, old(buffer.Data() + ring.Contents()), |old(socket.chunks)|)
    {
      hide Ring, IsPowerOfTwo, Occurs, Concat, FirstAt, Absent, IsSplit, NeverOverflows;
      var res, taken := FindDelimiter(buffer, delim);
      if res.Err? {
        return Failed(res.error);
      }
      FirstInPrefix(taken, socket.incoming, delim, res.value);
      if old(buffer.Data() + ring.Contents()) == [] {
        assert old(buffer.Data() + Pending()) == old(Pending());
        FitsTheRing(delim, res.value, |old(socket.chunks)|, old(ring.head), old(Pending()), taken);
      }
      r := GiveBack(buffer, res.value);
      assert FirstAt(buffer.Data() + ring.Contents(), delim, res.value);
    }

    /** Short reads, or a stream that never overflows: what is read from the delimiter on fits the ring. */
    lemma FitsTheRing(delim: seq<byte>, p: nat, base: nat, at: nat, stream: seq<byte>, taken: seq<byte>)
      requires Valid() && delim != [] && FirstAt(stream, delim, p) && base <= |socket.chunks|
      requires taken == Concat(socket.chunks[base..])
      requires IsSplit(ring.Capacity(), at, stream, delim, socket.chunks[base..])
      ensures ReadsFit(base, delim) || NeverOverflows(ring.Capacity(), at, stream, delim) ==>
                |taken| - p <= ring.Capacity()
    {
      hide IsPowerOfTwo, FirstAt, Concat;
      var chunks := socket.chunks[base..];
      if ReadsFit(base, delim) {
        SmallReadsFit(ring.Capacity(), at, stream, delim, p, chunks);
      } else if NeverOverflows(ring.Capacity(), at, stream, delim) {
        FirstIsUnique(stream, delim);
        NoSplitOverflows(ring.Capacity(), at, stream, delim, p, chunks);
      }
    }

    /** Give back everything from `at` on: conserves the stream, unless the ring's assertion fails. */
    method GiveBack(buffer: Buffer, at: nat) returns (r: Until)
      requires Valid() && buffer.Valid() && buffer.storage != ring.buffer
      requires ring.Contents() == [] && at < buffer.used
      modifies ring, ring.buffer, buffer`storage, buffer`capacity, buffer`used
      ensures Valid() && buffer.Valid()
      ensures buffer.Data() + Pending() == old(buffer.Data()) + socket.incoming
      ensures buffer.Data() + ring.Contents() == old(buffer.Data())
      ensures r == if old(buffer.used) - at <= ring.Capacity() then Found else PushBackOverflow
      ensures r.Found? ==> buffer.used == at
    {
      hide IsPowerOfTwo, Ring;
      ghost var data := buffer.Data();
      r := PutBack(buffer, at);
      assert data[..at] + data[at..] == data && data + [] == data;
      Assoc(buffer.Data(), ring.Contents(), socket.incoming);
    }

    /** Move `buffer`'s bytes from `at` on back into the empty ring, which must be able to hold them. */
    method PutBack(buffer: Buffer, at: nat) returns (r: Until)
      requires Valid() && buffer.Valid() && buffer.storage != ring.buffer
      requires ring.Contents() == [] && at < buffer.used
      modifies ring, ring.buffer, buffer`storage, buffer`capacity, buffer`used
      ensures Valid() && buffer.Valid()
      ensures if old(buffer.used) - at <= ring.Capacity()
              then
                && r == Found
                && buffer.Data() == old(buffer.Data())[..at] && ring.Contents() == old(buffer.Data())[at..]
              else r == PushBackOverflow && buffer.Data() == old(buffer.Data()) && ring.Contents() == []
    {
      if buffer.used - at > ring.Available() {
        return PushBackOverflow;
      }
      ring.Push(buffer.Data()[at..]);
      var resized := buffer.Resize(at);
      r := Found;
    }

    /** Write all of `src[off..off + len]`; after a failure some prefix of it has been written. */
    method Write(src: array<byte>, off: nat, len: nat) returns (r: Result<()>)
      requires off + len <= src.Length
      modifies socket`outgoing, socket`calls, socket`failed
      ensures Wrote(old(socket.outgoing), socket.outgoing, src[off..off + len], r.Ok?)
      ensures if r.Ok? then socket.failed == old(socket.failed) else socket.failed
    {
      var totalWritten: nat, remaining: nat := 0, len;
      ghost var data := src[..][off..off + len];
      while remaining > 0
        invariant totalWritten + remaining == len
        invariant src[..][off..off + len] == data
        invariant socket.outgoing == old(socket.outgoing) + data[..totalWritten]
        invariant socket.failed == old(socket.failed)
      {
        var res := socket.WriteSome(src, off + totalWritten, remaining);
        if res.Err? {
          return Err(res.error);
        }
        SliceOfSlice(src[..], off, len, totalWritten, totalWritten + res.value);
        FrontGrows(old(socket.outgoing), data, totalWritten, totalWritten + res.value);
        totalWritten := totalWritten + res.value;
        remaining := remaining - res.value;
      }
      r := Ok(());
    }
  }

  lemma ReadBufferSizeIsPowerOfTwo()
    ensures IsPowerOfTwo(READ_BUFFER_SIZE)
  {
    assert BitAnd(4096, 4095) == 0 by {
      assert BitAnd(1, 0) == 0;
      assert BitAnd(2, 1) == 0;
      assert BitAnd(4, 3) == 0;
      assert BitAnd(8, 7) == 0;
      assert BitAnd(16, 15) == 0;
      assert BitAnd(32, 31) == 0;
      assert BitAnd(64, 63) == 0;
      assert BitAnd(128, 127) == 0;
      assert BitAnd(256, 255) == 0;
      assert BitAnd(512, 511) == 0;
      assert BitAnd(1024, 1023) == 0;
      assert BitAnd(2048, 2047) == 0;
    }
  }
}
