/**
 The power-of-two ring buffer. Its abstract value is the sequence `Contents()`, oldest item first;
 every operation is specified by what it does to that sequence.
 */
module CircularBuffer {
  import opened Bits
  import opened Seqs

  /** The items between `tail` and `head` of a ring held in `d`, oldest first. */
  ghost function Ring<T>(d: seq<T>, head: nat, tail: nat, full: bool): (s: seq<T>)
    requires head < |d| && tail < |d|
  {
    if head < tail || full then d[tail..] + d[..head] else d[tail..head]
  }

  /** The `i`-th oldest item sits `i` slots after `tail`, wrapping around. */
  lemma RingAt<T>(d: seq<T>, head: nat, tail: nat, full: bool)
    requires head < |d| && tail < |d| && (full ==> head == tail)
    ensures |Ring(d, head, tail, full)| ==
            if full then |d| else if head < tail then |d| + head - tail else head - tail
    ensures forall i | 0 <= i < |Ring(d, head, tail, full)| ::
              Ring(d, head, tail, full)[i] == d[if tail + i < |d| then tail + i else tail + i - |d|]
  {
  }

  /** `d'` is `d` with the first `k` items of `src` written from `head` on and the others at the start. */
  ghost predicate Written<T>(d: seq<T>, head: nat, src: seq<T>, k: nat, d': seq<T>)
    requires k <= |src| && head + k <= |d|
  {
    && |d'| == |d|
    && forall i | 0 <= i < |d| ::
         d'[i] == if i < |src| - k then src[k + i] else if head <= i < head + k then src[i - head] else d[i]
  }

  /** Writing `src` from `head` on, wrapping around, appends it to the ring. */
  lemma RingPush<T>(d: seq<T>, head: nat, tail: nat, full: bool, src: seq<T>, k: nat, d': seq<T>, head': nat)
    requires head < |d| && tail < |d| && (full ==> head == tail)
    requires src != [] && |src| + |Ring(d, head, tail, full)| <= |d|
    requires k == if |src| < |d| - head then |src| else |d| - head
    requires Written(d, head, src, k, d')
    requires head' == if head + |src| < |d| then head + |src| else head + |src| - |d|
    ensures Ring(d', head', tail, head' == tail) == Ring(d, head, tail, full) + src
  {
    hide Ring;
    RingAt(d, head, tail, full);
    RingAt(d', head', tail, head' == tail);
    assert |Ring(d', head', tail, head' == tail)| == |Ring(d, head, tail, full) + src|;
  }

  /** Advancing `tail` over `n` stored items drops them; they sit in at most two runs. */
  lemma RingPop<T>(d: seq<T>, head: nat, tail: nat, full: bool, n: nat, k: nat, tail': nat)
    requires head < |d| && tail < |d| && (full ==> head == tail)
    requires 0 < n <= |Ring(d, head, tail, full)|
    requires k == if n < |d| - tail then n else |d| - tail
    requires tail' == if tail + n < |d| then tail + n else tail + n - |d|
    ensures Ring(d, head, tail', false) == Ring(d, head, tail, full)[n..]
    ensures d[tail..tail + k] + d[..n - k] == Ring(d, head, tail, full)[..n]
  {
    hide Ring;
    RingAt(d, head, tail, full);
    RingAt(d, head, tail', false);
  }

  lemma RingPopOne<T>(d: seq<T>, head: nat, tail: nat, full: bool, tail': nat)
    requires head < |d| && tail < |d| && (full ==> head == tail) && (full || head != tail)
    requires tail' == if tail + 1 < |d| then tail + 1 else 0
    ensures [d[tail]] + Ring(d, head, tail', false) == Ring(d, head, tail, full)
  {
    hide Ring;
    RingAt(d, head, tail, full);
    RingAt(d, head, tail', false);
  }

  /** `len` slots from `from` on, wrapping around. */
  function Slots<T>(d: seq<T>, from: nat, len: nat): (s: seq<T>)
    requires from < |d| && len <= |d|
    ensures |s| == len
  {
    if from + len <= |d| then d[from..from + len] else d[from..] + d[..from + len - |d|]
  }

  lemma SlotsAt<T>(d: seq<T>, from: nat, len: nat)
    requires from < |d| && len <= |d|
    ensures forall i | 0 <= i < len :: Slots(d, from, len)[i] == d[if from + i < |d| then from + i else from + i - |d|]
  {
  }

  /** Advancing `head` over slots that are free appends what they hold. */
  lemma RingAdvance<T>(d: seq<T>, head: nat, tail: nat, full: bool, len: nat, head': nat)
    requires head < |d| && tail < |d| && (full ==> head == tail)
    requires len + |Ring(d, head, tail, full)| <= |d|
    requires len > 0 || full || head != tail
    requires head' == if head + len < |d| then head + len else head + len - |d|
    ensures Ring(d, head', tail, head' == tail) == Ring(d, head, tail, full) + Slots(d, head, len)
  {
    hide Ring, Slots;
    SlotsAt(d, head, len);
    RingAt(d, head, tail, full);
    RingAt(d, head', tail, head' == tail);
  }

  /** Writing `y` into the free slots at `head`, then advancing `head` past it, appends it to the ring. */
  lemma RingFill<T>(d: seq<T>, head: nat, tail: nat, y: seq<T>)
    requires head < |d| && tail < |d| && y != []
    requires |y| <= if head >= tail then |d| - head else tail - head
    ensures Ring(Splice(d, head, y), head, tail, false) == Ring(d, head, tail, false)
    ensures Splice(d, head, y)[head..head + |y|] == y
  {
  }

  class CircularBuffer<T(0)> {
    const buffer: array<T>
    var head: nat
    var tail: nat
    var full: bool

    ghost predicate Valid()
      reads this
    {
      && IsPowerOfTwo(buffer.Length)
      && head < buffer.Length
      && tail < buffer.Length
      && (full ==> head == tail)
    }

    /** The stored items, oldest first. */
    ghost function Contents(): (s: seq<T>)
      requires Valid()
      reads this, buffer
    {
      Ring(buffer[..], head, tail, full)
    }

    constructor (capacity: nat)
      requires IsPowerOfTwo(capacity)
      ensures Valid() && fresh(buffer) && buffer.Length == capacity
      ensures Contents() == []
      ensures head == 0
    {
      buffer := new T[capacity];
      head, tail, full := 0, 0, false;
    }

    predicate IsEmpty()
      reads this
    {
      head == tail && !full
    }

    function Capacity(): nat {
      buffer.Length
    }

    /** Number of stored items: always the length of the abstract sequence. */
    function Size(): (n: nat)
      requires Valid()
      reads this, buffer
      ensures n == |Contents()|
      ensures n <= Capacity()
      ensures n == 0 <==> IsEmpty()
      ensures n == Capacity() <==> full
    {
      if !full then
        if head < tail then Capacity() + head - tail else head - tail
      else Capacity()
    }

    function Available(): nat
      requires Valid()
      reads this, buffer
    {
      Capacity() - Size()
    }

    /** Push a single item. The source asserts that the buffer is not full. */
    method PushOne(data: T)
      requires Valid() && !full
      modifies this`head, this`full, buffer
      ensures Valid()
      ensures Contents() == old(Contents()) + [data]
    {
      buffer[head] := data;
      head := head + 1;
      head := Wrap(head, Capacity());
      full := head == tail;
    }

    /**
     Push all items of `src`, wrapping around once if needed. The source asserts that they fit.
     Pushing nothing onto an empty buffer is the one case that does not append: it marks the buffer full.
     */
    method Push(src: seq<T>)
      requires Valid() && |src| <= Available()
      modifies this`head, this`full, buffer
      ensures Valid()
      ensures src == [] && old(IsEmpty()) ==> full && |Contents()| == Capacity()
      ensures src != [] || !old(IsEmpty()) ==> Contents() == old(Contents()) + src
    {
      ghost var h := head;
      var len := |src|;
      var firstCopy := if len < Capacity() - head then len else Capacity() - head;
      CopyInWrapped(src, firstCopy, head);
      len := len - firstCopy;
      head := head + firstCopy;
      if len > 0 {
        head := len;
      } else {
        head := Wrap(head, Capacity());
      }
      full := head == tail;
      if src != [] {
        RingPush(old(buffer[..]), h, tail, old(full), src, firstCopy, buffer[..], head);
      }
    }

    /** Copy the first `k` items of `src` to `at` and then, if any are left, the others to the start. */
    method CopyInWrapped(src: seq<T>, k: nat, at: nat)
      requires k <= |src| && at + k <= buffer.Length && |src| - k <= at
      modifies buffer
      ensures Written(old(buffer[..]), at, src, k, buffer[..])
    {
      CopyIn(src[..k], at);
      if k < |src| {
        CopyIn(src[k..], 0);
      }
    }

    /** `std::copy` of a sequence into the backing array. */
    method CopyIn(src: seq<T>, at: nat)
      requires at + |src| <= buffer.Length
      modifies buffer
      ensures buffer[..] == Splice(old(buffer[..]), at, src)
    {
      forall i | 0 <= i < |src| {
        buffer[at + i] := src[i];
      }
    }

    /** Pop a single item; false when there is none. */
    method PopOne() returns (ok: bool, data: T)
      requires Valid()
      modifies this`tail, this`full
      ensures Valid()
      ensures ok <==> old(Contents()) != []
      ensures ok ==> [data] + Contents() == old(Contents())
      ensures !ok ==> Contents() == old(Contents())
    {
      data := buffer[tail];
      ok := !IsEmpty();
      if !ok {
        return;
      }
      tail := tail + 1;
      tail := Wrap(tail, Capacity());
      RingPopOne(buffer[..], head, old(tail), full, tail);
      full := false;
    }

    /** Pop `len` items into `dest` at `off`, in two copies when they wrap around; an empty buffer gives nothing. */
    method Pop(dest: array<T>, off: nat, len: nat)
      requires Valid() && (len <= Size() || IsEmpty())
      requires dest != buffer && off + len <= dest.Length
      modifies this`tail, this`full, dest
      ensures Valid()
      ensures old(Contents()) == [] ==> unchanged(this) && unchanged(dest)
      ensures old(Contents()) != [] ==>
                && dest[..] == Splice(old(dest[..]), off, old(Contents())[..len])
                && Contents() == old(Contents())[len..]
      ensures len > 0 ==> !full
    {
      hide IsPowerOfTwo, Ring, Splice;
      assert Size() == |Contents()|;
      if len == 0 || IsEmpty() {
        SpliceNothing(dest[..], off);
        assert Contents()[..0] == [];
        return;
      }
      ghost var t := tail;
      var firstCopy := if len < Capacity() - tail then len else Capacity() - tail;
      var rest := len - firstCopy;
      CopyOutWrapped(tail, firstCopy, rest, dest, off);
      tail := Wrap(tail + firstCopy, Capacity());
      if rest > 0 {
        tail := rest;
      }
      full := false;
      RingPop(buffer[..], head, t, old(full), len, firstCopy, tail);
    }

    /** Copy `k` items from `at` on and then, if any are left, `rest` items from the start. */
    method CopyOutWrapped(at: nat, k: nat, rest: nat, dest: array<T>, off: nat)
      requires dest != buffer && at + k <= buffer.Length && rest <= buffer.Length && off + k + rest <= dest.Length
      modifies dest
      ensures dest[..] == Splice(old(dest[..]), off, buffer[..][at..at + k] + buffer[..][..rest])
    {
      CopyOut(at, k, dest, off);
      if rest > 0 {
        CopyOut(0, rest, dest, off + k);
        SpliceSplice(old(dest[..]), off, buffer[at..at + k], buffer[..rest]);
      }
      assert buffer[..rest] == buffer[..][..rest] && buffer[at..at + k] == buffer[..][at..at + k];
    }

    method CopyOut(at: nat, len: nat, dest: array<T>, off: nat)
      requires dest != buffer && at + len <= buffer.Length && off + len <= dest.Length
      modifies dest
      ensures dest[..] == Splice(old(dest[..]), off, buffer[at..at + len])
    {
      forall i | 0 <= i < len {
        dest[off + i] := buffer[at + i];
      }
    }

    method Clear()
      requires IsPowerOfTwo(Capacity())
      modifies this
      ensures Valid() && Contents() == []
    {
      head, tail, full := 0, 0, false;
    }

    /** Offset and length of the region that can be written directly; empty exactly when the buffer is full. */
    function AvailableSpan(): (r: (nat, nat))
      requires Valid()
      reads this, buffer
      ensures r.0 == head && r.0 + r.1 <= Capacity()
      ensures r.1 <= Available() && (r.1 == Available() || r.0 + r.1 == Capacity())
      ensures r.1 == 0 <==> |Contents()| == Capacity()
    {
      if full then (head, 0)
      else if head >= tail then (head, Capacity() - head)
      else (head, tail - head)
    }

    /** Offset and length of the region that can be read directly: a prefix of the contents, empty only if all is. */
    function UsedSpan(): (r: (nat, nat))
      requires Valid()
      reads this, buffer
      ensures r.0 + r.1 <= Capacity()
      ensures buffer[r.0..r.0 + r.1] <= Contents() && (r.1 == Size() || r.0 + r.1 == Capacity())
      ensures r.1 == 0 <==> Contents() == []
    {
      if IsEmpty() then (0, 0)
      else if full then (tail, Capacity() - tail)
      else if head >= tail then (tail, head - tail)
      else (tail, Capacity() - tail)
    }

    /**
     Take over `len` items written directly into the free slots, as a rule into the available span.
     Moving by nothing on an empty buffer is the one case that does not append: it marks the buffer full.
     */
    method MoveHead(len: nat)
      requires Valid() && len <= Available()
      modifies this`head, this`full
      ensures Valid() && head == if old(head) + len < Capacity() then old(head) + len else old(head) + len - Capacity()
      ensures len == 0 && old(IsEmpty()) ==> full && |Contents()| == Capacity()
      ensures len > 0 || !old(IsEmpty()) ==>
                Contents() == old(Contents()) + Slots(buffer[..], old(head), len)
    {
      hide IsPowerOfTwo, BitAnd;
      head := head + len;
      head := Wrap(head, Capacity());
      if len > 0 || !old(IsEmpty()) {
        RingAdvance(buffer[..], old(head), tail, old(full), len, head);
      }
      full := head == tail;
    }

    /**
     Drop the `len` oldest items. Dropping nothing from a full buffer is the one case
     that does not do so: it empties the buffer.
     */
    method MoveTail(len: nat)
      requires Valid() && len <= Size()
      modifies this`tail, this`full
      ensures Valid()
      ensures len == 0 && old(full) ==> Contents() == []
      ensures len > 0 || !old(full) ==> Contents() == old(Contents())[len..]
    {
      tail := tail + len;
      tail := Wrap(tail, Capacity());
      full := false;
    }

    /** The item at `index`, counted from the oldest. */
    function At(index: nat): (item: T)
      requires Valid() && index < Size()
      reads this, buffer
      ensures item == Contents()[index]
    {
      Wrapped(tail + index, Capacity());
      RingAt(buffer[..], head, tail, full);
      buffer[BitAnd(tail + index, Capacity() - 1)]
    }
  }
}
