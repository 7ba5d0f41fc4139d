/**
 Searching a stream for a delimiter while it arrives in pieces: the search that is resumed, and when the bytes read
 from the delimiter on fit the ring they came through.
 */
module Delimiters {
  import opened Bits
  import opened Seqs

  type byte = bv8

  /** `d` occurs in `h` at `p`. */
  predicate Occurs(h: seq<byte>, d: seq<byte>, p: int) {
    0 <= p && p + |d| <= |h| && h[p..p + |d|] == d
  }

  /** The first occurrence of `d` in `h` is at `p`. */
  ghost predicate FirstAt(h: seq<byte>, d: seq<byte>, p: int) {
    Occurs(h, d, p) && forall q | 0 <= q < p :: !Occurs(h, d, q)
  }

  /** `std::search` from `from` on: the first occurrence there, or the end of `h`. */
  function Search(h: seq<byte>, d: seq<byte>, from: nat): (p: nat)
    requires from <= |h| && d != []
    ensures from <= p <= |h|
    ensures p < |h| ==> Occurs(h, d, p)
    ensures forall q | from <= q < p :: !Occurs(h, d, q)
    decreases |h| - from
  {
    if from == |h| || Occurs(h, d, from) then from else Search(h, d, from + 1)
  }

  /** The delimiter does not occur in `h`. */
  ghost predicate Absent(h: seq<byte>, d: seq<byte>) {
    forall q :: !Occurs(h, d, q)
  }

  /** What the reads delivered, put together again. */
  ghost function Concat(chunks: seq<seq<byte>>): seq<byte> {
    if chunks == [] then [] else Concat(chunks[..|chunks| - 1]) + chunks[|chunks| - 1]
  }

  lemma ConcatSnoc(chunks: seq<seq<byte>>, c: seq<byte>)
    ensures Concat(chunks + [c]) == Concat(chunks) + c
  {
    assert (chunks + [c])[..|chunks|] == chunks;
  }

  lemma ConcatMore(start: seq<byte>, chunks: seq<seq<byte>>, base: nat, got: seq<byte>, chunks': seq<seq<byte>>)
    requires base <= |chunks| && chunks' == chunks + if got == [] then [] else [got]
    ensures start + Concat(chunks'[base..]) == start + Concat(chunks[base..]) + got
  {
    if got == [] {
      assert chunks' == chunks;
    } else {
      ConcatSnoc(chunks[base..], got);
      assert chunks'[base..] == chunks[base..] + [got];
      Assoc(start, Concat(chunks[base..]), got);
    }
  }

  /** Within a prefix, occurrences are those of the whole. */
  lemma OccursInPrefix(h: seq<byte>, more: seq<byte>, d: seq<byte>, q: int)
    requires q + |d| <= |h|
    ensures Occurs(h + more, d, q) <==> Occurs(h, d, q)
  {
    assert 0 <= q ==> (h + more)[q..q + |d|] == h[q..q + |d|];
  }

  /** An occurrence in `h + more` that is not one in `h` starts at most `|d| - 1` bytes before the end of `h`. */
  lemma SearchResumes(h: seq<byte>, more: seq<byte>, d: seq<byte>)
    requires d != [] && Absent(h, d)
    ensures forall q | q < |h| - (|d| - 1) :: !Occurs(h + more, d, q)
  {
    forall q | q < |h| - (|d| - 1) ensures !Occurs(h + more, d, q) {
      OccursInPrefix(h, more, d, q);
    }
  }

  /** The resumed search agrees with a search from scratch. */
  lemma ResumedSearch(h: seq<byte>, h': seq<byte>, d: seq<byte>, from: nat)
    requires d != [] && h <= h' && Absent(h, d)
    requires from == |h| - if |h| < |d| - 1 then |h| else |d| - 1
    ensures Search(h', d, from) < |h'| ==> FirstAt(h', d, Search(h', d, from))
    ensures Search(h', d, from) == |h'| ==> Absent(h', d)
  {
    assert h' == h + h'[|h|..];
    SearchResumes(h, h'[|h|..], d);
  }

  /** The first occurrence in a prefix is the first in the whole. */
  lemma FirstInPrefix(h: seq<byte>, more: seq<byte>, d: seq<byte>, p: nat)
    requires FirstAt(h, d, p)
    ensures FirstAt(h + more, d, p)
  {
    OccursInPrefix(h, more, d, p);
    forall q | 0 <= q < p ensures !Occurs(h + more, d, q) {
      OccursInPrefix(h, more, d, q);
    }
  }

  // ---- how a ring splits a stream --------------------------------------------------------------------------------

  /**
     The reads that a ring of `capacity` bytes admits when it is empty at index `at` and emptied after each of them:
     no read reaches beyond the end of the array.
   */
  ghost predicate Admitted(capacity: nat, at: nat, chunks: seq<seq<byte>>)
    requires capacity > 0
  {
    chunks == [] ||
    var front, last := chunks[..|chunks| - 1], chunks[|chunks| - 1];
    && Admitted(capacity, at, front)
    && 1 <= |last| <= capacity - (at + |Concat(front)|) % capacity
  }

  /** The reads of a call that finds `d` in `stream`: the last of them completes its first occurrence. */
  ghost predicate IsSplit(capacity: nat, at: nat, stream: seq<byte>, d: seq<byte>, chunks: seq<seq<byte>>)
    requires capacity > 0
  {
    && chunks != [] && Admitted(capacity, at, chunks) && Concat(chunks) <= stream
    && Absent(Concat(chunks[..|chunks| - 1]), d) && !Absent(Concat(chunks), d)
  }

  /** An occurrence lies beyond every prefix without one. */
  lemma BeyondPrefix(h: seq<byte>, stream: seq<byte>, d: seq<byte>, p: nat)
    requires h <= stream && Occurs(stream, d, p) && Absent(h, d)
    ensures |h| < p + |d|
  {
    if p + |d| <= |h| {
      assert stream == h + stream[|h|..];
      OccursInPrefix(h, stream[|h|..], d, p);
    }
  }

  /** A prefix is without the delimiter exactly while it ends before the first occurrence does. */
  lemma AbsentUntil(stream: seq<byte>, n: nat, d: seq<byte>, p: nat)
    requires n <= |stream| && FirstAt(stream, d, p)
    ensures Absent(stream[..n], d) <==> n < p + |d|
  {
    assert stream == stream[..n] + stream[n..];
    forall q | q + |d| <= n ensures Occurs(stream[..n], d, q) <==> Occurs(stream, d, q) {
      OccursInPrefix(stream[..n], stream[n..], d, q);
    }
    if p + |d| <= n {
      assert Occurs(stream[..n], d, p);
    }
  }

  /** The last read of a split is short enough: the bytes from the delimiter on fit the ring. */
  lemma SmallReadsFit(capacity: nat, at: nat, stream: seq<byte>, d: seq<byte>, p: nat, chunks: seq<seq<byte>>)
    requires capacity > 0 && d != [] && IsSplit(capacity, at, stream, d, chunks) && FirstAt(stream, d, p)
    requires |chunks[|chunks| - 1]| + |d| - 1 <= capacity
    ensures |Concat(chunks)| - p <= capacity
  {
    BeyondPrefix(Concat(chunks[..|chunks| - 1]), stream, d, p);
  }

  /** A read that starts before the end of `n` bytes from `y` on, which lie in one block, ends within that block. */
  lemma WithinBlock(capacity: nat, x: nat, y: nat, n: nat, len: nat)
    requires capacity > 0 && x < y + n && y % capacity + n <= capacity && len <= capacity - x % capacity
    ensures x + len - y <= capacity
  {
    var i, j := x / capacity, y / capacity;
    assert x == capacity * i + x % capacity && y == capacity * j + y % capacity;
    if i > j {
      Multiples(capacity, j, i);
    } else if i < j {
      Multiples(capacity, i, j);
    }
  }

  lemma {:induction false} Multiples(c: nat, i: nat, j: nat)
    requires i < j
    ensures c * i + c <= c * j
    decreases j
  {
    assert c * (j - 1) + c == c * j;
    if i < j - 1 {
      Multiples(c, i, j - 1);
    }
  }

  /**
     Where no split overflows: the delimiter lies within one block of the ring, or no more than the ring holds
     follows from it on.
   */
  lemma NoSplitOverflows(capacity: nat, at: nat, stream: seq<byte>, d: seq<byte>, p: nat, chunks: seq<seq<byte>>)
    requires capacity > 0 && FirstAt(stream, d, p) && IsSplit(capacity, at, stream, d, chunks)
    requires (at + p) % capacity + |d| <= capacity || |stream| - p <= capacity
    ensures |Concat(chunks)| - p <= capacity
  {
    hide Occurs, Absent;
    if |stream| - p > capacity {
      var front, last := chunks[..|chunks| - 1], chunks[|chunks| - 1];
      BeyondPrefix(Concat(front), stream, d, p);
      WithinBlock(capacity, at + |Concat(front)|, at + p, |d|, |last|);
    }
  }

  /** Reading as much as the ring admits, or all there is. */
  lemma FullRead(capacity: nat, at: nat, stream: seq<byte>, before: seq<seq<byte>>) returns (chunks: seq<seq<byte>>)
    requires capacity > 0 && Admitted(capacity, at, before) && Concat(before) <= stream && |Concat(before)| < |stream|
    ensures chunks != [] && chunks[..|chunks| - 1] == before && Admitted(capacity, at, chunks)
    ensures Concat(chunks) <= stream && |Concat(before)| < |Concat(chunks)|
    ensures |Concat(chunks)| == |stream| || (at + |Concat(chunks)|) % capacity == 0
  {
    var n := |Concat(before)|;
    var span := capacity - (at + n) % capacity;
    var len := if span < |stream| - n then span else |stream| - n;
    var c := stream[n..n + len];
    chunks := before + [c];
    ConcatSnoc(before, c);
    assert chunks[..|chunks| - 1] == before;
    assert stream[..n] + c == stream[..n + len];
    NextBlock(capacity, at + n);
  }

  /** The same again until the delimiter is there. */
  lemma {:induction false} FullReads(capacity: nat, at: nat, stream: seq<byte>, d: seq<byte>, p: nat,
                                     before: seq<seq<byte>>) returns (chunks: seq<seq<byte>>)
    requires capacity > 0 && FirstAt(stream, d, p)
    requires Admitted(capacity, at, before) && Concat(before) <= stream && |Concat(before)| < p + |d|
    ensures IsSplit(capacity, at, stream, d, chunks)
    ensures |Concat(chunks)| == |stream| || (at + |Concat(chunks)|) % capacity == 0
    decreases |stream| - |Concat(before)|
  {
    hide Admitted, Absent, Concat, FirstAt;
    FirstEnds(stream, d, p);
    chunks := FullRead(capacity, at, stream, before);
    PrefixWithout(stream, Concat(before), d, p);
    PrefixWithout(stream, Concat(chunks), d, p);
    if |Concat(chunks)| < p + |d| {
      chunks := FullReads(capacity, at, stream, d, p, chunks);
    }
  }

  lemma FirstEnds(stream: seq<byte>, d: seq<byte>, p: nat)
    requires FirstAt(stream, d, p)
    ensures p + |d| <= |stream|
  {
  }

  lemma PrefixWithout(stream: seq<byte>, h: seq<byte>, d: seq<byte>, p: nat)
    requires h <= stream && FirstAt(stream, d, p)
    ensures Absent(h, d) <==> |h| < p + |d|
  {
    assert h == stream[..|h|];
    AbsentUntil(stream, |h|, d, p);
  }

  lemma NextBlock(capacity: nat, x: nat)
    requires capacity > 0
    ensures (x + (capacity - x % capacity)) % capacity == 0
  {
    var i := x / capacity;
    assert x == capacity * i + x % capacity;
    assert capacity * (i + 1) == capacity * i + capacity;
    ModUnique(x + (capacity - x % capacity), capacity, i + 1, 0);
  }

  /** Two multiples apart. */
  lemma BlocksApart(capacity: nat, y: nat, z: nat, len: nat)
    requires capacity > 0 && z % capacity == 0 && y % capacity + len > capacity && z >= y + len
    ensures z - y > capacity
  {
    var i, k := y / capacity, z / capacity;
    assert y == capacity * i + y % capacity && z == capacity * k;
    assert capacity * (i + 1) == capacity * i + capacity;
    Multiples(capacity, i + 1, k);
  }

  /**
     Which streams can make the push-back overflow, seen before anything is read: some split that the ring admits
     does so, precisely when the first delimiter straddles the end of the ring's array and more than the ring holds
     follows from it on.
   */
  lemma OverflowIff(capacity: nat, at: nat, stream: seq<byte>, d: seq<byte>, p: nat)
    requires capacity > 0 && d != [] && FirstAt(stream, d, p)
    ensures (exists chunks :: IsSplit(capacity, at, stream, d, chunks) && |Concat(chunks)| - p > capacity) <==>
            (at + p) % capacity + |d| > capacity && |stream| - p > capacity
  {
    hide FirstAt, Admitted;
    if (at + p) % capacity + |d| > capacity && |stream| - p > capacity {
      NoReads(capacity, at);
      var chunks := FullReads(capacity, at, stream, d, p, []);
      SplitReaches(capacity, at, stream, d, p, chunks);
      if |Concat(chunks)| < |stream| {
        BlocksApart(capacity, at + p, at + |Concat(chunks)|, |d|);
      }
    } else {
      forall chunks | IsSplit(capacity, at, stream, d, chunks) ensures |Concat(chunks)| - p <= capacity {
        NoSplitOverflows(capacity, at, stream, d, p, chunks);
      }
    }
  }

  /** The condition of `OverflowIff`, on the stream as it is before the call. */
  ghost predicate NeverOverflows(capacity: nat, at: nat, stream: seq<byte>, d: seq<byte>)
    requires capacity > 0
  {
    exists p: nat :: FirstAt(stream, d, p) && ((at + p) % capacity + |d| <= capacity || |stream| - p <= capacity)
  }

  lemma FirstIsUnique(stream: seq<byte>, d: seq<byte>)
    ensures forall p, q :: FirstAt(stream, d, p) && FirstAt(stream, d, q) ==> p == q
  {
  }

  function DropLast(chunks: seq<seq<byte>>): seq<seq<byte>>
    requires chunks != []
  {
    chunks[..|chunks| - 1]
  }

  lemma NoReads(capacity: nat, at: nat)
    requires capacity > 0
    ensures Admitted(capacity, at, []) && Concat([]) == []
  {
  }

  /** The reads of a split reach the end of the first occurrence. */
  lemma SplitReaches(capacity: nat, at: nat, stream: seq<byte>, d: seq<byte>, p: nat, chunks: seq<seq<byte>>)
    requires capacity > 0 && FirstAt(stream, d, p) && IsSplit(capacity, at, stream, d, chunks)
    ensures p + |d| <= |Concat(chunks)| <= |stream|
  {
    var n := |Concat(chunks)|;
    assert Concat(chunks) == stream[..n];
    AbsentUntil(stream, n, d, p);
  }

  /** One more read, and where the ring's head is after it. */
  lemma AdmittedMore(capacity: nat, at: nat, chunks: seq<seq<byte>>, c: seq<byte>, head: nat, head': nat)
    requires capacity > 0 && Admitted(capacity, at, chunks) && head == (at + |Concat(chunks)|) % capacity
    requires 1 <= |c| <= capacity - head
    requires head' == if head + |c| < capacity then head + |c| else head + |c| - capacity
    ensures Admitted(capacity, at, chunks + [c]) && head' == (at + |Concat(chunks + [c])|) % capacity
  {
    hide Concat;
    ConcatSnoc(chunks, c);
    assert (chunks + [c])[..|chunks|] == chunks;
    HeadAfter(capacity, at + |Concat(chunks)|, |c|, head, head');
  }

  lemma HeadAfter(capacity: nat, x: nat, len: nat, head: nat, head': nat)
    requires capacity > 0 && head == x % capacity && len <= capacity - head
    requires head' == if head + len < capacity then head + len else head + len - capacity
    ensures head' == (x + len) % capacity
  {
    var i := x / capacity;
    assert x == capacity * i + head;
    assert capacity * (i + 1) == capacity * i + capacity;
    ModUnique(x + len, capacity, if head + len < capacity then i else i + 1, head');
  }

  /** The same for a list that other reads precede. */
  lemma ReadIsAdmitted(all: seq<seq<byte>>, base: nat, c: seq<byte>, at: nat, capacity: nat, head: nat, head': nat)
    requires base <= |all| && capacity > 0 && 1 <= |c| <= capacity - head
    requires Admitted(capacity, at, all[base..]) && head == (at + |Concat(all[base..])|) % capacity
    requires head' == if head + |c| < capacity then head + |c| else head + |c| - capacity
    ensures var chunks := (all + [c])[base..];
            && chunks != [] && DropLast(chunks) == all[base..]
            && Admitted(capacity, at, chunks) && head' == (at + |Concat(chunks)|) % capacity
  {
    hide Admitted, Concat;
    assert (all + [c])[base..] == all[base..] + [c];
    AdmittedMore(capacity, at, all[base..], c, head, head');
  }

  /** Nothing has been read yet. */
  lemma Begin(stream: seq<byte>, data: seq<byte>, items: seq<byte>, rest: seq<byte>, all: seq<seq<byte>>,
              capacity: nat, head: nat)
    requires capacity > 0 && head < capacity && stream == data + (items + rest)
    ensures data + items + Concat(all[|all|..]) == data + items && data + items + rest == stream
    ensures Admitted(capacity, head, all[|all|..]) && head == (head + |Concat(all[|all|..])|) % capacity
    ensures forall d: seq<byte> :: d != [] && data + items == [] ==> Absent(data, d)
  {
    assert all[|all|..] == [];
    ModUnique(head, capacity, 0, head);
  }

  /** The read that completes the delimiter, when nothing was there to `start` with. */
  lemma Completed(capacity: nat, at: nat, stream: seq<byte>, d: seq<byte>, start: seq<byte>,
                  earlier: seq<seq<byte>>, chunks: seq<seq<byte>>, before: seq<byte>, taken: seq<byte>,
                  rest: seq<byte>, p: nat)
    requires capacity > 0 && chunks != [] && DropLast(chunks) == earlier && Admitted(capacity, at, chunks)
    requires start == [] && before + [] == start + Concat(earlier)
    requires taken == start + Concat(chunks) && taken + rest == stream
    requires Absent(before, d) && FirstAt(taken, d, p)
    ensures IsSplit(capacity, at, stream, d, chunks)
  {
    hide Concat, Admitted;
    assert before == before + [] == [] + Concat(earlier) == Concat(earlier);
    assert taken == [] + Concat(chunks) == Concat(chunks);
    assert Occurs(taken, d, p);
  }

  /**
     Two full reads of a fresh ring of 4096 bytes between which CR LF CR LF straddles: three bytes more than it holds
     must be given back.
   */
  lemma PushBackOverflows() returns (first: seq<byte>, second: seq<byte>)
    ensures |first| == |second| == 4096
    ensures var d := [13, 10, 13, 10];
            && IsSplit(4096, 0, first + second, d, [first, second])
            && FirstAt(first + second, d, 4093)
            && |Concat([first, second])| - 4093 == 4096 + 3
  {
    first, second := seq(4093, _ => 65) + [13, 10, 13], [10] + seq(4095, _ => 65);
    var d: seq<byte> := [13, 10, 13, 10];
    forall q ensures Occurs(first, d, q) ==> false {
      assert 0 <= q < 4093 ==> first[q..q + 4][3] == first[q + 3] && first[q..q + 4][0] == first[q];
    }
    forall q | 0 <= q < 4093 ensures !Occurs(first + second, d, q) {
      assert (first + second)[q..q + 4][0] == (first + second)[q] == 65;
    }
    assert Occurs(first + second, d, 4093);
    assert [] + [first] == [first] && [first] + [second] == [first, second];
    ConcatSnoc([], first);
    ConcatSnoc([first], second);
    assert [] + first == first;
    AdmittedMore(4096, 0, [], first, 0, 0);
    AdmittedMore(4096, 0, [first], second, 0, 0);
    assert [first, second][..1] == [first];
  }
}
