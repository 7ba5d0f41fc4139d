/** Overwriting a stretch of a sequence. */
module Seqs {

  /** `x` with the items from `at` on overwritten by `y`. */
  function Splice<T>(x: seq<T>, at: nat, y: seq<T>): (z: seq<T>)
    requires at + |y| <= |x|
    ensures |z| == |x|
  {
    x[..at] + y + x[at + |y|..]
  }

  /** Two adjacent overwrites are one. */
  lemma SpliceSplice<T>(x: seq<T>, at: nat, y: seq<T>, z: seq<T>)
    requires at + |y| + |z| <= |x|
    ensures Splice(Splice(x, at, y), at + |y|, z) == Splice(x, at, y + z)
  {
    var l, r := Splice(Splice(x, at, y), at + |y|, z), Splice(x, at, y + z);
    assert |l| == |r|;
    forall i | 0 <= i < |l| ensures l[i] == r[i] {
    }
  }

  /** The overwritten stretch, and what lies before it. */
  lemma SpliceParts<T>(x: seq<T>, at: nat, y: seq<T>, n: nat)
    requires at + |y| <= |x| && n <= at
    ensures Splice(x, at, y)[at..at + |y|] == y
    ensures Splice(x, at, y)[0..n] == x[0..n]
  {
  }

  lemma SpliceNothing<T>(x: seq<T>, at: nat)
    requires at <= |x|
    ensures Splice(x, at, []) == x
  {
  }

  lemma SliceOfSlice<T>(x: seq<T>, from: nat, len: nat, n: nat, m: nat)
    requires from + len <= |x| && n <= m <= len
    ensures x[from..from + len][n..m] == x[from + n..from + m]
  {
    var l, r := x[from..from + len][n..m], x[from + n..from + m];
    assert forall i | 0 <= i < |l| :: l[i] == r[i];
  }

  lemma SameTail<T>(x: seq<T>, y: seq<T>, from: nat, off: nat, len: nat)
    requires from <= off && off + len <= |x| == |y| && x[from..] == y[from..]
    ensures x[off..off + len] == y[off..off + len]
  {
    SliceOfTail(x, from, off, len);
    SliceOfTail(y, from, off, len);
  }

  lemma SliceOfTail<T>(x: seq<T>, from: nat, off: nat, len: nat)
    requires from <= off && off + len <= |x|
    ensures x[off..off + len] == x[from..][off - from..off - from + len]
  {
  }

  /** A front part grows by the piece behind it. */
  lemma FrontGrows<T>(before: seq<T>, x: seq<T>, n: nat, m: nat)
    requires n <= m <= |x|
    ensures before + x[..n] + x[n..m] == before + x[..m]
  {
  }

  lemma CutAround<T>(s: seq<T>, i: nat)
    requires i < |s|
    ensures s == s[..i] + [s[i]] + s[i + 1..]
  {
  }

  lemma Assoc<T>(x: seq<T>, y: seq<T>, z: seq<T>)
    ensures (x + y) + z == x + (y + z)
  {
  }

  /** What `after` has more than `before`. */
  function Added<T>(before: seq<T>, after: seq<T>): seq<T> {
    if |before| <= |after| then after[|before|..] else []
  }

  /** Starting from `before`, `items` have been appended: all of them if all went well, else only a front part. */
  ghost predicate Wrote<T(!new)>(before: seq<T>, after: seq<T>, items: seq<T>, ok: bool) {
    before <= after && if ok then after == before + items else after < before + items
  }

  /** Two writes in a row, the second only after the first. */
  lemma WroteBoth<T(!new)>(before: seq<T>, middle: seq<T>, after: seq<T>, x: seq<T>, y: seq<T>, ok: bool)
    requires middle == before + x && Wrote(middle, after, y, ok)
    ensures Wrote(before, after, x + y, ok)
  {
    Assoc(before, x, y);
  }

  lemma WroteFirst<T(!new)>(before: seq<T>, after: seq<T>, x: seq<T>, y: seq<T>)
    requires Wrote(before, after, x, false)
    ensures Wrote(before, after, x + y, false)
  {
    Assoc(before, x, y);
    assert before + x <= before + x + y;
  }

  lemma WroteAll<T(!new)>(before: seq<T>, after: seq<T>, items: seq<T>)
    requires Wrote(before, after, items, true)
    ensures after == before + items
  {
  }

  lemma WroteNothing<T(!new)>(before: seq<T>)
    ensures Wrote(before, before, [], true)
  {
  }

  /** What has been appended, as a front part of the items. */
  lemma WrotePart<T(!new)>(before: seq<T>, after: seq<T>, items: seq<T>, ok: bool)
    requires Wrote(before, after, items, ok)
    ensures after == before + Added(before, after) && Added(before, after) <= items
    ensures ok ==> Added(before, after) == items
  {
    assert (before + items)[|before|..] == items;
  }
}
