/**
 The UTF-8 validator, against the encoding of section 3 of RFC 3629.
 The source counts in an `int`, so what it does with huge inputs is stated exactly.
 */
module Utf8 {
  import Text

  type byte = bv8

  /** Unicode scalar values: code points up to U+10FFFF that are not surrogates. */
  type Scalar = c: bv32 | c <= 0x10FFFF && !(0xD800 <= c <= 0xDFFF)

  /** The encoding of one scalar value. */
  function Encode(c: Scalar): (s: seq<byte>)
    ensures 1 <= |s| <= 4
  {
    if c < 0x80 then [c as byte]
    else if c < 0x800 then [(0xC0 | (c >> 6)) as byte, (0x80 | (c & 0x3F)) as byte]
    else if c < 0x1_0000 then
      [(0xE0 | (c >> 12)) as byte, (0x80 | ((c >> 6) & 0x3F)) as byte, (0x80 | (c & 0x3F)) as byte]
    else
      [(0xF0 | (c >> 18)) as byte, (0x80 | ((c >> 12) & 0x3F)) as byte,
       (0x80 | ((c >> 6) & 0x3F)) as byte, (0x80 | (c & 0x3F)) as byte]
  }

  function EncodeAll(cs: seq<Scalar>): seq<byte> {
    if cs == [] then [] else Encode(cs[0]) + EncodeAll(cs[1..])
  }

  /** `s` is the encoding of some sequence of scalar values. */
  ghost predicate ValidUtf8(s: seq<byte>) {
    exists cs :: s == EncodeAll(cs)
  }

  /** The number of bytes the validator accepts at the start of `s` as one character; 0 if it rejects. */
  function Accept(s: seq<byte>): (n: nat)
    requires s != []
    ensures n <= |s| && n <= 4
  {
    var b := s[0];
    if b < 0x80 then 1
    else if b & 0xE0 == 0xC0 then
      if 1 >= |s| || s[1] & 0xC0 != 0x80 || b & 0xFE == 0xC0 then 0 else 2
    else if b & 0xF0 == 0xE0 then
      if 2 >= |s| || s[1] & 0xC0 != 0x80 || s[2] & 0xC0 != 0x80
         || (b == 0xE0 && s[1] & 0xE0 == 0x80)
         || (b == 0xED && s[1] & 0xA0 == 0xA0) then 0 else 3
    else if b & 0xF8 == 0xF0 then
      if 3 >= |s| || s[1] & 0xC0 != 0x80 || s[2] & 0xC0 != 0x80 || s[3] & 0xC0 != 0x80
         || (b == 0xF0 && s[1] & 0xF0 == 0x80)
         || (b == 0xF4 && s[1] > 0x8F) || b > 0xF4 then 0 else 4
    else 0
  }

  function Join2(b0: byte, b1: byte): (c: bv32)
    requires 0xC2 <= b0 <= 0xDF && b1 & 0xC0 == 0x80
    ensures 0x80 <= c < 0x800
    ensures (0xC0 | (c >> 6)) == b0 as bv32 && (0x80 | (c & 0x3F)) == b1 as bv32
  {
    (((b0 & 0x1F) as bv32) << 6) | (b1 & 0x3F) as bv32
  }

  function Join3(b0: byte, b1: byte, b2: byte): (c: bv32)
    requires 0xE0 <= b0 <= 0xEF && b1 & 0xC0 == 0x80 && b2 & 0xC0 == 0x80
    ensures c < 0x1_0000
    ensures (0xE0 | (c >> 12)) == b0 as bv32 && (0x80 | ((c >> 6) & 0x3F)) == b1 as bv32
    ensures (0x80 | (c & 0x3F)) == b2 as bv32
    ensures b0 != 0xE0 || b1 & 0xE0 != 0x80 ==> 0x800 <= c
    ensures b0 != 0xED || b1 & 0xA0 != 0xA0 ==> !(0xD800 <= c <= 0xDFFF)
  {
    (((b0 & 0x0F) as bv32) << 12) | (((b1 & 0x3F) as bv32) << 6) | (b2 & 0x3F) as bv32
  }

  function Join4(b0: byte, b1: byte, b2: byte, b3: byte): (c: bv32)
    requires 0xF0 <= b0 <= 0xF4 && b1 & 0xC0 == 0x80 && b2 & 0xC0 == 0x80 && b3 & 0xC0 == 0x80
    ensures (0xF0 | (c >> 18)) == b0 as bv32 && (0x80 | ((c >> 12) & 0x3F)) == b1 as bv32
    ensures (0x80 | ((c >> 6) & 0x3F)) == b2 as bv32 && (0x80 | (c & 0x3F)) == b3 as bv32
    ensures b0 != 0xF0 || b1 & 0xF0 != 0x80 ==> 0x1_0000 <= c
    ensures b0 != 0xF4 || b1 <= 0x8F ==> c <= 0x10FFFF
  {
    (((b0 & 0x07) as bv32) << 18) | (((b1 & 0x3F) as bv32) << 12)
    | (((b2 & 0x3F) as bv32) << 6) | (b3 & 0x3F) as bv32
  }

  lemma EncodeJoin2(b0: byte, b1: byte)
    requires b0 & 0xE0 == 0xC0 && b0 & 0xFE != 0xC0 && b1 & 0xC0 == 0x80
    ensures 0xC2 <= b0 <= 0xDF && Encode(Join2(b0, b1)) == [b0, b1]
  {
  }

  lemma EncodeJoin3(b0: byte, b1: byte, b2: byte)
    requires b0 & 0xF0 == 0xE0 && b1 & 0xC0 == 0x80 && b2 & 0xC0 == 0x80
    requires b0 != 0xE0 || b1 & 0xE0 != 0x80
    requires b0 != 0xED || b1 & 0xA0 != 0xA0
    ensures 0xE0 <= b0 <= 0xEF && Encode(Join3(b0, b1, b2)) == [b0, b1, b2]
  {
  }

  lemma EncodeJoin4(b0: byte, b1: byte, b2: byte, b3: byte)
    requires b0 & 0xF8 == 0xF0 && b1 & 0xC0 == 0x80 && b2 & 0xC0 == 0x80 && b3 & 0xC0 == 0x80
    requires b0 != 0xF0 || b1 & 0xF0 != 0x80
    requires (b0 != 0xF4 || b1 <= 0x8F) && b0 <= 0xF4
    ensures 0xF0 <= b0 <= 0xF4 && Encode(Join4(b0, b1, b2, b3)) == [b0, b1, b2, b3]
  {
  }

  /** Soundness, one character at a time: what is accepted is the encoding of a scalar value. */
  lemma AcceptedIsEncoded(s: seq<byte>) returns (c: Scalar)
    requires s != [] && Accept(s) != 0
    ensures Encode(c) == s[..Accept(s)]
  {
    match Accept(s) {
      case 1 =>
        c := s[0] as bv32;
      case 2 =>
        EncodeJoin2(s[0], s[1]);
        c := Join2(s[0], s[1]);
      case 3 =>
        EncodeJoin3(s[0], s[1], s[2]);
        c := Join3(s[0], s[1], s[2]);
      case _ =>
        EncodeJoin4(s[0], s[1], s[2], s[3]);
        c := Join4(s[0], s[1], s[2], s[3]);
    }
  }

  /** Completeness, one character at a time: every encoded scalar value is accepted, whatever follows. */
  lemma EncodedIsAccepted(c: Scalar, rest: seq<byte>)
    ensures Accept(Encode(c) + rest) == |Encode(c)|
  {
  }

  /** The bytes the validator accepts, read off character by character. */
  predicate Accepts(s: seq<byte>) {
    s == [] || (Accept(s) != 0 && Accepts(s[Accept(s)..]))
  }

  lemma {:induction false} AcceptsIsSound(s: seq<byte>) returns (cs: seq<Scalar>)
    requires Accepts(s)
    ensures s == EncodeAll(cs)
  {
    hide Accept, Encode;
    if s == [] {
      cs := [];
    } else {
      var c := AcceptedIsEncoded(s);
      var rest := AcceptsIsSound(s[Accept(s)..]);
      cs := [c] + rest;
      assert cs[1..] == rest;
      assert s == s[..Accept(s)] + s[Accept(s)..];
    }
  }

  lemma {:induction false} AcceptsIsComplete(cs: seq<Scalar>)
    ensures Accepts(EncodeAll(cs))
  {
    if cs != [] {
      AcceptsIsComplete(cs[1..]);
      EncodedIsAccepted(cs[0], EncodeAll(cs[1..]));
      assert EncodeAll(cs)[|Encode(cs[0])|..] == EncodeAll(cs[1..]);
    }
  }

  /** The validator accepts exactly the concatenations of encodings of scalar values. */
  lemma AcceptsIffValid(s: seq<byte>)
    ensures Accepts(s) <==> ValidUtf8(s)
  {
    if Accepts(s) {
      var cs := AcceptsIsSound(s);
    }
    if ValidUtf8(s) {
      var cs :| s == EncodeAll(cs);
      AcceptsIsComplete(cs);
    }
  }

  // ---- counting in an `int` ----------------------------------------------------------------------------------

  /** A `size_t` passed where the validator expects an `int`. */
  function ToInt(size: nat): (len: int)
    ensures size < 0x8000_0000 ==> len == size
    ensures len <= size && len <= Text.INT_MAX
  {
    var low := size % 0x1_0000_0000;
    if low < 0x8000_0000 then low else low - 0x1_0000_0000
  }

  /** The bytes that are looked at when all of `s` is passed to the validator. */
  function Examined(s: seq<byte>): (t: seq<byte>)
    ensures t <= s && |t| <= Text.INT_MAX
  {
    if ToInt(|s|) <= 0 then [] else s[..ToInt(|s|)]
  }

  /** How far ahead of its index the validator looks for a character that begins with `b`. */
  function Ahead(b: byte): (n: nat)
    ensures n <= 3
  {
    if b & 0xE0 == 0xC0 then 1 else if b & 0xF0 == 0xE0 then 2 else if b & 0xF8 == 0xF0 then 3 else 0
  }

  /** From index `i` on, the validator comes to a sum of its index and a look-ahead that does not fit an `int`. */
  predicate Overflows(s: seq<byte>, i: nat)
    requires i <= |s|
    decreases |s| - i
  {
    i < |s| &&
    (|| i + Ahead(s[i]) > Text.INT_MAX
     || (Accept(s[i..]) != 0 && Overflows(s, i + Accept(s[i..]))))
  }

  /** What the validator comes to: an answer, or undefined behaviour because its index sum overflows. */
  datatype Check = Done(ok: bool) | Undefined

  ghost function Checked(s: seq<byte>): Check {
    if Overflows(s, 0) then Undefined else Done(ValidUtf8(s))
  }

  /** The validator, run on the first `len` bytes of `s`. */
  method IsValidUtf8(s: seq<byte>, len: int) returns (r: Check)
    requires len <= |s| && len <= Text.INT_MAX
    ensures r == Checked(if len <= 0 then [] else s[..len])
  {
    hide ValidUtf8, Accept, Ahead;
    ghost var all := if len <= 0 then [] else s[..len];
    var i := 0;
    while i < len
      invariant 0 <= i && (i <= len || i == 0)
      invariant Accepts(all) <==> Accepts(all[i..])
      invariant Overflows(all, 0) <==> Overflows(all, i)
    {
      if i + Ahead(s[i]) > Text.INT_MAX {
        return Undefined;
      }
      var n := Accept(s[i..len]);
      assert all[i..] == s[i..len] && all[i] == s[i];
      if n == 0 {
        AcceptsIffValid(all);
        return Done(false);
      }
      assert all[i..][n..] == all[i + n..];
      i := i + n;
    }
    AcceptsIffValid(all);
    r := Done(true);
  }

  /** Short of 2^31 - 2 bytes no index sum overflows. */
  lemma {:induction false} NoOverflow(s: seq<byte>, i: nat)
    requires i <= |s| < 0x7FFF_FFFE
    ensures !Overflows(s, i)
    decreases |s| - i
  {
    hide Accept;
    if i < |s| && Accept(s[i..]) != 0 {
      NoOverflow(s, i + Accept(s[i..]));
    }
  }

  /**
   Which texts make it overflow: precisely those with a valid front behind which a character begins so late that the
   look-ahead for it does not fit.
   */
  lemma {:induction false} OverflowsIff(s: seq<byte>)
    ensures Overflows(s, 0) <==>
            exists k: nat :: k < |s| && ValidUtf8(s[..k]) && k + Ahead(s[k]) > Text.INT_MAX
  {
    hide ValidUtf8, Ahead, Accept;
    if Overflows(s, 0) {
      assert s[..0] == [];
      var k := Late(s, 0);
      AcceptsIffValid(s[..k]);
    }
    forall k: nat | k < |s| && ValidUtf8(s[..k]) && k + Ahead(s[k]) > Text.INT_MAX ensures Overflows(s, 0) {
      AcceptsIffValid(s[..k]);
      assert s[..k][0..] == s[..k];
      Reached(s, 0, k);
    }
  }

  /** A step of the validator within a front of the text is a step in the whole. */
  lemma AcceptInFront(s: seq<byte>, i: nat, k: nat)
    requires i < k <= |s|
    ensures Accept(s[..k][i..]) != 0 ==> Accept(s[i..]) == Accept(s[..k][i..])
    ensures Accept(s[i..]) != 0 && i + Accept(s[i..]) <= k ==> Accept(s[..k][i..]) == Accept(s[i..])
  {
    var x, y := s[..k][i..], s[i..];
    assert |x| == k - i && forall j | 0 <= j < |x| :: x[j] == y[j];
  }

  /** Where the validator overflows. */
  lemma {:induction false} Late(s: seq<byte>, i: nat) returns (k: nat)
    requires i <= |s| && Overflows(s, i) && Accepts(s[..i])
    ensures k < |s| && Accepts(s[..k]) && k + Ahead(s[k]) > Text.INT_MAX
    decreases |s| - i
  {
    hide Ahead, Accept;
    k := i;
    if i + Ahead(s[i]) <= Text.INT_MAX {
      var n := Accept(s[i..]);
      AcceptsMore(s, 0, i, i + n);
      assert s[..i][0..] == s[..i] && s[..i + n][0..] == s[..i + n];
      k := Late(s, i + n);
    }
  }

  /** One more character behind an accepted front. */
  lemma {:induction false} AcceptsMore(s: seq<byte>, j: nat, i: nat, e: nat)
    requires j <= i < |s| && Accepts(s[..i][j..]) && Accept(s[i..]) != 0 && e == i + Accept(s[i..])
    ensures e <= |s| && Accepts(s[..e][j..])
    decreases i - j
  {
    hide Accept;
    AcceptInFront(s, i, e);
    if j == i {
      assert s[..e][i..][Accept(s[i..])..] == [];
    } else {
      var n := Accept(s[..i][j..]);
      AcceptInFront(s, j, i);
      AcceptInFront(s, j, e);
      assert s[..i][j..][n..] == s[..i][j + n..] && s[..e][j..][n..] == s[..e][j + n..];
      AcceptsMore(s, j + n, i, e);
    }
  }

  /** The validator comes to the end of every accepted front, unless it overflows before. */
  lemma {:induction false} Reached(s: seq<byte>, i: nat, k: nat)
    requires i <= k < |s| && Accepts(s[..k][i..]) && k + Ahead(s[k]) > Text.INT_MAX
    ensures Overflows(s, i)
    decreases k - i
  {
    hide Ahead, Accept;
    if i < k {
      var n := Accept(s[..k][i..]);
      AcceptInFront(s, i, k);
      assert s[..k][i..][n..] == s[..k][i + n..];
      Reached(s, i + n, k);
    }
  }

  /** At 2^31 - 2 and 2^31 - 1 bytes, ASCII up to a last byte that begins a character of four makes it overflow. */
  lemma LateLeadOverflows(size: nat) returns (s: seq<byte>)
    requires 0x7FFF_FFFE <= size < 0x8000_0000
    ensures |s| == size && s[size - 1] == 0xF0 && (forall i | 0 <= i < size - 1 :: s[i] < 0x80)
    ensures Examined(s) == s && Checked(Examined(s)) == Undefined
  {
    hide ValidUtf8, Accept;
    s := Zeros(size - 1) + [0xF0];
    assert s[..size - 1] == Zeros(size - 1);
    ZerosAccepted(size - 1, []);
    assert Zeros(size - 1) + [] == Zeros(size - 1);
    AcceptsIffValid(s[..size - 1]);
    OverflowsIff(s);
  }

  /** A text of `size` bytes that is rejected by RFC 3629 and accepted when its length does not fit an `int`. */
  lemma TruncatedCheck(size: nat) returns (s: seq<byte>)
    requires size >= 0x8000_0000
    ensures |s| == size && Checked(Examined(s)) == Done(true) && !ValidUtf8(s)
  {
    var m := if ToInt(size) <= 0 then 0 else ToInt(size);
    var bad := seq(size - m, i => 0xFF);
    s := Zeros(m) + bad;
    assert Examined(s) == Zeros(m) + [];
    ZerosAccepted(m, []);
    ZerosAccepted(m, bad);
    AcceptsIffValid(Examined(s));
    AcceptsIffValid(s);
    assert Accept(bad) == 0;
    OverflowsIff(Examined(s));
  }

  /**
   For which sizes is the check exact? Precisely below 2^31 - 2 bytes: at that size and the next one some text makes
   an index sum overflow, and from 2^31 on the length no longer fits the validator's `int` and some invalid text is
   accepted.
   */
  lemma ExactIff(size: nat)
    ensures (forall s | |s| == size :: Checked(Examined(s)) == Done(ValidUtf8(s))) <==> size < 0x7FFF_FFFE
  {
    hide ValidUtf8, Overflows;
    if size < 0x7FFF_FFFE {
      forall s: seq<byte> | |s| == size ensures Checked(Examined(s)) == Done(ValidUtf8(s)) {
        assert Examined(s) == s;
        NoOverflow(s, 0);
      }
    } else if size < 0x8000_0000 {
      var s := LateLeadOverflows(size);
    } else {
      var s := TruncatedCheck(size);
    }
  }

  function Zeros(m: nat): (z: seq<byte>)
    ensures |z| == m
  {
    seq(m, i => 0)
  }

  /** After zero bytes, acceptance depends on what follows. */
  lemma {:induction false} ZerosAccepted(m: nat, rest: seq<byte>)
    ensures Accepts(Zeros(m) + rest) <==> Accepts(rest)
  {
    if m == 0 {
      assert Zeros(m) + rest == rest;
    } else {
      ZerosAccepted(m - 1, rest);
      var s := Zeros(m) + rest;
      assert s[1..] == Zeros(m - 1) + rest;
      assert Accept(s) == 1;
    }
  }

  /** Some texts: the euro sign, the last code point, an overlong form, a surrogate, and what lies beyond. */
  lemma KnownTexts()
    ensures ValidUtf8([0xE2, 0x82, 0xAC]) && ValidUtf8([0xF4, 0x8F, 0xBF, 0xBF])
    ensures !ValidUtf8([0xC0, 0x80]) && !ValidUtf8([0xED, 0xA0, 0x80]) && !ValidUtf8([0xF4, 0x90, 0x80, 0x80])
    ensures !ValidUtf8([0x80]) && !ValidUtf8([0xE2, 0x82])
  {
    hide ValidUtf8;
    var euro: seq<byte>, last: seq<byte> := [0xE2, 0x82, 0xAC], [0xF4, 0x8F, 0xBF, 0xBF];
    assert euro[3..] == [] && last[4..] == [];
    AcceptsIffValid(euro);
    AcceptsIffValid(last);
    AcceptsIffValid([0xC0, 0x80]);
    AcceptsIffValid([0xED, 0xA0, 0x80]);
    AcceptsIffValid([0xF4, 0x90, 0x80, 0x80]);
    AcceptsIffValid([0x80]);
    AcceptsIffValid([0xE2, 0x82]);
  }
}
