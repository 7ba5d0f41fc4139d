/** xoshiro128+, the generator behind mask keys and handshake keys: it can be undone, and never degenerates. */
module Random {

  /** One step of splitmix64, which the state is seeded with. */
  function Splitmix64(x: bv64): bv64 {
    var z0 := x + 0x9e3779b97f4a7c15;
    var z1 := (z0 ^ (z0 >> 30)) * 0xbf58476d1ce4e5b9;
    var z2 := (z1 ^ (z1 >> 27)) * 0x94d049bb133111eb;
    z2 ^ (z2 >> 31)
  }

  function Rotl(x: bv32, k: bv6): bv32
    requires 0 < k < 32
  {
    (x << k) | (x >> (32 - k))
  }

  /** The four state words. */
  datatype State = State(s0: bv32, s1: bv32, s2: bv32, s3: bv32)

  const ZERO: State := State(0, 0, 0, 0)

  function Low(z: bv64): bv32 { (z & 0xFFFF_FFFF) as bv32 }
  function High(z: bv64): bv32 { (z >> 32) as bv32 }

  function Seeded(seed: bv64): State {
    var z := Splitmix64(seed);
    var w := Splitmix64(z);
    State(Low(z), High(z), Low(w), High(w))
  }

  function Xor(a: bv32, b: bv32): bv32 {
    a ^ b
  }

  function Shift9(x: bv32): bv32 {
    x << 9
  }

  /** Recovers `x` from `x ^ (x << 9)`. */
  function Unshift9(y: bv32): bv32 {
    var y1 := Shift9(y);
    var y2 := Shift9(y1);
    Xor(Xor(y, y1), Xor(y2, Shift9(y2)))
  }

  /** The number a call of `next` returns. */
  function Output(s: State): bv32 {
    s.s0 + s.s3
  }

  /** The linear map that one call of `next` applies to the state. */
  function Step(s: State): State {
    var a2, a3 := Xor(s.s2, s.s0), Xor(s.s3, s.s1);
    State(Xor(s.s0, a3), Xor(s.s1, a2), Xor(a2, Shift9(s.s1)), Rotl(a3, 11))
  }

  /** The state a call of `next` started from, computed from the one it left. */
  function Unstep(s: State): State {
    var a3 := Rotl(s.s3, 21);
    var s0, s1 := Xor(s.s0, a3), Unshift9(Xor(s.s1, s.s2));
    State(s0, s1, Xor(Xor(s.s1, s1), s0), Xor(a3, s1))
  }

  // Facts about bit-vectors alone.

  lemma Rotations(x: bv32)
    ensures Rotl(Rotl(x, 11), 21) == x && Rotl(Rotl(x, 21), 11) == x
  {
  }

  lemma XorCancels(a: bv32, b: bv32)
    ensures Xor(Xor(a, b), b) == a && Xor(Xor(a, b), a) == b
  {
  }

  lemma XorShared(a: bv32, b: bv32, c: bv32)
    ensures Xor(Xor(b, a), Xor(a, c)) == Xor(b, c)
  {
  }

  lemma ShiftXor(a: bv32, b: bv32)
    ensures Shift9(Xor(a, b)) == Xor(Shift9(a), Shift9(b))
  {
  }

  lemma ShiftedOut(x: bv32)
    ensures Shift9(Shift9(Shift9(Shift9(x)))) == 0
  {
  }

  lemma Telescope(x: bv32, a: bv32, b: bv32, c: bv32)
    ensures Xor(Xor(Xor(x, a), Xor(a, b)), Xor(Xor(b, c), Xor(c, 0))) == x
  {
    hide Xor;
    XorShared(a, x, b);
    XorShared(c, b, 0);
    XorShared(b, x, 0);
    XorZero(x);
  }

  lemma XorZero(x: bv32)
    ensures Xor(x, 0) == x
  {
  }

  lemma ShiftRecovered(x: bv32)
    ensures Unshift9(Xor(x, Shift9(x))) == x
  {
    hide Xor, Shift9;
    var a := Shift9(x);
    var b := Shift9(a);
    var c := Shift9(b);
    ShiftXor(x, a);
    ShiftXor(a, b);
    ShiftXor(b, c);
    ShiftedOut(x);
    Telescope(x, a, b, c);
  }

  /** `next` is injective on states: it can be undone. */
  lemma UnstepStep(s: State)
    ensures Unstep(Step(s)) == s
  {
    hide Xor, Shift9, Rotl, Unshift9;
    var a2, a3 := Xor(s.s2, s.s0), Xor(s.s3, s.s1);
    Rotations(a3);
    XorCancels(s.s0, a3);
    XorShared(a2, s.s1, Shift9(s.s1));
    ShiftRecovered(s.s1);
    XorCancels(s.s1, a2);
    XorCancels(s.s2, s.s0);
    XorCancels(s.s3, s.s1);
  }

  lemma StepKeepsNonZero(s: State)
    requires s != ZERO
    ensures Step(s) != ZERO
  {
    hide Step, Unstep;
    UnstepStep(s);
    assert Unstep(ZERO) == ZERO by {
      UnstepZero();
    }
  }

  lemma UnstepZero()
    ensures Unstep(ZERO) == ZERO
  {
  }

  /** No seed leads to the all-zero state, in which the generator would be stuck. */
  lemma SeededIsNonZero(seed: bv64)
    ensures Seeded(seed) != ZERO
  {
    hide Splitmix64, Low, High;
    var z := Splitmix64(seed);
    if Seeded(seed) == ZERO {
      HalvesZero(z);
      HalvesZero(Splitmix64(z));
      Splitmix64OfZero();
    }
  }

  lemma HalvesZero(z: bv64)
    requires Low(z) == 0 && High(z) == 0
    ensures z == 0
  {
  }

  lemma Splitmix64OfZero()
    ensures Splitmix64(0) == 0xe220a8397b1dcdaf
  {
  }

  /** The state after `n` calls of `next`. */
  function After(s: State, n: nat): State
    decreases n
  {
    if n == 0 then s else After(Step(s), n - 1)
  }

  /** The generator never degenerates: whatever the seed and however often it is called. */
  lemma {:induction false} NeverZero(s: State, n: nat)
    requires s != ZERO
    ensures After(s, n) != ZERO
    decreases n
  {
    hide Step;
    if n > 0 {
      StepKeepsNonZero(s);
      NeverZero(Step(s), n - 1);
    }
  }

  lemma SeededNeverZero(seed: bv64, n: nat)
    ensures After(Seeded(seed), n) != ZERO
  {
    hide *;
    SeededIsNonZero(seed);
    NeverZero(Seeded(seed), n);
  }

  /** The first numbers of the two generators: splitmix64 from 0, and xoshiro128+ from 1, 2, 3, 4. */
  lemma KnownNumbers()
    ensures Splitmix64(0) == 0xe220a8397b1dcdaf
    ensures Seeded(0) == State(0x7b1dcdaf, 0xe220a839, 0x4d197e6f, 0xa706dd2f)
    ensures Output(State(1, 2, 3, 4)) == 5 && Step(State(1, 2, 3, 4)) == State(7, 0, 1026, 12288)
    ensures Output(Seeded(0)) == 0x2224aade && Output(Step(Seeded(0))) == 0x71e46ae2
  {
    assert Step(Seeded(0)) == State(0x3e3bb8b9, 0xd4241bf9, 0x7754c1c0, 0x33a8b229);
  }

  class Xoshiro128p {
    const s: array<bv32>

    ghost predicate Valid()
      reads s
    {
      s.Length == 4 && View() != ZERO
    }

    ghost function View(): State
      requires s.Length == 4
      reads s
    {
      State(s[0], s[1], s[2], s[3])
    }

    constructor (seed: bv64)
      ensures Valid() && fresh(s) && View() == Seeded(seed)
    {
      s := new bv32[4];
      new;
      hide Splitmix64, Low, High;
      var z := Splitmix64(seed);
      s[0] := Low(z);
      s[1] := High(z);
      z := Splitmix64(z);
      s[2] := Low(z);
      s[3] := High(z);
      SeededIsNonZero(seed);
    }

    /** The next 32-bit number; the state moves on by one step and stays usable. */
    method Next() returns (result: bv32)
      requires Valid()
      modifies s
      ensures Valid() && View() == Step(old(View()))
      ensures result == Output(old(View()))
    {
      hide Rotl, Shift9, Splitmix64, Xor, Output;
      StepKeepsNonZero(View());
      result := Output(State(s[0], s[1], s[2], s[3]));
      var t := Shift9(s[1]);
      s[2] := Xor(s[2], s[0]);
      s[3] := Xor(s[3], s[1]);
      s[1] := Xor(s[1], s[2]);
      s[0] := Xor(s[0], s[3]);
      s[2] := Xor(s[2], t);
      s[3] := Rotl(s[3], 11);
    }
  }
}
