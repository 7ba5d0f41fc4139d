/** Strings: white space, letter case, searching, lines, and decimal numbers as the client reads and prints them. */
module Text {
  import opened Errors

  // ---- white space and case ----------------------------------------------------------------------------------

  /** `std::isspace` in the C locale. */
  predicate IsSpace(c: char) {
    c == ' ' || '\t' <= c <= '\r'
  }

  function TrimLeft(s: string): (t: string)
    ensures t != [] ==> !IsSpace(t[0])
    ensures |t| <= |s| && t == s[|s| - |t|..]
  {
    if s != [] && IsSpace(s[0]) then TrimLeft(s[1..]) else s
  }

  function TrimRight(s: string): (t: string)
    ensures t != [] ==> !IsSpace(t[|t| - 1])
    ensures t <= s
  {
    if s != [] && IsSpace(s[|s| - 1]) then TrimRight(s[..|s| - 1]) else s
  }

  function Trim(s: string): (t: string)
    ensures IsTrimmed(t)
  {
    TrimRight(TrimLeft(s))
  }

  predicate IsTrimmed(s: string) {
    s != [] ==> !IsSpace(s[0]) && !IsSpace(s[|s| - 1])
  }

  /** White space around a trimmed string goes away. */
  lemma {:induction false} TrimAround(x: string, s: string, y: string)
    requires IsTrimmed(s)
    requires (forall c | c in x :: IsSpace(c)) && (forall c | c in y :: IsSpace(c))
    ensures Trim(x + s + y) == s
  {
    hide TrimLeft, TrimRight;
    if s == [] {
      assert x + s + y == x + y + [] + [];
      LeftAround(x + y, [], []);
      RightAround([], []);
      assert [] + [] == "";
    } else {
      LeftAround(x, s, y);
      RightAround(s, y);
    }
  }

  lemma {:induction false} LeftAround(x: string, s: string, y: string)
    requires s != [] ==> !IsSpace(s[0])
    requires forall c | c in x :: IsSpace(c)
    ensures s != [] ==> TrimLeft(x + s + y) == s + y
    ensures s == [] && y == [] ==> TrimLeft(x + s + y) == []
  {
    if x != [] {
      assert (x + s + y)[1..] == x[1..] + s + y;
      assert x[0] in x;
      LeftAround(x[1..], s, y);
    } else {
      assert x + s + y == s + y;
    }
  }

  lemma {:induction false} RightAround(s: string, y: string)
    requires s != [] ==> !IsSpace(s[|s| - 1])
    requires forall c | c in y :: IsSpace(c)
    ensures TrimRight(s + y) == s
  {
    if y != [] {
      assert (s + y)[..|s + y| - 1] == s + y[..|y| - 1];
      assert y[|y| - 1] in y;
      RightAround(s, y[..|y| - 1]);
    } else {
      assert s + y == s;
    }
  }

  /** What trimming takes off is white space. */
  lemma Trimmed(s: string) returns (x: string, y: string)
    ensures s == x + Trim(s) + y
    ensures (forall c | c in x :: IsSpace(c)) && (forall c | c in y :: IsSpace(c))
  {
    hide IsSpace, TrimLeft, TrimRight;
    var l := TrimLeft(s);
    var t := TrimRight(l);
    SpacesLeft(s);
    SpacesRight(l);
    x, y := s[..|s| - |l|], l[|t|..];
    CutTwice(s, l, t);
  }

  lemma CutTwice(s: string, l: string, t: string)
    requires |l| <= |s| && l == s[|s| - |l|..] && t <= l
    ensures s == s[..|s| - |l|] + t + l[|t|..]
  {
  }

  lemma {:induction false} SpacesLeft(s: string)
    ensures forall i | 0 <= i < |s| - |TrimLeft(s)| :: IsSpace(s[i])
  {
    hide IsSpace;
    if s != [] && IsSpace(s[0]) {
      SpacesLeft(s[1..]);
      forall i | 0 <= i < |s| - |TrimLeft(s)| ensures IsSpace(s[i]) {
        assert i > 0 ==> s[i] == s[1..][i - 1];
      }
    }
  }

  lemma {:induction false} SpacesRight(s: string)
    ensures forall i | |TrimRight(s)| <= i < |s| :: IsSpace(s[i])
  {
    hide IsSpace;
    if s != [] && IsSpace(s[|s| - 1]) {
      SpacesRight(s[..|s| - 1]);
      forall i | |TrimRight(s)| <= i < |s| ensures IsSpace(s[i]) {
        assert i < |s| - 1 ==> s[i] == s[..|s| - 1][i];
      }
    }
  }

  /** `std::tolower` in the C locale. */
  function LowerChar(c: char): char {
    if 'A' <= c <= 'Z' then c - 'A' + 'a' else c
  }

  function Lower(s: string): (t: string)
    ensures |t| == |s|
  {
    seq(|s|, i requires 0 <= i < |s| => LowerChar(s[i]))
  }

  predicate EqualsCi(a: string, b: string) {
    |a| == |b| && forall i | 0 <= i < |a| :: LowerChar(a[i]) == LowerChar(b[i])
  }

  const UPPER: string := "ABCDEFGHIJKLMNOPQRSTUVWXYZ"
  const LOWER: string := "abcdefghijklmnopqrstuvwxyz"

  lemma Letters()
    ensures |UPPER| == |LOWER| == 26
    ensures forall i | 0 <= i < 26 :: UPPER[i] == 'A' + i as char && LOWER[i] == 'a' + i as char
  {
  }

  /** The letters of the alphabet have a lower case; other characters are their own. */
  lemma LowerCase(c: char)
    ensures |UPPER| == |LOWER| == 26 && forall i | 0 <= i < 26 :: LowerChar(UPPER[i]) == LOWER[i]
    ensures c !in UPPER ==> LowerChar(c) == c
  {
    hide UPPER, LOWER;
    Letters();
    if 'A' <= c <= 'Z' {
      assert UPPER[(c - 'A') as int] == c;
    }
  }

  /** One letter of the alphabet in two cases, or one character. */
  ghost predicate SameLetter(c: char, d: char) {
    || c == d
    || exists i | 0 <= i < 26 :: (c == UPPER[i] && d == LOWER[i]) || (c == LOWER[i] && d == UPPER[i])
  }

  lemma LowerSame(c: char, d: char)
    ensures LowerChar(c) == LowerChar(d) <==> SameLetter(c, d)
  {
    hide UPPER, LOWER;
    Letters();
    if 'A' <= c <= 'Z' && d == c - 'A' + 'a' {
      assert c == UPPER[(c - 'A') as int] && d == LOWER[(c - 'A') as int];
    } else if 'A' <= d <= 'Z' && c == d - 'A' + 'a' {
      assert d == UPPER[(d - 'A') as int] && c == LOWER[(d - 'A') as int];
    }
  }

  /** Strings are compared letter by letter in whatever case. */
  lemma SameInAnyCase(a: string, b: string)
    ensures EqualsCi(a, b) <==> |a| == |b| && forall i | 0 <= i < |a| :: SameLetter(a[i], b[i])
  {
    hide LowerChar, SameLetter;
    forall c, d ensures LowerChar(c) == LowerChar(d) <==> SameLetter(c, d) {
      LowerSame(c, d);
    }
  }

  /** White space is blank, tab, line feed, vertical tab, form feed and carriage return. */
  lemma WhiteSpace(c: char)
    ensures IsSpace(c) <==> var n := c as int; n == 32 || 9 <= n <= 13
  {
  }

  // ---- searching ---------------------------------------------------------------------------------------------

  /** `find_first_of`: the first index from `from` on with one of `chars`, or the length of `s`. */
  function IndexOfAny(s: string, chars: string, from: nat): (p: nat)
    requires from <= |s|
    ensures from <= p <= |s|
    ensures p < |s| ==> s[p] in chars
    ensures forall i | from <= i < p :: s[i] !in chars
    decreases |s| - from
  {
    if from == |s| || s[from] in chars then from else IndexOfAny(s, chars, from + 1)
  }

  /** `d` is in `s` at `i`. */
  predicate IsAt(s: string, d: string, i: nat) {
    i + |d| <= |s| && s[i..i + |d|] == d
  }

  /** `find` for a non-empty string: its first occurrence, or the length of `s`. */
  function IndexOf(s: string, d: string, from: nat): (p: nat)
    requires from <= |s| && d != []
    ensures from <= p <= |s|
    ensures p < |s| ==> IsAt(s, d, p)
    ensures forall i | from <= i < p :: !IsAt(s, d, i)
    decreases |s| - from
  {
    if from == |s| || IsAt(s, d, from) then from else IndexOf(s, d, from + 1)
  }

  lemma SubSlice(s: string, a: nat, b: nat, c: nat, d: nat)
    requires a <= b <= |s| && c <= d <= b - a
    ensures s[a..b][c..d] == s[a + c..a + d]
  {
    var l, r := s[a..b][c..d], s[a + c..a + d];
    assert forall i | 0 <= i < |l| :: l[i] == r[i];
  }

  lemma JoinSlices(s: string, a: nat, b: nat, c: nat, d: nat)
    requires a <= b <= c <= d <= |s|
    ensures s == s[..a] + s[a..b] + s[b..c] + s[c..d] + s[d..]
  {
  }

  // ---- pieces ------------------------------------------------------------------------------------------------

  /** `std::getline`: up to the delimiter `d`, or to the end. */
  function Line(s: string, d: char): (line: string)
    ensures |line| <= |s| && d !in line
  {
    s[..IndexOfAny(s, [d], 0)]
  }

  /** What is left then: the delimiter is taken off too. */
  function AfterLine(s: string, d: char): (rest: string)
    ensures s != [] ==> |rest| < |s|
  {
    var n := IndexOfAny(s, [d], 0);
    if n < |s| then s[n + 1..] else []
  }

  lemma LineEnds(line: string, d: char, more: string)
    requires d !in line
    ensures Line(line + [d] + more, d) == line && AfterLine(line + [d] + more, d) == more
    ensures Line(line, d) == line && AfterLine(line, d) == []
  {
    var s := line + [d] + more;
    assert forall i | 0 <= i < |line| :: s[i] == line[i];
    assert s[|line|] == d;
    assert IndexOfAny(s, [d], 0) == |line|;
  }

  /** Where the first white space is, or the length. */
  function SpaceAt(s: string): (n: nat)
    ensures n <= |s| && (n < |s| ==> IsSpace(s[n]))
    ensures forall i | 0 <= i < n :: !IsSpace(s[i])
  {
    if s == [] || IsSpace(s[0]) then 0 else 1 + SpaceAt(s[1..])
  }

  /** `stream >> word`: the characters behind leading white space, up to the next white space. */
  function Word(s: string): (w: string) {
    TrimLeft(s)[..SpaceAt(TrimLeft(s))]
  }

  function AfterWord(s: string): (rest: string)
    ensures |rest| <= |s|
  {
    TrimLeft(s)[SpaceAt(TrimLeft(s))..]
  }

  predicate IsWord(w: string) {
    w != [] && forall i | 0 <= i < |w| :: !IsSpace(w[i])
  }

  lemma WordEnds(x: string, w: string, rest: string)
    requires (forall c | c in x :: IsSpace(c)) && IsWord(w) && (rest != [] ==> IsSpace(rest[0]))
    ensures Word(x + w + rest) == w && AfterWord(x + w + rest) == rest
  {
    hide TrimLeft, IsSpace;
    LeftOf(x, w + rest);
    assert x + w + rest == x + (w + rest);
    var t := w + rest;
    assert forall i | 0 <= i < |w| :: t[i] == w[i];
    assert rest != [] ==> t[|w|] == rest[0];
    assert SpaceAt(t) == |w|;
  }

  lemma {:induction false} LeftOf(x: string, s: string)
    requires (forall c | c in x :: IsSpace(c)) && (s != [] ==> !IsSpace(s[0]))
    ensures TrimLeft(x + s) == s
  {
    if x == [] {
      assert x + s == s;
    } else {
      assert x[0] in x && (x + s)[1..] == x[1..] + s;
      LeftOf(x[1..], s);
    }
  }

  class StringStream {
    var rest: string

    constructor (text: string)
      ensures rest == text
    {
      rest := text;
    }

    /** The next piece, unless the stream is at its end. */
    method GetLine(d: char) returns (ok: bool, line: string)
      modifies this
      ensures ok <==> old(rest) != []
      ensures ok ==> line == Line(old(rest), d) && rest == AfterLine(old(rest), d)
      ensures !ok ==> rest == old(rest)
    {
      if rest == [] {
        return false, [];
      }
      ok, line := true, Line(rest, d);
      rest := AfterLine(rest, d);
    }

    /** `operator>>`: the next word, unless only white space is left. */
    method ReadWord() returns (ok: bool, word: string)
      modifies this
      ensures ok <==> Word(old(rest)) != []
      ensures ok ==> word == Word(old(rest)) && rest == AfterWord(old(rest))
    {
      word := Word(rest);
      ok, rest := word != [], AfterWord(rest);
    }
  }

  // ---- decimal numbers ---------------------------------------------------------------------------------------

  predicate IsDigit(c: char) {
    '0' <= c <= '9'
  }

  predicate AllDigits(s: string) {
    forall i | 0 <= i < |s| :: IsDigit(s[i])
  }

  function DecimalValue(s: string): nat
    requires AllDigits(s)
  {
    if s == [] then 0 else 10 * DecimalValue(s[..|s| - 1]) + (s[|s| - 1] - '0') as nat
  }

  /** `std::to_string` for a number that is not negative. */
  function ToDecimal(n: nat): (s: string)
    ensures s != [] && AllDigits(s)
  {
    (if n < 10 then [] else ToDecimal(n / 10)) + ['0' + (n % 10) as char]
  }

  lemma {:induction false} DecimalRoundTrip(n: nat)
    ensures DecimalValue(ToDecimal(n)) == n
  {
    var s := ToDecimal(n);
    if n < 10 {
      assert s[..|s| - 1] == [];
    } else {
      assert s[..|s| - 1] == ToDecimal(n / 10);
      DecimalRoundTrip(n / 10);
    }
  }

  const INT_MIN: int := -0x8000_0000
  const INT_MAX: int := 0x7FFF_FFFF

  /** What `std::from_chars` reads from the front of `s`: a value and how many characters it took. */
  datatype FromCharsResult = InvalidArgument | OutOfRange | Parsed(value: int, used: nat)

  /** How many digits there are from `from` on. */
  function DigitCount(s: string, from: nat): (n: nat)
    requires from <= |s|
    ensures from + n <= |s| && forall i | from <= i < from + n :: IsDigit(s[i])
    ensures from + n < |s| ==> !IsDigit(s[from + n])
    decreases |s| - from
  {
    if from < |s| && IsDigit(s[from]) then 1 + DigitCount(s, from + 1) else 0
  }

  function FromChars(s: string): FromCharsResult {
    var sign := if s != [] && s[0] == '-' then 1 else 0;
    var n := DigitCount(s, sign);
    if n == 0 then InvalidArgument
    else
      var magnitude: int := DecimalValue(s[sign..sign + n]);
      var value: int := if sign == 1 then -magnitude else magnitude;
      if INT_MIN <= value <= INT_MAX then Parsed(value, sign + n) else OutOfRange
  }

  /** A whole string as a number from `lo` to `hi`, the way the client parses ports and window sizes. */
  function ParseNumber(s: string, lo: nat, hi: nat): (n: Option<nat>)
    ensures n.Some? ==> lo <= n.value <= hi
  {
    var r := FromChars(s);
    if !r.Parsed? || r.used != |s| || r.value < lo || r.value > hi then None else Some(r.value)
  }

  /** Exactly the digit strings of the right value are accepted: no sign, no white space, any leading zeros. */
  lemma ParseNumberIff(s: string, lo: nat, hi: nat, n: nat)
    requires 0 < lo <= hi <= INT_MAX
    ensures ParseNumber(s, lo, hi) == Some(n) <==> AllDigits(s) && DecimalValue(s) == n && lo <= n <= hi
  {
    var sign := if s != [] && s[0] == '-' then 1 else 0;
    var k := DigitCount(s, sign);
    if sign == 0 && k == |s| {
      assert s[0..|s|] == s;
    }
  }
}
