/** Base64 as the client encodes it, three octets at a time, against section 4 of RFC 4648. */
module Base64 {
  import opened Errors
  import opened Networking

  const CAPITALS: string := "ABCDEFGHIJKLMNOPQRSTUVWXYZ"
  const SMALL_LETTERS: string := "abcdefghijklmnopqrstuvwxyz"
  const NUMERALS: string := "0123456789"
  const ENCODE_TABLE: string := CAPITALS + SMALL_LETTERS + NUMERALS + "+/"

  // ---- RFC 4648 ----------------------------------------------------------------------------------------------

  /** The value a character of the alphabet stands for (Table 1). */
  function Value(c: char): (v: Option<nat>)
    ensures v.Some? ==> v.value < 64
  {
    if 'A' <= c <= 'Z' then Some((c - 'A') as nat)
    else if 'a' <= c <= 'z' then Some((c - 'a') as nat + 26)
    else if '0' <= c <= '9' then Some((c - '0') as nat + 52)
    else if c == '+' then Some(62)
    else if c == '/' then Some(63)
    else None
  }

  function Sextet(c: char): (v: Option<byte>) {
    if Value(c).Some? then Some(ByteOf(Value(c).value)) else None
  }

  /** Three octets from four 6-bit values. */
  function Octet1(v: byte, w: byte): byte { (v << 2) | (w >> 4) }
  function Octet2(w: byte, x: byte): byte { (w << 4) | (x >> 2) }
  function Octet3(x: byte, y: byte): byte { (x << 6) | y }

  /** The unused bits of a padded group are zero. */
  predicate Clear4(w: byte) { w & 0x0F == 0 }
  predicate Clear2(x: byte) { x & 0x03 == 0 }

  /** One group of four characters; only the last group of an encoding may be padded. */
  function DecodeGroup(s: string, last: bool): Option<seq<byte>>
    requires |s| == 4
  {
    var v, w, x, y := Sextet(s[0]), Sextet(s[1]), Sextet(s[2]), Sextet(s[3]);
    if v.None? || w.None? then None
    else if last && s[2] == '=' && s[3] == '=' && Clear4(w.value) then Some([Octet1(v.value, w.value)])
    else if x.None? then None
    else if last && s[3] == '=' && Clear2(x.value) then Some([Octet1(v.value, w.value), Octet2(w.value, x.value)])
    else if y.None? then None
    else Some([Octet1(v.value, w.value), Octet2(w.value, x.value), Octet3(x.value, y.value)])
  }

  /** The octets an encoding stands for. */
  function Decode(s: string): Option<seq<byte>>
    decreases |s|
  {
    if s == [] then Some([])
    else if |s| < 4 then None
    else
      var group, rest := DecodeGroup(s[..4], |s| == 4), Decode(s[4..]);
      if group.None? || rest.None? then None else Some(group.value + rest.value)
  }

  // ---- the encoder -------------------------------------------------------------------------------------------

  function Sextet1(a: byte): byte { a >> 2 }
  function Sextet2(a: byte, b: byte): byte { ((a & 0x03) << 4) | (b >> 4) }
  function Sextet3(b: byte, c: byte): byte { ((b & 0x0F) << 2) | (c >> 6) }
  function Sextet4(c: byte): byte { c & 0x3F }

  predicate Small(v: byte) { v <= 0x3F }

  function Symbol(v: byte): char
    requires Small(v)
  {
    ENCODE_TABLE[v as int]
  }

  lemma SextetsAreSmall(a: byte, b: byte, c: byte)
    ensures Small(Sextet1(a)) && Small(Sextet2(a, b)) && Small(Sextet3(b, c)) && Small(Sextet4(c))
  {
  }

  /** The encoding of the one to three octets at the front of `data`. */
  function EncodeGroup(data: seq<byte>): (s: string)
    requires data != []
    ensures |s| == 4
  {
    var a, b, c := data[0], if |data| > 1 then data[1] else 0, if |data| > 2 then data[2] else 0;
    SextetsAreSmall(a, b, c);
    [Symbol(Sextet1(a)), Symbol(Sextet2(a, b)),
     if |data| > 1 then Symbol(Sextet3(b, c)) else '=',
     if |data| > 2 then Symbol(Sextet4(c)) else '=']
  }

  function Encode(data: seq<byte>): (s: string) {
    if data == [] then [] else EncodeGroup(data) + Encode(data[if |data| < 3 then |data| else 3..])
  }

  function Octets(a: byte, b: byte, c: byte): bv32 {
    (a as bv32 << 16) + (b as bv32 << 8) + c as bv32
  }

  /** `(triple >> 18) & 0x3F` and its like. */
  function Bits23To18(triple: bv32): byte { ((triple >> 18) & 0x3F) as byte }
  function Bits17To12(triple: bv32): byte { ((triple >> 12) & 0x3F) as byte }
  function Bits11To6(triple: bv32): byte { ((triple >> 6) & 0x3F) as byte }
  function Bits5To0(triple: bv32): byte { (triple & 0x3F) as byte }

  lemma TripleSextets(a: byte, b: byte, c: byte)
    ensures var t := Octets(a, b, c);
            && Bits23To18(t) == Sextet1(a) && Bits17To12(t) == Sextet2(a, b)
            && Bits11To6(t) == Sextet3(b, c) && Bits5To0(t) == Sextet4(c)
  {
  }

  lemma SymbolValue(v: byte)
    requires Small(v)
    ensures Sextet(Symbol(v)) == Some(v) && Symbol(v) != '='
  {
    TableValue(v as int);
    CastBack(v);
  }

  lemma Capital(n: nat)
    requires n < 26
    ensures Value(CAPITALS[n]) == Some(n)
  {
    assert CAPITALS[n] == 'A' + n as char;
  }

  lemma SmallLetter(n: nat)
    requires n < 26
    ensures Value(SMALL_LETTERS[n]) == Some(n + 26)
  {
    assert SMALL_LETTERS[n] == 'a' + n as char;
  }

  lemma Numeral(n: nat)
    requires n < 10
    ensures Value(NUMERALS[n]) == Some(n + 52)
  {
    assert NUMERALS[n] == '0' + n as char;
  }

  lemma Other(n: nat)
    requires n < 2
    ensures Value("+/"[n]) == Some(n + 62)
  {
  }

  lemma TableValue(n: nat)
    requires n < 64
    ensures Value(ENCODE_TABLE[n]) == Some(n)
  {
    hide Value;
    Joined(CAPITALS, SMALL_LETTERS, NUMERALS, "+/", n);
    if n < 26 {
      Capital(n);
    } else if n < 52 {
      SmallLetter(n - 26);
    } else if n < 62 {
      Numeral(n - 52);
    } else {
      Other(n - 62);
    }
  }

  lemma Joined(x: string, y: string, z: string, w: string, n: nat)
    requires |x| == |y| == 26 && |z| == 10 && |w| == 2 && n < 64
    ensures (x + y + z + w)[n] ==
            if n < 26 then x[n] else if n < 52 then y[n - 26] else if n < 62 then z[n - 52] else w[n - 62]
  {
  }

  /** The octets that four sextets came from. */
  lemma OctetsOfSextets(a: byte, b: byte, c: byte)
    ensures Octet1(Sextet1(a), Sextet2(a, b)) == a
    ensures Octet2(Sextet2(a, b), Sextet3(b, c)) == b
    ensures Octet3(Sextet3(b, c), Sextet4(c)) == c
    ensures Clear4(Sextet2(a, 0)) && Clear2(Sextet3(b, 0))
  {
  }

  /** And the sextets that octets came from. */
  lemma SextetsOfOctets(v: byte, w: byte, x: byte, y: byte)
    requires Small(v) && Small(w) && Small(x) && Small(y)
    ensures Sextet1(Octet1(v, w)) == v
    ensures Sextet2(Octet1(v, w), Octet2(w, x)) == w && (Clear4(w) ==> Sextet2(Octet1(v, w), 0) == w)
    ensures Sextet3(Octet2(w, x), Octet3(x, y)) == x && (Clear2(x) ==> Sextet3(Octet2(w, x), 0) == x)
    ensures Sextet4(Octet3(x, y)) == y
  {
  }

  /** A group is decoded to what it encodes. */
  lemma GroupIsDecoded(data: seq<byte>, last: bool)
    requires data != [] && (|data| >= 3 || last)
    ensures DecodeGroup(EncodeGroup(data), last) == Some(data[..if |data| < 3 then |data| else 3])
  {
    hide Sextet, Symbol, Sextet1, Sextet2, Sextet3, Sextet4, Octet1, Octet2, Octet3, Clear2, Clear4;
    var a, b, c := data[0], if |data| > 1 then data[1] else 0, if |data| > 2 then data[2] else 0;
    SextetsAreSmall(a, b, c);
    SymbolValue(Sextet1(a));
    SymbolValue(Sextet2(a, b));
    SymbolValue(Sextet3(b, c));
    SymbolValue(Sextet4(c));
    OctetsOfSextets(a, b, c);
    OctetsOfSextets(a, b, 0);
    OctetsOfSextets(a, 0, 0);
    if |data| == 1 {
      assert data[..1] == [a];
    } else if |data| == 2 {
      assert data[..2] == [a, b];
    } else {
      assert data[..3] == [a, b, c];
    }
  }

  lemma DecodeStep(group: string, rest: string)
    requires |group| == 4
    ensures var g, r := DecodeGroup(group, rest == []), Decode(rest);
            Decode(group + rest) == if g.None? || r.None? then None else Some(g.value + r.value)
  {
    hide DecodeGroup;
    var s := group + rest;
    assert s[..4] == group && s[4..] == rest;
  }

  lemma {:induction false} EncodedLength(data: seq<byte>)
    ensures |Encode(data)| == (|data| + 2) / 3 * 4
    decreases |data|
  {
    hide EncodeGroup;
    if data != [] {
      EncodedLength(data[if |data| < 3 then |data| else 3..]);
    }
  }

  /** Decoding recovers every input, so no two inputs have the same encoding. */
  lemma {:induction false} DecodeEncode(data: seq<byte>)
    ensures Decode(Encode(data)) == Some(data)
    ensures |Encode(data)| == (|data| + 2) / 3 * 4
    decreases |data|
  {
    hide EncodeGroup, DecodeGroup;
    EncodedLength(data);
    if data != [] {
      var n := if |data| < 3 then |data| else 3;
      DecodeEncode(data[n..]);
      EncodedLength(data[n..]);
      GroupIsDecoded(data, |data| <= 3);
      DecodeStep(EncodeGroup(data), Encode(data[n..]));
      assert data == data[..n] + data[n..];
    }
  }

  /** A character stands for one value only. */
  lemma ValueSymbol(c: char)
    requires Sextet(c).Some?
    ensures Small(Sextet(c).value) && Symbol(Sextet(c).value) == c && c != '='
  {
    hide Value;
    var n := Value(c).value;
    ByteOfValue(n);
    TableValue(n);
    ValueTellsApart(c, ENCODE_TABLE[n]);
    ValueTellsApart(c, '=');
  }

  lemma ValueTellsApart(c: char, d: char)
    ensures Value(c).Some? && Value(c) == Value(d) ==> c == d
    ensures Value('=') == None
  {
  }

  lemma DecodedGroupIsEncoded(s: string, last: bool, rest: seq<byte>)
    requires |s| == 4 && DecodeGroup(s, last).Some? && (last ==> rest == [])
    ensures EncodeGroup(DecodeGroup(s, last).value + rest) == s
    ensures var n := |DecodeGroup(s, last).value|; 1 <= n <= 3 && (!last ==> n == 3)
  {
    hide Sextet, Symbol, Sextet1, Sextet2, Sextet3, Sextet4, Octet1, Octet2, Octet3, Clear2, Clear4;
    var v, w, x, y := Sextet(s[0]), Sextet(s[1]), Sextet(s[2]), Sextet(s[3]);
    ValueSymbol(s[0]);
    ValueSymbol(s[1]);
    var data := DecodeGroup(s, last).value;
    if |data| == 1 {
      SextetsOfOctets(v.value, w.value, 0, 0);
    } else if |data| == 2 {
      ValueSymbol(s[2]);
      SextetsOfOctets(v.value, w.value, x.value, 0);
    } else {
      ValueSymbol(s[2]);
      ValueSymbol(s[3]);
      SextetsOfOctets(v.value, w.value, x.value, y.value);
    }
  }

  /** Whatever decodes is the encoding of what it decodes to: the encoding of an input is unique. */
  lemma {:induction false} EncodeDecode(s: string)
    requires Decode(s).Some?
    ensures Encode(Decode(s).value) == s
    decreases |s|
  {
    hide EncodeGroup, DecodeGroup;
    if s != [] {
      EncodeDecode(s[4..]);
      var group, rest := DecodeGroup(s[..4], |s| == 4).value, Decode(s[4..]).value;
      DecodedGroupIsEncoded(s[..4], |s| == 4, rest);
      assert s == s[..4] + s[4..];
    }
  }

  /** The encoding is characterised by the decoder of the standard. */
  lemma EncodesIff(s: string, data: seq<byte>)
    ensures s == Encode(data) <==> Decode(s) == Some(data)
  {
    hide Encode, Decode;
    DecodeEncode(data);
    if Decode(s) == Some(data) {
      EncodeDecode(s);
    }
  }

  /** One step of the encoder: three octets, with zeros past the end, make four characters. */
  method AppendGroup(encoded: string, data: seq<byte>, i: nat) returns (longer: string)
    requires i < |data|
    ensures longer == encoded + EncodeGroup(data[i..])
  {
    hide Symbol, Sextet1, Sextet2, Sextet3, Sextet4, Octets, Small, Bits23To18, Bits17To12, Bits11To6, Bits5To0;
    var octetA := data[i];
    var octetB := if i + 1 < |data| then data[i + 1] else 0;
    var octetC := if i + 2 < |data| then data[i + 2] else 0;
    var triple := Octets(octetA, octetB, octetC);
    TripleSextets(octetA, octetB, octetC);
    SextetsAreSmall(octetA, octetB, octetC);
    longer := encoded + [Symbol(Bits23To18(triple))];
    longer := longer + [Symbol(Bits17To12(triple))];
    if i + 1 < |data| {
      longer := longer + [Symbol(Bits11To6(triple))];
    } else {
      longer := longer + ['='];
    }
    if i + 2 < |data| {
      longer := longer + [Symbol(Bits5To0(triple))];
    } else {
      longer := longer + ['='];
    }
  }

  lemma NextGroup(data: seq<byte>, i: nat)
    requires i < |data|
    ensures Encode(data[i..]) == EncodeGroup(data[i..]) + Encode(data[if i + 3 < |data| then i + 3 else |data|..])
  {
    hide EncodeGroup;
    var rest := data[i..];
    assert rest[if |rest| < 3 then |rest| else 3..] == data[if i + 3 < |data| then i + 3 else |data|..];
  }

  lemma NoGroup(data: seq<byte>)
    ensures Encode(data[|data|..]) == [] && data[0..] == data
  {
  }

  /** The encoder: a group for every three octets. */
  method Base64Encode(data: seq<byte>) returns (encoded: string)
    ensures encoded == Encode(data)
    ensures Decode(encoded) == Some(data) && |encoded| == (|data| + 2) / 3 * 4
  {
    hide EncodeGroup, Encode, Decode;
    encoded := [];
    NoGroup(data);
    DecodeEncode(data);
    var i := 0;
    while i < |data|
      invariant Encode(data) == encoded + Encode(data[if i < |data| then i else |data|..])
    {
      NextGroup(data, i);
      encoded := AppendGroup(encoded, data, i);
      i := i + 3;
    }
  }

  lemma SymbolAt(v: byte, c: char)
    requires Small(v) && Value(c) == Some(v as int)
    ensures Symbol(v) == c
  {
    hide Value;
    TableValue(v as int);
    ValueTellsApart(Symbol(v), c);
  }

  lemma KnownSymbols()
    ensures Symbol(25) == 'Z' && Symbol(32) == 'g' && Symbol(38) == 'm'
    ensures Symbol(60) == '8' && Symbol(61) == '9' && Symbol(47) == 'v'
  {
    hide Symbol;
    SymbolAt(25, 'Z');
    SymbolAt(32, 'g');
    SymbolAt(38, 'm');
    SymbolAt(60, '8');
    SymbolAt(61, '9');
    SymbolAt(47, 'v');
  }

  lemma KnownSextets()
    ensures Sextet1(0x66) == 25 && Sextet2(0x66, 0) == 32 && Sextet2(0x66, 0x6F) == 38
    ensures Sextet3(0x6F, 0) == 60 && Sextet3(0x6F, 0x6F) == 61 && Sextet4(0x6F) == 47
  {
  }

  /** The test vectors in section 10 of RFC 4648. */
  lemma KnownEncodings()
    ensures Encode([]) == "" && Encode([0x66]) == "Zg==" && Encode([0x66, 0x6F]) == "Zm8="
    ensures Encode([0x66, 0x6F, 0x6F]) == "Zm9v"
  {
    hide Symbol, Sextet1, Sextet2, Sextet3, Sextet4;
    KnownSymbols();
    KnownSextets();
  }
}
