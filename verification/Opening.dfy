/**
 The opening handshake in the words of section 4 of RFC 6455: what a server reads in a request, and which responses are
 accepted, without the functions the client computes with.
 */
module Opening {
  import opened Errors
  import opened Networking
  import opened Text
  import opened HttpHeader
  import opened HttpParser
  import opened Handshake
  import opened Random
  import P = PermessageDeflate
  import Base64
  import Fips180

  // ---- the request -------------------------------------------------------------------------------------------

  /** The names of the fields. */
  lemma Names()
    ensures KEY == "Sec-WebSocket-Key" && ACCEPT == "Sec-WebSocket-Accept" && VERSION == "Sec-WebSocket-Version"
    ensures EXTENSIONS == "Sec-WebSocket-Extensions" && PROTOCOL == "Sec-WebSocket-Protocol"
  {
  }

  function Unless(user: seq<string>, value: string): seq<string> {
    if user != [] then user else [value]
  }

  lemma AgentIsNamed(user: seq<Field>, authority: string, key: string, offer: Option<Offer>)
    ensures Values(FilledIn(user, authority, key, offer), "User-Agent") ==
            Unless(Values(user, "User-Agent"), "websocketclient-cpp")
  {
    hide Values, FilledIn, P.Offer, LowerChar;
    RequestFields(user, authority, key, offer, "User-Agent");
    DefaultsDiffer("User-Agent");
    assert EqualsCi("User-Agent", "User-Agent");
  }

  /** The fields of a request, among them those that section 4.1 requires: a user can replace all but the key. */
  lemma RequestCarries(user: seq<Field>, authority: string, key: string, offer: Option<Offer>)
    ensures var fields := FilledIn(user, authority, key, offer);
            && Values(fields, "Host") == Unless(Values(user, "Host"), authority)
            && Values(fields, "Upgrade") == Unless(Values(user, "Upgrade"), "websocket")
            && Values(fields, "Connection") == Unless(Values(user, "Connection"), "Upgrade")
            && Values(fields, "Sec-WebSocket-Version") == Unless(Values(user, "Sec-WebSocket-Version"), "13")
            && Values(fields, "Sec-WebSocket-Key") == [key]
            && Values(fields, "Sec-WebSocket-Extensions") ==
               (if offer.None? then Values(user, "Sec-WebSocket-Extensions")
                else Unless(Values(user, "Sec-WebSocket-Extensions"), P.Offer(offer.value.settings)))
            && Values(fields, "User-Agent") == Unless(Values(user, "User-Agent"), "websocketclient-cpp")
  {
    hide Values, FilledIn, P.Offer;
    RequestFields(user, authority, key, offer, "Host");
    RequestFields(user, authority, key, offer, "Upgrade");
    RequestFields(user, authority, key, offer, "Connection");
    RequestFields(user, authority, key, offer, "Sec-WebSocket-Version");
    RequestFields(user, authority, key, offer, "Sec-WebSocket-Key");
    RequestFields(user, authority, key, offer, "Sec-WebSocket-Extensions");
    AgentIsNamed(user, authority, key, offer);
  }

  /** A request, and how it grows with its fields. */
  lemma RequestIsWritten(resource: string, fields: seq<Field>, f: Field)
    ensures RequestText(resource, []) == "GET " + resource + " HTTP/1.1\r\n\r\n"
    ensures RequestText(resource, fields) == "GET " + resource + " HTTP/1.1\r\n" + FieldLines(fields) + "\r\n"
    ensures FieldLines(fields + [f]) == FieldLines(fields) + (f.0 + ": " + f.1 + "\r\n")
  {
    FieldLinesSnoc(fields, f);
    assert RequestText(resource, fields) == "GET " + resource + " HTTP/1.1\r\n" + FieldLines(fields) + "\r\n" by {
      RequestFront(resource, FieldLines(fields));
    }
    RequestFront(resource, []);
    assert FieldLines([]) == [];
  }

  lemma RequestFront(resource: string, lines: string)
    ensures "GET" + " " + resource + " " + "HTTP/1.1" + CRLF + lines + CRLF ==
            "GET " + resource + " HTTP/1.1\r\n" + lines + "\r\n"
    ensures lines == [] ==>
              "GET " + resource + " HTTP/1.1\r\n" + lines + "\r\n" == "GET " + resource + " HTTP/1.1\r\n\r\n"
  {
  }

  /** A server reads method, target and version in the first line, and all fields, in order, up to the blank line. */
  lemma RequestIsRead(resource: string, fields: seq<Field>)
    requires IsWord(resource) && '\n' !in resource && forall f | f in fields :: IsGood(f)
    ensures var text := RequestText(resource, fields);
            && Word(text) == "GET" && Word(AfterWord(text)) == resource
            && Word(AfterWord(AfterWord(text))) == "HTTP/1.1"
            && ParseFields(AfterLine(text, '\n')) == Ok((fields, []))
  {
    hide Word, AfterWord, Line, AfterLine, FieldLines, ParseFields, IsGood, IsWord;
    var lines := FieldLines(fields);
    var line := "GET" + " " + resource + " " + "HTTP/1.1" + "\r";
    var text := RequestText(resource, fields);
    FixedWords();
    assert text == line + ['\n'] + (lines + CRLF);
    LineEnds(line, '\n', lines + CRLF);
    GoodFieldsAreParsed(fields, []);
    assert lines + CRLF + [] == lines + CRLF;
    var rest := "\r\n" + (lines + CRLF);
    assert text == [] + "GET" + (" " + resource + (" " + "HTTP/1.1" + rest));
    WordEnds([], "GET", " " + resource + (" " + "HTTP/1.1" + rest));
    WordEnds(" ", resource, " " + "HTTP/1.1" + rest);
    WordEnds(" ", "HTTP/1.1", rest);
  }

  lemma FixedWords()
    ensures IsWord("GET") && IsWord("HTTP/1.1") && '\n' !in "GET" && '\n' !in "HTTP/1.1" && IsSpace(' ')
  {
  }

  /** The key holds the generator's next two numbers, each in eight bytes as the host stores them. */
  lemma KeyHolds(e: Endian, s: State) returns (bytes: seq<byte>)
    ensures Base64.Decode(Base64.Encode(KeyBytes(e, s))) == Some(bytes) && |bytes| == 16
    ensures Load64(e, bytes[..8]) == Output(s) as bv64 && Load64(e, bytes[8..]) == Output(Step(s)) as bv64
  {
    hide Base64.Encode, Base64.Decode, Step, Output, Image64, Load64;
    bytes := KeyBytes(e, s);
    KeyDecodes(e, s);
    var first, second := Image64(e, Output(s) as bv64), Image64(e, Output(Step(s)) as bv64);
    LoadsBack(e, Output(s) as bv64);
    LoadsBack(e, Output(Step(s)) as bv64);
    assert bytes == first + second;
    Halves(first, second);
  }

  lemma Halves(a: seq<byte>, b: seq<byte>)
    requires |a| == 8
    ensures (a + b)[..8] == a && (a + b)[8..] == b
  {
  }

  lemma LoadsBack(e: Endian, v: bv64)
    ensures Load64(e, Image64(e, v)) == v
  {
    hide Join64, Bytes64;
    Rejoined64(v);
  }

  lemma Rejoined64(v: bv64)
    ensures var b := Bytes64(v); Join64(b[0], b[1], b[2], b[3], b[4], b[5], b[6], b[7]) == v
  {
  }

  // ---- the digest --------------------------------------------------------------------------------------------

  /** The octets of 258EAFA5-E914-47DA-95CA-C5AB0DC85B11. */
  const GUID_OCTETS: seq<byte> := [50, 53, 56, 69, 65, 70, 65, 53] + [45, 69, 57, 49, 52]
                                  + [45, 52, 55, 68, 65] + [45, 57, 53, 67, 65]
                                  + [45, 67, 53, 65, 66, 48, 68, 67] + [56, 53, 66, 49, 49]

  /** The text decodes to the SHA-1 of the key followed by the octets of the GUID. */
  predicate IsDigest(text: string, key: string) {
    Base64.Decode(text) == Some(Fips180.Sha1(BytesOf(key) + GUID_OCTETS))
  }

  lemma BytesConcat(x: string, y: string)
    ensures BytesOf(x + y) == BytesOf(x) + BytesOf(y)
  {
    hide CharByte;
    var l, r := BytesOf(x + y), BytesOf(x) + BytesOf(y);
    assert |l| == |r| && forall i | 0 <= i < |l| :: l[i] == r[i];
  }

  lemma CharIs(c: char, b: byte)
    requires c as int == b as int
    ensures CharByte(c) == b
  {
    hide ByteOf;
    FromInt(b);
    assert c as int % 0x100 == b as int;
  }

  lemma FromInt(b: byte)
    ensures b as int < 0x100 && ByteOf(b as int) == b
  {
    CastBack(b);
  }

  lemma DigitOctets()
    ensures CharByte('0') == 48 && CharByte('1') == 49 && CharByte('2') == 50 && CharByte('4') == 52
    ensures CharByte('5') == 53 && CharByte('7') == 55 && CharByte('8') == 56 && CharByte('9') == 57
  {
    hide CharByte;
    CharIs('0', 48);
    CharIs('1', 49);
    CharIs('2', 50);
    CharIs('4', 52);
    CharIs('5', 53);
    CharIs('7', 55);
    CharIs('8', 56);
    CharIs('9', 57);
  }

  lemma LetterOctets()
    ensures CharByte('A') == 65 && CharByte('B') == 66 && CharByte('C') == 67 && CharByte('D') == 68
    ensures CharByte('E') == 69 && CharByte('F') == 70 && CharByte('-') == 45
  {
    hide CharByte;
    CharIs('A', 65);
    CharIs('B', 66);
    CharIs('C', 67);
    CharIs('D', 68);
    CharIs('E', 69);
    CharIs('F', 70);
    CharIs('-', 45);
  }

  lemma GuidFront()
    ensures BytesOf("258EAFA5") == [50, 53, 56, 69, 65, 70, 65, 53] && BytesOf("-E914") == [45, 69, 57, 49, 52]
    ensures BytesOf("-47DA") == [45, 52, 55, 68, 65]
  {
    hide CharByte;
    DigitOctets();
    LetterOctets();
  }

  lemma GuidBack()
    ensures BytesOf("-95CA") == [45, 57, 53, 67, 65] && BytesOf("-C5AB0DC") == [45, 67, 53, 65, 66, 48, 68, 67]
    ensures BytesOf("85B11") == [56, 53, 66, 49, 49]
  {
    hide CharByte;
    DigitOctets();
    LetterOctets();
  }

  lemma GuidPieces()
    ensures GUID == "258EAFA5" + "-E914" + "-47DA" + "-95CA" + "-C5AB0DC" + "85B11"
  {
  }

  lemma SixPieces(a: string, b: string, c: string, d: string, e: string, f: string)
    ensures BytesOf(a + b + c + d + e + f) ==
            BytesOf(a) + BytesOf(b) + BytesOf(c) + BytesOf(d) + BytesOf(e) + BytesOf(f)
  {
    hide BytesOf;
    BytesConcat(a, b);
    BytesConcat(a + b, c);
    BytesConcat(a + b + c, d);
    BytesConcat(a + b + c + d, e);
    BytesConcat(a + b + c + d + e, f);
  }

  lemma GuidOctets()
    ensures BytesOf(GUID) == GUID_OCTETS
  {
    hide BytesOf;
    GuidFront();
    GuidBack();
    GuidPieces();
    SixPieces("258EAFA5", "-E914", "-47DA", "-95CA", "-C5AB0DC", "85B11");
  }

  /** Only one text decodes to the digest. */
  lemma DigestIsAccept(text: string, key: string)
    ensures IsDigest(text, key) <==> text == Accept(key)
  {
    hide Base64.Encode, Base64.Decode, Fips180.Sha1, BytesOf;
    GuidOctets();
    BytesConcat(key, GUID);
    Base64.EncodesIff(text, Fips180.Sha1(BytesOf(key) + GUID_OCTETS));
  }

  // ---- the response ------------------------------------------------------------------------------------------

  /** `value` is a list, one of whose elements is the token, regardless of case and of white space around it. */
  ghost predicate HasElement(value: string, token: string) {
    exists before, x, w, y, after :: IsListed(value, token, before, x, w, y, after)
  }

  predicate IsListed(value: string, token: string, before: string, x: string, w: string, y: string, after: string) {
    && value == before + (x + w + y) + after
    && (before == [] || before[|before| - 1] == ',') && (after == [] || after[0] == ',')
    && (forall c | c in x :: IsSpace(c)) && (forall c | c in y :: IsSpace(c)) && EqualsCi(w, token)
  }

  /** A word that differs from a token in case only is no more than the token a list, or in need of trimming. */
  lemma LikeToken(w: string, token: string)
    requires EqualsCi(w, token) && token != [] && IsTrimmed(token) && ',' !in token
    ensures w != [] && IsTrimmed(w) && ',' !in w
  {
    assert forall i | 0 <= i < |w| :: LowerChar(w[i]) == LowerChar(token[i]);
    assert token[0] in token && token[|token| - 1] in token;
  }

  lemma ListedIsElement(value: string, token: string, before: string, x: string, w: string, y: string, after: string)
    requires token != [] && IsTrimmed(token) && ',' !in token && IsListed(value, token, before, x, w, y, after)
    ensures Lists(value, token)
  {
    hide Trim, EqualsCi, IsTrimmed;
    LikeToken(w, token);
    var i, j := |before|, |before| + |x + w + y|;
    assert value[i..j] == x + w + y;
    TrimAround(x, w, y);
    NoComma(x, w, y);
    assert forall k | i <= k < j :: value[k] == (x + w + y)[k - i];
    assert before != [] ==> value[i - 1] == before[|before| - 1];
    assert after != [] ==> value[j] == after[0];
    assert IsToken(value, token, i, j);
  }

  lemma NoComma(x: string, w: string, y: string)
    requires (forall c | c in x :: IsSpace(c)) && (forall c | c in y :: IsSpace(c)) && ',' !in w
    ensures forall k | 0 <= k < |x + w + y| :: (x + w + y)[k] != ','
  {
    forall k | 0 <= k < |x + w + y| ensures (x + w + y)[k] != ',' {
      var c := (x + w + y)[k];
      assert c in x || c in w || c in y;
    }
  }

  /** What the client looks for in a list is an element of it. */
  lemma ListsIff(value: string, token: string)
    requires token != [] && IsTrimmed(token) && ',' !in token
    ensures Lists(value, token) <==> HasElement(value, token)
  {
    hide Trim, EqualsCi, IsTrimmed;
    forall before, x, w, y, after | IsListed(value, token, before, x, w, y, after) ensures Lists(value, token) {
      ListedIsElement(value, token, before, x, w, y, after);
    }
    forall i: nat, j: nat | IsToken(value, token, i, j) ensures HasElement(value, token) {
      var x, y := Trimmed(value[i..j]);
      assert value == value[..i] + value[i..j] + value[j..];
      assert IsListed(value, token, value[..i], x, Trim(value[i..j]), y, value[j..]);
    }
  }

  /** A response to a request with this key: the conditions of section 4.1, with the first field of a name counting. */
  ghost predicate IsAnswer(fields: seq<Field>, key: string) {
    && (exists v | v in Values(fields, "Upgrade") :: HasElement(v, "websocket"))
    && (exists v | v in Values(fields, "Connection") :: HasElement(v, "Upgrade"))
    && (var accepts := Values(fields, "Sec-WebSocket-Accept"); accepts != [] && IsDigest(accepts[0], key))
    && (var versions := Values(fields, "Sec-WebSocket-Version"); versions == [] || versions[0] == "13")
  }

  lemma AnswerIff(fields: seq<Field>, key: string)
    ensures Proper(fields, key) <==> IsAnswer(fields, key)
  {
    hide Values, Lists, HasElement, IsDigest, Accept;
    forall v: string ensures Lists(v, "websocket") <==> HasElement(v, "websocket") {
      ListsIff(v, "websocket");
    }
    forall v: string ensures Lists(v, "Upgrade") <==> HasElement(v, "Upgrade") {
      ListsIff(v, "Upgrade");
    }
    var accepts := Values(fields, ACCEPT);
    if accepts != [] {
      DigestIsAccept(accepts[0], key);
    }
  }

  /** The responses that are accepted: the answers, unless they take up an offer in a way that is refused. */
  lemma AcceptedIff(fields: seq<Field>, key: string, asked: Option<Offer>)
    ensures Judge(fields, key, asked).Ok? <==>
            && IsAnswer(fields, key)
            && (asked.Some? ==>
                  P.Outcome(asked.value.settings, Values(fields, "Sec-WebSocket-Extensions")).result.Ok?)
  {
    hide Values, IsAnswer, Proper, P.Outcome;
    AnswerIff(fields, key);
  }

  /** In an otherwise proper response it is the digest that decides. */
  lemma DigestDecides(accept: string, key: string, asked: Option<Offer>)
    ensures Judge(Unasked(accept), key, asked).Ok? <==> IsDigest(accept, key)
  {
    hide Judge, IsDigest, Accept;
    UnaskedIsAccepted(accept, key, asked);
    DigestIsAccept(accept, key);
  }
}
