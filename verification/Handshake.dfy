/**
 The opening handshake (section 4.1 of RFC 6455): the request that is sent, and which responses are accepted. The
 characters of the source's strings are bytes.
 */
module Handshake {
  import opened Errors
  import opened Networking
  import opened Buffer
  import opened Text
  import opened HttpHeader
  import opened HttpParser
  import opened Random
  import opened Url
  import opened Delimiters
  import P = PermessageDeflate
  import Base64
  import Fips180
  import Sha1

  const GUID: string := "258EAFA5-E914-47DA-95CA-C5AB0DC85B11"
  const REFUSED: WSError := WSError(ProtocolError, NOT_SET)

  const KEY: string := "Sec-WebSocket-Key"
  const ACCEPT: string := "Sec-WebSocket-Accept"
  const VERSION: string := "Sec-WebSocket-Version"
  const EXTENSIONS: string := "Sec-WebSocket-Extensions"

  function CharByte(c: char): byte {
    ByteOf(c as int % 0x100)
  }

  function BytesOf(s: string): (bytes: seq<byte>)
    ensures |bytes| == |s| && forall i | 0 <= i < |s| :: bytes[i] == CharByte(s[i])
  {
    seq(|s|, i requires 0 <= i < |s| => CharByte(s[i]))
  }

  function ByteChar(b: byte): char {
    b as int as char
  }

  /** `string_from_bytes`. */
  function StringOf(bytes: seq<byte>): (s: string)
    ensures |s| == |bytes| && forall i | 0 <= i < |s| :: s[i] == ByteChar(bytes[i])
  {
    seq(|bytes|, i requires 0 <= i < |bytes| => ByteChar(bytes[i]))
  }

  predicate AreBytes(s: string) {
    forall i | 0 <= i < |s| :: s[i] as int < 0x100
  }

  lemma SameChar(c: char)
    requires c as int < 0x100
    ensures ByteChar(CharByte(c)) == c
  {
    hide ByteOf;
    ByteOfValue(c as int);
  }

  lemma SameString(s: string)
    requires AreBytes(s)
    ensures StringOf(BytesOf(s)) == s
  {
    hide CharByte, ByteChar;
    forall i | 0 <= i < |s| ensures StringOf(BytesOf(s))[i] == s[i] {
      SameChar(s[i]);
    }
  }

  // ---- the request -------------------------------------------------------------------------------------------

  /** What is offered to the server, and the size of the buffer that decompression would use. */
  datatype Offer = Offer(settings: P.Parameters, room: size_t)

  /** The fields with a default for one name. */
  function WithDefault(fields: seq<Field>, key: string, value: string): seq<Field> {
    if Values(fields, key) == [] then fields + [(key, value)] else fields
  }

  function WithOffer(fields: seq<Field>, offer: Option<Offer>): seq<Field> {
    if offer.Some? && Values(fields, EXTENSIONS) == []
    then Without(fields, EXTENSIONS) + [(EXTENSIONS, P.Offer(offer.value.settings))]
    else fields
  }

  /** The fields of a request: those of the user, what is missing, and the key. */
  function FilledIn(user: seq<Field>, authority: string, key: string, offer: Option<Offer>): seq<Field> {
    var host := WithDefault(user, "Host", authority);
    var upgrade := WithDefault(WithDefault(host, "Upgrade", "websocket"), "Connection", "Upgrade");
    var keyed := Without(WithDefault(upgrade, VERSION, "13"), KEY) + [(KEY, key)];
    WithDefault(WithOffer(keyed, offer), "User-Agent", "websocketclient-cpp")
  }

  /** The value a name has if the user gave it none. */
  function Default(name: string, authority: string, offer: Option<Offer>): seq<string> {
    if EqualsCi("Host", name) then [authority]
    else if EqualsCi("Upgrade", name) then ["websocket"]
    else if EqualsCi("Connection", name) then ["Upgrade"]
    else if EqualsCi(VERSION, name) then ["13"]
    else if EqualsCi(EXTENSIONS, name) && offer.Some? then [P.Offer(offer.value.settings)]
    else if EqualsCi("User-Agent", name) then ["websocketclient-cpp"]
    else []
  }

  /** One name and another that is the same regardless of case have the same values. */
  lemma {:induction false} SameValues(fields: seq<Field>, a: string, b: string)
    requires EqualsCi(a, b)
    ensures Values(fields, a) == Values(fields, b)
  {
    if fields != [] {
      SameValues(fields[1..], a, b);
    }
  }

  lemma DefaultValues(fields: seq<Field>, key: string, value: string, name: string)
    ensures Values(WithDefault(fields, key, value), name) ==
            if EqualsCi(key, name) && Values(fields, name) == [] then [value] else Values(fields, name)
  {
    hide EqualsCi;
    if EqualsCi(key, name) {
      SameValues(fields, key, name);
    }
    ValuesConcat(fields, [(key, value)], name);
  }

  lemma KeyValues(fields: seq<Field>, key: string, value: string, name: string)
    ensures Values(Without(fields, key) + [(key, value)], name) ==
            if EqualsCi(key, name) then [value] else Values(fields, name)
  {
    hide EqualsCi;
    ValuesConcat(Without(fields, key), [(key, value)], name);
    ValuesWithout(fields, key, name);
  }

  lemma OfferValues(fields: seq<Field>, offer: Option<Offer>, name: string)
    ensures Values(WithOffer(fields, offer), name) ==
            if EqualsCi(EXTENSIONS, name) && offer.Some? && Values(fields, name) == []
            then [P.Offer(offer.value.settings)] else Values(fields, name)
  {
    hide EqualsCi, P.Offer;
    if EqualsCi(EXTENSIONS, name) {
      SameValues(fields, EXTENSIONS, name);
    }
    if offer.Some? {
      KeyValues(fields, EXTENSIONS, P.Offer(offer.value.settings), name);
    }
  }

  lemma NamesDiffer(name: string)
    requires EqualsCi(KEY, name)
    ensures !EqualsCi("Host", name) && !EqualsCi("Upgrade", name) && !EqualsCi("Connection", name)
    ensures !EqualsCi(VERSION, name) && !EqualsCi(EXTENSIONS, name) && !EqualsCi("User-Agent", name)
  {
  }

  lemma DefaultsDiffer(name: string)
    ensures EqualsCi("Connection", name) ==> !EqualsCi("User-Agent", name)
    ensures EqualsCi("Host", name) ==> |name| == 4
    ensures EqualsCi("Upgrade", name) ==> |name| == 7
    ensures EqualsCi("Connection", name) ==> |name| == 10
    ensures EqualsCi("User-Agent", name) ==> |name| == 10
    ensures EqualsCi(VERSION, name) ==> |name| == 21
    ensures EqualsCi(EXTENSIONS, name) ==> |name| == 24
  {
    assert LowerChar("Connection"[0]) == 'c' && LowerChar("User-Agent"[0]) == 'u';
  }

  /**
   Whatever fields the user has set, the request carries exactly one key, the generated one; every other name keeps
   the values the user gave it, and the fields that section 4.1 of RFC 6455 requires are there.
   */
  lemma RequestFields(user: seq<Field>, authority: string, key: string, offer: Option<Offer>, name: string)
    ensures Values(FilledIn(user, authority, key, offer), name) ==
            if EqualsCi(KEY, name) then [key]
            else if Values(user, name) != [] then Values(user, name)
            else Default(name, authority, offer)
  {
    hide EqualsCi, P.Offer, Values, WithDefault, Without, WithOffer;
    if EqualsCi(KEY, name) {
      NamesDiffer(name);
    }
    DefaultsDiffer(name);
    var host := WithDefault(user, "Host", authority);
    var upgrade := WithDefault(host, "Upgrade", "websocket");
    var connection := WithDefault(upgrade, "Connection", "Upgrade");
    var version := WithDefault(connection, VERSION, "13");
    var keyed := Without(version, KEY) + [(KEY, key)];
    DefaultValues(user, "Host", authority, name);
    DefaultValues(host, "Upgrade", "websocket", name);
    DefaultValues(upgrade, "Connection", "Upgrade", name);
    DefaultValues(connection, VERSION, "13", name);
    KeyValues(version, KEY, key, name);
    OfferValues(keyed, offer, name);
    DefaultValues(WithOffer(keyed, offer), "User-Agent", "websocketclient-cpp", name);
  }

  function RequestText(resource: string, fields: seq<Field>): string {
    "GET" + " " + resource + " " + "HTTP/1.1" + CRLF + FieldLines(fields) + CRLF
  }

  /** Two 32-bit outputs of the generator, each stored as 64 bits. */
  function KeyBytes(e: Endian, s: State): (bytes: seq<byte>)
    ensures |bytes| == 16
  {
    Image64(e, Output(s) as bv64) + Image64(e, Output(Step(s)) as bv64)
  }

  /** A key decodes to 16 bytes (section 4.1 of RFC 6455). */
  lemma KeyDecodes(e: Endian, s: State)
    ensures Base64.Decode(Base64.Encode(KeyBytes(e, s))) == Some(KeyBytes(e, s))
  {
    hide Base64.Encode, Base64.Decode, KeyBytes;
    Base64.DecodeEncode(KeyBytes(e, s));
  }

  // ---- the response ------------------------------------------------------------------------------------------

  /** The value a server must send for the key of a request. */
  function Accept(key: string): string {
    Base64.Encode(Fips180.Sha1(BytesOf(key + GUID)))
  }

  /** Responses are accepted exactly with the right `Sec-WebSocket-Accept`; its first occurrence counts. */
  method ValidateAccept(response: HttpHeaderFields, key: string) returns (r: Result<()>)
    ensures var values := Values(response.fields, ACCEPT);
            r == if values != [] && values[0] == Accept(key) then Ok(()) else Err(REFUSED)
  {
    hide Values, BytesOf, Base64.Encode, Base64.Decode, Fips180.Sha1;
    var header := response.GetFirst(ACCEPT);
    if header.None? {
      return Err(REFUSED);
    }
    var checksum := new Sha1.SHA1();
    checksum.Update(BytesOf(key + GUID));
    assert [] + BytesOf(key + GUID) == BytesOf(key + GUID);
    var digest := checksum.FinalBytes();
    var expected := Base64.Base64Encode(digest);
    r := if header.value != expected then Err(REFUSED) else Ok(());
  }

  /** A missing version is taken to be the right one. */
  method ValidateVersion(response: HttpHeaderFields) returns (r: Result<()>)
    ensures var values := Values(response.fields, VERSION);
            r == if values == [] || values[0] == "13" then Ok(()) else Err(REFUSED)
  {
    var header := response.GetFirst(VERSION);
    r := if header.Some? && header.value != "13" then Err(REFUSED) else Ok(());
  }

  /** `value[i..j]` is one of the elements that commas separate. */
  predicate IsElement(value: string, i: nat, j: nat) {
    && i <= j <= |value| && (forall k | i <= k < j :: value[k] != ',')
    && (i == 0 || value[i - 1] == ',') && (j == |value| || value[j] == ',')
  }

  /** The element is the token, regardless of case and of white space around it. */
  predicate IsToken(value: string, token: string, i: nat, j: nat) {
    IsElement(value, i, j) && EqualsCi(Trim(value[i..j]), token)
  }

  ghost predicate Lists(value: string, token: string) {
    exists i: nat, j: nat :: IsToken(value, token, i, j)
  }

  ghost predicate Mentions(values: seq<string>, token: string) {
    exists v | v in values :: Lists(v, token)
  }

  method HasToken(value: string, token: string) returns (b: bool)
    ensures b <==> Lists(value, token)
  {
    hide Trim, EqualsCi;
    var i := 0;
    while true
      invariant i <= |value| && (i == 0 || value[i - 1] == ',')
      invariant forall a: nat, z: nat | a < i :: !IsToken(value, token, a, z)
      decreases |value| - i
    {
      var j := IndexOfAny(value, ",", i);
      OneElement(value, i, j);
      if EqualsCi(Trim(value[i..j]), token) {
        assert IsToken(value, token, i, j);
        return true;
      }
      if j == |value| {
        return false;
      }
      i := j + 1;
    }
  }

  /** The element that starts at `i` ends at `j`, and none starts in between. */
  lemma OneElement(value: string, i: nat, j: nat)
    requires i <= |value| && j == IndexOfAny(value, ",", i) && (i == 0 || value[i - 1] == ',')
    ensures IsElement(value, i, j)
    ensures forall a: nat, z: nat | i <= a <= j && IsElement(value, a, z) :: a == i && z == j
    ensures forall a: nat, z: nat | j == |value| && a > j :: !IsElement(value, a, z)
  {
    assert j < |value| ==> value[j] == ',';
    assert forall k | i <= k < j :: value[k] != ',';
  }

  /** `header_contains_token`: whether a field of this name lists the token. */
  method ContainsToken(response: HttpHeaderFields, name: string, token: string) returns (b: bool)
    ensures b <==> Mentions(Values(response.fields, name), token)
  {
    hide Lists, EqualsCi;
    b := false;
    for n := 0 to |response.fields|
      invariant !Mentions(Values(response.fields[..n], name), token)
    {
      var (key, value) := response.fields[n];
      assert response.fields[..n + 1] == response.fields[..n] + [response.fields[n]];
      ValuesConcat(response.fields[..n], [response.fields[n]], name);
      if EqualsCi(key, name) {
        b := HasToken(value, token);
        if b {
          assert response.fields == response.fields[..n + 1] + response.fields[n + 1..];
          ValuesConcat(response.fields[..n + 1], response.fields[n + 1..], name);
          assert value in Values(response.fields, name);
          return;
        }
      }
    }
    assert response.fields[..|response.fields|] == response.fields;
  }

  /**
   What the client demands of the fields of a response: what section 4.1 of RFC 6455 has it check of three of them, and
   the right version if there is one. Only of `Upgrade` it demands less: section 4.1 wants its value to be the token,
   the client is content with a list of values that contains it.
   */
  ghost predicate Proper(fields: seq<Field>, key: string) {
    && Mentions(Values(fields, "Upgrade"), "websocket")
    && Mentions(Values(fields, "Connection"), "Upgrade")
    && (Values(fields, ACCEPT) != [] && Values(fields, ACCEPT)[0] == Accept(key))
    && (Values(fields, VERSION) == [] || Values(fields, VERSION)[0] == "13")
  }

  /** What a response with these fields leads to: an error, or the offer as negotiated, if it is taken up. */
  ghost function Judge(fields: seq<Field>, key: string, asked: Option<Offer>): Result<Option<Offer>> {
    if !Proper(fields, key) then Err(REFUSED)
    else if asked.None? then Ok(None)
    else
      var outcome := P.Outcome(asked.value.settings, Values(fields, EXTENSIONS));
      match outcome.result
      case Err(e) => Err(e)
      case Ok(used) => Ok(if used then Some(Offer(outcome.settings, asked.value.room)) else None)
  }

  // ---- what was not asked for --------------------------------------------------------------------------------

  const PROTOCOL: string := "Sec-WebSocket-Protocol"

  lemma {:induction false} ValuesBetween(a: seq<Field>, f: Field, b: seq<Field>, name: string)
    ensures Values(a + [f] + b, name) ==
            Values(a, name) + (if EqualsCi(f.0, name) then [f.1] else []) + Values(b, name)
    ensures Values(a + b, name) == Values(a, name) + Values(b, name)
  {
    hide EqualsCi;
    ValuesConcat(a, b, name);
    ValuesConcat(a + [f], b, name);
    ValuesConcat(a, [f], name);
    assert [f][1..] == [];
  }

  lemma OtherValues(a: seq<Field>, f: Field, b: seq<Field>, name: string)
    requires |f.0| != |name|
    ensures Values(a + [f] + b, name) == Values(a + b, name)
  {
    hide Values;
    ValuesBetween(a, f, b, name);
    assert Values(a, name) + [] + Values(b, name) == Values(a, name) + Values(b, name);
  }

  /**
   Section 4.1 of RFC 6455 also has the client fail if the response names an extension or a subprotocol it did not
   ask for. But a field with a subprotocol makes no difference anywhere, and neither does a field with extensions,
   unless something was offered and it is the first such field.
   */
  lemma UnaskedIsIgnored(a: seq<Field>, f: Field, b: seq<Field>, key: string, asked: Option<Offer>)
    requires || EqualsCi(PROTOCOL, f.0)
             || (EqualsCi(EXTENSIONS, f.0) && (asked.None? || Values(a, EXTENSIONS) != []))
    ensures Judge(a + [f] + b, key, asked) == Judge(a + b, key, asked)
  {
    hide Values, Accept, Mentions, P.Record, P.Agreed;
    OtherValues(a, f, b, "Upgrade");
    OtherValues(a, f, b, "Connection");
    OtherValues(a, f, b, ACCEPT);
    OtherValues(a, f, b, VERSION);
    ValuesBetween(a, f, b, EXTENSIONS);
    if EqualsCi(PROTOCOL, f.0) {
      OtherValues(a, f, b, EXTENSIONS);
    }
  }

  /**
   When a response is refused, whatever extensions and subprotocols it names: precisely if one of the fields checked is
   not as it must be, or if it takes up an offer with a window size that is none or is larger than was offered. So a
   response that names something the client did not ask for is refused under this condition, and else accepted.
   */
  lemma RefusedIff(fields: seq<Field>, key: string, asked: Option<Offer>)
    ensures Judge(fields, key, asked).Err? <==>
            || !Proper(fields, key)
            || (&& asked.Some? && P.InUse(Values(fields, EXTENSIONS))
                && var extensions := P.Record(map[], Values(fields, EXTENSIONS)[0]);
                   || P.Window(asked.value.settings.serverBits, extensions, P.SERVER_BITS).Err?
                   || P.Window(asked.value.settings.clientBits, extensions, P.CLIENT_BITS).Err?)
    ensures Judge(fields, key, asked) == Ok(None) <==>
            Proper(fields, key) && (asked.None? || !P.InUse(Values(fields, EXTENSIONS)))
  {
    hide Values, Proper, P.Record, P.Window;
  }

  /** A response that names an extension and a subprotocol nobody asked for, in a list of upgrades. */
  function Unasked(accept: string): seq<Field> {
    [("Upgrade", "foo, websocket"), ("Connection", "Upgrade"), (ACCEPT, accept),
     (EXTENSIONS, "x-foo"), (PROTOCOL, "chat")]
  }

  /** It is accepted, with an offer and without, if its `Sec-WebSocket-Accept` is right. */
  lemma UnaskedIsAccepted(accept: string, key: string, asked: Option<Offer>)
    ensures Judge(Unasked(accept), key, asked) == if accept == Accept(key) then Ok(None) else Err(REFUSED)
  {
    hide Values, Accept, P.InUse, Lists;
    UnaskedValues(accept);
    ListedUpgrade();
    NotInUse();
    assert Mentions(["foo, websocket"], "websocket") by {
      assert "foo, websocket" in ["foo, websocket"];
    }
    assert Mentions(["Upgrade"], "Upgrade") by {
      assert "Upgrade" in ["Upgrade"];
    }
    RefusedIff(Unasked(accept), key, asked);
  }

  lemma UnaskedValues(accept: string)
    ensures Values(Unasked(accept), "Upgrade") == ["foo, websocket"]
    ensures Values(Unasked(accept), "Connection") == ["Upgrade"]
    ensures Values(Unasked(accept), ACCEPT) == [accept]
    ensures Values(Unasked(accept), VERSION) == []
    ensures Values(Unasked(accept), EXTENSIONS) == ["x-foo"]
  {
    FiveValues(Unasked(accept), "Upgrade");
    FiveValues(Unasked(accept), "Connection");
    FiveValues(Unasked(accept), ACCEPT);
    FiveValues(Unasked(accept), VERSION);
    FiveValues(Unasked(accept), EXTENSIONS);
  }

  lemma FiveValues(fields: seq<Field>, name: string)
    requires |fields| == 5
    ensures Values(fields, name) ==
            (if EqualsCi(fields[0].0, name) then [fields[0].1] else [])
            + (if EqualsCi(fields[1].0, name) then [fields[1].1] else [])
            + (if EqualsCi(fields[2].0, name) then [fields[2].1] else [])
            + (if EqualsCi(fields[3].0, name) then [fields[3].1] else [])
            + (if EqualsCi(fields[4].0, name) then [fields[4].1] else [])
  {
    hide EqualsCi;
    var f := fields;
    assert f == [f[0]] + [f[1]] + [f[2]] + [f[3]] + [f[4]];
    ValuesConcat([f[0]] + [f[1]] + [f[2]] + [f[3]], [f[4]], name);
    ValuesConcat([f[0]] + [f[1]] + [f[2]], [f[3]], name);
    ValuesConcat([f[0]] + [f[1]], [f[2]], name);
    ValuesConcat([f[0]], [f[1]], name);
    OneValue(f[0], name);
    OneValue(f[1], name);
    OneValue(f[2], name);
    OneValue(f[3], name);
    OneValue(f[4], name);
  }

  lemma OneValue(f: Field, name: string)
    ensures Values([f], name) == if EqualsCi(f.0, name) then [f.1] else []
  {
    hide EqualsCi;
    assert [f][1..] == [];
  }

  lemma ListedUpgrade()
    ensures Lists("foo, websocket", "websocket") && Lists("Upgrade", "Upgrade")
  {
    hide Trim, EqualsCi;
    assert "foo, websocket"[4..14] == " " + "websocket" + [];
    TrimAround(" ", "websocket", []);
    SameToken("websocket");
    assert IsToken("foo, websocket", "websocket", 4, 14);
    assert "Upgrade"[0..7] == [] + "Upgrade" + [];
    TrimAround([], "Upgrade", []);
    SameToken("Upgrade");
    assert IsToken("Upgrade", "Upgrade", 0, 7);
  }

  lemma SameToken(s: string)
    ensures EqualsCi(s, s)
  {
  }

  lemma NotInUse()
    ensures !P.InUse(["x-foo"])
  {
    hide P.Record, P.Entry;
    assert P.IsPlain("x-foo");
    P.ListIsRecorded(map[], "x-foo", [], []);
    assert P.More([]) == [];
    assert [] + "x-foo" + [] == "x-foo" && ["x-foo"] + [] == ["x-foo"];
    P.EntryWithout("x-foo");
    assert ["x-foo"][1..] == [];
    assert "x-foo" != P.EXTENSION;
  }

  /** What the text of a response leads to: everything up to its blank line. */
  ghost function Verdict(text: string, key: string, asked: Option<Offer>): Result<Option<Offer>> {
    match ReadStatus(text)
    case Err(e) => Err(e)
    case Ok((line, rest)) =>
      if line.code != 101 then Err(REFUSED)
      else
        match ParseFields(rest)
        case Err(e) => Err(e)
        case Ok((fields, _)) => Judge(fields, key, asked)
  }

  /** A response header as a server prints it, with the blank line at its end. */
  function ResponseText(line: HttpStatusLine, fields: seq<Field>): string
    requires line.code >= 0
  {
    StatusText(line) + CRLF + FieldLines(fields) + CRLF
  }

  /** A response whose status line and fields are well-formed is accepted for what its fields say if its code is 101. */
  lemma PrintedIsJudged(line: HttpStatusLine, fields: seq<Field>, key: string, asked: Option<Offer>)
    requires IsStatus(line) && forall f | f in fields :: IsGood(f)
    ensures var text := ResponseText(line, fields);
            && |text| >= 4
            && Verdict(text[..|text| - 4], key, asked) ==
               if line.code == 101 then Judge(fields, key, asked) else Err(REFUSED)
  {
    hide ReadStatus, ParseFields, Judge, IsGood, StatusText, FieldLines;
    GoodFieldsEnd(fields);
    var text, more := ResponseText(line, fields), WithoutEnd(FieldLines(fields));
    StatusIsRead(line, more);
    if fields == [] {
      NoLines();
      assert text[..|text| - 4] == StatusText(line);
    } else {
      MoreThanALine(fields);
      assert text[..|text| - 4] == StatusText(line) + CRLF + more;
    }
  }

  lemma NoLines()
    ensures FieldLines([]) == [] && ParseFields([]) == Ok(([], []))
  {
  }

  // ---- where a response ends ---------------------------------------------------------------------------------

  const BLANK: string := "\r\n\r\n"

  /** The end of the response headers: CR LF CR LF. */
  const TERMINATOR: seq<byte> := [13, 10, 13, 10]

  /** A blank line behind a line without newlines lies behind the next line too, unless that one is blank. */
  lemma BlankBehind(line: string, rest: string, q: nat)
    requires '\n' !in line && IsAt(line + CRLF + rest, BLANK, q)
    ensures if q == |line| then |rest| >= 2 && rest[1] == '\n' else q >= |line| + 2 && IsAt(rest, BLANK, q - |line| - 2)
  {
    var s := line + CRLF + rest;
    assert s[q..q + 4][0] == '\r' && s[q..q + 4][1] == '\n' && s[q..q + 4][3] == '\n';
    assert s[q] == '\r' && s[q + 1] == '\n' && s[q + 3] == '\n';
    assert forall i | 0 <= i < |line| :: s[i] == line[i];
    if q >= |line| + 2 {
      assert s[q..q + 4] == rest[q - |line| - 2..q - |line| + 2];
    }
  }

  /** The only blank line behind good fields is the one at the end. */
  lemma {:induction false} BlankAtEnd(fields: seq<Field>, q: nat)
    requires (forall f | f in fields :: IsGood(f)) && IsAt(FieldLines(fields) + CRLF, BLANK, q)
    ensures q == |FieldLines(fields) + CRLF| - 4
  {
    hide FieldLine, IsGood, IsAt;
    if fields == [] {
      assert [] + CRLF == CRLF;
      TooShort(CRLF, q);
    } else {
      var f, rest := fields[0], FieldLines(fields[1..]) + CRLF;
      assert f in fields;
      OneLine(f);
      assert FieldLines(fields) + CRLF == (f.0 + ": " + f.1) + CRLF + rest;
      NextLine(fields[1..]);
      BlankBehind(f.0 + ": " + f.1, rest, q);
      if q != |f.0 + ": " + f.1| {
        BlankAtEnd(fields[1..], q - |f.0 + ": " + f.1| - 2);
      }
    }
  }

  lemma TooShort(s: string, q: nat)
    ensures IsAt(s, BLANK, q) ==> |s| >= 4
  {
  }

  lemma OneLine(f: Field)
    requires IsGood(f)
    ensures FieldLine(f) == (f.0 + ": " + f.1) + CRLF && '\n' !in f.0 + ": " + f.1
  {
  }

  /** Behind a line comes another one, or the blank line at the end. */
  lemma NextLine(fields: seq<Field>)
    requires forall f | f in fields :: IsGood(f)
    ensures var rest := FieldLines(fields) + CRLF;
            |rest| >= 2 && (rest[1] == '\n' <==> fields == [])
  {
    hide IsGood;
    if fields != [] {
      var f := fields[0];
      assert f in fields;
      SecondChar(f);
      var rest := FieldLines(fields) + CRLF;
      assert FieldLines(fields)[1] == FieldLine(f)[1];
    }
  }

  lemma SecondChar(f: Field)
    requires IsGood(f)
    ensures |FieldLine(f)| >= 2 && FieldLine(f)[1] != '\n'
  {
  }

  lemma StatusIsLine(line: HttpStatusLine)
    requires IsStatus(line)
    ensures '\n' !in StatusText(line)
  {
    hide ToDecimal;
    var version, code := line.version, ToDecimal(line.code);
    assert '\n' !in version && '\n' !in code;
  }

  /** The first blank line of a printed response is the one at its end. */
  lemma BlankLast(line: HttpStatusLine, fields: seq<Field>)
    requires IsStatus(line) && forall f | f in fields :: IsGood(f)
    ensures var text := ResponseText(line, fields);
            && IsAt(text, BLANK, |text| - 4)
            && forall q: nat | IsAt(text, BLANK, q) :: q == |text| - 4
  {
    hide IsGood, IsAt, StatusText;
    var text, rest := ResponseText(line, fields), FieldLines(fields) + CRLF;
    StatusIsLine(line);
    NextLine(fields);
    assert text == StatusText(line) + CRLF + rest;
    EndsBlank(StatusText(line), fields);
    forall q: nat | IsAt(text, BLANK, q) ensures q == |text| - 4 {
      BlankBehind(StatusText(line), rest, q);
      if q != |StatusText(line)| {
        BlankAtEnd(fields, q - |StatusText(line)| - 2);
      } else {
        NoLines();
      }
    }
  }

  lemma {:induction false} EndsBlank(line: string, fields: seq<Field>)
    ensures var text := line + CRLF + FieldLines(fields) + CRLF; IsAt(text, BLANK, |text| - 4)
    decreases |fields|
  {
    if fields == [] {
      assert line + CRLF + [] + CRLF == line + BLANK;
    } else {
      var next := fields[0].0 + ": " + fields[0].1;
      EndsBlank(next, fields[1..]);
      var text := next + CRLF + FieldLines(fields[1..]) + CRLF;
      assert FieldLines(fields) == next + CRLF + FieldLines(fields[1..]);
      assert line + CRLF + FieldLines(fields) + CRLF == line + CRLF + text;
    }
  }

  lemma NewlineByte(c: char)
    requires c as int < 0x100
    ensures (CharByte(c) == 13 <==> c == '\r') && (CharByte(c) == 10 <==> c == '\n')
  {
  }

  /** In the bytes of a string, the terminator is where the blank line is in the string. */
  lemma TerminatorIsBlank(s: string, after: seq<byte>, q: nat)
    requires AreBytes(s) && q + 4 <= |s|
    ensures Occurs(BytesOf(s) + after, TERMINATOR, q) <==> IsAt(s, BLANK, q)
  {
    hide CharByte;
    var b := BytesOf(s) + after;
    NewlineByte(s[q]);
    NewlineByte(s[q + 1]);
    NewlineByte(s[q + 2]);
    NewlineByte(s[q + 3]);
    assert b[q..q + 4] == [b[q], b[q + 1], b[q + 2], b[q + 3]];
    assert s[q..q + 4] == [s[q], s[q + 1], s[q + 2], s[q + 3]];
  }

  /** A response is read up to the blank line at its end, whatever follows it. */
  lemma ResponseEnds(line: HttpStatusLine, fields: seq<Field>, after: seq<byte>)
    requires IsStatus(line) && forall f | f in fields :: IsGood(f)
    requires AreBytes(ResponseText(line, fields))
    ensures var text := ResponseText(line, fields);
            && |text| >= 4 && FirstAt(BytesOf(text) + after, TERMINATOR, |text| - 4)
            && StringOf((BytesOf(text) + after)[..|text| - 4]) == text[..|text| - 4]
  {
    hide IsGood, IsAt, Occurs, ResponseText, CharByte, ByteChar, AreBytes;
    var text := ResponseText(line, fields);
    BlankLast(line, fields);
    TextIsLong(line, fields);
    forall q: nat | q <= |text| - 4
      ensures Occurs(BytesOf(text) + after, TERMINATOR, q) <==> IsAt(text, BLANK, q)
    {
      TerminatorIsBlank(text, after, q);
    }
    SameString(text);
  }

  lemma TextIsLong(line: HttpStatusLine, fields: seq<Field>)
    requires line.code >= 0
    ensures |ResponseText(line, fields)| >= 4
  {
  }

  /**
   Whatever follows it, a well-formed response in a server's stream is judged by its status code and its fields.
   */
  lemma ResponseIsJudged(line: HttpStatusLine, fields: seq<Field>, after: seq<byte>, key: string,
                         asked: Option<Offer>, p: nat)
    requires IsStatus(line) && forall f | f in fields :: IsGood(f)
    requires AreBytes(ResponseText(line, fields))
    requires FirstAt(BytesOf(ResponseText(line, fields)) + after, TERMINATOR, p)
    ensures Verdict(StringOf((BytesOf(ResponseText(line, fields)) + after)[..p]), key, asked) ==
            if line.code == 101 then Judge(fields, key, asked) else Err(REFUSED)
  {
    hide IsGood, ResponseText, Verdict, Judge, AreBytes;
    ResponseEnds(line, fields, after);
    PrintedIsJudged(line, fields, key, asked);
    var text := ResponseText(line, fields);
    OnlyFirst(BytesOf(text) + after, TERMINATOR, p, |text| - 4);
  }

  lemma OnlyFirst(h: seq<byte>, d: seq<byte>, p: nat, q: nat)
    requires FirstAt(h, d, p) && FirstAt(h, d, q)
    ensures p == q
  {
    hide Occurs;
  }

  // ---- the handshake -----------------------------------------------------------------------------------------

  class Handshake {
    const url: URL
    const endian: Endian
    const rnd: Xoshiro128p
    const requestFields: HttpHeaderFields
    var responseFields: HttpHeaderFields
    var key: string
    var deflate: P.PermessageDeflate?
    var negotiated: bool
    var success: bool

    ghost predicate Valid()
      reads rnd, rnd.s
    {
      rnd.Valid()
    }

    /** What is offered, as far as it is set. */
    function Asked(): Option<Offer>
      reads this, deflate
    {
      if deflate == null then None else Some(Offer(deflate.Settings(), deflate.decompressBufferSize))
    }

    constructor (url: URL, endian: Endian, seed: bv64)
      ensures Valid() && !negotiated && !success && deflate == null
      ensures this.url == url && this.endian == endian && rnd.View() == Seeded(seed) && requestFields.fields == []
      ensures fresh(rnd) && fresh(rnd.s) && fresh(requestFields)
    {
      this.url, this.endian, key, deflate, negotiated, success := url, endian, [], null, false, false;
      rnd := new Xoshiro128p(seed);
      requestFields := new HttpHeaderFields();
      responseFields := new HttpHeaderFields();
    }

    method SetPermessageDeflate(extension: P.PermessageDeflate)
      modifies this`deflate
      ensures deflate == extension
    {
      deflate := extension;
    }

    /** A new key: two outputs of the generator, in base64. */
    method GenerateKey() returns (generated: string)
      requires Valid()
      modifies rnd.s
      ensures Valid()
      ensures generated == Base64.Encode(KeyBytes(endian, old(rnd.View())))
    {
      hide Base64.Encode, Base64.Decode, Output, Step;
      var part := rnd.Next();
      var bytes := Image64(endian, part as bv64);
      part := rnd.Next();
      bytes := bytes + Image64(endian, part as bv64);
      generated := Base64.Base64Encode(bytes);
    }

    method AddOffer()
      modifies requestFields
      ensures requestFields.fields == WithOffer(old(requestFields.fields), Asked())
    {
      hide Values, Without, P.Offer;
      if deflate != null {
        var present := requestFields.ContainsKey(EXTENSIONS);
        if !present {
          var value := P.PrintOffer(deflate);
          requestFields.Set(EXTENSIONS, value);
        }
      }
    }

    /** The key is new, and the request has the fields `user`, those it must have, and the offer `asked`. */
    ghost predicate Requests(user: seq<Field>, generator: State, asked: Option<Offer>)
      reads `key, requestFields
    {
      && key == Base64.Encode(KeyBytes(endian, generator))
      && requestFields.fields == FilledIn(user, Authority(url), key, asked)
    }

    /** The request, with a new key; what the user has set of it stays. */
    method GetRequestMessage() returns (request: string)
      requires Valid()
      modifies this`key, rnd.s, requestFields
      ensures Valid()
      ensures Requests(old(requestFields.fields), old(rnd.View()), old(Asked()))
      ensures request == RequestText(url.resource, requestFields.fields)
    {
      hide Base64.Encode, KeyBytes, Authority, FieldLines, Values, Without, P.Offer, WithOffer;
      requestFields.AddIfMissing("Host", Authority(url));
      requestFields.AddIfMissing("Upgrade", "websocket");
      requestFields.AddIfMissing("Connection", "Upgrade");
      requestFields.AddIfMissing(VERSION, "13");
      key := GenerateKey();
      requestFields.Set(KEY, key);
      AddOffer();
      requestFields.AddIfMissing("User-Agent", "websocketclient-cpp");
      request := PrintRequest(HttpRequestLine("GET", url.resource, "HTTP/1.1"), requestFields.fields);
    }

    /** The verdict on the text of a response has been taken over. */
    ghost predicate Follows(text: string, asked: Option<Offer>, r: Result<()>, before: bool)
      reads this, deflate
    {
      match Verdict(text, key, asked)
      case Err(e) => r == Err(e) && negotiated == before
      case Ok(taken) =>
        && r.Ok?
        && (if deflate == null then taken.None? && negotiated == before else negotiated == taken.Some?)
        && (taken.Some? ==> Asked() == taken)
    }

    /** Judge the text of a response. */
    method ProcessResponse(text: string) returns (r: Result<()>)
      modifies this`responseFields, this`negotiated, this`success, deflate
      ensures success == (old(success) || r.Ok?)
      ensures Follows(text, old(Asked()), r, old(negotiated))
      ensures deflate != null ==> deflate.decompressBufferSize == old(deflate.decompressBufferSize)
    {
      hide Values, ReadStatus, ParseFields, Mentions, P.Outcome, Accept;
      var stream := new StringStream(text);
      var status := ParseStatusLine(stream);
      if status.Err? {
        return Err(status.error);
      }
      if status.value.code != 101 {
        return Err(REFUSED);
      }
      var parsed := ParseHeaderFields(stream);
      if parsed.Err? {
        return Err(parsed.error);
      }
      responseFields := new HttpHeaderFields();
      responseFields.fields := parsed.value;
      r := ValidateFields();
      if r.Err? {
        return;
      }
      if deflate != null {
        var used := deflate.Negotiate(responseFields);
        if used.Err? {
          return Err(used.error);
        }
        negotiated := used.value;
      }
      success := true;
    }

    /** All checks but the negotiation. */
    method ValidateFields() returns (r: Result<()>)
      ensures r == if Proper(responseFields.fields, key) then Ok(()) else Err(REFUSED)
    {
      hide Accept, Values;
      r := ValidateToken("Upgrade", "websocket");
      if r.Err? {
        return;
      }
      r := ValidateToken("Connection", "Upgrade");
      if r.Err? {
        return;
      }
      r := ValidateAccept(responseFields, key);
      if r.Err? {
        return;
      }
      r := ValidateVersion(responseFields);
    }

    /** `validate_UpgradeWebsocket` and `validate_ConnectionUpgrade`. */
    method ValidateToken(name: string, token: string) returns (r: Result<()>)
      ensures r == if Mentions(Values(responseFields.fields, name), token) then Ok(()) else Err(REFUSED)
    {
      hide Values;
      var present := responseFields.ContainsKey(name);
      if !present {
        return Err(REFUSED);
      }
      var listed := ContainsToken(responseFields, name, token);
      r := if !listed then Err(REFUSED) else Ok(());
    }
  }
}
