/** Negotiating permessage-deflate (section 7.1 of RFC 7692). */
module PermessageDeflate {
  import opened Errors
  import opened Text
  import opened HttpHeader
  import opened Buffer

  const BAD_RESPONSE: WSError := WSError(ProtocolError, NOT_SET)
  const DEFAULT_WINDOW_BITS: nat := 15

  const EXTENSION: string := "permessage-deflate"
  const SERVER_BITS: string := "server_max_window_bits"
  const CLIENT_BITS: string := "client_max_window_bits"
  const SERVER_RESET: string := "server_no_context_takeover"
  const CLIENT_RESET: string := "client_no_context_takeover"

  type Extensions = map<string, string>

  // ---- reading the response ----------------------------------------------------------------------------------

  /** `s` without white space. */
  function Squeeze(s: string): (t: string)
    ensures forall c | c in t :: !IsSpace(c)
  {
    if s == [] then [] else (if IsSpace(s[0]) then [] else [s[0]]) + Squeeze(s[1..])
  }

  /** A parameter's name and value. Without a value behind the first `=`, all of it is the name. */
  function Entry(e: string): (string, string) {
    var n := IndexOfAny(e, "=", 0);
    if n + 1 < |e| then (e[..n], e[n + 1..]) else (e, [])
  }

  /** Record the parameters of `header` in order; a later one replaces an earlier one of its name. */
  function Record(m: Extensions, header: string): Extensions
    decreases |header|
  {
    if header == [] then m
    else
      var (key, value) := Entry(Squeeze(Line(header, ';')));
      Record(m[key := value], AfterLine(header, ';'))
  }

  method ParseExtensions(header: string) returns (extensions: Extensions)
    ensures extensions == Record(map[], header)
  {
    hide Line, AfterLine, Squeeze, Entry;
    extensions := map[];
    var stream := new StringStream(header);
    while true
      invariant fresh(stream)
      invariant Record(map[], header) == Record(extensions, stream.rest)
      decreases |stream.rest|
    {
      var ok, extension := stream.GetLine(';');
      if !ok {
        break;
      }
      extension := Squeeze(extension);
      var key, value := SplitParameter(extension);
      extensions := extensions[key := value];
    }
  }

  /** `getline` twice on one parameter: up to the `=`, then the rest; the second fails if nothing is left. */
  method SplitParameter(extension: string) returns (key: string, value: string)
    ensures (key, value) == Entry(extension)
  {
    var stream := new StringStream(extension);
    var ok, name := stream.GetLine('=');
    if ok {
      var rest := stream.rest;
      if rest != [] {
        return name, rest;
      }
    }
    return extension, [];
  }

  // ---- negotiating -------------------------------------------------------------------------------------------

  /** The parameters that are negotiated. A window size of 0 is not set. */
  datatype Parameters = Parameters(serverBits: nat, clientBits: nat, serverReset: bool, clientReset: bool)

  /** A digit string with a value from 8 to 15; leading zeros are allowed. */
  predicate IsWindowBits(s: string) {
    AllDigits(s) && 8 <= DecimalValue(s) <= 15
  }

  /** The window size a response leads to: the default, or its own unless it is larger than was asked for. */
  function Window(asked: nat, extensions: Extensions, key: string): Result<nat> {
    if key !in extensions then Ok(DEFAULT_WINDOW_BITS)
    else if !IsWindowBits(extensions[key]) then Err(BAD_RESPONSE)
    else if asked > 0 && DecimalValue(extensions[key]) > asked then Err(BAD_RESPONSE)
    else Ok(DecimalValue(extensions[key]))
  }

  /** Whether the extension is in use, and the settings afterwards, adjusted only in part if there is an error. */
  datatype Negotiation = Negotiation(result: Result<bool>, settings: Parameters)

  /** A response that accepts the extension: first both resets are adjusted, then the server's window, then ours. */
  function Agreed(asked: Parameters, extensions: Extensions): Negotiation {
    var resets := asked.(serverReset := SERVER_RESET in extensions,
                         clientReset := asked.clientReset || CLIENT_RESET in extensions);
    match Window(asked.serverBits, extensions, SERVER_BITS)
    case Err(e) => Negotiation(Err(e), resets)
    case Ok(server) =>
      match Window(asked.clientBits, extensions, CLIENT_BITS)
      case Err(e) => Negotiation(Err(e), resets.(serverBits := server))
      case Ok(client) => Negotiation(Ok(true), resets.(serverBits := server, clientBits := client))
  }

  class PermessageDeflate {
    var serverMaxWindowBits: nat  // 8-bit, as is the next
    var clientMaxWindowBits: nat
    var serverNoContextTakeover: bool
    var clientNoContextTakeover: bool
    var decompressBufferSize: size_t

    function Settings(): Parameters
      reads this
    {
      Parameters(serverMaxWindowBits, clientMaxWindowBits, serverNoContextTakeover, clientNoContextTakeover)
    }

    constructor ()
      ensures Settings() == Parameters(DEFAULT_WINDOW_BITS, DEFAULT_WINDOW_BITS, false, false)
      ensures decompressBufferSize == 100 * 1024
    {
      serverMaxWindowBits, clientMaxWindowBits := DEFAULT_WINDOW_BITS, DEFAULT_WINDOW_BITS;
      serverNoContextTakeover, clientNoContextTakeover, decompressBufferSize := false, false, 100 * 1024;
    }

    method ParseWindowBits(bits: string) returns (r: Result<nat>)
      ensures r == if IsWindowBits(bits) then Ok(DecimalValue(bits)) else Err(BAD_RESPONSE)
    {
      hide FromChars;
      var n := ParseNumber(bits, 8, 15);
      ghost var value := if n.Some? then n.value else if AllDigits(bits) then DecimalValue(bits) else 0;
      ParseNumberIff(bits, 8, 15, value);
      r := if n.None? then Err(BAD_RESPONSE) else Ok(n.value);
    }

    method NegotiateServerReset(extensions: Extensions)
      modifies this`serverNoContextTakeover
      ensures serverNoContextTakeover == (SERVER_RESET in extensions)
    {
      if serverNoContextTakeover {
        if SERVER_RESET !in extensions {
          serverNoContextTakeover := false;
        }
      } else if SERVER_RESET in extensions {
        serverNoContextTakeover := true;
      }
    }

    method NegotiateClientReset(extensions: Extensions)
      modifies this`clientNoContextTakeover
      ensures clientNoContextTakeover == (old(clientNoContextTakeover) || CLIENT_RESET in extensions)
    {
      if clientNoContextTakeover {
      } else if CLIENT_RESET in extensions {
        clientNoContextTakeover := true;
      }
    }

    method NegotiateServerWindow(extensions: Extensions) returns (r: Result<()>)
      modifies this`serverMaxWindowBits
      ensures match Window(old(serverMaxWindowBits), extensions, SERVER_BITS)
              case Err(e) => r == Err(e) && serverMaxWindowBits == old(serverMaxWindowBits)
              case Ok(bits) => r.Ok? && serverMaxWindowBits == bits
    {
      hide AllDigits, DecimalValue;
      if serverMaxWindowBits > 0 {
        if SERVER_BITS !in extensions {
          serverMaxWindowBits := DEFAULT_WINDOW_BITS;
        } else {
          var bits := ParseWindowBits(extensions[SERVER_BITS]);
          if bits.Err? {
            return Err(bits.error);
          }
          if bits.value < 8 || bits.value > 15 {
            return Err(BAD_RESPONSE);
          }
          if bits.value > serverMaxWindowBits {
            return Err(BAD_RESPONSE);
          }
          if serverMaxWindowBits != bits.value {
            serverMaxWindowBits := bits.value;
          }
        }
      } else if SERVER_BITS in extensions {
        var bits := ParseWindowBits(extensions[SERVER_BITS]);
        if bits.Err? {
          return Err(bits.error);
        }
        if bits.value < 8 || bits.value > 15 {
          return Err(BAD_RESPONSE);
        }
        serverMaxWindowBits := bits.value;
      } else {
        serverMaxWindowBits := DEFAULT_WINDOW_BITS;
      }
      r := Ok(());
    }

    method NegotiateClientWindow(extensions: Extensions) returns (r: Result<()>)
      modifies this`clientMaxWindowBits
      ensures match Window(old(clientMaxWindowBits), extensions, CLIENT_BITS)
              case Err(e) => r == Err(e) && clientMaxWindowBits == old(clientMaxWindowBits)
              case Ok(bits) => r.Ok? && clientMaxWindowBits == bits
    {
      hide AllDigits, DecimalValue;
      if clientMaxWindowBits > 0 {
        if CLIENT_BITS !in extensions {
          clientMaxWindowBits := DEFAULT_WINDOW_BITS;
        } else {
          var bits := ParseWindowBits(extensions[CLIENT_BITS]);
          if bits.Err? {
            return Err(bits.error);
          }
          if bits.value < 8 || bits.value > 15 {
            return Err(BAD_RESPONSE);
          }
          if bits.value > clientMaxWindowBits {
            return Err(BAD_RESPONSE);
          }
          if clientMaxWindowBits != bits.value {
            clientMaxWindowBits := bits.value;
          }
        }
      } else if CLIENT_BITS in extensions {
        var bits := ParseWindowBits(extensions[CLIENT_BITS]);
        if bits.Err? {
          return Err(bits.error);
        }
        clientMaxWindowBits := bits.value;
      } else {
        clientMaxWindowBits := DEFAULT_WINDOW_BITS;
      }
      r := Ok(());
    }

    /** Adjust the settings to the server's response, and say whether the extension is in use. */
    method Negotiate(response: HttpHeaderFields) returns (r: Result<bool>)
      modifies this
      ensures Negotiation(r, Settings()) ==
              Outcome(old(Settings()), Values(response.fields, "Sec-WebSocket-Extensions"))
      ensures decompressBufferSize == old(decompressBufferSize)
    {
      hide Values, Record, Window;
      var header := response.GetFirst("Sec-WebSocket-Extensions");
      if header.None? {
        return Ok(false);
      }
      var extensions := ParseExtensions(header.value);
      if EXTENSION !in extensions {
        return Ok(false);
      }
      NegotiateServerReset(extensions);
      NegotiateClientReset(extensions);
      var server := NegotiateServerWindow(extensions);
      if server.Err? {
        return Err(server.error);
      }
      var client := NegotiateClientWindow(extensions);
      if client.Err? {
        return Err(client.error);
      }
      r := Ok(true);
    }
  }

  /** `get_SecWebSocketExtensions_value`. */
  method PrintOffer(p: PermessageDeflate) returns (result: string)
    ensures result == Offer(p.Settings())
  {
    hide ToDecimal, More, Setting, Flag;
    NoMore();
    result := EXTENSION;
    assert result == EXTENSION + [];
    ghost var server := Setting(SERVER_BITS, p.serverMaxWindowBits);
    ghost var both := server + Setting(CLIENT_BITS, p.clientMaxWindowBits);
    assert [] + server == server;
    result := AppendSetting(result, SERVER_BITS, p.serverMaxWindowBits, []);
    result := AppendSetting(result, CLIENT_BITS, p.clientMaxWindowBits, server);
    result := AppendFlag(result, SERVER_RESET, p.serverNoContextTakeover, both);
    result := AppendFlag(result, CLIENT_RESET, p.clientNoContextTakeover,
                         both + Flag(SERVER_RESET, p.serverNoContextTakeover));
  }

  /** Append a window size, unless it is not set, to the offer with the parameters `ps`. */
  method AppendSetting(text: string, key: string, bits: nat, ghost ps: seq<string>) returns (result: string)
    requires text == EXTENSION + More(ps)
    ensures result == EXTENSION + More(ps + Setting(key, bits))
  {
    hide ToDecimal, More;
    result := text;
    if bits > 0 {
      result := result + "; " + key + "=";
      result := result + ToDecimal(bits);
      assert result == text + ("; " + (key + "=" + ToDecimal(bits)));
    }
    Appended(ps, Setting(key, bits));
  }

  method AppendFlag(text: string, key: string, present: bool, ghost ps: seq<string>) returns (result: string)
    requires text == EXTENSION + More(ps)
    ensures result == EXTENSION + More(ps + Flag(key, present))
  {
    hide More;
    result := text;
    if present {
      result := result + "; " + key;
      assert result == text + ("; " + key);
    }
    Appended(ps, Flag(key, present));
  }

  lemma Appended(ps: seq<string>, more: seq<string>)
    requires |more| <= 1
    ensures EXTENSION + More(ps + more) ==
            if more == [] then EXTENSION + More(ps) else EXTENSION + More(ps) + ("; " + more[0])
  {
    hide More;
    OneMore(ps, more);
    assert more == [] ==> ps + more == ps;
    if more != [] {
      assert EXTENSION + (More(ps) + ("; " + more[0])) == EXTENSION + More(ps) + ("; " + more[0]);
    }
  }

  /** The outcome for the values of the extension header in a response, of which only the first counts. */
  function Outcome(asked: Parameters, headers: seq<string>): Negotiation {
    if InUse(headers) then Agreed(asked, Record(map[], headers[0])) else Negotiation(Ok(false), asked)
  }

  predicate InUse(headers: seq<string>) {
    headers != [] && EXTENSION in Record(map[], headers[0])
  }

  /**
   After a successful negotiation both window sizes are usable, neither is larger than was asked for if the server
   acknowledged it, and negotiating once more with the same response succeeds and changes nothing.
   */
  lemma Negotiated(asked: Parameters, headers: seq<string>, settings: Parameters)
    requires Outcome(asked, headers) == Negotiation(Ok(true), settings)
    ensures 8 <= settings.serverBits <= 15 && 8 <= settings.clientBits <= 15
    ensures var extensions := Record(map[], headers[0]);
            && (asked.serverBits > 0 && SERVER_BITS in extensions ==> settings.serverBits <= asked.serverBits)
            && (asked.clientBits > 0 && CLIENT_BITS in extensions ==> settings.clientBits <= asked.clientBits)
            && (settings.serverReset <==> SERVER_RESET in extensions)
            && (asked.clientReset ==> settings.clientReset)
    ensures Outcome(settings, headers) == Negotiation(Ok(true), settings)
  {
    hide Record, AllDigits, DecimalValue;
  }

  /**
   Section 7.1.2.2 of RFC 7692 has the client fail if the response brings a `client_max_window_bits` that was not
   offered. The client fails over the parameter exactly when its value is no window size at all, and else takes the
   value over.
   */
  lemma UnofferedWindowIff(asked: Parameters, headers: seq<string>)
    requires asked.clientBits == 0 && InUse(headers) && CLIENT_BITS in Record(map[], headers[0])
    ensures var extensions := Record(map[], headers[0]);
            var server := Window(asked.serverBits, extensions, SERVER_BITS);
            var Negotiation(result, settings) := Outcome(asked, headers);
            && (result.Err? <==> server.Err? || !IsWindowBits(extensions[CLIENT_BITS]))
            && settings.clientBits == if result.Ok? then DecimalValue(extensions[CLIENT_BITS]) else 0
  {
    hide Record, AllDigits, DecimalValue;
  }

  /** A request for a server without context takeover stays in force exactly if the response repeats it. */
  lemma ServerResetIff(asked: Parameters, headers: seq<string>)
    requires asked.serverReset
    ensures Outcome(asked, headers).settings.serverReset <==>
            !InUse(headers) || SERVER_RESET in Record(map[], headers[0])
  {
    hide Record, Window;
  }

  // ---- the offer ---------------------------------------------------------------------------------------------

  function Setting(key: string, bits: nat): seq<string> {
    if bits > 0 then [key + "=" + ToDecimal(bits)] else []
  }

  function Flag(key: string, present: bool): seq<string> {
    if present then [key] else []
  }

  /** The parameters offered, in order. */
  function Offered(p: Parameters): seq<string> {
    Setting(SERVER_BITS, p.serverBits) + Setting(CLIENT_BITS, p.clientBits)
    + Flag(SERVER_RESET, p.serverReset) + Flag(CLIENT_RESET, p.clientReset)
  }

  function More(parameters: seq<string>): string {
    if parameters == [] then [] else "; " + parameters[0] + More(parameters[1..])
  }

  function Offer(p: Parameters): string {
    EXTENSION + More(Offered(p))
  }

  lemma {:induction false} MoreConcat(x: seq<string>, y: seq<string>)
    ensures More(x + y) == More(x) + More(y)
  {
    if x == [] {
      assert x + y == y;
    } else {
      assert (x + y)[1..] == x[1..] + y;
      MoreConcat(x[1..], y);
    }
  }

  lemma NoMore()
    ensures More([]) == []
  {
  }

  /** At most one parameter, behind others. */
  function Part(more: seq<string>): string
    requires |more| <= 1
  {
    if more == [] then "" else "; " + more[0]
  }

  lemma OneMore(ps: seq<string>, more: seq<string>)
    requires |more| <= 1
    ensures More(ps + more) == More(ps) + Part(more)
  {
    MoreConcat(ps, more);
    if more != [] {
      assert more[1..] == [];
    }
  }

  /** A parameter without white space and separators. */
  predicate IsPlain(s: string) {
    forall i | 0 <= i < |s| :: !IsSpace(s[i]) && s[i] != ';'
  }

  lemma {:induction false} SqueezePlain(s: string)
    requires IsPlain(s)
    ensures Squeeze(s) == s && Squeeze(" " + s) == s
  {
    if s != [] {
      SqueezePlain(s[1..]);
    }
    assert (" " + s)[1..] == s;
  }

  /** The parameters recorded one after the other. */
  function RecordAll(m: Extensions, parameters: seq<string>): Extensions
    decreases |parameters|
  {
    if parameters == [] then m
    else RecordAll(m[Entry(parameters[0]).0 := Entry(parameters[0]).1], parameters[1..])
  }

  lemma {:induction false} RecordAllConcat(m: Extensions, x: seq<string>, y: seq<string>)
    ensures RecordAll(m, x + y) == RecordAll(RecordAll(m, x), y)
    decreases |x|
  {
    if x == [] {
      assert x + y == y;
    } else {
      assert (x + y)[1..] == x[1..] + y;
      RecordAllConcat(m[Entry(x[0]).0 := Entry(x[0]).1], x[1..], y);
    }
  }

  /** A printed list of parameters is read back as that list. */
  lemma {:induction false} ListIsRecorded(m: Extensions, first: string, more: seq<string>, space: string)
    requires IsPlain(first) && first != [] && (space == [] || space == " ")
    requires forall i | 0 <= i < |more| :: IsPlain(more[i]) && more[i] != []
    ensures Record(m, space + first + More(more)) == RecordAll(m, [first] + more)
    decreases |more|
  {
    hide Entry, Squeeze, Line, AfterLine, IsPlain;
    var header, m' := space + first + More(more), m[Entry(first).0 := Entry(first).1];
    FirstParameter(first, more, space);
    assert ([first] + more)[1..] == more;
    if more == [] {
      assert Record(m', []) == m' == RecordAll(m', []);
    } else {
      ListIsRecorded(m', more[0], more[1..], " ");
      assert [more[0]] + more[1..] == more;
      assert " " + more[0] + More(more[1..]) == AfterLine(header, ';');
    }
  }

  lemma FirstParameter(first: string, more: seq<string>, space: string)
    requires IsPlain(first) && (space == [] || space == " ")
    ensures var header := space + first + More(more);
            && Squeeze(Line(header, ';')) == first
            && AfterLine(header, ';') == if more == [] then [] else " " + more[0] + More(more[1..])
  {
    hide Squeeze, Line, AfterLine, IsPlain;
    var line := space + first;
    SqueezePlain(first);
    assert space == [] ==> line == first;
    NoSeparator(first, space);
    if more == [] {
      LineEnds(line, ';', []);
      assert line + [] == line;
    } else {
      SeparatorFirst(line, more[0], More(more[1..]));
      LineEnds(line, ';', " " + more[0] + More(more[1..]));
    }
  }

  lemma NoSeparator(first: string, space: string)
    requires IsPlain(first) && (space == [] || space == " ")
    ensures ';' !in space + first
  {
  }

  lemma SeparatorFirst(line: string, next: string, rest: string)
    ensures line + ("; " + next + rest) == line + [';'] + (" " + next + rest)
  {
    assert "; " + next + rest == [';'] + (" " + next + rest);
  }

  lemma EntryWithValue(key: string, value: string)
    requires '=' !in key && value != []
    ensures Entry(key + "=" + value) == (key, value)
  {
    var e := key + "=" + value;
    assert forall i | 0 <= i < |key| :: e[i] == key[i];
    assert e[|key|] == '=';
    assert IndexOfAny(e, "=", 0) == |key|;
    assert e[..|key|] == key && e[|key| + 1..] == value;
  }

  lemma EntryWithout(key: string)
    requires '=' !in key
    ensures Entry(key) == (key, [])
  {
  }

  lemma PlainSetting(key: string, bits: nat)
    requires IsPlain(key)
    ensures forall x | x in Setting(key, bits) :: IsPlain(x) && x != []
  {
    hide ToDecimal;
  }

  lemma ExtensionIsPlain()
    ensures IsPlain(EXTENSION) && '=' !in EXTENSION
  {
  }

  lemma ServerBitsIsPlain()
    ensures IsPlain(SERVER_BITS) && '=' !in SERVER_BITS
  {
  }

  lemma ClientBitsIsPlain()
    ensures IsPlain(CLIENT_BITS) && '=' !in CLIENT_BITS
  {
  }

  lemma ServerResetIsPlain()
    ensures IsPlain(SERVER_RESET) && '=' !in SERVER_RESET
  {
  }

  lemma ClientResetIsPlain()
    ensures IsPlain(CLIENT_RESET) && '=' !in CLIENT_RESET
  {
  }

  lemma KeysAreDistinct()
    ensures EXTENSION != SERVER_BITS && EXTENSION != CLIENT_BITS
    ensures EXTENSION != SERVER_RESET && EXTENSION != CLIENT_RESET
    ensures SERVER_BITS != CLIENT_BITS && SERVER_BITS != SERVER_RESET && SERVER_BITS != CLIENT_RESET
    ensures CLIENT_BITS != SERVER_RESET && CLIENT_BITS != CLIENT_RESET && SERVER_RESET != CLIENT_RESET
  {
    assert SERVER_BITS[0] == 's' && CLIENT_BITS[0] == 'c' && SERVER_RESET[0] == 's' && CLIENT_RESET[0] == 'c';
    assert EXTENSION[0] == 'p' && SERVER_BITS[7] == 'm' && SERVER_RESET[7] == 'n';
    assert CLIENT_BITS[7] == 'm' && CLIENT_RESET[7] == 'n';
  }

  lemma SettingIsRecorded(m: Extensions, key: string, bits: nat)
    requires '=' !in key
    ensures RecordAll(m, Setting(key, bits)) == if bits > 0 then m[key := ToDecimal(bits)] else m
  {
    hide ToDecimal, Entry;
    if bits > 0 {
      EntryWithValue(key, ToDecimal(bits));
      assert Setting(key, bits)[1..] == [];
    }
  }

  lemma FlagIsRecorded(m: Extensions, key: string, present: bool)
    requires '=' !in key
    ensures RecordAll(m, Flag(key, present)) == if present then m[key := []] else m
  {
    hide Entry;
    if present {
      EntryWithout(key);
      assert Flag(key, present)[1..] == [];
    }
  }

  lemma OfferedArePlain(p: Parameters)
    ensures forall i | 0 <= i < |Offered(p)| :: IsPlain(Offered(p)[i]) && Offered(p)[i] != []
  {
    hide Setting, Flag, IsPlain;
    ServerBitsIsPlain();
    ClientBitsIsPlain();
    ServerResetIsPlain();
    ClientResetIsPlain();
    PlainSetting(SERVER_BITS, p.serverBits);
    PlainSetting(CLIENT_BITS, p.clientBits);
    PlainFlag(SERVER_RESET, p.serverReset);
    PlainFlag(CLIENT_RESET, p.clientReset);
    forall i | 0 <= i < |Offered(p)| ensures IsPlain(Offered(p)[i]) && Offered(p)[i] != [] {
      assert Offered(p)[i] in Offered(p);
    }
  }

  lemma PlainFlag(key: string, present: bool)
    requires IsPlain(key) && key != []
    ensures forall x | x in Flag(key, present) :: IsPlain(x) && x != []
  {
  }

  /** What a response that repeats the offer is read as. */
  function Echo(p: Parameters): Extensions {
    var m: Extensions := map[EXTENSION := []];
    var m1 := if p.serverBits > 0 then m[SERVER_BITS := ToDecimal(p.serverBits)] else m;
    var m2 := if p.clientBits > 0 then m1[CLIENT_BITS := ToDecimal(p.clientBits)] else m1;
    var m3 := if p.serverReset then m2[SERVER_RESET := []] else m2;
    if p.clientReset then m3[CLIENT_RESET := []] else m3
  }

  lemma OfferIsRecorded(p: Parameters)
    ensures Record(map[], Offer(p)) == Echo(p)
  {
    hide Entry, Setting, Flag, ToDecimal, IsPlain, More, Record;
    var a, b := Setting(SERVER_BITS, p.serverBits), Setting(CLIENT_BITS, p.clientBits);
    var c, d := Flag(SERVER_RESET, p.serverReset), Flag(CLIENT_RESET, p.clientReset);
    ExtensionIsPlain();
    OfferedArePlain(p);
    ListIsRecorded(map[], EXTENSION, Offered(p), []);
    assert [] + EXTENSION + More(Offered(p)) == Offer(p);
    var m: Extensions := map[EXTENSION := []];
    EntryWithout(EXTENSION);
    RecordAllConcat(map[], [EXTENSION], Offered(p));
    assert RecordAll(map[], [EXTENSION]) == m;
    RecordAllConcat(m, a + b + c, d);
    RecordAllConcat(m, a + b, c);
    RecordAllConcat(m, a, b);
    EachIsRecorded(p, m);
  }

  lemma EachIsRecorded(p: Parameters, m: Extensions)
    requires m == map[EXTENSION := []]
    ensures var a, b := Setting(SERVER_BITS, p.serverBits), Setting(CLIENT_BITS, p.clientBits);
            var c, d := Flag(SERVER_RESET, p.serverReset), Flag(CLIENT_RESET, p.clientReset);
            RecordAll(RecordAll(RecordAll(RecordAll(m, a), b), c), d) == Echo(p)
  {
    hide RecordAll, Setting, Flag, ToDecimal, IsPlain;
    ServerBitsIsPlain();
    ClientBitsIsPlain();
    ServerResetIsPlain();
    ClientResetIsPlain();
    SettingIsRecorded(m, SERVER_BITS, p.serverBits);
    var m1 := RecordAll(m, Setting(SERVER_BITS, p.serverBits));
    SettingIsRecorded(m1, CLIENT_BITS, p.clientBits);
    var m2 := RecordAll(m1, Setting(CLIENT_BITS, p.clientBits));
    FlagIsRecorded(m2, SERVER_RESET, p.serverReset);
    FlagIsRecorded(RecordAll(m2, Flag(SERVER_RESET, p.serverReset)), CLIENT_RESET, p.clientReset);
  }

  lemma EchoedWindow(p: Parameters)
    ensures Window(p.serverBits, Echo(p), SERVER_BITS) == Ok(p.serverBits) <==> 8 <= p.serverBits <= 15
    ensures Window(p.clientBits, Echo(p), CLIENT_BITS) == Ok(p.clientBits) <==> 8 <= p.clientBits <= 15
  {
    hide ToDecimal, AllDigits, DecimalValue;
    KeysAreDistinct();
    DecimalRoundTrip(p.serverBits);
    DecimalRoundTrip(p.clientBits);
  }

  /** A server that repeats the offer keeps all four parameters, precisely when both window sizes are 8 to 15. */
  lemma EchoKeeps(p: Parameters)
    ensures Outcome(p, [Offer(p)]) == Negotiation(Ok(true), p) <==>
            8 <= p.serverBits <= 15 && 8 <= p.clientBits <= 15
  {
    hide Window, Record, Offer, ToDecimal;
    OfferIsRecorded(p);
    EchoedWindow(p);
    KeysAreDistinct();
  }

  // ---- responses that are not what was offered ---------------------------------------------------------------

  /** An unoffered window size is taken over. */
  lemma UnofferedWindow()
    ensures Outcome(Parameters(15, 0, false, false), [EXTENSION + "; " + CLIENT_BITS + "=10"]) ==
            Negotiation(Ok(true), Parameters(15, 10, false, false))
  {
    hide Record, Offer, ToDecimal, AllDigits, DecimalValue;
    var p := Parameters(0, 10, false, false);
    OnlyClientWindow(p);
    TenInDecimal();
    assert CLIENT_BITS + "=10" == CLIENT_BITS + "=" + ToDecimal(10);
    assert Offer(p) == EXTENSION + "; " + CLIENT_BITS + "=10";
    OfferIsRecorded(p);
    OnlyAWindow(Echo(p));
  }

  lemma TenInDecimal()
    ensures ToDecimal(10) == "10" && DecimalValue(ToDecimal(10)) == 10
  {
    assert ToDecimal(1) == "1";
    DecimalRoundTrip(10);
  }

  lemma OnlyClientWindow(p: Parameters)
    requires p.clientBits > 0 && p == Parameters(0, p.clientBits, false, false)
    ensures Offer(p) == EXTENSION + "; " + (CLIENT_BITS + "=" + ToDecimal(p.clientBits))
  {
    hide ToDecimal, More;
    var only := CLIENT_BITS + "=" + ToDecimal(p.clientBits);
    assert Offered(p) == [only];
    OneMore([], [only]);
    NoMore();
    assert [] + [only] == [only];
    assert EXTENSION + ([] + ("; " + only)) == EXTENSION + "; " + only;
  }

  lemma OnlyAWindow(extensions: Extensions)
    requires extensions == map[EXTENSION := []][CLIENT_BITS := ToDecimal(10)]
    ensures Agreed(Parameters(15, 0, false, false), extensions) ==
            Negotiation(Ok(true), Parameters(15, 10, false, false))
  {
    hide ToDecimal, DecimalValue;
    TenInDecimal();
    KeysAreDistinct();
  }

  /** A request that the response does not repeat is dropped. */
  lemma ServerResetDropped()
    ensures Outcome(Parameters(15, 15, true, false), [EXTENSION]) ==
            Negotiation(Ok(true), Parameters(15, 15, false, false))
  {
    hide Record;
    var p := Parameters(0, 0, false, false);
    assert Offered(p) == [];
    assert Offer(p) == EXTENSION;
    OfferIsRecorded(p);
    KeysAreDistinct();
  }

  // ---- responses with smaller windows ------------------------------------------------------------------------

  /** A window size in a response to what was asked for: 8 to 15, and not larger unless nothing was asked for. */
  predicate Takes(asked: nat, bits: nat) {
    8 <= bits <= 15 && (asked == 0 || bits <= asked)
  }

  lemma AnsweredWindow(asked: nat, extensions: Extensions, key: string, bits: nat)
    requires if bits > 0 then key in extensions && extensions[key] == ToDecimal(bits) else key !in extensions
    ensures Window(asked, extensions, key) ==
            if bits == 0 then Ok(15) else if Takes(asked, bits) then Ok(bits) else Err(BAD_RESPONSE)
  {
    hide ToDecimal, AllDigits, DecimalValue;
    DecimalRoundTrip(bits);
  }

  /**
   A response leads to exactly the sizes it has, if they are acceptable, and to 15 bits for a size it has not; and else
   to an error. So a server that answers with smaller windows than were asked for gets them.
   */
  lemma SizesAreTaken(asked: Parameters, answer: Parameters)
    ensures var outcome := Outcome(asked, [Offer(answer)]);
            if && (answer.serverBits == 0 || Takes(asked.serverBits, answer.serverBits))
               && (answer.clientBits == 0 || Takes(asked.clientBits, answer.clientBits))
            then
              outcome ==
              Negotiation(Ok(true), Parameters(if answer.serverBits == 0 then 15 else answer.serverBits,
                                               if answer.clientBits == 0 then 15 else answer.clientBits,
                                               answer.serverReset, asked.clientReset || answer.clientReset))
            else outcome.result == Err(BAD_RESPONSE)
  {
    hide Window, Record, Offer, ToDecimal, Takes;
    OfferIsRecorded(answer);
    KeysAreDistinct();
    AnsweredWindow(asked.serverBits, Echo(answer), SERVER_BITS, answer.serverBits);
    AnsweredWindow(asked.clientBits, Echo(answer), CLIENT_BITS, answer.clientBits);
  }

  /** The names in section 7.1 of RFC 7692. */
  lemma Names()
    ensures EXTENSION == "permessage-deflate"
    ensures SERVER_BITS == "server_max_window_bits" && CLIENT_BITS == "client_max_window_bits"
    ensures SERVER_RESET == "server_no_context_takeover" && CLIENT_RESET == "client_no_context_takeover"
  {
  }

  lemma FirstPart(a: seq<string>)
    requires |a| <= 1
    ensures More(a) == Part(a)
  {
    hide More, Part;
    NoMore();
    OneMore([], a);
    assert [] + a == a && [] + Part(a) == Part(a);
  }

  lemma FourParts(a: seq<string>, b: seq<string>, c: seq<string>, d: seq<string>)
    requires |a| <= 1 && |b| <= 1 && |c| <= 1 && |d| <= 1
    ensures More(a + b + c + d) == Part(a) + Part(b) + Part(c) + Part(d)
  {
    hide More, Part;
    FirstPart(a);
    OneMore(a, b);
    OneMore(a + b, c);
    OneMore(a + b + c, d);
  }

  /** The form of an offer: what is set, in this order. */
  lemma OfferText(p: Parameters)
    ensures Offer(p) == EXTENSION
                        + ((if p.serverBits > 0 then "; " + (SERVER_BITS + "=" + ToDecimal(p.serverBits)) else "")
                           + (if p.clientBits > 0 then "; " + (CLIENT_BITS + "=" + ToDecimal(p.clientBits)) else "")
                           + (if p.serverReset then "; " + SERVER_RESET else "")
                           + (if p.clientReset then "; " + CLIENT_RESET else ""))
  {
    hide ToDecimal, More, Part, Setting, Flag;
    SettingPart(SERVER_BITS, p.serverBits);
    SettingPart(CLIENT_BITS, p.clientBits);
    FlagPart(SERVER_RESET, p.serverReset);
    FlagPart(CLIENT_RESET, p.clientReset);
    FourParts(Setting(SERVER_BITS, p.serverBits), Setting(CLIENT_BITS, p.clientBits),
              Flag(SERVER_RESET, p.serverReset), Flag(CLIENT_RESET, p.clientReset));
  }

  lemma SettingPart(key: string, bits: nat)
    ensures |Setting(key, bits)| <= 1
    ensures Part(Setting(key, bits)) == if bits > 0 then "; " + (key + "=" + ToDecimal(bits)) else ""
  {
    hide ToDecimal;
  }

  lemma FlagPart(key: string, present: bool)
    ensures |Flag(key, present)| <= 1 && Part(Flag(key, present)) == if present then "; " + key else ""
  {
  }
}
