/** URLs: the parser, the printer, and the grammar they are both measured against. */
module Url {
  import opened Errors
  import opened Seqs
  import opened Text

  datatype URL = URL(protocol: string, host: string, port: nat, resource: string)

  const INVALID: WSError := WSError(UrlError, NOT_SET)

  /** The default ports of the known protocols. */
  function DefaultPort(protocol: string): Option<nat> {
    if protocol == "https" || protocol == "wss" then Some(443)
    else if protocol == "http" || protocol == "ws" then Some(80)
    else if protocol == "ftp" then Some(21)
    else if protocol == "ssh" then Some(22)
    else None
  }

  // ---- the grammar -------------------------------------------------------------------------------------------

  /** The pieces of a URL. A host may be put in brackets, and the port may be left out or left empty. */
  datatype Pieces = Pieces(scheme: string, bracketed: bool, host: string, port: Option<string>, tail: string)

  const ENDS: string := "/?#"

  predicate FreeOf(s: string, chars: string) {
    forall i | 0 <= i < |s| :: s[i] !in chars
  }

  predicate IsPort(s: string) {
    AllDigits(s) && 1 <= DecimalValue(s) <= 65535
  }

  /** The port a URL with this optional port text has. */
  function PortOf(port: Option<string>, default: nat): nat
    requires port.Some? && port.value != [] ==> AllDigits(port.value)
  {
    if port.Some? && port.value != [] then DecimalValue(port.value) else default
  }

  predicate PortIsGood(port: Option<string>) {
    port.Some? && port.value != [] ==> IsPort(port.value)
  }

  predicate WellFormed(p: Pieces) {
    && DefaultPort(Lower(p.scheme)).Some?
    && p.host != []
    && (if p.bracketed then ']' !in p.host else FreeOf(p.host, ":/?#") && p.host[0] != '[')
    && PortIsGood(p.port)
    && (p.tail != [] ==> p.tail[0] in ENDS)
  }

  function HostText(p: Pieces): string {
    if p.bracketed then "[" + p.host + "]" else p.host
  }

  function PortText(p: Pieces): string {
    if p.port.Some? then ":" + p.port.value else ""
  }

  function Written(p: Pieces): string {
    p.scheme + "://" + HostText(p) + PortText(p) + p.tail
  }

  /** The request target: without the fragment, and always with a path. */
  function Resource(tail: string): (r: string)
    requires tail != [] ==> tail[0] in ENDS
    ensures r != [] && r[0] == '/' && '#' !in r
  {
    var target := tail[..IndexOfAny(tail, "#", 0)];
    if target == [] then "/" else if target[0] == '?' then "/" + target else target
  }

  function Meaning(p: Pieces): URL
    requires WellFormed(p)
  {
    URL(Lower(p.scheme), p.host, PortOf(p.port, DefaultPort(Lower(p.scheme)).value), Resource(p.tail))
  }

  /** `s` is a way of writing `u`. */
  ghost predicate Means(s: string, u: URL) {
    exists p :: WellFormed(p) && Written(p) == s && Meaning(p) == u
  }

  // ---- the parser --------------------------------------------------------------------------------------------

  lemma Middle(x: string, y: string, z: string)
    ensures (x + y + z)[|x|..|x + y|] == y && (x + y + z)[|x + y|..] == z
  {
  }

  lemma Longer(x: string, y: string, from: nat, to: nat)
    requires from <= to <= |x|
    ensures (x + y)[from..to] == x[from..to]
  {
  }

  /** Where the pieces are. */
  lemma Layout(p: Pieces)
    ensures var s, at := Written(p), |p.scheme| + 3;
            var end := at + |HostText(p)|;
            var rest := end + |PortText(p)|;
            && rest <= |s|
            && s[..|p.scheme|] == p.scheme && s[|p.scheme|..at] == "://"
            && s[at..end] == HostText(p) && s[end..rest] == PortText(p) && s[rest..] == p.tail
  {
    hide HostText, PortText;
    var a, b, h, q, t := p.scheme, "://", HostText(p), PortText(p), p.tail;
    Middle([], a, b);
    Longer(a + b, h, 0, |a|);
    Longer(a + b + h, q, 0, |a|);
    Longer(a + b + h + q, t, 0, |a|);
    Middle(a, b, h);
    Longer(a + b + h, q, |a|, |a| + 3);
    Longer(a + b + h + q, t, |a|, |a| + 3);
    Middle(a + b, h, q);
    Longer(a + b + h + q, t, |a| + 3, |a| + 3 + |h|);
    Middle(a + b + h, q, t);
    assert [] + a + b == a + b;
  }

  lemma KnownProtocol(protocol: string)
    requires DefaultPort(protocol).Some?
    ensures FreeOf(protocol, ":")
  {
  }

  lemma KnownScheme(scheme: string)
    requires DefaultPort(Lower(scheme)).Some?
    ensures FreeOf(scheme, ":")
  {
    hide DefaultPort;
    KnownProtocol(Lower(scheme));
    forall i | 0 <= i < |scheme| ensures scheme[i] !in ":" {
      assert Lower(scheme)[i] !in ":";
    }
  }

  lemma StartsWith(s: string, d: string, i: nat)
    requires d != []
    ensures IsAt(s, d, i) ==> s[i] == d[0]
  {
    assert IsAt(s, d, i) ==> s[i..i + |d|][0] == d[0];
  }

  lemma SchemeFound(p: Pieces)
    requires DefaultPort(Lower(p.scheme)).Some?
    ensures IndexOf(Written(p), "://", 0) == |p.scheme|
  {
    hide DefaultPort;
    Layout(p);
    KnownScheme(p.scheme);
    var s := Written(p);
    forall i | 0 <= i < |p.scheme| ensures !IsAt(s, "://", i) {
      StartsWith(s, "://", i);
      assert s[i] == s[..|p.scheme|][i];
    }
    assert IsAt(s, "://", |p.scheme|);
  }

  /** Searching for one of `chars` in a stretch that has none stops at the first thing behind it that is one. */
  lemma Stops(s: string, chars: string, from: nat, to: nat)
    requires from <= to <= |s| && FreeOf(s[from..to], chars)
    ensures IndexOfAny(s, chars, from) >= to
    ensures to == |s| || s[to] in chars ==> IndexOfAny(s, chars, from) == to
  {
    forall i | from <= i < to ensures s[i] !in chars {
      assert s[i] == s[from..to][i - from];
    }
  }

  lemma PortIsFree(p: Pieces)
    requires WellFormed(p)
    ensures FreeOf(PortText(p), ENDS)
    ensures if p.port.Some? then PortText(p) != [] && PortText(p)[0] == ':' && PortText(p)[1..] == p.port.value
            else PortText(p) == []
  {
  }

  /** What comes behind the host. */
  lemma BehindHost(p: Pieces)
    requires WellFormed(p)
    ensures var s, end := Written(p), |p.scheme| + 3 + |HostText(p)|;
            && end <= |s|
            && if p.port.Some? then end < |s| && s[end] == ':' else end == |s| || s[end] in ENDS
  {
    hide DefaultPort, Written, HostText, PortText;
    Layout(p);
    PortIsFree(p);
    var s, end := Written(p), |p.scheme| + 3 + |HostText(p)|;
    if p.port.Some? {
      assert s[end] == s[end..end + |PortText(p)|][0];
    } else if p.tail != [] {
      assert s[end] == s[end..][0] == p.tail[0];
    }
  }

  /** Where the parser finds a host without brackets. */
  lemma HostFound(p: Pieces)
    requires WellFormed(p) && !p.bracketed
    ensures var s, at := Written(p), |p.scheme| + 3;
            var end := at + |p.host|;
            && at < end <= |s| && s[at] != '[' && s[at..end] == p.host
            && IndexOfAny(s, ":", at) >= end && (p.port.Some? ==> IndexOfAny(s, ":", at) == end)
  {
    hide DefaultPort, Written;
    Layout(p);
    BehindHost(p);
    var s, at := Written(p), |p.scheme| + 3;
    var end := at + |p.host|;
    assert s[at] == s[at..end][0];
    assert FreeOf(p.host, ":");
    Stops(s, ":", at, end);
  }

  /** Where the parser finds a host in brackets. */
  lemma BracketFound(p: Pieces)
    requires WellFormed(p) && p.bracketed
    ensures var s, at := Written(p), |p.scheme| + 3;
            var close := at + |p.host| + 1;
            && close < |s| && s[at] == '[' && IndexOfAny(s, "]", at) == close && s[at + 1..close] == p.host
  {
    hide DefaultPort, Written;
    Layout(p);
    var s, at := Written(p), |p.scheme| + 3;
    Bracketed(s, at, p.host);
    Stops(s, "]", at, at + |p.host| + 1);
  }

  lemma Bracketed(s: string, at: nat, host: string)
    requires at + |host| + 2 <= |s| && s[at..at + |host| + 2] == "[" + host + "]" && ']' !in host
    ensures var close := at + |host| + 1;
            && s[at] == '[' && s[close] == ']' && s[at + 1..close] == host && FreeOf(s[at..close], "]")
  {
    var t := s[at..at + |host| + 2];
    Middle("[", host, "]");
    assert s[at] == t[0] && s[at + |host| + 1] == t[|host| + 1];
    SubSlice(s, at, at + |host| + 2, 1, |host| + 1);
    SubSlice(s, at, at + |host| + 2, 0, |host| + 1);
    assert t[0..|host| + 1] == "[" + host;
  }

  /** Where the parser finds the port and the rest. */
  lemma RestFound(p: Pieces)
    requires WellFormed(p)
    ensures var s, at := Written(p), |p.scheme| + 3;
            var end := at + |HostText(p)|;
            var rest := end + |PortText(p)|;
            && rest <= |s| && s[rest..] == p.tail
            && (p.port.Some? ==> s[end + 1..rest] == p.port.value)
            && IndexOfAny(s, ENDS, if p.bracketed then end else at) == rest
  {
    hide DefaultPort, Written, IndexOfAny, IndexOf;
    Layout(p);
    PortIsFree(p);
    var s, at := Written(p), |p.scheme| + 3;
    var end := at + |HostText(p)|;
    var rest := end + |PortText(p)|;
    if p.port.Some? {
      assert s[end + 1..rest] == s[end..rest][1..];
    }
    assert rest < |s| ==> s[rest] == s[rest..][0] == p.tail[0];
    if p.bracketed {
      Stops(s, ENDS, end, rest);
    } else {
      assert s[at..rest] == p.host + PortText(p);
      Stops(s, ENDS, at, rest);
    }
  }

  /** The host and port as the parser cuts them out, and where the path, query or fragment begins. */
  datatype Reading = Reading(bracketed: bool, host: string, port: Option<string>, hostEnd: nat)

  /** Without brackets a host ends at the first colon, if that comes before the path, else where the path begins. */
  function ReadBare(url: string, at: nat): (r: Reading)
    requires at <= |url|
    ensures r.hostEnd <= |url|
  {
    var colon, hostEnd := IndexOfAny(url, ":", at), IndexOfAny(url, ENDS, at);
    if colon < hostEnd then Reading(false, url[at..colon], Some(url[colon + 1..hostEnd]), hostEnd)
    else Reading(false, url[at..hostEnd], None, hostEnd)
  }

  /** In brackets it ends at the first closing one, and a port may follow. */
  function ReadBracketed(url: string, at: nat): (r: Option<Reading>)
    requires at < |url| && url[at] == '['
    ensures r.Some? ==> r.value.hostEnd <= |url|
  {
    var close := IndexOfAny(url, "]", at);
    if close == |url| then None
    else
      var host, hostEnd := url[at + 1..close], IndexOfAny(url, ENDS, close + 1);
      if close + 1 < |url| && url[close + 1] == ':' then
        Some(Reading(true, host, Some(url[close + 2..hostEnd]), hostEnd))
      else if close + 1 == |url| || url[close + 1] in ENDS then Some(Reading(true, host, None, hostEnd))
      else None
  }

  function ReadHost(url: string, at: nat): (r: Option<Reading>)
    requires at <= |url|
    ensures r.Some? ==> r.value.hostEnd <= |url|
  {
    if at < |url| && url[at] == '[' then ReadBracketed(url, at) else Some(ReadBare(url, at))
  }

  lemma BareIsRead(q: Pieces)
    requires WellFormed(q) && !q.bracketed
    ensures var s, at := Written(q), |q.scheme| + 3;
            && at < |s| && s[at] != '['
            && var r := ReadBare(s, at);
               q.host == r.host && q.port == r.port && q.tail == s[r.hostEnd..] && !r.bracketed
  {
    hide Written, DefaultPort, WellFormed, IndexOfAny;
    HostFound(q);
    RestFound(q);
    assert HostText(q) == q.host;
  }

  lemma BracketedIsRead(q: Pieces)
    requires WellFormed(q) && q.bracketed
    ensures var s, at := Written(q), |q.scheme| + 3;
            && at < |s| && s[at] == '['
            && var r := ReadBracketed(s, at);
            && r.Some? && q.host == r.value.host && q.port == r.value.port && q.tail == s[r.value.hostEnd..]
            && r.value.bracketed
  {
    hide Written, DefaultPort, WellFormed, PortText, HostText, IndexOfAny, IndexOf, ReadBracketed;
    var s, at := Written(q), |q.scheme| + 3;
    BracketFound(q);
    BehindHost(q);
    RestFound(q);
    BracketsAround(q);
    BracketsRead(s, at, at + |q.host| + 1);
  }

  lemma BracketsAround(q: Pieces)
    requires q.bracketed
    ensures |HostText(q)| == |q.host| + 2
  {
  }

  lemma BracketsRead(s: string, at: nat, close: nat)
    requires at < close < |s| && s[at] == '[' && IndexOfAny(s, "]", at) == close
    requires close + 1 < |s| ==> s[close + 1] == ':' || s[close + 1] in ENDS
    ensures var hostEnd := IndexOfAny(s, ENDS, close + 1);
            var port := close + 1 < |s| && s[close + 1] == ':';
            && (port ==> close + 2 <= hostEnd)
            && ReadBracketed(s, at) ==
               Some(Reading(true, s[at + 1..close], if port then Some(s[close + 2..hostEnd]) else None, hostEnd))
  {
    hide IndexOfAny;
    assert close + 1 < |s| && s[close + 1] == ':' ==> s[close + 1] !in ENDS;
  }

  /** There is only one way to cut a string into the pieces of a URL: at the first `://`, then as the parser does. */
  lemma OnlyReading(q: Pieces)
    requires WellFormed(q)
    ensures var s, at := Written(q), |q.scheme| + 3;
            && at <= |s| && q.scheme == s[..IndexOf(s, "://", 0)]
            && var r := ReadHost(s, at);
            && r.Some? && q == Pieces(q.scheme, r.value.bracketed, r.value.host, r.value.port, s[r.value.hostEnd..])
  {
    hide Written, DefaultPort, ReadBare, ReadBracketed, WellFormed;
    SchemeFound(q) by {
      SchemeKnown(q);
    }
    Layout(q);
    if q.bracketed {
      BracketedIsRead(q);
    } else {
      BareIsRead(q);
    }
  }

  lemma SchemeKnown(q: Pieces)
    requires WellFormed(q)
    ensures DefaultPort(Lower(q.scheme)).Some?
  {
  }

  lemma Unambiguous(p: Pieces, q: Pieces)
    requires WellFormed(p) && WellFormed(q) && Written(p) == Written(q)
    ensures p == q
  {
    hide Written, WellFormed, ReadHost;
    OnlyReading(p);
    OnlyReading(q);
  }

  /** `parse_port`. */
  method ParsePort(input: string) returns (r: Result<nat>)
    ensures r == if IsPort(input) then Ok(DecimalValue(input)) else Err(INVALID)
  {
    var port := ParseNumber(input, 1, 65535);
    ghost var value := if port.Some? then port.value else if AllDigits(input) then DecimalValue(input) else 0;
    ParseNumberIff(input, 1, 65535, value);
    r := if port.Some? then Ok(port.value) else Err(INVALID);
  }

  /** The port, unless there is none or it is empty. */
  method PortOrDefault(port: string, default: nat) returns (r: Result<nat>)
    ensures r == if PortIsGood(Some(port)) then Ok(PortOf(Some(port), default)) else Err(INVALID)
  {
    if port == [] {
      return Ok(default);
    }
    r := ParsePort(port);
  }

  /** No URL is written like this. */
  ghost predicate Unreadable(url: string) {
    forall q | WellFormed(q) :: Written(q) != url
  }

  lemma NoScheme(url: string)
    requires var n := IndexOf(url, "://", 0); n == |url| || DefaultPort(Lower(url[..n])).None?
    ensures Unreadable(url)
  {
    hide DefaultPort, Written, WellFormed;
    forall q | WellFormed(q) ensures Written(q) != url {
      SchemeKnown(q);
      SchemeFound(q);
      Layout(q);
    }
  }

  /** The host of `url` begins at `at`, behind a known scheme. */
  ghost predicate HostAt(url: string, at: nat) {
    && var n := IndexOf(url, "://", 0);
    && n < |url| && at == n + 3 <= |url| && url[n..at] == "://"
    && DefaultPort(Lower(url[..n])).Some?
  }

  /** The pieces of `url` as read. */
  ghost function Cut(url: string, at: nat, r: Reading): Pieces
    requires HostAt(url, at) && r.hostEnd <= |url|
  {
    Pieces(url[..at - 3], r.bracketed, r.host, r.port, url[r.hostEnd..])
  }

  lemma BareIsWritten(url: string, at: nat)
    requires HostAt(url, at)
    ensures Written(Cut(url, at, ReadBare(url, at))) == url
  {
    hide DefaultPort, IndexOfAny, IndexOf;
    var r := ReadBare(url, at);
    var end := at + |r.host|;
    PortSlice(url, end, r.hostEnd);
    WrittenSlices(url, at, end, r);
  }

  lemma PortSlice(url: string, from: nat, to: nat)
    requires from <= to <= |url|
    ensures from < to && url[from] == ':' ==> url[from..to] == ":" + url[from + 1..to]
    ensures from == to ==> url[from..to] == ""
  {
  }

  lemma WrittenSlices(url: string, at: nat, end: nat, r: Reading)
    requires HostAt(url, at) && at <= end <= r.hostEnd <= |url|
    requires HostText(Cut(url, at, r)) == url[at..end] && PortText(Cut(url, at, r)) == url[end..r.hostEnd]
    ensures Written(Cut(url, at, r)) == url
  {
    hide DefaultPort, IndexOf, HostText, PortText;
    JoinSlices(url, at - 3, at, end, r.hostEnd);
  }

  lemma BracketedIsWritten(url: string, at: nat)
    requires HostAt(url, at) && at < |url| && url[at] == '[' && ReadBracketed(url, at).Some?
    ensures Written(Cut(url, at, ReadBracketed(url, at).value)) == url
  {
    hide DefaultPort, IndexOfAny, IndexOf;
    var r := ReadBracketed(url, at).value;
    var end := at + |r.host| + 2;
    InBrackets(url, at, end - 1);
    PortSlice(url, end, r.hostEnd);
    WrittenSlices(url, at, end, r);
  }

  lemma InBrackets(url: string, at: nat, close: nat)
    requires at < close < |url| && url[at] == '[' && url[close] == ']'
    ensures url[at..close + 1] == "[" + url[at + 1..close] + "]"
  {
  }

  /** What is read fits the grammar, but for the host that may be empty and the port that may be bad. */
  lemma ReadingFits(url: string, at: nat)
    requires HostAt(url, at) && ReadHost(url, at).Some?
    requires ReadHost(url, at).value.host != [] && PortIsGood(ReadHost(url, at).value.port)
    ensures WellFormed(Cut(url, at, ReadHost(url, at).value))
  {
    hide DefaultPort, PortIsGood, IndexOfAny, IndexOf;
    var r := ReadHost(url, at).value;
    if !r.bracketed {
      forall i | 0 <= i < |r.host| ensures r.host[i] !in ":/?#" {
        assert r.host[i] == url[at + i];
      }
    } else {
      forall i | 0 <= i < |r.host| ensures r.host[i] != ']' {
        assert r.host[i] == url[at + 1 + i];
      }
    }
  }

  /** Exactly the URLs with a readable host, a good port and a host that is not empty are well-formed. */
  lemma ReadableIff(url: string, at: nat)
    requires HostAt(url, at)
    ensures var r := ReadHost(url, at);
            if r.Some? && PortIsGood(r.value.port) && r.value.host != []
            then WellFormed(Cut(url, at, r.value)) && Written(Cut(url, at, r.value)) == url
            else Unreadable(url)
  {
    hide DefaultPort, Written, WellFormed, ReadHost, PortIsGood, Cut, IndexOf;
    var r := ReadHost(url, at);
    if r.Some? {
      ReadingIsWritten(url, at);
      if PortIsGood(r.value.port) && r.value.host != [] {
        ReadingFits(url, at);
      }
    }
    forall q | WellFormed(q) && Written(q) == url
      ensures r.Some? && PortIsGood(r.value.port) && r.value.host != []
    {
      WrittenIsReadable(url, at, q);
    }
  }

  lemma ReadingIsWritten(url: string, at: nat)
    requires HostAt(url, at) && ReadHost(url, at).Some?
    ensures Written(Cut(url, at, ReadHost(url, at).value)) == url
  {
    hide DefaultPort, Written, ReadBare, ReadBracketed, IndexOf;
    if at < |url| && url[at] == '[' {
      BracketedIsWritten(url, at);
    } else {
      BareIsWritten(url, at);
    }
  }

  lemma WrittenIsReadable(url: string, at: nat, q: Pieces)
    requires HostAt(url, at) && WellFormed(q) && Written(q) == url
    ensures var r := ReadHost(url, at);
            r.Some? && PortIsGood(r.value.port) && r.value.host != []
  {
    hide DefaultPort, Written, WellFormed, ReadHost, PortIsGood;
    SchemeKnown(q);
    SchemeFound(q);
    Layout(q);
    OnlyReading(q);
    HostAndPort(q);
  }

  lemma HostAndPort(q: Pieces)
    requires WellFormed(q)
    ensures PortIsGood(q.port) && q.host != []
  {
  }

  // ---- parsing -----------------------------------------------------------------------------------------------

  /** Host, port and the end of both, when the host is in brackets. */
  method ParseBracketed(url: string, offset: nat, defaultPort: nat) returns (r: Result<(string, nat, nat)>)
    requires offset < |url| && url[offset] == '['
    ensures var q := ReadBracketed(url, offset);
            r == if q.Some? && PortIsGood(q.value.port)
                 then Ok((q.value.host, PortOf(q.value.port, defaultPort), q.value.hostEnd)) else Err(INVALID)
  {
    hide IsPort;
    var ipv6End := IndexOfAny(url, "]", offset);
    if ipv6End == |url| {
      return Err(INVALID);
    }
    var host := url[offset + 1..ipv6End];
    var port := defaultPort;
    var portStart := ipv6End + 1;
    var hostEnd := IndexOfAny(url, ENDS, portStart);
    if portStart < |url| && url[portStart] == ':' {
      var res := PortOrDefault(url[portStart + 1..hostEnd], defaultPort);
      if res.Err? {
        return Err(res.error);
      }
      port := res.value;
    } else if portStart < |url| && url[portStart] != '/' && url[portStart] != '?' && url[portStart] != '#' {
      return Err(INVALID);
    }
    r := Ok((host, port, hostEnd));
  }

  /** Host, port and the end of both, when there are no brackets. */
  method ParseBare(url: string, offset: nat, defaultPort: nat) returns (r: Result<(string, nat, nat)>)
    requires offset <= |url|
    ensures var q := ReadBare(url, offset);
            r == if PortIsGood(q.port) then Ok((q.host, PortOf(q.port, defaultPort), q.hostEnd)) else Err(INVALID)
  {
    hide IsPort;
    var hostEnd := IndexOfAny(url, ENDS, offset);
    var colon := IndexOfAny(url, ":", offset);
    if colon != |url| && (hostEnd == |url| || colon < hostEnd) {
      var res := PortOrDefault(url[colon + 1..hostEnd], defaultPort);
      if res.Err? {
        return Err(res.error);
      }
      r := Ok((url[offset..colon], res.value, hostEnd));
    } else {
      r := Ok((url[offset..hostEnd], defaultPort, hostEnd));
    }
  }

  /** The HTTP request target: what follows the host, without the fragment. */
  method ParseResource(url: string, hostEnd: nat) returns (resource: string)
    requires hostEnd <= |url| && (hostEnd < |url| ==> url[hostEnd] in ENDS)
    ensures resource == Resource(url[hostEnd..])
  {
    var tail := url[hostEnd..];
    if hostEnd == |url| || url[hostEnd] == '#' {
      return "/";
    }
    var fragment := IndexOfAny(url, "#", hostEnd);
    resource := url[hostEnd..fragment];
    Stops(tail, "#", 0, fragment - hostEnd);
    assert tail[..fragment - hostEnd] == resource;
    if resource != [] && resource[0] == '?' {
      resource := "/" + resource;
    }
  }

  /** The URL a string means, or an error if it means none. */
  method Parse(url: string) returns (r: Result<URL>)
    ensures r.Ok? ==> Means(url, r.value)
    ensures r.Err? ==> r.error == INVALID && Unreadable(url)
  {
    hide DefaultPort, Written, WellFormed, IsPort, AllDigits, ReadBare, ReadBracketed, Resource, PortIsGood, PortOf;
    var protocolEnd := IndexOf(url, "://", 0);
    if protocolEnd == |url| {
      NoScheme(url);
      return Err(INVALID);
    }
    var protocol := Lower(url[..protocolEnd]);
    var defaultPort := DefaultPort(protocol);
    if defaultPort.None? {
      NoScheme(url);
      return Err(INVALID);
    }
    var offset := protocolEnd + 3;
    ReadableIff(url, offset);
    var res;
    if offset < |url| && url[offset] == '[' {
      res := ParseBracketed(url, offset, defaultPort.value);
    } else {
      res := ParseBare(url, offset, defaultPort.value);
    }
    if res.Err? {
      return Err(res.error);
    }
    var (host, port, hostEnd) := res.value;
    if host == [] {
      return Err(INVALID);
    }
    ghost var p := Cut(url, offset, ReadHost(url, offset).value);
    TailBegins(p);
    var resource := ParseResource(url, hostEnd);
    r := Ok(URL(protocol, host, port, resource));
    assert Meaning(p) == r.value;
  }

  lemma TailBegins(q: Pieces)
    requires WellFormed(q)
    ensures q.tail != [] ==> q.tail[0] in ENDS
  {
  }

  // ---- printing ----------------------------------------------------------------------------------------------

  /** Host and port, with brackets around IPv6 addresses. */
  function Authority(u: URL): string {
    if ':' in u.host then "[" + u.host + "]:" + ToDecimal(u.port) else u.host + ":" + ToDecimal(u.port)
  }

  function ToString(u: URL): string {
    u.protocol + "://" + Authority(u) + u.resource
  }

  /** A host that was in brackets without containing a colon loses them in print. */
  predicate PrintsBack(u: URL) {
    ':' in u.host || (FreeOf(u.host, ENDS) && (u.host != [] ==> u.host[0] != '['))
  }

  /** The pieces the printer writes. */
  function Printed(u: URL): Pieces {
    Pieces(u.protocol, ':' in u.host, u.host, Some(ToDecimal(u.port)), u.resource)
  }

  lemma AuthorityIsWritten(u: URL)
    ensures Authority(u) == HostText(Printed(u)) + PortText(Printed(u))
  {
    hide ToDecimal;
    var h, d := u.host, ToDecimal(u.port);
    if ':' in h {
      assert "[" + h + "]:" + d == "[" + h + "]" + (":" + d);
    } else {
      assert h + ":" + d == h + (":" + d);
    }
  }

  lemma PrintedIsWritten(u: URL)
    ensures Written(Printed(u)) == ToString(u)
  {
    hide HostText, PortText, Authority;
    AuthorityIsWritten(u);
    Assoc(u.protocol + "://", HostText(Printed(u)), PortText(Printed(u)));
  }

  /** What every parsed URL is like. */
  lemma ParsedFields(s: string, u: URL)
    requires Means(s, u)
    ensures DefaultPort(u.protocol).Some? && Lower(u.protocol) == u.protocol
    ensures u.host != [] && (':' in u.host ==> ']' !in u.host)
    ensures 1 <= u.port <= 65535
    ensures Resource(u.resource) == u.resource && u.resource[0] in ENDS
  {
    var p :| WellFormed(p) && Written(p) == s && Meaning(p) == u;
    hide Written;
    LowerTwice(p.scheme);
    ResourceTwice(p.tail);
    assert ':' in p.host ==> p.bracketed;
  }

  lemma LowerTwice(s: string)
    ensures Lower(Lower(s)) == Lower(s)
  {
  }

  lemma ResourceTwice(tail: string)
    requires tail != [] ==> tail[0] in ENDS
    ensures var r := Resource(tail); r != [] && r[0] in ENDS && Resource(r) == r
  {
    var r := Resource(tail);
    assert FreeOf(r[0..|r|], "#");
    Stops(r, "#", 0, |r|);
    assert r[..|r|] == r;
  }

  /**
   The printed form of a parsed URL means that URL again, precisely when its host contains a colon, or none of
   `/?#` and no `[` at its front. Only a host in brackets can fail this.
   */
  lemma RoundTrip(s: string, u: URL)
    requires Means(s, u)
    ensures Means(ToString(u), u) <==> PrintsBack(u)
  {
    if PrintsBack(u) {
      PrintedMeans(s, u);
    }
    if Means(ToString(u), u) {
      OnlyIfPrintsBack(s, u);
    }
  }

  lemma PrintedMeans(s: string, u: URL)
    requires Means(s, u) && PrintsBack(u)
    ensures Means(ToString(u), u)
  {
    hide DefaultPort, Written, Resource, ToString, ToDecimal;
    ParsedFields(s, u);
    PrintedIsWritten(u);
    DecimalRoundTrip(u.port);
    assert WellFormed(Printed(u)) && Meaning(Printed(u)) == u;
  }

  lemma OnlyIfPrintsBack(s: string, u: URL)
    requires Means(s, u) && Means(ToString(u), u)
    ensures PrintsBack(u)
  {
    ParsedFields(s, u);
    PrintedIsWritten(u);
    var q :| WellFormed(q) && Written(q) == ToString(u) && Meaning(q) == u;
    if q.bracketed && ':' !in u.host {
      NotInBrackets(q, u);
    }
  }

  /** A host printed without brackets is not read as a host in brackets. */
  lemma NotInBrackets(q: Pieces, u: URL)
    requires WellFormed(q) && q.bracketed && Written(q) == ToString(u) && q.host == u.host
    requires DefaultPort(u.protocol).Some? && Lower(u.protocol) == u.protocol
    ensures ':' in u.host
  {
    hide DefaultPort, Written, ToString, ToDecimal;
    if ':' !in u.host {
      var t, at := ToString(u), |q.scheme| + 3;
      PrintedIsWritten(u);
      SchemeFound(q);
      SchemeFound(Printed(u));
      Layout(Printed(u));
      BracketFound(q);
    }
  }

  /** A URL that does not survive: the brackets around `a/b` are lost. */
  lemma BracketsLost()
    ensures var u := URL("ws", "a/b", 80, "/"); Means("ws://[a/b]", u) && !PrintsBack(u)
  {
    hide IndexOfAny, IndexOf, DecimalValue, AllDigits;
    var p := Pieces("ws", true, "a/b", None, "");
    assert Lower("ws") == "ws";
    assert WellFormed(p);
    assert p.host[1] == '/';
  }

  // ---- a URL part by part ------------------------------------------------------------------------------------

  /** The parts of a URL: the host may be in brackets; port, path, query and fragment may be missing. */
  datatype Parts = Parts(scheme: string, bracketed: bool, host: string, port: Option<string>, path: string,
                         query: string, fragment: string)
  {
    predicate Valid() {
      && host != []
      && (if bracketed then ']' !in host else (forall c | c in host :: c !in ":/?#") && host[0] != '[')
      && (port.Some? && port.value != [] ==> AllDigits(port.value) && 1 <= DecimalValue(port.value) <= 65535)
      && (path != [] ==> path[0] == '/' && '?' !in path && '#' !in path)
      && (query != [] ==> query[0] == '?' && '#' !in query)
      && (fragment != [] ==> fragment[0] == '#')
    }

    function Text(): string {
      scheme + "://" + (if bracketed then "[" + host + "]" else host)
      + (if port.Some? then ":" + port.value else "") + (path + query + fragment)
    }
  }

  /** The schemes and their ports. */
  predicate HasPort(scheme: string, port: int) {
    || (port == 80 && (scheme == "ws" || scheme == "http"))
    || (port == 443 && (scheme == "wss" || scheme == "https"))
    || (port == 21 && scheme == "ftp") || (port == 22 && scheme == "ssh")
  }

  lemma PortsOfSchemes(scheme: string)
    ensures forall port :: DefaultPort(scheme) == Some(port) <==> HasPort(scheme, port)
    ensures DefaultPort(scheme).None? <==> forall port :: !HasPort(scheme, port)
  {
    var d := DefaultPort(scheme);
    assert d.Some? ==> HasPort(scheme, d.value);
  }

  /** The query belongs to what is asked of the server, the fragment does not, and a missing path is `/`. */
  lemma ResourceOfParts(path: string, query: string, fragment: string)
    requires path != [] ==> path[0] == '/' && '?' !in path && '#' !in path
    requires query != [] ==> query[0] == '?' && '#' !in query
    requires fragment != [] ==> fragment[0] == '#'
    ensures var tail := path + query + fragment;
            && (tail != [] ==> tail[0] in ENDS)
            && Resource(tail) == (if path == [] then "/" else path) + query
  {
    var target, tail := path + query, path + query + fragment;
    forall i | 0 <= i < |target| ensures target[i] != '#' {
      assert target[i] in path || target[i] in query;
    }
    assert forall i | 0 <= i < |target| :: tail[i] == target[i];
    assert fragment != [] ==> tail[|target|] == '#';
    assert IndexOfAny(tail, "#", 0) == |target|;
    assert tail[..|target|] == target;
    if path == [] {
      assert target == query;
    }
  }

  /**
   A URL put together from its parts is read as just these: the scheme in lower case, the host without brackets, the
   number of the port or that of the scheme, and path and query.
   */
  lemma PartsAreRead(p: Parts, default: nat, u: URL)
    requires p.Valid() && HasPort(Lower(p.scheme), default)
    ensures Means(p.Text(), u) <==>
            u == URL(Lower(p.scheme), p.host,
                     if p.port.Some? && p.port.value != [] then DecimalValue(p.port.value) else default,
                     (if p.path == [] then "/" else p.path) + p.query)
  {
    hide Written, WellFormed, Resource, DefaultPort, HasPort, AllDigits, DecimalValue;
    var q := Pieces(p.scheme, p.bracketed, p.host, p.port, p.path + p.query + p.fragment);
    PortsOfSchemes(Lower(p.scheme));
    ResourceOfParts(p.path, p.query, p.fragment);
    PartsAreWritten(p, q);
    forall q' | WellFormed(q') && Written(q') == p.Text() ensures q' == q {
      Unambiguous(q', q);
    }
  }

  lemma PartsAreWritten(p: Parts, q: Pieces)
    requires p.Valid() && DefaultPort(Lower(p.scheme)).Some?
    requires q == Pieces(p.scheme, p.bracketed, p.host, p.port, p.path + p.query + p.fragment)
    requires q.tail != [] ==> q.tail[0] in ENDS
    ensures WellFormed(q) && Written(q) == p.Text()
  {
    hide DefaultPort, AllDigits, DecimalValue;
  }

  lemma TailSplits(tail: string) returns (path: string, query: string, fragment: string)
    requires tail != [] ==> tail[0] in ENDS
    ensures path + query + fragment == tail
    ensures path != [] ==> path[0] == '/' && '?' !in path && '#' !in path
    ensures query != [] ==> query[0] == '?' && '#' !in query
    ensures fragment != [] ==> fragment[0] == '#'
  {
    var hash, mark := IndexOfAny(tail, "#", 0), IndexOfAny(tail, "?#", 0);
    assert mark <= hash;
    path, query, fragment := tail[..mark], tail[mark..hash], tail[hash..];
    assert path + query == tail[..hash];
  }

  /** And every URL that is read is such a text. */
  lemma ReadIsParts(url: string, u: URL) returns (p: Parts, default: nat)
    requires Means(url, u)
    ensures p.Valid() && HasPort(Lower(p.scheme), default) && p.Text() == url
  {
    hide DefaultPort, HasPort, AllDigits, DecimalValue, Meaning;
    var q :| WellFormed(q) && Written(q) == url && Meaning(q) == u;
    PortsOfSchemes(Lower(q.scheme));
    default := DefaultPort(Lower(q.scheme)).value;
    var path, query, fragment := TailSplits(q.tail);
    p := Parts(q.scheme, q.bracketed, q.host, q.port, path, query, fragment);
  }

  /** The port is always printed, and brackets exactly around a host with colons. */
  lemma AuthorityExamples()
    ensures Authority(URL("ws", "h", 80, "/")) == "h:80"
    ensures Authority(URL("wss", "::1", 8443, "/")) == "[::1]:8443"
  {
    assert ToDecimal(8) == "8" && ToDecimal(84) == "84" && ToDecimal(844) == "844";
    assert ToDecimal(80) == "80" && ToDecimal(8443) == "8443";
    assert "::1"[0] == ':';
  }
}
