/** Parsing HTTP header fields, and which fields survive being printed and parsed. */
module HttpParser {
  import opened Errors
  import opened Text
  import opened HttpHeader

  const MALFORMED: WSError := WSError(ProtocolError, NOT_SET)

  /** A line that is not blank, as a field: the name up to the first colon, and the value without white space around. */
  function ParseLine(line: string): (r: Result<Field>) {
    var colon := IndexOfAny(line, ":", 0);
    if colon == |line| || colon == 0 then Err(MALFORMED) else Ok((line[..colon], Trim(line[colon + 1..])))
  }

  /** The fields at the front of `s`, up to a blank line or the end, and what is left then. */
  function ParseFields(s: string): (r: Result<(seq<Field>, string)>)
    decreases |s|
  {
    if s == [] then Ok(([], []))
    else
      var line, rest := Trim(Line(s, '\n')), AfterLine(s, '\n');
      if line == [] then Ok(([], rest))
      else
        match ParseLine(line)
        case Err(e) => Err(e)
        case Ok(f) =>
          match ParseFields(rest)
          case Err(e) => Err(e)
          case Ok((fs, left)) => Ok(([f] + fs, left))
  }

  type Parsed = Result<(seq<Field>, string)>

  /** A result with more fields in front. */
  function Prepend(fields: seq<Field>, r: Parsed): Parsed {
    match r
    case Err(e) => Err(e)
    case Ok((fs, left)) => Ok((fields + fs, left))
  }

  lemma PrependNothing(fields: seq<Field>, r: Parsed)
    ensures Prepend([], r) == r
    ensures r.Ok? && r.value.0 == [] ==> Prepend(fields, r) == Ok((fields, r.value.1))
  {
    assert r.Ok? ==> [] + r.value.0 == r.value.0;
    assert fields + [] == fields;
  }

  lemma NextField(fields: seq<Field>, s: string)
    requires s != [] && Trim(Line(s, '\n')) != []
    ensures Prepend(fields, ParseFields(s)) ==
            match ParseLine(Trim(Line(s, '\n')))
            case Err(e) => Err(e)
            case Ok(f) => Prepend(fields + [f], ParseFields(AfterLine(s, '\n')))
  {
    hide ParseLine, Trim, Line, AfterLine;
    var f, r := ParseLine(Trim(Line(s, '\n'))), ParseFields(AfterLine(s, '\n'));
    if f.Ok? && r.Ok? {
      assert fields + ([f.value] + r.value.0) == fields + [f.value] + r.value.0;
    }
  }

  /** The parser's loop over lines. */
  method ParseHeaderFields(stream: StringStream) returns (r: Result<seq<Field>>)
    modifies stream
    ensures match ParseFields(old(stream.rest))
            case Err(e) => r == Err(e)
            case Ok((fs, left)) => r == Ok(fs) && stream.rest == left
  {
    hide Trim, Line, AfterLine;
    var result := new HttpHeaderFields();
    PrependNothing([], ParseFields(stream.rest));
    while true
      invariant fresh(result)
      invariant ParseFields(old(stream.rest)) == Prepend(result.fields, ParseFields(stream.rest))
      decreases |stream.rest|
    {
      ghost var s := stream.rest;
      PrependNothing(result.fields, ParseFields(s));
      var ok, line := stream.GetLine('\n');
      if !ok {
        break;
      }
      line := Trim(line);
      if line == [] {
        break;
      }
      NextField(result.fields, s);
      var colon := IndexOfAny(line, ":", 0);
      if colon == |line| {
        return Err(MALFORMED);
      }
      var name := line[..colon];
      var value := if colon < |line| - 1 then line[colon + 1..] else [];
      assert value == line[colon + 1..];
      value := Trim(value);
      if name == [] {
        return Err(MALFORMED);
      }
      result.Add(name, value);
    }
    r := Ok(result.fields);
  }

  // ---- the status line ---------------------------------------------------------------------------------------

  datatype HttpStatusLine = HttpStatusLine(version: string, code: int, reason: string)

  /** The first line of a response, and what is left then. */
  function ReadStatus(s: string): Result<(HttpStatusLine, string)> {
    var code, rest := Word(AfterWord(s)), AfterWord(AfterWord(s));
    if Word(s) == [] || code == [] then Err(MALFORMED)
    else
      var number := FromChars(code);
      if !number.Parsed? || number.used != |code| then Err(MALFORMED)
      else Ok((HttpStatusLine(Word(s), number.value, Trim(Line(rest, '\n'))), AfterLine(rest, '\n')))
  }

  method ParseStatusLine(stream: StringStream) returns (r: Result<HttpStatusLine>)
    modifies stream
    ensures match ReadStatus(old(stream.rest))
            case Err(e) => r == Err(e)
            case Ok((line, left)) => r == Ok(line) && stream.rest == left
  {
    hide Word, AfterWord, FromChars, Trim, Line, AfterLine;
    var ok, version := stream.ReadWord();
    if !ok {
      return Err(MALFORMED);
    }
    var code;
    ok, code := stream.ReadWord();
    if !ok {
      return Err(MALFORMED);
    }
    var number := FromChars(code);
    if !number.Parsed? || number.used != |code| {
      return Err(MALFORMED);
    }
    ghost var rest := stream.rest;
    NothingLeft('\n');
    var reason;
    ok, reason := stream.GetLine('\n');
    r := Ok(HttpStatusLine(version, number.value, Trim(if ok then reason else [])));
  }

  lemma NothingLeft(d: char)
    ensures Line([], d) == [] && AfterLine([], d) == []
  {
  }

  function StatusText(line: HttpStatusLine): string
    requires line.code >= 0
  {
    line.version + " " + ToDecimal(line.code) + " " + line.reason
  }

  /** A status line that is read back from its printed form. */
  predicate IsStatus(line: HttpStatusLine) {
    IsWord(line.version) && 0 <= line.code <= INT_MAX && IsTrimmed(line.reason) && '\n' !in line.reason
  }

  /** A printed status line is read back, whether it is the last line or not. */
  lemma StatusIsRead(line: HttpStatusLine, more: string)
    requires IsStatus(line)
    ensures ReadStatus(StatusText(line)) == Ok((line, []))
    ensures ReadStatus(StatusText(line) + CRLF + more) == Ok((line, more))
  {
    hide Word, AfterWord, FromChars, Trim, Line, AfterLine, IsWord, ToDecimal;
    var reason := " " + line.reason;
    StatusWords(line, reason);
    LineEnds(reason, '\n', more);
    ReasonIsTrimmed(line.reason, []);
    assert reason + [] == reason;
    assert StatusText(line) == line.version + " " + ToDecimal(line.code) + reason;
    StatusWords(line, reason + CRLF + more);
    LineEnds(reason + "\r", '\n', more);
    ReasonIsTrimmed(line.reason, "\r");
    assert reason + CRLF + more == reason + "\r" + ['\n'] + more;
    assert StatusText(line) + CRLF + more == line.version + " " + ToDecimal(line.code) + (reason + CRLF + more);
  }

  lemma ReasonIsTrimmed(reason: string, end: string)
    requires IsTrimmed(reason) && (end == [] || end == "\r")
    ensures Trim(" " + reason + end) == reason
  {
    TrimAround(" ", reason, end);
  }

  lemma StatusWords(line: HttpStatusLine, rest: string)
    requires IsWord(line.version) && 0 <= line.code <= INT_MAX && rest != [] && rest[0] == ' '
    ensures var s := line.version + " " + ToDecimal(line.code) + rest;
            && Word(s) == line.version && Word(s) != []
            && Word(AfterWord(s)) == ToDecimal(line.code) && AfterWord(AfterWord(s)) == rest
            && FromChars(ToDecimal(line.code)) == Parsed(line.code, |ToDecimal(line.code)|)
  {
    hide Word, AfterWord, FromChars, IsWord, ToDecimal;
    var code := ToDecimal(line.code);
    var s := line.version + " " + code + rest;
    CodeIsWord(line.code);
    WordEnds([], line.version, " " + code + rest);
    assert s == [] + line.version + (" " + code + rest);
    WordEnds(" ", code, rest);
    assert IsWord(line.version) ==> line.version != [] by {
      WordIsSome(line.version);
    }
  }

  lemma WordIsSome(w: string)
    ensures IsWord(w) ==> w != []
  {
  }

  lemma CodeIsWord(n: nat)
    requires n <= INT_MAX
    ensures IsWord(ToDecimal(n)) && FromChars(ToDecimal(n)) == Parsed(n, |ToDecimal(n)|)
  {
    hide ToDecimal, DecimalValue;
    var s := ToDecimal(n);
    DecimalRoundTrip(n);
    assert IsDigit(s[0]);
    assert DigitCount(s, 0) == |s|;
    assert s[0..|s|] == s;
  }

  // ---- which fields survive --------------------------------------------------------------------------------

  /** A name and a value that the parser can produce. */
  predicate IsGood(f: Field) {
    && f.0 != [] && ':' !in f.0 && '\n' !in f.0 && !IsSpace(f.0[0])
    && IsTrimmed(f.1) && '\n' !in f.1
  }

  /** The parser produces nothing else. */
  lemma {:induction false} ParsedAreGood(s: string)
    ensures ParseFields(s).Ok? ==> forall f | f in ParseFields(s).value.0 :: IsGood(f)
    decreases |s|
  {
    hide Trim, Line, AfterLine, ParseLine, IsGood;
    if s != [] && Trim(Line(s, '\n')) != [] && ParseLine(Trim(Line(s, '\n'))).Ok? {
      ParsedAreGood(AfterLine(s, '\n'));
      LineIsGood(s);
    }
  }

  lemma LineIsGood(s: string)
    requires Trim(Line(s, '\n')) != [] && ParseLine(Trim(Line(s, '\n'))).Ok?
    ensures IsGood(ParseLine(Trim(Line(s, '\n'))).value)
  {
    hide Line, Trim;
    var line := Trim(Line(s, '\n'));
    TrimIsPart(Line(s, '\n'));
    var colon := IndexOfAny(line, ":", 0);
    TrimIsPart(line[colon + 1..]);
  }

  /** The characters of a trimmed string are characters of the string. */
  lemma TrimIsPart(s: string)
    ensures forall c | c in Trim(s) :: c in s
  {
    hide TrimLeft, TrimRight;
    var l := TrimLeft(s);
    forall c | c in Trim(s) ensures c in s {
      assert c in l;
    }
  }

  /** A printed good field is one line, and is parsed as itself. */
  lemma FieldIsParsed(f: Field, more: string)
    requires IsGood(f)
    ensures var line := Line(FieldLine(f) + more, '\n');
            Trim(line) != [] && ParseLine(Trim(line)) == Ok(f) && AfterLine(FieldLine(f) + more, '\n') == more
  {
    hide Trim, Line, AfterLine, ParseLine;
    var line := f.0 + ": " + f.1 + "\r";
    assert FieldLine(f) + more == line + ['\n'] + more;
    LineEnds(line, '\n', more);
    if f.1 == [] {
      assert line == [] + (f.0 + ":") + " \r";
      TrimAround([], f.0 + ":", " \r");
      ParsedName(f.0, []);
      assert f.0 + ":" + [] == f.0 + ":";
      TrimAround([], [], []);
      assert [] + f.1 + [] == f.1;
    } else {
      assert line == [] + (f.0 + ": " + f.1) + "\r";
      TrimAround([], f.0 + ": " + f.1, "\r");
      assert f.0 + ": " + f.1 == f.0 + ":" + (" " + f.1);
      ParsedName(f.0, " " + f.1);
      TrimAround(" ", f.1, []);
      assert " " + f.1 + [] == " " + f.1;
    }
  }

  /** A printed good field that is the last line, without the end of the line. */
  lemma LastFieldIsParsed(f: Field)
    requires IsGood(f)
    ensures var line := f.0 + ": " + f.1;
            && line != [] && Trim(Line(line, '\n')) != []
            && ParseLine(Trim(Line(line, '\n'))) == Ok(f) && AfterLine(line, '\n') == []
  {
    hide Trim, Line, AfterLine, ParseLine;
    var line := f.0 + ": " + f.1;
    LineEnds(line, '\n', []);
    if f.1 == [] {
      assert line == [] + (f.0 + ":") + " ";
      TrimAround([], f.0 + ":", " ");
      ParsedName(f.0, []);
      assert f.0 + ":" + [] == f.0 + ":";
      TrimAround([], [], []);
      assert [] + f.1 + [] == f.1;
    } else {
      assert line == [] + line + [];
      TrimAround([], line, []);
      assert line == f.0 + ":" + (" " + f.1);
      ParsedName(f.0, " " + f.1);
      TrimAround(" ", f.1, []);
      assert " " + f.1 + [] == " " + f.1;
    }
  }

  lemma ParsedName(name: string, value: string)
    requires name != [] && ':' !in name
    ensures ParseLine(name + ":" + value) == Ok((name, Trim(value)))
  {
    hide Trim;
    var line := name + ":" + value;
    assert forall i | 0 <= i < |name| :: line[i] == name[i];
    assert line[|name|] == ':';
    assert IndexOfAny(line, ":", 0) == |name|;
    assert line[|name| + 1..] == value && line[..|name|] == name;
  }

  lemma BlankLine(more: string)
    ensures Trim(Line(CRLF + more, '\n')) == [] && AfterLine(CRLF + more, '\n') == more
  {
    hide Trim, Line, AfterLine;
    assert CRLF + more == "\r" + ['\n'] + more;
    LineEnds("\r", '\n', more);
    TrimAround("\r", [], []);
    assert "\r" + [] + [] == "\r";
  }

  lemma {:induction false} GoodFieldsAreParsed(fields: seq<Field>, more: string)
    requires forall f | f in fields :: IsGood(f)
    ensures ParseFields(FieldLines(fields) + CRLF + more) == Ok((fields, more))
  {
    hide Trim, Line, AfterLine, ParseLine, IsGood, FieldLine;
    if fields == [] {
      BlankLine(more);
      assert [] + CRLF + more == CRLF + more;
    } else {
      var rest := FieldLines(fields[1..]) + CRLF + more;
      assert FieldLines(fields) + CRLF + more == FieldLine(fields[0]) + rest;
      FieldIsParsed(fields[0], rest);
      GoodFieldsAreParsed(fields[1..], more);
      assert [fields[0]] + fields[1..] == fields;
    }
  }

  /** Printed fields are parsed back, all of them in order, precisely when each of them is good. */
  lemma HeaderRoundTrip(fields: seq<Field>, more: string)
    ensures ParseFields(FieldLines(fields) + CRLF + more) == Ok((fields, more)) <==>
            forall f | f in fields :: IsGood(f)
  {
    hide ParseFields, IsGood;
    ParsedAreGood(FieldLines(fields) + CRLF + more);
    if forall f | f in fields :: IsGood(f) {
      GoodFieldsAreParsed(fields, more);
    }
  }

  /** Printed good fields are parsed back also when the last line has no end. */
  lemma {:induction false} GoodFieldsEnd(fields: seq<Field>)
    requires forall f | f in fields :: IsGood(f)
    ensures ParseFields(WithoutEnd(FieldLines(fields))) == Ok((fields, []))
  {
    hide Trim, Line, AfterLine, ParseLine, IsGood, FieldLine;
    if |fields| == 1 {
      LastFieldIsParsed(fields[0]);
      LastLine(fields[0]);
      assert fields == [fields[0]] && fields[1..] == [];
      assert FieldLine(fields[0]) + [] == FieldLine(fields[0]);
      assert FieldLines(fields) == FieldLine(fields[0]);
      assert ParseFields([]) == Ok(([], [])) && [fields[0]] + [] == fields;
    } else if fields != [] {
      var rest := FieldLines(fields[1..]);
      MoreThanALine(fields[1..]);
      assert WithoutEnd(FieldLines(fields)) == FieldLine(fields[0]) + WithoutEnd(rest);
      FieldIsParsed(fields[0], WithoutEnd(rest));
      GoodFieldsEnd(fields[1..]);
      assert [fields[0]] + fields[1..] == fields;
    }
  }

  /** Printed lines without the end of the last one. */
  function WithoutEnd(s: string): string {
    if |s| < 2 then [] else s[..|s| - 2]
  }

  lemma LastLine(f: Field)
    ensures WithoutEnd(FieldLine(f)) == f.0 + ": " + f.1
  {
  }

  lemma MoreThanALine(fields: seq<Field>)
    requires fields != []
    ensures |FieldLines(fields)| >= 2
  {
  }

  // ---- what is not a header ----------------------------------------------------------------------------------

  /** A line without a colon, or with nothing before it, is no field. */
  lemma NoField(line: string)
    requires ':' !in line || line[0] == ':'
    ensures ParseLine(line) == Err(WSError(ProtocolError, 0))
  {
    var colon := IndexOfAny(line, ":", 0);
    assert colon < |line| ==> line[colon] in line;
  }

  /** Such a line, behind whatever fields, makes the header malformed. */
  lemma {:induction false} MalformedLine(fields: seq<Field>, line: string, more: string)
    requires forall f | f in fields :: IsGood(f)
    requires '\n' !in line && Trim(line) != [] && (':' !in Trim(line) || Trim(line)[0] == ':')
    ensures ParseFields(FieldLines(fields) + (line + ['\n'] + more)) == Err(WSError(ProtocolError, 0))
  {
    hide Trim, Line, AfterLine, ParseLine, IsGood, FieldLine;
    if fields == [] {
      assert [] + (line + ['\n'] + more) == line + ['\n'] + more;
      LineEnds(line, '\n', more);
      NoField(Trim(line));
    } else {
      var rest := FieldLines(fields[1..]) + (line + ['\n'] + more);
      assert FieldLines(fields) + (line + ['\n'] + more) == FieldLine(fields[0]) + rest;
      FieldIsParsed(fields[0], rest);
      MalformedLine(fields[1..], line, more);
    }
  }

  /** A status line needs two words, and the second is a number. */
  lemma BadStatus(version: string, code: string, rest: string, i: nat)
    requires IsWord(version) && (code == [] || IsWord(code)) && (rest != [] ==> IsSpace(rest[0]))
    requires code == [] ==> rest == []
    requires code != [] ==> i < |code| && !IsDigit(code[i]) && (i > 0 || code[0] != '-')
    ensures ReadStatus(version + " " + code + rest) == Err(WSError(ProtocolError, 0))
  {
    hide Word, AfterWord, FromChars;
    var s := version + " " + code + rest;
    assert s == [] + version + (" " + code + rest);
    WordEnds([], version, " " + code + rest);
    if code == [] {
      assert " " + code + rest == " ";
      NoWord();
    } else {
      WordEnds(" ", code, rest);
      NoNumber(code, i);
    }
  }

  lemma NoWord()
    ensures Word(" ") == []
  {
    assert TrimLeft(" ") == [];
  }

  lemma NoNumber(s: string, i: nat)
    requires i < |s| && !IsDigit(s[i]) && (i > 0 || s[0] != '-')
    ensures var r := FromChars(s); r.Parsed? ==> r.used != |s|
  {
    hide DecimalValue;
    var sign := if s[0] == '-' then 1 else 0;
    assert sign + DigitCount(s, sign) <= i;
  }
}
