/** HTTP header fields: a list of names and values in order, with names compared regardless of case. */
module HttpHeader {
  import opened Errors
  import opened Text

  type Field = (string, string)

  /** The values of all fields named `key`, in order. */
  function Values(fields: seq<Field>, key: string): (vs: seq<string>) {
    if fields == [] then []
    else (if EqualsCi(fields[0].0, key) then [fields[0].1] else []) + Values(fields[1..], key)
  }

  /** The other fields, in order. */
  function Without(fields: seq<Field>, key: string): (fs: seq<Field>) {
    if fields == [] then []
    else (if EqualsCi(fields[0].0, key) then [] else [fields[0]]) + Without(fields[1..], key)
  }

  lemma {:induction false} ValuesConcat(x: seq<Field>, y: seq<Field>, key: string)
    ensures Values(x + y, key) == Values(x, key) + Values(y, key)
  {
    hide EqualsCi;
    if x == [] {
      assert x + y == y;
    } else {
      assert (x + y)[1..] == x[1..] + y;
      ValuesConcat(x[1..], y, key);
    }
  }

  lemma {:induction false} WithoutConcat(x: seq<Field>, y: seq<Field>, key: string)
    ensures Without(x + y, key) == Without(x, key) + Without(y, key)
  {
    hide EqualsCi;
    if x == [] {
      assert x + y == y;
    } else {
      assert (x + y)[1..] == x[1..] + y;
      WithoutConcat(x[1..], y, key);
    }
  }

  /** Removing one name leaves no field of that name, in whatever case, and all values of the others. */
  lemma {:induction false} ValuesWithout(fields: seq<Field>, key: string, other: string)
    ensures Values(Without(fields, key), other) == if EqualsCi(key, other) then [] else Values(fields, other)
  {
    if fields != [] {
      ValuesWithout(fields[1..], key, other);
      ValuesConcat(if EqualsCi(fields[0].0, key) then [] else [fields[0]], Without(fields[1..], key), other);
      SameName(fields[0].0, key, other);
    }
  }

  lemma SameName(a: string, b: string, c: string)
    ensures EqualsCi(a, b) ==> (EqualsCi(a, c) <==> EqualsCi(b, c))
  {
  }

  class HttpHeaderFields {
    var fields: seq<Field>

    constructor ()
      ensures fields == []
    {
      fields := [];
    }

    method Add(key: string, value: string)
      modifies this
      ensures fields == old(fields) + [(key, value)]
    {
      fields := fields + [(key, value)];
    }

    method AddIfMissing(key: string, value: string)
      modifies this
      ensures fields == if Values(old(fields), key) == [] then old(fields) + [(key, value)] else old(fields)
    {
      var present := ContainsKey(key);
      if !present {
        Add(key, value);
      }
    }

    /** Afterwards `key` has exactly this value, and every other name the values it had. */
    method Set(key: string, value: string)
      modifies this
      ensures fields == Without(old(fields), key) + [(key, value)]
      ensures forall name :: Values(fields, name) ==
                             if EqualsCi(key, name) then [value] else Values(old(fields), name)
    {
      RemoveKey(key);
      fields := fields + [(key, value)];
      forall name
        ensures Values(fields, name) == if EqualsCi(key, name) then [value] else Values(old(fields), name)
      {
        ValuesConcat(Without(old(fields), key), [(key, value)], name);
        ValuesWithout(old(fields), key, name);
      }
    }

    /** Afterwards `key` has no value, every other name the values it had, and the other fields keep their order. */
    method RemoveKey(key: string)
      modifies this
      ensures fields == Without(old(fields), key)
      ensures forall name :: Values(fields, name) == if EqualsCi(key, name) then [] else Values(old(fields), name)
    {
      var kept: seq<Field> := [];
      for i := 0 to |fields|
        invariant fields == old(fields) && kept == Without(fields[..i], key)
      {
        assert fields[..i + 1] == fields[..i] + [fields[i]];
        WithoutConcat(fields[..i], [fields[i]], key);
        if !EqualsCi(fields[i].0, key) {
          kept := kept + [fields[i]];
        }
      }
      assert fields[..|fields|] == fields;
      fields := kept;
      forall name ensures Values(fields, name) == if EqualsCi(key, name) then [] else Values(old(fields), name) {
        ValuesWithout(old(fields), key, name);
      }
    }

    method Get(key: string) returns (result: seq<string>)
      ensures result == Values(fields, key)
    {
      result := [];
      for i := 0 to |fields|
        invariant result == Values(fields[..i], key)
      {
        assert fields[..i + 1] == fields[..i] + [fields[i]];
        ValuesConcat(fields[..i], [fields[i]], key);
        if EqualsCi(fields[i].0, key) {
          result := result + [fields[i].1];
        }
      }
      assert fields[..|fields|] == fields;
    }

    method GetFirst(key: string) returns (result: Option<string>)
      ensures result == if Values(fields, key) == [] then None else Some(Values(fields, key)[0])
    {
      var i := 0;
      while i < |fields| && !EqualsCi(fields[i].0, key)
        invariant i <= |fields| && Values(fields, key) == Values(fields[i..], key)
      {
        i := i + 1;
      }
      result := if i < |fields| then Some(fields[i].1) else None;
    }

    method ContainsKey(key: string) returns (b: bool)
      ensures b <==> Values(fields, key) != []
    {
      var first := GetFirst(key);
      b := first.Some?;
    }

    method CountKey(key: string) returns (n: nat)
      ensures n == |Values(fields, key)|
    {
      var values := Get(key);
      n := |values|;
    }
  }

  // ---- printing ----------------------------------------------------------------------------------------------

  const CRLF: string := "\r\n"

  function FieldLine(f: Field): string {
    f.0 + ": " + f.1 + CRLF
  }

  function FieldLines(fields: seq<Field>): string {
    if fields == [] then [] else FieldLine(fields[0]) + FieldLines(fields[1..])
  }

  lemma {:induction false} FieldLinesSnoc(fields: seq<Field>, f: Field)
    ensures FieldLines(fields + [f]) == FieldLines(fields) + FieldLine(f)
  {
    hide FieldLine;
    if fields == [] {
      assert fields + [f] == [f];
    } else {
      assert (fields + [f])[1..] == fields[1..] + [f];
      FieldLinesSnoc(fields[1..], f);
    }
  }

  datatype HttpRequestLine = HttpRequestLine(verb: string, target: string, version: string)

  /** A request header as it goes out: the request line, the fields, and a blank line. */
  method PrintRequest(line: HttpRequestLine, fields: seq<Field>) returns (text: string)
    ensures text == line.verb + " " + line.target + " " + line.version + CRLF + FieldLines(fields) + CRLF
  {
    hide FieldLine;
    var first := line.verb + " " + line.target + " " + line.version + CRLF;
    text := first;
    for i := 0 to |fields|
      invariant text == first + FieldLines(fields[..i])
    {
      assert fields[..i + 1] == fields[..i] + [fields[i]];
      FieldLinesSnoc(fields[..i], fields[i]);
      text := text + FieldLine(fields[i]);
    }
    assert fields[..|fields|] == fields;
    text := text + CRLF;
  }
}
