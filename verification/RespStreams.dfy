/** The reader that consumes a byte stream and the writer that appends to one. */
module RespStreams {
  import opened Basics
  import opened Strings
  import opened Resp

  /** A reader's result and what it has left in the stream are those of the specification. */
  ghost predicate Agrees<T>(spec: Result<(T, string), ReadError>, r: Result<T, ReadError>, rest: string) {
    match spec
    case Ok((v, s)) => r == Ok(v) && rest == s
    case Err(e) => r == Err(e)
  }

  class Reader {
    var rest: string   // the bytes not yet read

    constructor (input: string)
      ensures rest == input
    {
      rest := input;
    }

    /** Reads up to and including the next line feed. After an error no caller reads on. */
    method TakeLine() returns (r: Result<string, ReadError>)
      modifies this
      ensures Agrees(ReadLine(old(rest)), r, rest)
      ensures |rest| <= |old(rest)|
    {
      var i := IndexOf(rest, '\n');
      if i.None? {
        rest := [];
        return Err(Eof);
      }
      var line := rest[..i.value + 1];
      rest := rest[i.value + 1..];
      if |line| < 2 || line[|line| - 2] != '\r' {
        return Err(InvalidSyntax);
      }
      assert line[..|line| - 2] == old(rest)[..i.value - 1];
      return Ok(line[..|line| - 2]);
    }

    method TakeText(error: bool) returns (r: Result<Value, ReadError>)
      modifies this
      ensures Agrees(ReadText(old(rest), error), r, rest)
    {
      var line := TakeLine();
      if line.Err? {
        return Err(line.error);
      }
      return Ok(if error then Error(line.value) else SimpleString(line.value));
    }

    method TakeInteger() returns (r: Result<Value, ReadError>)
      modifies this
      ensures Agrees(ReadInteger(old(rest)), r, rest)
    {
      var line := TakeLine();
      if line.Err? {
        return Err(line.error);
      }
      var n := ParseInt(line.value);
      if n.None? {
        return Err(BadNumber);
      }
      return Ok(Integer(n.value));
    }

    method TakeBulk() returns (r: Result<Value, ReadError>)
      modifies this
      ensures Agrees(ReadBulk(old(rest)), r, rest)
    {
      var line := TakeLine();
      if line.Err? {
        return Err(line.error);
      }
      var length := ParseInt(line.value);
      if length.None? {
        return Err(BadNumber);
      }
      if length.value == -1 {
        return Ok(NullBulk);
      }
      if length.value < 0 {
        return Err(InvalidSyntax);
      }
      if |rest| < length.value + 2 {
        return Err(UnexpectedEof);
      }
      ghost var before := rest;
      var buf := rest[..length.value + 2];
      rest := rest[length.value + 2..];
      if buf[length.value] != '\r' || buf[length.value + 1] != '\n' {
        return Err(InvalidSyntax);
      }
      assert buf[..length.value] == before[..length.value];
      return Ok(BulkString(buf[..length.value]));
    }

    method TakeInline() returns (r: Result<Value, ReadError>)
      modifies this
      ensures Agrees(ReadInline(old(rest)), r, rest)
    {
      var line := TakeLine();
      if line.Err? {
        return Err(line.error);
      }
      var parts := SplitWords(line.value);
      if |parts| == 0 {
        return Err(InvalidSyntax);
      }
      return Ok(Array(Bulks(parts)));
    }

    method TakeArray() returns (r: Result<Value, ReadError>)
      modifies this
      ensures Agrees(ReadArray(old(rest)), r, rest)
      decreases |rest|, 0
    {
      var line := TakeLine();
      if line.Err? {
        return Err(line.error);
      }
      var count := ParseInt(line.value);
      if count.None? {
        return Err(BadNumber);
      }
      if count.value == -1 {
        return Ok(NullArray);
      }
      if count.value < 0 {
        return Err(InvalidSyntax);
      }
      var elems := TakeMany(count.value);
      if elems.Err? {
        return Err(elems.error);
      }
      return Ok(Array(elems.value));
    }

    /** The loop of readArray. */
    method TakeMany(count: nat) returns (r: Result<seq<Value>, ReadError>)
      modifies this
      ensures Agrees(ParseMany(count, old(rest)), r, rest)
      decreases |rest|, 2
    {
      ghost var spec := ParseMany(count, rest);
      var arr, i := [], 0;
      PrependNothing(spec);
      while i < count
        invariant 0 <= i <= count && |rest| <= |old(rest)|
        invariant StillToRead(spec, arr, count - i, rest)
      {
        ManyStep(spec, arr, count - i, rest);
        var v := TakeValue();
        if v.Err? {
          return Err(v.error);
        }
        arr := arr + [v.value];
        i := i + 1;
      }
      assert arr + [] == arr;
      return Ok(arr);
    }

    /** Reads one value. */
    method TakeValue() returns (r: Result<Value, ReadError>)
      modifies this
      ensures Agrees(Parse(old(rest)), r, rest)
      decreases |rest|, 1
    {
      if rest == [] {
        return Err(Eof);
      }
      var t := rest[0];
      if t !in {'+', '-', ':', '$', '*'} {
        r := TakeInline();
        return;
      }
      rest := rest[1..];
      match t
      case '+' => r := TakeText(false);
      case '-' => r := TakeText(true);
      case ':' => r := TakeInteger();
      case '$' => r := TakeBulk();
      case _ => r := TakeArray();
    }
  }

  /** Values already read, in front of those still to come. */
  ghost function Prepend(arr: seq<Value>, spec: Result<(seq<Value>, string), ReadError>):
      Result<(seq<Value>, string), ReadError> {
    match spec
    case Err(e) => Err(e)
    case Ok((vs, rest)) => Ok((arr + vs, rest))
  }

  lemma PrependNothing(spec: Result<(seq<Value>, string), ReadError>)
    ensures Prepend([], spec) == spec
  {
    if spec.Ok? {
      assert [] + spec.value.0 == spec.value.0;
    }
  }

  /** What is read in all is what has been read and what the next n values are. */
  ghost predicate StillToRead(spec: Result<(seq<Value>, string), ReadError>, arr: seq<Value>, n: nat, b: string) {
    spec == Prepend(arr, ParseMany(n, b))
  }

  /** One value more has been read: an error ends it, a value joins those read before. */
  lemma ManyStep(spec: Result<(seq<Value>, string), ReadError>, arr: seq<Value>, n: nat, b: string)
    requires n > 0 && StillToRead(spec, arr, n, b)
    ensures Parse(b).Err? ==> spec == Err(Parse(b).error)
    ensures Parse(b).Ok? ==> StillToRead(spec, arr + [Parse(b).value.0], n - 1, Parse(b).value.1)
  {
    if Parse(b).Ok? {
      var v, more := Parse(b).value.0, ParseMany(n - 1, Parse(b).value.1);
      if more.Ok? {
        assert arr + ([v] + more.value.0) == arr + [v] + more.value.0;
      }
    }
  }

  /** The splitter of inline commands, with its accumulators. */
  method SplitWords(line: string) returns (parts: seq<string>)
    ensures parts == SplitInline(line)
  {
    parts := [];
    var current, inQuote := [], false;
    for i := 0 to |line|
      invariant SplitFrom(Split([], [], false), line) == SplitFrom(Split(parts, current, inQuote), line[i..])
    {
      var c := line[i];
      assert line[i..][1..] == line[i + 1..];
      if c == '"' {
        inQuote := !inQuote;
      } else if c == ' ' && !inQuote {
        if |current| > 0 {
          parts := parts + [current];
          current := [];
        }
      } else {
        current := current + [c];
      }
    }
    if |current| > 0 {
      parts := parts + [current];
    }
  }

  class Writer {
    var out: string   // the bytes written

    constructor ()
      ensures out == []
    {
      out := [];
    }

    method WriteSimpleString(s: string)
      modifies this
      ensures out == old(out) + Encode(SimpleString(s))
    {
      out := out + ("+" + s + CRLF);
    }

    method WriteError(msg: string)
      modifies this
      ensures out == old(out) + Encode(Error(msg))
    {
      out := out + ("-" + msg + CRLF);
    }

    method WriteArrayLen(n: nat)
      modifies this
      ensures out == old(out) + ("*" + FormatInt(n) + CRLF)
    {
      out := out + ("*" + FormatInt(n) + CRLF);
    }

    /** Writes a value, recursively for arrays. */
    method WriteValue(v: Value)
      modifies this
      ensures out == old(out) + Encode(v)
      decreases v
    {
      match v
      case NullBulk => out := out + "$-1\r\n";
      case NullArray => out := out + "$-1\r\n";
      case SimpleString(s) => WriteSimpleString(s);
      case Error(s) => WriteError(s);
      case Integer(n) => out := out + (":" + FormatInt(n) + CRLF);
      case BulkString(s) => out := out + ("$" + FormatInt(|s|) + CRLF + s + CRLF);
      case Array(elems) =>
        WriteArrayLen(|elems|);
        ghost var head := out;
        for i := 0 to |elems|
          invariant out == head + EncodeAll(elems[..i])
        {
          WriteValue(elems[i]);
          EncodePrefix(head, elems, i);
        }
        assert elems[..|elems|] == elems;
        HeaderAndElements(old(out), elems);
    }
  }

  lemma {:induction false} EncodeAllJoins(vs: seq<Value>, ws: seq<Value>)
    ensures EncodeAll(vs + ws) == EncodeAll(vs) + EncodeAll(ws)
  {
    if vs == [] {
      assert vs + ws == ws;
    } else {
      assert (vs + ws)[1..] == vs[1..] + ws;
      EncodeAllJoins(vs[1..], ws);
    }
  }

  lemma EncodeOneMore(vs: seq<Value>, v: Value)
    ensures EncodeAll(vs + [v]) == EncodeAll(vs) + Encode(v)
  {
    EncodeAllJoins(vs, [v]);
    assert [v][1..] == [];
  }

  lemma EncodePrefix(head: string, elems: seq<Value>, i: nat)
    requires i < |elems|
    ensures head + EncodeAll(elems[..i]) + Encode(elems[i]) == head + EncodeAll(elems[..i + 1])
  {
    EncodeOneMore(elems[..i], elems[i]);
    assert elems[..i + 1] == elems[..i] + [elems[i]];
  }

  /** An array header followed by the elements is, byte for byte, the array. */
  lemma HeaderAndElements(before: string, elems: seq<Value>)
    ensures before + ("*" + FormatInt(|elems|) + CRLF) + EncodeAll(elems) == before + Encode(Array(elems))
  {
  }
}
