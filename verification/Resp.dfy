/** RESP2: the values, how they are written, and how a byte stream is read back. */
module Resp {
  import opened Basics
  import opened Strings

  /** A reply or request. NullBulk and NullArray are the values whose IsNull flag is set. */
  datatype Value =
    | SimpleString(s: string)
    | Error(s: string)
    | Integer(n: int)
    | BulkString(s: string)
    | NullBulk
    | Array(elems: seq<Value>)
    | NullArray

  const CRLF := "\r\n"

  /** The bytes of a value. A null array is written as a null bulk string. */
  function Encode(v: Value): (b: string)
    ensures b != []
  {
    match v
    case SimpleString(s) => "+" + s + CRLF
    case Error(s) => "-" + s + CRLF
    case Integer(n) => ":" + FormatInt(n) + CRLF
    case BulkString(s) => "$" + FormatInt(|s|) + CRLF + s + CRLF
    case NullBulk => "$-1\r\n"
    case NullArray => "$-1\r\n"
    case Array(elems) => "*" + FormatInt(|elems|) + CRLF + EncodeAll(elems)
  }

  function EncodeAll(vs: seq<Value>): string {
    if vs == [] then [] else Encode(vs[0]) + EncodeAll(vs[1..])
  }

  datatype ReadError = Eof | UnexpectedEof | InvalidSyntax | BadNumber

  /** The bytes up to the next line feed, which a carriage return must precede; and the bytes after it. */
  function ReadLine(b: string): (r: Result<(string, string), ReadError>)
    ensures r.Ok? ==> b == r.value.0 + CRLF + r.value.1
    ensures r.Ok? ==> '\n' !in r.value.0
  {
    match IndexOf(b, '\n')
    case None => Err(Eof)
    case Some(i) =>
      if i == 0 || b[i - 1] != '\r' then Err(InvalidSyntax)
      else
        assert b == b[..i - 1] + CRLF + b[i + 1..];
        assert forall j :: 0 <= j < i - 1 ==> b[..i - 1][j] == b[..i][j];
        Ok((b[..i - 1], b[i + 1..]))
  }

  /** One round of the inline splitter: the words so far, the word under way, and whether a quote is open. */
  datatype Split = Split(parts: seq<string>, current: string, inQuote: bool)

  function SplitStep(st: Split, c: char): Split {
    if c == '"' then st.(inQuote := !st.inQuote)
    else if c == ' ' && !st.inQuote then
      if st.current != [] then st.(parts := st.parts + [st.current], current := []) else st
    else st.(current := st.current + [c])
  }

  function SplitFrom(st: Split, line: string): Split
    decreases |line|
  {
    if line == [] then st else SplitFrom(SplitStep(st, line[0]), line[1..])
  }

  /** The words of an inline command: separated by blanks outside double quotes. */
  function SplitInline(line: string): seq<string> {
    var st := SplitFrom(Split([], [], false), line);
    if st.current != [] then st.parts + [st.current] else st.parts
  }

  function Bulks(words: seq<string>): (vs: seq<Value>)
    ensures |vs| == |words|
    ensures forall i :: 0 <= i < |words| ==> vs[i] == BulkString(words[i])
  {
    seq(|words|, i requires 0 <= i < |words| => BulkString(words[i]))
  }

  type Read = Result<(Value, string), ReadError>

  function ReadText(b: string, error: bool): (r: Read)
    ensures r.Ok? ==> |r.value.1| < |b|
  {
    match ReadLine(b)
    case Err(e) => Err(e)
    case Ok((line, rest)) => Ok((if error then Error(line) else SimpleString(line), rest))
  }

  function ReadInteger(b: string): (r: Read)
    ensures r.Ok? ==> |r.value.1| < |b|
  {
    match ReadLine(b)
    case Err(e) => Err(e)
    case Ok((line, rest)) =>
      match ParseInt(line)
      case None => Err(BadNumber)
      case Some(n) => Ok((Integer(n), rest))
  }

  function ReadBulk(b: string): (r: Read)
    ensures r.Ok? ==> |r.value.1| < |b|
  {
    match ReadLine(b)
    case Err(e) => Err(e)
    case Ok((line, rest)) =>
      match ParseInt(line)
      case None => Err(BadNumber)
      case Some(n) =>
        if n == -1 then Ok((NullBulk, rest))
        else if n < 0 then Err(InvalidSyntax)
        else if |rest| < n + 2 then Err(UnexpectedEof)
        else if rest[n] != '\r' || rest[n + 1] != '\n' then Err(InvalidSyntax)
        else Ok((BulkString(rest[..n]), rest[n + 2..]))
  }

  function ReadInline(b: string): (r: Read)
    ensures r.Ok? ==> |r.value.1| < |b|
  {
    match ReadLine(b)
    case Err(e) => Err(e)
    case Ok((line, rest)) =>
      var words := SplitInline(line);
      if words == [] then Err(InvalidSyntax) else Ok((Array(Bulks(words)), rest))
  }

  /** Reads one value off the front of the stream. */
  function Parse(b: string): (r: Read)
    ensures r.Ok? ==> |r.value.1| < |b|
    decreases |b|, 0
  {
    if b == [] then Err(Eof)
    else if b[0] == '+' then ReadText(b[1..], false)
    else if b[0] == '-' then ReadText(b[1..], true)
    else if b[0] == ':' then ReadInteger(b[1..])
    else if b[0] == '$' then ReadBulk(b[1..])
    else if b[0] == '*' then ReadArray(b[1..])
    else ReadInline(b)
  }

  function ReadArray(b: string): (r: Read)
    ensures r.Ok? ==> |r.value.1| < |b|
    decreases |b|, 0
  {
    match ReadLine(b)
    case Err(e) => Err(e)
    case Ok((line, rest)) =>
      match ParseInt(line)
      case None => Err(BadNumber)
      case Some(n) =>
        if n == -1 then Ok((NullArray, rest))
        else if n < 0 then Err(InvalidSyntax)
        else
          match ParseMany(n, rest)
          case Err(e) => Err(e)
          case Ok((vs, rest')) => Ok((Array(vs), rest'))
  }

  /** Reads n values, one after the other. */
  function ParseMany(n: nat, b: string): (r: Result<(seq<Value>, string), ReadError>)
    ensures r.Ok? ==> |r.value.0| == n && |r.value.1| <= |b|
    decreases |b|, n + 1
  {
    if n == 0 then Ok(([], b))
    else
      match Parse(b)
      case Err(e) => Err(e)
      case Ok((v, rest)) =>
        match ParseMany(n - 1, rest)
        case Err(e) => Err(e)
        case Ok((vs, rest')) => Ok(([v] + vs, rest'))
  }

  // What the two sides agree on.

  /** The lengths and numbers in v are ones that Go's int and int64 can hold. */
  predicate Representable(v: Value) {
    match v
    case Integer(n) => IsInt64(n)
    case BulkString(s) => IsInt64(|s|)
    case Array(elems) => IsInt64(|elems|) && forall i :: 0 <= i < |elems| ==> Representable(elems[i])
    case _ => true
  }

  /** No simple string or error in v holds a line feed. */
  predicate Clean(v: Value) {
    match v
    case SimpleString(s) => '\n' !in s
    case Error(s) => '\n' !in s
    case Array(elems) => forall i :: 0 <= i < |elems| ==> Clean(elems[i])
    case _ => true
  }

  /** v as it comes back: null arrays have become null bulk strings. */
  function Norm(v: Value): Value {
    match v
    case NullArray => NullBulk
    case Array(elems) => Array(NormAll(elems))
    case _ => v
  }

  function NormAll(vs: seq<Value>): (r: seq<Value>)
    ensures |r| == |vs|
    ensures forall i :: 0 <= i < |vs| ==> r[i] == Norm(vs[i])
  {
    if vs == [] then [] else [Norm(vs[0])] + NormAll(vs[1..])
  }

  lemma ReadLineWritten(line: string, rest: string)
    requires '\n' !in line
    ensures ReadLine(line + CRLF + rest) == Ok((line, rest))
  {
    var b := line + CRLF + rest;
    assert b[..|line| + 1] == line + "\r";
    IndexIsUnique(b, '\n', |line| + 1);
    assert b[..|line|] == line && b[|line| + 2..] == rest;
  }

  lemma ReadBulkWritten(s: string, rest: string)
    requires IsInt64(|s|)
    ensures ReadBulk(FormatInt(|s|) + CRLF + s + CRLF + rest) == Ok((BulkString(s), rest))
  {
    ParseFormatted(|s|);
    var tail := s + CRLF + rest;
    assert FormatInt(|s|) + CRLF + s + CRLF + rest == FormatInt(|s|) + CRLF + tail;
    ReadLineWritten(FormatInt(|s|), tail);
    assert tail[..|s|] == s && tail[|s| + 2..] == rest;
  }

  lemma ReadTextWritten(s: string, error: bool, rest: string)
    requires '\n' !in s
    ensures ReadText(s + CRLF + rest, error) == Ok((if error then Error(s) else SimpleString(s), rest))
  {
    ReadLineWritten(s, rest);
  }

  lemma ReadIntegerWritten(n: int, rest: string)
    requires IsInt64(n)
    ensures ReadInteger(FormatInt(n) + CRLF + rest) == Ok((Integer(n), rest))
  {
    ReadLineWritten(FormatInt(n), rest);
    ParseFormatted(n);
  }

  lemma ReadNull(rest: string)
    ensures ReadBulk("-1" + CRLF + rest) == Ok((NullBulk, rest))
  {
    ReadLineWritten("-1", rest);
    assert FormatInt(-1) == "-1";
    ParseFormatted(-1);
  }

  /** The reader for what follows a type byte. */
  function Dispatch(t: char, b: string): Read {
    if t == '+' then ReadText(b, false)
    else if t == '-' then ReadText(b, true)
    else if t == ':' then ReadInteger(b)
    else if t == '$' then ReadBulk(b)
    else if t == '*' then ReadArray(b)
    else ReadInline([t] + b)
  }

  lemma ParseDispatches(t: char, b: string)
    ensures Parse([t] + b) == Dispatch(t, b)
  {
    assert ([t] + b)[1..] == b;
  }

  lemma RoundTripText(s: string, rest: string)
    requires '\n' !in s
    ensures Parse(Encode(SimpleString(s)) + rest) == Ok((SimpleString(s), rest))
    ensures Parse(Encode(Error(s)) + rest) == Ok((Error(s), rest))
  {
    var b := s + CRLF + rest;
    assert Encode(SimpleString(s)) + rest == ['+'] + b && Encode(Error(s)) + rest == ['-'] + b;
    ParseDispatches('+', b);
    ParseDispatches('-', b);
    ReadTextWritten(s, false, rest);
    ReadTextWritten(s, true, rest);
  }

  lemma RoundTripNull(rest: string)
    ensures Parse("$-1\r\n" + rest) == Ok((NullBulk, rest))
  {
    hide Parse, ReadBulk;
    assert "$-1\r\n" + rest == ['$'] + ("-1" + CRLF + rest);
    ParseDispatches('$', "-1" + CRLF + rest);
    ReadNull(rest);
  }

  lemma RoundTripFlat(v: Value, rest: string)
    requires Representable(v) && Clean(v) && !v.Array?
    ensures Parse(Encode(v) + rest) == Ok((Norm(v), rest))
  {
    hide Parse, ReadInteger, ReadBulk, ReadText, FormatInt;
    match v
    case SimpleString(s) => RoundTripText(s, rest);
    case Error(s) => RoundTripText(s, rest);
    case Integer(n) =>
      assert Encode(v) + rest == [':'] + (FormatInt(n) + CRLF + rest);
      ParseDispatches(':', FormatInt(n) + CRLF + rest);
      ReadIntegerWritten(n, rest);
    case BulkString(s) =>
      assert Encode(v) + rest == ['$'] + (FormatInt(|s|) + CRLF + s + CRLF + rest);
      ParseDispatches('$', FormatInt(|s|) + CRLF + s + CRLF + rest);
      ReadBulkWritten(s, rest);
    case NullBulk => RoundTripNull(rest);
    case NullArray => RoundTripNull(rest);
  }

  lemma Regroup<T>(a: seq<T>, b: seq<T>, c: seq<T>, d: seq<T>, e: seq<T>)
    ensures a + b + c + d + e == a + (b + c + (d + e))
  {
  }

  /** An array is its header and then its elements. */
  lemma ParseArrayWritten(elems: seq<Value>, rest: string)
    requires IsInt64(|elems|)
    ensures Parse(Encode(Array(elems)) + rest) ==
            match ParseMany(|elems|, EncodeAll(elems) + rest)
            case Err(e) => Err(e)
            case Ok((vs, rest')) => Ok((Array(vs), rest'))
  {
    hide ParseMany, FormatInt, Parse, ReadArray, EncodeAll;
    Regroup("*", FormatInt(|elems|), CRLF, EncodeAll(elems), rest);
    ParseDispatches('*', FormatInt(|elems|) + CRLF + (EncodeAll(elems) + rest));
    ReadArrayWritten(elems, EncodeAll(elems) + rest);
  }

  /** What is written is read back, and exactly what follows it is left. */
  lemma {:induction false} RoundTrip(v: Value, rest: string)
    requires Representable(v) && Clean(v)
    ensures Parse(Encode(v) + rest) == Ok((Norm(v), rest))
    decreases v, 1
  {
    if v.Array? {
      RoundTripAll(v.elems, rest);
      ParseArrayWritten(v.elems, rest);
    } else {
      RoundTripFlat(v, rest);
    }
  }

  /** An array header is followed by its elements. */
  lemma ReadArrayWritten(elems: seq<Value>, tail: string)
    requires IsInt64(|elems|)
    ensures ReadArray(FormatInt(|elems|) + CRLF + tail) ==
            match ParseMany(|elems|, tail)
            case Err(e) => Err(e)
            case Ok((vs, rest)) => Ok((Array(vs), rest))
  {
    ReadLineWritten(FormatInt(|elems|), tail);
    ParseFormatted(|elems|);
  }

  lemma {:induction false} RoundTripAll(vs: seq<Value>, rest: string)
    requires forall i :: 0 <= i < |vs| ==> Representable(vs[i]) && Clean(vs[i])
    ensures ParseMany(|vs|, EncodeAll(vs) + rest) == Ok((NormAll(vs), rest))
    decreases vs, 2
  {
    if vs == [] {
      assert EncodeAll(vs) + rest == rest;
    } else {
      var tail := EncodeAll(vs[1..]) + rest;
      assert EncodeAll(vs) + rest == Encode(vs[0]) + tail;
      RoundTrip(vs[0], tail);
      RoundTripAll(vs[1..], rest);
    }
  }

  lemma ReadOneMore(n: nat, b: string, v: Value, rest: string)
    requires n > 0 && Parse(b) == Ok((v, rest))
    ensures var more := ParseMany(n - 1, rest);
            ParseMany(n, b) == if more.Ok? then Ok(([v] + more.value.0, more.value.1)) else Err(more.error)
  {
  }

  // A line feed inside a simple string or an error ends it early.

  lemma DirtyText(s: string, error: bool, rest: string)
    requires '\n' in s
    ensures var r := ReadText(s + CRLF + rest, error);
            r.Ok? ==> (r.value.0.SimpleString? || r.value.0.Error?) && |r.value.0.s| < |s|
  {
    var i := IndexOf(s, '\n').value;
    var b := s + CRLF + rest;
    assert b[..i] == s[..i];
    IndexIsUnique(b, '\n', i);
  }

  lemma DirtyLeaf(v: Value, rest: string)
    requires !Clean(v) && (v.SimpleString? || v.Error?)
    ensures var r := Parse(Encode(v) + rest); r.Ok? ==> r.value.0 != Norm(v)
  {
    var t := if v.SimpleString? then '+' else '-';
    assert Encode(v) + rest == [t] + (v.s + CRLF + rest);
    ParseDispatches(t, v.s + CRLF + rest);
    DirtyText(v.s, v.Error?, rest);
  }

  lemma {:induction false} DirtyIsNotRead(v: Value, rest: string)
    requires Representable(v) && !Clean(v)
    ensures var r := Parse(Encode(v) + rest); r.Ok? ==> r.value.0 != Norm(v)
    decreases v, 1
  {
    if v.Array? {
      DirtyAmongAll(v.elems, rest);
      ParseArrayWritten(v.elems, rest);
    } else {
      DirtyLeaf(v, rest);
    }
  }

  lemma FirstDiffers(vs: seq<Value>, b: string)
    requires vs != [] && (Parse(b).Ok? ==> Parse(b).value.0 != Norm(vs[0]))
    ensures var r := ParseMany(|vs|, b); r.Ok? ==> r.value.0 != NormAll(vs)
  {
    hide Parse, Norm;
    var r := ParseMany(|vs|, b);
    assert r.Ok? ==> Parse(b).Ok? && r.value.0[0] == Parse(b).value.0;
  }

  lemma RestDiffers(vs: seq<Value>, b: string, tail: string)
    requires vs != [] && Parse(b) == Ok((Norm(vs[0]), tail))
    requires var r := ParseMany(|vs| - 1, tail); r.Ok? ==> r.value.0 != NormAll(vs[1..])
    ensures var r := ParseMany(|vs|, b); r.Ok? ==> r.value.0 != NormAll(vs)
  {
    ReadOneMore(|vs|, b, Norm(vs[0]), tail);
    hide Parse, ParseMany, Norm;
    var r, more := ParseMany(|vs|, b), ParseMany(|vs| - 1, tail);
    assert r.Ok? ==> r.value.0[1..] == more.value.0;
    assert NormAll(vs)[1..] == NormAll(vs[1..]);
  }

  lemma {:induction false} DirtyAmongAll(vs: seq<Value>, rest: string)
    requires forall i :: 0 <= i < |vs| ==> Representable(vs[i])
    requires exists i :: 0 <= i < |vs| && !Clean(vs[i])
    ensures var r := ParseMany(|vs|, EncodeAll(vs) + rest); r.Ok? ==> r.value.0 != NormAll(vs)
    decreases vs, 2
  {
    hide Parse, ParseMany, Encode, Representable, Norm, NormAll, Clean;
    var tail := EncodeAll(vs[1..]) + rest;
    assert EncodeAll(vs) + rest == Encode(vs[0]) + tail;
    if Clean(vs[0]) {
      RoundTrip(vs[0], tail);
      var i :| 0 <= i < |vs| && !Clean(vs[i]);
      assert vs[1..][i - 1] == vs[i];
      DirtyAmongAll(vs[1..], rest);
      RestDiffers(vs, Encode(vs[0]) + tail, tail);
    } else {
      DirtyIsNotRead(vs[0], tail);
      FirstDiffers(vs, Encode(vs[0]) + tail);
    }
  }

  /** Reading back what was written works just for values without a line feed in their simple strings and errors. */
  lemma RoundTripIffClean(v: Value, rest: string)
    requires Representable(v)
    ensures Parse(Encode(v) + rest) == Ok((Norm(v), rest)) <==> Clean(v)
  {
    if Clean(v) {
      RoundTrip(v, rest);
    } else {
      DirtyIsNotRead(v, rest);
    }
  }

  /** An error of two lines is read as its first line, and the second is left for the next reply. */
  lemma SecondLineIsLeft(rest: string)
    ensures Parse(Encode(Error("a\r\nb")) + rest) == Ok((Error("a"), "b\r\n" + rest))
  {
    var b := Encode(Error("a\r\nb")) + rest;
    assert b == "-a\r\nb\r\n" + rest && b[1..] == "a\r\nb\r\n" + rest;
    assert b[1..][2] == '\n' && b[1..][..2] == "a\r";
    IndexIsUnique(b[1..], '\n', 2);
    assert b[1..][3..] == "b\r\n" + rest && b[1..][..1] == "a";
    assert ReadLine(b[1..]) == Ok(("a", "b\r\n" + rest));
  }

  // More input after a value changes nothing about the value.

  lemma ReadLineExtends(a: string, b: string)
    requires ReadLine(a).Ok?
    ensures ReadLine(a + b) == Ok((ReadLine(a).value.0, ReadLine(a).value.1 + b))
  {
    var i := IndexOf(a, '\n').value;
    assert (a + b)[..i] == a[..i];
    IndexIsUnique(a + b, '\n', i);
    assert (a + b)[..i - 1] == a[..i - 1] && (a + b)[i + 1..] == a[i + 1..] + b;
  }

  lemma TakeAndDrop(rest: string, b: string, n: nat)
    requires n + 2 <= |rest|
    ensures (rest + b)[..n] == rest[..n] && (rest + b)[n + 2..] == rest[n + 2..] + b
    ensures (rest + b)[n] == rest[n] && (rest + b)[n + 1] == rest[n + 1]
  {
  }

  lemma ReadBulkExtends(a: string, b: string)
    requires ReadBulk(a).Ok?
    ensures ReadBulk(a + b) == Ok((ReadBulk(a).value.0, ReadBulk(a).value.1 + b))
  {
    hide ReadLine, ParseInt;
    ReadLineExtends(a, b);
    var rest, n := ReadLine(a).value.1, ParseInt(ReadLine(a).value.0).value;
    if n != -1 {
      TakeAndDrop(rest, b, n);
    }
  }

  lemma {:induction false} ParseExtends(a: string, b: string)
    requires Parse(a).Ok?
    ensures Parse(a + b) == Ok((Parse(a).value.0, Parse(a).value.1 + b))
    decreases |a|, 0
  {
    assert (a + b)[1..] == a[1..] + b;
    if a[0] == '$' {
      ReadBulkExtends(a[1..], b);
    } else if a[0] == '*' {
      ReadArrayExtends(a[1..], b);
    } else if a[0] == '+' || a[0] == '-' || a[0] == ':' {
      ReadLineExtends(a[1..], b);
    } else {
      ReadLineExtends(a, b);
    }
  }

  lemma {:induction false} ReadArrayExtends(a: string, b: string)
    requires ReadArray(a).Ok?
    ensures ReadArray(a + b) == Ok((ReadArray(a).value.0, ReadArray(a).value.1 + b))
    decreases |a|, 0
  {
    ReadLineExtends(a, b);
    var rest, n := ReadLine(a).value.1, ParseInt(ReadLine(a).value.0).value;
    if n != -1 {
      ParseManyExtends(n, rest, b);
    }
  }

  lemma ParseOneOfMany(n: nat, b: string, v: Value, rest: string)
    requires n > 0 && Parse(b) == Ok((v, rest))
    ensures ParseMany(n, b).Ok? <==> ParseMany(n - 1, rest).Ok?
    ensures ParseMany(n, b).Ok? ==>
              var (vs, left) := ParseMany(n - 1, rest).value; ParseMany(n, b) == Ok(([v] + vs, left))
  {
  }

  lemma {:induction false} ParseManyExtends(n: nat, a: string, b: string)
    requires ParseMany(n, a).Ok?
    ensures ParseMany(n, a + b) == Ok((ParseMany(n, a).value.0, ParseMany(n, a).value.1 + b))
    decreases |a|, n + 1
  {
    if n > 0 {
      var (v, rest) := Parse(a).value;
      ParseOneOfMany(n, a, v, rest);
      ParseExtends(a, b);
      ParseManyExtends(n - 1, rest, b);
      ParseOneOfMany(n, a + b, v, rest + b);
    }
  }

  /** No strict prefix of a value's encoding reads as a value. */
  lemma PrefixFree(v: Value, k: nat)
    requires Representable(v) && Clean(v) && k < |Encode(v)|
    ensures Parse(Encode(v)[..k]).Err?
  {
    hide Parse, Encode, Clean, Representable, Norm;
    var e := Encode(v);
    RoundTrip(v, []);
    assert e + [] == e;
    if Parse(e[..k]).Ok? {
      assert e[..k] + e[k..] == e;
      ParseExtends(e[..k], e[k..]);
    }
  }

  // Inline commands.

  /** The words as an inline command, each in double quotes. */
  function Quoted(words: seq<string>): string {
    if words == [] then []
    else "\"" + words[0] + "\"" + (if |words| == 1 then [] else " ") + Quoted(words[1..])
  }

  lemma {:induction false} SplitFromJoin(st: Split, a: string, b: string)
    ensures SplitFrom(st, a + b) == SplitFrom(SplitFrom(st, a), b)
    decreases |a|
  {
    if a == [] {
      assert a + b == b;
    } else {
      assert (a + b)[1..] == a[1..] + b;
      SplitFromJoin(SplitStep(st, a[0]), a[1..], b);
    }
  }

  lemma {:induction false} SplitInsideQuotes(parts: seq<string>, current: string, w: string)
    requires '"' !in w
    ensures SplitFrom(Split(parts, current, true), w) == Split(parts, current + w, true)
    decreases |w|
  {
    if w == [] {
      assert current + w == current;
    } else {
      SplitInsideQuotes(parts, current + [w[0]], w[1..]);
      assert current + [w[0]] + w[1..] == current + w;
    }
  }

  lemma SplitQuotedWord(parts: seq<string>, w: string)
    requires '"' !in w
    ensures SplitFrom(Split(parts, [], false), "\"" + w + "\"") == Split(parts, w, false)
  {
    SplitFromJoin(Split(parts, [], false), "\"" + w, "\"");
    SplitFromJoin(Split(parts, [], false), "\"", w);
    SplitInsideQuotes(parts, [], w);
    assert [] + w == w;
  }

  lemma SplitQuotedHead(parts: seq<string>, w: string, rest: string)
    requires w != [] && '"' !in w
    ensures SplitFrom(Split(parts, [], false), "\"" + w + "\"" + " " + rest) ==
            SplitFrom(Split(parts + [w], [], false), rest)
  {
    var st, quoted := Split(parts, [], false), "\"" + w + "\"";
    SplitQuotedWord(parts, w);
    SplitFromJoin(st, quoted, " " + rest);
    assert (" " + rest)[1..] == rest;
    assert quoted + " " + rest == quoted + (" " + rest);
  }

  lemma {:induction false} SplitQuoted(parts: seq<string>, words: seq<string>)
    requires words != [] && forall i :: 0 <= i < |words| ==> words[i] != [] && '"' !in words[i]
    ensures var st := SplitFrom(Split(parts, [], false), Quoted(words));
            st.current != [] && st.parts + [st.current] == parts + words
    decreases |words|
  {
    if |words| == 1 {
      SplitQuotedWord(parts, words[0]);
      assert Quoted(words) == "\"" + words[0] + "\"";
    } else {
      SplitQuotedHead(parts, words[0], Quoted(words[1..]));
      SplitQuoted(parts + [words[0]], words[1..]);
      assert parts + [words[0]] + words[1..] == parts + words;
    }
  }

  lemma {:induction false} QuotedHasNoLineFeed(words: seq<string>)
    requires forall i :: 0 <= i < |words| ==> '\n' !in words[i]
    ensures '\n' !in Quoted(words)
    decreases |words|
  {
    if words != [] {
      QuotedHasNoLineFeed(words[1..]);
    }
  }

  /** Non-empty words without double quotes or line feeds, sent inline in quotes, arrive as the array of those words. */
  lemma InlineRoundTrip(words: seq<string>, rest: string)
    requires words != []
    requires forall i :: 0 <= i < |words| ==> words[i] != [] && '"' !in words[i] && '\n' !in words[i]
    ensures Parse(Quoted(words) + CRLF + rest) == Ok((Array(Bulks(words)), rest))
  {
    var b := Quoted(words) + CRLF + rest;
    QuotedHasNoLineFeed(words);
    ReadLineWritten(Quoted(words), rest);
    SplitQuoted([], words);
    assert [] + words == words;
    ParseDispatches('"', b[1..]);
    assert b == ['"'] + b[1..];
  }
}
