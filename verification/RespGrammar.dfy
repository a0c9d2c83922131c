/** The protocol as a grammar, next to the reader: which bytes spell which value, byte for byte. */
module RespGrammar {
  import opened Basics
  import opened Strings
  import opened Resp

  // What is written.

  /** What stands on the wire: a type byte, and a carriage return and a line feed behind every line. */
  lemma WireFormat(s: string, n: int)
    ensures Encode(SimpleString(s)) == ['+'] + s + ['\r', '\n']
    ensures Encode(Error(s)) == ['-'] + s + ['\r', '\n']
    ensures Encode(Integer(n)) == [':'] + FormatInt(n) + ['\r', '\n']
    ensures Encode(BulkString(s)) == ['$'] + FormatInt(|s|) + ['\r', '\n'] + s + ['\r', '\n']
    ensures Encode(NullBulk) == ['$', '-', '1', '\r', '\n']
  {
  }

  /** An array of nothing. */
  lemma EmptyArrayFormat()
    ensures Encode(Array([])) == "*0\r\n"
  {
    FormatIsShort(0);
    hide FormatNat;
    assert EncodeAll([]) == [] && FormatInt(0) == "0";
  }

  /** An array is its length and then its elements, the first before the others. */
  lemma ArrayFormat(v: Value, vs: seq<Value>)
    ensures Encode(Array([v] + vs)) == ['*'] + FormatInt(|vs| + 1) + ['\r', '\n'] + (Encode(v) + EncodeAll(vs))
  {
    hide FormatInt;
    assert ([v] + vs)[0] == v && ([v] + vs)[1..] == vs;
  }

  // What is read.

  /** A line with the type byte and the number. */
  ghost predicate Header(h: string, t: char, n: int) {
    exists line: string :: '\n' !in line && ParseInt(line) == Some(n) && h == [t] + line + CRLF
  }

  /** A line of words that does not begin with a type byte. */
  ghost predicate Inline(b: string, line: string, elems: seq<Value>) {
    && line != [] && line[0] !in {'+', '-', ':', '$', '*'} && '\n' !in line && b == line + CRLF
    && SplitInline(line) != [] && elems == Bulks(SplitInline(line))
  }

  /** The bytes are the value and nothing else. */
  ghost predicate Spells(b: string, v: Value)
    decreases v, 1
  {
    match v
    case SimpleString(s) => '\n' !in s && b == "+" + s + CRLF
    case Error(s) => '\n' !in s && b == "-" + s + CRLF
    case Integer(n) => Header(b, ':', n)
    case BulkString(s) => exists h: string :: Header(h, '$', |s|) && b == h + s + CRLF
    case NullBulk => Header(b, '$', -1)
    case NullArray => Header(b, '*', -1)
    case Array(elems) =>
      || (exists line: string :: Inline(b, line, elems))
      || (exists h: string, body: string :: Header(h, '*', |elems|) && b == h + body && SpellAll(body, elems))
  }

  /** The values stand one after the other. */
  ghost predicate SpellAll(b: string, vs: seq<Value>)
    decreases vs, 2
  {
    if vs == [] then b == []
    else exists cut: nat :: cut <= |b| && Spells(b[..cut], vs[0]) && SpellAll(b[cut..], vs[1..])
  }

  lemma HeaderIsRead(h: string, t: char, n: int, rest: string) returns (line: string)
    requires Header(h, t, n)
    ensures h + rest == [t] + (line + CRLF + rest) && ReadLine(line + CRLF + rest) == Ok((line, rest))
    ensures ParseInt(line) == Some(n)
  {
    hide ReadLine, ParseInt;
    line :| '\n' !in line && ParseInt(line) == Some(n) && h == [t] + line + CRLF;
    ReadLineWritten(line, rest);
    assert h + rest == [t] + (line + CRLF + rest);
  }

  lemma BulkIsRead(b: string, s: string, rest: string)
    requires Spells(b, BulkString(s))
    ensures Parse(b + rest) == Ok((BulkString(s), rest))
  {
    hide ReadLine, ParseInt, Parse;
    var h: string :| Header(h, '$', |s|) && b == h + s + CRLF;
    var tail := s + CRLF + rest;
    var line := HeaderIsRead(h, '$', |s|, tail);
    assert b + rest == h + tail;
    ParseDispatches('$', line + CRLF + tail);
    assert tail[..|s|] == s && tail[|s| + 2..] == rest && tail[|s|] == '\r' && tail[|s| + 1] == '\n';
  }

  lemma LineIsRead(b: string, v: Value, rest: string)
    requires Spells(b, v) && !v.Array? && !v.BulkString?
    ensures Parse(b + rest) == Ok((v, rest))
  {
    hide ReadLine, ParseInt, Parse;
    match v
    case SimpleString(s) =>
      ReadTextWritten(s, false, rest);
      ParseDispatches('+', s + CRLF + rest);
      assert b + rest == ['+'] + (s + CRLF + rest);
    case Error(s) =>
      ReadTextWritten(s, true, rest);
      ParseDispatches('-', s + CRLF + rest);
      assert b + rest == ['-'] + (s + CRLF + rest);
    case Integer(n) =>
      var line := HeaderIsRead(b, ':', n, rest);
      ParseDispatches(':', line + CRLF + rest);
    case NullBulk =>
      var line := HeaderIsRead(b, '$', -1, rest);
      ParseDispatches('$', line + CRLF + rest);
    case NullArray =>
      var line := HeaderIsRead(b, '*', -1, rest);
      ParseDispatches('*', line + CRLF + rest);
  }

  lemma InlineIsRead(b: string, line: string, elems: seq<Value>, rest: string)
    requires Inline(b, line, elems)
    ensures Parse(b + rest) == Ok((Array(elems), rest))
  {
    hide ReadLine, ParseInt, Parse, SplitInline;
    ReadLineWritten(line, rest);
    var t, more := line[0], line[1..] + CRLF + rest;
    assert b + rest == [t] + more == line + CRLF + rest;
    ParseDispatches(t, more);
  }

  /** What spells a value is read as that value, and leaves what follows. */
  lemma {:induction false} SpelledIsRead(b: string, v: Value, rest: string)
    requires Spells(b, v)
    ensures Parse(b + rest) == Ok((v, rest))
    decreases v, 1
  {
    hide Parse, ReadLine, ParseInt, Header, Inline, ParseMany, SplitInline;
    if v.BulkString? {
      BulkIsRead(b, v.s, rest);
    } else if !v.Array? {
      LineIsRead(b, v, rest);
    } else if line: string :| Inline(b, line, v.elems) {
      InlineIsRead(b, line, v.elems, rest);
    } else {
      var h: string, body: string :| Header(h, '*', |v.elems|) && b == h + body && SpellAll(body, v.elems);
      var line := HeaderIsRead(h, '*', |v.elems|, body + rest);
      assert b + rest == h + (body + rest);
      ParseDispatches('*', line + CRLF + (body + rest));
      AllSpelledAreRead(body, v.elems, rest);
    }
  }

  lemma {:induction false} AllSpelledAreRead(b: string, vs: seq<Value>, rest: string)
    requires SpellAll(b, vs)
    ensures ParseMany(|vs|, b + rest) == Ok((vs, rest))
    decreases vs, 2
  {
    hide Parse, Spells;
    if vs == [] {
      assert b + rest == rest;
    } else {
      var cut: nat :| cut <= |b| && Spells(b[..cut], vs[0]) && SpellAll(b[cut..], vs[1..]);
      assert b + rest == b[..cut] + (b[cut..] + rest);
      SpelledIsRead(b[..cut], vs[0], b[cut..] + rest);
      AllSpelledAreRead(b[cut..], vs[1..], rest);
      ReadOneMore(|vs|, b + rest, vs[0], b[cut..] + rest);
      assert [vs[0]] + vs[1..] == vs;
    }
  }

  /** What has been read of the bytes when `rest` is left. */
  function Used(b: string, rest: string): string
    requires |rest| <= |b|
  {
    b[..|b| - |rest|]
  }

  lemma HeaderOfRead(t: char, b: string, n: int)
    requires ReadLine(b).Ok? && ParseInt(ReadLine(b).value.0) == Some(n)
    ensures var rest := ReadLine(b).value.1; [t] + b == Used([t] + b, rest) + rest && Header(Used([t] + b, rest), t, n)
  {
    var (line, rest) := ReadLine(b).value;
    assert [t] + b == [t] + line + CRLF + rest;
    hide ReadLine, ParseInt;
    assert Used([t] + b, rest) == [t] + line + CRLF;
  }

  lemma ReadBulkIsSpelled(b: string, v: Value, rest: string)
    requires ReadBulk(b) == Ok((v, rest))
    ensures |rest| <= |b| && ['$'] + b == Used(['$'] + b, rest) + rest && Spells(Used(['$'] + b, rest), v)
  {
    hide ReadLine, ParseInt, Header;
    var (line, more) := ReadLine(b).value;
    var n := ParseInt(line).value;
    HeaderOfRead('$', b, n);
    if n >= 0 {
      var h := Used(['$'] + b, more);
      assert more == v.s + CRLF + rest && |v.s| == n;
      assert Used(['$'] + b, rest) == h + v.s + CRLF;
    }
  }

  lemma ReadTextIsSpelled(b: string, error: bool, v: Value, rest: string)
    requires ReadText(b, error) == Ok((v, rest))
    ensures var t := if error then '-' else '+';
            [t] + b == Used([t] + b, rest) + rest && Spells(Used([t] + b, rest), v)
  {
    var t := if error then '-' else '+';
    var (line, more) := ReadLine(b).value;
    assert [t] + b == [t] + line + CRLF + rest;
    hide ReadLine;
    assert Used([t] + b, rest) == [t] + line + CRLF;
  }

  lemma ReadIntegerIsSpelled(b: string, v: Value, rest: string)
    requires ReadInteger(b) == Ok((v, rest))
    ensures [':'] + b == Used([':'] + b, rest) + rest && Spells(Used([':'] + b, rest), v)
  {
    hide ReadLine, ParseInt, Header;
    HeaderOfRead(':', b, v.n);
  }

  lemma ReadInlineIsSpelled(b: string, v: Value, rest: string)
    requires b != [] && b[0] !in {'+', '-', ':', '$', '*'} && ReadInline(b) == Ok((v, rest))
    ensures b == Used(b, rest) + rest && Spells(Used(b, rest), v)
  {
    var (line, more) := ReadLine(b).value;
    assert b == line + CRLF + rest;
    assert SplitInline([]) == [];
    hide ReadLine, SplitInline;
    assert Used(b, rest) == line + CRLF;
    assert line[0] == b[0];
    assert Inline(Used(b, rest), line, v.elems);
  }

  /** What has been read spells the value. */
  lemma {:induction false} ReadIsSpelled(b: string, v: Value, rest: string)
    requires Parse(b) == Ok((v, rest))
    ensures b == Used(b, rest) + rest && Spells(Used(b, rest), v)
    decreases |b|, 0
  {
    var t, more := b[0], b[1..];
    assert b == [t] + more;
    hide Spells, ReadText, ReadInteger, ReadBulk, ReadArray, ReadInline;
    if t == '+' || t == '-' {
      ReadTextIsSpelled(more, t == '-', v, rest);
    } else if t == ':' {
      ReadIntegerIsSpelled(more, v, rest);
    } else if t == '$' {
      ReadBulkIsSpelled(more, v, rest);
    } else if t == '*' {
      ReadArrayIsSpelled(more, v, rest);
    } else {
      ReadInlineIsSpelled(b, v, rest);
    }
  }

  lemma {:induction false} ReadArrayIsSpelled(b: string, v: Value, rest: string)
    requires ReadArray(b) == Ok((v, rest))
    ensures |rest| <= |b| && ['*'] + b == Used(['*'] + b, rest) + rest && Spells(Used(['*'] + b, rest), v)
    decreases |b|, 0
  {
    hide ReadLine, ParseInt, Header, ParseMany, SpellAll;
    var (line, body) := ReadLine(b).value;
    var n := ParseInt(line).value;
    HeaderOfRead('*', b, n);
    if n >= 0 {
      ReadManyAreSpelled(n, body, v.elems, rest);
      var h := Used(['*'] + b, body);
      assert Used(['*'] + b, rest) == h + Used(body, rest);
    }
  }

  lemma SpelledOneMore(b: string, cut: nat, vs: seq<Value>)
    requires vs != [] && cut <= |b| && Spells(b[..cut], vs[0]) && SpellAll(b[cut..], vs[1..])
    ensures SpellAll(b, vs)
  {
    hide Spells;
  }

  lemma ManyBegins(n: nat, b: string)
    requires n > 0 && ParseMany(n, b).Ok?
    ensures Parse(b).Ok?
    ensures var (v, more) := Parse(b).value;
            var (vs, rest) := ParseMany(n, b).value;
            vs[0] == v && ParseMany(n - 1, more) == Ok((vs[1..], rest))
  {
    hide Parse;
  }

  lemma UsedTwice(b: string, more: string, rest: string)
    requires |rest| <= |more| <= |b| && b == Used(b, more) + more && more == Used(more, rest) + rest
    ensures var all, cut := Used(b, rest), |b| - |more|;
            b == all + rest && cut <= |all| && all[..cut] == Used(b, more) && all[cut..] == Used(more, rest)
  {
  }

  lemma {:induction false} ReadManyAreSpelled(n: nat, b: string, vs: seq<Value>, rest: string)
    requires ParseMany(n, b) == Ok((vs, rest))
    ensures b == Used(b, rest) + rest && SpellAll(Used(b, rest), vs)
    decreases |b|, n + 1
  {
    hide Parse, Spells;
    if n > 0 {
      ManyBegins(n, b);
      var (v, more) := Parse(b).value;
      ReadIsSpelled(b, v, more);
      ReadManyAreSpelled(n - 1, more, vs[1..], rest);
      hide ParseMany, SpellAll, Used;
      UsedTwice(b, more, rest);
      SpelledOneMore(Used(b, rest), |b| - |more|, vs);
    }
  }

  /** The reader reads just what the grammar spells: of each value its own bytes, and of all other bytes none. */
  lemma ParseIffSpelled(b: string, v: Value, rest: string)
    ensures Parse(b) == Ok((v, rest))
            <==> |rest| <= |b| && b == Used(b, rest) + rest && Spells(Used(b, rest), v)
  {
    if Parse(b) == Ok((v, rest)) {
      ReadIsSpelled(b, v, rest);
    } else if |rest| <= |b| && b == Used(b, rest) + rest && Spells(Used(b, rest), v) {
      SpelledIsRead(Used(b, rest), v, rest);
    }
  }

  // The words of a line.

  lemma {:induction false} OpenMeans(parts: seq<string>, current: string, inQuote: bool, line: string)
    ensures SplitFrom(Split(parts, current, inQuote), line).inQuote == (inQuote != (multiset(line)['"'] % 2 == 1))
    decreases |line|
  {
    if line != [] {
      var st := SplitStep(Split(parts, current, inQuote), line[0]);
      OpenMeans(st.parts, st.current, st.inQuote, line[1..]);
      assert line == [line[0]] + line[1..];
    }
  }

  lemma {:induction false} PartsGoBefore(parts: seq<string>, current: string, inQuote: bool, line: string)
    ensures var st, st0 := SplitFrom(Split(parts, current, inQuote), line),
                           SplitFrom(Split([], current, inQuote), line);
            st == st0.(parts := parts + st0.parts)
    decreases |line|
  {
    if line == [] {
      assert parts + [] == parts;
    } else {
      var st := SplitStep(Split(parts, current, inQuote), line[0]);
      var st0 := SplitStep(Split([], current, inQuote), line[0]);
      PartsGoBefore(st.parts, st.current, st.inQuote, line[1..]);
      PartsGoBefore(st0.parts, st0.current, st0.inQuote, line[1..]);
      assert st.parts == parts + st0.parts;
      var more := SplitFrom(Split([], st.current, st.inQuote), line[1..]).parts;
      assert parts + st0.parts + more == parts + (st0.parts + more);
    }
  }

  /** A blank between two parts of a line separates their words, unless a quote is open: an odd number of them. */
  lemma BlankSeparates(a: string, b: string)
    requires multiset(a)['"'] % 2 == 0
    ensures SplitInline(a + " " + b) == SplitInline(a) + SplitInline(b)
  {
    hide SplitFrom;
    var start := Split([], [], false);
    var st := SplitFrom(start, a);
    OpenMeans([], [], false, a);
    SplitFromJoin(start, a, " " + b);
    assert a + " " + b == a + (" " + b);
    BlankFirst(st, b);
    PartsGoBefore(SplitInline(a), [], false, b);
    var rest := SplitFrom(start, b);
    assert SplitInline(a) + rest.parts + [rest.current] == SplitInline(a) + (rest.parts + [rest.current]);
  }

  lemma BlankFirst(st: Split, b: string)
    requires !st.inQuote
    ensures SplitFrom(st, " " + b) ==
            SplitFrom(Split(if st.current != [] then st.parts + [st.current] else st.parts, [], false), b)
  {
    assert (" " + b)[1..] == b;
  }

  lemma {:induction false} PlainWord(current: string, w: string)
    requires '"' !in w && ' ' !in w
    ensures SplitFrom(Split([], current, false), w) == Split([], current + w, false)
    decreases |w|
  {
    if w == [] {
      assert current + w == current;
    } else {
      PlainWord(current + [w[0]], w[1..]);
      assert current + [w[0]] + w[1..] == current + w;
    }
  }

  /** No word is empty; text without blanks and quotes is one word, and so is text without quotes that stands in two. */
  lemma WordsOfLine(w: string)
    requires '"' !in w
    ensures ' ' !in w ==> SplitInline(w) == if w == [] then [] else [w]
    ensures SplitInline("\"" + w + "\"") == if w == [] then [] else [w]
  {
    if ' ' !in w {
      PlainWord([], w);
      assert [] + w == w;
    }
    SplitQuotedWord([], w);
  }
}
