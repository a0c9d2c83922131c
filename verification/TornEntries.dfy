/** Appending to a log that was cut off: what is written behind a torn entry is replayed only if nothing is torn. */
module TornEntries {
  import opened Basics
  import opened Strings
  import opened Resp
  import opened AppendOnlyFiles

  // A value that was cut off in front of another.

  lemma {:induction false} NoNumber(s: string, i: nat)
    requires i < |s| && s[i] == '*'
    ensures ParseInt(s).None?
  {
    if i > 0 {
      assert s[1..][i - 1] == '*';
    }
    assert !IsDigit('*');
  }

  lemma LineReachesOver(head: string, next: string, line: string, rest: string)
    requires '\n' !in head && next != [] && next[0] == '*' && head + next == line + CRLF + rest
    ensures |line| > |head|
  {
    var b := line + CRLF + rest;
    assert b[|line|] == '\r' && b[|line| + 1] == '\n';
    assert b[|head|] == '*' && b[..|head|] == head;
  }

  /** A header without its line end, in front of a log entry, is no header. */
  lemma TornHeader(head: string, next: string)
    requires '\n' !in head && next != [] && next[0] == '*'
    ensures ReadLine(head + next).Ok? ==> ParseInt(ReadLine(head + next).value.0).None?
  {
    var b := head + next;
    if ReadLine(b).Ok? {
      var (line, rest) := ReadLine(b).value;
      var i := |head|;
      assert b[i] == '*';
      LineReachesOver(head, next, line, rest);
      assert line[i] == (line + CRLF + rest)[i];
      NoNumber(line, i);
    }
  }

  predicate LineEndAt(s: string, i: nat) {
    i + 1 < |s| && s[i] == '\r' && s[i + 1] == '\n'
  }

  /** How many bytes of data a word lacks whose encoding was cut off after m bytes. */
  function Lacks(w: string, m: nat): nat {
    var e := |Encode(BulkString(w))|;
    if m + 2 < e then e - 2 - m else 0
  }

  /** Bulk data without all of its bytes and its line end takes them from what follows. */
  lemma TornData(w: string, m: nat, next: string)
    requires m < |w| + 2 && next != [] && next[0] == '*'
    requires m < |w| ==> !LineEndAt(next, |w| - m)
    ensures var b := (w + CRLF)[..m] + next;
            |b| < |w| + 2 || b[|w|] != '\r' || b[|w| + 1] != '\n'
  {
    var b := (w + CRLF)[..m] + next;
    if |b| >= |w| + 2 {
      assert b[m] == '*';
      if m < |w| {
        assert b[|w|] == next[|w| - m] && b[|w| + 1] == next[|w| - m + 1];
      }
    }
  }

  lemma TornWordHeader(head: string, next: string)
    requires '\n' !in head && next != [] && next[0] == '*'
    ensures Parse(['$'] + (head + next)).Err?
  {
    hide ReadLine, ParseInt;
    ParseDispatches('$', head + next);
    TornHeader(head, next);
  }

  lemma TornWordData(w: string, m: nat, next: string)
    requires m < |w| + 2 && IsInt64(|w|) && next != [] && next[0] == '*'
    requires m < |w| ==> !LineEndAt(next, |w| - m)
    ensures Parse(['$'] + (FormatInt(|w|) + CRLF + ((w + CRLF)[..m] + next))).Err?
  {
    var rest := (w + CRLF)[..m] + next;
    ParseDispatches('$', FormatInt(|w|) + CRLF + rest);
    ReadLineWritten(FormatInt(|w|), rest);
    ParseFormatted(|w|);
    TornData(w, m, next);
    hide ReadLine, ParseInt;
  }

  lemma WordIs(w: string)
    ensures Encode(BulkString(w)) == ['$'] + (FormatInt(|w|) + CRLF + (w + CRLF))
  {
    AppendOnlyFiles.Regroup("$" + FormatInt(|w|) + CRLF, w, CRLF);
  }

  lemma CutAndRegroup(a: string, b: string, m: nat, next: string)
    requires 0 < m <= 1 + |a| + |b|
    ensures (['$'] + (a + b))[..m] + next ==
            ['$'] + if m - 1 < |a| then a[..m - 1] + next else a + (b[..m - 1 - |a|] + next)
  {
  }

  /** A word that was cut off cannot be read, unless what follows happens to have a line end just where it should. */
  lemma TornWord(w: string, m: nat, next: string)
    requires 0 < m < |Encode(BulkString(w))| && IsInt64(|w|) && next != [] && next[0] == '*'
    requires Lacks(w, m) == 0 || !LineEndAt(next, Lacks(w, m))
    ensures Parse(Encode(BulkString(w))[..m] + next).Err?
  {
    hide Parse, LineEndAt;
    var head := FormatInt(|w|) + CRLF;
    WordIs(w);
    CutAndRegroup(head, w + CRLF, m, next);
    if m - 1 < |head| {
      assert head[..m - 1] == (FormatInt(|w|) + "\r")[..m - 1];
      TornWordHeader(head[..m - 1], next);
    } else {
      TornWordData(w, m - 1 - |head|, next);
    }
  }

  // A command that was cut off.

  /** How many bytes of data the word lacks in which the encoding of the words was cut off after m bytes. */
  function AllLack(ws: seq<string>, m: nat): nat
    decreases |ws|
  {
    if ws == [] then 0
    else
      var e := |Encode(BulkString(ws[0]))|;
      if m < e then (if m == 0 then 0 else Lacks(ws[0], m)) else AllLack(ws[1..], m - e)
  }

  lemma BulksFirst(ws: seq<string>)
    requires ws != []
    ensures Bulks(ws)[0] == BulkString(ws[0]) && Bulks(ws)[1..] == Bulks(ws[1..])
    ensures EncodeAll(Bulks(ws)) == Encode(BulkString(ws[0])) + EncodeAll(Bulks(ws[1..]))
  {
  }

  /** What comes of words that were cut off in front of one array: an error, or all but the last and then the array. */
  predicate Mended(r: Result<(seq<Value>, string), ReadError>, ws: seq<string>, v: Value) {
    r.Err? || (ws != [] && r.value == (Bulks(ws[..|ws| - 1]) + [v], []))
  }

  lemma MendedOneMore(r: Result<(seq<Value>, string), ReadError>, ws: seq<string>, v: Value)
    requires ws != [] && Mended(r, ws[1..], v) && r.Ok?
    ensures Mended(Ok(([BulkString(ws[0])] + r.value.0, r.value.1)), ws, v)
  {
    var front := ws[..|ws| - 1];
    assert ws[1..][..|ws[1..]| - 1] == front[1..];
    assert Bulks(front) + [v] == [BulkString(ws[0])] + (Bulks(front[1..]) + [v]);
  }

  lemma ReadBeforeNothing(n: nat, next: string, v: Value)
    requires n > 0 && Parse(next) == Ok((v, []))
    ensures if n == 1 then ParseMany(n, next) == Ok(([v], [])) else ParseMany(n, next).Err?
  {
    assert [v] + [] == [v];
    assert n > 1 ==> ParseMany(n - 1, []).Err?;
  }

  lemma {:induction false} TornWords(ws: seq<string>, m: nat, next: string, v: Value)
    requires m < |EncodeAll(Bulks(ws))| && forall i :: 0 <= i < |ws| ==> IsInt64(|ws[i]|)
    requires next != [] && next[0] == '*' && Parse(next) == Ok((v, []))
    requires AllLack(ws, m) == 0 || !LineEndAt(next, AllLack(ws, m))
    ensures Mended(ParseMany(|ws|, EncodeAll(Bulks(ws))[..m] + next), ws, v)
    decreases |ws|
  {
    hide Parse, LineEndAt, Encode;
    var e, tail := Encode(BulkString(ws[0])), EncodeAll(Bulks(ws[1..]));
    BulksFirst(ws);
    if m == 0 {
      assert (e + tail)[..0] + next == next;
      ReadBeforeNothing(|ws|, next, v);
      assert |ws| == 1 ==> Bulks(ws[..0]) + [v] == [v];
    } else if m < |e| {
      assert (e + tail)[..m] == e[..m];
      TornWord(ws[0], m, next);
    } else {
      CutOfTwo(e, tail, m);
      var rest := tail[..m - |e|] + next;
      assert e + tail[..m - |e|] + next == e + rest;
      RoundTrip(BulkString(ws[0]), rest);
      ReadOneMore(|ws|, e + rest, BulkString(ws[0]), rest);
      TornWords(ws[1..], m - |e|, next, v);
      if ParseMany(|ws[1..]|, rest).Ok? {
        MendedOneMore(ParseMany(|ws[1..]|, rest), ws, v);
      }
    }
  }

  /** The command with its last argument, of which nothing or only a header got out, taken for the empty text. */
  predicate LastIsEmpty(c: Command, c': Command) {
    c.args != [] && c' == Command(c.name, c.args[..|c.args| - 1] + [""])
  }

  lemma MendedCommand(c: Command, v: Value)
    requires Loggable(c) && v.Array?
    ensures var got := ToCommand(Array(Bulks(Words(c)[..|c.args|]) + [v]));
            got.None? || LastIsEmpty(c, got.value)
  {
    var ws := Words(c)[..|c.args|];
    var elems := Bulks(ws) + [v];
    if c.args != [] {
      assert elems[0] == BulkString(c.name);
      assert Texts(elems[1..]) == c.args[..|c.args| - 1] + [""];
    } else {
      assert elems == [v];
    }
  }

  function HeaderOf(c: Command): string {
    ['*'] + (FormatInt(|c.args| + 1) + CRLF)
  }

  lemma CommandIs(c: Command)
    ensures EncodeCommand(c) == HeaderOf(c) + EncodeAll(Bulks(Words(c)))
  {
  }

  lemma TornArrayHeader(head: string, next: string)
    requires '\n' !in head && next != [] && next[0] == '*'
    ensures Parse(['*'] + (head + next)).Err?
  {
    hide ReadLine, ParseInt;
    ParseDispatches('*', head + next);
    TornHeader(head, next);
  }

  lemma ReadArrayOf(n: nat, body: string)
    requires IsInt64(n)
    ensures var r := ParseMany(n, body);
            Parse(['*'] + (FormatInt(n) + CRLF) + body) ==
            if r.Ok? then Ok((Array(r.value.0), r.value.1)) else Err(r.error)
  {
    hide ReadLine, ParseInt, FormatInt, ParseMany, Parse;
    var head := FormatInt(n) + CRLF;
    assert ['*'] + head + body == ['*'] + (head + body);
    ParseDispatches('*', head + body);
    ReadLineWritten(FormatInt(n), body);
    ParseFormatted(n);
  }

  /** How many bytes of data the word lacks in which a command was cut off after k bytes. */
  function CommandLacks(c: Command, k: nat): nat {
    if k < |HeaderOf(c)| then 0 else AllLack(Words(c), k - |HeaderOf(c)|)
  }

  lemma CutHeader(head: string, body: string, k: nat, next: string)
    requires 0 < k <= |head| + 1 + |body|
    ensures (['*'] + head + body)[..k] + next ==
            if k <= |head| then ['*'] + (head[..k - 1] + next) else ['*'] + head + (body[..k - 1 - |head|] + next)
  {
  }

  /**
    A command that was cut off, in front of one array, is replayed as nothing, or with the array swallowed for its
    last argument, unless the array happens to have a line end just where the data that is lacking should have it.
   */
  lemma TornCommand(c: Command, k: nat, next: string, v: Value) returns (got: Option<Command>)
    requires Loggable(c) && 0 < k < |EncodeCommand(c)|
    requires next != [] && next[0] == '*' && Parse(next) == Ok((v, [])) && v.Array?
    requires CommandLacks(c, k) == 0 || !LineEndAt(next, CommandLacks(c, k))
    ensures got.Some? ==> LastIsEmpty(c, got.value)
    ensures Replayed(EncodeCommand(c)[..k] + next) == if got.Some? then [got.value] else []
  {
    hide Parse, LineEndAt, EncodeCommand, EncodeAll, AllLack;
    var n, ws, digits := |c.args| + 1, Words(c), FormatInt(|c.args| + 1);
    var body := EncodeAll(Bulks(ws));
    CommandIs(c);
    CutHeader(digits + CRLF, body, k, next);
    got := None;
    if k < |HeaderOf(c)| {
      assert (digits + CRLF)[..k - 1] == (digits + "\r")[..k - 1];
      TornArrayHeader((digits + CRLF)[..k - 1], next);
    } else {
      var m := k - |HeaderOf(c)|;
      var r := ParseMany(n, body[..m] + next);
      ReadArrayOf(n, body[..m] + next);
      TornWords(ws, m, next, v);
      if r.Ok? {
        MendedCommand(c, v);
        got := ToCommand(Array(r.value.0));
        NothingIsReplayed();
      }
    }
  }

  // A command that is not lost by accident.

  /** Every carriage return stands in a line end. */
  predicate OnlyLineEnds(s: string) {
    forall i :: 0 <= i < |s| && s[i] == '\r' ==> i + 1 < |s| && s[i + 1] == '\n'
  }

  lemma JoinedLineEnds(a: string, b: string)
    requires OnlyLineEnds(a) && OnlyLineEnds(b)
    ensures OnlyLineEnds(a + b)
  {
    forall i | 0 <= i < |a + b| && (a + b)[i] == '\r'
      ensures i + 1 < |a + b| && (a + b)[i + 1] == '\n'
    {
      assert if i < |a| then a[i] == '\r' else b[i - |a|] == '\r';
    }
  }

  lemma {:induction false} WordsHaveOnlyLineEnds(ws: seq<string>)
    requires forall i :: 0 <= i < |ws| ==> '\r' !in ws[i]
    ensures OnlyLineEnds(EncodeAll(Bulks(ws)))
    decreases |ws|
  {
    if ws != [] {
      BulksFirst(ws);
      var w := ws[0];
      JoinedLineEnds("$" + FormatInt(|w|) + CRLF, w + CRLF);
      WordIs(w);
      assert Encode(BulkString(w)) == "$" + FormatInt(|w|) + CRLF + (w + CRLF);
      WordsHaveOnlyLineEnds(ws[1..]);
      JoinedLineEnds(Encode(BulkString(w)), EncodeAll(Bulks(ws[1..])));
    }
  }

  /** A text behind a header of four bytes and the same behind one of five have no line end at the same place. */
  lemma ShiftedLineEnds(t: string, u: string, q: nat)
    requires OnlyLineEnds(t) && q > 0
    ensures !(LineEndAt("*3\r\n" + t, q) && LineEndAt("*10\r\n" + (t + u), q))
  {
    var a, b := "*3\r\n" + t, "*10\r\n" + (t + u);
    assert a[..4] == "*3\r\n" && b[..5] == "*10\r\n";
    assert 5 <= q < |a| && q < |b| ==> a[q] == t[q - 4] && b[q] == t[q - 5];
  }

  lemma {:induction false} FreshLength(args: seq<string>, most: nat) returns (m: nat)
    requires |args| < most
    ensures 1 <= m <= most && forall i :: 0 <= i < |args| ==> |args[i]| != m
    decreases |args|
  {
    if j :| 0 <= j < |args| && |args[j]| == most {
      var others := args[..j] + args[j + 1..];
      m := FreshLength(others, most - 1);
      forall i | 0 <= i < |args| ensures |args[i]| != m {
        assert i < j ==> others[i] == args[i];
        assert i > j ==> others[i - 1] == args[i];
      }
    } else {
      m := most;
    }
  }

  /** A key that is none of the arguments. */
  lemma FreshKey(c: Command) returns (key: string)
    requires Loggable(c)
    ensures key != "" && key !in c.args && IsInt64(|key|) && '\r' !in key
  {
    var m := FreshLength(c.args, |c.args| + 1);
    key := seq(m, _ => 'A');
    assert forall i :: 0 <= i < m ==> key[i] == 'A';
  }

  const KEEPTTLS: seq<string> := ["KEEPTTL", "KEEPTTL", "KEEPTTL", "KEEPTTL", "KEEPTTL", "KEEPTTL", "KEEPTTL"]

  /** SET with no option, or with seven that change nothing. */
  function PlainSet(key: string, text: string, padded: bool): Command {
    Command("SET", [key, text] + if padded then KEEPTTLS else [])
  }

  lemma PlainSetIsLoggable(key: string, text: string, padded: bool)
    requires IsInt64(|key|) && IsInt64(|text|)
    ensures Loggable(PlainSet(key, text, padded))
  {
    var args := PlainSet(key, text, padded).args;
    assert forall i :: 2 <= i < |args| ==> args[i] == KEEPTTLS[i - 2];
    assert ToUpper("SET") == "SET";
  }

  lemma HeadersOfTwo()
    ensures ['*'] + (FormatInt(3) + CRLF) == "*3\r\n" && ['*'] + (FormatInt(10) + CRLF) == "*10\r\n"
  {
    assert FormatNat(1) == "1" && FormatNat(10) == FormatNat(1) + ['0'];
  }

  lemma PlainSetIs(key: string, text: string) returns (t: string, u: string)
    requires '\r' !in key && '\r' !in text
    ensures OnlyLineEnds(t)
    ensures EncodeCommand(PlainSet(key, text, false)) == "*3\r\n" + t
    ensures EncodeCommand(PlainSet(key, text, true)) == "*10\r\n" + (t + u)
  {
    hide FormatInt, EncodeCommand, Encode, EncodeAll, OnlyLineEnds;
    var ws := ["SET", key, text];
    t, u := EncodeAll(Bulks(ws)), EncodeAll(Bulks(KEEPTTLS));
    WordsHaveOnlyLineEnds(ws);
    RespStreams.EncodeAllJoins(Bulks(ws), Bulks(KEEPTTLS));
    assert Bulks(ws + KEEPTTLS) == Bulks(ws) + Bulks(KEEPTTLS);
    var a, b := PlainSet(key, text, false), PlainSet(key, text, true);
    CommandIs(a);
    CommandIs(b);
    assert Words(a) == ws && Words(b) == ws + KEEPTTLS;
    HeadersOfTwo();
  }

  /** Behind any torn command some SET of the key is lost. */
  lemma TornLosesSet(c: Command, k: nat, key: string, text: string) returns (padded: bool, got: Option<Command>)
    requires Loggable(c) && 0 < k < |EncodeCommand(c)|
    requires IsInt64(|key|) && IsInt64(|text|) && '\r' !in key && '\r' !in text
    ensures got.Some? ==> LastIsEmpty(c, got.value)
    ensures Loggable(PlainSet(key, text, padded))
    ensures Replayed(EncodeCommand(c)[..k] + EncodeLog([PlainSet(key, text, padded)])) ==
            if got.Some? then [got.value] else []
  {
    hide EncodeCommand, Encode, Parse, CommandLacks, LineEndAt, PlainSet;
    var t, u := PlainSetIs(key, text);
    var q := CommandLacks(c, k);
    padded := q > 0 && LineEndAt("*3\r\n" + t, q);
    if q > 0 {
      ShiftedLineEnds(t, u, q);
    }
    var l := PlainSet(key, text, padded);
    PlainSetIsLoggable(key, text, padded);
    CommandReadsBack(l, []);
    var next := EncodeCommand(l);
    assert next + [] == next && EncodeLog([l]) == next + [] && next[0] == '*';
    got := TornCommand(c, k, next, Array(Bulks(Words(l))));
  }

  // Logs that are appended to.

  /** A cut leaves whole commands and perhaps a part of the next. */
  lemma {:induction false} CutLeaves(cs: seq<Command>, k: nat) returns (torn: string)
    requires k <= |EncodeLog(cs)|
    ensures EncodeLog(cs)[..k] == EncodeLog(cs[..Whole(cs, k)]) + torn
    ensures var n := Whole(cs, k);
            torn != [] ==> n < |cs| && |torn| < |EncodeCommand(cs[n])| && torn == EncodeCommand(cs[n])[..|torn|]
    decreases |cs|
  {
    hide EncodeCommand;
    if cs == [] {
      torn := [];
    } else {
      var e, tail := EncodeCommand(cs[0]), EncodeLog(cs[1..]);
      CutOfTwo(e, tail, k);
      if k < |e| {
        torn := e[..k];
        assert cs[..0] == [];
      } else {
        torn := CutLeaves(cs[1..], k - |e|);
        var n := Whole(cs[1..], k - |e|);
        assert cs[..n + 1][1..] == cs[1..][..n];
        AppendOnlyFiles.Regroup(e, EncodeLog(cs[1..][..n]), torn);
      }
    }
  }

  /** Whatever is appended to the file, a replay finds the commands there were and then those that were appended. */
  ghost predicate AppendsReplay(file: string, cs: seq<Command>) {
    forall later :: AllLoggable(later) ==> Replayed(file + EncodeLog(later)) == cs + later
  }

  lemma ReplayedBehindTear(cs: seq<Command>, k: nat, torn: string, more: string)
    requires AllLoggable(cs) && k <= |EncodeLog(cs)| && EncodeLog(cs)[..k] == EncodeLog(cs[..Whole(cs, k)]) + torn
    ensures Replayed(EncodeLog(cs)[..k] + more) == cs[..Whole(cs, k)] + Replayed(torn + more)
  {
    var before := cs[..Whole(cs, k)];
    assert AllLoggable(before);
    AppendOnlyFiles.Regroup(EncodeLog(before), torn, more);
    ReplayedLog(before, torn + more);
  }

  /** A file that was cut on the end of a command can be appended to. */
  lemma WholeFileAppends(cs: seq<Command>, later: seq<Command>)
    requires AllLoggable(cs) && AllLoggable(later)
    ensures Replayed(EncodeLog(cs) + EncodeLog(later)) == cs + later
  {
    ReplayedLog(cs, EncodeLog(later));
    ReplayedLog(later, []);
    assert EncodeLog(later) + [] == EncodeLog(later) && later + [] == later;
  }

  /** In a file that was cut anywhere else, some SET of the key is lost. */
  lemma TornFileLosesSet(cs: seq<Command>, k: nat, key: string, text: string) returns (padded: bool, got: seq<Command>)
    requires AllLoggable(cs) && k <= |EncodeLog(cs)| && k != |EncodeLog(cs[..Whole(cs, k)])|
    requires IsInt64(|key|) && IsInt64(|text|) && '\r' !in key && '\r' !in text
    ensures Whole(cs, k) < |cs|
    ensures got == [] || (|got| == 1 && LastIsEmpty(cs[Whole(cs, k)], got[0]))
    ensures Loggable(PlainSet(key, text, padded))
    ensures Replayed(EncodeLog(cs)[..k] + EncodeLog([PlainSet(key, text, padded)])) == cs[..Whole(cs, k)] + got
  {
    hide EncodeCommand, Replayed, LastIsEmpty, EncodeLog, PlainSet;
    var torn := CutLeaves(cs, k);
    assert torn != [];
    var c := cs[Whole(cs, k)];
    var pad, found := TornLosesSet(c, |torn|, key, text);
    padded := pad;
    got := if found.Some? then [found.value] else [];
    ReplayedBehindTear(cs, k, torn, EncodeLog([PlainSet(key, text, padded)]));
  }

  lemma FreshKeyStaysOut(c: Command, c': Command, key: string)
    requires LastIsEmpty(c, c') && key != "" && key !in c.args
    ensures key !in c'.args
  {
    assert forall i :: 0 <= i < |c.args| - 1 ==> c'.args[i] == c.args[i];
  }

  lemma TornFileDoesNotAppend(cs: seq<Command>, k: nat)
    requires AllLoggable(cs) && k <= |EncodeLog(cs)| && k != |EncodeLog(cs[..Whole(cs, k)])|
    ensures !AppendsReplay(EncodeLog(cs)[..k], cs[..Whole(cs, k)])
  {
    hide EncodeLog, Replayed, LastIsEmpty;
    var n := Whole(cs, k);
    var torn := CutLeaves(cs, k);
    assert torn != [] && n < |cs|;
    var key := FreshKey(cs[n]);
    var padded, got := TornFileLosesSet(cs, k, key, "");
    var l := PlainSet(key, "", padded);
    assert l.args[0] == key;
    if got != [] {
      FreshKeyStaysOut(cs[n], got[0], key);
    }
    assert (cs[..n] + got)[n..] == got && (cs[..n] + [l])[n..] == [l];
    assert AllLoggable([l]);
  }

  /**
    A log that was cut off and then appended to replays to its whole commands and those that were appended, whatever
    they are, just when it was cut on the end of a command.
   */
  lemma AppendsReplayIff(cs: seq<Command>, k: nat)
    requires AllLoggable(cs) && k <= |EncodeLog(cs)|
    ensures AppendsReplay(EncodeLog(cs)[..k], cs[..Whole(cs, k)]) <==> k == |EncodeLog(cs[..Whole(cs, k)])|
  {
    var n := Whole(cs, k);
    if k == |EncodeLog(cs[..n])| {
      var torn := CutLeaves(cs, k);
      assert AllLoggable(cs[..n]) && EncodeLog(cs)[..k] == EncodeLog(cs[..n]);
      forall later | AllLoggable(later) ensures Replayed(EncodeLog(cs)[..k] + EncodeLog(later)) == cs[..n] + later {
        WholeFileAppends(cs[..n], later);
      }
    } else {
      TornFileDoesNotAppend(cs, k);
    }
  }
}
