/** The append-only file: commands as bytes, what a replay finds in the bytes, and what a truncation leaves. */
module AppendOnlyFiles {
  import opened Basics
  import opened Strings
  import opened Resp
  import RespStreams

  datatype Command = Command(name: string, args: seq<string>)

  /** The text of a value; values that hold none have the empty text. */
  function TextOf(v: Value): string {
    match v
    case SimpleString(s) => s
    case Error(s) => s
    case BulkString(s) => s
    case _ => []
  }

  function Texts(vs: seq<Value>): (ts: seq<string>)
    ensures |ts| == |vs|
    ensures forall i :: 0 <= i < |vs| ==> ts[i] == TextOf(vs[i])
  {
    seq(|vs|, i requires 0 <= i < |vs| => TextOf(vs[i]))
  }

  /** A command is a non-empty array whose first element is a bulk string; its name is taken in upper case. */
  function ToCommand(v: Value): Option<Command> {
    if v.Array? && v.elems != [] && (v.elems[0].BulkString? || v.elems[0].NullBulk?)
    then Some(Command(ToUpper(TextOf(v.elems[0])), Texts(v.elems[1..])))
    else None
  }

  /** The words of a command, as the log writes them. */
  function Words(c: Command): seq<string> {
    [c.name] + c.args
  }

  function EncodeCommand(c: Command): (b: string)
    ensures b != []
  {
    Encode(Array(Bulks(Words(c))))
  }

  function EncodeLog(cs: seq<Command>): string {
    if cs == [] then [] else EncodeCommand(cs[0]) + EncodeLog(cs[1..])
  }

  /** The commands that a replay finds: it stops where no value can be read and skips values that are no commands. */
  function Replayed(b: string): seq<Command>
    decreases |b|
  {
    match Parse(b)
    case Err(_) => []
    case Ok((v, rest)) =>
      match ToCommand(v)
      case None => Replayed(rest)
      case Some(c) => [c] + Replayed(rest)
  }

  /** The name is in upper case, and the lengths are ones that Go's int can hold. */
  predicate Loggable(c: Command) {
    && ToUpper(c.name) == c.name
    && IsInt64(|c.args| + 1) && IsInt64(|c.name|)
    && forall i :: 0 <= i < |c.args| ==> IsInt64(|c.args[i]|)
  }

  ghost predicate AllLoggable(cs: seq<Command>) {
    forall i :: 0 <= i < |cs| ==> Loggable(cs[i])
  }

  class AOF {
    var bytes: string   // what the file holds once everything has got there

    /** Opens a file that holds the bytes; they are kept. */
    constructor (file: string)
      ensures bytes == file
    {
      bytes := file;
    }

    /** Appends a command given as its words. */
    method Write(words: seq<string>)
      modifies this
      ensures bytes == old(bytes) + Encode(Array(Bulks(words)))
    {
      ghost var vs := Bulks(words);
      bytes := bytes + ("*" + FormatInt(|words|) + CRLF);
      ghost var head := bytes;
      for i := 0 to |words|
        invariant bytes == head + EncodeAll(vs[..i])
      {
        EncodeOneWordMore(head, words, i);
        bytes := bytes + ("$" + FormatInt(|words[i]|) + CRLF + words[i] + CRLF);
      }
      assert vs[..|words|] == vs;
      RespStreams.HeaderAndElements(old(bytes), vs);
    }
  }

  lemma EncodeOneWordMore(head: string, words: seq<string>, i: nat)
    requires i < |words|
    ensures head + EncodeAll(Bulks(words)[..i]) + ("$" + FormatInt(|words[i]|) + CRLF + words[i] + CRLF) ==
            head + EncodeAll(Bulks(words)[..i + 1])
  {
    RespStreams.EncodePrefix(head, Bulks(words), i);
    assert Encode(BulkString(words[i])) == "$" + FormatInt(|words[i]|) + CRLF + words[i] + CRLF;
  }

  // Replaying what was written.

  lemma BulksAreFine(words: seq<string>)
    requires IsInt64(|words|) && forall i :: 0 <= i < |words| ==> IsInt64(|words[i]|)
    ensures var v := Array(Bulks(words)); Representable(v) && Clean(v) && Norm(v) == v
  {
    assert NormAll(Bulks(words)) == Bulks(words);
  }

  /** A logged command is read back as the command. */
  lemma CommandReadsBack(c: Command, rest: string)
    requires Loggable(c)
    ensures Parse(EncodeCommand(c) + rest) == Ok((Array(Bulks(Words(c))), rest))
    ensures ToCommand(Array(Bulks(Words(c)))) == Some(c)
  {
    BulksAreFine(Words(c));
    RoundTrip(Array(Bulks(Words(c))), rest);
    WordsAreCommand(c);
  }

  lemma WordsAreCommand(c: Command)
    requires Loggable(c)
    ensures ToCommand(Array(Bulks(Words(c)))) == Some(c)
  {
    assert Texts(Bulks(Words(c))[1..]) == c.args;
  }

  lemma ReplayedOneMore(c: Command, rest: string)
    requires Loggable(c)
    ensures Replayed(EncodeCommand(c) + rest) == [c] + Replayed(rest)
  {
    CommandReadsBack(c, rest);
  }

  lemma Regroup<T>(a: seq<T>, b: seq<T>, c: seq<T>)
    ensures a + b + c == a + (b + c)
  {
  }

  /** A log in front of anything replays to its commands in order, and then to what the rest replays to. */
  lemma {:induction false} ReplayedLog(cs: seq<Command>, rest: string)
    requires AllLoggable(cs)
    ensures Replayed(EncodeLog(cs) + rest) == cs + Replayed(rest)
    decreases |cs|
  {
    if cs == [] {
      assert EncodeLog(cs) + rest == rest;
    } else {
      ReplayedLog(cs[1..], rest);
      ReplayedOneMore(cs[0], EncodeLog(cs[1..]) + rest);
      Regroup(EncodeCommand(cs[0]), EncodeLog(cs[1..]), rest);
      Regroup([cs[0]], cs[1..], Replayed(rest));
      assert [cs[0]] + cs[1..] == cs;
    }
  }

  lemma {:induction false} EncodeLogAppend(cs: seq<Command>, c: Command)
    ensures EncodeLog(cs + [c]) == EncodeLog(cs) + EncodeCommand(c)
    decreases |cs|
  {
    if cs == [] {
      assert cs + [c] == [c];
    } else {
      assert (cs + [c])[1..] == cs[1..] + [c];
      EncodeLogAppend(cs[1..], c);
    }
  }

  // Truncation.

  /** How many commands lie wholly within the first k bytes of the log. */
  function Whole(cs: seq<Command>, k: nat): (n: nat)
    ensures n <= |cs|
    decreases |cs|
  {
    if cs == [] || k < |EncodeCommand(cs[0])| then 0 else 1 + Whole(cs[1..], k - |EncodeCommand(cs[0])|)
  }

  /** The first n commands lie within the first k bytes just when n is at most that many. */
  lemma {:induction false} WholeIsExact(cs: seq<Command>, k: nat, n: nat)
    requires n <= |cs|
    ensures |EncodeLog(cs[..n])| <= k <==> n <= Whole(cs, k)
    decreases |cs|
  {
    if n > 0 {
      assert cs[..n][1..] == cs[1..][..n - 1];
      if k >= |EncodeCommand(cs[0])| {
        WholeIsExact(cs[1..], k - |EncodeCommand(cs[0])|, n - 1);
      }
    }
  }

  lemma CutOfTwo(a: string, b: string, k: nat)
    requires k <= |a| + |b|
    ensures (a + b)[..k] == if k < |a| then a[..k] else a + b[..k - |a|]
  {
  }

  lemma CutCommandIsNothing(c: Command, k: nat)
    requires Loggable(c) && k < |EncodeCommand(c)|
    ensures Replayed(EncodeCommand(c)[..k]) == []
  {
    PrefixFree(Array(Bulks(Words(c))), k);
  }

  lemma TakeOneMore<T>(s: seq<T>, n: nat)
    requires n < |s|
    ensures [s[0]] + s[1..][..n] == s[..n + 1]
  {
  }

  lemma NothingIsReplayed()
    ensures Replayed([]) == []
  {
  }

  /**
    Whatever byte the log is cut at, a replay runs exactly the commands wholly before the cut, and never a part of one.
   */
  lemma {:induction false} CutReplaysWholeCommands(cs: seq<Command>, k: nat)
    requires AllLoggable(cs)
    requires k <= |EncodeLog(cs)|
    ensures Replayed(EncodeLog(cs)[..k]) == cs[..Whole(cs, k)]
    decreases |cs|
  {
    hide EncodeCommand, Replayed;
    if cs == [] {
      NothingIsReplayed();
    } else {
      var e, tail := EncodeCommand(cs[0]), EncodeLog(cs[1..]);
      CutOfTwo(e, tail, k);
      if k < |e| {
        CutCommandIsNothing(cs[0], k);
      } else {
        ReplayedOneMore(cs[0], tail[..k - |e|]);
        CutReplaysWholeCommands(cs[1..], k - |e|);
        TakeOneMore(cs, Whole(cs[1..], k - |e|));
      }
    }
  }

  lemma StarIsNoNumber(b: string)
    ensures Parse("*" + ("*" + b)).Err?
  {
    ParseDispatches('*', "*" + b);
    if ReadLine("*" + b).Ok? {
      var (line, rest) := ReadLine("*" + b).value;
      assert (line + CRLF + rest)[0] == '*';
      assert line != [] && line[0] == '*' && !IsDigit(line[0]);
    }
  }

  lemma CommandStartsWithStar(c: Command, rest: string) returns (b: string)
    ensures EncodeCommand(c) + rest == "*" + b
  {
    var vs := Bulks(Words(c));
    b := FormatInt(|vs|) + CRLF + EncodeAll(vs) + rest;
  }

  lemma StarHides(later: seq<Command>)
    ensures Replayed("*" + EncodeLog(later)) == []
  {
    if later == [] {
      ParseDispatches('*', []);
      assert "*" + EncodeLog(later) == "*" + [];
    } else {
      var b := CommandStartsWithStar(later[0], EncodeLog(later[1..]));
      StarIsNoNumber(b);
    }
  }

  /**
    A torn entry is not removed when the file is opened again. If only its first byte got out, everything that is
    written after it is lost to the next replay.
   */
  lemma TornEntryHidesLaterOnes(cs: seq<Command>, later: seq<Command>)
    requires AllLoggable(cs)
    ensures Replayed(EncodeLog(cs) + ("*" + EncodeLog(later))) == cs
  {
    ReplayedLog(cs, "*" + EncodeLog(later));
    StarHides(later);
  }
}
