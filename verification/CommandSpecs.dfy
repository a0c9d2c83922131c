/**
  What the commands do, as functions on the keyspace: from a keyspace, the time and the
  arguments to the keyspace afterwards and the reply.
 */
module CommandSpecs {
  import opened Basics
  import opened Strings
  import opened Pairs
  import opened ScoreRanges
  import opened Occurrences
  import opened StringSorting
  import opened Resp
  import opened Keyspaces

  /** How scores are read, added and printed. No score is a NaN: the order of scores is total. */
  datatype Env = Env(parseScore: string -> Option<Score>, addScores: (Score, Score) -> Score,
                     formatScore: Score -> string)

  type Outcome = (Keyspace, Value)

  // Replies.

  const OK_REPLY := SimpleString("OK")
  const WRONG_TYPE := Error("WRONGTYPE Operation against a key" + " holding the wrong kind of value")
  const NOT_AN_INTEGER := Error("ERR value is not an integer" + " or out of range")
  const NOT_A_FLOAT := Error("ERR value is not a valid float")
  const SYNTAX_ERROR := Error("ERR syntax error")
  const INVALID_EXPIRE := Error("ERR invalid expire time" + " in 'set' command")
  const NO_SUCH_KEY := Error("ERR no such key")
  const INDEX_OUT_OF_RANGE := Error("ERR index out of range")
  const BOUND_NOT_A_FLOAT := Error("ERR min or max is not a float")

  function WrongArgCount(cmd: string): Value {
    Error("ERR wrong number of arguments for '" + ToLower(cmd) + "' command")
  }

  function ArgStr(args: seq<string>, i: nat): string {
    if i < |args| then args[i] else []
  }

  // Typed access to a key.

  datatype Got<+T> = Absent | Wrong | There(value: T)

  function ValueOr<T>(got: Got<T>, default: T): T {
    match got case There(v) => v case _ => default
  }

  function GetItems(ks: Keyspace, key: string): Got<seq<string>> {
    if key !in ks then Absent
    else match ks[key].data case Items(s) => There(s) case _ => Wrong
  }

  function GetPairs(ks: Keyspace, key: string): Got<seq<Pair>> {
    if key !in ks then Absent
    else match ks[key].data case Scored(s) => There(s) case _ => Wrong
  }

  /** The key with new data: an object that is there keeps its deadline, a new one has none. */
  function Put(ks: Keyspace, key: string, d: Data): Keyspace {
    if key in ks then ks[key := ks[key].(data := d)] else ks[key := Entry(d, None)]
  }

  /** A list or sorted set that has become empty goes away with its key. */
  function PutOrDrop(ks: Keyspace, key: string, d: Data): Keyspace {
    if d == Items([]) || d == Scored([]) then ks - {key} else Put(ks, key, d)
  }

  /** Only the last data put counts. */
  lemma PutTwice(ks: Keyspace, key: string, d: Data, d': Data)
    ensures Put(Put(ks, key, d), key, d') == Put(ks, key, d')
    ensures Put(ks, key, d) - {key} == ks - {key}
  {
  }

  lemma PutSame(ks: Keyspace, key: string)
    requires key in ks
    ensures Put(ks, key, ks[key].data) == ks
  {
  }

  // Lists.

  function Push(ks0: Keyspace, now: int, name: string, args: seq<string>, atHead: bool): Outcome {
    if |args| < 2 then (ks0, WrongArgCount(name))
    else
      var key, values := args[0], args[1..];
      var ks := Purge(ks0, key, now);
      match GetItems(ks, key)
      case Wrong => (ks, WRONG_TYPE)
      case got =>
        var s := ValueOr(got, []);
        var s' := if atHead then Reverse(values) + s else s + values;
        (Put(ks, key, Items(s')), Integer(|s'|))
  }

  /** LPUSHX and RPUSHX: as LPUSH and RPUSH, but only onto a list that is there. */
  function PushX(ks0: Keyspace, now: int, name: string, args: seq<string>, atHead: bool): Outcome {
    if |args| < 2 then (ks0, WrongArgCount(name))
    else
      var key, values := args[0], args[1..];
      var ks := Purge(ks0, key, now);
      match GetItems(ks, key)
      case Wrong => (ks, WRONG_TYPE)
      case Absent => (ks, Integer(0))
      case There(s) =>
        var s' := if atHead then Reverse(values) + s else s + values;
        (Put(ks, key, Items(s')), Integer(|s'|))
  }

  function LLen(ks0: Keyspace, now: int, args: seq<string>): Outcome {
    if |args| != 1 then (ks0, WrongArgCount("LLEN"))
    else
      var ks := Purge(ks0, args[0], now);
      match GetItems(ks, args[0])
      case Wrong => (ks, WRONG_TYPE)
      case Absent => (ks, Integer(0))
      case There(s) => (ks, Integer(|s|))
  }

  function LIndex(ks0: Keyspace, now: int, args: seq<string>): Outcome {
    if |args| != 2 then (ks0, WrongArgCount("LINDEX"))
    else
      var ks := Purge(ks0, args[0], now);
      match GetItems(ks, args[0])
      case Wrong => (ks, WRONG_TYPE)
      case Absent => (ks, NullBulk)
      case There(s) =>
        match ParseInt(args[1])
        case None => (ks, NOT_AN_INTEGER)
        case Some(idx) =>
          var i := Position(|s|, idx);
          (ks, if 0 <= i < |s| then BulkString(s[i]) else NullBulk)
  }

  function LSet(ks0: Keyspace, now: int, args: seq<string>): Outcome {
    if |args| != 3 then (ks0, WrongArgCount("LSET"))
    else
      var ks := Purge(ks0, args[0], now);
      match GetItems(ks, args[0])
      case Wrong => (ks, WRONG_TYPE)
      case Absent => (ks, NO_SUCH_KEY)
      case There(s) =>
        match ParseInt(args[1])
        case None => (ks, NOT_AN_INTEGER)
        case Some(idx) =>
          var i := Position(|s|, idx);
          if 0 <= i < |s| then (Put(ks, args[0], Items(s[i := args[2]])), OK_REPLY) else (ks, INDEX_OUT_OF_RANGE)
  }

  /** Before or after the first occurrence of the pivot. */
  function InsertAt(s: seq<string>, pivot: string, v: string, before: bool): seq<string>
    requires pivot in s
  {
    FirstIndexHolds(s, pivot);
    var i := FirstIndex(s, pivot) + if before then 0 else 1;
    s[..i] + [v] + s[i..]
  }

  lemma {:induction false} FirstIndexHolds(s: seq<string>, e: string)
    requires e in s
    ensures FirstIndex(s, e) < |s| && s[FirstIndex(s, e)] == e
  {
    if s[0] != e {
      FirstIndexHolds(s[1..], e);
    }
  }

  function LInsert(ks0: Keyspace, now: int, args: seq<string>): Outcome {
    if |args| != 4 then (ks0, WrongArgCount("LINSERT"))
    else
      var ks := Purge(ks0, args[0], now);
      match GetItems(ks, args[0])
      case Wrong => (ks, WRONG_TYPE)
      case Absent => (ks, Integer(0))
      case There(s) =>
        var where := ToUpper(args[1]);
        if where != "BEFORE" && where != "AFTER" then (ks, SYNTAX_ERROR)
        else if args[2] !in s then (ks, Integer(-1))
        else (Put(ks, args[0], Items(InsertAt(s, args[2], args[3], where == "BEFORE"))), Integer(|s| + 1))
  }

  /** The first k elements to come off, in the order they come off. */
  function Off<T>(s: seq<T>, k: nat, atHead: bool): seq<T>
    requires k <= |s|
  {
    if atHead then s[..k] else Reverse(s[|s| - k..])
  }

  function Left<T>(s: seq<T>, k: nat, atHead: bool): seq<T>
    requires k <= |s|
  {
    if atHead then s[k..] else s[..|s| - k]
  }

  lemma ReversePrepend<T>(x: T, s: seq<T>)
    ensures Reverse([x] + s) == Reverse(s) + [x]
  {
  }

  lemma OffStep<T>(s: seq<T>, k: nat, atHead: bool)
    requires k < |s|
    ensures Off(s, k + 1, atHead) == Off(s, k, atHead) + Off(Left(s, k, atHead), 1, atHead)
    ensures Left(s, k + 1, atHead) == Left(Left(s, k, atHead), 1, atHead)
  {
    if atHead {
      assert s[..k + 1] == s[..k] + s[k..][..1];
    } else {
      var n := |s| - k;
      assert s[n - 1..] == [s[n - 1]] + s[n..];
      ReversePrepend(s[n - 1], s[n..]);
      assert s[..n][n - 1..] == [s[n - 1]];
      assert Reverse([s[n - 1]]) == [s[n - 1]];
    }
  }

  /** After i rounds of popping, `popped` has come off s and `rest` is left. */
  ghost predicate Popped<T>(s: seq<T>, i: int, atHead: bool, popped: seq<T>, rest: seq<T>) {
    0 <= i <= |s| && popped == Off(s, i, atHead) && rest == Left(s, i, atHead)
  }

  lemma NothingPopped<T>(s: seq<T>, atHead: bool)
    ensures Popped(s, 0, atHead, [], s)
  {
  }

  lemma PopsDone<T>(s: seq<T>, i: int, count: int, atHead: bool, popped: seq<T>, rest: seq<T>)
    requires Popped(s, i, atHead, popped, rest) && i <= count && (i == count || rest == [])
    ensures var k := Min(count, |s|); popped == Off(s, k, atHead) && rest == Left(s, k, atHead)
  {
    assert rest == [] ==> |Left(s, i, atHead)| == |s| - i;
  }

  lemma PopRound<T>(s: seq<T>, i: int, atHead: bool, popped: seq<T>, rest: seq<T>)
    requires Popped(s, i, atHead, popped, rest)
    ensures if rest == [] then i == |s|
            else Popped(s, i + 1, atHead, popped + [Off(rest, 1, atHead)[0]], Left(rest, 1, atHead))
  {
    if rest != [] {
      OffStep(s, i, atHead);
      assert Off(rest, 1, atHead) == [Off(rest, 1, atHead)[0]];
    }
  }

  function Pop(ks0: Keyspace, now: int, name: string, args: seq<string>, atHead: bool): Outcome {
    if |args| < 1 then (ks0, WrongArgCount(name))
    else
      var key := args[0];
      var ks := Purge(ks0, key, now);
      match GetItems(ks, key)
      case Wrong => (ks, WRONG_TYPE)
      case Absent => (ks, NullBulk)
      case There(s) =>
        if |args| >= 2 then
          match ParseInt(args[1])
          case None => (ks, NOT_AN_INTEGER)
          case Some(n) =>
            if n < 0 then (ks, NOT_AN_INTEGER)
            else
              var k := Min(n, |s|);
              (PutOrDrop(ks, key, Items(Left(s, k, atHead))),
               if k == 0 then NullArray else Array(Bulks(Off(s, k, atHead))))
        else if s == [] then (ks - {key}, NullBulk)
        else (PutOrDrop(ks, key, Items(Left(s, 1, atHead))), BulkString(Off(s, 1, atHead)[0]))
  }

  function LRange(ks0: Keyspace, now: int, args: seq<string>): Outcome {
    if |args| != 3 then (ks0, WrongArgCount("LRANGE"))
    else
      var ks := Purge(ks0, args[0], now);
      match GetItems(ks, args[0])
      case Wrong => (ks, WRONG_TYPE)
      case Absent => (ks, Array([]))
      case There(s) =>
        match (ParseInt(args[1]), ParseInt(args[2]))
        case (Some(start), Some(stop)) => (ks, Array(Bulks(Slice(s, start, stop))))
        case _ => (ks, NOT_AN_INTEGER)
  }

  function LRem(ks0: Keyspace, now: int, args: seq<string>): Outcome {
    if |args| != 3 then (ks0, WrongArgCount("LREM"))
    else
      var ks := Purge(ks0, args[0], now);
      match GetItems(ks, args[0])
      case Wrong => (ks, WRONG_TYPE)
      case Absent => (ks, Integer(0))
      case There(s) =>
        match ParseInt(args[1])
        case None => (ks, NOT_AN_INTEGER)
        case Some(count) =>
          var s' := Removed(s, count, args[2]);
          (PutOrDrop(ks, args[0], Items(s')), Integer(|s| - |s'|))
  }

  function LTrim(ks0: Keyspace, now: int, args: seq<string>): Outcome {
    if |args| != 3 then (ks0, WrongArgCount("LTRIM"))
    else
      var ks := Purge(ks0, args[0], now);
      match GetItems(ks, args[0])
      case Wrong => (ks, WRONG_TYPE)
      case Absent => (ks, OK_REPLY)
      case There(s) =>
        match (ParseInt(args[1]), ParseInt(args[2]))
        case (Some(start), Some(stop)) => (PutOrDrop(ks, args[0], Items(Slice(s, start, stop))), OK_REPLY)
        case _ => (ks, NOT_AN_INTEGER)
  }

  /** A value onto the list under a key, which is there, if need be empty, before `to` is looked at. */
  function Deliver(ks0: Keyspace, now: int, key: string, v: string, to: Option<bool>): Outcome {
    var ks := Purge(ks0, key, now);
    match GetItems(ks, key)
    case Wrong => (ks, WRONG_TYPE)
    case got =>
      var s := ValueOr(got, []);
      match to
      case None => (Put(ks, key, Items(s)), SYNTAX_ERROR)
      case Some(head) => (Put(ks, key, Items(if head then [v] + s else s + [v])), BulkString(v))
  }

  /**
    One element from the list s under src to the list under dst. The element has left src, and src has gone if
    that was its last, before dst is looked up.
   */
  function Move(ks: Keyspace, now: int, src: string, s: seq<string>, dst: string, fromHead: bool,
                to: Option<bool>): Outcome {
    if s == [] then (ks, NullBulk)
    else Deliver(PutOrDrop(ks, src, Items(Left(s, 1, fromHead))), now, dst, Off(s, 1, fromHead)[0], to)
  }

  function RPopLPush(ks0: Keyspace, now: int, args: seq<string>): Outcome {
    if |args| != 2 then (ks0, WrongArgCount("RPOPLPUSH"))
    else
      var ks := Purge(ks0, args[0], now);
      match GetItems(ks, args[0])
      case Wrong => (ks, WRONG_TYPE)
      case Absent => (ks, NullBulk)
      case There(s) => Move(ks, now, args[0], s, args[1], false, Some(true))
  }

  /** LEFT is the head and RIGHT the tail; anything else is no direction. */
  function Direction(s: string): Option<bool> {
    if ToUpper(s) == "LEFT" then Some(true) else if ToUpper(s) == "RIGHT" then Some(false) else None
  }

  function LMove(ks0: Keyspace, now: int, args: seq<string>): Outcome {
    if |args| != 4 then (ks0, WrongArgCount("LMOVE"))
    else
      var ks := Purge(ks0, args[0], now);
      match GetItems(ks, args[0])
      case Wrong => (ks, WRONG_TYPE)
      case Absent => (ks, NullBulk)
      case There(s) =>
        match Direction(args[2])
        case None => (ks, SYNTAX_ERROR)
        case Some(fromHead) => Move(ks, now, args[0], s, args[1], fromHead, Direction(args[3]))
  }

  // Sorted sets.

  datatype Flags = Flags(nx: bool, xx: bool, gt: bool, lt: bool, ch: bool)

  /** The options from argument i on, and the first argument that is none. */
  function ZAddOptions(args: seq<string>, i: nat, f: Flags): (r: (Flags, nat))
    requires i <= |args|
    ensures i <= r.1 <= |args|
    decreases |args| - i
  {
    if i == |args| then (f, i)
    else
      match ToUpper(args[i])
      case "NX" => ZAddOptions(args, i + 1, f.(nx := true))
      case "XX" => ZAddOptions(args, i + 1, f.(xx := true))
      case "GT" => ZAddOptions(args, i + 1, f.(gt := true))
      case "LT" => ZAddOptions(args, i + 1, f.(lt := true))
      case "CH" => ZAddOptions(args, i + 1, f.(ch := true))
      case _ => (f, i)
  }

  /** Whether the options keep a member at its old score, or out. */
  predicate Skips(f: Flags, held: Option<Score>, score: Score) {
    || (f.nx && held.Some?)
    || (f.xx && held.None?)
    || (f.gt && held.Some? && score <= held.value)
    || (f.lt && held.Some? && score >= held.value)
  }

  datatype Effect = Skipped | Added | Changed

  function EffectOf(f: Flags, held: Option<Score>, score: Score): Effect {
    if Skips(f, held, score) then Skipped else if held.None? then Added else Changed
  }

  /** The score and member arguments from i on; a score that cannot be read ends it, with what came before done. */
  function ZAddFrom(env: Env, s: seq<Pair>, args: seq<string>, i: nat, f: Flags, added: nat,
                    changed: nat): (seq<Pair>, Value)
    decreases |args| - i
  {
    if i >= |args| then (s, Integer(if f.ch then added + changed else added))
    else
      match env.parseScore(args[i])
      case None => (s, NOT_A_FLOAT)
      case Some(score) =>
        var member := ArgStr(args, i + 1);
        match EffectOf(f, ScoreOf(s, member), score)
        case Skipped => ZAddFrom(env, s, args, i + 2, f, added, changed)
        case Added => ZAddFrom(env, AddPair(s, score, member), args, i + 2, f, added + 1, changed)
        case Changed => ZAddFrom(env, AddPair(s, score, member), args, i + 2, f, added, changed + 1)
  }

  /** What the loop of ZADD comes to in all is what it comes to from argument i on. */
  ghost predicate StillToAdd(spec: (seq<Pair>, Value), env: Env, s: seq<Pair>, args: seq<string>, i: nat, f: Flags,
                             added: nat, changed: nat) {
    spec == ZAddFrom(env, s, args, i, f, added, changed)
  }

  lemma AddBegins(env: Env, s: seq<Pair>, args: seq<string>, i: nat, f: Flags)
    ensures StillToAdd(ZAddFrom(env, s, args, i, f, 0, 0), env, s, args, i, f, 0, 0)
  {
  }

  lemma AddEnds(spec: (seq<Pair>, Value), env: Env, s: seq<Pair>, args: seq<string>, i: nat, f: Flags,
                added: nat, changed: nat)
    requires i >= |args| && StillToAdd(spec, env, s, args, i, f, added, changed)
    ensures spec == (s, Integer(if f.ch then added + changed else added))
  {
  }

  lemma AddNext(spec: (seq<Pair>, Value), env: Env, s: seq<Pair>, args: seq<string>, i: nat, f: Flags,
                added: nat, changed: nat)
    requires i < |args| && StillToAdd(spec, env, s, args, i, f, added, changed)
    ensures var score := env.parseScore(args[i]);
            if score.None? then spec == (s, NOT_A_FLOAT)
            else
              var member := ArgStr(args, i + 1);
              var e := EffectOf(f, ScoreOf(s, member), score.value);
              StillToAdd(spec, env, if e.Skipped? then s else AddPair(s, score.value, member), args, i + 2, f,
                         if e.Added? then added + 1 else added, if e.Changed? then changed + 1 else changed)
  {
  }

  /** What ZADD makes of the pairs, and its reply: an odd number of arguments behind the options is an error. */
  function ZAdded(env: Env, s: seq<Pair>, args: seq<string>): (seq<Pair>, Value)
    requires |args| >= 3
  {
    var (f, i) := ZAddOptions(args, 1, Flags(false, false, false, false, false));
    if (|args| - i) % 2 != 0 then (s, SYNTAX_ERROR) else ZAddFrom(env, s, args, i, f, 0, 0)
  }

  /** ZADD once the sorted set, of the pairs s, is there. */
  function ZAddUnder(env: Env, ks: Keyspace, s: seq<Pair>, args: seq<string>): Outcome
    requires |args| >= 3
  {
    (Put(ks, args[0], Scored(ZAdded(env, s, args).0)), ZAdded(env, s, args).1)
  }

  /** It does not matter whether the sorted set has been put there before. */
  lemma ZAddUnderPut(env: Env, ks: Keyspace, s: seq<Pair>, args: seq<string>)
    requires |args| >= 3
    ensures ZAddUnder(env, Put(ks, args[0], Scored(s)), s, args) == ZAddUnder(env, ks, s, args)
  {
    PutTwice(ks, args[0], Scored(s), Scored(ZAdded(env, s, args).0));
  }

  function ZAdd(env: Env, ks0: Keyspace, now: int, args: seq<string>): Outcome {
    if |args| < 3 then (ks0, WrongArgCount("ZADD"))
    else
      var ks := Purge(ks0, args[0], now);
      match GetPairs(ks, args[0])
      case Wrong => (ks, WRONG_TYPE)
      case got => ZAddUnder(env, ks, ValueOr(got, []), args)
  }

  /** The score is read before the key is looked up. */
  function ZIncrBy(env: Env, ks0: Keyspace, now: int, args: seq<string>): Outcome {
    if |args| != 3 then (ks0, WrongArgCount("ZINCRBY"))
    else
      match env.parseScore(args[1])
      case None => (ks0, NOT_A_FLOAT)
      case Some(delta) =>
        var ks := Purge(ks0, args[0], now);
        match GetPairs(ks, args[0])
        case Wrong => (ks, WRONG_TYPE)
        case got =>
          var s := ValueOr(got, []);
          var score := Raised(env, s, args[2], delta);
          (Put(ks, args[0], Scored(AddPair(s, score, args[2]))), BulkString(env.formatScore(score)))
  }

  /** A member that is not held starts from 0. */
  function Raised(env: Env, s: seq<Pair>, member: string, delta: Score): Score {
    var held := ScoreOf(s, member);
    env.addScores(if held.Some? then held.value else 0.0, delta)
  }

  function ZCard(ks0: Keyspace, now: int, args: seq<string>): Outcome {
    if |args| != 1 then (ks0, WrongArgCount("ZCARD"))
    else
      var ks := Purge(ks0, args[0], now);
      match GetPairs(ks, args[0])
      case Wrong => (ks, WRONG_TYPE)
      case Absent => (ks, Integer(0))
      case There(s) => (ks, Integer(|s|))
  }

  function ZScore(env: Env, ks0: Keyspace, now: int, args: seq<string>): Outcome {
    if |args| != 2 then (ks0, WrongArgCount("ZSCORE"))
    else
      var ks := Purge(ks0, args[0], now);
      match GetPairs(ks, args[0])
      case Wrong => (ks, WRONG_TYPE)
      case Absent => (ks, NullBulk)
      case There(s) =>
        var held := ScoreOf(s, args[1]);
        (ks, if held.Some? then BulkString(env.formatScore(held.value)) else NullBulk)
  }

  function ZCount(env: Env, ks0: Keyspace, now: int, args: seq<string>): Outcome {
    if |args| != 3 then (ks0, WrongArgCount("ZCOUNT"))
    else
      var ks := Purge(ks0, args[0], now);
      match GetPairs(ks, args[0])
      case Wrong => (ks, WRONG_TYPE)
      case Absent => (ks, Integer(0))
      case There(s) =>
        match (env.parseScore(args[1]), env.parseScore(args[2]))
        case (Some(min), Some(max)) => (ks, Integer(|InScores(s, min, max)|))
        case _ => (ks, BOUND_NOT_A_FLOAT)
  }

  /** LIMIT and its two numbers, wherever they stand from argument i on; a clause that cannot be read limits nothing. */
  function LimitClause(args: seq<string>, i: nat): (int, int)
    decreases |args| - i
  {
    if i >= |args| then (0, -1)
    else if ToUpper(args[i]) == "LIMIT" then
      match (ParseInt(ArgStr(args, i + 1)), ParseInt(ArgStr(args, i + 2)))
      case (Some(offset), Some(count)) => if i + 2 < |args| then (offset, count) else (0, 0)
      case _ => (0, 0)
    else LimitClause(args, i + 1)
  }

  predicate HasOption(args: seq<string>, i: nat, option: string)
    decreases |args| - i
  {
    i < |args| && (ToUpper(args[i]) == option || HasOption(args, i + 1, option))
  }

  /** The part of the score ranges that depends on the sorted set. */
  function ScoreRangeReply(env: Env, s: seq<Pair>, args: seq<string>, reverse: bool): Value {
    match (env.parseScore(ArgStr(args, 1)), env.parseScore(ArgStr(args, 2)))
    case (Some(first), Some(second)) =>
      var (offset, count) := LimitClause(args, 3);
      var pairs := if reverse then Reverse(InScores(s, second, first)) else InScores(s, first, second);
      PairsReply(env, Limit(pairs, offset, count), HasOption(args, 3, "WITHSCORES"))
    case _ => BOUND_NOT_A_FLOAT
  }

  /** ZRANGEBYSCORE and ZREVRANGEBYSCORE, which names the greater bound first. */
  function ZRangeByScore(env: Env, ks0: Keyspace, now: int, name: string, args: seq<string>, reverse: bool): Outcome {
    if |args| < 3 then (ks0, WrongArgCount(name))
    else
      var ks := Purge(ks0, args[0], now);
      match GetPairs(ks, args[0])
      case Wrong => (ks, WRONG_TYPE)
      case Absent => (ks, Array([]))
      case There(s) => (ks, ScoreRangeReply(env, s, args, reverse))
  }

  /** The pairs without the members, one after the other, and how many were held. */
  function RemoveMembers(s: seq<Pair>, members: seq<string>): (seq<Pair>, nat)
    decreases |members|
  {
    if members == [] then (s, 0)
    else
      var (s', n) := RemoveMembers(RemoveMember(s, members[0]), members[1..]);
      (s', n + if ScoreOf(s, members[0]).Some? then 1 else 0)
  }

  function ZRem(ks0: Keyspace, now: int, args: seq<string>): Outcome {
    if |args| < 2 then (ks0, WrongArgCount("ZREM"))
    else
      var ks := Purge(ks0, args[0], now);
      match GetPairs(ks, args[0])
      case Wrong => (ks, WRONG_TYPE)
      case Absent => (ks, Integer(0))
      case There(s) =>
        var (s', n) := RemoveMembers(s, args[1..]);
        (PutOrDrop(ks, args[0], Scored(s')), Integer(n))
  }

  function PairsReply(env: Env, s: seq<Pair>, withScores: bool): Value {
    Array(PairValues(env, s, withScores))
  }

  function PairValues(env: Env, s: seq<Pair>, withScores: bool): seq<Value> {
    if s == [] then []
    else
      [BulkString(s[0].member)] + (if withScores then [BulkString(env.formatScore(s[0].score))] else [])
      + PairValues(env, s[1..], withScores)
  }

  /** The clamped slice of the ascending or the descending order that the arguments ask for. */
  function RangeReply(env: Env, s: seq<Pair>, args: seq<string>, reverse: bool): Value {
    match (ParseInt(ArgStr(args, 1)), ParseInt(ArgStr(args, 2)))
    case (Some(start), Some(stop)) =>
      var withScores := |args| >= 4 && ToUpper(args[3]) == "WITHSCORES";
      PairsReply(env, Slice(if reverse then Reverse(s) else s, start, stop), withScores)
    case _ => NOT_AN_INTEGER
  }

  /** ZRANGE and ZREVRANGE. */
  function ZRange(env: Env, ks0: Keyspace, now: int, name: string, args: seq<string>, reverse: bool): Outcome {
    if |args| < 3 then (ks0, WrongArgCount(name))
    else
      var ks := Purge(ks0, args[0], now);
      match GetPairs(ks, args[0])
      case Wrong => (ks, WRONG_TYPE)
      case Absent => (ks, Array([]))
      case There(s) => (ks, RangeReply(env, s, args, reverse))
  }

  /** How many pairs ZPOPMIN and ZPOPMAX are to take; None when the argument is no count. */
  function PopCount(args: seq<string>): (r: Option<int>)
    ensures r.Some? ==> r.value >= 0
  {
    if |args| < 2 then Some(1)
    else match ParseInt(args[1]) case None => None case Some(n) => if n < 0 then None else Some(n)
  }

  /** The first k pairs of the ascending or the descending order come off. */
  function PopPairs(env: Env, ks: Keyspace, s: seq<Pair>, args: seq<string>, min: bool): Outcome {
    match PopCount(args)
    case None => (ks, NOT_AN_INTEGER)
    case Some(n) =>
      var k := Min(n, |s|);
      (PutOrDrop(ks, ArgStr(args, 0), Scored(Left(s, k, min))), PairsReply(env, Off(s, k, min), true))
  }

  /** ZPOPMIN and ZPOPMAX. */
  function ZPop(env: Env, ks0: Keyspace, now: int, name: string, args: seq<string>, min: bool): Outcome {
    if |args| < 1 then (ks0, WrongArgCount(name))
    else
      var ks := Purge(ks0, args[0], now);
      match GetPairs(ks, args[0])
      case Wrong => (ks, WRONG_TYPE)
      case Absent => (ks, Array([]))
      case There(s) => PopPairs(env, ks, s, args, min)
  }

  /** A bound of a lexical range: its text, and whether it excludes the text itself. */
  function LexBound(s: string): (string, bool) {
    if s != [] && s[0] == '(' then (s[1..], true)
    else if s != [] && s[0] == '[' then (s[1..], false)
    else (s, false)
  }

  /** A lower bound whose text is "-" and an upper bound whose text is "+" bound nothing. */
  predicate LexInRange(member: string, minStr: string, maxStr: string) {
    var (min, minExcl) := LexBound(minStr);
    var (max, maxExcl) := LexBound(maxStr);
    || (minStr == "-" && maxStr == "+")
    || (&& (min == "-" || Less(min, member) || (!minExcl && min == member))
        && (max == "+" || Less(member, max) || (!maxExcl && member == max)))
  }

  /** The members in the range, in the order of the pairs. */
  function LexMembers(s: seq<Pair>, min: string, max: string): seq<string> {
    if s == [] then []
    else (if LexInRange(s[0].member, min, max) then [s[0].member] else []) + LexMembers(s[1..], min, max)
  }

  function ZRangeByLex(ks0: Keyspace, now: int, args: seq<string>): Outcome {
    if |args| < 3 then (ks0, WrongArgCount("ZRANGEBYLEX"))
    else
      var ks := Purge(ks0, args[0], now);
      match GetPairs(ks, args[0])
      case Wrong => (ks, WRONG_TYPE)
      case Absent => (ks, Array([]))
      case There(s) => (ks, Array(Bulks(Sort(LexMembers(s, args[1], args[2])))))
  }

  // Strings and keys.

  const SECOND: int := 1_000_000_000
  const MILLISECOND: int := 1_000_000

  datatype SetOptions = SetOptions(nx: bool, xx: bool, expiry: Option<int>)

  /** The deadline an expiry option and its argument give, if any. */
  function Deadline(opt: string, arg: string, now: int): Option<int> {
    match ParseInt(arg)
    case None => None
    case Some(n) =>
      if n <= 0 then None
      else if opt == "EX" then Some(now + n * SECOND)
      else if opt == "PX" then Some(now + n * MILLISECOND)
      else if opt == "EXAT" then Some(n * SECOND)
      else Some(n * MILLISECOND)
  }

  function ParseSetOptions(args: seq<string>, i: nat, now: int, o: SetOptions): Result<SetOptions, Value>
    decreases |args| - i
  {
    if i >= |args| then Ok(o)
    else
      var opt := ToUpper(args[i]);
      if opt == "EX" || opt == "PX" || opt == "EXAT" || opt == "PXAT" then
        if i + 1 >= |args| then Err(SYNTAX_ERROR)
        else
          match Deadline(opt, args[i + 1], now)
          case None => Err(INVALID_EXPIRE)
          case Some(t) => ParseSetOptions(args, i + 2, now, o.(expiry := Some(t)))
      else if opt == "NX" then ParseSetOptions(args, i + 1, now, o.(nx := true))
      else if opt == "XX" then ParseSetOptions(args, i + 1, now, o.(xx := true))
      else if opt == "KEEPTTL" then ParseSetOptions(args, i + 1, now, o)
      else Err(SYNTAX_ERROR)
  }

  function SetText(ks0: Keyspace, now: int, args: seq<string>): Outcome {
    if |args| < 2 then (ks0, WrongArgCount("SET"))
    else
      match ParseSetOptions(args, 2, now, SetOptions(false, false, None))
      case Err(reply) => (ks0, reply)
      case Ok(o) =>
        var key := args[0];
        var ks := if o.nx || o.xx then Purge(ks0, key, now) else ks0;
        if (o.nx && key in ks) || (o.xx && key !in ks) then (ks, NullBulk)
        else (ks[key := Entry(Text(args[1]), o.expiry)], OK_REPLY)
  }

  function GetText(ks0: Keyspace, now: int, args: seq<string>): Outcome {
    if |args| != 1 then (ks0, WrongArgCount("GET"))
    else
      var ks := Purge(ks0, args[0], now);
      if args[0] !in ks then (ks, NullBulk)
      else
        match ks[args[0]].data
        case Text(t) => (ks, BulkString(t))
        case _ => (ks, WRONG_TYPE)
  }

  function DelKeys(ks: Keyspace, args: seq<string>): Outcome {
    if |args| < 1 then (ks, WrongArgCount("DEL"))
    else var (ks', n) := DeleteAll(ks, args); (ks', Integer(n))
  }

  function RenameKey(ks: Keyspace, now: int, args: seq<string>): Outcome {
    if |args| != 2 then (ks, WrongArgCount("RENAME"))
    else
      var (ks', ok) := Lazy(ks, Rename(args[0], args[1]), now);
      (ks', if ok == Flag(true) then OK_REPLY else NO_SUCH_KEY)
  }

  // The registry.

  const LIST_NAMES: set<string> := {
    "LPUSH", "RPUSH", "LPUSHX", "RPUSHX", "LPOP", "RPOP", "LLEN", "LRANGE", "LINDEX", "LSET", "LINSERT", "LREM",
    "LTRIM", "RPOPLPUSH", "LMOVE"
  }

  const ZSET_NAMES: set<string> := {
    "ZADD", "ZREM", "ZSCORE", "ZINCRBY", "ZRANGE", "ZREVRANGE", "ZRANGEBYSCORE", "ZREVRANGEBYSCORE", "ZCARD",
    "ZCOUNT", "ZPOPMIN", "ZPOPMAX", "ZRANGEBYLEX"
  }

  const KEY_NAMES: set<string> := {"SET", "GET", "DEL", "RENAME"}

  /** The commands of the model. */
  predicate Registered(name: string) {
    name in LIST_NAMES || name in ZSET_NAMES || name in KEY_NAMES
  }

  const OTHER_STRING_NAMES: set<string> := {
    "GETSET", "MSET", "MGET", "MSETNX", "SETNX", "SETEX", "PSETEX", "INCR", "INCRBY", "DECR", "DECRBY", "INCRBYFLOAT",
    "APPEND", "STRLEN", "GETRANGE", "SUBSTR", "SETRANGE", "GETDEL"
  }

  const HASH_NAMES: set<string> := {
    "HSET", "HGET", "HMSET", "HMGET", "HDEL", "HEXISTS", "HGETALL", "HKEYS", "HVALS", "HLEN", "HINCRBY",
    "HINCRBYFLOAT", "HSETNX"
  }

  const SET_NAMES: set<string> := {
    "SADD", "SREM", "SMEMBERS", "SISMEMBER", "SMISMEMBER", "SCARD", "SUNION", "SINTER", "SDIFF", "SUNIONSTORE",
    "SINTERSTORE", "SDIFFSTORE", "SMOVE", "SPOP", "SRANDMEMBER"
  }

  const OTHER_KEY_NAMES: set<string> := {
    "UNLINK", "EXISTS", "EXPIRE", "EXPIREAT", "PEXPIRE", "PEXPIREAT", "TTL", "PTTL", "PERSIST", "RENAMENX", "TYPE",
    "KEYS", "SCAN", "RANDOMKEY", "COPY", "OBJECT", "ZRANK", "ZREVRANK"
  }

  const SERVER_NAMES: set<string> := {
    "PING", "ECHO", "DBSIZE", "FLUSHDB", "INFO", "CONFIG", "COMMAND", "DEBUG", "SAVE", "BGSAVE", "LASTSAVE"
  }

  /** A handler is registered under the name, but what it does is not modelled. */
  predicate Unmodelled(name: string) {
    || name in OTHER_STRING_NAMES || name in HASH_NAMES || name in SET_NAMES || name in OTHER_KEY_NAMES
    || name in SERVER_NAMES
  }

  function ApplyList(ks: Keyspace, now: int, name: string, args: seq<string>): Outcome
    requires name in LIST_NAMES
  {
    match name
    case "LPUSH" => Push(ks, now, name, args, true)
    case "RPUSH" => Push(ks, now, name, args, false)
    case "LPUSHX" => PushX(ks, now, name, args, true)
    case "RPUSHX" => PushX(ks, now, name, args, false)
    case "LPOP" => Pop(ks, now, name, args, true)
    case "RPOP" => Pop(ks, now, name, args, false)
    case "LLEN" => LLen(ks, now, args)
    case "LRANGE" => LRange(ks, now, args)
    case "LINDEX" => LIndex(ks, now, args)
    case "LSET" => LSet(ks, now, args)
    case "LINSERT" => LInsert(ks, now, args)
    case "LREM" => LRem(ks, now, args)
    case "LTRIM" => LTrim(ks, now, args)
    case "RPOPLPUSH" => RPopLPush(ks, now, args)
    case _ => LMove(ks, now, args)
  }

  function ApplyZSet(env: Env, ks: Keyspace, now: int, name: string, args: seq<string>): Outcome
    requires name in ZSET_NAMES
  {
    match name
    case "ZADD" => ZAdd(env, ks, now, args)
    case "ZREM" => ZRem(ks, now, args)
    case "ZSCORE" => ZScore(env, ks, now, args)
    case "ZINCRBY" => ZIncrBy(env, ks, now, args)
    case "ZRANGE" => ZRange(env, ks, now, name, args, false)
    case "ZREVRANGE" => ZRange(env, ks, now, name, args, true)
    case "ZRANGEBYSCORE" => ZRangeByScore(env, ks, now, name, args, false)
    case "ZREVRANGEBYSCORE" => ZRangeByScore(env, ks, now, name, args, true)
    case "ZCARD" => ZCard(ks, now, args)
    case "ZCOUNT" => ZCount(env, ks, now, args)
    case "ZPOPMIN" => ZPop(env, ks, now, name, args, true)
    case "ZPOPMAX" => ZPop(env, ks, now, name, args, false)
    case _ => ZRangeByLex(ks, now, args)
  }

  function ApplyKey(ks: Keyspace, now: int, name: string, args: seq<string>): Outcome
    requires name in KEY_NAMES
  {
    match name
    case "SET" => SetText(ks, now, args)
    case "GET" => GetText(ks, now, args)
    case "DEL" => DelKeys(ks, args)
    case _ => RenameKey(ks, now, args)
  }

  /** What the handler registered under the name does. */
  function Apply(env: Env, ks: Keyspace, now: int, name: string, args: seq<string>): Outcome
    requires Registered(name)
  {
    if name in LIST_NAMES then ApplyList(ks, now, name, args)
    else if name in ZSET_NAMES then ApplyZSet(env, ks, now, name, args)
    else ApplyKey(ks, now, name, args)
  }
}
