/** Every request gets one reply, and a client can read the replies back in the order of its requests. */
module Replies {
  import opened Basics
  import opened Strings
  import opened Pairs
  import opened ScoreRanges
  import opened StringSorting
  import opened Resp
  import opened AppendOnlyFiles
  import opened Keyspaces
  import opened CommandSpecs
  import opened Serving

  // Which replies have no line feed in their simple strings and errors.

  /** The replies of the handler registered under a name: data, or one of the fixed texts. */
  predicate Standard(v: Value, name: string) {
    || v.Integer? || v.BulkString? || v.NullBulk? || v.NullArray?
    || (v.Array? && forall i :: 0 <= i < |v.elems| ==> v.elems[i].BulkString?)
    || v in {OK_REPLY, WRONG_TYPE, NOT_AN_INTEGER, NOT_A_FLOAT, SYNTAX_ERROR, INVALID_EXPIRE, NO_SUCH_KEY}
    || v in {INDEX_OUT_OF_RANGE, BOUND_NOT_A_FLOAT} || v == WrongArgCount(name)
  }

  lemma {:induction false} ZAddRepliesStandard(env: Env, s: seq<Pair>, args: seq<string>, i: nat, f: Flags,
                                               added: nat, changed: nat)
    ensures Standard(ZAddFrom(env, s, args, i, f, added, changed).1, "ZADD")
    decreases |args| - i
  {
    if i < |args| && env.parseScore(args[i]).Some? {
      var score, member := env.parseScore(args[i]).value, ArgStr(args, i + 1);
      var s' := AddPair(s, score, member);
      match EffectOf(f, ScoreOf(s, member), score)
      case Skipped => ZAddRepliesStandard(env, s, args, i + 2, f, added, changed);
      case Added => ZAddRepliesStandard(env, s', args, i + 2, f, added + 1, changed);
      case Changed => ZAddRepliesStandard(env, s', args, i + 2, f, added, changed + 1);
    }
  }

  lemma {:induction false} PairValuesAreBulk(env: Env, s: seq<Pair>, withScores: bool)
    ensures forall i :: 0 <= i < |PairValues(env, s, withScores)| ==> PairValues(env, s, withScores)[i].BulkString?
  {
    if s != [] {
      PairValuesAreBulk(env, s[1..], withScores);
    }
  }

  lemma {:induction false} SetOptionErrors(args: seq<string>, i: nat, now: int, o: SetOptions)
    ensures var r := ParseSetOptions(args, i, now, o); r.Err? ==> r.error == SYNTAX_ERROR || r.error == INVALID_EXPIRE
    decreases |args| - i
  {
    if i < |args| {
      var opt := ToUpper(args[i]);
      if opt == "EX" || opt == "PX" || opt == "EXAT" || opt == "PXAT" {
        if i + 1 < |args| && Deadline(opt, args[i + 1], now).Some? {
          SetOptionErrors(args, i + 2, now, o.(expiry := Deadline(opt, args[i + 1], now)));
        }
      } else {
        SetOptionErrors(args, i + 1, now, o.(nx := true));
        SetOptionErrors(args, i + 1, now, o.(xx := true));
        SetOptionErrors(args, i + 1, now, o);
      }
    }
  }

  lemma PushRepliesStandard(ks: Keyspace, now: int, name: string, args: seq<string>, atHead: bool)
    ensures Standard(Push(ks, now, name, args, atHead).1, name) && Standard(PushX(ks, now, name, args, atHead).1, name)
    ensures Standard(Pop(ks, now, name, args, atHead).1, name)
  {
    hide Purge, GetItems, Off, Left, PutOrDrop;
  }

  lemma ListReadRepliesStandard(ks: Keyspace, now: int, args: seq<string>)
    ensures Standard(LLen(ks, now, args).1, "LLEN") && Standard(LIndex(ks, now, args).1, "LINDEX")
    ensures Standard(LRange(ks, now, args).1, "LRANGE")
  {
    hide Purge, GetItems, Slice, Position;
  }

  lemma ListWriteRepliesStandard(ks: Keyspace, now: int, args: seq<string>)
    ensures Standard(LSet(ks, now, args).1, "LSET") && Standard(LInsert(ks, now, args).1, "LINSERT")
    ensures Standard(LRem(ks, now, args).1, "LREM") && Standard(LTrim(ks, now, args).1, "LTRIM")
  {
    hide Purge, GetItems, Slice, Position, InsertAt, PutOrDrop;
  }

  lemma MoveReplyStandard(ks: Keyspace, now: int, src: string, s: seq<string>, dst: string, fromHead: bool,
                          to: Option<bool>, name: string)
    ensures Standard(Move(ks, now, src, s, dst, fromHead, to).1, name)
  {
    hide Purge, GetItems, Off, Left, PutOrDrop;
  }

  lemma MoveRepliesStandard(ks: Keyspace, now: int, args: seq<string>)
    ensures Standard(RPopLPush(ks, now, args).1, "RPOPLPUSH") && Standard(LMove(ks, now, args).1, "LMOVE")
  {
    hide Move;
    var ks1 := Purge(ks, ArgStr(args, 0), now);
    var s := ValueOr(GetItems(ks1, ArgStr(args, 0)), []);
    hide Purge, GetItems;
    MoveReplyStandard(ks1, now, ArgStr(args, 0), s, ArgStr(args, 1), false, Some(true), "RPOPLPUSH");
    MoveReplyStandard(ks1, now, ArgStr(args, 0), s, ArgStr(args, 1), Direction(ArgStr(args, 2)) == Some(true),
                      Direction(ArgStr(args, 3)), "LMOVE");
  }

  lemma PairsReplyStandard(env: Env, s: seq<Pair>, withScores: bool, name: string)
    ensures Standard(PairsReply(env, s, withScores), name)
  {
    PairValuesAreBulk(env, s, withScores);
  }

  lemma RangeRepliesStandard(env: Env, s: seq<Pair>, args: seq<string>, b: bool, name: string)
    ensures Standard(RangeReply(env, s, args, b), name) && Standard(ScoreRangeReply(env, s, args, b), name)
  {
    assert Standard(NOT_AN_INTEGER, name) && Standard(BOUND_NOT_A_FLOAT, name);
    hide Slice, PairsReply, Standard;
    forall t, withScores ensures Standard(PairsReply(env, t, withScores), name) {
      PairsReplyStandard(env, t, withScores, name);
    }
  }

  lemma PopRepliesStandard(env: Env, ks: Keyspace, s: seq<Pair>, args: seq<string>, min: bool, name: string)
    ensures Standard(PopPairs(env, ks, s, args, min).1, name)
  {
    if PopCount(args).Some? {
      PairsReplyStandard(env, Off(s, Min(PopCount(args).value, |s|), min), true, name);
    }
  }

  lemma ZRangeRepliesStandard(env: Env, ks0: Keyspace, now: int, name: string, args: seq<string>, b: bool)
    ensures Standard(ZRange(env, ks0, now, name, args, b).1, name)
    ensures Standard(ZRangeByScore(env, ks0, now, name, args, b).1, name)
  {
    hide RangeReply, ScoreRangeReply;
    var got := GetPairs(Purge(ks0, ArgStr(args, 0), now), ArgStr(args, 0));
    hide Purge, GetPairs;
    if got.There? {
      RangeRepliesStandard(env, got.value, args, b, name);
    }
  }

  lemma ZPopReplyStandard(env: Env, ks0: Keyspace, now: int, name: string, args: seq<string>, b: bool)
    ensures Standard(ZPop(env, ks0, now, name, args, b).1, name)
  {
    hide PopPairs;
    var ks := Purge(ks0, ArgStr(args, 0), now);
    var got := GetPairs(ks, ArgStr(args, 0));
    hide Purge, GetPairs;
    if got.There? {
      PopRepliesStandard(env, ks, got.value, args, b, name);
    }
  }

  lemma ZSetReadRepliesStandard(env: Env, ks: Keyspace, now: int, args: seq<string>)
    ensures Standard(ZRangeByLex(ks, now, args).1, "ZRANGEBYLEX") && Standard(ZCard(ks, now, args).1, "ZCARD")
    ensures Standard(ZScore(env, ks, now, args).1, "ZSCORE") && Standard(ZCount(env, ks, now, args).1, "ZCOUNT")
  {
    hide Purge, GetPairs, LexMembers, ScoreOf, Sort, InScores;
  }

  lemma ZSetWriteRepliesStandard(env: Env, ks: Keyspace, now: int, args: seq<string>)
    ensures Standard(ZRem(ks, now, args).1, "ZREM") && Standard(ZIncrBy(env, ks, now, args).1, "ZINCRBY")
  {
    hide Purge, GetPairs, RemoveMembers, PutOrDrop, Put, AddPair, Raised;
  }

  lemma ZAddReplyStandard(env: Env, ks0: Keyspace, now: int, args: seq<string>)
    ensures Standard(ZAdd(env, ks0, now, args).1, "ZADD")
  {
    hide ZAddFrom, ZAddOptions;
    if |args| >= 3 {
      var got := GetPairs(Purge(ks0, args[0], now), args[0]);
      hide Purge, GetPairs, Put;
      var (f, i) := ZAddOptions(args, 1, Flags(false, false, false, false, false));
      ZAddRepliesStandard(env, ValueOr(got, []), args, i, f, 0, 0);
    }
  }

  lemma KeyRepliesStandard(ks: Keyspace, now: int, name: string, args: seq<string>)
    requires name in KEY_NAMES
    ensures Standard(ApplyKey(ks, now, name, args).1, name)
  {
    hide ParseSetOptions, DeleteAll, Purge;
    SetOptionErrors(args, 2, now, SetOptions(false, false, None));
  }

  lemma ListCommandRepliesStandard(ks: Keyspace, now: int, name: string, args: seq<string>)
    requires name in LIST_NAMES
    ensures Standard(ApplyList(ks, now, name, args).1, name)
  {
    hide Push, PushX, Pop, LLen, LRange, LIndex, LSet, LInsert, LRem, LTrim, RPopLPush, LMove, Standard;
    PushRepliesStandard(ks, now, name, args, name == "LPUSH" || name == "LPUSHX" || name == "LPOP");
    ListReadRepliesStandard(ks, now, args);
    ListWriteRepliesStandard(ks, now, args);
    MoveRepliesStandard(ks, now, args);
  }

  lemma ZSetCommandRepliesStandard(env: Env, ks: Keyspace, now: int, name: string, args: seq<string>)
    requires name in ZSET_NAMES
    ensures Standard(ApplyZSet(env, ks, now, name, args).1, name)
  {
    hide ZAdd, ZRem, ZScore, ZIncrBy, ZRange, ZRangeByScore, ZCard, ZCount, ZPop, ZRangeByLex, Standard;
    ZRangeRepliesStandard(env, ks, now, name, args, name == "ZREVRANGE" || name == "ZREVRANGEBYSCORE");
    ZPopReplyStandard(env, ks, now, name, args, name == "ZPOPMIN");
    ZSetReadRepliesStandard(env, ks, now, args);
    ZSetWriteRepliesStandard(env, ks, now, args);
    ZAddReplyStandard(env, ks, now, args);
  }

  lemma AppliedRepliesStandard(env: Env, ks: Keyspace, now: int, name: string, args: seq<string>)
    requires Registered(name)
    ensures Standard(Apply(env, ks, now, name, args).1, name)
  {
    hide ApplyList, ApplyZSet, ApplyKey, Standard;
    if name in LIST_NAMES {
      ListCommandRepliesStandard(ks, now, name, args);
    } else if name in ZSET_NAMES {
      ZSetCommandRepliesStandard(env, ks, now, name, args);
    } else {
      KeyRepliesStandard(ks, now, name, args);
    }
  }

  lemma NamesHaveNoLineFeed(name: string)
    requires Registered(name)
    ensures '\n' !in name
  {
  }

  lemma LowerKeepsLineFeeds(s: string)
    ensures '\n' in ToLower(s) <==> '\n' in s
  {
    if '\n' in s {
      var i :| 0 <= i < |s| && s[i] == '\n';
      assert ToLower(s)[i] == '\n';
    }
  }

  lemma JoinedLines(a: string, b: string)
    requires '\n' !in a && '\n' !in b
    ensures '\n' !in a + b
  {
  }

  lemma WrongTypeIsClean()
    ensures Clean(WRONG_TYPE)
  {
    JoinedLines("WRONGTYPE Operation against a key", " holding the wrong kind of value");
  }

  lemma NotAnIntegerIsClean()
    ensures Clean(NOT_AN_INTEGER)
  {
    JoinedLines("ERR value is not an integer", " or out of range");
  }

  lemma InvalidExpireIsClean()
    ensures Clean(INVALID_EXPIRE)
  {
  }

  lemma FloatTextClean()
    ensures Clean(NOT_A_FLOAT)
  {
  }

  lemma BoundTextClean()
    ensures Clean(BOUND_NOT_A_FLOAT)
  {
  }

  lemma ShortTextsClean()
    ensures Clean(OK_REPLY) && Clean(SYNTAX_ERROR) && Clean(NO_SUCH_KEY) && Clean(INDEX_OUT_OF_RANGE)
  {
  }

  lemma FixedTextsClean()
    ensures Clean(OK_REPLY) && Clean(WRONG_TYPE) && Clean(NOT_AN_INTEGER) && Clean(NOT_A_FLOAT)
    ensures Clean(SYNTAX_ERROR) && Clean(INVALID_EXPIRE) && Clean(NO_SUCH_KEY)
    ensures Clean(INDEX_OUT_OF_RANGE) && Clean(BOUND_NOT_A_FLOAT)
  {
    WrongTypeIsClean();
    NotAnIntegerIsClean();
    InvalidExpireIsClean();
    ShortTextsClean();
    FloatTextClean();
    BoundTextClean();
    hide Clean;
  }

  lemma StandardIsClean(v: Value, name: string)
    requires Standard(v, name) && '\n' !in name
    ensures Clean(v)
  {
    if v == WrongArgCount(name) {
      LowerKeepsLineFeeds(name);
      assert '\n' !in "ERR wrong number of arguments for '";
      assert '\n' !in "' command";
      assert v.s == "ERR wrong number of arguments for '" + ToLower(name) + "' command";
    } else if v.SimpleString? || v.Error? {
      FixedTextsClean();
    }
  }

  lemma UnknownCommandClean(name: string)
    ensures Clean(UnknownCommand(name)) <==> '\n' !in name
  {
    LowerKeepsLineFeeds(name);
    assert '\n' !in "ERR unknown command '";
    assert '\n' !in "'";
    assert UnknownCommand(name).s == "ERR unknown command '" + ToLower(name) + "'";
  }

  /** The command is one of the model, or no command at all; for the others nothing is said about the reply. */
  predicate InModel(c: Command) {
    !Unmodelled(c.name)
  }

  ghost predicate AllInModel(cs: seq<Command>) {
    forall i :: 0 <= i < |cs| ==> InModel(cs[i])
  }

  /** The reply to the command does not repeat a line feed of the client's. */
  predicate Plainspoken(c: Command) {
    c.name == "SELECT" || c.name == "FLUSHALL" || Registered(c.name) || '\n' !in c.name
  }

  lemma OutOfRangeIsClean()
    ensures Clean(DB_OUT_OF_RANGE)
  {
  }

  lemma SelectReplyClean(cfg: Config, w: World, db: nat, now: int, c: Command)
    requires db < |w.dbs| && c.name == "SELECT"
    ensures Clean(Execute(cfg, w, db, now, c).2)
  {
    var v := Execute(cfg, w, db, now, c).2;
    assert v == OK_REPLY || v == WrongArgCount("SELECT") || v == DB_OUT_OF_RANGE;
    StandardIsClean(OK_REPLY, "SELECT");
    StandardIsClean(WrongArgCount("SELECT"), "SELECT");
    OutOfRangeIsClean();
    hide Clean;
  }

  lemma ExecutedReplyClean(cfg: Config, w: World, db: nat, now: int, c: Command)
    requires db < |w.dbs| && InModel(c)
    ensures Clean(Execute(cfg, w, db, now, c).2) <==> Plainspoken(c)
  {
    assert Standard(OK_REPLY, c.name);
    hide Apply, Registered, Clean, Standard;
    if c.name == "SELECT" {
      SelectReplyClean(cfg, w, db, now, c);
    } else if c.name == "FLUSHALL" {
      StandardIsClean(OK_REPLY, c.name);
    } else if Registered(c.name) {
      AppliedRepliesStandard(cfg.env, w.dbs[db], now, c.name, c.args);
      NamesHaveNoLineFeed(c.name);
      StandardIsClean(Apply(cfg.env, w.dbs[db], now, c.name, c.args).1, c.name);
    } else {
      UnknownCommandClean(c.name);
    }
  }

  // One reply a request.

  /** The commands that a request from the client makes the server run. */
  function Ran(cl: Client, v: Value): seq<Command> {
    match ToCommand(v)
    case None => []
    case Some(c) =>
      if c.name == "EXEC" then (if cl.inMulti then cl.queue else [])
      else if c.name in {"MULTI", "DISCARD", "QUIT"} || cl.inMulti then []
      else [c]
  }

  predicate Match(replies: seq<Value>, cs: seq<Command>) {
    |replies| == |cs| && forall i :: 0 <= i < |cs| ==> (Clean(replies[i]) <==> Plainspoken(cs[i]))
  }

  ghost predicate AllPlainspoken(cs: seq<Command>) {
    forall i :: 0 <= i < |cs| ==> Plainspoken(cs[i])
  }

  lemma OnePlainspoken(c: Command)
    ensures AllPlainspoken([c]) <==> Plainspoken(c)
  {
    assert [c][0] == c;
  }

  lemma MatchOneMore(replies: seq<Value>, cs: seq<Command>, n: nat, reply: Value)
    requires |cs| == n + 1 && Match(replies, cs[..n]) && (Clean(reply) <==> Plainspoken(cs[n]))
    ensures Match(replies + [reply], cs)
  {
    forall i | 0 <= i < n ensures Clean(replies[i]) <==> Plainspoken(cs[i]) {
      assert cs[..n][i] == cs[i];
    }
  }

  lemma {:induction false} ExecutedRepliesClean(cfg: Config, w: World, db: nat, cs: seq<Command>, clock: nat -> int)
    requires db < |w.dbs| && AllInModel(cs)
    ensures Match(ExecuteAll(cfg, w, db, cs, clock).2, cs)
    decreases |cs|
  {
    if cs != [] {
      var n := |cs| - 1;
      ExecutedRepliesClean(cfg, w, db, cs[..n], clock);
      var r := ExecuteAll(cfg, w, db, cs[..n], clock);
      ExecutedReplyClean(cfg, r.0, r.1, clock(n), cs[n]);
      MatchOneMore(r.2, cs, n, Execute(cfg, r.0, r.1, clock(n), cs[n]).2);
    }
  }

  lemma NestedMultiIsClean()
    ensures Clean(NESTED_MULTI)
  {
  }

  lemma RefusalsAreClean()
    ensures Clean(DISCARD_WITHOUT_MULTI) && Clean(EXEC_WITHOUT_MULTI)
  {
  }

  lemma AssentsAreClean()
    ensures Clean(OK_REPLY) && Clean(QUEUED) && Clean(PROTOCOL_ERROR)
  {
  }

  lemma ControlRepliesClean()
    ensures Clean(OK_REPLY) && Clean(QUEUED) && Clean(NESTED_MULTI) && Clean(PROTOCOL_ERROR)
    ensures Clean(DISCARD_WITHOUT_MULTI) && Clean(EXEC_WITHOUT_MULTI)
  {
    hide Clean;
    NestedMultiIsClean();
    RefusalsAreClean();
    AssentsAreClean();
  }

  lemma RepliesCleanIff(cfg: Config, w: World, cl: Client, v: Value, clock: nat -> int)
    requires cl.db < |w.dbs| && AllInModel(Ran(cl, v))
    ensures Clean(HandleValue(cfg, w, cl, v, clock).reply) <==> AllPlainspoken(Ran(cl, v))
  {
    match ToCommand(v)
    case None => ControlRepliesClean();
    case Some(c) =>
      if c.name == "EXEC" && cl.inMulti {
        ExecutedRepliesClean(cfg, w, cl.db, cl.queue, clock);
      } else if c.name in {"MULTI", "EXEC", "DISCARD", "QUIT"} || cl.inMulti {
        ControlRepliesClean();
      } else {
        assert Ran(cl, v) == [c] && Ran(cl, v)[0] == c;
        ExecutedReplyClean(cfg, w, cl.db, clock(0), c);
        OnePlainspoken(c);
      }
  }

  /**
    Whatever follows on the connection, the client reads the reply to its request back as one value and is left with
    what follows, just when no unknown command was run that had a line feed in its name. The commands that were run
    are ones of the model, or unknown.
   */
  lemma ReplyReadsBackIff(cfg: Config, w: World, cl: Client, v: Value, clock: nat -> int, rest: string)
    requires cl.db < |w.dbs| && AllInModel(Ran(cl, v))
    requires Representable(HandleValue(cfg, w, cl, v, clock).reply)
    ensures var reply := HandleValue(cfg, w, cl, v, clock).reply;
            Parse(Encode(reply) + rest) == Ok((Norm(reply), rest))
            <==> AllPlainspoken(Ran(cl, v))
  {
    RepliesCleanIff(cfg, w, cl, v, clock);
    RoundTripIffClean(HandleValue(cfg, w, cl, v, clock).reply, rest);
  }

  /** What a client is sent for an event: the reply to its request. */
  function AnswerTo(cfg: Config, s: State, e: Event, id: int): seq<Value>
    requires Valid(s)
  {
    match e
    case Request(i, v, clock) =>
      if i == id && id in s.clients then [HandleValue(cfg, s.world, s.clients[id], v, clock).reply] else []
    case _ => []
  }

  /** The replies to a client's requests over a run, from a state. */
  function Answers(cfg: Config, s: State, es: seq<Event>, id: int): seq<Value>
    requires Valid(s)
    decreases |es|
  {
    if es == [] then []
    else Answers(cfg, s, es[..|es| - 1], id) + AnswerTo(cfg, Run(cfg, s, es[..|es| - 1]), es[|es| - 1], id)
  }

  lemma AnswersOneMore(cfg: Config, s: State, es: seq<Event>, e: Event, id: int)
    requires Valid(s)
    ensures Answers(cfg, s, es + [e], id) == Answers(cfg, s, es, id) + AnswerTo(cfg, Run(cfg, s, es), e, id)
  {
    assert (es + [e])[..|es|] == es;
  }

  /** The reply to the client's request, if this is one, cannot be garbled. */
  ghost predicate Clear(cfg: Config, s: State, e: Event, id: int)
    requires Valid(s)
  {
    e.Request? && e.id == id && id in s.clients ==>
      && AllInModel(Ran(s.clients[id], e.value)) && AllPlainspoken(Ran(s.clients[id], e.value))
      && Representable(HandleValue(cfg, s.world, s.clients[id], e.value, e.clock).reply)
  }

  /** The commands with which the client's replies could be garbled do not occur in the run. */
  ghost predicate NoneGarbled(cfg: Config, s: State, es: seq<Event>, id: int)
    requires Valid(s)
  {
    forall i :: 0 <= i < |es| ==> Clear(cfg, Run(cfg, s, es[..i]), es[i], id)
  }

  lemma AnswerIsClean(cfg: Config, s: State, e: Event, id: int)
    requires Valid(s) && Clear(cfg, s, e, id)
    ensures forall v :: v in AnswerTo(cfg, s, e, id) ==> Representable(v) && Clean(v)
  {
    if e.Request? && e.id == id && id in s.clients {
      RepliesCleanIff(cfg, s.world, s.clients[id], e.value, e.clock);
    }
  }

  lemma {:induction false} AnswersAreClean(cfg: Config, s: State, es: seq<Event>, id: int)
    requires Valid(s) && NoneGarbled(cfg, s, es, id)
    ensures forall v :: v in Answers(cfg, s, es, id) ==> Representable(v) && Clean(v)
    decreases |es|
  {
    hide Clear, AnswerTo, Run, Representable, Clean;
    if es != [] {
      var n := |es| - 1;
      assert forall i :: 0 <= i < n ==> es[..n][..i] == es[..i];
      AnswersAreClean(cfg, s, es[..n], id);
      AnswerIsClean(cfg, Run(cfg, s, es[..n]), es[n], id);
    }
  }

  /** All that the server has sent to a client is read back as its replies, one a request and in their order. */
  lemma AnswersReadBack(cfg: Config, s: State, es: seq<Event>, id: int, rest: string)
    requires Valid(s) && NoneGarbled(cfg, s, es, id)
    ensures var answers := Answers(cfg, s, es, id);
            ParseMany(|answers|, EncodeAll(answers) + rest) == Ok((NormAll(answers), rest))
  {
    AnswersAreClean(cfg, s, es, id);
    RoundTripAll(Answers(cfg, s, es, id), rest);
  }
}
