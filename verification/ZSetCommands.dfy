/** The handlers of the sorted-set commands. */
module ZSetCommands {
  import opened Basics
  import opened Strings
  import opened Pairs
  import opened ScoreRanges
  import opened StringSorting
  import opened Resp
  import opened Keyspaces
  import opened Skiplists
  import opened SortedSets
  import opened Databases
  import Specs = CommandSpecs

  ghost predicate Holds(db: DB, key: string, z: ZSet)
    reads db
  {
    key in db.data && db.data[key].value == ZSetValue(z)
  }

  /** The sorted set under a key; None when the key is absent, and an error when it holds something else. */
  method GetZSet(db: DB, key: string, now: int) returns (z: Result<Option<ZSet>, Value>)
    requires db.Valid()
    modifies db
    ensures db.Valid() && db.Repr == old(db.Repr)
    ensures db.Keyspace() == Purge(old(db.Keyspace()), key, now)
    ensures match Specs.GetPairs(db.Keyspace(), key)
            case Wrong => z == Err(Specs.WRONG_TYPE)
            case Absent => z == Ok(None)
            case There(s) => z.Ok? && z.value.Some? && Holds(db, key, z.value.value)
  {
    var o := db.Get(key, now);
    if o.None? {
      return Ok(None);
    }
    match o.value.value
    case ZSetValue(zset) => return Ok(Some(zset));
    case _ => return Err(Specs.WRONG_TYPE);
  }

  /** The sorted set under a key, made if the key is absent; an error when it holds something else. */
  method GetOrCreateZSet(db: DB, key: string, now: int) returns (z: Result<ZSet, Value>)
    requires db.Valid()
    modifies db
    ensures db.Valid() && fresh(db.Repr - old(db.Repr))
    ensures var ks := Purge(old(db.Keyspace()), key, now);
            match Specs.GetPairs(ks, key)
            case Wrong => z == Err(Specs.WRONG_TYPE) && db.Keyspace() == ks
            case got => z.Ok? && Holds(db, key, z.value)
                        && db.Keyspace() == Specs.Put(ks, key, Scored(Specs.ValueOr(got, [])))
  {
    var found := GetZSet(db, key, now);
    if found.Err? {
      return Err(found.error);
    }
    if found.value.Some? {
      Specs.PutSame(db.Keyspace(), key);
      return Ok(found.value.value);
    }
    var zset := MakeZSet(db, key);
    return Ok(zset);
  }

  method NewZSet() returns (o: Object)
    ensures o.value.ZSetValue? && fresh(o) && fresh(o.Repr()) && o.Valid() && o.Entry() == Entry(Scored([]), None)
  {
    var z := new ZSet();
    o := new Object(ZSetValue(z), None);
  }

  method MakeZSet(db: DB, key: string) returns (z: ZSet)
    requires db.Valid() && key !in db.data
    modifies db
    ensures db.Valid() && fresh(db.Repr - old(db.Repr))
    ensures Holds(db, key, z) && db.Keyspace() == old(db.Keyspace())[key := Entry(Scored([]), None)]
  {
    hide DB.Valid, DB.Keyspace;
    var o := NewZSet();
    z := o.value.zset;
    db.NewIsApart(o.Repr());
    db.Set(key, o);
  }

  /** The last step of the commands that take members out. */
  method DropIfEmpty(db: DB, key: string, z: ZSet)
    requires db.Valid() && Holds(db, key, z) && z.Valid()
    modifies db
    ensures db.Valid() && db.Repr == old(db.Repr)
    ensures db.Keyspace() == if old(z.Contents()) == [] then old(db.Keyspace()) - {key} else old(db.Keyspace())
  {
    hide DB.Valid, DB.Keyspace, ZSet.Contents, DeleteAll;
    var n := z.Len();
    if n == 0 {
      DeleteOne(db.Keyspace(), key);
      var _ := db.Del([key]);
    }
  }

  /** The options of ZADD, and where the scores and members begin. */
  method ParseOptions(args: seq<string>) returns (f: Specs.Flags, i: nat)
    requires |args| >= 1
    ensures (f, i) == Specs.ZAddOptions(args, 1, Specs.Flags(false, false, false, false, false))
    ensures i <= |args|
  {
    f, i := Specs.Flags(false, false, false, false, false), 1;
    ghost var spec := Specs.ZAddOptions(args, i, f);
    while i < |args|
      invariant i <= |args| && spec == Specs.ZAddOptions(args, i, f)
      decreases |args| - i
    {
      match ToUpper(args[i]) {
        case "NX" => f := f.(nx := true);
        case "XX" => f := f.(xx := true);
        case "GT" => f := f.(gt := true);
        case "LT" => f := f.(lt := true);
        case "CH" => f := f.(ch := true);
        case _ => return;
      }
      i := i + 1;
    }
  }

  /** One score and member of ZADD. */
  method AddOne(z: ZSet, score: Score, member: string, f: Specs.Flags) returns (e: Specs.Effect)
    requires z.Valid()
    modifies z.Repr()
    ensures z.Valid() && fresh(z.Repr() - old(z.Repr()))
    ensures e == Specs.EffectOf(f, ScoreOf(old(z.Contents()), member), score)
    ensures z.Contents() == if e.Skipped? then old(z.Contents()) else AddPair(old(z.Contents()), score, member)
  {
    var held := z.GetScore(member);
    if Specs.Skips(f, held, score) {
      return Specs.Skipped;
    }
    z.ScoreIsHeld(member);
    var isNew := z.Add(score, member);
    return if isNew then Specs.Added else Specs.Changed;
  }

  /** One round of the loop of ZADD, with its counts. */
  method AddAndCount(z: ZSet, score: Score, member: string, f: Specs.Flags, added0: nat, changed0: nat)
    returns (added: nat, changed: nat)
    requires z.Valid()
    modifies z.Repr()
    ensures z.Valid() && fresh(z.Repr() - old(z.Repr()))
    ensures var e := Specs.EffectOf(f, ScoreOf(old(z.Contents()), member), score);
            && z.Contents() == (if e.Skipped? then old(z.Contents()) else AddPair(old(z.Contents()), score, member))
            && added == (if e.Added? then added0 + 1 else added0)
            && changed == (if e.Changed? then changed0 + 1 else changed0)
  {
    added, changed := added0, changed0;
    var effect := AddOne(z, score, member, f);
    match effect {
      case Skipped =>
      case Added => added := added + 1;
      case Changed => changed := changed + 1;
    }
  }

  /** The loop of ZADD over scores and members. */
  method AddMembers(env: Specs.Env, z: ZSet, args: seq<string>, start: nat, f: Specs.Flags) returns (r: Value)
    requires z.Valid()
    modifies z.Repr()
    ensures z.Valid() && fresh(z.Repr() - old(z.Repr()))
    ensures (z.Contents(), r) == Specs.ZAddFrom(env, old(z.Contents()), args, start, f, 0, 0)
  {
    hide UniqueMembers, Agree, Specs.StillToAdd, Specs.ZAddFrom, Specs.EffectOf, AddPair, ScoreOf;
    ghost var spec := Specs.ZAddFrom(env, z.Contents(), args, start, f, 0, 0);
    var i, added: nat, changed: nat := start, 0, 0;
    Specs.AddBegins(env, z.Contents(), args, i, f);
    while i < |args|
      invariant z.Valid() && fresh(z.Repr() - old(z.Repr()))
      invariant Specs.StillToAdd(spec, env, z.Contents(), args, i, f, added, changed)
    {
      Specs.AddNext(spec, env, z.Contents(), args, i, f, added, changed);
      var score := env.parseScore(args[i]);
      if score.None? {
        return Specs.NOT_A_FLOAT;
      }
      added, changed := AddAndCount(z, score.value, Specs.ArgStr(args, i + 1), f, added, changed);
      i := i + 2;
    }
    Specs.AddEnds(spec, env, z.Contents(), args, i, f, added, changed);
    return Integer(if f.ch then added + changed else added);
  }

  method AddTo(env: Specs.Env, db: DB, key: string, z: ZSet, args: seq<string>, i: nat, f: Specs.Flags)
    returns (r: Value)
    requires db.Valid() && Holds(db, key, z)
    modifies db.Repr
    ensures db.Valid() && fresh(db.Repr - old(db.Repr)) && z.Valid()
    ensures (z.Contents(), r) == Specs.ZAddFrom(env, old(z.Contents()), args, i, f, 0, 0)
    ensures db.Keyspace() == Specs.Put(old(db.Keyspace()), key, Scored(z.Contents()))
  {
    r := AddMembers(env, z, args, i, f);
    db.Repr := db.Repr + z.Repr();
    db.ZSetChanged(key, z);
  }

  /** ZADD on a sorted set that is there. */
  method AddUnder(env: Specs.Env, db: DB, z: ZSet, args: seq<string>) returns (r: Value)
    requires db.Valid() && |args| >= 3 && Holds(db, args[0], z)
    modifies db.Repr
    ensures db.Valid() && fresh(db.Repr - old(db.Repr))
    ensures (db.Keyspace(), r) == Specs.ZAddUnder(env, old(db.Keyspace()), old(z.Contents()), args)
  {
    hide DB.Valid, DB.Keyspace, ZSet.Valid;
    var f, i := ParseOptions(args);
    db.ZSetHeld(args[0], z);
    Specs.PutSame(db.Keyspace(), args[0]);
    if (|args| - i) % 2 != 0 {
      return Specs.SYNTAX_ERROR;
    }
    r := AddTo(env, db, args[0], z, args, i, f);
  }

  method CmdZAdd(env: Specs.Env, db: DB, now: int, args: seq<string>) returns (r: Value)
    requires db.Valid()
    modifies db.Repr
    ensures db.Valid() && fresh(db.Repr - old(db.Repr))
    ensures (db.Keyspace(), r) == Specs.ZAdd(env, old(db.Keyspace()), now, args)
  {
    hide DB.Valid, DB.Keyspace, ZSet.Valid;
    db.InRepr();
    if |args| < 3 {
      return Specs.WrongArgCount("ZADD");
    }
    ghost var ks := Purge(db.Keyspace(), args[0], now);
    var got := GetOrCreateZSet(db, args[0], now);
    if got.Err? {
      return got.error;
    }
    ghost var s := Specs.ValueOr(Specs.GetPairs(ks, args[0]), []);
    Specs.ZAddUnderPut(env, ks, s, args);
    db.ZSetHeld(args[0], got.value);
    assert got.value.Contents() == s;
    r := AddUnder(env, db, got.value, args);
  }

  method CmdZRem(db: DB, now: int, args: seq<string>) returns (r: Value)
    requires db.Valid()
    modifies db.Repr
    ensures db.Valid() && fresh(db.Repr - old(db.Repr))
    ensures (db.Keyspace(), r) == Specs.ZRem(old(db.Keyspace()), now, args)
  {
    hide DB.Valid, DB.Keyspace, ZSet.Valid;
    db.InRepr();
    if |args| < 2 {
      return Specs.WrongArgCount("ZREM");
    }
    var got := GetZSet(db, args[0], now);
    if got.Err? {
      return got.error;
    }
    if got.value.None? {
      return Integer(0);
    }
    db.ZSetHeld(args[0], got.value.value);
    var n := RemoveFrom(db, args[0], got.value.value, args[1..]);
    return Integer(n);
  }

  /** What is removed in all is what remains to be removed and what has been. */
  ghost predicate StillToRemove(spec: (seq<Pair>, nat), s: seq<Pair>, rest: seq<string>, removed: nat) {
    var (s', n) := Specs.RemoveMembers(s, rest);
    spec == (s', n + removed)
  }

  lemma RemoveNext(spec: (seq<Pair>, nat), s: seq<Pair>, members: seq<string>, i: nat, removed: nat)
    requires i < |members| && StillToRemove(spec, s, members[i..], removed)
    ensures StillToRemove(spec, RemoveMember(s, members[i]), members[i + 1..],
                          if ScoreOf(s, members[i]).Some? then removed + 1 else removed)
  {
    assert members[i..][1..] == members[i + 1..];
  }

  /** The loop of ZREM. */
  method RemoveEach(z: ZSet, members: seq<string>) returns (removed: nat)
    requires z.Valid()
    modifies z.Repr()
    ensures z.Valid() && z.Repr() <= old(z.Repr())
    ensures StillToRemove(Specs.RemoveMembers(old(z.Contents()), members), z.Contents(), [], removed)
  {
    removed := 0;
    ghost var spec := Specs.RemoveMembers(z.Contents(), members);
    for i := 0 to |members|
      invariant z.Valid() && z.Repr() <= old(z.Repr())
      invariant StillToRemove(spec, z.Contents(), members[i..], removed)
    {
      RemoveNext(spec, z.Contents(), members, i, removed);
      z.ScoreIsHeld(members[i]);
      var ok := z.Remove(members[i]);
      if ok {
        removed := removed + 1;
      }
    }
  }

  method RemoveFrom(db: DB, key: string, z: ZSet, members: seq<string>) returns (removed: nat)
    requires db.Valid() && Holds(db, key, z)
    modifies db.Repr
    ensures db.Valid() && fresh(db.Repr - old(db.Repr))
    ensures var (s', n) := Specs.RemoveMembers(old(z.Contents()), members);
            removed == n && db.Keyspace() == Specs.PutOrDrop(old(db.Keyspace()), key, Scored(s'))
  {
    removed := RemoveEach(z, members);
    db.ZSetChanged(key, z);
    ghost var s' := z.Contents();
    DropIfEmpty(db, key, z);
    Specs.PutTwice(old(db.Keyspace()), key, Scored(s'), Scored(s'));
  }

  method CmdZCard(db: DB, now: int, args: seq<string>) returns (r: Value)
    requires db.Valid()
    modifies db
    ensures db.Valid() && db.Repr == old(db.Repr)
    ensures (db.Keyspace(), r) == Specs.ZCard(old(db.Keyspace()), now, args)
  {
    hide DB.Valid, DB.Keyspace, ZSet.Valid;
    if |args| != 1 {
      return Specs.WrongArgCount("ZCARD");
    }
    var got := GetZSet(db, args[0], now);
    if got.Err? {
      return got.error;
    }
    if got.value.None? {
      return Integer(0);
    }
    db.ZSetHeld(args[0], got.value.value);
    var n := got.value.value.Len();
    return Integer(n);
  }

  method CmdZScore(env: Specs.Env, db: DB, now: int, args: seq<string>) returns (r: Value)
    requires db.Valid()
    modifies db
    ensures db.Valid() && db.Repr == old(db.Repr)
    ensures (db.Keyspace(), r) == Specs.ZScore(env, old(db.Keyspace()), now, args)
  {
    hide DB.Valid, DB.Keyspace, ZSet.Valid;
    if |args| != 2 {
      return Specs.WrongArgCount("ZSCORE");
    }
    var got := GetZSet(db, args[0], now);
    if got.Err? {
      return got.error;
    }
    if got.value.None? {
      return NullBulk;
    }
    db.ZSetHeld(args[0], got.value.value);
    var held := got.value.value.GetScore(args[1]);
    return if held.Some? then BulkString(env.formatScore(held.value)) else NullBulk;
  }

  method CmdZCount(env: Specs.Env, db: DB, now: int, args: seq<string>) returns (r: Value)
    requires db.Valid()
    modifies db
    ensures db.Valid() && db.Repr == old(db.Repr)
    ensures (db.Keyspace(), r) == Specs.ZCount(env, old(db.Keyspace()), now, args)
  {
    hide DB.Valid, DB.Keyspace, ZSet.Valid, Skiplist.Contents, InScores, Purge;
    if |args| != 3 {
      return Specs.WrongArgCount("ZCOUNT");
    }
    var got := GetZSet(db, args[0], now);
    if got.Err? {
      return got.error;
    }
    if got.value.None? {
      return Integer(0);
    }
    var min, max := env.parseScore(args[1]), env.parseScore(args[2]);
    if min.None? || max.None? {
      return Specs.BOUND_NOT_A_FLOAT;
    }
    var z := got.value.value;
    db.ZSetHeld(args[0], z);
    assert Specs.GetPairs(db.Keyspace(), args[0]) == Specs.There(z.Contents());
    var n := z.sl.CountByScore(min.value, max.value);
    return Integer(n);
  }

  method RaiseScore(env: Specs.Env, z: ZSet, member: string, delta: Score) returns (score: Score)
    requires z.Valid()
    modifies z.Repr()
    ensures z.Valid() && fresh(z.Repr() - old(z.Repr()))
    ensures score == Specs.Raised(env, old(z.Contents()), member, delta)
    ensures z.Contents() == AddPair(old(z.Contents()), score, member)
  {
    var held := z.GetScore(member);
    score := env.addScores(if held.Some? then held.value else 0.0, delta);
    var _ := z.Add(score, member);
  }

  method RaiseUnder(env: Specs.Env, db: DB, key: string, z: ZSet, member: string, delta: Score) returns (score: Score)
    requires db.Valid() && Holds(db, key, z)
    modifies db.Repr
    ensures db.Valid() && fresh(db.Repr - old(db.Repr))
    ensures score == Specs.Raised(env, old(z.Contents()), member, delta)
    ensures db.Keyspace() == Specs.Put(old(db.Keyspace()), key, Scored(AddPair(old(z.Contents()), score, member)))
  {
    db.ZSetHeld(key, z);
    score := RaiseScore(env, z, member, delta);
    db.Repr := db.Repr + z.Repr();
    db.ZSetChanged(key, z);
  }

  method CmdZIncrBy(env: Specs.Env, db: DB, now: int, args: seq<string>) returns (r: Value)
    requires db.Valid()
    modifies db.Repr
    ensures db.Valid() && fresh(db.Repr - old(db.Repr))
    ensures (db.Keyspace(), r) == Specs.ZIncrBy(env, old(db.Keyspace()), now, args)
  {
    hide DB.Valid, DB.Keyspace, ZSet.Valid;
    db.InRepr();
    if |args| != 3 {
      return Specs.WrongArgCount("ZINCRBY");
    }
    var delta := env.parseScore(args[1]);
    if delta.None? {
      return Specs.NOT_A_FLOAT;
    }
    ghost var ks := Purge(db.Keyspace(), args[0], now);
    var got := GetOrCreateZSet(db, args[0], now);
    if got.Err? {
      return got.error;
    }
    ghost var s := Specs.ValueOr(Specs.GetPairs(ks, args[0]), []);
    db.ZSetHeld(args[0], got.value);
    assert got.value.Contents() == s;
    var score := RaiseUnder(env, db, args[0], got.value, args[2], delta.value);
    Specs.PutTwice(ks, args[0], Scored(s), Scored(AddPair(s, score, args[2])));
    return BulkString(env.formatScore(score));
  }

  /** parseLimitClause */
  method ParseLimitClause(args: seq<string>) returns (offset: int, count: int)
    requires |args| >= 3
    ensures (offset, count) == Specs.LimitClause(args, 3)
  {
    for i := 3 to |args|
      invariant Specs.LimitClause(args, 3) == Specs.LimitClause(args, i)
    {
      if ToUpper(args[i]) == "LIMIT" {
        if i + 2 >= |args| {
          return 0, 0;
        }
        var first, second := ParseInt(args[i + 1]), ParseInt(args[i + 2]);
        if first.None? || second.None? {
          return 0, 0;
        }
        return first.value, second.value;
      }
    }
    return 0, -1;
  }

  method HasWithScores(args: seq<string>) returns (found: bool)
    requires |args| >= 3
    ensures found == Specs.HasOption(args, 3, "WITHSCORES")
  {
    found := false;
    for i := 3 to |args|
      invariant Specs.HasOption(args, 3, "WITHSCORES") == (found || Specs.HasOption(args, i, "WITHSCORES"))
    {
      if ToUpper(args[i]) == "WITHSCORES" {
        found := true;
      }
    }
  }

  /** The part of ZRANGEBYSCORE and ZREVRANGEBYSCORE that depends on the sorted set. */
  method ReplyWithScores(env: Specs.Env, z: ZSet, args: seq<string>, reverse: bool) returns (r: Value)
    requires z.Valid() && |args| >= 3
    ensures r == Specs.ScoreRangeReply(env, z.Contents(), args, reverse)
  {
    var first, second := env.parseScore(args[1]), env.parseScore(args[2]);
    if first.None? || second.None? {
      return Specs.BOUND_NOT_A_FLOAT;
    }
    var withScores := HasWithScores(args);
    var offset, count := ParseLimitClause(args);
    var entries;
    if reverse {
      entries := z.sl.RevRangeByScore(first.value, second.value, offset, count);
    } else {
      entries := z.sl.RangeByScore(first.value, second.value, offset, count);
    }
    r := EntriesToReply(env, entries, withScores);
  }

  /** ZRANGEBYSCORE and ZREVRANGEBYSCORE. */
  method CmdZRangeByScore(env: Specs.Env, db: DB, now: int, name: string, args: seq<string>, reverse: bool)
    returns (r: Value)
    requires db.Valid()
    modifies db
    ensures db.Valid() && db.Repr == old(db.Repr)
    ensures (db.Keyspace(), r) == Specs.ZRangeByScore(env, old(db.Keyspace()), now, name, args, reverse)
  {
    hide DB.Valid, DB.Keyspace, ZSet.Valid;
    if |args| < 3 {
      return Specs.WrongArgCount(name);
    }
    var got := GetZSet(db, args[0], now);
    if got.Err? {
      return got.error;
    }
    if got.value.None? {
      return Array([]);
    }
    var z := got.value.value;
    db.ZSetHeld(args[0], z);
    assert Specs.GetPairs(db.Keyspace(), args[0]) == Specs.There(z.Contents());
    r := ReplyWithScores(env, z, args, reverse);
  }

  /** The reply is what there is of it and what the pairs from i on make. */
  ghost predicate StillToReply(env: Specs.Env, s: seq<Pair>, withScores: bool, values: seq<Value>, i: nat) {
    i <= |s| && Specs.PairValues(env, s, withScores) == values + Specs.PairValues(env, s[i..], withScores)
  }

  lemma OnePairMore(env: Specs.Env, s: seq<Pair>, withScores: bool, values: seq<Value>, i: nat)
    requires i < |s| && StillToReply(env, s, withScores, values, i)
    ensures var values1 := values + [BulkString(s[i].member)];
            var values2 := if withScores then values1 + [BulkString(env.formatScore(s[i].score))] else values1;
            StillToReply(env, s, withScores, values2, i + 1)
  {
    assert s[i..][1..] == s[i + 1..];
  }

  /** zsetEntriesToResp */
  method EntriesToReply(env: Specs.Env, entries: seq<Pair>, withScores: bool) returns (r: Value)
    ensures r == Specs.PairsReply(env, entries, withScores)
  {
    var values := [];
    for i := 0 to |entries|
      invariant StillToReply(env, entries, withScores, values, i)
    {
      OnePairMore(env, entries, withScores, values, i);
      values := values + [BulkString(entries[i].member)];
      if withScores {
        values := values + [BulkString(env.formatScore(entries[i].score))];
      }
    }
    assert entries[|entries|..] == [] && values + [] == values;
    return Array(values);
  }

  /** ZRANGE and ZREVRANGE. */
  method CmdZRange(env: Specs.Env, db: DB, now: int, name: string, args: seq<string>, reverse: bool) returns (r: Value)
    requires db.Valid()
    modifies db
    ensures db.Valid() && db.Repr == old(db.Repr)
    ensures (db.Keyspace(), r) == Specs.ZRange(env, old(db.Keyspace()), now, name, args, reverse)
  {
    hide DB.Valid, DB.Keyspace, ZSet.Valid;
    if |args| < 3 {
      return Specs.WrongArgCount(name);
    }
    var got := GetZSet(db, args[0], now);
    if got.Err? {
      return got.error;
    }
    if got.value.None? {
      return Array([]);
    }
    var z := got.value.value;
    db.ZSetHeld(args[0], z);
    assert Specs.GetPairs(db.Keyspace(), args[0]) == Specs.There(z.Contents());
    r := ReplyWithRange(env, z, args, reverse);
  }

  /** The index arithmetic of ZRANGE, and its translation to 1-based ranks. */
  method RangeOf(z: ZSet, start0: int, stop0: int) returns (entries: seq<Pair>)
    requires z.Valid()
    ensures entries == Slice(z.Contents(), start0, stop0)
  {
    hide RankSlice, Slice, NormalizeRange, UniqueMembers, Agree;
    var n := z.Len();
    var (start, stop) := NormalizeRange(n, start0, stop0);
    SliceByRank(z.Contents(), start0, stop0);
    entries := z.sl.RangeByRank(start + 1, stop + 1);
  }

  lemma SliceByRank(s: seq<Pair>, start0: int, stop0: int)
    ensures var (start, stop) := NormalizeRange(|s|, start0, stop0);
            Slice(s, start0, stop0) == RankSlice(s, start + 1, stop + 1)
  {
  }

  /** The index arithmetic of ZREVRANGE on the ascending order, and the reversal of what it selects. */
  method RevRangeOf(z: ZSet, start0: int, stop0: int) returns (entries: seq<Pair>)
    requires z.Valid()
    ensures entries == Slice(Reverse(z.Contents()), start0, stop0)
  {
    hide RankSlice, Slice, RevBounds, Reverse;
    var n := z.Len();
    var (revStart, revStop) := RevBounds(n, start0, stop0);
    SliceOfReverse(z.Contents(), start0, stop0);
    var forward := z.sl.RangeByRank(revStart + 1, revStop + 1);
    assert forward == RankSlice(z.Contents(), revStart + 1, revStop + 1);
    entries := ReverseEntries(forward);
  }

  function RevBounds(n: int, start0: int, stop0: int): (int, int) {
    var start := if start0 < 0 then n + start0 else start0;
    var stop := if stop0 < 0 then n + stop0 else stop0;
    var revStart := n - 1 - stop;
    var revStop := n - 1 - start;
    (if revStart < 0 then 0 else revStart, if revStop >= n then n - 1 else revStop)
  }

  /** The bounds are the clamped ones, mirrored. */
  lemma RevBoundsMirror(n: nat, start: int, stop: int)
    ensures var (a, b) := NormalizeRange(n, start, stop);
            RevBounds(n, start, stop) == (n - 1 - b, n - 1 - a) && 0 <= a && b < n
  {
  }

  lemma ReverseOfSlice<T>(s: seq<T>, a: nat, b: nat)
    requires a <= b < |s|
    ensures Reverse(s)[a..b + 1] == Reverse(s[|s| - 1 - b..|s| - a])
  {
  }

  /** A slice of the reversed sequence is the reverse of what lies at the mirrored ranks. */
  lemma SliceOfReverse(s: seq<Pair>, start: int, stop: int)
    ensures var (revStart, revStop) := RevBounds(|s|, start, stop);
            Slice(Reverse(s), start, stop) == Reverse(RankSlice(s, revStart + 1, revStop + 1))
  {
    RevBoundsMirror(|s|, start, stop);
    hide RevBounds, NormalizeRange;
    var (a, b) := NormalizeRange(|s|, start, stop);
    if a <= b {
      ReverseOfSlice(s, a, b);
    }
  }

  /** Exchanges the ends, moving inwards. */
  method ReverseEntries(forward: seq<Pair>) returns (entries: seq<Pair>)
    ensures entries == Reverse(forward)
  {
    entries := forward;
    ghost var n := |forward|;
    var i, j := 0, |entries| - 1;
    while i < j
      invariant 0 <= i <= n && j == n - 1 - i && |entries| == n
      invariant forall k :: 0 <= k < i ==> entries[k] == forward[n - 1 - k]
      invariant forall k :: i <= k <= j ==> entries[k] == forward[k]
      invariant forall k :: 0 <= k < n && j < k ==> entries[k] == forward[n - 1 - k]
    {
      var a, b := entries[i], entries[j];
      entries := entries[i := b];
      entries := entries[j := a];
      i, j := i + 1, j - 1;
    }
    assert entries == Reverse(forward);
  }

  /** The part of ZRANGE and ZREVRANGE that depends on the sorted set. */
  method ReplyWithRange(env: Specs.Env, z: ZSet, args: seq<string>, reverse: bool) returns (r: Value)
    requires z.Valid() && |args| >= 3
    ensures r == Specs.RangeReply(env, z.Contents(), args, reverse)
  {
    var start, stop := ParseInt(args[1]), ParseInt(args[2]);
    if start.None? || stop.None? {
      return Specs.NOT_AN_INTEGER;
    }
    var entries;
    if reverse {
      entries := RevRangeOf(z, start.value, stop.value);
    } else {
      entries := RangeOf(z, start.value, stop.value);
    }
    r := EntriesToReply(env, entries, |args| >= 4 && ToUpper(args[3]) == "WITHSCORES");
  }

  method EndNode(z: ZSet, min: bool) returns (node: Node?)
    requires z.Valid()
    ensures node == null <==> z.Contents() == []
    ensures node != null ==> [PairOf(node)] == Specs.Off(z.Contents(), 1, min)
  {
    if min {
      node := z.sl.First();
    } else {
      node := z.sl.LastNode();
    }
    assert node != null ==> PairOf(node) == z.Contents()[if min then 0 else |z.Contents()| - 1];
  }

  /** Taking out the member at an end takes off that end. */
  lemma EndMember(s: seq<Pair>, min: bool)
    requires UniqueMembers(s) && s != []
    ensures RemoveMember(s, Specs.Off(s, 1, min)[0].member) == Specs.Left(s, 1, min)
  {
    if !min {
      LastMember(s);
    }
  }

  lemma {:induction false} LastMember(s: seq<Pair>)
    requires UniqueMembers(s) && s != []
    ensures RemoveMember(s, s[|s| - 1].member) == s[..|s| - 1]
  {
    if |s| > 1 {
      var t := s[1..];
      forall i, j | 0 <= i < j < |t|
        ensures t[i].member != t[j].member
      {
        assert s[i + 1].member != s[j + 1].member;
      }
      LastMember(t);
      assert t[|t| - 1] == s[|s| - 1];
      assert [s[0]] + t[..|t| - 1] == s[..|s| - 1];
    }
  }

  /** One round of the popping loop: the pair at an end, if there is one. */
  method PopEnd(z: ZSet, min: bool) returns (p: Option<Pair>)
    requires z.Valid()
    modifies z.Repr()
    ensures z.Valid() && z.Repr() <= old(z.Repr())
    ensures old(z.Contents()) == [] ==> p == None && z.Contents() == []
    ensures old(z.Contents()) != [] ==>
              && p == Some(Specs.Off(old(z.Contents()), 1, min)[0])
              && z.Contents() == Specs.Left(old(z.Contents()), 1, min)
  {
    var node := EndNode(z, min);
    if node == null {
      return None;
    }
    EndMember(z.Contents(), min);
    p := Some(PairOf(node));
    var _ := z.Remove(node.member);
  }

  /** The popping loop: the lowest or the highest pair, up to count times. */
  method PopPairs(z: ZSet, count: nat, min: bool) returns (result: seq<Pair>)
    requires z.Valid()
    modifies z.Repr()
    ensures z.Valid() && z.Repr() <= old(z.Repr())
    ensures var s, k := old(z.Contents()), Min(count, |old(z.Contents())|);
            result == Specs.Off(s, k, min) && z.Contents() == Specs.Left(s, k, min)
  {
    ghost var s := z.Contents();
    result := [];
    var i := 0;
    hide ZSet.Valid, Specs.Popped, Specs.Off, Specs.Left;
    Specs.NothingPopped(s, min);
    while i < count
      invariant i <= count && z.Valid() && z.Repr() <= old(z.Repr())
      invariant Specs.Popped(s, i, min, result, z.Contents())
    {
      Specs.PopRound(s, i, min, result, z.Contents());
      var p := PopEnd(z, min);
      if p.None? {
        break;
      }
      result := result + [p.value];
      i := i + 1;
    }
    Specs.PopsDone(s, i, count, min, result, z.Contents());
  }

  method PopFrom(db: DB, key: string, z: ZSet, count: nat, min: bool) returns (result: seq<Pair>)
    requires db.Valid() && Holds(db, key, z)
    modifies db.Repr
    ensures db.Valid() && fresh(db.Repr - old(db.Repr))
    ensures var s, k := old(z.Contents()), Min(count, |old(z.Contents())|);
            result == Specs.Off(s, k, min) &&
            db.Keyspace() == Specs.PutOrDrop(old(db.Keyspace()), key, Scored(Specs.Left(s, k, min)))
  {
    hide Skiplist.Valid, Specs.Off, Specs.Left;
    db.ZSetHeld(key, z);
    ghost var s := z.Contents();
    ghost var s' := Specs.Left(s, Min(count, |s|), min);
    result := PopPairs(z, count, min);
    db.ZSetChanged(key, z);
    DropIfEmpty(db, key, z);
    Specs.PutTwice(old(db.Keyspace()), key, Scored(s'), Scored(s'));
  }

  /** The part of ZPOPMIN and ZPOPMAX that depends on the sorted set. */
  method ReplyWithPopped(env: Specs.Env, db: DB, z: ZSet, args: seq<string>, min: bool) returns (r: Value)
    requires db.Valid() && |args| >= 1 && Holds(db, args[0], z)
    modifies db.Repr
    ensures db.Valid() && fresh(db.Repr - old(db.Repr))
    ensures (db.Keyspace(), r) == Specs.PopPairs(env, old(db.Keyspace()), old(z.Contents()), args, min)
  {
    hide DB.Valid, DB.Keyspace, ZSet.Valid;
    db.ZSetHeld(args[0], z);
    ghost var s := z.Contents();
    var count := Specs.PopCount(args);
    if count.None? {
      return Specs.NOT_AN_INTEGER;
    }
    ghost var k := Min(count.value, |s|);
    var result := PopFrom(db, args[0], z, count.value, min);
    assert result == Specs.Off(s, k, min);
    r := EntriesToReply(env, result, true);
  }

  method CmdZPop(env: Specs.Env, db: DB, now: int, name: string, args: seq<string>, min: bool) returns (r: Value)
    requires db.Valid()
    modifies db.Repr
    ensures db.Valid() && fresh(db.Repr - old(db.Repr))
    ensures (db.Keyspace(), r) == Specs.ZPop(env, old(db.Keyspace()), now, name, args, min)
  {
    hide DB.Valid, DB.Keyspace, ZSet.Valid;
    db.InRepr();
    if |args| < 1 {
      return Specs.WrongArgCount(name);
    }
    var got := GetZSet(db, args[0], now);
    if got.Err? {
      return got.error;
    }
    if got.value.None? {
      return Array([]);
    }
    db.ZSetHeld(args[0], got.value.value);
    r := ReplyWithPopped(env, db, got.value.value, args, min);
  }

  /** The loop of ZRANGEBYLEX over the member map, in whatever order the map yields its members. */
  method MembersInRange(z: ZSet, min: string, max: string) returns (result: seq<string>)
    requires z.Valid()
    ensures multiset(result) == multiset(Specs.LexMembers(z.Contents(), min, max))
  {
    result := [];
    var rest := z.members.Keys;
    while rest != {}
      invariant rest <= z.members.Keys
      invariant multiset(result) == multiset(set m | m in z.members && m !in rest && Specs.LexInRange(m, min, max))
      decreases rest
    {
      var m :| m in rest;
      rest := rest - {m};
      ghost var seen := set m' | m' in z.members && m' !in rest + {m} && Specs.LexInRange(m', min, max);
      if Specs.LexInRange(m, min, max) {
        result := result + [m];
        assert (set m' | m' in z.members && m' !in rest && Specs.LexInRange(m', min, max)) == seen + {m};
      } else {
        assert (set m' | m' in z.members && m' !in rest && Specs.LexInRange(m', min, max)) == seen;
      }
    }
    LexMembersAre(z, min, max);
  }

  /** The members in the range, in the order of the pairs, are those of the map, each once. */
  lemma LexMembersAre(z: ZSet, min: string, max: string)
    requires z.Valid()
    ensures multiset(Specs.LexMembers(z.Contents(), min, max)) ==
            multiset(set m | m in z.members && m !in {} && Specs.LexInRange(m, min, max))
  {
    var all := set m | m in z.members && m !in {} && Specs.LexInRange(m, min, max);
    LexMembersOnce(z.Contents(), min, max);
    forall m
      ensures m in all <==> m in Picked(z.Contents(), min, max)
    {
      PickedHas(z.Contents(), min, max, m);
      if m in all {
        assert Pair(z.members[m], m) in z.Contents();
      }
    }
    assert all == Picked(z.Contents(), min, max);
  }

  /** The members in the range, as a set. */
  ghost function Picked(s: seq<Pair>, min: string, max: string): set<string> {
    if s == [] then {}
    else (if Specs.LexInRange(s[0].member, min, max) then {s[0].member} else {}) + Picked(s[1..], min, max)
  }

  lemma {:induction false} PickedHas(s: seq<Pair>, min: string, max: string, m: string)
    ensures m in Picked(s, min, max) <==> Specs.LexInRange(m, min, max) && exists p :: p in s && p.member == m
  {
    if s != [] {
      PickedHas(s[1..], min, max, m);
      assert s == [s[0]] + s[1..];
    }
  }

  lemma {:induction false} LexMembersOnce(s: seq<Pair>, min: string, max: string)
    requires UniqueMembers(s)
    ensures multiset(Specs.LexMembers(s, min, max)) == multiset(Picked(s, min, max))
  {
    if s != [] {
      var t := s[1..];
      assert forall i :: 0 <= i < |t| ==> t[i].member != s[0].member;
      forall i, j | 0 <= i < j < |t|
        ensures t[i].member != t[j].member
      {
        assert s[i + 1].member != s[j + 1].member;
      }
      LexMembersOnce(t, min, max);
      PickedHas(t, min, max, s[0].member);
    }
  }

  method CmdZRangeByLex(db: DB, now: int, args: seq<string>) returns (r: Value)
    requires db.Valid()
    modifies db
    ensures db.Valid() && db.Repr == old(db.Repr)
    ensures (db.Keyspace(), r) == Specs.ZRangeByLex(old(db.Keyspace()), now, args)
  {
    hide DB.Valid, DB.Keyspace, ZSet.Valid;
    if |args| < 3 {
      return Specs.WrongArgCount("ZRANGEBYLEX");
    }
    var got := GetZSet(db, args[0], now);
    if got.Err? {
      return got.error;
    }
    if got.value.None? {
      return Array([]);
    }
    var z := got.value.value;
    db.ZSetHeld(args[0], z);
    assert Specs.GetPairs(db.Keyspace(), args[0]) == Specs.There(z.Contents());
    var result := SortedMembers(z, args[1], args[2]);
    return Array(Bulks(result));
  }

  method SortedMembers(z: ZSet, min: string, max: string) returns (result: seq<string>)
    requires z.Valid()
    ensures result == Sort(Specs.LexMembers(z.Contents(), min, max))
  {
    var members := MembersInRange(z, min, max);
    var a := new string[|members|](i requires 0 <= i < |members| => members[i]);
    assert a[..] == members;
    SortIgnoresOrder(members, Specs.LexMembers(z.Contents(), min, max));
    SortStrings(a);
    return a[..];
  }
}
