/** What commands have to do with the clock: which deadlines SET gives, and when the clock does not matter. */
module Deadlines {
  import opened Basics
  import opened Strings
  import opened Pairs
  import opened Resp
  import opened Keyspaces
  import opened CommandSpecs

  const NO_OPTIONS := SetOptions(false, false, None)

  predicate IsExpiryOption(opt: string) {
    opt == "EX" || opt == "PX" || opt == "EXAT" || opt == "PXAT"
  }

  /** The last option of SET, from argument i on, that gives a deadline. */
  function LastExpiry(args: seq<string>, i: nat): (r: Option<string>)
    ensures r.Some? ==> IsExpiryOption(r.value)
    decreases |args| - i
  {
    if i >= |args| then None
    else if IsExpiryOption(ToUpper(args[i])) then
      var later := LastExpiry(args, i + 2);
      if later.Some? then later else Some(ToUpper(args[i]))
    else LastExpiry(args, i + 1)
  }

  /** The deadline that SET gives, if it gives one, is a point in time and not a duration. */
  predicate Absolute(args: seq<string>) {
    var last := LastExpiry(args, 2);
    last.None? || last.value == "EXAT" || last.value == "PXAT"
  }

  /** Two readings of the same options at different times: they differ at most in the deadline, and there as told. */
  ghost predicate ReadAlike(last: Option<string>, r: Result<SetOptions, Value>, r': Result<SetOptions, Value>,
                            o: SetOptions, o': SetOptions, shift: int) {
    match (r, r')
    case (Err(e), Err(e')) => e == e' && e.Error?
    case (Ok(v), Ok(v')) =>
      && v' == v.(expiry := v'.expiry)
      && (last.None? ==> v.expiry == o.expiry && v'.expiry == o'.expiry)
      && (last == Some("EXAT") || last == Some("PXAT") ==> v.expiry == v'.expiry)
      && (last == Some("EX") || last == Some("PX") ==>
            v.expiry.Some? && v'.expiry.Some? && v'.expiry.value - v.expiry.value == shift)
    case _ => false
  }

  lemma {:induction false} OptionsReadAlike(args: seq<string>, i: nat, now: int, now': int, o: SetOptions,
                                            o': SetOptions)
    requires o' == o.(expiry := o'.expiry)
    ensures ReadAlike(LastExpiry(args, i), ParseSetOptions(args, i, now, o), ParseSetOptions(args, i, now', o'),
                      o, o', now' - now)
    decreases |args| - i
  {
    if i < |args| {
      var opt := ToUpper(args[i]);
      if IsExpiryOption(opt) {
        if i + 1 < |args| {
          var d, d' := Deadline(opt, args[i + 1], now), Deadline(opt, args[i + 1], now');
          if d.Some? {
            OptionsReadAlike(args, i + 2, now, now', o.(expiry := d), o'.(expiry := d'));
          }
        }
      } else if opt == "NX" {
        OptionsReadAlike(args, i + 1, now, now', o.(nx := true), o'.(nx := true));
      } else if opt == "XX" {
        OptionsReadAlike(args, i + 1, now, now', o.(xx := true), o'.(xx := true));
      } else if opt == "KEEPTTL" {
        OptionsReadAlike(args, i + 1, now, now', o, o');
      }
    }
  }

  /** What SET is told to do does not depend on the clock just when its deadline is absolute, if it has one at all. */
  lemma OptionsIgnoreClockIff(args: seq<string>, now: int, now': int)
    requires ParseSetOptions(args, 2, now, NO_OPTIONS).Ok?
    ensures ParseSetOptions(args, 2, now', NO_OPTIONS).Ok?
    ensures ParseSetOptions(args, 2, now, NO_OPTIONS) == ParseSetOptions(args, 2, now', NO_OPTIONS)
            <==> now == now' || Absolute(args)
  {
    OptionsReadAlike(args, 2, now, now', NO_OPTIONS, NO_OPTIONS);
  }

  /**
    KEEPTTL is accepted and changes nothing: a key that is set without another expiry option keeps its deadline just
    when it has none.
   */
  lemma KeepTtlKeepsIff(ks: Keyspace, now: int, args: seq<string>)
    requires |args| >= 2 && HasOption(args, 2, "KEEPTTL") && LastExpiry(args, 2).None?
    requires SetText(ks, now, args).1 == OK_REPLY && args[0] in ks && !Expired(ks[args[0]], now)
    ensures var ks' := SetText(ks, now, args).0;
            args[0] in ks' && (ks'[args[0]].expiry == ks[args[0]].expiry <==> ks[args[0]].expiry == None)
  {
    hide HasOption, ParseSetOptions, LastExpiry;
    OptionsReadAlike(args, 2, now, now, NO_OPTIONS, NO_OPTIONS);
  }

  /** A key with a deadline, set with KEEPTTL: the deadline is gone. */
  lemma KeptDeadlineIsLost(now: int)
    ensures var ks: Keyspace := map["k" := Entry(Text("v"), Some(100))];
            SetText(ks, now, ["k", "w", "KEEPTTL"]) == (map["k" := Entry(Text("w"), None)], OK_REPLY)
  {
    assert ToUpper("KEEPTTL") == "KEEPTTL";
    hide ToUpper, Purge;
    var ks: Keyspace := map["k" := Entry(Text("v"), Some(100))];
    var args := ["k", "w", "KEEPTTL"];
    assert ParseSetOptions(args, 2, now, NO_OPTIONS) == ParseSetOptions(args, 3, now, NO_OPTIONS) == Ok(NO_OPTIONS);
    assert ks["k" := Entry(Text("w"), None)] == map["k" := Entry(Text("w"), None)];
  }

  // When no deadline comes into play.

  /** No deadline in the keyspace is before `end`. */
  ghost predicate NoneDue(ks: Keyspace, end: int) {
    forall k :: k in ks ==> ks[k].expiry.None? || end <= ks[k].expiry.value
  }

  /** The command gives no deadline, or an absolute one that is not before `end`. */
  predicate GivesNoneDue(name: string, args: seq<string>, end: int) {
    name == "SET" && |args| >= 2 ==>
      && Absolute(args)
      && var r := ParseSetOptions(args, 2, end, NO_OPTIONS); r.Ok? && r.value.expiry.Some? ==>
           end <= r.value.expiry.value
  }

  /** The command gives no deadline at all. */
  predicate GivesNoDeadline(name: string, args: seq<string>) {
    name == "SET" ==> LastExpiry(args, 2).None?
  }

  lemma NoDeadlineIsNoneDue(name: string, args: seq<string>, end: int)
    requires GivesNoDeadline(name, args)
    ensures GivesNoneDue(name, args, end)
  {
    OptionsReadAlike(args, 2, end, end, NO_OPTIONS, NO_OPTIONS);
  }

  lemma NothingToPurge(ks: Keyspace, key: string, now: int, end: int)
    requires NoneDue(ks, end) && now <= end
    ensures Purge(ks, key, now) == ks
  {
  }

  /** Two outcomes at different times are the same, and leave nothing due. */
  ghost predicate Timeless(a: Outcome, b: Outcome, end: int) {
    a == b && NoneDue(a.0, end)
  }

  lemma PushesIgnoreClock(ks: Keyspace, now: int, now': int, end: int, name: string, args: seq<string>, atHead: bool)
    requires NoneDue(ks, end) && now <= end && now' <= end
    ensures Timeless(Push(ks, now, name, args, atHead), Push(ks, now', name, args, atHead), end)
    ensures Timeless(PushX(ks, now, name, args, atHead), PushX(ks, now', name, args, atHead), end)
  {
    NothingToPurge(ks, ArgStr(args, 0), now, end);
    NothingToPurge(ks, ArgStr(args, 0), now', end);
  }

  lemma PopIgnoresClock(ks: Keyspace, now: int, now': int, end: int, name: string, args: seq<string>, atHead: bool)
    requires NoneDue(ks, end) && now <= end && now' <= end
    ensures Timeless(Pop(ks, now, name, args, atHead), Pop(ks, now', name, args, atHead), end)
  {
    NothingToPurge(ks, ArgStr(args, 0), now, end);
    NothingToPurge(ks, ArgStr(args, 0), now', end);
  }

  lemma ListReadsIgnoreClock(ks: Keyspace, now: int, now': int, end: int, args: seq<string>)
    requires NoneDue(ks, end) && now <= end && now' <= end
    ensures Timeless(LLen(ks, now, args), LLen(ks, now', args), end)
    ensures Timeless(LIndex(ks, now, args), LIndex(ks, now', args), end)
    ensures Timeless(LRange(ks, now, args), LRange(ks, now', args), end)
  {
    NothingToPurge(ks, ArgStr(args, 0), now, end);
    NothingToPurge(ks, ArgStr(args, 0), now', end);
  }

  lemma ListWritesIgnoreClock(ks: Keyspace, now: int, now': int, end: int, args: seq<string>)
    requires NoneDue(ks, end) && now <= end && now' <= end
    ensures Timeless(LSet(ks, now, args), LSet(ks, now', args), end)
    ensures Timeless(LInsert(ks, now, args), LInsert(ks, now', args), end)
    ensures Timeless(LRem(ks, now, args), LRem(ks, now', args), end)
    ensures Timeless(LTrim(ks, now, args), LTrim(ks, now', args), end)
  {
    NothingToPurge(ks, ArgStr(args, 0), now, end);
    NothingToPurge(ks, ArgStr(args, 0), now', end);
  }

  lemma MoveIgnoresClock(ks: Keyspace, now: int, now': int, end: int, src: string, s: seq<string>, dst: string,
                         fromHead: bool, to: Option<bool>)
    requires NoneDue(ks, end) && now <= end && now' <= end
    ensures Timeless(Move(ks, now, src, s, dst, fromHead, to), Move(ks, now', src, s, dst, fromHead, to), end)
  {
    hide Left, Off;
    if s != [] {
      var ks1 := PutOrDrop(ks, src, Items(Left(s, 1, fromHead)));
      NothingToPurge(ks1, dst, now, end);
      NothingToPurge(ks1, dst, now', end);
    }
  }

  lemma MovesIgnoreClock(ks: Keyspace, now: int, now': int, end: int, args: seq<string>)
    requires NoneDue(ks, end) && now <= end && now' <= end
    ensures Timeless(RPopLPush(ks, now, args), RPopLPush(ks, now', args), end)
    ensures Timeless(LMove(ks, now, args), LMove(ks, now', args), end)
  {
    var key, dst := ArgStr(args, 0), ArgStr(args, 1);
    NothingToPurge(ks, key, now, end);
    NothingToPurge(ks, key, now', end);
    match GetItems(ks, key)
    case There(s) =>
      MoveIgnoresClock(ks, now, now', end, key, s, dst, false, Some(true));
      var from, to := Direction(ArgStr(args, 2)), Direction(ArgStr(args, 3));
      MoveIgnoresClock(ks, now, now', end, key, s, dst, from == Some(true), to);
    case _ =>
  }

  lemma ZSetReadsIgnoreClock(env: Env, ks: Keyspace, now: int, now': int, end: int, name: string, args: seq<string>,
                             b: bool)
    requires NoneDue(ks, end) && now <= end && now' <= end
    ensures Timeless(ZRange(env, ks, now, name, args, b), ZRange(env, ks, now', name, args, b), end)
    ensures Timeless(ZRangeByScore(env, ks, now, name, args, b), ZRangeByScore(env, ks, now', name, args, b), end)
    ensures Timeless(ZRangeByLex(ks, now, args), ZRangeByLex(ks, now', args), end)
    ensures Timeless(ZCard(ks, now, args), ZCard(ks, now', args), end)
    ensures Timeless(ZScore(env, ks, now, args), ZScore(env, ks, now', args), end)
    ensures Timeless(ZCount(env, ks, now, args), ZCount(env, ks, now', args), end)
  {
    NothingToPurge(ks, ArgStr(args, 0), now, end);
    NothingToPurge(ks, ArgStr(args, 0), now', end);
  }

  lemma AddsIgnoreClock(env: Env, ks: Keyspace, now: int, now': int, end: int, args: seq<string>)
    requires NoneDue(ks, end) && now <= end && now' <= end
    ensures Timeless(ZAdd(env, ks, now, args), ZAdd(env, ks, now', args), end)
    ensures Timeless(ZIncrBy(env, ks, now, args), ZIncrBy(env, ks, now', args), end)
  {
    hide ZAdded, AddPair;
    NothingToPurge(ks, ArgStr(args, 0), now, end);
    NothingToPurge(ks, ArgStr(args, 0), now', end);
  }

  lemma RemovalsIgnoreClock(env: Env, ks: Keyspace, now: int, now': int, end: int, name: string, args: seq<string>,
                            min: bool)
    requires NoneDue(ks, end) && now <= end && now' <= end
    ensures Timeless(ZRem(ks, now, args), ZRem(ks, now', args), end)
    ensures Timeless(ZPop(env, ks, now, name, args, min), ZPop(env, ks, now', name, args, min), end)
  {
    hide RemoveMembers, PairValues;
    NothingToPurge(ks, ArgStr(args, 0), now, end);
    NothingToPurge(ks, ArgStr(args, 0), now', end);
  }

  lemma {:induction false} DeleteLeavesNoneDue(ks: Keyspace, keys: seq<string>, end: int)
    requires NoneDue(ks, end)
    ensures NoneDue(DeleteAll(ks, keys).0, end)
  {
    if keys != [] {
      DeleteLeavesNoneDue(ks - {keys[0]}, keys[1..], end);
    }
  }

  lemma SetIgnoresClock(ks: Keyspace, now: int, now': int, end: int, args: seq<string>)
    requires NoneDue(ks, end) && now <= end && now' <= end && GivesNoneDue("SET", args, end)
    ensures Timeless(SetText(ks, now, args), SetText(ks, now', args), end)
  {
    NothingToPurge(ks, ArgStr(args, 0), now, end);
    NothingToPurge(ks, ArgStr(args, 0), now', end);
    OptionsReadAlike(args, 2, now, now', NO_OPTIONS, NO_OPTIONS);
    OptionsReadAlike(args, 2, now, end, NO_OPTIONS, NO_OPTIONS);
  }

  lemma KeysIgnoreClock(ks: Keyspace, now: int, now': int, end: int, args: seq<string>)
    requires NoneDue(ks, end) && now <= end && now' <= end
    ensures Timeless(GetText(ks, now, args), GetText(ks, now', args), end)
    ensures Timeless(DelKeys(ks, args), DelKeys(ks, args), end)
    ensures Timeless(RenameKey(ks, now, args), RenameKey(ks, now', args), end)
  {
    NothingToPurge(ks, ArgStr(args, 0), now, end);
    NothingToPurge(ks, ArgStr(args, 0), now', end);
    DeleteLeavesNoneDue(ks, args, end);
  }

  lemma ListsIgnoreClock(ks: Keyspace, now: int, now': int, end: int, name: string, args: seq<string>)
    requires name in LIST_NAMES && NoneDue(ks, end) && now <= end && now' <= end
    ensures Timeless(ApplyList(ks, now, name, args), ApplyList(ks, now', name, args), end)
  {
    hide Push, PushX, Pop, LLen, LRange, LIndex, LSet, LInsert, LRem, LTrim, RPopLPush, LMove, Timeless, NoneDue;
    var atHead := name == "LPUSH" || name == "LPUSHX" || name == "LPOP";
    if name in {"LPUSH", "RPUSH", "LPUSHX", "RPUSHX"} {
      PushesIgnoreClock(ks, now, now', end, name, args, atHead);
    } else if name in {"LPOP", "RPOP"} {
      PopIgnoresClock(ks, now, now', end, name, args, atHead);
    } else if name in {"LLEN", "LRANGE", "LINDEX"} {
      ListReadsIgnoreClock(ks, now, now', end, args);
    } else if name in {"RPOPLPUSH", "LMOVE"} {
      MovesIgnoreClock(ks, now, now', end, args);
    } else {
      ListWritesIgnoreClock(ks, now, now', end, args);
    }
  }

  lemma ZSetsIgnoreClock(env: Env, ks: Keyspace, now: int, now': int, end: int, name: string, args: seq<string>)
    requires name in ZSET_NAMES && NoneDue(ks, end) && now <= end && now' <= end
    ensures Timeless(ApplyZSet(env, ks, now, name, args), ApplyZSet(env, ks, now', name, args), end)
  {
    hide ZAdd, ZRem, ZScore, ZIncrBy, ZRange, ZRangeByScore, ZCard, ZCount, ZPop, ZRangeByLex, Timeless, NoneDue;
    if name in {"ZADD", "ZINCRBY"} {
      AddsIgnoreClock(env, ks, now, now', end, args);
    } else if name in {"ZREM", "ZPOPMIN", "ZPOPMAX"} {
      RemovalsIgnoreClock(env, ks, now, now', end, name, args, name == "ZPOPMIN");
    } else {
      ZSetReadsIgnoreClock(env, ks, now, now', end, name, args, name == "ZREVRANGE" || name == "ZREVRANGEBYSCORE");
    }
  }

  /**
    As long as nothing is due, a command that gives nothing due does not depend on the clock, and leaves nothing due.
   */
  lemma ApplyIgnoresClock(env: Env, ks: Keyspace, now: int, now': int, end: int, name: string, args: seq<string>)
    requires Registered(name) && NoneDue(ks, end) && now <= end && now' <= end && GivesNoneDue(name, args, end)
    ensures Timeless(Apply(env, ks, now, name, args), Apply(env, ks, now', name, args), end)
  {
    hide ApplyList, ApplyZSet, Timeless, NoneDue;
    if name in LIST_NAMES {
      ListsIgnoreClock(ks, now, now', end, name, args);
    } else if name in ZSET_NAMES {
      ZSetsIgnoreClock(env, ks, now, now', end, name, args);
    } else if name == "SET" {
      SetIgnoresClock(ks, now, now', end, args);
    } else {
      KeysIgnoreClock(ks, now, now', end, args);
    }
  }
}
