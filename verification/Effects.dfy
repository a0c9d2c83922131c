/** What commands leave alone: which only read, which keys a command can change, and when a command changes nothing. */
module Effects {
  import opened Basics
  import opened Strings
  import opened Pairs
  import opened Occurrences
  import opened Resp
  import opened Keyspaces
  import opened CommandSpecs
  import opened Deadlines

  /** The commands of the model that only read. */
  predicate ReadsOnly(name: string) {
    name in {"LLEN", "LRANGE", "LINDEX", "ZSCORE", "ZRANGE", "ZREVRANGE", "ZRANGEBYSCORE", "ZREVRANGEBYSCORE", "ZCARD",
             "ZCOUNT", "ZRANGEBYLEX", "GET"}
  }

  /** What a lookup can leave: the keyspace, perhaps without a key that has lapsed. */
  predicate Looked(ks: Keyspace, ks': Keyspace, key: string, now: int) {
    ks' == ks || ks' == Purge(ks, key, now)
  }

  lemma ListReadersLook(ks: Keyspace, now: int, name: string, args: seq<string>)
    requires name in {"LLEN", "LRANGE", "LINDEX"}
    ensures Looked(ks, ApplyList(ks, now, name, args).0, ArgStr(args, 0), now)
  {
    hide Purge, Slice, GetItems;
  }

  lemma ZSetReadersLook(env: Env, ks: Keyspace, now: int, name: string, args: seq<string>)
    requires name in ZSET_NAMES && ReadsOnly(name)
    ensures Looked(ks, ApplyZSet(env, ks, now, name, args).0, ArgStr(args, 0), now)
  {
    hide Purge, RangeReply, ScoreRangeReply, LexMembers, GetPairs;
  }

  lemma ReadersOnlyLook(env: Env, ks: Keyspace, now: int, name: string, args: seq<string>)
    requires Registered(name) && ReadsOnly(name)
    ensures Looked(ks, Apply(env, ks, now, name, args).0, ArgStr(args, 0), now)
  {
    hide ApplyList, ApplyZSet, Purge;
    if name in LIST_NAMES {
      ListReadersLook(ks, now, name, args);
    } else if name in ZSET_NAMES {
      ZSetReadersLook(env, ks, now, name, args);
    }
  }

  /** They remove at most a lapsed key; what can be seen stays. */
  lemma ReadersChangeNothing(env: Env, ks: Keyspace, now: int, name: string, args: seq<string>)
    requires Registered(name) && ReadsOnly(name)
    ensures Live(Apply(env, ks, now, name, args).0, now) == Live(ks, now)
    ensures forall end :: NoneDue(ks, end) && now <= end ==> Apply(env, ks, now, name, args).0 == ks
  {
    hide Apply;
    ReadersOnlyLook(env, ks, now, name, args);
    assert Live(Purge(ks, ArgStr(args, 0), now), now) == Live(ks, now);
  }

  // Which keys can change.

  /** The key is under the keyspace what it was. */
  predicate SameAt(ks: Keyspace, ks': Keyspace, k: string) {
    (k in ks <==> k in ks') && (k in ks ==> ks[k] == ks'[k])
  }

  lemma PurgeElsewhere(ks: Keyspace, key: string, now: int, k: string)
    requires k != key
    ensures SameAt(ks, Purge(ks, key, now), k)
  {
  }

  lemma {:induction false} DeleteElsewhere(ks: Keyspace, keys: seq<string>, k: string)
    requires k !in keys
    ensures SameAt(ks, DeleteAll(ks, keys).0, k)
  {
    if keys != [] {
      DeleteElsewhere(ks - {keys[0]}, keys[1..], k);
    }
  }

  lemma PutElsewhere(ks: Keyspace, key: string, d: Data, k: string)
    requires k != key
    ensures SameAt(ks, Put(ks, key, d), k) && SameAt(ks, PutOrDrop(ks, key, d), k)
  {
  }

  lemma PutsElsewhere(ks: Keyspace, ks1: Keyspace, key: string, k: string)
    requires k != key && SameAt(ks, ks1, k)
    ensures forall d: Data :: SameAt(ks, Put(ks1, key, d), k)
    ensures forall d: Data :: SameAt(ks, PutOrDrop(ks1, key, d), k)
    ensures SameAt(ks, ks1 - {key}, k)
  {
  }

  lemma DeliverElsewhere(ks: Keyspace, now: int, key: string, v: string, to: Option<bool>, k: string)
    requires k != key
    ensures SameAt(ks, Deliver(ks, now, key, v, to).0, k)
  {
    hide GetItems;
    PurgeElsewhere(ks, key, now, k);
  }

  lemma MoveElsewhere(ks: Keyspace, now: int, src: string, s: seq<string>, dst: string, fromHead: bool,
                      to: Option<bool>, k: string)
    requires k != src && k != dst
    ensures SameAt(ks, Move(ks, now, src, s, dst, fromHead, to).0, k)
  {
    hide Left, PutOrDrop, Deliver;
    if s != [] {
      var ks1 := PutOrDrop(ks, src, Items(Left(s, 1, fromHead)));
      PutElsewhere(ks, src, Items(Left(s, 1, fromHead)), k);
      DeliverElsewhere(ks1, now, dst, Off(s, 1, fromHead)[0], to, k);
    }
  }

  lemma MovesElsewhere(ks: Keyspace, now: int, args: seq<string>, k: string)
    requires k !in args
    ensures SameAt(ks, RPopLPush(ks, now, args).0, k) && SameAt(ks, LMove(ks, now, args).0, k)
  {
    hide Move, Purge;
    if |args| > 1 {
      PurgeElsewhere(ks, args[0], now, k);
      var ks1 := Purge(ks, args[0], now);
      var s := ValueOr(GetItems(ks1, args[0]), []);
      MoveElsewhere(ks1, now, args[0], s, args[1], false, Some(true), k);
      var from, to := Direction(ArgStr(args, 2)), Direction(ArgStr(args, 3));
      MoveElsewhere(ks1, now, args[0], s, args[1], from == Some(true), to, k);
    }
  }

  lemma ListsElsewhere(ks: Keyspace, now: int, name: string, args: seq<string>, k: string)
    requires name in LIST_NAMES && k !in args
    ensures SameAt(ks, ApplyList(ks, now, name, args).0, k)
  {
    assert SameAt(ks, ks, k);
    hide RPopLPush, LMove, Removed, InsertAt, Slice, Off, Left, GetItems, Purge, SameAt, Put, PutOrDrop;
    if name in {"RPOPLPUSH", "LMOVE"} {
      MovesElsewhere(ks, now, args, k);
    } else if |args| > 0 {
      PurgeElsewhere(ks, args[0], now, k);
      PutsElsewhere(ks, Purge(ks, args[0], now), args[0], k);
    }
  }

  lemma ZSetsElsewhere(env: Env, ks: Keyspace, now: int, name: string, args: seq<string>, k: string)
    requires name in ZSET_NAMES && k !in args
    ensures SameAt(ks, ApplyZSet(env, ks, now, name, args).0, k)
  {
    hide ZAdded, RemoveMembers, RangeReply, ScoreRangeReply, LexMembers, PairsReply, AddPair, Off, Left;
    if |args| > 0 {
      PurgeElsewhere(ks, args[0], now, k);
    }
  }

  lemma KeysElsewhere(ks: Keyspace, now: int, name: string, args: seq<string>, k: string)
    requires name in KEY_NAMES && k !in args
    ensures SameAt(ks, ApplyKey(ks, now, name, args).0, k)
  {
    hide ParseSetOptions;
    DeleteElsewhere(ks, args, k);
  }

  /** A command changes nothing under a key that it does not name. */
  lemma OnlyNamedKeysChange(env: Env, ks: Keyspace, now: int, name: string, args: seq<string>, k: string)
    requires Registered(name) && k !in args
    ensures SameAt(ks, Apply(env, ks, now, name, args).0, k)
  {
    hide ApplyList, ApplyZSet, ApplyKey;
    if name in LIST_NAMES {
      ListsElsewhere(ks, now, name, args, k);
    } else if name in ZSET_NAMES {
      ZSetsElsewhere(env, ks, now, name, args, k);
    } else {
      KeysElsewhere(ks, now, name, args, k);
    }
  }

  // Which commands make something out of nothing.

  /** On an empty keyspace the command makes a key. */
  predicate Creates(env: Env, now: int, name: string, args: seq<string>) {
    match name
    case "LPUSH" => |args| >= 2
    case "RPUSH" => |args| >= 2
    case "ZADD" => |args| >= 3
    case "ZINCRBY" => |args| == 3 && env.parseScore(args[1]).Some?
    case "SET" =>
      |args| >= 2 && var r := ParseSetOptions(args, 2, now, NO_OPTIONS); r.Ok? && !r.value.xx
    case _ => false
  }

  lemma {:induction false} DeleteFromNothing(keys: seq<string>)
    ensures DeleteAll(map[], keys).0 == map[]
  {
    if keys != [] {
      var nothing: Keyspace := map[];
      assert nothing - {keys[0]} == nothing;
      DeleteFromNothing(keys[1..]);
    }
  }

  lemma ListCreatesIff(env: Env, now: int, name: string, args: seq<string>)
    requires name in LIST_NAMES
    ensures ApplyList(map[], now, name, args).0 != map[] <==> Creates(env, now, name, args)
  {
    hide Move, Removed, InsertAt, Slice, Off, Left, PutOrDrop;
  }

  lemma ZSetCreatesIff(env: Env, now: int, name: string, args: seq<string>)
    requires name in ZSET_NAMES
    ensures ApplyZSet(env, map[], now, name, args).0 != map[] <==> Creates(env, now, name, args)
  {
    hide ZAdded, RemoveMembers, RangeReply, ScoreRangeReply, LexMembers, PairsReply, AddPair, Off,
      Left, PutOrDrop;
  }

  lemma KeyCreatesIff(env: Env, now: int, name: string, args: seq<string>)
    requires name in KEY_NAMES
    ensures ApplyKey(map[], now, name, args).0 != map[] <==> Creates(env, now, name, args)
  {
    hide ParseSetOptions;
    DeleteFromNothing(args);
  }

  /** LPUSH, RPUSH, ZADD, ZINCRBY and SET without XX, if they are well-formed so far, are the commands that do so. */
  lemma CreatesIff(env: Env, now: int, name: string, args: seq<string>)
    requires Registered(name)
    ensures Apply(env, map[], now, name, args).0 != map[] <==> Creates(env, now, name, args)
  {
    hide ApplyList, ApplyZSet, ApplyKey;
    if name in LIST_NAMES {
      ListCreatesIff(env, now, name, args);
    } else if name in ZSET_NAMES {
      ZSetCreatesIff(env, now, name, args);
    } else {
      KeyCreatesIff(env, now, name, args);
    }
  }

  // When a command changes nothing.

  /** The list goes back to what it was: taken and put at the same end, or at the other with all elements alike. */
  predicate MovesBack(ks: Keyspace, src: string, s: seq<string>, dst: string, fromHead: bool, to: Option<bool>)
    requires src in ks
  {
    && src == dst && (|s| > 1 || ks[src].expiry.None?)
    && (to == Some(fromHead) || (to == Some(!fromHead) && forall i :: 0 <= i < |s| ==> s[i] == s[0]))
  }

  /** A list command that makes no key finds nothing to change. */
  predicate ListIdle(ks: Keyspace, name: string, args: seq<string>) {
    match GetItems(ks, ArgStr(args, 0))
    case There(s) =>
      (match name
       case "LPUSHX" => |args| < 2
       case "RPUSHX" => |args| < 2
       case "LPOP" => |args| < 1 || (|args| >= 2 && PopsNone(s, args[1]))
       case "RPOP" => |args| < 1 || (|args| >= 2 && PopsNone(s, args[1]))
       case "LSET" =>
         |args| != 3 || (match ParseInt(args[1])
                         case None => true
                         case Some(idx) =>
                           var i := Position(|s|, idx); 0 <= i < |s| ==> s[i] == args[2])
       case "LINSERT" => |args| != 4 || ToUpper(args[1]) !in {"BEFORE", "AFTER"} || args[2] !in s
       case "LREM" => |args| != 3 || ParseInt(args[1]).None? || (s != [] && args[2] !in s)
       case "LTRIM" =>
         |args| != 3 || (match (ParseInt(args[1]), ParseInt(args[2]))
                         case (Some(start), Some(stop)) =>
                           s != [] && Position(|s|, start) <= 0 && Position(|s|, stop) >= |s| - 1
                         case _ => true)
       case "RPOPLPUSH" => |args| != 2 || s == [] || MovesBack(ks, args[0], s, args[1], false, Some(true))
       case "LMOVE" =>
         || |args| != 4 || Direction(args[2]).None? || s == []
         || MovesBack(ks, args[0], s, args[1], Direction(args[2]).value, Direction(args[3]))
       case _ => true)
    case _ => true
  }

  /** A count argument with which nothing comes off, and an empty list is not found to be empty. */
  predicate PopsNone<T>(s: seq<T>, count: string) {
    match ParseInt(count)
    case None => true
    case Some(n) => n < 0 || (n == 0 && s != [])
  }

  /** A sorted-set command that makes no key finds nothing to change. */
  predicate ZSetIdle(ks: Keyspace, name: string, args: seq<string>) {
    match GetPairs(ks, ArgStr(args, 0))
    case There(s) =>
      (match name
       case "ZREM" => |args| < 2 || (s != [] && forall i :: 1 <= i < |args| ==> ScoreOf(s, args[i]).None?)
       case "ZPOPMIN" => |args| < 1 || (|args| >= 2 && PopsNone(s, args[1]))
       case "ZPOPMAX" => |args| < 1 || (|args| >= 2 && PopsNone(s, args[1]))
       case _ => true)
    case _ => true
  }

  predicate KeyIdle(ks: Keyspace, now: int, name: string, args: seq<string>) {
    match name
    case "SET" =>
      |args| < 2 || (match ParseSetOptions(args, 2, now, NO_OPTIONS)
                     case Err(_) => true
                     case Ok(o) => args[0] in ks ==> o.nx || ks[args[0]] == Entry(Text(args[1]), o.expiry))
    case "DEL" => forall i :: 0 <= i < |args| ==> args[i] !in ks
    case "RENAME" => |args| != 2 || args[0] !in ks || args[0] == args[1]
    case _ => true
  }

  /** A command that makes no key finds nothing to change. */
  predicate Idle(ks: Keyspace, now: int, name: string, args: seq<string>) {
    if name in LIST_NAMES then ListIdle(ks, name, args)
    else if name in ZSET_NAMES then ZSetIdle(ks, name, args)
    else KeyIdle(ks, now, name, args)
  }

  lemma PutChangesIff(ks: Keyspace, key: string, d: Data)
    requires key in ks
    ensures Put(ks, key, d) == ks <==> ks[key].data == d
    ensures PutOrDrop(ks, key, d) == ks <==> ks[key].data == d && d != Items([]) && d != Scored([])
  {
    assert Put(ks, key, d) == ks ==> Put(ks, key, d)[key] == ks[key];
  }

  lemma {:induction false} AllAlike(s: seq<string>, n: nat)
    requires 0 < n <= |s| && forall i :: 0 <= i < n - 1 ==> s[i] == s[i + 1]
    ensures forall i :: 0 <= i < n ==> s[i] == s[0]
  {
    if n > 1 {
      AllAlike(s, n - 1);
      assert s[n - 2] == s[n - 2 + 1];
    }
  }

  lemma RotatesToItselfIff(s: seq<string>, fromHead: bool)
    requires s != []
    ensures Turn(s, fromHead) == s <==> forall i :: 0 <= i < |s| ==> s[i] == s[0]
  {
    var t := Turn(s, fromHead);
    if t == s {
      forall i | 0 <= i < |s| - 1
        ensures s[i] == s[i + 1]
      {
        assert if fromHead then t[i] == s[i + 1] else t[i + 1] == s[i];
      }
      AllAlike(s, |s|);
    }
  }

  /** The sequence with one end moved to the other. */
  function Turn(s: seq<string>, fromHead: bool): seq<string>
    requires s != []
  {
    if fromHead then s[1..] + [s[0]] else [s[|s| - 1]] + s[..|s| - 1]
  }

  lemma PushXIdleIff(ks: Keyspace, now: int, name: string, args: seq<string>, atHead: bool)
    requires Purge(ks, ArgStr(args, 0), now) == ks && GetItems(ks, ArgStr(args, 0)).There?
    ensures PushX(ks, now, name, args, atHead).0 == ks <==> |args| < 2
  {
    if |args| >= 2 {
      var s := GetItems(ks, args[0]).value;
      PutChangesIff(ks, args[0], Items(if atHead then Reverse(args[1..]) + s else s + args[1..]));
      assert |Reverse(args[1..]) + s| > |s| && |s + args[1..]| > |s|;
    }
  }

  lemma PopIdleIff(ks: Keyspace, now: int, name: string, args: seq<string>, atHead: bool)
    requires Purge(ks, ArgStr(args, 0), now) == ks && GetItems(ks, ArgStr(args, 0)).There?
    ensures Pop(ks, now, name, args, atHead).0 == ks
            <==> |args| < 1 || (|args| >= 2 && PopsNone(GetItems(ks, ArgStr(args, 0)).value, args[1]))
  {
    hide Off, Purge;
    if |args| > 0 {
      var s := GetItems(ks, args[0]).value;
      LeftIsAllIff(s, atHead);
      forall k: nat | k <= |s| ensures PutOrDrop(ks, args[0], Items(Left(s, k, atHead))) == ks <==> k == 0 && s != [] {
        PutChangesIff(ks, args[0], Items(Left(s, k, atHead)));
      }
    }
  }

  lemma LeftIsAllIff<T>(s: seq<T>, atHead: bool)
    ensures forall k: nat | k <= |s| :: Left(s, k, atHead) == s <==> k == 0
  {
    forall k: nat | k <= |s| ensures |Left(s, k, atHead)| == |s| - k {
    }
    assert Left(s, 0, atHead) == s;
  }

  lemma LSetIdleIff(ks: Keyspace, now: int, args: seq<string>)
    requires Purge(ks, ArgStr(args, 0), now) == ks && GetItems(ks, ArgStr(args, 0)).There?
    ensures LSet(ks, now, args).0 == ks <==> ListIdle(ks, "LSET", args)
  {
    hide Purge, Position;
    if |args| == 3 && ParseInt(args[1]).Some? {
      var s := GetItems(ks, args[0]).value;
      var i := Position(|s|, ParseInt(args[1]).value);
      if 0 <= i < |s| {
        PutChangesIff(ks, args[0], Items(s[i := args[2]]));
        assert s[i := args[2]][i] == args[2];
        assert s[i := s[i]] == s;
      }
    }
  }

  lemma LInsertIdleIff(ks: Keyspace, now: int, args: seq<string>)
    requires Purge(ks, ArgStr(args, 0), now) == ks && GetItems(ks, ArgStr(args, 0)).There?
    ensures LInsert(ks, now, args).0 == ks <==> ListIdle(ks, "LINSERT", args)
  {
    hide Purge, FirstIndex;
    if |args| == 4 && args[2] in GetItems(ks, args[0]).value {
      var s := GetItems(ks, args[0]).value;
      forall before: bool ensures Put(ks, args[0], Items(InsertAt(s, args[2], args[3], before))) != ks {
        PutChangesIff(ks, args[0], Items(InsertAt(s, args[2], args[3], before)));
        FirstIndexHolds(s, args[2]);
        assert |InsertAt(s, args[2], args[3], before)| == |s| + 1;
      }
    }
  }

  lemma {:induction false} DropFirstIsAllIff(s: seq<string>, k: nat, e: string)
    ensures DropFirst(s, k, e) == s <==> k == 0 || e !in s
  {
    if s != [] && k > 0 && s[0] != e {
      DropFirstIsAllIff(s[1..], k, e);
      assert s == [s[0]] + s[1..];
    }
  }

  lemma {:induction false} DropLastIsAllIff(s: seq<string>, k: nat, e: string)
    ensures DropLast(s, k, e) == s <==> k == 0 || e !in s
  {
    if s != [] && k > 0 && s[|s| - 1] != e {
      DropLastIsAllIff(s[..|s| - 1], k, e);
      assert s == s[..|s| - 1] + [s[|s| - 1]];
    }
  }

  lemma RemovedIsAllIff(s: seq<string>, count: int, e: string)
    ensures Removed(s, count, e) == s <==> e !in s
  {
    if count == 0 {
      DropFirstIsAllIff(s, |s|, e);
    } else if count > 0 {
      DropFirstIsAllIff(s, count, e);
    } else {
      DropLastIsAllIff(s, -count, e);
    }
  }

  lemma SliceIsAllIff(s: seq<string>, start: int, stop: int)
    requires s != []
    ensures Slice(s, start, stop) == s <==> Position(|s|, start) <= 0 && Position(|s|, stop) >= |s| - 1
  {
    assert Slice(s, start, stop) == s ==> |Slice(s, start, stop)| == |s|;
  }

  lemma RemTrimIdleIff(ks: Keyspace, now: int, args: seq<string>)
    requires Purge(ks, ArgStr(args, 0), now) == ks && GetItems(ks, ArgStr(args, 0)).There?
    ensures LRem(ks, now, args).0 == ks <==> ListIdle(ks, "LREM", args)
    ensures LTrim(ks, now, args).0 == ks <==> ListIdle(ks, "LTRIM", args)
  {
    hide Purge, Position, Slice, Removed, PutOrDrop;
    if |args| == 3 {
      var s := GetItems(ks, args[0]).value;
      match ParseInt(args[1]) {
        case None =>
        case Some(n) =>
          PutChangesIff(ks, args[0], Items(Removed(s, n, args[2])));
          RemovedIsAllIff(s, n, args[2]);
          if ParseInt(args[2]).Some? {
            PutChangesIff(ks, args[0], Items(Slice(s, n, ParseInt(args[2]).value)));
            if s != [] {
              SliceIsAllIff(s, n, ParseInt(args[2]).value);
            }
          }
      }
    }
  }

  /**
    On one key the element goes back to its own list, although that disappears in between when it has one element; then
    its deadline goes.
   */
  lemma DeliverToSelf(ks: Keyspace, now: int, key: string, rest: seq<string>, v: string, to: Option<bool>)
    requires key in ks && ks[key].data.Items? && !Expired(ks[key], now)
    ensures var t := if to.None? then rest else if to.value then [v] + rest else rest + [v];
            var (ks', reply) := Deliver(PutOrDrop(ks, key, Items(rest)), now, key, v, to);
            && ks' == ks[key := Entry(Items(t), if rest == [] then None else ks[key].expiry)]
            && reply == if to.None? then SYNTAX_ERROR else BulkString(v)
  {
    if rest == [] {
      assert GetItems(ks - {key}, key) == Absent;
      assert (if to == Some(true) then [v] + [] else [] + [v]) == [v];
    } else {
      assert GetItems(Put(ks, key, Items(rest)), key) == There(rest);
    }
  }

  /** The element that comes off one end and what is left: put back, and put at the other end. */
  lemma EndAndRest(s: seq<string>, fromHead: bool)
    requires s != []
    ensures |Off(s, 1, fromHead)| == 1
    ensures var v, rest := Off(s, 1, fromHead)[0], Left(s, 1, fromHead);
            && |rest| == |s| - 1
            && s == (if fromHead then [v] + rest else rest + [v])
            && Turn(s, fromHead) == (if fromHead then rest + [v] else [v] + rest)
  {
    assert Off(s, 1, false)[0] == s[|s| - 1];
  }

  lemma PutEntryIdleIff(ks: Keyspace, key: string, e: Entry)
    requires key in ks
    ensures ks[key := e] == ks <==> ks[key] == e
  {
    assert ks[key := e][key] == e;
    assert ks == ks[key := ks[key]];
  }

  lemma MoveToSelfIdleIff(ks: Keyspace, now: int, key: string, s: seq<string>, fromHead: bool, to: Option<bool>)
    requires key in ks && !Expired(ks[key], now) && ks[key].data == Items(s) && s != []
    ensures Move(ks, now, key, s, key, fromHead, to).0 == ks <==> MovesBack(ks, key, s, key, fromHead, to)
  {
    hide Deliver, Expired, Off, Left, Turn, PutOrDrop;
    EndAndRest(s, fromHead);
    var v, rest := Off(s, 1, fromHead)[0], Left(s, 1, fromHead);
    var t := if to.None? then rest else if to.value then [v] + rest else rest + [v];
    DeliverToSelf(ks, now, key, rest, v, to);
    PutEntryIdleIff(ks, key, Entry(Items(t), if rest == [] then None else ks[key].expiry));
    RotatesToItselfIff(s, fromHead);
  }

  lemma MoveAwayChanges(ks: Keyspace, now: int, src: string, s: seq<string>, dst: string, fromHead: bool,
                        to: Option<bool>)
    requires src in ks && ks[src].data == Items(s) && s != [] && src != dst
    ensures Move(ks, now, src, s, dst, fromHead, to).0 != ks
  {
    hide Deliver, Off, Left;
    EndAndRest(s, fromHead);
    var v, rest := Off(s, 1, fromHead)[0], Left(s, 1, fromHead);
    DeliverElsewhere(PutOrDrop(ks, src, Items(rest)), now, dst, v, to, src);
  }

  lemma MoveIdleIff(ks: Keyspace, now: int, src: string, s: seq<string>, dst: string, fromHead: bool, to: Option<bool>)
    requires src in ks && !Expired(ks[src], now) && GetItems(ks, src) == There(s) && s != []
    ensures Move(ks, now, src, s, dst, fromHead, to).0 == ks <==> MovesBack(ks, src, s, dst, fromHead, to)
  {
    hide Move, Expired;
    if src == dst {
      MoveToSelfIdleIff(ks, now, src, s, fromHead, to);
    } else {
      MoveAwayChanges(ks, now, src, s, dst, fromHead, to);
    }
  }

  lemma MovesIdleIff(ks: Keyspace, now: int, args: seq<string>)
    requires Purge(ks, ArgStr(args, 0), now) == ks && GetItems(ks, ArgStr(args, 0)).There?
    ensures RPopLPush(ks, now, args).0 == ks <==> ListIdle(ks, "RPOPLPUSH", args)
    ensures LMove(ks, now, args).0 == ks <==> ListIdle(ks, "LMOVE", args)
  {
    if |args| > 1 {
      var s := GetItems(ks, args[0]).value;
      assert !Expired(ks[args[0]], now);
      hide Deliver, MovesBack, Off, Left, PutOrDrop, Purge;
      if s != [] {
        MoveIdleIff(ks, now, args[0], s, args[1], false, Some(true));
        if |args| == 4 && Direction(args[2]).Some? {
          MoveIdleIff(ks, now, args[0], s, args[1], Direction(args[2]).value, Direction(args[3]));
        }
      }
    }
  }

  lemma {:induction false} RemoveMemberIsAllIff(s: seq<Pair>, member: string)
    ensures RemoveMember(s, member) == s <==> ScoreOf(s, member).None?
  {
    if s != [] && s[0].member != member {
      RemoveMemberIsAllIff(s[1..], member);
      assert s == [s[0]] + s[1..];
    }
  }

  lemma {:induction false} RemoveMembersIsAllIff(s: seq<Pair>, members: seq<string>)
    ensures |RemoveMembers(s, members).0| <= |s|
    ensures RemoveMembers(s, members).0 == s <==> forall i :: 0 <= i < |members| ==> ScoreOf(s, members[i]).None?
    decreases |members|
  {
    if members != [] {
      RemoveMemberIsAllIff(s, members[0]);
      RemoveMemberIsLess(s, members[0]);
      RemoveMembersIsAllIff(RemoveMember(s, members[0]), members[1..]);
      assert members == [members[0]] + members[1..];
    }
  }

  lemma {:induction false} RemoveMemberIsLess(s: seq<Pair>, member: string)
    ensures ScoreOf(s, member).Some? ==> |RemoveMember(s, member)| < |s|
  {
    if s != [] && s[0].member != member {
      RemoveMemberIsLess(s[1..], member);
    }
  }

  lemma ZRemIdleIff(ks: Keyspace, now: int, args: seq<string>)
    requires Purge(ks, ArgStr(args, 0), now) == ks && GetPairs(ks, ArgStr(args, 0)).There?
    ensures ZRem(ks, now, args).0 == ks <==> ZSetIdle(ks, "ZREM", args)
  {
    hide Purge, RemoveMembers, PutOrDrop;
    if |args| >= 2 {
      var s := GetPairs(ks, args[0]).value;
      var members := args[1..];
      PutChangesIff(ks, args[0], Scored(RemoveMembers(s, members).0));
      RemoveMembersIsAllIff(s, members);
      assert (forall i :: 0 <= i < |members| ==> ScoreOf(s, members[i]).None?)
             <==> forall i :: 1 <= i < |args| ==> ScoreOf(s, args[i]).None? by {
        assert forall i :: 1 <= i < |args| ==> args[i] == members[i - 1];
      }
    }
  }

  lemma ZPopIdleIff(env: Env, ks: Keyspace, now: int, name: string, args: seq<string>, min: bool)
    requires Purge(ks, ArgStr(args, 0), now) == ks && GetPairs(ks, ArgStr(args, 0)).There?
    ensures ZPop(env, ks, now, name, args, min).0 == ks
            <==> |args| < 1 || (|args| >= 2 && PopsNone(GetPairs(ks, ArgStr(args, 0)).value, args[1]))
  {
    hide Off, Purge, PairsReply, PutOrDrop, Left;
    if |args| > 0 && PopCount(args).Some? {
      var s := GetPairs(ks, args[0]).value;
      var k := Min(PopCount(args).value, |s|);
      LeftIsAllIff(s, min);
      PutChangesIff(ks, args[0], Scored(Left(s, k, min)));
    }
  }

  lemma ListIdleIff(ks: Keyspace, now: int, name: string, args: seq<string>)
    requires name in LIST_NAMES && !ReadsOnly(name) && !(name in {"LPUSH", "RPUSH"} && |args| >= 2)
    requires Purge(ks, ArgStr(args, 0), now) == ks
    ensures ApplyList(ks, now, name, args).0 == ks <==> ListIdle(ks, name, args)
  {
    if GetItems(ks, ArgStr(args, 0)).There? {
      ListThereIdleIff(ks, now, name, args);
    } else {
      hide Purge, InsertAt, Slice, Removed, Move;
    }
  }

  lemma ListThereIdleIff(ks: Keyspace, now: int, name: string, args: seq<string>)
    requires name in LIST_NAMES && !ReadsOnly(name) && !(name in {"LPUSH", "RPUSH"} && |args| >= 2)
    requires Purge(ks, ArgStr(args, 0), now) == ks && GetItems(ks, ArgStr(args, 0)).There?
    ensures ApplyList(ks, now, name, args).0 == ks <==> ListIdle(ks, name, args)
  {
    hide PushX, Pop, LSet, LInsert, LRem, LTrim, RPopLPush, LMove, Purge, GetItems;
    if name in {"LPUSHX", "RPUSHX"} {
      PushXIdleIff(ks, now, name, args, name == "LPUSHX");
    } else if name in {"LPOP", "RPOP"} {
      PopIdleIff(ks, now, name, args, name == "LPOP");
    } else if name == "LSET" {
      LSetIdleIff(ks, now, args);
    } else if name == "LINSERT" {
      LInsertIdleIff(ks, now, args);
    } else if name in {"LREM", "LTRIM"} {
      RemTrimIdleIff(ks, now, args);
    } else if name in {"RPOPLPUSH", "LMOVE"} {
      MovesIdleIff(ks, now, args);
    }
  }

  lemma ZSetIdleIff(env: Env, ks: Keyspace, now: int, name: string, args: seq<string>)
    requires name in ZSET_NAMES && !ReadsOnly(name) && !Creates(env, now, name, args)
    requires Purge(ks, ArgStr(args, 0), now) == ks
    ensures ApplyZSet(env, ks, now, name, args).0 == ks <==> ZSetIdle(ks, name, args)
  {
    hide Purge, RemoveMembers, PairsReply, PopPairs;
    if GetPairs(ks, ArgStr(args, 0)).There? {
      ZRemIdleIff(ks, now, args);
      ZPopIdleIff(env, ks, now, name, args, name == "ZPOPMIN");
    }
  }

  lemma {:induction false} DeleteChangesIff(ks: Keyspace, keys: seq<string>)
    ensures DeleteAll(ks, keys).0 == ks <==> forall i :: 0 <= i < |keys| ==> keys[i] !in ks
  {
    DeleteAllRemoves(ks, keys);
    var gone := set k | k in keys;
    assert ks - gone == ks <==> gone !! ks.Keys by {
      assert (ks - gone).Keys == ks.Keys - gone;
    }
    assert forall i :: 0 <= i < |keys| ==> keys[i] in gone;
  }

  lemma KeyIdleIff(env: Env, ks: Keyspace, now: int, name: string, args: seq<string>)
    requires name in KEY_NAMES && !ReadsOnly(name) && !Creates(env, now, name, args)
    requires Purge(ks, ArgStr(args, 0), now) == ks
    ensures ApplyKey(ks, now, name, args).0 == ks <==> KeyIdle(ks, now, name, args)
  {
    hide ParseSetOptions, DeleteAll;
    DeleteChangesIff(ks, args);
  }

  /** A command that makes no key changes nothing just when it finds nothing to change. */
  lemma IdleIff(env: Env, ks: Keyspace, now: int, end: int, name: string, args: seq<string>)
    requires Registered(name) && !ReadsOnly(name) && !Creates(env, now, name, args)
    requires NoneDue(ks, end) && now <= end
    ensures Apply(env, ks, now, name, args).0 == ks <==> Idle(ks, now, name, args)
  {
    hide ApplyList, ApplyZSet, ApplyKey, ListIdle, ZSetIdle, KeyIdle, Purge, NoneDue;
    NothingToPurge(ks, ArgStr(args, 0), now, end);
    if name in LIST_NAMES {
      ListIdleIff(ks, now, name, args);
    } else if name in ZSET_NAMES {
      ZSetIdleIff(env, ks, now, name, args);
    } else {
      KeyIdleIff(env, ks, now, name, args);
    }
  }
}
