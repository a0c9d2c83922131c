/**
  The server drops a key once its list or sorted set is empty, and yet two commands can leave an empty one behind: when
  exactly.
 */
module EmptyCollections {
  import opened Basics
  import opened Strings
  import opened Pairs
  import opened Occurrences
  import opened Keyspaces
  import opened CommandSpecs
  import opened Effects
  import opened Delays

  predicate IsEmpty(d: Data) {
    d == Items([]) || d == Scored([])
  }

  /** No key holds an empty list or sorted set. */
  ghost predicate NoEmpties(ks: Keyspace) {
    forall k :: k in ks ==> !IsEmpty(ks[k].data)
  }

  /** A move leaves an empty list when it makes the destination before it finds that it has no direction. */
  predicate MoveLeavesEmpty(ks: Keyspace, now: int, src: string, dst: string, to: Option<bool>) {
    && Seen(ks, src, now) && ks[src].data.Items? && to.None?
    && (if src == dst then |ks[src].data.items| == 1 else !Seen(ks, dst, now))
  }

  /** ZADD adds nothing to an empty set: an odd number of arguments, no pair, XX, or a first score that is none. */
  predicate AddsNothing(env: Env, args: seq<string>)
    requires |args| >= 3
  {
    var (f, i) := ZAddOptions(args, 1, Flags(false, false, false, false, false));
    (|args| - i) % 2 != 0 || i == |args| || f.xx || env.parseScore(args[i]).None?
  }

  predicate LeavesEmpty(env: Env, ks: Keyspace, now: int, name: string, args: seq<string>) {
    match name
    case "LMOVE" =>
      |args| == 4 && Direction(args[2]).Some? && MoveLeavesEmpty(ks, now, args[0], args[1], Direction(args[3]))
    case "ZADD" => |args| >= 3 && !Seen(ks, args[0], now) && AddsNothing(env, args)
    case _ => false
  }

  /** What commands do to one key. */
  lemma PutsKeep(ks: Keyspace, key: string, now: int)
    requires NoEmpties(ks)
    ensures var p := Purge(ks, key, now);
            && NoEmpties(p) && NoEmpties(p - {key})
            && (GetItems(p, key).There? ==> GetItems(p, key).value != [])
            && (GetPairs(p, key).There? ==> GetPairs(p, key).value != [])
            && (forall d: Data :: NoEmpties(PutOrDrop(p, key, d)))
            && (forall d: Data :: NoEmpties(Put(p, key, d)) <==> !IsEmpty(d))
  {
    forall d: Data ensures NoEmpties(Put(Purge(ks, key, now), key, d)) <==> !IsEmpty(d) {
      assert Put(Purge(ks, key, now), key, d)[key].data == d;
    }
  }

  lemma PushesKeep(ks: Keyspace, now: int, name: string, args: seq<string>, atHead: bool)
    requires NoEmpties(ks)
    ensures NoEmpties(Push(ks, now, name, args, atHead).0) && NoEmpties(PushX(ks, now, name, args, atHead).0)
  {
    if |args| >= 2 {
      PutsKeep(ks, args[0], now);
      hide NoEmpties, Purge, Put;
      assert forall s: seq<string> :: |Reverse(args[1..]) + s| > 0 && |s + args[1..]| > 0;
    }
  }

  lemma PopsKeep(ks: Keyspace, now: int, name: string, args: seq<string>, atHead: bool)
    requires NoEmpties(ks)
    ensures NoEmpties(Pop(ks, now, name, args, atHead).0)
  {
    if args != [] {
      PutsKeep(ks, args[0], now);
      hide NoEmpties, Purge, PutOrDrop, Left, Off;
    }
  }

  lemma EditsKeep(ks: Keyspace, now: int, args: seq<string>)
    requires NoEmpties(ks)
    ensures NoEmpties(LSet(ks, now, args).0) && NoEmpties(LInsert(ks, now, args).0)
  {
    if args != [] {
      PutsKeep(ks, args[0], now);
      hide NoEmpties, Purge, Put, Position, FirstIndex;
    }
  }

  lemma CutsKeep(ks: Keyspace, now: int, args: seq<string>)
    requires NoEmpties(ks)
    ensures NoEmpties(LRem(ks, now, args).0) && NoEmpties(LTrim(ks, now, args).0)
  {
    if args != [] {
      PutsKeep(ks, args[0], now);
      hide NoEmpties, Purge, PutOrDrop, Removed, Slice;
    }
  }

  lemma DeliverKeepsIff(ks: Keyspace, now: int, key: string, v: string, to: Option<bool>)
    requires NoEmpties(ks)
    ensures NoEmpties(Deliver(ks, now, key, v, to).0) <==> Seen(ks, key, now) || to.Some?
  {
    PutsKeep(ks, key, now);
    PurgeSees(ks, key, now);
    hide NoEmpties, Purge, Put;
  }

  lemma DropKeeps(ks: Keyspace, key: string, d: Data)
    requires NoEmpties(ks)
    ensures NoEmpties(PutOrDrop(ks, key, d))
  {
  }

  lemma MoveThereKeepsIff(ks: Keyspace, now: int, src: string, dst: string, fromHead: bool, to: Option<bool>)
    requires NoEmpties(ks) && Seen(ks, src, now) && ks[src].data.Items?
    ensures var s := ks[src].data.items;
            NoEmpties(Move(ks, now, src, s, dst, fromHead, to).0) <==> !MoveLeavesEmpty(ks, now, src, dst, to)
  {
    hide NoEmpties, Deliver, Off, Left;
    var s := ks[src].data.items;
    NotEmptyAt(ks, src);
    EndAndRest(s, fromHead);
    var rest := Items(Left(s, 1, fromHead));
    DropKeeps(ks, src, rest);
    DeliverKeepsIff(PutOrDrop(ks, src, rest), now, dst, Off(s, 1, fromHead)[0], to);
  }

  lemma NotEmptyAt(ks: Keyspace, key: string)
    requires NoEmpties(ks) && key in ks
    ensures !IsEmpty(ks[key].data)
  {
  }

  lemma MoveKeepsIff(ks: Keyspace, now: int, src: string, dst: string, fromHead: bool, to: Option<bool>)
    requires NoEmpties(ks)
    ensures NoEmpties(MoveFrom(ks, now, src, dst, fromHead, to)) <==> !MoveLeavesEmpty(ks, now, src, dst, to)
  {
    LookKeeps(ks, Purge(ks, src, now), src, now);
    PurgeSees(ks, src, now);
    hide NoEmpties, Purge, Move, Expired, IsEmpty, Aside, SameAt;
    if Seen(ks, src, now) && ks[src].data.Items? {
      assert MoveFrom(ks, now, src, dst, fromHead, to) == Move(ks, now, src, ks[src].data.items, dst, fromHead, to).0;
      MoveThereKeepsIff(ks, now, src, dst, fromHead, to);
    } else {
      assert MoveFrom(ks, now, src, dst, fromHead, to) == Purge(ks, src, now);
    }
  }

  lemma ListKeepsIff(env: Env, ks: Keyspace, now: int, name: string, args: seq<string>)
    requires NoEmpties(ks) && name in LIST_NAMES && !ReadsOnly(name)
    ensures NoEmpties(ApplyList(ks, now, name, args).0) <==> !LeavesEmpty(env, ks, now, name, args)
  {
    hide Push, PushX, Pop, LSet, LInsert, LRem, LTrim, NoEmpties, Move, Purge;
    PutsKeep(ks, ArgStr(args, 0), now);
    PushesKeep(ks, now, name, args, name == "LPUSH" || name == "LPUSHX");
    PopsKeep(ks, now, name, args, name == "LPOP");
    EditsKeep(ks, now, args);
    CutsKeep(ks, now, args);
    if name == "RPOPLPUSH" && |args| == 2 {
      MoveKeepsIff(ks, now, args[0], args[1], false, Some(true));
    } else if name == "LMOVE" && |args| == 4 {
      MoveKeepsIff(ks, now, args[0], args[1], Direction(args[2]) == Some(true), Direction(args[3]));
    }
  }

  lemma AddPairHolds(s: seq<Pair>, score: Score, member: string)
    ensures AddPair(s, score, member) != []
  {
  }

  lemma {:induction false} AddsFromEmptyIff(env: Env, s: seq<Pair>, args: seq<string>, i: nat, f: Flags, added: nat,
                                            changed: nat)
    ensures ZAddFrom(env, s, args, i, f, added, changed).0 == []
            <==> s == [] && (i >= |args| || f.xx || env.parseScore(args[i]).None?)
    decreases |args| - i
  {
    hide AddPair;
    if i < |args| && env.parseScore(args[i]).Some? {
      var score, member := env.parseScore(args[i]).value, ArgStr(args, i + 1);
      var e := EffectOf(f, ScoreOf(s, member), score);
      AddPairHolds(s, score, member);
      AddsFromEmptyIff(env, if e.Skipped? then s else AddPair(s, score, member), args, i + 2, f,
                       if e.Added? then added + 1 else added, if e.Changed? then changed + 1 else changed);
    }
  }

  lemma ZAddedIsEmptyIff(env: Env, s: seq<Pair>, args: seq<string>)
    requires |args| >= 3
    ensures ZAdded(env, s, args).0 == [] <==> s == [] && AddsNothing(env, args)
  {
    hide ZAddFrom;
    var (f, i) := ZAddOptions(args, 1, Flags(false, false, false, false, false));
    AddsFromEmptyIff(env, s, args, i, f, 0, 0);
  }

  lemma PutKeepsIff(ks: Keyspace, key: string, now: int, d: Data)
    requires NoEmpties(ks)
    ensures var p := Purge(ks, key, now); NoEmpties(p) && (NoEmpties(Put(p, key, d)) <==> !IsEmpty(d))
  {
    PutsKeep(ks, key, now);
  }

  lemma GotPairs(ks: Keyspace, key: string, now: int)
    requires NoEmpties(ks)
    ensures var got := GetPairs(Purge(ks, key, now), key);
            if got == Wrong then Seen(ks, key, now) else ValueOr(got, []) == [] <==> !Seen(ks, key, now)
  {
  }

  lemma ZAddKeepsIff(env: Env, ks: Keyspace, now: int, args: seq<string>)
    requires NoEmpties(ks)
    ensures NoEmpties(ZAdd(env, ks, now, args).0) <==> !LeavesEmpty(env, ks, now, "ZADD", args)
  {
    hide NoEmpties, Purge, Put, ZAdded, AddsNothing, Seen, GetPairs;
    if |args| >= 3 {
      GotPairs(ks, args[0], now);
      var s := ValueOr(GetPairs(Purge(ks, args[0], now), args[0]), []);
      ZAddedIsEmptyIff(env, s, args);
      PutKeepsIff(ks, args[0], now, Scored(ZAdded(env, s, args).0));
    }
  }

  lemma ZIncrByKeeps(env: Env, ks: Keyspace, now: int, args: seq<string>)
    requires NoEmpties(ks)
    ensures NoEmpties(ZIncrBy(env, ks, now, args).0)
  {
    hide NoEmpties, Purge, Put, AddPair, Raised, GetPairs;
    if |args| == 3 && env.parseScore(args[1]).Some? {
      var s := ValueOr(GetPairs(Purge(ks, args[0], now), args[0]), []);
      var score := Raised(env, s, args[2], env.parseScore(args[1]).value);
      AddPairHolds(s, score, args[2]);
      PutKeepsIff(ks, args[0], now, Scored(AddPair(s, score, args[2])));
    }
  }

  lemma RemovalsKeep(env: Env, ks: Keyspace, now: int, name: string, args: seq<string>, min: bool)
    requires NoEmpties(ks)
    ensures NoEmpties(ZRem(ks, now, args).0) && NoEmpties(ZPop(env, ks, now, name, args, min).0)
  {
    if args != [] {
      PutsKeep(ks, args[0], now);
      hide NoEmpties, Purge, PutOrDrop, RemoveMembers, PairsReply, Left, Off;
      if GetPairs(Purge(ks, args[0], now), args[0]).There? && |args| > 1 {
        var s := GetPairs(Purge(ks, args[0], now), args[0]).value;
        var left := RemoveMembers(s, args[1..]).0;
        assert ZRem(ks, now, args).0 == PutOrDrop(Purge(ks, args[0], now), args[0], Scored(left));
      }
    }
  }

  lemma ZSetKeepsIff(env: Env, ks: Keyspace, now: int, name: string, args: seq<string>)
    requires NoEmpties(ks) && name in ZSET_NAMES && !ReadsOnly(name)
    ensures NoEmpties(ApplyZSet(env, ks, now, name, args).0) <==> !LeavesEmpty(env, ks, now, name, args)
  {
    hide ZAdd, ZIncrBy, ZRem, ZPop, NoEmpties, AddsNothing;
    ZAddKeepsIff(env, ks, now, args);
    ZIncrByKeeps(env, ks, now, args);
    RemovalsKeep(env, ks, now, name, args, name == "ZPOPMIN");
  }

  lemma KeyKeeps(ks: Keyspace, now: int, name: string, args: seq<string>)
    requires NoEmpties(ks) && name in KEY_NAMES && !ReadsOnly(name)
    ensures NoEmpties(ApplyKey(ks, now, name, args).0)
  {
    hide ParseSetOptions, DeleteAll;
    DeleteAllRemoves(ks, args);
  }

  lemma LookKeeps(ks: Keyspace, ks': Keyspace, key: string, now: int)
    requires NoEmpties(ks) && Looked(ks, ks', key, now)
    ensures NoEmpties(ks')
  {
  }

  /**
    As long as no key holds an empty list or sorted set, a command leaves it so, unless it is a ZADD that adds nothing
    to a key that is not there, or an LMOVE to nowhere whose destination is not there or goes when its only element is
    taken.
   */
  lemma KeepsNoEmptiesIff(env: Env, ks: Keyspace, now: int, name: string, args: seq<string>)
    requires Registered(name) && NoEmpties(ks)
    ensures NoEmpties(Apply(env, ks, now, name, args).0) <==> !LeavesEmpty(env, ks, now, name, args)
  {
    hide ApplyList, ApplyZSet, ApplyKey, NoEmpties, MoveLeavesEmpty, AddsNothing;
    if ReadsOnly(name) {
      ReadersOnlyLook(env, ks, now, name, args);
      LookKeeps(ks, Apply(env, ks, now, name, args).0, ArgStr(args, 0), now);
    } else if name in LIST_NAMES {
      ListKeepsIff(env, ks, now, name, args);
    } else if name in ZSET_NAMES {
      ZSetKeepsIff(env, ks, now, name, args);
    } else {
      KeyKeeps(ks, now, name, args);
    }
  }

  /** ZADD with a score that cannot be read: an error, and an empty sorted set is left under the key. */
  lemma UnreadableScoreLeavesEmpty(env: Env, now: int)
    requires env.parseScore("x").None?
    ensures ZAdd(env, map[], now, ["z", "x", "m"]) == (map["z" := Entry(Scored([]), None)], NOT_A_FLOAT)
  {
    assert ToUpper("x") == "X";
  }
}
