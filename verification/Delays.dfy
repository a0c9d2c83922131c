/**
  The same command at an earlier and at a later time: when what can be seen afterwards is the same. Behind it is that
  commands work on what can be seen.
 */
module Delays {
  import opened Basics
  import opened Strings
  import opened Pairs
  import opened ScoreRanges
  import opened Occurrences
  import opened Keyspaces
  import opened CommandSpecs
  import opened Deadlines
  import opened Effects

  /** The key is there and has not lapsed. */
  predicate Seen(ks: Keyspace, key: string, now: int) {
    key in ks && !Expired(ks[key], now)
  }

  /** A key with a deadline is seen up to that moment, and one without always. */
  lemma SeenIff(ks: Keyspace, key: string, now: int)
    ensures Seen(ks, key, now) <==> key in ks && (ks[key].expiry == None || now <= ks[key].expiry.value)
    ensures key in Live(ks, now) <==> Seen(ks, key, now)
  {
  }

  /** The key can be seen at first and has lapsed later. */
  predicate LapsesIn(ks: Keyspace, key: string, now: int, later: int) {
    Seen(ks, key, now) && !Seen(ks, key, later)
  }

  /** The same is seen under the key of the one keyspace at its time and of the other at its. */
  predicate Matches(a: Keyspace, now: int, b: Keyspace, later: int, key: string) {
    (Seen(a, key, now) <==> Seen(b, key, later)) && (Seen(a, key, now) ==> a[key] == b[key])
  }

  ghost predicate Alike(a: Keyspace, b: Keyspace, now: int) {
    Live(a, now) == Live(b, now)
  }

  lemma AlikeIff(a: Keyspace, b: Keyspace, now: int)
    ensures Alike(a, b, now) <==> forall key :: Matches(a, now, b, now, key)
  {
    if Alike(a, b, now) {
      forall key ensures Matches(a, now, b, now, key) {
        assert key in Live(a, now) <==> key in Live(b, now);
        assert key in Live(a, now) ==> Live(a, now)[key] == Live(b, now)[key];
      }
    } else if forall key :: Matches(a, now, b, now, key) {
      forall key ensures key in Live(a, now) <==> key in Live(b, now) {
        assert Matches(a, now, b, now, key);
      }
      forall key | key in Live(a, now) ensures Live(a, now)[key] == Live(b, now)[key] {
        assert Matches(a, now, b, now, key);
      }
      assert false;
    }
  }

  /** What is alike stays so while nothing is done. */
  lemma AlikeLater(a: Keyspace, b: Keyspace, now: int, later: int)
    requires now <= later && Alike(a, b, now)
    ensures Alike(a, b, later)
  {
    LiveLater(a, now, later);
    LiveLater(b, now, later);
  }

  // Commands on one key.

  /** Keyspaces that differ under the key at most. */
  predicate Aside(ks: Keyspace, ks': Keyspace, key: string) {
    forall k :: k in ks.Keys + ks'.Keys && k != key ==> SameAt(ks, ks', k)
  }

  /**
    What a command on one key can do: to a key that can be seen anything but give another deadline; one that cannot be
    seen it makes, without a deadline, if it is one that makes keys.
   */
  predicate Handles(ks: Keyspace, ks': Keyspace, key: string, now: int, makes: bool) {
    && Aside(ks, ks', key)
    && (if Seen(ks, key, now) then key in ks' ==> ks'[key].expiry == ks[key].expiry
        else if makes then key in ks' && ks'[key].expiry.None?
        else !Seen(ks', key, now))
  }

  lemma OnOneKeyIff(ks: Keyspace, a: Keyspace, b: Keyspace, key: string, now: int, later: int, makes: bool)
    requires now <= later && Handles(ks, a, key, now, makes) && Handles(ks, b, key, later, makes)
    requires !LapsesIn(ks, key, now, later) ==> Matches(a, now, b, later, key)
    ensures Alike(a, b, later) <==> !(LapsesIn(ks, key, now, later) && makes)
  {
    AlikeIff(a, b, later);
    forall k | k != key ensures Matches(a, later, b, later, k) {
      assert k in ks.Keys + a.Keys ==> SameAt(ks, a, k);
      assert k in ks.Keys + b.Keys ==> SameAt(ks, b, k);
    }
    assert Alike(a, b, later) <==> Matches(a, later, b, later, key);
  }

  lemma OnOneKeyAlike(a: Keyspace, b: Keyspace, a': Keyspace, b': Keyspace, key: string, now: int)
    requires Alike(a, b, now) && Aside(a, a', key) && Aside(b, b', key) && Matches(a', now, b', now, key)
    ensures Alike(a', b', now)
  {
    AlikeIff(a, b, now);
    AlikeIff(a', b', now);
    forall k ensures Matches(a', now, b', now, k) {
      if k != key {
        assert Matches(a, now, b, now, k);
        assert k in a.Keys + a'.Keys ==> SameAt(a, a', k);
        assert k in b.Keys + b'.Keys ==> SameAt(b, b', k);
      }
    }
  }

  /** A lookup sees what there is to see. */
  lemma PurgeSees(ks: Keyspace, key: string, now: int)
    ensures Purge(ks, key, now) == if Seen(ks, key, now) then ks else ks - {key}
    ensures Aside(ks, Purge(ks, key, now), key) && Aside(ks, ks, key)
  {
    assert key !in ks ==> ks - {key} == ks;
  }

  /** All that commands do to one key. */
  lemma PutsHandle(ks: Keyspace, key: string, now: int, makes: bool)
    ensures makes ==> forall d: Data :: Handles(ks, Put(Purge(ks, key, now), key, d), key, now, makes)
    ensures makes ==> Seen(ks, key, now) ==> Handles(ks, Purge(ks, key, now), key, now, makes)
    ensures Handles(ks, ks, key, now, false) && Handles(ks, Purge(ks, key, now), key, now, false)
    ensures forall d: Data | Seen(ks, key, now) ::
              && Handles(ks, Put(Purge(ks, key, now), key, d), key, now, false)
              && Handles(ks, PutOrDrop(Purge(ks, key, now), key, d), key, now, false)
    ensures Handles(ks, Purge(ks, key, now) - {key}, key, now, false)
  {
    PurgeSees(ks, key, now);
  }

  lemma ListHandles(env: Env, ks: Keyspace, now: int, name: string, args: seq<string>)
    requires name in LIST_NAMES && name !in {"RPOPLPUSH", "LMOVE"} && args != []
    ensures Handles(ks, ApplyList(ks, now, name, args).0, args[0], now, Creates(env, now, name, args))
  {
    hide Removed, InsertAt, Slice, Off, Left, Put, PutOrDrop, Handles;
    PutsHandle(ks, args[0], now, Creates(env, now, name, args));
    PurgeSees(ks, args[0], now);
    hide Purge;
  }

  lemma AddsHandle(env: Env, ks: Keyspace, now: int, args: seq<string>)
    requires args != []
    ensures Handles(ks, ZAdd(env, ks, now, args).0, args[0], now, |args| >= 3)
    ensures Handles(ks, ZIncrBy(env, ks, now, args).0, args[0], now, |args| == 3 && env.parseScore(args[1]).Some?)
  {
    hide ZAdded, AddPair, Put, Handles, Raised;
    PutsHandle(ks, args[0], now, true);
    PurgeSees(ks, args[0], now);
    hide Purge;
  }

  lemma RemovalsHandle(env: Env, ks: Keyspace, now: int, name: string, args: seq<string>, min: bool)
    requires args != []
    ensures Handles(ks, ZRem(ks, now, args).0, args[0], now, false)
    ensures Handles(ks, ZPop(env, ks, now, name, args, min).0, args[0], now, false)
  {
    hide RemoveMembers, PairsReply, Off, Left, PutOrDrop, Handles;
    PutsHandle(ks, args[0], now, false);
    PurgeSees(ks, args[0], now);
    hide Purge;
    if |args| >= 2 && GetPairs(Purge(ks, args[0], now), args[0]).There? {
      var s := GetPairs(Purge(ks, args[0], now), args[0]).value;
      assert Seen(ks, args[0], now);
      var left := RemoveMembers(s, args[1..]).0;
      assert ZRem(ks, now, args).0 == PutOrDrop(Purge(ks, args[0], now), args[0], Scored(left));
    }
  }

  lemma ReadersHandle(env: Env, ks: Keyspace, now: int, name: string, args: seq<string>)
    requires Registered(name) && ReadsOnly(name)
    ensures Handles(ks, Apply(env, ks, now, name, args).0, ArgStr(args, 0), now, false)
  {
    hide Apply, Handles, Purge;
    ReadersOnlyLook(env, ks, now, name, args);
    PutsHandle(ks, ArgStr(args, 0), now, false);
  }

  lemma ZSetHandles(env: Env, ks: Keyspace, now: int, name: string, args: seq<string>)
    requires name in ZSET_NAMES && args != []
    ensures Handles(ks, ApplyZSet(env, ks, now, name, args).0, args[0], now, Creates(env, now, name, args))
  {
    hide ZAdd, ZIncrBy, ZRem, ZPop, ZRange, ZRangeByScore, ZRangeByLex, ZScore, ZCard, ZCount, Handles;
    if name in {"ZADD", "ZINCRBY"} {
      AddsHandle(env, ks, now, args);
    } else if name in {"ZREM", "ZPOPMIN", "ZPOPMAX"} {
      RemovalsHandle(env, ks, now, name, args, name == "ZPOPMIN");
    } else {
      ReadersHandle(env, ks, now, name, args);
    }
  }

  /** Where the same is seen, the same can be done. */
  lemma PutsMatch(a: Keyspace, now: int, b: Keyspace, later: int, key: string)
    requires Matches(a, now, b, later, key)
    ensures var pa, pb := Purge(a, key, now), Purge(b, key, later);
            && SameAt(pa, pb, key) && Matches(pa, now, pb, later, key)
            && (forall d: Data :: Matches(Put(pa, key, d), now, Put(pb, key, d), later, key))
            && (forall d: Data :: Matches(PutOrDrop(pa, key, d), now, PutOrDrop(pb, key, d), later, key))
            && Matches(pa - {key}, now, pb - {key}, later, key)
  {
  }

  /** Both outcomes show the same: under the key, and in the reply. */
  predicate SameOutcome(a: Outcome, now: int, b: Outcome, later: int, key: string) {
    Matches(a.0, now, b.0, later, key) && a.1 == b.1
  }

  lemma PushesSee(a: Keyspace, now: int, b: Keyspace, later: int, name: string, args: seq<string>, atHead: bool)
    requires args != [] && Matches(a, now, b, later, args[0])
    ensures SameOutcome(Push(a, now, name, args, atHead), now, Push(b, later, name, args, atHead), later, args[0])
    ensures SameOutcome(PushX(a, now, name, args, atHead), now, PushX(b, later, name, args, atHead), later, args[0])
  {
    PutsMatch(a, now, b, later, args[0]);
    hide Put, Matches, Purge;
  }

  lemma PopSees(a: Keyspace, now: int, b: Keyspace, later: int, name: string, args: seq<string>, atHead: bool)
    requires args != [] && Matches(a, now, b, later, args[0])
    ensures SameOutcome(Pop(a, now, name, args, atHead), now, Pop(b, later, name, args, atHead), later, args[0])
  {
    PutsMatch(a, now, b, later, args[0]);
    hide Off, Left, PutOrDrop, Matches, Purge;
  }

  lemma ListReadersSee(a: Keyspace, now: int, b: Keyspace, later: int, args: seq<string>)
    requires args != [] && Matches(a, now, b, later, args[0])
    ensures SameOutcome(LLen(a, now, args), now, LLen(b, later, args), later, args[0])
    ensures SameOutcome(LIndex(a, now, args), now, LIndex(b, later, args), later, args[0])
    ensures SameOutcome(LRange(a, now, args), now, LRange(b, later, args), later, args[0])
  {
    PutsMatch(a, now, b, later, args[0]);
    hide Slice, Matches, Purge;
  }

  lemma ListEditsSee(a: Keyspace, now: int, b: Keyspace, later: int, args: seq<string>)
    requires args != [] && Matches(a, now, b, later, args[0])
    ensures SameOutcome(LSet(a, now, args), now, LSet(b, later, args), later, args[0])
    ensures SameOutcome(LInsert(a, now, args), now, LInsert(b, later, args), later, args[0])
  {
    PutsMatch(a, now, b, later, args[0]);
    hide InsertAt, Put, PutOrDrop, Matches, Purge;
  }

  lemma ListCutsSee(a: Keyspace, now: int, b: Keyspace, later: int, args: seq<string>)
    requires args != [] && Matches(a, now, b, later, args[0])
    ensures SameOutcome(LRem(a, now, args), now, LRem(b, later, args), later, args[0])
    ensures SameOutcome(LTrim(a, now, args), now, LTrim(b, later, args), later, args[0])
  {
    PutsMatch(a, now, b, later, args[0]);
    hide Removed, Slice, Put, PutOrDrop, Matches, Purge;
  }

  lemma ListSees(a: Keyspace, now: int, b: Keyspace, later: int, name: string, args: seq<string>)
    requires name in LIST_NAMES && name !in {"RPOPLPUSH", "LMOVE"} && args != []
    requires Matches(a, now, b, later, args[0])
    ensures SameOutcome(ApplyList(a, now, name, args), now, ApplyList(b, later, name, args), later, args[0])
  {
    hide Push, PushX, Pop, LLen, LRange, LIndex, LSet, LInsert, LRem, LTrim, SameOutcome, Matches;
    var atHead := name == "LPUSH" || name == "LPUSHX" || name == "LPOP";
    if name in {"LPUSH", "RPUSH", "LPUSHX", "RPUSHX"} {
      PushesSee(a, now, b, later, name, args, atHead);
    } else if name in {"LPOP", "RPOP"} {
      PopSees(a, now, b, later, name, args, atHead);
    } else if name in {"LLEN", "LRANGE", "LINDEX"} {
      ListReadersSee(a, now, b, later, args);
    } else {
      ListEditsSee(a, now, b, later, args);
      ListCutsSee(a, now, b, later, args);
    }
  }

  lemma AddsSee(env: Env, a: Keyspace, now: int, b: Keyspace, later: int, args: seq<string>)
    requires args != [] && Matches(a, now, b, later, args[0])
    ensures SameOutcome(ZAdd(env, a, now, args), now, ZAdd(env, b, later, args), later, args[0])
    ensures SameOutcome(ZIncrBy(env, a, now, args), now, ZIncrBy(env, b, later, args), later, args[0])
  {
    PutsMatch(a, now, b, later, args[0]);
    hide ZAdded, AddPair, Raised, Put, Matches, Purge;
  }

  lemma RemovalsSee(env: Env, a: Keyspace, now: int, b: Keyspace, later: int, name: string, args: seq<string>,
                    min: bool)
    requires args != [] && Matches(a, now, b, later, args[0])
    ensures SameOutcome(ZRem(a, now, args), now, ZRem(b, later, args), later, args[0])
    ensures SameOutcome(ZPop(env, a, now, name, args, min), now, ZPop(env, b, later, name, args, min), later, args[0])
  {
    PutsMatch(a, now, b, later, args[0]);
    hide RemoveMembers, PairsReply, Off, Left, PutOrDrop, Matches, Purge;
  }

  lemma RangesSee(env: Env, a: Keyspace, now: int, b: Keyspace, later: int, name: string, args: seq<string>,
                  reverse: bool)
    requires args != [] && Matches(a, now, b, later, args[0])
    ensures SameOutcome(ZRange(env, a, now, name, args, reverse), now,
                        ZRange(env, b, later, name, args, reverse), later, args[0])
    ensures SameOutcome(ZRangeByScore(env, a, now, name, args, reverse), now,
                        ZRangeByScore(env, b, later, name, args, reverse), later, args[0])
  {
    PutsMatch(a, now, b, later, args[0]);
    hide RangeReply, ScoreRangeReply, Matches, Purge;
  }

  lemma ZSetReadersSee(env: Env, a: Keyspace, now: int, b: Keyspace, later: int, args: seq<string>)
    requires args != [] && Matches(a, now, b, later, args[0])
    ensures SameOutcome(ZScore(env, a, now, args), now, ZScore(env, b, later, args), later, args[0])
    ensures SameOutcome(ZCount(env, a, now, args), now, ZCount(env, b, later, args), later, args[0])
    ensures SameOutcome(ZCard(a, now, args), now, ZCard(b, later, args), later, args[0])
    ensures SameOutcome(ZRangeByLex(a, now, args), now, ZRangeByLex(b, later, args), later, args[0])
  {
    PutsMatch(a, now, b, later, args[0]);
    hide LexMembers, InScores, Matches, Purge;
  }

  lemma ZSetSees(env: Env, a: Keyspace, now: int, b: Keyspace, later: int, name: string, args: seq<string>)
    requires name in ZSET_NAMES && args != []
    requires Matches(a, now, b, later, args[0])
    ensures SameOutcome(ApplyZSet(env, a, now, name, args), now, ApplyZSet(env, b, later, name, args), later, args[0])
  {
    hide ZAdd, ZIncrBy, ZRem, ZPop, ZRange, ZRangeByScore, ZRangeByLex, ZScore, ZCard, ZCount, SameOutcome, Matches;
    if name in {"ZADD", "ZINCRBY"} {
      AddsSee(env, a, now, b, later, args);
    } else if name in {"ZREM", "ZPOPMIN", "ZPOPMAX"} {
      RemovalsSee(env, a, now, b, later, name, args, name == "ZPOPMIN");
    } else if name in {"ZRANGE", "ZREVRANGE", "ZRANGEBYSCORE", "ZREVRANGEBYSCORE"} {
      RangesSee(env, a, now, b, later, name, args, name == "ZREVRANGE" || name == "ZREVRANGEBYSCORE");
    } else {
      ZSetReadersSee(env, a, now, b, later, args);
    }
  }

  // Moving an element.

  lemma DeliverHandles(ks: Keyspace, now: int, key: string, v: string, to: Option<bool>)
    ensures Handles(ks, Deliver(ks, now, key, v, to).0, key, now, true)
  {
    PutsHandle(ks, key, now, true);
    PurgeSees(ks, key, now);
    hide Purge, Put, Handles;
  }

  lemma DeliverSees(a: Keyspace, now: int, b: Keyspace, later: int, key: string, v: string, to: Option<bool>)
    requires Matches(a, now, b, later, key)
    ensures SameOutcome(Deliver(a, now, key, v, to), now, Deliver(b, later, key, v, to), later, key)
  {
    PutsMatch(a, now, b, later, key);
    hide Put, Matches, Purge;
  }

  lemma DeliverDelayedIff(ks: Keyspace, now: int, later: int, key: string, v: string, to: Option<bool>)
    requires now <= later
    ensures Alike(Deliver(ks, now, key, v, to).0, Deliver(ks, later, key, v, to).0, later)
            <==> !LapsesIn(ks, key, now, later)
  {
    hide Deliver, Handles, Alike;
    DeliverHandles(ks, now, key, v, to);
    DeliverHandles(ks, later, key, v, to);
    if !LapsesIn(ks, key, now, later) {
      DeliverSees(ks, now, ks, later, key, v, to);
    }
    OnOneKeyIff(ks, Deliver(ks, now, key, v, to).0, Deliver(ks, later, key, v, to).0, key, now, later, true);
  }

  /** The source can be seen both times: it depends on the destination. */
  lemma MoveInTime(ks: Keyspace, now: int, later: int, src: string, s: seq<string>, dst: string, fromHead: bool,
                   to: Option<bool>)
    requires now <= later && Seen(ks, src, later) && s != []
    ensures Alike(Move(ks, now, src, s, dst, fromHead, to).0, Move(ks, later, src, s, dst, fromHead, to).0, later)
            <==> src == dst || !LapsesIn(ks, dst, now, later)
  {
    hide Deliver, Alike, Off, Left;
    EndAndRest(s, fromHead);
    var ks1 := PutOrDrop(ks, src, Items(Left(s, 1, fromHead)));
    DeliverDelayedIff(ks1, now, later, dst, Off(s, 1, fromHead)[0], to);
    assert LapsesIn(ks1, dst, now, later) <==> src != dst && LapsesIn(ks, dst, now, later);
  }

  /** Whether a move at `now` shows, when the source has lapsed by a later time. */
  predicate MoveShows(ks: Keyspace, now: int, later: int, src: string, s: seq<string>, dst: string, to: Option<bool>) {
    if src == dst then |s| == 1
    else !Seen(ks, dst, now) || (Seen(ks, dst, later) && ks[dst].data.Items? && to.Some?)
  }

  lemma DeliveryChangesIff(ks: Keyspace, now: int, key: string, v: string, to: Option<bool>)
    requires Seen(ks, key, now)
    ensures var ks' := Deliver(ks, now, key, v, to).0;
            key in ks' && (ks'[key] == ks[key] <==> !(ks[key].data.Items? && to.Some?))
  {
    if ks[key].data.Items? {
      var s := ks[key].data.items;
      assert |[v] + s| == |s + [v]| == |s| + 1;
    }
  }

  lemma AlikeAsideIff(a: Keyspace, b: Keyspace, key: string, now: int)
    requires Aside(a, b, key)
    ensures Alike(a, b, now) <==> Matches(a, now, b, now, key)
  {
    AlikeIff(a, b, now);
    forall k | k != key ensures Matches(a, now, b, now, k) {
      assert k in a.Keys + b.Keys ==> SameAt(a, b, k);
    }
  }

  lemma MoveAwayShowsIff(ks: Keyspace, now: int, later: int, src: string, s: seq<string>, dst: string, fromHead: bool,
                         to: Option<bool>)
    requires now <= later && LapsesIn(ks, src, now, later) && s != [] && src != dst
    ensures Alike(Move(ks, now, src, s, dst, fromHead, to).0, ks, later)
            <==> !MoveShows(ks, now, later, src, s, dst, to)
  {
    hide Deliver, Off, Left, Alike;
    EndAndRest(s, fromHead);
    var v := Off(s, 1, fromHead)[0];
    var ks1 := PutOrDrop(ks, src, Items(Left(s, 1, fromHead)));
    var ks2 := Deliver(ks1, now, dst, v, to).0;
    AlikeAsideIff(ks1, ks, src, later);
    DeliverHandles(ks1, now, dst, v, to);
    AlikeAsideIff(ks1, ks2, dst, later);
    AlikeTrans(ks2, ks1, ks, later);
    if Seen(ks, dst, now) {
      DeliveryChangesIff(ks1, now, dst, v, to);
    }
  }

  lemma AlikeTrans(a: Keyspace, b: Keyspace, c: Keyspace, now: int)
    requires Alike(b, c, now)
    ensures Alike(a, c, now) <==> Alike(a, b, now)
    ensures Alike(a, b, now) <==> Alike(b, a, now)
  {
  }

  lemma UpdateAside(ks: Keyspace, key: string, e: Entry)
    ensures Aside(ks[key := e], ks, key)
  {
  }

  lemma MoveToSelfShowsIff(ks: Keyspace, now: int, later: int, key: string, s: seq<string>, fromHead: bool,
                           to: Option<bool>)
    requires LapsesIn(ks, key, now, later) && ks[key].data == Items(s) && s != []
    ensures Alike(Move(ks, now, key, s, key, fromHead, to).0, ks, later) <==> |s| > 1
  {
    hide Deliver, Off, Left, Alike, PutOrDrop, Aside, SameAt;
    EndAndRest(s, fromHead);
    var ks' := Move(ks, now, key, s, key, fromHead, to).0;
    DeliverToSelf(ks, now, key, Left(s, 1, fromHead), Off(s, 1, fromHead)[0], to);
    UpdateAside(ks, key, ks'[key]);
    AlikeAsideIff(ks', ks, key, later);
  }

  lemma MoveTooLateIff(ks: Keyspace, now: int, later: int, src: string, s: seq<string>, dst: string, fromHead: bool,
                       to: Option<bool>)
    requires now <= later && LapsesIn(ks, src, now, later) && ks[src].data == Items(s) && s != []
    ensures Alike(Move(ks, now, src, s, dst, fromHead, to).0, ks, later)
            <==> !MoveShows(ks, now, later, src, s, dst, to)
  {
    hide Move, Alike;
    if src == dst {
      MoveToSelfShowsIff(ks, now, later, src, s, fromHead, to);
    } else {
      MoveAwayShowsIff(ks, now, later, src, s, dst, fromHead, to);
    }
  }

  /** Whether one element moved from src to dst later is not what it is at `now`. */
  predicate MoveDelayed(ks: Keyspace, now: int, later: int, src: string, dst: string, to: Option<bool>) {
    && Seen(ks, src, now) && ks[src].data.Items? && ks[src].data.items != []
    && (if LapsesIn(ks, src, now, later) then MoveShows(ks, now, later, src, ks[src].data.items, dst, to)
        else src != dst && LapsesIn(ks, dst, now, later))
  }

  /** The two commands that move are alike once the list is found. */
  lemma MoveDelayedIff(ks: Keyspace, now: int, later: int, src: string, dst: string, fromHead: bool, to: Option<bool>)
    requires now <= later
    ensures var a := MoveFrom(ks, now, src, dst, fromHead, to);
            var b := MoveFrom(ks, later, src, dst, fromHead, to);
            Alike(a, b, later) <==> !MoveDelayed(ks, now, later, src, dst, to)
  {
    hide Move, Alike, MoveShows;
    PurgeSees(ks, src, now);
    PurgeSees(ks, src, later);
    hide Purge;
    AlikeAsideIff(ks, Purge(ks, src, later), src, later);
    LookedAlike(ks, src, now, later);
    NothingMoved(ks, now, src, dst, fromHead, to);
    NothingMoved(ks, later, src, dst, fromHead, to);
    if Seen(ks, src, now) && ks[src].data.Items? && ks[src].data.items != [] {
      var s := ks[src].data.items;
      if LapsesIn(ks, src, now, later) {
        MoveTooLateIff(ks, now, later, src, s, dst, fromHead, to);
        AlikeTrans(Move(ks, now, src, s, dst, fromHead, to).0, ks, Purge(ks, src, later), later);
      } else {
        MoveInTime(ks, now, later, src, s, dst, fromHead, to);
      }
    }
  }

  lemma NothingMoved(ks: Keyspace, now: int, src: string, dst: string, fromHead: bool, to: Option<bool>)
    ensures Move(ks, now, src, [], dst, fromHead, to).0 == ks
    ensures Move(ks - {src}, now, src, [], dst, fromHead, to).0 == ks - {src}
  {
  }

  /** RPOPLPUSH, and LMOVE from a direction: what becomes of the keyspace. */
  function MoveFrom(ks0: Keyspace, now: int, src: string, dst: string, fromHead: bool, to: Option<bool>): Keyspace {
    var ks := Purge(ks0, src, now);
    match GetItems(ks, src)
    case There(s) => Move(ks, now, src, s, dst, fromHead, to).0
    case _ => ks
  }

  // SET and RENAME.

  /** SET with these options stores. */
  predicate Stores(ks: Keyspace, key: string, now: int, o: SetOptions) {
    !(o.nx && Seen(ks, key, now)) && !(o.xx && !Seen(ks, key, now))
  }

  /**
    SET stores at one time and not at the other something that is still to be seen later, or at both with deadlines
    that depend on the clock.
   */
  predicate SetDelayed(ks: Keyspace, now: int, later: int, args: seq<string>) {
    && |args| >= 2
    && match (ParseSetOptions(args, 2, now, NO_OPTIONS), ParseSetOptions(args, 2, later, NO_OPTIONS))
       case (Ok(o), Ok(o')) =>
         var first, second := Stores(ks, args[0], now, o), Stores(ks, args[0], later, o');
         if first && second then now != later && !Absolute(args)
         else (first && !Expired(Entry(Text(args[1]), o.expiry), later)) ||
              (second && !Expired(Entry(Text(args[1]), o'.expiry), later))
       case _ => false
  }

  predicate SetLeaves(ks: Keyspace, ks': Keyspace, now: int, args: seq<string>, o: SetOptions)
    requires |args| > 1
  {
    && Aside(ks, ks', args[0])
    && (if Stores(ks, args[0], now, o) then args[0] in ks' && ks'[args[0]] == Entry(Text(args[1]), o.expiry)
        else Matches(ks, now, ks', now, args[0]) && (args[0] in ks' ==> SameAt(ks, ks', args[0])))
  }

  lemma SetDoes(ks: Keyspace, now: int, args: seq<string>)
    ensures var ks', r := SetText(ks, now, args).0, ParseSetOptions(args, 2, now, NO_OPTIONS);
            if |args| < 2 || r.Err? then ks' == ks else SetLeaves(ks, ks', now, args, r.value)
  {
    hide ParseSetOptions;
    PurgeSees(ks, ArgStr(args, 0), now);
  }

  lemma AsideBoth(ks: Keyspace, a: Keyspace, b: Keyspace, key: string)
    requires Aside(ks, a, key) && Aside(ks, b, key)
    ensures Aside(a, b, key)
  {
    forall k | k in a.Keys + b.Keys && k != key ensures SameAt(a, b, k) {
      assert k in ks.Keys + a.Keys ==> SameAt(ks, a, k);
      assert k in ks.Keys + b.Keys ==> SameAt(ks, b, k);
    }
  }

  /** A deadline that is given as a duration lies ahead. */
  lemma {:induction false} DurationIsAhead(args: seq<string>, i: nat, now: int, o: SetOptions)
    requires LastExpiry(args, i) in {Some("EX"), Some("PX")} && ParseSetOptions(args, i, now, o).Ok?
    ensures var o' := ParseSetOptions(args, i, now, o).value; o'.expiry.Some? && now < o'.expiry.value
    decreases |args| - i
  {
    hide ParseInt, ToUpper;
    var opt := ToUpper(args[i]);
    if IsExpiryOption(opt) {
      var d := Deadline(opt, args[i + 1], now);
      if LastExpiry(args, i + 2).Some? {
        DurationIsAhead(args, i + 2, now, o.(expiry := d));
      } else {
        OptionsReadAlike(args, i + 2, now, now, o.(expiry := d), o.(expiry := d));
      }
    } else if opt == "NX" {
      DurationIsAhead(args, i + 1, now, o.(nx := true));
    } else if opt == "XX" {
      DurationIsAhead(args, i + 1, now, o.(xx := true));
    } else {
      DurationIsAhead(args, i + 1, now, o);
    }
  }

  lemma NotAbsolute(args: seq<string>)
    ensures !Absolute(args) <==> LastExpiry(args, 2) in {Some("EX"), Some("PX")}
  {
  }

  lemma SetDelayedIff(ks: Keyspace, now: int, later: int, args: seq<string>)
    requires now <= later
    ensures Alike(SetText(ks, now, args).0, SetText(ks, later, args).0, later) <==> !SetDelayed(ks, now, later, args)
  {
    hide SetText, ParseSetOptions, Alike, Absolute, Aside, LastExpiry;
    NotAbsolute(args);
    SetDoes(ks, now, args);
    SetDoes(ks, later, args);
    AlikeSelf(ks, later);
    if |args| >= 2 {
      OptionsReadAlike(args, 2, now, later, NO_OPTIONS, NO_OPTIONS);
      if ParseSetOptions(args, 2, now, NO_OPTIONS).Ok? {
        OptionsIgnoreClockIff(args, now, later);
        if !Absolute(args) {
          DurationIsAhead(args, 2, later, NO_OPTIONS);
        }
        AsideBoth(ks, SetText(ks, now, args).0, SetText(ks, later, args).0, args[0]);
        AlikeAsideIff(SetText(ks, now, args).0, SetText(ks, later, args).0, args[0], later);
      }
    }
  }

  predicate RenameDelayed(ks: Keyspace, now: int, later: int, args: seq<string>) {
    |args| == 2 && args[0] != args[1] && LapsesIn(ks, args[0], now, later) && Seen(ks, args[1], later)
  }

  lemma RenameDelayedIff(ks: Keyspace, now: int, later: int, args: seq<string>)
    requires now <= later
    ensures Alike(RenameKey(ks, now, args).0, RenameKey(ks, later, args).0, later)
            <==> !RenameDelayed(ks, now, later, args)
  {
    if |args| == 2 && LapsesIn(ks, args[0], now, later) {
      var ks' := RenameKey(ks, now, args).0;
      assert Aside(ks' - {args[0]}, ks - {args[0]}, args[1]);
      AlikeAsideIff(ks' - {args[0]}, ks - {args[0]}, args[1], later);
      AlikeAsideIff(ks', ks' - {args[0]}, args[0], later);
      AlikeAsideIff(ks, ks - {args[0]}, args[0], later);
    }
  }

  // All commands.

  /**
    A command is done too late: it would have made a key that has lapsed in the meantime anew, its source is gone, or
    it gives another deadline.
   */
  predicate Delayed(env: Env, ks: Keyspace, now: int, later: int, name: string, args: seq<string>) {
    match name
    case "RPOPLPUSH" => |args| == 2 && MoveDelayed(ks, now, later, args[0], args[1], Some(true))
    case "LMOVE" =>
      |args| == 4 && Direction(args[2]).Some? && MoveDelayed(ks, now, later, args[0], args[1], Direction(args[3]))
    case "SET" => SetDelayed(ks, now, later, args)
    case "RENAME" => RenameDelayed(ks, now, later, args)
    case _ => args != [] && LapsesIn(ks, args[0], now, later) && Creates(env, now, name, args)
  }

  lemma MovesDelayedIff(env: Env, ks: Keyspace, now: int, later: int, name: string, args: seq<string>)
    requires now <= later && name in {"RPOPLPUSH", "LMOVE"}
    ensures Alike(ApplyList(ks, now, name, args).0, ApplyList(ks, later, name, args).0, later)
            <==> !Delayed(env, ks, now, later, name, args)
  {
    hide Move, MoveDelayed, Alike;
    AlikeSelf(ks, later);
    if name == "RPOPLPUSH" && |args| == 2 {
      MoveDelayedIff(ks, now, later, args[0], args[1], false, Some(true));
    } else if name == "LMOVE" && |args| == 4 {
      var from, to := Direction(args[2]), Direction(args[3]);
      MoveDelayedIff(ks, now, later, args[0], args[1], from == Some(true), to);
      if from.None? {
        LookedAlike(ks, args[0], now, later);
      }
    }
  }

  lemma LookedAlike(ks: Keyspace, key: string, now: int, later: int)
    requires now <= later
    ensures Alike(Purge(ks, key, now), Purge(ks, key, later), later)
  {
  }

  lemma NothingListed(ks: Keyspace, now: int, name: string)
    requires name in LIST_NAMES
    ensures ApplyList(ks, now, name, []).0 == ks
  {
  }

  lemma ListDelayedIff(env: Env, ks: Keyspace, now: int, later: int, name: string, args: seq<string>)
    requires now <= later && name in LIST_NAMES
    ensures Alike(ApplyList(ks, now, name, args).0, ApplyList(ks, later, name, args).0, later)
            <==> !Delayed(env, ks, now, later, name, args)
  {
    hide Alike, Handles, LapsesIn, ApplyList, MoveDelayed;
    AlikeSelf(ks, later);
    NothingListed(ks, now, name);
    NothingListed(ks, later, name);
    if name in {"RPOPLPUSH", "LMOVE"} {
      MovesDelayedIff(env, ks, now, later, name, args);
    } else if args != [] {
      ListHandles(env, ks, now, name, args);
      ListHandles(env, ks, later, name, args);
      OnSeenOrLapsed(ks, args[0], now, later);
      if !LapsesIn(ks, args[0], now, later) {
        ListSees(ks, now, ks, later, name, args);
      }
      OnOneKeyIff(ks, ApplyList(ks, now, name, args).0, ApplyList(ks, later, name, args).0, args[0], now, later,
                  Creates(env, now, name, args));
    }
  }

  lemma OnSeenOrLapsed(ks: Keyspace, key: string, now: int, later: int)
    requires now <= later
    ensures !LapsesIn(ks, key, now, later) ==> Matches(ks, now, ks, later, key)
  {
  }

  lemma ZSetDelayedIff(env: Env, ks: Keyspace, now: int, later: int, name: string, args: seq<string>)
    requires now <= later && name in ZSET_NAMES
    ensures Alike(ApplyZSet(env, ks, now, name, args).0, ApplyZSet(env, ks, later, name, args).0, later)
            <==> !Delayed(env, ks, now, later, name, args)
  {
    hide Alike, Handles, LapsesIn;
    AlikeSelf(ks, later);
    if args != [] {
      hide ApplyZSet;
      ZSetHandles(env, ks, now, name, args);
      ZSetHandles(env, ks, later, name, args);
      OnSeenOrLapsed(ks, args[0], now, later);
      if !LapsesIn(ks, args[0], now, later) {
        ZSetSees(env, ks, now, ks, later, name, args);
      }
      OnOneKeyIff(ks, ApplyZSet(env, ks, now, name, args).0, ApplyZSet(env, ks, later, name, args).0, args[0], now,
                  later, Creates(env, now, name, args));
    }
  }

  lemma KeyDelayedIff(env: Env, ks: Keyspace, now: int, later: int, name: string, args: seq<string>)
    requires now <= later && name in KEY_NAMES
    ensures Alike(ApplyKey(ks, now, name, args).0, ApplyKey(ks, later, name, args).0, later)
            <==> !Delayed(env, ks, now, later, name, args)
  {
    hide Alike, SetText, RenameKey, DelKeys, SetDelayed, RenameDelayed, Purge;
    SetDelayedIff(ks, now, later, args);
    RenameDelayedIff(ks, now, later, args);
    LookedAlike(ks, ArgStr(args, 0), now, later);
    AlikeSelf(ks, later);
    AlikeSelf(DelKeys(ks, args).0, later);
  }

  lemma AlikeSelf(ks: Keyspace, now: int)
    ensures Alike(ks, ks, now)
  {
  }

  /** The same command later leaves the same to be seen, just when it is not too late for it. */
  lemma DelayedIff(env: Env, ks: Keyspace, now: int, later: int, name: string, args: seq<string>)
    requires Registered(name) && now <= later
    ensures Live(Apply(env, ks, now, name, args).0, later) == Live(Apply(env, ks, later, name, args).0, later)
            <==> !Delayed(env, ks, now, later, name, args)
  {
    hide ApplyList, ApplyZSet, ApplyKey, Delayed;
    if name in LIST_NAMES {
      ListDelayedIff(env, ks, now, later, name, args);
    } else if name in ZSET_NAMES {
      ZSetDelayedIff(env, ks, now, later, name, args);
    } else {
      KeyDelayedIff(env, ks, now, later, name, args);
    }
  }

  // Commands work on what can be seen.

  lemma AlikeAt(a: Keyspace, b: Keyspace, now: int, key: string)
    requires Alike(a, b, now)
    ensures Matches(a, now, b, now, key)
  {
    AlikeIff(a, b, now);
  }

  lemma DeliverAlike(a: Keyspace, b: Keyspace, now: int, key: string, v: string, to: Option<bool>)
    requires Alike(a, b, now)
    ensures var (a', r), (b', r') := Deliver(a, now, key, v, to), Deliver(b, now, key, v, to);
            Alike(a', b', now) && r == r'
  {
    hide Deliver, Alike, Matches;
    DeliverHandles(a, now, key, v, to);
    DeliverHandles(b, now, key, v, to);
    AlikeAt(a, b, now, key);
    DeliverSees(a, now, b, now, key, v, to);
    OnOneKeyAlike(a, b, Deliver(a, now, key, v, to).0, Deliver(b, now, key, v, to).0, key, now);
  }

  lemma PutsAlike(a: Keyspace, b: Keyspace, now: int, key: string)
    requires Alike(a, b, now)
    ensures var pa, pb := Purge(a, key, now), Purge(b, key, now);
            && Alike(pa, pb, now) && SameAt(pa, pb, key)
            && forall d: Data :: Alike(PutOrDrop(pa, key, d), PutOrDrop(pb, key, d), now)
  {
    AlikeAt(a, b, now, key);
    PutsMatch(a, now, b, now, key);
    PurgeSees(a, key, now);
    PurgeSees(b, key, now);
    var pa, pb := Purge(a, key, now), Purge(b, key, now);
    hide Purge, Alike, Matches;
    OnOneKeyAlike(a, b, pa, pb, key, now);
    forall d: Data ensures Alike(PutOrDrop(pa, key, d), PutOrDrop(pb, key, d), now) {
      OnOneKeyAlike(pa, pb, PutOrDrop(pa, key, d), PutOrDrop(pb, key, d), key, now);
    }
  }

  lemma MovesAlike(a: Keyspace, b: Keyspace, now: int, name: string, args: seq<string>)
    requires Alike(a, b, now) && name in {"RPOPLPUSH", "LMOVE"}
    ensures var (a', r), (b', r') := ApplyList(a, now, name, args), ApplyList(b, now, name, args);
            Alike(a', b', now) && r == r'
  {
    hide Deliver, Alike, Left, Off, Purge, PutOrDrop;
    if |args| >= 2 {
      var src, pa, pb := args[0], Purge(a, args[0], now), Purge(b, args[0], now);
      PutsAlike(a, b, now, src);
      if GetItems(pa, src).There? && GetItems(pa, src).value != [] {
        var s := GetItems(pa, src).value;
        forall fromHead: bool, to: Option<bool>
          ensures var (a', r), (b', r') := Move(pa, now, src, s, args[1], fromHead, to),
                                           Move(pb, now, src, s, args[1], fromHead, to);
                  Alike(a', b', now) && r == r'
        {
          EndAndRest(s, fromHead);
          var d := Items(Left(s, 1, fromHead));
          DeliverAlike(PutOrDrop(pa, src, d), PutOrDrop(pb, src, d), now, args[1], Off(s, 1, fromHead)[0], to);
        }
      }
    }
  }

  lemma ListsAlike(env: Env, a: Keyspace, b: Keyspace, now: int, name: string, args: seq<string>)
    requires Alike(a, b, now) && name in LIST_NAMES
    ensures var (a', r), (b', r') := ApplyList(a, now, name, args), ApplyList(b, now, name, args);
            Alike(a', b', now) && r == r'
  {
    hide Alike, Matches;
    if name in {"RPOPLPUSH", "LMOVE"} {
      MovesAlike(a, b, now, name, args);
    } else if args != [] {
      hide ApplyList;
      ListHandles(env, a, now, name, args);
      ListHandles(env, b, now, name, args);
      AlikeAt(a, b, now, args[0]);
      ListSees(a, now, b, now, name, args);
      OnOneKeyAlike(a, b, ApplyList(a, now, name, args).0, ApplyList(b, now, name, args).0, args[0], now);
    }
  }

  lemma ZSetsAlike(env: Env, a: Keyspace, b: Keyspace, now: int, name: string, args: seq<string>)
    requires Alike(a, b, now) && name in ZSET_NAMES
    ensures var (a', r), (b', r') := ApplyZSet(env, a, now, name, args), ApplyZSet(env, b, now, name, args);
            Alike(a', b', now) && r == r'
  {
    hide Alike, Matches;
    if args != [] {
      hide ApplyZSet;
      ZSetHandles(env, a, now, name, args);
      ZSetHandles(env, b, now, name, args);
      AlikeAt(a, b, now, args[0]);
      ZSetSees(env, a, now, b, now, name, args);
      OnOneKeyAlike(a, b, ApplyZSet(env, a, now, name, args).0, ApplyZSet(env, b, now, name, args).0, args[0], now);
    }
  }

  lemma SetAlike(a: Keyspace, b: Keyspace, now: int, args: seq<string>)
    requires Alike(a, b, now)
    ensures var (a', r), (b', r') := SetText(a, now, args), SetText(b, now, args); Alike(a', b', now) && r == r'
  {
    hide ParseSetOptions, Alike;
    if |args| >= 2 {
      AlikeAt(a, b, now, args[0]);
      PurgeSees(a, args[0], now);
      PurgeSees(b, args[0], now);
      SetDoes(a, now, args);
      SetDoes(b, now, args);
      if ParseSetOptions(args, 2, now, NO_OPTIONS).Ok? {
        OnOneKeyAlike(a, b, SetText(a, now, args).0, SetText(b, now, args).0, args[0], now);
      }
    }
  }

  lemma KeysAlike(a: Keyspace, b: Keyspace, now: int, name: string, args: seq<string>)
    requires Alike(a, b, now) && name in KEY_NAMES
    ensures var (a', r), (b', r') := ApplyKey(a, now, name, args), ApplyKey(b, now, name, args);
            Alike(a', b', now) && (name != "DEL" ==> r == r')
  {
    hide SetText, DeleteAll, Lazy, Eager;
    match name {
      case "SET" => SetAlike(a, b, now, args);
      case "GET" =>
        if args != [] {
          PutsAlike(a, b, now, args[0]);
          hide Purge, Alike;
        }
      case "DEL" =>
        DelCountsLapsedKeys(a, args, now);
        DelCountsLapsedKeys(b, args, now);
      case _ =>
        if |args| == 2 {
          LazyStepIsEager(a, Op.Rename(args[0], args[1]), now, now);
          LazyStepIsEager(b, Op.Rename(args[0], args[1]), now, now);
        }
    }
  }

  /**
    Commands work on what can be seen: where that is the same they leave the same to be seen, and reply the same unless
    they are a DEL, which counts lapsed keys.
   */
  lemma LapsedKeysAreInvisible(env: Env, a: Keyspace, b: Keyspace, now: int, name: string, args: seq<string>)
    requires Registered(name) && Live(a, now) == Live(b, now)
    ensures var (a', r), (b', r') := Apply(env, a, now, name, args), Apply(env, b, now, name, args);
            Live(a', now) == Live(b', now) && (name != "DEL" ==> r == r')
  {
    hide ApplyList, ApplyZSet, ApplyKey;
    if name in LIST_NAMES {
      ListsAlike(env, a, b, now, name, args);
    } else if name in ZSET_NAMES {
      ZSetsAlike(env, a, b, now, name, args);
    } else {
      KeysAlike(a, b, now, name, args);
    }
  }
}
