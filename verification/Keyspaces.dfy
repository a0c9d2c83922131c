/**
  The keyspace as a value, with the lazy expiry of the store: a lapsed key stays until an
  operation happens to look at it. Times are integers; the clock is a parameter.
 */
module Keyspaces {
  import opened Basics
  import opened Pairs

  /** What a key holds: the value types that the modelled commands use. */
  datatype Data = Text(text: string) | Items(items: seq<string>) | Scored(pairs: seq<Pair>)

  datatype Entry = Entry(data: Data, expiry: Option<int>)

  type Keyspace = map<string, Entry>

  /** A deadline has passed once the clock is strictly after it. */
  predicate Expired(e: Entry, now: int) {
    e.expiry.Some? && now > e.expiry.value
  }

  /** The keys that a client can see: those whose deadline has not passed. */
  function Live(ks: Keyspace, now: int): Keyspace {
    map k | k in ks && !Expired(ks[k], now) :: ks[k]
  }

  /** The keyspace after a lookup, which removes the key it looks for if that has lapsed. */
  function Purge(ks: Keyspace, key: string, now: int): Keyspace {
    if key in ks && Expired(ks[key], now) then ks - {key} else ks
  }

  function TypeName(d: Data): string {
    match d
    case Text(_) => "string"
    case Items(_) => "list"
    case Scored(_) => "zset"
  }

  predicate Lapsed(ks: Keyspace, key: string, now: int) {
    key in ks && Expired(ks[key], now)
  }

  /** How many of the keys, with repetitions, are there and have not lapsed. */
  function CountLive(ks: Keyspace, keys: seq<string>, now: int): nat {
    if keys == [] then 0
    else (if keys[0] in ks && !Expired(ks[keys[0]], now) then 1 else 0) + CountLive(ks, keys[1..], now)
  }

  /** The keyspace without the keys, and how many were in the table, lapsed or not. */
  function DeleteAll(ks: Keyspace, keys: seq<string>): (Keyspace, nat) {
    if keys == [] then (ks, 0)
    else
      var (ks', n) := DeleteAll(ks - {keys[0]}, keys[1..]);
      (ks', n + if keys[0] in ks then 1 else 0)
  }

  lemma DeleteOne(ks: Keyspace, key: string)
    ensures DeleteAll(ks, [key]).0 == ks - {key}
  {
    assert [key][1..] == [];
  }

  /** With what is left of the keys to be deleted, and what has been counted, the deletion comes to what it is to be. */
  ghost predicate StillToDelete(start: Keyspace, keys: seq<string>, ks: Keyspace, rest: seq<string>, count: nat) {
    DeleteAll(start, keys) == (DeleteAll(ks, rest).0, DeleteAll(ks, rest).1 + count)
  }

  lemma DeleteNext(start: Keyspace, keys: seq<string>, ks: Keyspace, rest: seq<string>, count: nat)
    requires rest != [] && StillToDelete(start, keys, ks, rest, count)
    ensures StillToDelete(start, keys, ks - {rest[0]}, rest[1..], if rest[0] in ks then count + 1 else count)
  {
  }

  lemma DeleteDone(start: Keyspace, keys: seq<string>, ks: Keyspace, count: nat)
    requires StillToDelete(start, keys, ks, [], count)
    ensures DeleteAll(start, keys) == (ks, count)
  {
  }

  /** The keyspace operations. A glob pattern is the test it stands for. */
  datatype Op =
    | Get(key: string)
    | Set(key: string, entry: Entry)
    | Exists(keys: seq<string>)
    | SetExpiry(key: string, deadline: int)
    | TTL(key: string)
    | Type(key: string)
    | Keys(matches: string -> bool)
    | Size
    | Rename(src: string, dst: string)
    | Flush

  datatype Answer =
    | Found(value: Option<Data>)
    | Number(n: int)
    | Flag(ok: bool)
    | Name(name: string)
    | KeySet(keys: set<string>)
    | Done

  /** What the store does: every operation checks the deadlines it comes across. */
  function Lazy(ks: Keyspace, op: Op, now: int): (Keyspace, Answer) {
    match op
    case Get(key) =>
      var ks' := Purge(ks, key, now);
      (ks', Found(if key in ks' then Some(ks'[key].data) else None))
    case Set(key, entry) => (ks[key := entry], Done)
    case Exists(keys) => (ks, Number(CountLive(ks, keys, now)))
    case SetExpiry(key, deadline) =>
      if key !in ks || Expired(ks[key], now) then (ks, Flag(false))
      else (ks[key := ks[key].(expiry := Some(deadline))], Flag(true))
    case TTL(key) =>
      if key !in ks || Expired(ks[key], now) then (ks, Number(-2))
      else if ks[key].expiry.None? then (ks, Number(-1))
      else (ks, Number(ks[key].expiry.value - now))
    case Type(key) =>
      var ks' := Purge(ks, key, now);
      (ks', Name(if key in ks' then TypeName(ks'[key].data) else "none"))
    case Keys(matches) => (ks, KeySet(set k | k in ks && !Expired(ks[k], now) && matches(k)))
    case Size => (ks, Number(|set k | k in ks && !Expired(ks[k], now)|))
    case Rename(src, dst) =>
      if src !in ks || Expired(ks[src], now) then (ks, Flag(false))
      else ((ks - {src})[dst := ks[src]], Flag(true))
    case Flush => (map[], Done)
  }

  /** The reference: a keyspace from which lapsed keys are gone, so that no operation asks about deadlines. */
  function Eager(ks: Keyspace, op: Op, now: int): (Keyspace, Answer) {
    match op
    case Get(key) => (ks, Found(if key in ks then Some(ks[key].data) else None))
    case Set(key, entry) => (ks[key := entry], Done)
    case Exists(keys) => (ks, Number(CountIn(ks, keys)))
    case SetExpiry(key, deadline) =>
      if key !in ks then (ks, Flag(false)) else (ks[key := ks[key].(expiry := Some(deadline))], Flag(true))
    case TTL(key) =>
      (ks, Number(if key !in ks then -2 else match ks[key].expiry case None => -1 case Some(t) => t - now))
    case Type(key) => (ks, Name(if key in ks then TypeName(ks[key].data) else "none"))
    case Keys(matches) => (ks, KeySet(set k | k in ks && matches(k)))
    case Size => (ks, Number(|ks|))
    case Rename(src, dst) =>
      if src !in ks then (ks, Flag(false)) else ((ks - {src})[dst := ks[src]], Flag(true))
    case Flush => (map[], Done)
  }

  function CountIn(ks: Keyspace, keys: seq<string>): nat {
    if keys == [] then 0 else (if keys[0] in ks then 1 else 0) + CountIn(ks, keys[1..])
  }

  lemma {:induction false} CountsAgree(ks: Keyspace, keys: seq<string>, now: int)
    ensures CountLive(ks, keys, now) == CountIn(Live(ks, now), keys)
  {
    if keys != [] {
      CountsAgree(ks, keys[1..], now);
    }
  }

  /** One operation: the same answer, and from then on the same visible keyspace. */
  lemma LazyStepIsEager(ks: Keyspace, op: Op, now: int, later: int)
    requires now <= later
    ensures Lazy(ks, op, now).1 == Eager(Live(ks, now), op, now).1
    ensures Live(Lazy(ks, op, now).0, later) == Live(Eager(Live(ks, now), op, now).0, later)
  {
    if op.Exists? {
      CountsAgree(ks, op.keys, now);
    }
    if op.Size? {
      assert Live(ks, now).Keys == set k | k in ks && !Expired(ks[k], now);
    }
    LiveLater(ks, now, later);
  }

  /** Nothing that has lapsed comes back by waiting. */
  lemma LiveLater(ks: Keyspace, now: int, later: int)
    requires now <= later
    ensures Live(Live(ks, now), later) == Live(ks, later)
  {
  }

  datatype Timed = Timed(op: Op, now: int)

  ghost predicate ClockRuns(run: seq<Timed>, from: int) {
    (forall i :: 0 <= i < |run| ==> from <= run[i].now) &&
    (forall i, j :: 0 <= i < j < |run| ==> run[i].now <= run[j].now)
  }

  function RunLazy(ks: Keyspace, run: seq<Timed>): (Keyspace, seq<Answer>)
    decreases |run|
  {
    if run == [] then (ks, [])
    else
      var (ks', a) := Lazy(ks, run[0].op, run[0].now);
      var (ks'', more) := RunLazy(ks', run[1..]);
      (ks'', [a] + more)
  }

  /** The reference run: before every operation the keys that have lapsed by then are dropped. */
  function RunEager(ks: Keyspace, run: seq<Timed>): (Keyspace, seq<Answer>)
    decreases |run|
  {
    if run == [] then (ks, [])
    else
      var (ks', a) := Eager(Live(ks, run[0].now), run[0].op, run[0].now);
      var (ks'', more) := RunEager(ks', run[1..]);
      (ks'', [a] + more)
  }

  /**
    Lazy expiry is invisible: over any run with a clock that never goes back, all answers and all that can be seen
    agree.
   */
  lemma {:induction false} LazyExpiryIsInvisible(lazy: Keyspace, eager: Keyspace, run: seq<Timed>, from: int, end: int)
    requires ClockRuns(run, from) && from <= end && forall i :: 0 <= i < |run| ==> run[i].now <= end
    requires Live(lazy, from) == Live(eager, from)
    ensures RunLazy(lazy, run).1 == RunEager(eager, run).1
    ensures Live(RunLazy(lazy, run).0, end) == Live(RunEager(eager, run).0, end)
    decreases |run|
  {
    if run == [] {
      LiveLater(lazy, from, end);
      LiveLater(eager, from, end);
    } else {
      var op, now := run[0].op, run[0].now;
      LiveLater(lazy, from, now);
      LiveLater(eager, from, now);
      LazyStepIsEager(lazy, op, now, now);
      assert ClockRuns(run[1..], now) by {
        assert forall i :: 0 <= i < |run[1..]| ==> run[1..][i] == run[i + 1];
      }
      LazyExpiryIsInvisible(Lazy(lazy, op, now).0, Eager(Live(eager, now), op, now).0, run[1..], now, end);
    }
  }

  /** The operation puts something under the key: it sets it, or renames another to it. */
  predicate Brings(op: Op, key: string) {
    (op.Set? && op.key == key) || (op.Rename? && op.dst == key)
  }

  lemma LazyStepBrings(ks: Keyspace, op: Op, now: int, key: string)
    requires key in Live(Lazy(ks, op, now).0, now) && key !in Live(ks, now)
    ensures Brings(op, key)
  {
  }

  /**
    A key that cannot be seen, because it has lapsed or never was there, is seen later only if an operation has brought
    it.
   */
  lemma {:induction false} LapsedStaysAway(ks: Keyspace, run: seq<Timed>, from: int, end: int, key: string)
    returns (i: nat)
    requires ClockRuns(run, from) && from <= end && forall i :: 0 <= i < |run| ==> run[i].now <= end
    requires key !in Live(ks, from) && key in Live(RunLazy(ks, run).0, end)
    ensures i < |run| && Brings(run[i].op, key)
    decreases |run|
  {
    if run == [] {
      assert false;
    } else {
      var now, ks' := run[0].now, Lazy(ks, run[0].op, run[0].now).0;
      if key in Live(ks', now) {
        LazyStepBrings(ks, run[0].op, now, key);
        i := 0;
      } else {
        assert forall j :: 0 <= j < |run[1..]| ==> run[1..][j] == run[j + 1];
        i := LapsedStaysAway(ks', run[1..], now, end, key);
        i := i + 1;
      }
    }
  }

  // The two operations that do not look at deadlines.

  lemma {:induction false} DeleteAllRemoves(ks: Keyspace, keys: seq<string>)
    ensures DeleteAll(ks, keys).0 == ks - (set k | k in keys)
  {
    if keys == [] {
      assert ks - (set k | k in keys) == ks;
    } else {
      DeleteAllRemoves(ks - {keys[0]}, keys[1..]);
      assert keys == [keys[0]] + keys[1..];
    }
  }

  /**
    Del leaves what can be seen as it should be, but counts lapsed keys: its count is right just when none is named.
   */
  lemma {:induction false} DelCountsLapsedKeys(ks: Keyspace, keys: seq<string>, now: int)
    ensures Live(DeleteAll(ks, keys).0, now) == DeleteAll(Live(ks, now), keys).0
    ensures DeleteAll(ks, keys).1 >= DeleteAll(Live(ks, now), keys).1
    ensures DeleteAll(ks, keys).1 == DeleteAll(Live(ks, now), keys).1 <==> forall k :: k in keys ==> !Lapsed(ks, k, now)
  {
    if keys != [] {
      var ks' := ks - {keys[0]};
      assert Live(ks', now) == Live(ks, now) - {keys[0]};
      DelCountsLapsedKeys(ks', keys[1..], now);
      var first, more := Lapsed(ks, keys[0], now), exists k :: k in keys[1..] && Lapsed(ks', k, now);
      assert first || more <==> exists k :: k in keys && Lapsed(ks, k, now) by {
        assert keys == [keys[0]] + keys[1..];
        if k :| k in keys && Lapsed(ks, k, now) {
          assert k == keys[0] || (k in keys[1..] && Lapsed(ks', k, now));
        }
        if k :| k in keys[1..] && Lapsed(ks', k, now) {
          assert k in keys && Lapsed(ks, k, now);
        }
      }
    }
  }

  /** Two keys, one of them lapsed: both are counted. */
  lemma LapsedKeyIsCounted()
    ensures var ks := map["a" := Entry(Text("x"), Some(5)), "b" := Entry(Text("y"), None)];
            DeleteAll(ks, ["a", "b"]).1 == 2 && DeleteAll(Live(ks, 6), ["a", "b"]).1 == 1
  {
    var ks := map["a" := Entry(Text("x"), Some(5)), "b" := Entry(Text("y"), None)];
    var seen := Live(ks, 6);
    assert ["a", "b"][1..] == ["b"] && ["b"][1..] == [];
    assert "b" in ks - {"a"} && "a" !in seen && "b" in seen - {"a"};
    assert DeleteAll(ks, ["a", "b"]).1 == DeleteAll(ks - {"a"}, ["b"]).1 + 1;
    assert DeleteAll(seen, ["a", "b"]).1 == DeleteAll(seen - {"a"}, ["b"]).1;
  }

  /** RemoveExpiry: a key in the table loses its deadline, whether or not that has passed. */
  function RemoveExpiry(ks: Keyspace, key: string): (Keyspace, bool) {
    if key in ks then (ks[key := ks[key].(expiry := None)], true) else (ks, false)
  }

  /** It acts on what can be seen just when the key has not lapsed; a lapsed key it brings back. */
  lemma RemoveExpiryRevives(ks: Keyspace, key: string, now: int)
    ensures (Live(RemoveExpiry(ks, key).0, now), RemoveExpiry(ks, key).1) == RemoveExpiry(Live(ks, now), key)
            <==> !Lapsed(ks, key, now)
  {
    var (ks', ok) := RemoveExpiry(ks, key);
    if key in ks && !Expired(ks[key], now) {
      assert Live(ks', now) == Live(ks, now)[key := ks[key].(expiry := None)];
    }
  }
}
