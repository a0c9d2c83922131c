/** What each list command does, told from its name and its arguments alone. */
module ListPromises {
  import opened Basics
  import opened Strings
  import opened Occurrences
  import opened Resp
  import opened Keyspaces
  import opened CommandSpecs
  import opened Effects
  import opened Delays

  /** The list s is to be seen under the key; where nothing is to be seen s is empty. */
  predicate ShowsList(ks: Keyspace, key: string, now: int, s: seq<string>) {
    if Seen(ks, key, now) then ks[key].data == Items(s) else s == []
  }

  /** Afterwards the key has the data, and the deadline it had; every other key is as it was. */
  predicate Leaves(ks: Keyspace, ks': Keyspace, key: string, now: int, d: Data) {
    && Aside(ks, ks', key) && Seen(ks', key, now) && ks'[key].data == d
    && ks'[key].expiry == if Seen(ks, key, now) then ks[key].expiry else None
  }

  /** The same, but an empty list or sorted set goes away with its key. */
  predicate LeavesSome(ks: Keyspace, ks': Keyspace, key: string, now: int, d: Data) {
    if d == Items([]) || d == Scored([]) then Aside(ks, ks', key) && !Seen(ks', key, now)
    else Leaves(ks, ks', key, now, d)
  }

  /** What a lookup of the key gives, and what can be put there after it. */
  lemma Lookup(ks: Keyspace, key: string, now: int)
    ensures var p := Purge(ks, key, now);
            && Alike(ks, p, now)
            && GetItems(p, key) == (if !Seen(ks, key, now) then Absent
                                    else match ks[key].data case Items(s) => There(s) case _ => Wrong)
            && GetPairs(p, key) == (if !Seen(ks, key, now) then Absent
                                    else match ks[key].data case Scored(s) => There(s) case _ => Wrong)
            && (forall d: Data :: Leaves(ks, Put(p, key, d), key, now, d))
            && (forall d: Data :: LeavesSome(ks, PutOrDrop(p, key, d), key, now, d))
            && Aside(ks, p - {key}, key) && !Seen(p - {key}, key, now)
  {
    PurgeSees(ks, key, now);
  }

  lemma ByName(env: Env, ks: Keyspace, now: int, name: string, args: seq<string>)
    ensures name in LIST_NAMES ==> Apply(env, ks, now, name, args) == ApplyList(ks, now, name, args)
    ensures name in ZSET_NAMES ==> Apply(env, ks, now, name, args) == ApplyZSet(env, ks, now, name, args)
    ensures name in KEY_NAMES ==> Apply(env, ks, now, name, args) == ApplyKey(ks, now, name, args)
  {
    hide ApplyList, ApplyZSet, ApplyKey;
  }

  /** LPUSH and LPUSHX put the values one after the other in front, RPUSH and RPUSHX behind. */
  function Pushed(name: string, s: seq<string>, values: seq<string>): seq<string> {
    if name == "LPUSH" || name == "LPUSHX" then Reverse(values) + s else s + values
  }

  lemma PushPromise(env: Env, ks: Keyspace, now: int, name: string, key: string, values: seq<string>, s: seq<string>)
    requires name in {"LPUSH", "RPUSH", "LPUSHX", "RPUSHX"} && values != [] && ShowsList(ks, key, now, s)
    ensures var (ks', reply) := Apply(env, ks, now, name, [key] + values);
            if (name == "LPUSHX" || name == "RPUSHX") && !Seen(ks, key, now)
            then Alike(ks, ks', now) && reply == Integer(0)
            else && Leaves(ks, ks', key, now, Items(Pushed(name, s, values)))
                 && reply == Integer(|s| + |values|)
  {
    var args := [key] + values;
    assert args[0] == key && args[1..] == values;
    hide Purge, Put, Alike, Leaves, LeavesSome, Apply, PutOrDrop, Aside, Expired;
    ByName(env, ks, now, name, args);
    Lookup(ks, key, now);
  }

  /** LLEN and LINDEX only look. A position counts from 0, or from -1 at the last element back. */
  lemma LookPromise(env: Env, ks: Keyspace, now: int, key: string, text: string, s: seq<string>)
    requires ShowsList(ks, key, now, s)
    ensures var (ks', reply) := Apply(env, ks, now, "LLEN", [key]);
            Alike(ks, ks', now) && reply == Integer(|s|)
    ensures var (ks', reply) := Apply(env, ks, now, "LINDEX", [key, text]);
            && Alike(ks, ks', now)
            && (match ParseInt(text)
                case Some(i) =>
                  reply == if 0 <= i < |s| then BulkString(s[i])
                           else if -|s| <= i < 0 then BulkString(s[|s| + i]) else NullBulk
                case None => reply == if Seen(ks, key, now) then NOT_AN_INTEGER else NullBulk)
  {
    hide Purge, Put, Alike, Leaves, LeavesSome, Apply, PutOrDrop, Aside, Expired;
    ByName(env, ks, now, "LLEN", [key]);
    ByName(env, ks, now, "LINDEX", [key, text]);
    Lookup(ks, key, now);
  }

  /** LSET puts the value at the position and nowhere else. */
  lemma LSetPromise(env: Env, ks: Keyspace, now: int, key: string, text: string, v: string, s: seq<string>)
    requires Seen(ks, key, now) && ShowsList(ks, key, now, s) && ParseInt(text).Some?
    ensures var i := ParseInt(text).value;
            var (ks', reply) := Apply(env, ks, now, "LSET", [key, text, v]);
            if 0 <= i < |s| then Leaves(ks, ks', key, now, Items(s[i := v])) && reply == OK_REPLY
            else if -|s| <= i < 0 then Leaves(ks, ks', key, now, Items(s[|s| + i := v])) && reply == OK_REPLY
            else Alike(ks, ks', now) && reply == INDEX_OUT_OF_RANGE
  {
    hide Purge, Put, Alike, Leaves, LeavesSome, Apply, PutOrDrop, Aside, Expired;
    ByName(env, ks, now, "LSET", [key, text, v]);
    Lookup(ks, key, now);
  }

  /** LRANGE replies with the elements within the two positions, LTRIM leaves just them. */
  lemma RangePromise(env: Env, ks: Keyspace, now: int, key: string, start: string, stop: string, s: seq<string>)
    returns (lo: nat, hi: nat)
    requires ShowsList(ks, key, now, s) && ParseInt(start).Some? && ParseInt(stop).Some?
    ensures lo <= hi <= |s|
    ensures forall i :: 0 <= i < |s| ==> (lo <= i < hi <==> Within(i, |s|, ParseInt(start).value, ParseInt(stop).value))
    ensures var (ks', reply) := Apply(env, ks, now, "LRANGE", [key, start, stop]);
            Alike(ks, ks', now) && reply == Array(Bulks(s[lo..hi]))
    ensures var (ks', reply) := Apply(env, ks, now, "LTRIM", [key, start, stop]);
            && reply == OK_REPLY
            && (if Seen(ks, key, now) then LeavesSome(ks, ks', key, now, Items(s[lo..hi])) else Alike(ks, ks', now))
  {
    hide Purge, Put, Alike, Leaves, LeavesSome, Apply, PutOrDrop, Aside, Expired, Within, Slice;
    lo, hi := SliceSelects(s, ParseInt(start).value, ParseInt(stop).value);
    assert s == [] ==> Bulks(s[lo..hi]) == [];
    ByName(env, ks, now, "LRANGE", [key, start, stop]);
    ByName(env, ks, now, "LTRIM", [key, start, stop]);
    Lookup(ks, key, now);
  }

  /**
    LREM removes all occurrences for a count of 0, so many from the front for a positive one, and from the back for a
    negative one, and replies how many those were.
   */
  lemma LRemPromise(env: Env, ks: Keyspace, now: int, key: string, text: string, e: string, s: seq<string>)
    returns (cut: nat)
    requires ShowsList(ks, key, now, s) && Seen(ks, key, now) && ParseInt(text).Some?
    ensures var n := ParseInt(text).value;
            var all := if n < 0 then Reverse(s) else s;
            var m := if n < 0 then -n else n;
            var gone := if n == 0 then multiset(s)[e] else Min(m, multiset(s)[e]);
            && cut <= |s| && multiset(all[..cut])[e] == gone
            && var left := Without(all[..cut], e) + all[cut..];
               var (ks', reply) := Apply(env, ks, now, "LREM", [key, text, e]);
               && LeavesSome(ks, ks', key, now, Items(if n < 0 then Reverse(left) else left))
               && reply == Integer(gone)
  {
    hide Purge, Put, Alike, Leaves, LeavesSome, Apply, PutOrDrop, Aside, Expired, Removed, Without, Reverse;
    var n := ParseInt(text).value;
    ByName(env, ks, now, "LREM", [key, text, e]);
    Lookup(ks, key, now);
    RemovedCounts(s, n, e);
    cut := RemovedMeans(s, n, e);
  }

  /** LINSERT puts the value before or after the first occurrence of the pivot. */
  lemma LInsertPromise(env: Env, ks: Keyspace, now: int, key: string, where: string, pivot: string, v: string,
                       s: seq<string>, i: nat)
    requires Seen(ks, key, now) && ShowsList(ks, key, now, s) && ToUpper(where) in {"BEFORE", "AFTER"}
    requires i <= |s| && pivot !in s[..i] && (i < |s| ==> s[i] == pivot)
    ensures var (ks', reply) := Apply(env, ks, now, "LINSERT", [key, where, pivot, v]);
            var j := if ToUpper(where) == "BEFORE" then i else i + 1;
            if i < |s| then Leaves(ks, ks', key, now, Items(s[..j] + [v] + s[j..])) && reply == Integer(|s| + 1)
            else Alike(ks, ks', now) && reply == Integer(-1)
  {
    hide Purge, Put, Alike, Leaves, LeavesSome, Apply, PutOrDrop, Aside, Expired, FirstIndex, ToUpper;
    ByName(env, ks, now, "LINSERT", [key, where, pivot, v]);
    Lookup(ks, key, now);
    if i < |s| {
      FirstIndexIs(s, pivot, i);
    } else {
      assert s[..i] == s;
    }
  }

  // Taking from an end.

  /** The list without its first k elements, or its last. */
  function Rest(s: seq<string>, k: nat, first: bool): seq<string>
    requires k <= |s|
  {
    if first then s[k..] else s[..|s| - k]
  }

  /** LPOP takes the first element and RPOP the last. */
  lemma PopPromise(env: Env, ks: Keyspace, now: int, name: string, key: string, s: seq<string>)
    requires name in {"LPOP", "RPOP"} && ShowsList(ks, key, now, s)
    ensures var (ks', reply) := Apply(env, ks, now, name, [key]);
            if s == [] then Aside(ks, ks', key) && !Seen(ks', key, now) && reply == NullBulk
            else && LeavesSome(ks, ks', key, now, Items(Rest(s, 1, name == "LPOP")))
                 && reply == BulkString(if name == "LPOP" then s[0] else s[|s| - 1])
  {
    hide Purge, Put, Alike, Leaves, LeavesSome, Apply, PutOrDrop, Expired;
    ByName(env, ks, now, name, [key]);
    Lookup(ks, key, now);
    PurgeSees(ks, key, now);
  }

  /** With a count they take so many, as many as there are, and reply with them in the order in which they come off. */
  lemma PopManyPromise(env: Env, ks: Keyspace, now: int, name: string, key: string, text: string, s: seq<string>)
    requires name in {"LPOP", "RPOP"} && Seen(ks, key, now) && ShowsList(ks, key, now, s)
    ensures var (ks', reply) := Apply(env, ks, now, name, [key, text]);
            if ParseInt(text).None? || ParseInt(text).value < 0 then Alike(ks, ks', now) && reply == NOT_AN_INTEGER
            else
              var k := Min(ParseInt(text).value, |s|);
              && LeavesSome(ks, ks', key, now, Items(Rest(s, k, name == "LPOP")))
              && (k == 0 ==> reply == NullArray)
              && (k > 0 ==> reply.Array? && |reply.elems| == k && forall i :: 0 <= i < k ==>
                    reply.elems[i] == BulkString(if name == "LPOP" then s[i] else s[|s| - 1 - i]))
  {
    hide Purge, Put, Alike, Leaves, LeavesSome, Apply, PutOrDrop, Expired, Aside, ParseInt, Reverse;
    ByName(env, ks, now, name, [key, text]);
    Lookup(ks, key, now);
  }

  // Moving an element.

  lemma Delivered(ks: Keyspace, now: int, key: string, v: string, head: bool, t: seq<string>)
    requires ShowsList(ks, key, now, t)
    ensures var (ks', reply) := Deliver(ks, now, key, v, Some(head));
            Leaves(ks, ks', key, now, Items(if head then [v] + t else t + [v])) && reply == BulkString(v)
  {
    hide Purge, Put, Alike, Leaves, LeavesSome, PutOrDrop, Aside, Expired;
    Lookup(ks, key, now);
  }

  /** One element goes from one list to the other, or round on the same one. */
  ghost predicate Moves(ks: Keyspace, o: Outcome, now: int, src: string, s: seq<string>, dst: string, t: seq<string>,
                        fromHead: bool, toHead: bool)
    requires s != []
  {
    var v, rest := if fromHead then s[0] else s[|s| - 1], Rest(s, 1, fromHead);
    var t0 := if src == dst then rest else t;
    && ShowsList(o.0, dst, now, if toHead then [v] + t0 else t0 + [v])
    && (src != dst ==> ShowsList(o.0, src, now, rest))
    && (forall k :: k in ks.Keys + o.0.Keys && k != src && k != dst ==> SameAt(ks, o.0, k))
    && o.1 == BulkString(v)
  }

  lemma TakenOff(ks: Keyspace, now: int, src: string, s: seq<string>, fromHead: bool)
    requires Seen(ks, src, now) && ShowsList(ks, src, now, s) && s != []
    ensures |Off(s, 1, fromHead)| == 1
    ensures var v, rest := Off(s, 1, fromHead)[0], Rest(s, 1, fromHead);
            && v == (if fromHead then s[0] else s[|s| - 1]) && Left(s, 1, fromHead) == rest
            && LeavesSome(ks, PutOrDrop(ks, src, Items(rest)), src, now, Items(rest))
  {
    Lookup(ks, src, now);
    PurgeSees(ks, src, now);
    hide PutOrDrop, LeavesSome, Expired, Alike;
  }

  /** What is done to one key does not show under another. */
  lemma OtherShows(ks: Keyspace, ks': Keyspace, key: string, now: int, other: string, t: seq<string>)
    requires Aside(ks, ks', key) && other != key && ShowsList(ks, other, now, t)
    ensures ShowsList(ks', other, now, t)
  {
    assert other in ks.Keys + ks'.Keys ==> SameAt(ks, ks', other);
  }

  lemma OneMoves(ks: Keyspace, now: int, src: string, s: seq<string>, dst: string, t: seq<string>, fromHead: bool,
                 toHead: bool)
    requires Seen(ks, src, now) && ShowsList(ks, src, now, s) && s != [] && ShowsList(ks, dst, now, t)
    ensures Moves(ks, Move(ks, now, src, s, dst, fromHead, Some(toHead)), now, src, s, dst, t, fromHead, toHead)
  {
    hide Deliver, PutOrDrop, Expired, Off, Left;
    var rest := Rest(s, 1, fromHead);
    TakenOff(ks, now, src, s, fromHead);
    var ks1 := PutOrDrop(ks, src, Items(rest));
    var ks2 := Deliver(ks1, now, dst, Off(s, 1, fromHead)[0], Some(toHead)).0;
    if src != dst {
      OtherShows(ks, ks1, src, now, dst, t);
    }
    Delivered(ks1, now, dst, Off(s, 1, fromHead)[0], toHead, if src == dst then rest else t);
    if src != dst {
      OtherShows(ks1, ks2, dst, now, src, rest);
    }
    forall k | k in ks.Keys + ks2.Keys && k != src && k != dst ensures SameAt(ks, ks2, k) {
      assert k in ks.Keys + ks1.Keys ==> SameAt(ks, ks1, k);
      assert k in ks1.Keys + ks2.Keys ==> SameAt(ks1, ks2, k);
    }
  }

  /** RPOPLPUSH takes from the back and puts in front; LMOVE does as LEFT and RIGHT say, in whatever case. */
  lemma MovePromise(env: Env, ks: Keyspace, now: int, src: string, s: seq<string>, dst: string, t: seq<string>,
                    from: string, to: string)
    requires ShowsList(ks, src, now, s) && s != [] && ShowsList(ks, dst, now, t)
    ensures Moves(ks, Apply(env, ks, now, "RPOPLPUSH", [src, dst]), now, src, s, dst, t, false, true)
    ensures ToUpper(from) in {"LEFT", "RIGHT"} && ToUpper(to) in {"LEFT", "RIGHT"} ==>
              Moves(ks, Apply(env, ks, now, "LMOVE", [src, dst, from, to]), now, src, s, dst, t,
                    ToUpper(from) == "LEFT", ToUpper(to) == "LEFT")
  {
    hide Purge, Move, Moves, Apply, ToUpper, Alike, Aside, Expired;
    ByName(env, ks, now, "RPOPLPUSH", [src, dst]);
    ByName(env, ks, now, "LMOVE", [src, dst, from, to]);
    Lookup(ks, src, now);
    PurgeSees(ks, src, now);
    OneMoves(ks, now, src, s, dst, t, false, true);
    OneMoves(ks, now, src, s, dst, t, ToUpper(from) == "LEFT", ToUpper(to) == "LEFT");
  }

  // What is refused.

  /** Where there is no list, nothing comes of the other commands but a reply. */
  lemma AbsentPromise(env: Env, ks: Keyspace, now: int, key: string, a: string, b: string, c: string)
    requires !Seen(ks, key, now)
    ensures var (ks', reply) := Apply(env, ks, now, "LSET", [key, a, b]); Alike(ks, ks', now) && reply == NO_SUCH_KEY
    ensures var (ks', reply) := Apply(env, ks, now, "LINSERT", [key, a, b, c]);
            Alike(ks, ks', now) && reply == Integer(0)
    ensures var (ks', reply) := Apply(env, ks, now, "LREM", [key, a, b]); Alike(ks, ks', now) && reply == Integer(0)
    ensures var (ks', reply) := Apply(env, ks, now, "RPOPLPUSH", [key, a]); Alike(ks, ks', now) && reply == NullBulk
    ensures var (ks', reply) := Apply(env, ks, now, "LMOVE", [key, a, b, c]);
            Alike(ks, ks', now) && reply == NullBulk
  {
    hide Purge, Put, Alike, Leaves, LeavesSome, Apply, PutOrDrop, Aside, Expired, Move;
    ByName(env, ks, now, "LSET", [key, a, b]);
    ByName(env, ks, now, "LINSERT", [key, a, b, c]);
    ByName(env, ks, now, "LREM", [key, a, b]);
    ByName(env, ks, now, "RPOPLPUSH", [key, a]);
    ByName(env, ks, now, "LMOVE", [key, a, b, c]);
    Lookup(ks, key, now);
  }

  /** Where there is one, an argument that should be a number, or BEFORE or AFTER, and is not changes nothing. */
  lemma UnreadableIsRefused(env: Env, ks: Keyspace, now: int, name: string, key: string, a: string, b: string,
                            s: seq<string>)
    requires Seen(ks, key, now) && ShowsList(ks, key, now, s) && name in {"LSET", "LREM", "LRANGE", "LTRIM"}
    ensures ParseInt(a).None? || (ParseInt(b).None? && name in {"LRANGE", "LTRIM"}) ==>
              var (ks', reply) := Apply(env, ks, now, name, [key, a, b]);
              Alike(ks, ks', now) && reply == NOT_AN_INTEGER
    ensures ToUpper(a) !in {"BEFORE", "AFTER"} ==>
              var (ks', reply) := Apply(env, ks, now, "LINSERT", [key, a, b, b]);
              Alike(ks, ks', now) && reply == SYNTAX_ERROR
  {
    hide Purge, Put, Alike, Leaves, LeavesSome, Apply, PutOrDrop, Aside, Expired, Slice, Removed, InsertAt;
    ByName(env, ks, now, name, [key, a, b]);
    ByName(env, ks, now, "LINSERT", [key, a, b, b]);
    Lookup(ks, key, now);
  }

  /** A key that holds something else is left as it is, and that is the reply. */
  lemma WrongTypeIsRefused(env: Env, ks: Keyspace, now: int, name: string, args: seq<string>)
    requires name in LIST_NAMES && RightCount(name, |args|)
    requires Seen(ks, args[0], now) && !ks[args[0]].data.Items?
    ensures var (ks', reply) := Apply(env, ks, now, name, args);
            Alike(ks, ks', now) && reply == WRONG_TYPE
  {
    hide Purge, Put, Alike, Leaves, LeavesSome, Apply, PutOrDrop, Aside, Expired;
    ByName(env, ks, now, name, args);
    Lookup(ks, args[0], now);
  }

  /** How many arguments a list command may have. */
  predicate RightCount(name: string, n: nat) {
    match name
    case "LLEN" => n == 1
    case "LPOP" => n >= 1
    case "RPOP" => n >= 1
    case "LINDEX" => n == 2
    case "RPOPLPUSH" => n == 2
    case "LRANGE" => n == 3
    case "LSET" => n == 3
    case "LREM" => n == 3
    case "LTRIM" => n == 3
    case "LINSERT" => n == 4
    case "LMOVE" => n == 4
    case _ => n >= 2
  }

  /** With any other number of arguments nothing is done, and the reply names the command. */
  lemma WrongCountIsRefused(env: Env, ks: Keyspace, now: int, name: string, args: seq<string>)
    requires name in LIST_NAMES && !RightCount(name, |args|)
    ensures Apply(env, ks, now, name, args) ==
            (ks, Error("ERR wrong number of arguments for '" + ToLower(name) + "' command"))
  {
    hide Apply, ToLower;
    ByName(env, ks, now, name, args);
  }
}
