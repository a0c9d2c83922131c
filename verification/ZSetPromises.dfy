/** What each sorted-set command does, told from its name and its arguments alone. */
module ZSetPromises {
  import opened Basics
  import opened Strings
  import opened Pairs
  import opened ScoreRanges
  import opened StringSorting
  import opened Resp
  import opened Keyspaces
  import opened CommandSpecs
  import opened Delays
  import opened CommandLaws
  import opened ListPromises

  /** The pairs s are to be seen under the key; where nothing is to be seen s is empty. */
  predicate ShowsPairs(ks: Keyspace, key: string, now: int, s: seq<Pair>) {
    if Seen(ks, key, now) then ks[key].data == Scored(s) else s == []
  }

  // ZADD and its options.

  /** The words that are options of ZADD, in whatever case. */
  predicate IsOption(arg: string) {
    ToUpper(arg) in {"NX", "XX", "GT", "LT", "CH"}
  }

  /** One of the arguments from i on and before n is the word. */
  predicate Given(args: seq<string>, i: nat, n: nat, word: string)
    requires n <= |args|
  {
    exists j :: i <= j < n && ToUpper(args[j]) == word
  }

  lemma {:induction false} OptionsFrom(args: seq<string>, i: nat, f: Flags)
    requires i <= |args|
    ensures var (f', n) := ZAddOptions(args, i, f);
            && (forall j :: i <= j < n ==> IsOption(args[j]))
            && (n < |args| ==> !IsOption(args[n]))
            && (f'.nx <==> f.nx || Given(args, i, n, "NX")) && (f'.xx <==> f.xx || Given(args, i, n, "XX"))
            && (f'.gt <==> f.gt || Given(args, i, n, "GT")) && (f'.lt <==> f.lt || Given(args, i, n, "LT"))
            && (f'.ch <==> f.ch || Given(args, i, n, "CH"))
    decreases |args| - i
  {
    hide ToUpper;
    if i < |args| && IsOption(args[i]) {
      var word := ToUpper(args[i]);
      var f1 := Flags(f.nx || word == "NX", f.xx || word == "XX", f.gt || word == "GT", f.lt || word == "LT",
                      f.ch || word == "CH");
      OptionsFrom(args, i + 1, f1);
      var n := ZAddOptions(args, i, f).1;
      assert ZAddOptions(args, i, f) == ZAddOptions(args, i + 1, f1);
      forall w ensures Given(args, i, n, w) <==> word == w || Given(args, i + 1, n, w) {
        if word == w {
          assert ToUpper(args[i]) == w;
        }
      }
    }
  }

  const NO_FLAGS := Flags(false, false, false, false, false)

  /** The options are the words up to the first argument that is none, and each is given just when its word is there. */
  lemma ZAddOptionsMean(args: seq<string>)
    requires |args| >= 1
    ensures var (f, n) := ZAddOptions(args, 1, NO_FLAGS);
            && 1 <= n <= |args| && (forall j :: 1 <= j < n ==> IsOption(args[j])) && (n < |args| ==> !IsOption(args[n]))
            && (f.nx <==> exists j :: 1 <= j < n && ToUpper(args[j]) == "NX")
            && (f.xx <==> exists j :: 1 <= j < n && ToUpper(args[j]) == "XX")
            && (f.gt <==> exists j :: 1 <= j < n && ToUpper(args[j]) == "GT")
            && (f.lt <==> exists j :: 1 <= j < n && ToUpper(args[j]) == "LT")
            && (f.ch <==> exists j :: 1 <= j < n && ToUpper(args[j]) == "CH")
  {
    hide ZAddOptions, ToUpper, IsOption;
    OptionsFrom(args, 1, NO_FLAGS);
  }

  /** One of the options is the word. */
  predicate Says(opts: seq<string>, word: string) {
    exists j :: 0 <= j < |opts| && ToUpper(opts[j]) == word
  }

  /** The score that a member has after a score has been given for it with the options. */
  function Decided(opts: seq<string>, held: Option<Score>, score: Score): Option<Score> {
    if held.None? then (if Says(opts, "XX") then None else Some(score))
    else if Says(opts, "NX") || (Says(opts, "GT") && Says(opts, "LT")) then held
    else if Says(opts, "GT") then Some(if score > held.value then score else held.value)
    else if Says(opts, "LT") then Some(if score < held.value then score else held.value)
    else Some(score)
  }

  /** What the reply counts: a new member, and with CH also one that is held and given the score. */
  function Counted(opts: seq<string>, held: Option<Score>, score: Score): int {
    if held.None? then (if Says(opts, "XX") then 0 else 1)
    else if Says(opts, "CH") && !Says(opts, "NX") && (Says(opts, "GT") ==> score > held.value)
            && (Says(opts, "LT") ==> score < held.value) then 1
    else 0
  }

  function ZAddArgs(key: string, opts: seq<string>, text: string, member: string): (args: seq<string>)
    ensures |args| == |opts| + 3 && args[0] == key && args[|opts| + 1] == text && args[|opts| + 2] == member
    ensures forall j :: 1 <= j <= |opts| ==> args[j] == opts[j - 1]
  {
    [key] + opts + [text, member]
  }

  /** There is one first argument that is no option. */
  lemma OptionsEnd(args: seq<string>, m: nat, n: nat)
    requires 1 <= m <= |args| && (forall j :: 1 <= j < m ==> IsOption(args[j])) && (m < |args| ==> !IsOption(args[m]))
    requires 1 <= n < |args| && (forall j :: 1 <= j < n ==> IsOption(args[j])) && !IsOption(args[n])
    ensures m == n
  {
    hide IsOption;
  }

  /** The flags are what the options say. */
  lemma FlagsOf(key: string, opts: seq<string>, text: string, member: string) returns (f: Flags)
    requires (forall j :: 0 <= j < |opts| ==> IsOption(opts[j])) && !IsOption(text)
    ensures ZAddOptions(ZAddArgs(key, opts, text, member), 1, NO_FLAGS) == (f, |opts| + 1)
    ensures f == Flags(Says(opts, "NX"), Says(opts, "XX"), Says(opts, "GT"), Says(opts, "LT"), Says(opts, "CH"))
  {
    hide ZAddOptions, ToUpper, IsOption, ZAddArgs;
    var args := ZAddArgs(key, opts, text, member);
    ZAddOptionsMean(args);
    var (flags, n) := ZAddOptions(args, 1, NO_FLAGS);
    f := flags;
    OptionsEnd(args, n, |opts| + 1);
    forall w ensures Says(opts, w) <==> exists j :: 1 <= j < n && ToUpper(args[j]) == w {
      if Says(opts, w) {
        var j :| 0 <= j < |opts| && ToUpper(opts[j]) == w;
        assert ToUpper(args[j + 1]) == w;
      }
      if j :| 1 <= j < n && ToUpper(args[j]) == w {
        assert ToUpper(opts[j - 1]) == w;
      }
    }
  }

  /** The loop of ZADD over one score and member. */
  lemma OnePairAdded(env: Env, s: seq<Pair>, args: seq<string>, i: nat, f: Flags, score: Score)
    requires i + 2 == |args| && env.parseScore(args[i]) == Some(score)
    ensures var held := ScoreOf(s, args[i + 1]);
            ZAddFrom(env, s, args, i, f, 0, 0) ==
            (Updated(s, f, score, args[i + 1]),
             Integer(match EffectOf(f, held, score)
                     case Skipped => 0
                     case Added => 1
                     case Changed => if f.ch then 1 else 0))
  {
    hide AddPair, ScoreOf, EffectOf;
    var s' := Updated(s, f, score, args[i + 1]);
    assert ZAddFrom(env, s', args, i + 2, f, 0, 0) == (s', Integer(0));
    assert ZAddFrom(env, s', args, i + 2, f, 1, 0) == (s', Integer(1));
    assert ZAddFrom(env, s', args, i + 2, f, 0, 1) == (s', Integer(if f.ch then 1 else 0));
  }

  lemma UpdatedElsewhere(s: seq<Pair>, f: Flags, score: Score, member: string, other: string)
    requires Proper(s)
    ensures var s' := Updated(s, f, score, member);
            Proper(s') && (other != member ==> ScoreOf(s', other) == ScoreOf(s, other))
  {
    AddedOne(s, score, member, other);
  }

  /**
    ZADD of one score, with any options in any order and case: NX and XX, GT and LT decide what becomes of the member,
    and CH what is counted. Every other member keeps its score.
   */
  lemma ZAddPromise(env: Env, ks: Keyspace, now: int, key: string, opts: seq<string>, text: string, member: string,
                    s: seq<Pair>)
    returns (s': seq<Pair>)
    requires ShowsPairs(ks, key, now, s) && Proper(s) && env.parseScore(text).Some?
    requires (forall j :: 0 <= j < |opts| ==> IsOption(opts[j])) && !IsOption(text)
    ensures var score, held := env.parseScore(text).value, ScoreOf(s, member);
            var (ks', reply) := Apply(env, ks, now, "ZADD", ZAddArgs(key, opts, text, member));
            && Leaves(ks, ks', key, now, Scored(s')) && Proper(s')
            && ScoreOf(s', member) == Decided(opts, held, score) && reply == Integer(Counted(opts, held, score))
            && forall other :: other != member ==> ScoreOf(s', other) == ScoreOf(s, other)
  {
    hide Purge, Put, Alike, Leaves, LeavesSome, Apply, PutOrDrop, Aside, Expired, IsOption, Says, ZAddFrom, AddPair,
      ScoreOf, ZAddOptions, ZAddArgs, Proper, Updated;
    var args, score, held := ZAddArgs(key, opts, text, member), env.parseScore(text).value, ScoreOf(s, member);
    var f := FlagsOf(key, opts, text, member);
    s' := Updated(s, f, score, member);
    ByName(env, ks, now, "ZADD", args);
    Lookup(ks, key, now);
    OnePairAdded(env, s, args, |opts| + 1, f, score);
    OptionsMean(s, f, score, member);
    forall other ensures Proper(s') && (other != member ==> ScoreOf(s', other) == ScoreOf(s, other)) {
      UpdatedElsewhere(s, f, score, member, other);
    }
    assert ZAdded(env, s, args) == ZAddFrom(env, s, args, |opts| + 1, f, 0, 0);
  }

  /** The k-th score from argument i on cannot be read. */
  predicate Unreadable(env: Env, args: seq<string>, i: nat, k: nat) {
    i + 2 * k < |args| && env.parseScore(args[i + 2 * k]).None?
  }

  ghost predicate Fails(env: Env, args: seq<string>, i: nat) {
    exists k: nat :: Unreadable(env, args, i, k)
  }

  lemma FailsLater(env: Env, args: seq<string>, i: nat)
    requires i < |args| && env.parseScore(args[i]).Some?
    ensures Fails(env, args, i) <==> Fails(env, args, i + 2)
  {
    var next := i + 2;
    if k: nat :| Unreadable(env, args, next, k) {
      assert Unreadable(env, args, i, k + 1);
    }
    if k: nat :| Unreadable(env, args, i, k) {
      assert Unreadable(env, args, next, k - 1);
    }
  }

  lemma {:induction false} AddFailsIff(env: Env, s: seq<Pair>, args: seq<string>, i: nat, f: Flags, added: nat,
                                       changed: nat)
    ensures var r := ZAddFrom(env, s, args, i, f, added, changed).1;
            (r == NOT_A_FLOAT || r.Integer?) && (r == NOT_A_FLOAT <==> Fails(env, args, i))
    decreases |args| - i
  {
    hide Fails, AddPair, ScoreOf;
    if i >= |args| || env.parseScore(args[i]).None? {
      FailsAtOnce(env, args, i);
    } else {
      var score, member := env.parseScore(args[i]).value, ArgStr(args, i + 1);
      var e := EffectOf(f, ScoreOf(s, member), score);
      FailsLater(env, args, i);
      AddFailsIff(env, if e.Skipped? then s else AddPair(s, score, member), args, i + 2, f,
                  if e.Added? then added + 1 else added, if e.Changed? then changed + 1 else changed);
    }
  }

  lemma FailsAtOnce(env: Env, args: seq<string>, i: nat)
    requires i >= |args| || env.parseScore(args[i]).None?
    ensures Fails(env, args, i) <==> i < |args|
  {
    assert Unreadable(env, args, i, 0) <==> i < |args|;
  }

  /**
    ZADD with any arguments: each member ends with the score that its own scores lead to, as far as the scores can be
    read, and it is an error if one of them cannot, or if the last has no member.
   */
  lemma ZAddManyPromise(env: Env, ks: Keyspace, now: int, args: seq<string>, s: seq<Pair>) returns (s': seq<Pair>)
    requires |args| >= 3 && ShowsPairs(ks, args[0], now, s) && Proper(s)
    ensures var (f, n) := ZAddOptions(args, 1, NO_FLAGS);
            var (ks', reply) := Apply(env, ks, now, "ZADD", args);
            && Leaves(ks, ks', args[0], now, Scored(s')) && Proper(s')
            && (if (|args| - n) % 2 != 0 then s' == s && reply == SYNTAX_ERROR
                else && (forall m :: ScoreOf(s', m) == ScoreAfter(env, args, n, f, ScoreOf(s, m), m))
                     && (reply == NOT_A_FLOAT || reply.Integer?)
                     && (reply == NOT_A_FLOAT <==> Fails(env, args, n)))
  {
    hide Purge, Put, Alike, Leaves, LeavesSome, Apply, PutOrDrop, Aside, Expired, ZAddFrom, ScoreOf, ZAddOptions,
      Proper, ScoreAfter, Fails;
    var (f, n) := ZAddOptions(args, 1, NO_FLAGS);
    s' := ZAdded(env, s, args).0;
    ByName(env, ks, now, "ZADD", args);
    Lookup(ks, args[0], now);
    AddFailsIff(env, s, args, n, f, 0, 0);
    ZAddFromMeans(env, s, args, n, f, 0, 0, []);
    forall m
      ensures ScoreOf(ZAddFrom(env, s, args, n, f, 0, 0).0, m) == ScoreAfter(env, args, n, f, ScoreOf(s, m), m)
    {
      ZAddFromMeans(env, s, args, n, f, 0, 0, m);
    }
  }

  // Replies that list pairs.

  /** Where pair i of t stands in a reply that lists members, each followed by its score if that was asked for. */
  predicate ListedAt(env: Env, elems: seq<Value>, t: seq<Pair>, withScores: bool, i: nat)
    requires |elems| == (if withScores then 2 * |t| else |t|) && i < |t|
  {
    if withScores
    then elems[2 * i] == BulkString(t[i].member) && elems[2 * i + 1] == BulkString(env.formatScore(t[i].score))
    else elems[i] == BulkString(t[i].member)
  }

  /** The reply lists the pairs in their order, and nothing else. */
  predicate Replies(env: Env, reply: Value, t: seq<Pair>, withScores: bool) {
    && reply.Array? && |reply.elems| == (if withScores then 2 * |t| else |t|)
    && forall i :: 0 <= i < |t| ==> ListedAt(env, reply.elems, t, withScores, i)
  }

  lemma {:induction false} PairsAreCounted(env: Env, t: seq<Pair>, withScores: bool)
    ensures |PairValues(env, t, withScores)| == if withScores then 2 * |t| else |t|
  {
    if t != [] {
      PairsAreCounted(env, t[1..], withScores);
    }
  }

  lemma {:induction false} PairIsListed(env: Env, t: seq<Pair>, withScores: bool, i: nat)
    requires i < |t|
    requires |PairValues(env, t, withScores)| == if withScores then 2 * |t| else |t|
    ensures ListedAt(env, PairValues(env, t, withScores), t, withScores, i)
  {
    if i > 0 {
      PairsAreCounted(env, t[1..], withScores);
      PairIsListed(env, t[1..], withScores, i - 1);
    }
  }

  lemma PairsAreListed(env: Env, t: seq<Pair>, withScores: bool)
    ensures Replies(env, PairsReply(env, t, withScores), t, withScores)
  {
    hide PairValues, ListedAt;
    PairsAreCounted(env, t, withScores);
    forall i | 0 <= i < |t| ensures ListedAt(env, PairValues(env, t, withScores), t, withScores, i) {
      PairIsListed(env, t, withScores, i);
    }
  }

  /** ZRANGE replies with the part of the ascending order within two positions, ZREVRANGE of the descending order. */
  lemma ZRangePromise(env: Env, ks: Keyspace, now: int, name: string, key: string, start: string, stop: string,
                      more: seq<string>, s: seq<Pair>)
    returns (lo: nat, hi: nat)
    requires name in {"ZRANGE", "ZREVRANGE"} && ShowsPairs(ks, key, now, s)
    requires ParseInt(start).Some? && ParseInt(stop).Some?
    ensures lo <= hi <= |s|
    ensures forall i :: 0 <= i < |s| ==> (lo <= i < hi <==> Within(i, |s|, ParseInt(start).value, ParseInt(stop).value))
    ensures var (ks', reply) := Apply(env, ks, now, name, [key, start, stop] + more);
            && Alike(ks, ks', now)
            && Replies(env, reply, (if name == "ZRANGE" then s else Reverse(s))[lo..hi],
                       more != [] && ToUpper(more[0]) == "WITHSCORES")
  {
    hide Purge, Put, Alike, Leaves, LeavesSome, Apply, PutOrDrop, Aside, Expired, Within, Slice, Replies, PairsReply,
      ToUpper, Reverse;
    var t, withScores := if name == "ZRANGE" then s else Reverse(s), more != [] && ToUpper(more[0]) == "WITHSCORES";
    var args := [key, start, stop] + more;
    assert more != [] ==> args[3] == more[0];
    lo, hi := SliceSelects(t, ParseInt(start).value, ParseInt(stop).value);
    PairsAreListed(env, t[lo..hi], withScores);
    EmptyIsListed(env);
    ByName(env, ks, now, name, args);
    Lookup(ks, key, now);
  }

  lemma EmptyIsListed(env: Env)
    ensures Replies(env, Array([]), [], false) && Replies(env, Array([]), [], true)
  {
  }

  // Ranges of scores.

  lemma NoNumber()
    ensures ParseInt([]).None?
  {
  }

  lemma {:induction false} LimitIs(args: seq<string>, i: nat, j: nat)
    requires i <= j <= |args| && (forall k :: i <= k < j ==> ToUpper(args[k]) != "LIMIT")
    requires j < |args| ==> ToUpper(args[j]) == "LIMIT"
    ensures LimitClause(args, i) ==
            if j == |args| then (0, -1)
            else if j + 2 < |args| && ParseInt(args[j + 1]).Some? && ParseInt(args[j + 2]).Some?
            then (ParseInt(args[j + 1]).value, ParseInt(args[j + 2]).value) else (0, 0)
    decreases j - i
  {
    hide ToUpper, ParseInt;
    NoNumber();
    if i < j {
      LimitIs(args, i + 1, j);
    }
  }

  lemma {:induction false} OptionIs(args: seq<string>, i: nat, word: string)
    ensures HasOption(args, i, word) <==> exists k :: i <= k < |args| && ToUpper(args[k]) == word
    decreases |args| - i
  {
    if i < |args| {
      OptionIs(args, i + 1, word);
    }
  }

  /** How many LIMIT passes over and how many it takes: what stands behind the first of them, if it can be read. */
  function Limits(tail: seq<string>, j: nat): (int, int)
    requires j <= |tail|
  {
    if j == |tail| then (0, -1)
    else if j + 2 < |tail| && ParseInt(tail[j + 1]).Some? && ParseInt(tail[j + 2]).Some?
    then (ParseInt(tail[j + 1]).value, ParseInt(tail[j + 2]).value) else (0, 0)
  }

  lemma TailOptions(key: string, a: string, b: string, tail: seq<string>, j: nat)
    requires j <= |tail| && (forall k :: 0 <= k < j ==> ToUpper(tail[k]) != "LIMIT")
    requires j < |tail| ==> ToUpper(tail[j]) == "LIMIT"
    ensures var args := [key, a, b] + tail;
            && LimitClause(args, 3) == Limits(tail, j)
            && (HasOption(args, 3, "WITHSCORES") <==> Says(tail, "WITHSCORES"))
  {
    hide ToUpper, ParseInt, LimitClause, HasOption;
    var args := [key, a, b] + tail;
    LimitIs(args, 3, j + 3);
    OptionIs(args, 3, "WITHSCORES");
    if Says(tail, "WITHSCORES") {
      var k :| 0 <= k < |tail| && ToUpper(tail[k]) == "WITHSCORES";
      assert ToUpper(args[k + 3]) == "WITHSCORES";
    }
    if k :| 3 <= k < |args| && ToUpper(args[k]) == "WITHSCORES" {
      assert ToUpper(tail[k - 3]) == "WITHSCORES";
    }
  }

  /**
    ZRANGEBYSCORE takes the lower bound first and ascends, ZREVRANGEBYSCORE the upper and descends; of the pairs within
    the bounds LIMIT takes a part.
   */
  lemma ScoreRangePromise(env: Env, ks: Keyspace, now: int, name: string, key: string, a: string, b: string,
                          tail: seq<string>, j: nat, s: seq<Pair>)
    returns (lo: nat, hi: nat, first: nat, end: nat)
    requires name in {"ZRANGEBYSCORE", "ZREVRANGEBYSCORE"} && ShowsPairs(ks, key, now, s) && Sorted(s)
    requires env.parseScore(a).Some? && env.parseScore(b).Some?
    requires j <= |tail| && (forall k :: 0 <= k < j ==> ToUpper(tail[k]) != "LIMIT")
    requires j < |tail| ==> ToUpper(tail[j]) == "LIMIT"
    ensures var up := name == "ZRANGEBYSCORE";
            var min, max := env.parseScore(if up then a else b).value, env.parseScore(if up then b else a).value;
            && lo <= hi <= |s| && (forall i :: 0 <= i < |s| ==> (lo <= i < hi <==> min <= s[i].score <= max))
            && first <= end <= hi - lo
            && (forall i :: 0 <= i < hi - lo ==>
                  (first <= i < end <==> Passes(i, Limits(tail, j).0, Limits(tail, j).1)))
            && var (ks', reply) := Apply(env, ks, now, name, [key, a, b] + tail);
               && Alike(ks, ks', now)
               && Replies(env, reply, (if up then s[lo..hi] else Reverse(s[lo..hi]))[first..end],
                          Says(tail, "WITHSCORES"))
  {
    hide Purge, Put, Alike, Leaves, LeavesSome, Apply, PutOrDrop, Aside, Expired, Passes, Limit, Replies, PairsReply,
      ToUpper, Reverse, InScores, Limits, LimitClause, HasOption, Says, Sorted;
    var up, args := name == "ZRANGEBYSCORE", [key, a, b] + tail;
    var min, max := env.parseScore(if up then a else b).value, env.parseScore(if up then b else a).value;
    TailOptions(key, a, b, tail, j);
    lo, hi := InScoresSelects(s, min, max);
    var t := if up then s[lo..hi] else Reverse(s[lo..hi]);
    first, end := LimitSelects(t, Limits(tail, j).0, Limits(tail, j).1);
    PairsAreListed(env, t[first..end], Says(tail, "WITHSCORES"));
    EmptyIsListed(env);
    ByName(env, ks, now, name, args);
    Lookup(ks, key, now);
  }

  /** ZCOUNT counts the pairs within the bounds, ZCARD all. */
  lemma CountPromise(env: Env, ks: Keyspace, now: int, key: string, a: string, b: string, s: seq<Pair>)
    returns (lo: nat, hi: nat)
    requires ShowsPairs(ks, key, now, s) && Sorted(s) && env.parseScore(a).Some? && env.parseScore(b).Some?
    ensures lo <= hi <= |s|
    ensures forall i :: 0 <= i < |s| ==>
              (lo <= i < hi <==> env.parseScore(a).value <= s[i].score <= env.parseScore(b).value)
    ensures var (ks', reply) := Apply(env, ks, now, "ZCOUNT", [key, a, b]);
            Alike(ks, ks', now) && reply == Integer(hi - lo)
    ensures var (ks', reply) := Apply(env, ks, now, "ZCARD", [key]);
            Alike(ks, ks', now) && reply == Integer(|s|)
  {
    hide Purge, Put, Alike, Leaves, LeavesSome, Apply, PutOrDrop, Aside, Expired, InScores, Sorted;
    lo, hi := InScoresSelects(s, env.parseScore(a).value, env.parseScore(b).value);
    ByName(env, ks, now, "ZCOUNT", [key, a, b]);
    ByName(env, ks, now, "ZCARD", [key]);
    Lookup(ks, key, now);
  }

  // Single members.

  /** ZSCORE replies with the score of the member, if there is a pair with it. */
  lemma ZScorePromise(env: Env, ks: Keyspace, now: int, key: string, member: string, s: seq<Pair>)
    requires ShowsPairs(ks, key, now, s) && UniqueMembers(s)
    ensures var (ks', reply) := Apply(env, ks, now, "ZSCORE", [key, member]);
            && Alike(ks, ks', now)
            && (forall sc :: Pair(sc, member) in s ==> reply == BulkString(env.formatScore(sc)))
            && ((forall p :: p in s ==> p.member != member) ==> reply == NullBulk)
  {
    hide Purge, Put, Alike, Leaves, LeavesSome, Apply, PutOrDrop, Aside, Expired, ScoreOf, UniqueMembers;
    ScoreOfHeld(s, member);
    ByName(env, ks, now, "ZSCORE", [key, member]);
    Lookup(ks, key, now);
  }

  /** ZINCRBY adds the increment to the score of the member, or to 0, and replies with the sum. */
  lemma ZIncrByPromise(env: Env, ks: Keyspace, now: int, key: string, text: string, member: string, s: seq<Pair>)
    returns (s': seq<Pair>)
    requires ShowsPairs(ks, key, now, s) && Proper(s) && env.parseScore(text).Some?
    ensures var held := ScoreOf(s, member);
            var score := env.addScores(if held.Some? then held.value else 0.0, env.parseScore(text).value);
            var (ks', reply) := Apply(env, ks, now, "ZINCRBY", [key, text, member]);
            && Leaves(ks, ks', key, now, Scored(s')) && Proper(s') && reply == BulkString(env.formatScore(score))
            && forall m :: ScoreOf(s', m) == if m == member then Some(score) else ScoreOf(s, m)
  {
    hide Purge, Put, Alike, Leaves, LeavesSome, Apply, PutOrDrop, Aside, Expired, AddPair, ScoreOf, Proper;
    var score := Raised(env, s, member, env.parseScore(text).value);
    s' := AddPair(s, score, member);
    forall m ensures Proper(s') && ScoreOf(s', m) == if m == member then Some(score) else ScoreOf(s, m) {
      AddedOne(s, score, member, m);
    }
    ByName(env, ks, now, "ZINCRBY", [key, text, member]);
    Lookup(ks, key, now);
  }

  lemma {:induction false} RemovedMembers(s: seq<Pair>, members: seq<string>)
    requires Proper(s)
    ensures var (s', n) := RemoveMembers(s, members);
            && Proper(s') && n == |s| - |s'| && forall p :: p in s' <==> p in s && p.member !in members
    decreases |members|
  {
    if members != [] {
      var s1 := RemoveMember(s, members[0]);
      RemoveMemberKeepsProper(s, members[0]);
      RemoveIsShorter(s, members[0]);
      RemovedMembers(s1, members[1..]);
      assert members == [members[0]] + members[1..];
      forall p ensures p in s1 <==> p in s && p.member != members[0] {
        RemoveMemberHas(s, members[0], p);
      }
    }
  }

  /** ZREM takes out just the members that are named, and replies how many there were. */
  lemma ZRemPromise(env: Env, ks: Keyspace, now: int, key: string, members: seq<string>, s: seq<Pair>)
    returns (s': seq<Pair>)
    requires ShowsPairs(ks, key, now, s) && Proper(s) && members != []
    ensures Proper(s') && forall p :: p in s' <==> p in s && p.member !in members
    ensures var (ks', reply) := Apply(env, ks, now, "ZREM", [key] + members);
            && reply == Integer(|s| - |s'|)
            && (if Seen(ks, key, now) then LeavesSome(ks, ks', key, now, Scored(s')) else Alike(ks, ks', now))
  {
    hide Purge, Put, Alike, Leaves, LeavesSome, Apply, PutOrDrop, Aside, Expired, RemoveMembers, Proper;
    var args := [key] + members;
    assert args[0] == key && args[1..] == members;
    var n: nat := RemoveMembers(s, members).1;
    s' := RemoveMembers(s, members).0;
    RemovedMembers(s, members);
    ByName(env, ks, now, "ZREM", args);
    Lookup(ks, key, now);
    assert |s| == 0 ==> |s'| == 0;
  }

  // Taking from an end.

  /** The pairs that ZPOPMIN takes are the first, those that ZPOPMAX takes the last, from the greatest down. */
  predicate Taken(t: seq<Pair>, s: seq<Pair>, k: nat, min: bool)
    requires k <= |s|
  {
    |t| == k && forall i :: 0 <= i < k ==> t[i] == if min then s[i] else s[|s| - 1 - i]
  }

  lemma OffIsTaken(s: seq<Pair>, k: nat, min: bool)
    requires k <= |s|
    ensures Taken(Off(s, k, min), s, k, min)
  {
  }

  /** They take one pair, or as many as the count says and there are. */
  lemma ZPopPromise(env: Env, ks: Keyspace, now: int, name: string, key: string, counts: seq<string>, s: seq<Pair>)
    returns (t: seq<Pair>)
    requires name in {"ZPOPMIN", "ZPOPMAX"} && Seen(ks, key, now) && ShowsPairs(ks, key, now, s)
    requires counts != [] ==> ParseInt(counts[0]).Some? && ParseInt(counts[0]).value >= 0
    ensures var k := Min(if counts == [] then 1 else ParseInt(counts[0]).value, |s|);
            var (ks', reply) := Apply(env, ks, now, name, [key] + counts);
            && Taken(t, s, k, name == "ZPOPMIN") && Replies(env, reply, t, true)
            && LeavesSome(ks, ks', key, now, Scored(if name == "ZPOPMIN" then s[k..] else s[..|s| - k]))
  {
    hide Purge, Put, Alike, Leaves, LeavesSome, Apply, PutOrDrop, Aside, Expired, Replies, PairsReply, Off, ParseInt;
    var k := Min(if counts == [] then 1 else ParseInt(counts[0]).value, |s|);
    var args := [key] + counts;
    assert args[0] == key && (counts != [] ==> args[1] == counts[0]);
    t := Off(s, k, name == "ZPOPMIN");
    OffIsTaken(s, k, name == "ZPOPMIN");
    PairsAreListed(env, t, true);
    hide Taken;
    ByName(env, ks, now, name, args);
    Lookup(ks, key, now);
  }

  /** Without a pair to take they reply with nothing, and a count that is none is refused. */
  lemma ZPopRefusal(env: Env, ks: Keyspace, now: int, name: string, key: string, counts: seq<string>, s: seq<Pair>)
    requires name in {"ZPOPMIN", "ZPOPMAX"} && ShowsPairs(ks, key, now, s)
    ensures var (ks', reply) := Apply(env, ks, now, name, [key] + counts);
            && (!Seen(ks, key, now) ==> Alike(ks, ks', now) && reply == Array([]))
            && (Seen(ks, key, now) && counts != [] && (ParseInt(counts[0]).None? || ParseInt(counts[0]).value < 0) ==>
                  Alike(ks, ks', now) && reply == NOT_AN_INTEGER)
  {
    hide Purge, Put, Alike, Leaves, LeavesSome, Apply, PutOrDrop, Aside, Expired, PairsReply, Off, Left, ParseInt;
    var args := [key] + counts;
    assert args[0] == key && (counts != [] ==> args[1] == counts[0]);
    ByName(env, ks, now, name, args);
    Lookup(ks, key, now);
  }

  // Ranges of members.

  /**
    The member is behind the lower bound and in front of the upper one, told from the texts of the bounds: behind a
    parenthesis without the bound itself, "-" and "+" without a bound.
   */
  ghost predicate Between(m: string, min: string, max: string) {
    && (exists a: string :: Bounds(min, a) && (a == "-" || (if min == "(" + a then Less(a, m) else !Less(m, a))))
    && (exists b: string :: Bounds(max, b) && (b == "+" || (if max == "(" + b then Less(m, b) else !Less(b, m))))
  }

  lemma BoundHasText(bound: string) returns (text: string)
    ensures Bounds(bound, text) && forall other: string :: Bounds(bound, other) ==> other == text
  {
    if bound != [] && (bound[0] == '[' || bound[0] == '(') {
      text := bound[1..];
      assert bound == [bound[0]] + text;
    } else {
      text := bound;
    }
  }

  lemma BetweenIff(m: string, min: string, max: string)
    ensures LexInRange(m, min, max) <==> Between(m, min, max)
  {
    hide LexInRange, Less, Bounds;
    var a := BoundHasText(min);
    var b := BoundHasText(max);
    LexBoundsMean(m, min, a, max, b);
  }

  lemma {:induction false} MembersAreOnce(s: seq<Pair>, min: string, max: string, m: string)
    requires UniqueMembers(s)
    ensures multiset(LexMembers(s, min, max))[m] ==
            if LexInRange(m, min, max) && exists p :: p in s && p.member == m then 1 else 0
  {
    hide LexInRange;
    if s != [] {
      var t := s[1..];
      assert s == [s[0]] + t;
      forall i, j | 0 <= i < j < |t| ensures t[i].member != t[j].member {
        assert s[i + 1].member != s[j + 1].member;
      }
      MembersAreOnce(t, min, max, m);
      assert forall i :: 0 <= i < |t| ==> t[i] == s[i + 1] && t[i].member != s[0].member;
      assert (exists p :: p in s && p.member == m) <==> s[0].member == m || exists p :: p in t && p.member == m;
    }
  }

  /** ZRANGEBYLEX replies with the members in the range, each once, in the order of their bytes. */
  lemma LexPromise(env: Env, ks: Keyspace, now: int, key: string, min: string, max: string, s: seq<Pair>)
    returns (r: seq<string>)
    requires ShowsPairs(ks, key, now, s) && UniqueMembers(s)
    ensures forall i, j :: 0 <= i < j < |r| ==> r[i] == r[j] || exists k: nat :: PartAt(r[i], r[j], k)
    ensures forall m: string ::
              multiset(r)[m] == if Between(m, min, max) && exists p :: p in s && p.member == m then 1 else 0
    ensures var (ks', reply) := Apply(env, ks, now, "ZRANGEBYLEX", [key, min, max]);
            Alike(ks, ks', now) && reply == Array(Bulks(r))
  {
    hide Purge, Put, Alike, Leaves, LeavesSome, Apply, PutOrDrop, Aside, Expired, LexMembers, Sort, PartAt, Between,
      LexInRange, UniqueMembers;
    r := Sort(LexMembers(s, min, max));
    SortIsBytewise(LexMembers(s, min, max));
    SortSorts(LexMembers(s, min, max));
    forall m: string
      ensures multiset(r)[m] == if Between(m, min, max) && exists p :: p in s && p.member == m then 1 else 0
    {
      MembersAreOnce(s, min, max, m);
      BetweenIff(m, min, max);
    }
    NoMembers(min, max);
    ByName(env, ks, now, "ZRANGEBYLEX", [key, min, max]);
    Lookup(ks, key, now);
  }

  lemma NoMembers(min: string, max: string)
    ensures Sort(LexMembers([], min, max)) == []
  {
  }

  // What is refused.

  /** How many arguments a sorted-set command may have. */
  predicate ZRightCount(name: string, n: nat) {
    match name
    case "ZCARD" => n == 1
    case "ZSCORE" => n == 2
    case "ZINCRBY" => n == 3
    case "ZCOUNT" => n == 3
    case "ZPOPMIN" => n >= 1
    case "ZPOPMAX" => n >= 1
    case "ZREM" => n >= 2
    case _ => n >= 3
  }

  /** With any other number nothing is done, and the reply names the command. */
  lemma ZWrongCountIsRefused(env: Env, ks: Keyspace, now: int, name: string, args: seq<string>)
    requires name in ZSET_NAMES && !ZRightCount(name, |args|)
    ensures Apply(env, ks, now, name, args) ==
            (ks, Error("ERR wrong number of arguments for '" + ToLower(name) + "' command"))
  {
    hide Apply, ToLower;
    ByName(env, ks, now, name, args);
  }

  /** A key that holds something else is left as it is, and that is the reply, unless an increment cannot be read. */
  lemma ZWrongTypeIsRefused(env: Env, ks: Keyspace, now: int, name: string, args: seq<string>)
    requires name in ZSET_NAMES && ZRightCount(name, |args|)
    requires Seen(ks, args[0], now) && !ks[args[0]].data.Scored?
    ensures var (ks', reply) := Apply(env, ks, now, name, args);
            && Alike(ks, ks', now)
            && reply == if name == "ZINCRBY" && env.parseScore(args[1]).None? then NOT_A_FLOAT else WRONG_TYPE
  {
    hide Purge, Put, Leaves, LeavesSome, Apply, PutOrDrop, Aside, Expired, RangeReply, ScoreRangeReply, LexMembers,
      RemoveMembers, PopPairs, ZAddUnder, Alike;
    AlikeSelf(ks, now);
    ByName(env, ks, now, name, args);
    Lookup(ks, args[0], now);
  }

  /** Where there is a sorted set, bounds and positions that cannot be read change nothing. */
  lemma ZUnreadableIsRefused(env: Env, ks: Keyspace, now: int, key: string, a: string, b: string, s: seq<Pair>)
    requires Seen(ks, key, now) && ShowsPairs(ks, key, now, s)
    ensures env.parseScore(a).None? || env.parseScore(b).None? ==>
              && (var (ks', reply) := Apply(env, ks, now, "ZCOUNT", [key, a, b]);
                  Alike(ks, ks', now) && reply == BOUND_NOT_A_FLOAT)
              && (var (ks', reply) := Apply(env, ks, now, "ZRANGEBYSCORE", [key, a, b]);
                  Alike(ks, ks', now) && reply == BOUND_NOT_A_FLOAT)
              && (var (ks', reply) := Apply(env, ks, now, "ZREVRANGEBYSCORE", [key, a, b]);
                  Alike(ks, ks', now) && reply == BOUND_NOT_A_FLOAT)
    ensures ParseInt(a).None? || ParseInt(b).None? ==>
              && (var (ks', reply) := Apply(env, ks, now, "ZRANGE", [key, a, b]);
                  Alike(ks, ks', now) && reply == NOT_AN_INTEGER)
              && (var (ks', reply) := Apply(env, ks, now, "ZREVRANGE", [key, a, b]);
                  Alike(ks, ks', now) && reply == NOT_AN_INTEGER)
  {
    hide Purge, Put, Leaves, LeavesSome, Apply, PutOrDrop, Aside, Expired, Alike, ParseInt, PairsReply, Limit, Slice,
      InScores, LimitClause;
    ByName(env, ks, now, "ZCOUNT", [key, a, b]);
    ByName(env, ks, now, "ZRANGEBYSCORE", [key, a, b]);
    ByName(env, ks, now, "ZREVRANGEBYSCORE", [key, a, b]);
    ByName(env, ks, now, "ZRANGE", [key, a, b]);
    ByName(env, ks, now, "ZREVRANGE", [key, a, b]);
    Lookup(ks, key, now);
  }
}
