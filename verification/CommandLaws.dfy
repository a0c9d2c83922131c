/** Laws of the commands: what moving elements conserves, what options and ranges mean, and what undoes what. */
module CommandLaws {
  import opened Basics
  import opened Strings
  import opened Pairs
  import opened Resp
  import opened Keyspaces
  import opened CommandSpecs
  import opened Effects

  // Moving elements between lists.

  /** The elements a client sees under a key, if that is a list. */
  function Visible(ks: Keyspace, key: string, now: int): seq<string> {
    match GetItems(Purge(ks, key, now), key) case There(s) => s case _ => []
  }

  /** The elements under both keys together. */
  function Total(ks: Keyspace, src: string, dst: string, now: int): multiset<string> {
    if src == dst then multiset(Visible(ks, src, now))
    else multiset(Visible(ks, src, now)) + multiset(Visible(ks, dst, now))
  }

  lemma OffAndLeft<T>(s: seq<T>, fromHead: bool)
    requires s != []
    ensures multiset(s) == multiset{Off(s, 1, fromHead)[0]} + multiset(Left(s, 1, fromHead))
  {
    if fromHead {
      assert s == [s[0]] + s[1..];
    } else {
      assert s == s[..|s| - 1] + [s[|s| - 1]];
      assert Off(s, 1, false)[0] == s[|s| - 1];
    }
  }

  /** What delivery does to what can be seen: the value arrives just when it should. */
  lemma DeliverArrives(ks: Keyspace, now: int, key: string, v: string, to: Option<bool>)
    ensures var ks', s := Deliver(ks, now, key, v, to).0, Visible(ks, key, now);
            Visible(ks', key, now) ==
            if to.None? || GetItems(Purge(ks, key, now), key) == Wrong then s
            else if to.value then [v] + s else s + [v]
    ensures forall k :: k != key ==> (k in Deliver(ks, now, key, v, to).0 <==> k in ks)
    ensures forall k :: k != key && k in ks ==> Deliver(ks, now, key, v, to).0[k] == ks[k]
  {
  }

  lemma TakeOff(ks: Keyspace, now: int, src: string, s: seq<string>, fromHead: bool)
    requires src in ks && !Expired(ks[src], now) && ks[src].data == Items(s) && s != []
    ensures var ks1 := PutOrDrop(ks, src, Items(Left(s, 1, fromHead)));
            && Visible(ks1, src, now) == Left(s, 1, fromHead)
            && GetItems(Purge(ks1, src, now), src) != Wrong
            && (forall k :: k != src ==> (k in ks1 <==> k in ks) && (k in ks ==> ks1[k] == ks[k]))
  {
  }

  lemma SameKeySameView(ks: Keyspace, ks': Keyspace, key: string, now: int)
    requires key in ks <==> key in ks'
    requires key in ks ==> ks[key] == ks'[key]
    ensures Visible(ks, key, now) == Visible(ks', key, now)
    ensures GetItems(Purge(ks, key, now), key) == GetItems(Purge(ks', key, now), key)
  {
  }

  lemma OneMore(s: seq<string>, v: string, head: bool)
    ensures multiset(if head then [v] + s else s + [v]) == multiset(s) + multiset{v}
  {
  }

  /** An element off one list: the elements of both together stay the same just when it arrives on the other. */
  lemma Arithmetic(s: seq<string>, rest: seq<string>, v: string, t: seq<string>, arrives: bool, head: bool)
    requires multiset(s) == multiset{v} + multiset(rest)
    ensures var t' := if !arrives then t else if head then [v] + t else t + [v];
            && (multiset(rest) + multiset(t') == multiset(s) + multiset(t) <==> arrives)
            && (t == rest ==> (multiset(t') == multiset(s) <==> arrives))
  {
    if arrives {
      OneMore(t, v, head);
    } else {
      assert (multiset(rest) + multiset(t))[v] < (multiset(s) + multiset(t))[v];
    }
  }

  /** The element gets to dst: that holds no other type, and `to` is a direction. */
  predicate Arrives(ks: Keyspace, now: int, dst: string, to: Option<bool>) {
    to.Some? && GetItems(Purge(ks, dst, now), dst) != Wrong
  }

  /** What can be seen under both keys after a move of one element. */
  lemma MoveSeen(ks: Keyspace, now: int, src: string, s: seq<string>, dst: string, fromHead: bool, to: Option<bool>)
    requires src in ks && !Expired(ks[src], now) && ks[src].data == Items(s) && s != []
    ensures var v, rest, ks' :=
            Off(s, 1, fromHead)[0], Left(s, 1, fromHead), Move(ks, now, src, s, dst, fromHead, to).0;
            var t := if src == dst then rest else Visible(ks, dst, now);
            && Visible(ks', dst, now) ==
               (if !Arrives(ks, now, dst, to) then t else if to.value then [v] + t else t + [v])
            && (src != dst ==> Visible(ks', src, now) == rest)
    ensures var ks' := Move(ks, now, src, s, dst, fromHead, to).0;
            forall k :: k != src && k != dst ==> (k in ks' <==> k in ks) && (k in ks ==> ks'[k] == ks[k])
  {
    var v, rest := Off(s, 1, fromHead)[0], Left(s, 1, fromHead);
    var ks1 := PutOrDrop(ks, src, Items(rest));
    TakeOff(ks, now, src, s, fromHead);
    DeliverArrives(ks1, now, dst, v, to);
    if src != dst {
      SameKeySameView(ks, ks1, dst, now);
      SameKeySameView(ks1, Deliver(ks1, now, dst, v, to).0, src, now);
    }
  }

  /**
    Moving one element off a list that is there and not empty conserves the elements under the two keys just when
    it arrives; otherwise it is lost.
   */
  lemma MoveConservesIff(ks: Keyspace, now: int, src: string, s: seq<string>, dst: string, fromHead: bool,
                         to: Option<bool>)
    requires src in ks && !Expired(ks[src], now) && ks[src].data == Items(s) && s != []
    ensures Total(Move(ks, now, src, s, dst, fromHead, to).0, src, dst, now) == Total(ks, src, dst, now)
            <==> Arrives(ks, now, dst, to)
  {
    var v, rest := Off(s, 1, fromHead)[0], Left(s, 1, fromHead);
    var t := if src == dst then rest else Visible(ks, dst, now);
    MoveSeen(ks, now, src, s, dst, fromHead, to);
    OffAndLeft(s, fromHead);
    assert Visible(ks, src, now) == s;
    Arithmetic(s, rest, v, t, Arrives(ks, now, dst, to), to == Some(true));
  }

  lemma PurgeSeenAt(ks: Keyspace, looked: string, now: int, key: string)
    ensures Visible(Purge(ks, looked, now), key, now) == Visible(ks, key, now)
    ensures GetItems(Purge(Purge(ks, looked, now), key, now), key) == GetItems(Purge(ks, key, now), key)
  {
  }

  /** Looking a key up changes nothing that can be seen. */
  lemma PurgeSeen(ks: Keyspace, looked: string, now: int, src: string, dst: string, to: Option<bool>)
    ensures Visible(Purge(ks, looked, now), src, now) == Visible(ks, src, now)
    ensures Total(Purge(ks, looked, now), src, dst, now) == Total(ks, src, dst, now)
    ensures Arrives(Purge(ks, looked, now), now, dst, to) <==> Arrives(ks, now, dst, to)
  {
    PurgeSeenAt(ks, looked, now, src);
    PurgeSeenAt(ks, looked, now, dst);
  }

  /** RPOPLPUSH conserves the elements under its keys just when there is none to take, or dst can take it. */
  lemma RPopLPushConservesIff(ks: Keyspace, now: int, src: string, dst: string)
    ensures Total(RPopLPush(ks, now, [src, dst]).0, src, dst, now) == Total(ks, src, dst, now)
            <==> Visible(ks, src, now) == [] || Arrives(ks, now, dst, Some(true))
  {
    var ks1 := Purge(ks, src, now);
    PurgeSeen(ks, src, now, src, dst, Some(true));
    var s := Visible(ks, src, now);
    if s != [] {
      MoveConservesIff(ks1, now, src, s, dst, false, Some(true));
    }
  }

  /** LMOVE does so just when there is none to take, it is not told where from, or dst can take it. */
  lemma LMoveConservesIff(ks: Keyspace, now: int, src: string, dst: string, from: string, to: string)
    ensures Total(LMove(ks, now, [src, dst, from, to]).0, src, dst, now) == Total(ks, src, dst, now)
            <==> Visible(ks, src, now) == [] || Direction(from).None? || Arrives(ks, now, dst, Direction(to))
  {
    var ks1 := Purge(ks, src, now);
    PurgeSeen(ks, src, now, src, dst, Direction(to));
    var s := Visible(ks, src, now);
    if s != [] && Direction(from).Some? {
      MoveConservesIff(ks1, now, src, s, dst, Direction(from).value, Direction(to));
    }
  }

  const TEXT_ONLY: Keyspace := map["t" := Entry(Text("y"), None)]
  const TEXT_AND_LIST: Keyspace := map["t" := Entry(Text("y"), None), "l" := Entry(Items(["x"]), None)]

  lemma OneElement(now: int)
    ensures Total(TEXT_AND_LIST, "l", "t", now) == multiset{"x"} && Total(TEXT_ONLY, "l", "t", now) == multiset{}
  {
    assert Visible(TEXT_AND_LIST, "l", now) == ["x"] && Visible(TEXT_AND_LIST, "t", now) == [];
    assert Visible(TEXT_ONLY, "l", now) == [] && Visible(TEXT_ONLY, "t", now) == [];
    hide Visible;
  }

  lemma OntoText(now: int)
    ensures RPopLPush(TEXT_AND_LIST, now, ["l", "t"]) == (TEXT_ONLY, WRONG_TYPE)
  {
    assert Left(["x"], 1, false) == [] && TEXT_AND_LIST - {"l"} == TEXT_ONLY;
    assert Move(TEXT_AND_LIST, now, "l", ["x"], "t", false, Some(true)) ==
      Deliver(TEXT_ONLY, now, "t", "x", Some(true));
  }

  /** RPOPLPUSH onto a key that holds a string: an error, and the element is gone. */
  lemma MovedOntoTextIsLost(now: int)
    ensures RPopLPush(TEXT_AND_LIST, now, ["l", "t"]) == (TEXT_ONLY, WRONG_TYPE)
    ensures Total(TEXT_AND_LIST, "l", "t", now) == multiset{"x"} && Total(TEXT_ONLY, "l", "t", now) == multiset{}
  {
    hide Total, RPopLPush;
    OneElement(now);
    OntoText(now);
  }

  /** LMOVE with a destination that is no direction: an error, the element is gone, and an empty list is left. */
  lemma MovedNowhereIsLost(now: int)
    ensures var ks: Keyspace := map["l" := Entry(Items(["x"]), None)];
            var ks': Keyspace := map["m" := Entry(Items([]), None)];
            && LMove(ks, now, ["l", "m", "LEFT", "UP"]) == (ks', SYNTAX_ERROR)
            && Total(ks, "l", "m", now) == multiset{"x"} && Total(ks', "l", "m", now) == multiset{}
  {
    var ks: Keyspace := map["l" := Entry(Items(["x"]), None)];
    var none: Keyspace := map[];
    assert ToUpper("LEFT") == "LEFT" && ToUpper("UP") == "UP";
    assert Left(["x"], 1, true) == [] && ks - {"l"} == none;
    assert Move(ks, now, "l", ["x"], "m", true, None) == Deliver(none, now, "m", "x", None);
  }

  /** n times RPOPLPUSH from a key to itself. */
  function Rotate(ks: Keyspace, now: int, key: string, n: nat): Keyspace
    decreases n
  {
    if n == 0 then ks else RPopLPush(Rotate(ks, now, key, n - 1), now, [key, key]).0
  }

  /** The sequence with its last n elements moved to the front. */
  function Turned<T>(s: seq<T>, n: nat): seq<T>
    requires n <= |s|
  {
    s[|s| - n..] + s[..|s| - n]
  }

  lemma TurnOne(s: seq<string>, n: nat)
    requires 0 < n <= |s|
    ensures var t := Turned(s, n - 1); t != [] && [t[|t| - 1]] + t[..|t| - 1] == Turned(s, n)
  {
  }

  lemma RotateOnce(ks: Keyspace, now: int, key: string, s: seq<string>)
    requires key in ks && !Expired(ks[key], now) && ks[key].data == Items(s) && s != []
    ensures var ks' := RPopLPush(ks, now, [key, key]).0;
            && key in ks' && !Expired(ks'[key], now) && ks' - {key} == ks - {key}
            && ks'[key].data == Items([s[|s| - 1]] + s[..|s| - 1])
  {
    assert Off(s, 1, false)[0] == s[|s| - 1];
    DeliverToSelf(ks, now, key, s[..|s| - 1], s[|s| - 1], Some(true));
  }

  lemma {:induction false} RotateMoves(ks: Keyspace, now: int, key: string, s: seq<string>, n: nat)
    requires key in ks && !Expired(ks[key], now) && ks[key].data == Items(s) && n <= |s|
    ensures var ks' := Rotate(ks, now, key, n);
            key in ks' && !Expired(ks'[key], now) && ks' - {key} == ks - {key} && ks'[key].data == Items(Turned(s, n))
    decreases n
  {
    if n == 0 {
      assert Turned(s, 0) == s;
    } else {
      RotateMoves(ks, now, key, s, n - 1);
      TurnOne(s, n);
      RotateOnce(Rotate(ks, now, key, n - 1), now, key, Turned(s, n - 1));
    }
  }

  /** As many rotations as there are elements bring every element back to its place. */
  lemma RotationRestores(ks: Keyspace, now: int, key: string, s: seq<string>)
    requires key in ks && !Expired(ks[key], now) && ks[key].data == Items(s)
    ensures key in Rotate(ks, now, key, |s|) && Rotate(ks, now, key, |s|)[key].data == Items(s)
    ensures Rotate(ks, now, key, |s|) - {key} == ks - {key}
  {
    RotateMoves(ks, now, key, s, |s|);
    assert Turned(s, |s|) == s;
  }

  // What ranges, options and directions mean.

  function Max(a: int, b: int): int {
    if a < b then b else a
  }

  /**
    Exactly the elements whose positions are from start to stop, negative ones counted from the end, in their order.
   */
  lemma SliceMeans<T>(s: seq<T>, start: int, stop: int)
    ensures var from, to := if start < 0 then |s| + start else start, if stop < 0 then |s| + stop else stop;
            var lo, hi := Max(from, 0), Min(to, |s| - 1);
            && |Slice(s, start, stop)| == Max(hi - lo + 1, 0)
            && forall i :: 0 <= i < |s| && from <= i <= to ==>
                 i - lo < |Slice(s, start, stop)| && Slice(s, start, stop)[i - lo] == s[i]
  {
  }

  /** The bound is the text as it stands, or the text behind a bracket or a parenthesis. */
  predicate Bounds(bound: string, text: string) {
    bound == "[" + text || bound == "(" + text || (bound == text && (text == "" || (text[0] != '[' && text[0] != '(')))
  }

  /**
    Each side of a range is on its own: a parenthesis excludes its bound, a bracket or nothing includes it, and "-"
    below and "+" above, even behind either, bound nothing.
   */
  lemma LexBoundsMean(m: string, min: string, a: string, max: string, b: string)
    requires Bounds(min, a) && Bounds(max, b)
    ensures LexInRange(m, min, max)
            <==> && (a == "-" || (if min == "(" + a then Less(a, m) else !Less(m, a)))
                 && (b == "+" || (if max == "(" + b then Less(m, b) else !Less(b, m)))
  {
    assert LexBound(min) == (a, min == "(" + a) && LexBound(max) == (b, max == "(" + b);
    LessIsTotal(a, m);
    LessIsTotal(b, m);
    if Less(a, m) && Less(m, a) { LessIsTransitive(a, m, a); }
    if Less(b, m) && Less(m, b) { LessIsTransitive(b, m, b); }
    LessIsIrreflexive(a);
    LessIsIrreflexive(b);
    LessIsIrreflexive(m);
  }

  /** The pairs after one score and member of ZADD. */
  function Updated(s: seq<Pair>, f: Flags, score: Score, member: string): seq<Pair> {
    if EffectOf(f, ScoreOf(s, member), score).Skipped? then s else AddPair(s, score, member)
  }

  lemma ScoreGiven(s: seq<Pair>, score: Score, member: string)
    requires Proper(s)
    ensures ScoreOf(AddPair(s, score, member), member) == Some(score)
  {
    AddPairKeepsProper(s, score, member);
    ScoreOfHeld(AddPair(s, score, member), member);
  }

  /**
    NX leaves a member that is held alone and XX one that is not; a member that is held and may change ends with the
    greater score under GT, the lesser under LT, the one it has under both, and the new one without either.
   */
  lemma OptionsMean(s: seq<Pair>, f: Flags, score: Score, member: string)
    requires Proper(s)
    ensures var held, after := ScoreOf(s, member), ScoreOf(Updated(s, f, score, member), member);
            && (held.None? ==> after == if f.xx then None else Some(score))
            && (held.Some? && f.nx ==> after == held)
            && (held.Some? && !f.nx && !f.gt && !f.lt ==> after == Some(score))
            && (held.Some? && !f.nx && f.gt && !f.lt ==>
                 after == Some(if score > held.value then score else held.value))
            && (held.Some? && !f.nx && f.lt && !f.gt ==>
                 after == Some(if score < held.value then score else held.value))
            && (held.Some? && f.gt && f.lt ==> after == held)
  {
    ScoreGiven(s, score, member);
  }

  /** What a score given for a member makes of the one it has. */
  function Ruled(f: Flags, held: Option<Score>, score: Score): Option<Score> {
    if Skips(f, held, score) then held else Some(score)
  }

  /** The score a member ends with, told from the one it has and from the arguments that name it alone. */
  function ScoreAfter(env: Env, args: seq<string>, i: nat, f: Flags, held: Option<Score>, member: string): Option<Score>
    decreases |args| - i
  {
    if i >= |args| then held
    else
      match env.parseScore(args[i])
      case None => held
      case Some(score) =>
        ScoreAfter(env, args, i + 2, f, if ArgStr(args, i + 1) == member then Ruled(f, held, score) else held, member)
  }

  lemma {:induction false} InsertIsLonger(s: seq<Pair>, p: Pair)
    ensures |InsertSorted(s, p)| == |s| + 1
  {
  }

  lemma {:induction false} RemoveIsShorter(s: seq<Pair>, member: string)
    ensures |RemoveMember(s, member)| == |s| - if ScoreOf(s, member).Some? then 1 else 0
  {
    if s != [] && s[0].member != member {
      RemoveIsShorter(s[1..], member);
    }
  }

  /** One pair more where the member was not held, and every other member's score is what it was. */
  lemma AddedOne(s: seq<Pair>, score: Score, member: string, other: string)
    requires Proper(s)
    ensures var s' := AddPair(s, score, member);
            && Proper(s') && |s'| == |s| + (if ScoreOf(s, member).None? then 1 else 0)
            && ScoreOf(s', other) == if other == member then Some(score) else ScoreOf(s, other)
  {
    RemoveIsShorter(s, member);
    InsertIsLonger(RemoveMember(s, member), Pair(score, member));
    AddPairKeepsProper(s, score, member);
    ScoreOfHeld(s, other);
    ScoreOfHeld(AddPair(s, score, member), other);
    match ScoreOf(s, other) {
      case Some(sc) => assert Pair(sc, other) in s;
      case None =>
    }
  }

  /**
    The loop of ZADD: whatever else is given, a member ends with the score that its own arguments give it; and the reply
    counts the members that are new, with CH also those that were given a score again.
   */
  lemma {:induction false} ZAddFromMeans(env: Env, s: seq<Pair>, args: seq<string>, i: nat, f: Flags, added: nat,
                                         changed: nat, member: string)
    requires Proper(s)
    ensures var (s', r) := ZAddFrom(env, s, args, i, f, added, changed);
            && Proper(s') && |s'| >= |s|
            && ScoreOf(s', member) == ScoreAfter(env, args, i, f, ScoreOf(s, member), member)
            && (r.Integer? && !f.ch ==> r.n == added + |s'| - |s|)
            && (r.Integer? && f.ch ==> r.n >= added + changed + |s'| - |s| && (r.n == added + changed ==> s' == s))
    decreases |args| - i
  {
    hide AddPair, Skips;
    if i < |args| && env.parseScore(args[i]).Some? {
      var score, given := env.parseScore(args[i]).value, ArgStr(args, i + 1);
      AddedOne(s, score, given, member);
      var e := EffectOf(f, ScoreOf(s, given), score);
      ZAddFromMeans(env, if e.Skipped? then s else AddPair(s, score, given), args, i + 2, f,
                    if e.Added? then added + 1 else added, if e.Changed? then changed + 1 else changed, member);
    }
  }

  /** The member is one of those from argument i on that come behind a score. */
  predicate Names(args: seq<string>, i: nat, member: string)
    decreases |args| - i
  {
    i < |args| && (ArgStr(args, i + 1) == member || Names(args, i + 2, member))
  }

  lemma {:induction false} OnlyNamedScored(env: Env, args: seq<string>, i: nat, f: Flags, held: Option<Score>,
                                           member: string)
    ensures !Names(args, i, member) ==> ScoreAfter(env, args, i, f, held, member) == held
    ensures held.Some? ==> ScoreAfter(env, args, i, f, held, member).Some?
    decreases |args| - i
  {
    if i < |args| && env.parseScore(args[i]).Some? {
      var score := env.parseScore(args[i]).value;
      OnlyNamedScored(env, args, i + 2, f, if ArgStr(args, i + 1) == member then Ruled(f, held, score) else held,
                      member);
    }
  }

  /**
    ZADD: the reply without CH is how many members more there are. No member is lost, and one that is not named keeps
    its score, also where the reply is an error.
   */
  lemma ZAddMeans(env: Env, s: seq<Pair>, args: seq<string>, member: string)
    requires |args| >= 3 && Proper(s)
    ensures var (s', r) := ZAdded(env, s, args);
            var (f, i) := ZAddOptions(args, 1, Flags(false, false, false, false, false));
            && Proper(s') && |s'| >= |s|
            && (r.Integer? && !f.ch ==> r.n == |s'| - |s|)
            && (r.Integer? && f.ch ==> r.n >= |s'| - |s| && (r.n == 0 ==> s' == s))
            && (ScoreOf(s, member).Some? ==> ScoreOf(s', member).Some?)
            && (!Names(args, i, member) ==> ScoreOf(s', member) == ScoreOf(s, member))
            && (r.Integer? ==> ScoreOf(s', member) == ScoreAfter(env, args, i, f, ScoreOf(s, member), member))
  {
    var (f, i) := ZAddOptions(args, 1, Flags(false, false, false, false, false));
    hide ZAddFrom, ScoreAfter, Names, Proper;
    ZAddFromMeans(env, s, args, i, f, 0, 0, member);
    OnlyNamedScored(env, args, i, f, ScoreOf(s, member), member);
  }

  /**
    LEFT is the first element and the front, RIGHT the last element and the back, in whatever case they are written.
   */
  lemma DirectionsMean(ks: Keyspace, now: int, src: string, dst: string, from: string, to: string)
    requires src != dst && Visible(ks, src, now) != [] && GetItems(Purge(ks, dst, now), dst) != Wrong
    requires ToUpper(from) in {"LEFT", "RIGHT"} && ToUpper(to) in {"LEFT", "RIGHT"}
    ensures var s, t := Visible(ks, src, now), Visible(ks, dst, now);
            var (ks', reply) := LMove(ks, now, [src, dst, from, to]);
            var v := if ToUpper(from) == "LEFT" then s[0] else s[|s| - 1];
            && reply == BulkString(v)
            && Visible(ks', src, now) == (if ToUpper(from) == "LEFT" then s[1..] else s[..|s| - 1])
            && Visible(ks', dst, now) == (if ToUpper(to) == "LEFT" then [v] + t else t + [v])
  {
    var ks1, s := Purge(ks, src, now), Visible(ks, src, now);
    PurgeSeen(ks, src, now, src, dst, Direction(to));
    MoveSeen(ks1, now, src, s, dst, Direction(from).value, Direction(to));
  }

  // What one command undoes of another.

  /** Putting back what was there leaves what was there, unless that was an empty list. */
  lemma PutBackIff(ks: Keyspace, key: string, s1: seq<string>)
    requires GetItems(ks, key) != Wrong
    ensures PutOrDrop(Put(ks, key, Items(s1)), key, Items(ValueOr(GetItems(ks, key), []))) == ks
            <==> GetItems(ks, key) != There([])
  {
    var s := ValueOr(GetItems(ks, key), []);
    PutTwice(ks, key, Items(s1), Items(s));
    if key in ks {
      PutSame(ks, key);
      assert key !in ks - {key};
    } else {
      assert ks - {key} == ks;
    }
  }

  lemma PushedOne(ks: Keyspace, now: int, key: string, v: string, atHead: bool, push: string)
    requires GetItems(Purge(ks, key, now), key) != Wrong
    ensures var s := Visible(ks, key, now);
            Push(ks, now, push, [key, v], atHead) ==
            (Put(Purge(ks, key, now), key, Items(if atHead then [v] + s else s + [v])), Integer(|s| + 1))
  {
    assert [key, v][1..] == [v] && Reverse([v]) == [v];
  }

  lemma PoppedOne(ks: Keyspace, now: int, key: string, s: seq<string>, v: string, atHead: bool, pop: string)
    requires key in ks && !Expired(ks[key], now) && ks[key].data == Items(if atHead then [v] + s else s + [v])
    ensures Pop(ks, now, pop, [key], atHead) == (PutOrDrop(ks, key, Items(s)), BulkString(v))
  {
    var s1 := if atHead then [v] + s else s + [v];
    assert Left(s1, 1, atHead) == s && Off(s1, 1, atHead)[0] == v;
  }

  /**
    Popping at the end where an element has just been pushed gives it back, and leaves what was there just when that was
    no empty list.
   */
  lemma PopUndoesPushIff(ks: Keyspace, now: int, key: string, v: string, atHead: bool, push: string, pop: string)
    requires GetItems(Purge(ks, key, now), key) != Wrong
    ensures var (ks1, n) := Push(ks, now, push, [key, v], atHead);
            var (ks2, reply) := Pop(ks1, now, pop, [key], atHead);
            && n == Integer(|Visible(ks, key, now)| + 1) && reply == BulkString(v)
            && (ks2 == Purge(ks, key, now) <==> GetItems(Purge(ks, key, now), key) != There([]))
  {
    var ks0, s := Purge(ks, key, now), Visible(ks, key, now);
    var s1 := if atHead then [v] + s else s + [v];
    PushedOne(ks, now, key, v, atHead, push);
    PoppedOne(Put(ks0, key, Items(s1)), now, key, s, v, atHead, pop);
    hide Purge, Push, Pop, Put, PutOrDrop, Expired, GetItems;
    PutBackIff(ks0, key, s1);
  }

  /** What comes off and what is left make up the sequence. */
  lemma OffAndLeftMakeUp<T>(s: seq<T>, k: nat, atHead: bool)
    requires k <= |s|
    ensures s == if atHead then Off(s, k, atHead) + Left(s, k, atHead)
            else Left(s, k, atHead) + Reverse(Off(s, k, atHead))
    ensures Left(s, k, atHead) == [] <==> k == |s|
  {
    assert Reverse(Reverse(s[|s| - k..])) == s[|s| - k..];
  }

  /**
    ZPOPMIN and ZPOPMAX: what is popped and what stays make up the sorted set, and the key goes just when nothing stays.
   */
  lemma PoppedAndKept(env: Env, ks: Keyspace, s: seq<Pair>, args: seq<string>, min: bool)
    requires |args| >= 1 && args[0] in ks && ks[args[0]].data == Scored(s) && PopCount(args).Some?
    ensures var (ks', reply) := PopPairs(env, ks, s, args, min);
            var k := Min(PopCount(args).value, |s|);
            && s == (if min then Off(s, k, min) + Left(s, k, min) else Left(s, k, min) + Reverse(Off(s, k, min)))
            && reply == PairsReply(env, Off(s, k, min), true)
            && (args[0] !in ks' <==> PopCount(args).value >= |s|)
            && (args[0] in ks' ==> ks' == ks[args[0] := ks[args[0]].(data := Scored(Left(s, k, min)))])
  {
    var k := Min(PopCount(args).value, |s|);
    OffAndLeftMakeUp(s, k, min);
    assert PopPairs(env, ks, s, args, min) ==
           (PutOrDrop(ks, args[0], Scored(Left(s, k, min))), PairsReply(env, Off(s, k, min), true));
  }
}
