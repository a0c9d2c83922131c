/**
  Replays that come after deadlines: when what they leave to be seen is still what was there. And what the log never
  brings back.
 */
module LateReplays {
  import opened Basics
  import opened Strings
  import opened AppendOnlyFiles
  import opened TornEntries
  import opened Keyspaces
  import opened CommandSpecs
  import opened Deadlines
  import opened Effects
  import opened Delays
  import opened Serving
  import opened Transactions
  import opened Recovery
  import opened Restarts

  // Replaying the same commands later.

  /** The clock of the replay never goes back, is never before the times of the commands, and has come to `now`. */
  ghost predicate ComesAfter(clock: nat -> int, times: nat -> int, n: nat, now: int) {
    && (forall i: nat :: i < n ==> times(i) <= clock(i) <= now)
    && (forall i: nat, j: nat :: i < j < n ==> clock(i) <= clock(j))
  }

  /** The i-th command is not done too late. */
  predicate InTimeAt(env: Env, cs: seq<Command>, times: nat -> int, clock: nat -> int, i: nat)
    requires i < |cs|
  {
    Registered(cs[i].name) ==>
      !Delayed(env, Rebuild(env, cs[..i], times), times(i), clock(i), cs[i].name, cs[i].args)
  }

  ghost predicate InTime(env: Env, cs: seq<Command>, times: nat -> int, clock: nat -> int) {
    forall i :: 0 <= i < |cs| ==> InTimeAt(env, cs, times, clock, i)
  }

  /** After the first m commands the replay shows what was there. */
  ghost predicate ShowsAt(env: Env, cs: seq<Command>, times: nat -> int, clock: nat -> int, m: nat)
    requires 0 < m <= |cs|
  {
    Alike(Rebuild(env, cs[..m], times), Rebuild(env, cs[..m], clock), clock(m - 1))
  }

  /** One command more, done later on what shows the same, shows the same just when it is not done too late. */
  lemma ShowsNextIff(env: Env, cs: seq<Command>, times: nat -> int, clock: nat -> int, m: nat)
    requires m < |cs| && times(m) <= clock(m)
    requires m > 0 ==> clock(m - 1) <= clock(m) && ShowsAt(env, cs, times, clock, m)
    ensures ShowsAt(env, cs, times, clock, m + 1) <==> InTimeAt(env, cs, times, clock, m)
  {
    hide Apply, Delayed, Registered, Live;
    var a, b, c := Rebuild(env, cs[..m], times), Rebuild(env, cs[..m], clock), cs[m];
    assert cs[..m + 1] == cs[..m] + [c];
    RebuildOneMore(env, cs[..m], c, times);
    RebuildOneMore(env, cs[..m], c, clock);
    if m > 0 {
      AlikeLater(a, b, clock(m - 1), clock(m));
    }
    if Registered(c.name) {
      DelayedIff(env, a, times(m), clock(m), c.name, c.args);
      LapsedKeysAreInvisible(env, a, b, clock(m), c.name, c.args);
    }
  }

  /**
    Replayed later, the commands show at every point what was there just when none of them is done too late. Only what
    was there decides that, and the two times.
   */
  lemma {:induction false} LateReplayIff(env: Env, cs: seq<Command>, times: nat -> int, clock: nat -> int, now: int)
    requires ComesAfter(clock, times, |cs|, now)
    ensures (forall m :: 0 < m <= |cs| ==> ShowsAt(env, cs, times, clock, m)) <==> InTime(env, cs, times, clock)
  {
    hide ShowsAt, InTimeAt;
    if InTime(env, cs, times, clock) {
      for m := 0 to |cs|
        invariant forall i :: 0 < i <= m ==> ShowsAt(env, cs, times, clock, i)
      {
        ShowsNextIff(env, cs, times, clock, m);
      }
    } else {
      var m :| 0 <= m < |cs| && !InTimeAt(env, cs, times, clock, m);
      if m > 0 && !ShowsAt(env, cs, times, clock, m) {
        return;
      }
      ShowsNextIff(env, cs, times, clock, m);
    }
  }

  lemma LateRebuildShows(env: Env, cs: seq<Command>, times: nat -> int, clock: nat -> int, now: int)
    requires ComesAfter(clock, times, |cs|, now) && InTime(env, cs, times, clock)
    ensures Alike(Rebuild(env, cs, times), Rebuild(env, cs, clock), now)
  {
    hide InTime;
    LateReplayIff(env, cs, times, clock, now);
    if cs != [] {
      assert ShowsAt(env, cs, times, clock, |cs|) && cs[..|cs|] == cs;
      AlikeLater(Rebuild(env, cs, times), Rebuild(env, cs, clock), clock(|cs| - 1), now);
    }
  }

  // Servers whose keys lapse.

  function At(times: seq<int>): nat -> int {
    (i: nat) => if i < |times| then times[i] else 0
  }

  /** The first n readings of the clock. */
  function Readings(clock: nat -> int, n: nat): (times: seq<int>)
    ensures |times| == n && forall i: nat :: i < n ==> At(times)(i) == clock(i)
  {
    seq(n, (i: nat) => clock(i))
  }

  lemma {:induction false} RebuildAgrees(env: Env, cs: seq<Command>, clock: nat -> int, clock': nat -> int)
    requires forall i: nat :: i < |cs| ==> clock(i) == clock'(i)
    ensures Rebuild(env, cs, clock) == Rebuild(env, cs, clock')
    decreases |cs|
  {
    if cs != [] {
      RebuildAgrees(env, cs[..|cs| - 1], clock, clock');
    }
  }

  /**
    The log holds these commands, done at these times, and what can be seen in database 0 at `now` is what they have
    left. Keys may have lapsed, and some may have been removed for it and others not.
   */
  ghost predicate Tracks(cfg: Config, w: World, cs: seq<Command>, times: seq<int>, now: int) {
    && |w.dbs| > 0 && w.log == EncodeLog(cs) && AllLoggable(cs) && |times| == |cs|
    && (forall i :: 0 < i < |w.dbs| ==> w.dbs[i] == map[])
    && Alike(w.dbs[0], Rebuild(cfg.env, cs, At(times)), now)
  }

  /** A command that the replay can do again. */
  predicate Replayable(c: Command) {
    !Unmodelled(c.name) && c.name != "FLUSHALL" && Loggable(c)
  }

  ghost predicate AllReplayable(acts: seq<Act>) {
    forall i :: 0 <= i < |acts| && acts[i].Exec? ==> Replayable(acts[i].c)
  }

  /** The time of the last command, or the one from which the acts begin. */
  function TimeAfter(acts: seq<Act>, start: int): int
    decreases |acts|
  {
    if acts == [] then start
    else if acts[|acts| - 1].Exec? then acts[|acts| - 1].now
    else TimeAfter(acts[..|acts| - 1], start)
  }

  /** The clock does not go back. */
  ghost predicate InOrder(acts: seq<Act>, start: int) {
    forall i :: 0 <= i < |acts| && acts[i].Exec? ==> TimeAfter(acts[..i], start) <= acts[i].now
  }

  /** The times of the commands that a sequential run writes to the log. */
  function LoggedTimes(acts: seq<Act>): (times: seq<int>)
    ensures |times| == |Logged(acts)|
    decreases |acts|
  {
    if acts == [] then []
    else
      var a := acts[|acts| - 1];
      LoggedTimes(acts[..|acts| - 1]) + (if a.Exec? && Logs(a.c) then [a.now] else [])
  }

  lemma WriterTracks(cfg: Config, w: World, c: Command, now: int, cs: seq<Command>, times: seq<int>)
    requires cfg.aof && Tracks(cfg, w, cs, times, now) && Logs(c) && Loggable(c)
    ensures Tracks(cfg, Execute(cfg, w, 0, now, c).0, cs + [c], times + [now], now)
  {
    hide Apply, Registered, EncodeLog, EncodeCommand, Live;
    EncodeLogAppend(cs, c);
    RebuildOneMore(cfg.env, cs, c, At(times + [now]));
    RebuildAgrees(cfg.env, cs, At(times), At(times + [now]));
    LapsedKeysAreInvisible(cfg.env, w.dbs[0], Rebuild(cfg.env, cs, At(times)), now, c.name, c.args);
    assert AllLoggable(cs + [c]);
  }

  lemma ReaderTracks(cfg: Config, w: World, db: nat, c: Command, now: int, cs: seq<Command>, times: seq<int>)
    requires Tracks(cfg, w, cs, times, now) && !Logs(c) && c.name != "FLUSHALL" && db < |w.dbs|
    ensures Tracks(cfg, Execute(cfg, w, db, now, c).0, cs, times, now)
  {
    hide Apply, Registered, EncodeLog, IsWriteCommand, Live;
    if c.name != "SELECT" && Registered(c.name) {
      NotLoggedOnlyRead(c.name);
      ReadersChangeNothing(cfg.env, w.dbs[db], now, c.name, c.args);
      if db != 0 {
        assert NoneDue(w.dbs[db], now);
        assert w.dbs[db := w.dbs[db]] == w.dbs;
      }
    }
  }

  lemma LaterTracks(cfg: Config, w: World, cs: seq<Command>, times: seq<int>, now: int, later: int)
    requires Tracks(cfg, w, cs, times, now) && now <= later
    ensures Tracks(cfg, w, cs, times, later)
  {
    AlikeLater(w.dbs[0], Rebuild(cfg.env, cs, At(times)), now, later);
  }

  /** What runs from a world that its log tracks is tracked by what it adds to the log. */
  lemma {:induction false} RunTracks(cfg: Config, w: World, cs: seq<Command>, times: seq<int>, acts: seq<Act>,
                                     start: int)
    requires cfg.aof && Tracks(cfg, w, cs, times, start)
    requires AllReplayable(acts) && InZero(acts, |w.dbs|) && InOrder(acts, start)
    ensures Tracks(cfg, DoAll(cfg, Plain(w, map[]), acts).world, cs + Logged(acts), times + LoggedTimes(acts),
                   TimeAfter(acts, start))
    decreases |acts|
  {
    hide Logs, Execute, Alike, Loggable, Unmodelled;
    if acts == [] {
      assert cs + [] == cs && times + [] == times;
    } else {
      var n := |acts| - 1;
      var front, a := acts[..n], acts[n];
      FrontInOrder(acts, |w.dbs|, start);
      RunTracks(cfg, w, cs, times, front, start);
      var p := DoAll(cfg, Plain(w, map[]), front);
      SelectedIsUsed(cfg, w, front, a.id);
      var cs1, times1 := cs + Logged(front), times + LoggedTimes(front);
      hide Tracks;
      if a.Exec? {
        LaterTracks(cfg, p.world, cs1, times1, TimeAfter(front, start), a.now);
        if Logs(a.c) {
          WriterTracks(cfg, p.world, a.c, a.now, cs1, times1);
          assert cs1 + [a.c] == cs + Logged(acts) && times1 + [a.now] == times + LoggedTimes(acts);
        } else {
          ReaderTracks(cfg, p.world, Uses(p, a.id), a.c, a.now, cs1, times1);
          assert cs1 == cs + Logged(acts) && times1 == times + LoggedTimes(acts);
        }
      } else {
        assert cs1 == cs + Logged(acts) && times1 == times + LoggedTimes(acts);
      }
    }
  }

  lemma FrontInOrder(acts: seq<Act>, n: nat, start: int)
    requires acts != [] && AllReplayable(acts) && InZero(acts, n) && InOrder(acts, start)
    ensures var front := acts[..|acts| - 1]; AllReplayable(front) && InZero(front, n) && InOrder(front, start)
  {
    var front := acts[..|acts| - 1];
    assert forall i :: 0 <= i < |front| ==> front[..i] == acts[..i] && front[i] == acts[i];
  }

  /** A server that has just been started is tracked by its log, at the times of the replay. */
  lemma RestartedTracks(cfg: Config, n: nat, cs: seq<Command>, clock: nat -> int, now: int)
    requires n > 0 && AllLoggable(cs)
    ensures Tracks(cfg, Restarted(cfg.env, n, EncodeLog(cs), clock), cs, Readings(clock, |cs|), now)
  {
    hide EncodeLog, Replayed, Live, Rebuild, Readings, Loggable;
    LogReplays(cs);
    RebuildAgrees(cfg.env, cs, clock, At(Readings(clock, |cs|)));
  }

  /**
    A server handles its clients' requests while keys lapse and are removed or not, and its log is replayed after
    deadlines that it gave: as long as no command is done too late, the replay shows in every database what was there.
   */
  lemma LateRestartShows(cfg: Config, w: World, cs: seq<Command>, times: seq<int>, es: seq<Event>, start: int,
                         clock: nat -> int, now: int)
    requires cfg.aof && Tracks(cfg, w, cs, times, start)
    requires AllReplayable(Serial(es)) && InZero(Serial(es), |w.dbs|) && InOrder(Serial(es), start)
    requires TimeAfter(Serial(es), start) <= now
    requires var cs', times' := cs + Logged(Serial(es)), At(times + LoggedTimes(Serial(es)));
             ComesAfter(clock, times', |cs'|, now) && InTime(cfg.env, cs', times', clock)
    ensures var w' := Run(cfg, Opened(w), es).world;
            forall i :: 0 <= i < |w'.dbs| ==>
              Live(Restored(cfg.env, |w'.dbs|, w'.log, clock)[i], now) == Live(w'.dbs[i], now)
  {
    hide Run, Serial, DoAll, Logged, LoggedTimes, InTime, ComesAfter, InZero, AllReplayable, InOrder, TimeAfter,
      EncodeLog, Replayed, Live;
    var acts, cs', times' := Serial(es), cs + Logged(Serial(es)), times + LoggedTimes(Serial(es));
    RunIsSerial(cfg, w, es);
    RunTracks(cfg, w, cs, times, acts, start);
    var w' := Run(cfg, Opened(w), es).world;
    LaterTracks(cfg, w', cs', times', TimeAfter(acts, start), now);
    LogReplays(cs');
    LateRebuildShows(cfg.env, cs', At(times'), clock, now);
  }

  // What the log does not bring back.

  /** A SET that stores comes back just when the replay reads the same time, or its deadline is a point in time. */
  lemma SetSurvivesRestartIff(cfg: Config, w: World, now: int, args: seq<string>, cs: seq<Command>, clock: nat -> int,
                              end: int)
    requires cfg.aof && Recoverable(cfg, w, cs, clock, end) && Loggable(Command("SET", args))
    requires now <= end && clock(|cs|) <= end && SetText(w.dbs[0], now, args).1 == OK_REPLY
    ensures var w' := Execute(cfg, w, 0, now, Command("SET", args)).0;
            Restored(cfg.env, |w.dbs|, w'.log, clock) == w'.dbs <==> now == clock(|cs|) || Absolute(args)
  {
    hide ApplyList, ApplyZSet, SetText, Absolute, Restored, Execute, EncodeLog, Loggable, NoneDue;
    var c, t, ks := Command("SET", args), clock(|cs|), w.dbs[0];
    assert "SET" in KEY_NAMES && "SET" !in LIST_NAMES && "SET" !in ZSET_NAMES && IsWriteCommand("SET");
    WriterRedone(cfg, w, 0, now, c, cs, clock, end);
    StoredAlikeIff(ks, now, t, end, args);
    var live, redone := SetText(ks, now, args).0, SetText(ks, t, args).0;
    assert w.dbs[0 := live][0] == live && w.dbs[0 := redone][0] == redone;
  }

  lemma StoredAlikeIff(ks: Keyspace, now: int, now': int, end: int, args: seq<string>)
    requires NoneDue(ks, end) && now <= end && now' <= end && SetText(ks, now, args).1 == OK_REPLY
    ensures SetText(ks, now, args).0 == SetText(ks, now', args).0 <==> now == now' || Absolute(args)
  {
    hide ParseSetOptions, Absolute, NoneDue;
    NothingToPurge(ks, ArgStr(args, 0), now, end);
    NothingToPurge(ks, ArgStr(args, 0), now', end);
    OptionsReadAlike(args, 2, now, now', NO_OPTIONS, NO_OPTIONS);
    OptionsIgnoreClockIff(args, now, now');
    var o, o' := ParseSetOptions(args, 2, now, NO_OPTIONS).value, ParseSetOptions(args, 2, now', NO_OPTIONS).value;
    var live, redone := SetText(ks, now, args).0, SetText(ks, now', args).0;
    assert live[args[0]] == Entry(Text(args[1]), o.expiry) && redone[args[0]] == Entry(Text(args[1]), o'.expiry);
  }

  const SET_UNTIL := Command("SET", ["k", "v", "EXAT", "100"])
  const SET_FOR := Command("SET", ["k", "v", "EX", "100"])
  const PUSH := Command("RPUSH", ["k", "a"])

  lemma HundredIsRead()
    ensures ParseInt("100") == Some(100)
  {
    assert FormatNat(1) == "1" && FormatNat(10) == "1" + ['0'] == "10" && FormatNat(100) == "10" + ['0'];
    ParseFormatted(100);
    assert FormatInt(100) == "100";
  }

  lemma SetGives(ks: Keyspace, now: int, opt: string)
    requires ToUpper(opt) == opt && IsExpiryOption(opt)
    ensures SetText(ks, now, ["k", "v", opt, "100"]) ==
            (ks["k" := Entry(Text("v"), Deadline(opt, "100", now))], OK_REPLY)
  {
    hide ParseInt, ToUpper, FormatInt;
    var args := ["k", "v", opt, "100"];
    HundredIsRead();
    var d := Deadline(opt, args[3], now);
    assert d.Some?;
    var o := NO_OPTIONS.(expiry := d);
    assert ParseSetOptions(args, 2, now, NO_OPTIONS) == ParseSetOptions(args, 4, now, o);
  }

  lemma SetUntil(ks: Keyspace, now: int)
    ensures SetText(ks, now, SET_UNTIL.args) == (ks["k" := Entry(Text("v"), Some(100 * SECOND))], OK_REPLY)
  {
    assert ToUpper("EXAT") == "EXAT";
    hide ParseInt, ToUpper, FormatInt, SetText;
    HundredIsRead();
    SetGives(ks, now, "EXAT");
  }

  lemma SetFor(ks: Keyspace, now: int)
    ensures SetText(ks, now, SET_FOR.args) == (ks["k" := Entry(Text("v"), Some(now + 100 * SECOND))], OK_REPLY)
  {
    assert ToUpper("EX") == "EX";
    hide ParseInt, ToUpper, FormatInt, SetText;
    HundredIsRead();
    SetGives(ks, now, "EX");
  }

  lemma SetForIsLogged(env: Env, ks: Keyspace, now: int)
    ensures Logs(SET_FOR) && Loggable(SET_FOR)
    ensures Apply(env, ks, now, "SET", SET_FOR.args) == SetText(ks, now, SET_FOR.args)
  {
    hide SetText;
    assert ToUpper("SET") == "SET";
    assert "SET" in KEY_NAMES && "SET" !in LIST_NAMES && "SET" !in ZSET_NAMES;
  }

  /** A key set for a hundred seconds: the replay starts them anew. */
  lemma DurationStartsAnew(cfg: Config, n: nat, now: int, clock: nat -> int)
    requires cfg.aof && n > 0
    ensures var w := Execute(cfg, Start(n), 0, now, SET_FOR).0;
            && w.dbs[0] == map["k" := Entry(Text("v"), Some(now + 100 * SECOND))]
            && Restored(cfg.env, n, w.log, clock)[0] == map["k" := Entry(Text("v"), Some(clock(0) + 100 * SECOND))]
  {
    hide Apply, Registered, Replayed, EncodeLog, SetText, Execute, Restored, Logs, Loggable;
    var none: Keyspace := map[];
    SetForIsLogged(cfg.env, none, now);
    SetForIsLogged(cfg.env, none, clock(0));
    SetFor(none, now);
    SetFor(none, clock(0));
    StartRecoverable(cfg, n, clock, now);
    WriterRedone(cfg, Start(n), 0, now, SET_FOR, [], clock, now);
  }

  lemma PushAfter(ks: Keyspace, now: int)
    requires ks == map["k" := Entry(Text("v"), Some(100 * SECOND))]
    ensures Push(ks, now, "RPUSH", ["k", "a"], false).0 ==
            if now <= 100 * SECOND then ks else map["k" := Entry(Items(["a"]), None)]
  {
    if now > 100 * SECOND {
      assert Purge(ks, "k", now) == map[];
      assert ["k", "a"][1..] == ["a"] && [] + ["a"] == ["a"];
    }
  }

  lemma AppliedAs(env: Env, ks: Keyspace, now: int)
    ensures Logs(SET_UNTIL) && Loggable(SET_UNTIL) && Logs(PUSH) && Loggable(PUSH)
    ensures Apply(env, ks, now, "SET", SET_UNTIL.args) == SetText(ks, now, SET_UNTIL.args)
    ensures Apply(env, ks, now, "RPUSH", PUSH.args) == Push(ks, now, "RPUSH", PUSH.args, false)
  {
    hide SetText, Push;
    assert ToUpper("SET") == "SET" && ToUpper("RPUSH") == "RPUSH";
    assert "SET" in KEY_NAMES && "SET" !in LIST_NAMES && "SET" !in ZSET_NAMES && "RPUSH" in LIST_NAMES;
  }

  lemma LoggedStep(cfg: Config, p: Plain, id: int, c: Command, now: int)
    requires cfg.aof && Sound(p) && Uses(p, id) == 0 && Logs(c)
    ensures var p' := Do(cfg, p, Exec(id, c, now));
            && Uses(p', id) == 0 && p'.world.log == p.world.log + EncodeCommand(c)
            && p'.world.dbs == p.world.dbs[0 := Apply(cfg.env, p.world.dbs[0], now, c.name, c.args).0]
  {
    hide Apply, Registered, EncodeCommand;
  }

  lemma RunOfTwo(cfg: Config, p: Plain, a: Act, b: Act)
    requires Sound(p)
    ensures DoAll(cfg, p, [a, b]) == Do(cfg, Do(cfg, p, a), b)
  {
    hide Do;
    assert [a, b][..1] == [a] && [a][..0] == [];
    assert DoAll(cfg, p, []) == p && DoAll(cfg, p, [a]) == Do(cfg, p, a);
  }

  lemma RebuildOfTwo(env: Env, c: Command, d: Command, clock: nat -> int)
    ensures Rebuild(env, [c, d], clock) == Redo(env, Redo(env, map[], clock(0), c), clock(1), d)
  {
    RebuildOneMore(env, [], c, clock);
    RebuildOneMore(env, [c], d, clock);
    assert [] + [c] == [c] && [c] + [d] == [c, d];
  }

  /**
    A deadline that has passed before the replay: a push that was refused, and logged all the same, now finds no
    string in its way and leaves a list that no client has ever seen.
   */
  lemma RefusedPushIsRevived(cfg: Config, n: nat, clock: nat -> int)
    requires cfg.aof && n > 0 && clock(0) > 100 * SECOND && clock(1) > 100 * SECOND
    ensures var acts := [Exec(0, SET_UNTIL, 50 * SECOND), Exec(0, PUSH, 60 * SECOND)];
            var w := DoAll(cfg, Plain(Start(n), map[]), acts).world;
            && w.dbs[0] == map["k" := Entry(Text("v"), Some(100 * SECOND))]
            && Restored(cfg.env, n, w.log, clock)[0] == map["k" := Entry(Items(["a"]), None)]
  {
    assert Registered("SET") && Registered("RPUSH");
    hide SetText, Push, Replayed, EncodeCommand, Do, Rebuild, Logs, Loggable, Apply, DoAll;
    var p := Plain(Start(n), map[]);
    var none: Keyspace := map[];
    var until := none["k" := Entry(Text("v"), Some(100 * SECOND))];
    AppliedAs(cfg.env, none, 50 * SECOND);
    AppliedAs(cfg.env, until, 60 * SECOND);
    AppliedAs(cfg.env, none, clock(0));
    AppliedAs(cfg.env, until, clock(1));
    SetUntil(none, 50 * SECOND);
    SetUntil(none, clock(0));
    PushAfter(until, 60 * SECOND);
    PushAfter(until, clock(1));
    RunOfTwo(cfg, p, Exec(0, SET_UNTIL, 50 * SECOND), Exec(0, PUSH, 60 * SECOND));
    LoggedStep(cfg, p, 0, SET_UNTIL, 50 * SECOND);
    LoggedStep(cfg, Do(cfg, p, Exec(0, SET_UNTIL, 50 * SECOND)), 0, PUSH, 60 * SECOND);
    LogOfTwo(SET_UNTIL, PUSH);
    LogReplays([SET_UNTIL, PUSH]);
    RebuildOfTwo(cfg.env, SET_UNTIL, PUSH, clock);
  }

  /** It is done too late. */
  lemma RefusedPushIsDelayed(env: Env, later: int)
    requires later > 100 * SECOND
    ensures Delayed(env, map["k" := Entry(Text("v"), Some(100 * SECOND))], 60 * SECOND, later, "RPUSH", PUSH.args)
  {
  }

  lemma LogOfTwo(c: Command, d: Command)
    ensures EncodeLog([c, d]) == [] + EncodeCommand(c) + EncodeCommand(d)
  {
    EncodeLogAppend([], c);
    EncodeLogAppend([c], d);
    assert [] + [c] == [c] && [c] + [d] == [c, d];
  }

  /** What a client wrote after selecting another database comes back in database 0. */
  lemma WriteElsewhereIsMisplaced(cfg: Config, n: nat, db: nat, key: string, text: string, now: int, clock: nat -> int)
    requires cfg.aof && 0 < db < n && IsInt64(|key|) && IsInt64(|text|)
    ensures var w := Execute(cfg, Start(n), db, now, PlainSet(key, text, false)).0;
            Restored(cfg.env, n, w.log, clock) != w.dbs
  {
    hide Apply, Registered, Replayed, EncodeLog, PlainSet;
    var c, w := PlainSet(key, text, false), Start(n);
    var none: Keyspace := map[];
    StartRecoverable(cfg, n, clock, now);
    PlainSetIsLoggable(key, text, false);
    PlainSetStores(cfg.env, none, now, key, text, false);
    PlainSetStores(cfg.env, none, clock(0), key, text, false);
    WriterRedone(cfg, w, db, now, c, [], clock, now);
    var made := none[key := Entry(Text(text), None)];
    assert AllEmpty(n)[db := made][0] == none && AllEmpty(n)[0 := made][0] == made;
    assert key in made;
  }

  /** What FLUSHALL removed from database 0 comes back. */
  lemma FlushedDataReturns(cfg: Config, n: nat, key: string, text: string, now: int, clock: nat -> int)
    requires cfg.aof && n > 0 && IsInt64(|key|) && IsInt64(|text|)
    ensures var w := Execute(cfg, Start(n), 0, now, PlainSet(key, text, false)).0;
            var w' := Execute(cfg, w, 0, now, Command("FLUSHALL", [])).0;
            Restored(cfg.env, n, w'.log, clock) == w.dbs && w.dbs != w'.dbs
  {
    hide Apply, Registered, Replayed, EncodeLog, PlainSet;
    var c := PlainSet(key, text, false);
    var none: Keyspace := map[];
    StartRecoverable(cfg, n, clock, now);
    PlainSetIsLoggable(key, text, false);
    PlainSetStores(cfg.env, none, now, key, text, false);
    PlainSetStores(cfg.env, none, clock(0), key, text, false);
    WriterRedone(cfg, Start(n), 0, now, c, [], clock, now);
    var w := Execute(cfg, Start(n), 0, now, c).0;
    assert key in w.dbs[0];
    assert Execute(cfg, w, 0, now, Command("FLUSHALL", [])).0 == w.(dbs := AllEmpty(n));
  }
}
