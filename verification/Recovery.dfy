/** Restarting from the log: what a replay rebuilds, when that is the live state, and what a crash leaves of it. */
module Recovery {
  import opened Strings
  import opened AppendOnlyFiles
  import opened Keyspaces
  import opened CommandSpecs
  import opened Deadlines
  import opened Effects
  import opened Serving
  import opened Transactions

  /** The replay handler: a command that is not registered is skipped. */
  function Redo(env: Env, ks: Keyspace, now: int, c: Command): Keyspace {
    if Registered(c.name) then Apply(env, ks, now, c.name, c.args).0 else ks
  }

  /** The commands one after the other, each at its own reading of the clock, from an empty keyspace. */
  function Rebuild(env: Env, cs: seq<Command>, clock: nat -> int): Keyspace
    decreases |cs|
  {
    if cs == [] then map[]
    else Redo(env, Rebuild(env, cs[..|cs| - 1], clock), clock(|cs| - 1), cs[|cs| - 1])
  }

  /** The databases after a restart: the replay runs everything in database 0. */
  function Restored(env: Env, n: nat, log: string, clock: nat -> int): (dbs: seq<Keyspace>)
    requires n > 0
    ensures |dbs| == n
  {
    AllEmpty(n)[0 := Rebuild(env, Replayed(log), clock)]
  }

  /** Whether executing the command writes it to the log. */
  predicate Logs(c: Command) {
    c.name != "SELECT" && c.name != "FLUSHALL" && Registered(c.name) && IsWriteCommand(c.name)
  }

  lemma RebuildOneMore(env: Env, cs: seq<Command>, c: Command, clock: nat -> int)
    ensures Rebuild(env, cs + [c], clock) == Redo(env, Rebuild(env, cs, clock), clock(|cs|), c)
  {
    assert (cs + [c])[..|cs|] == cs;
  }

  lemma LogReplays(cs: seq<Command>)
    requires AllLoggable(cs)
    ensures Replayed(EncodeLog(cs)) == cs
  {
    ReplayedLog(cs, []);
    assert EncodeLog(cs) + [] == EncodeLog(cs) && cs + [] == cs;
  }

  /** Of the modelled commands just those that only read are not logged. */
  lemma NotLoggedOnlyRead(name: string)
    requires Registered(name)
    ensures IsWriteCommand(name) <==> !ReadsOnly(name)
  {
  }

  // One command.

  /** The first n readings of the clock are at `end` at the latest. */
  ghost predicate ReadsBy(clock: nat -> int, n: nat, end: int) {
    forall i: nat :: i < n ==> clock(i) <= end
  }

  /** The log and the databases correspond: a restart would bring the databases back. No deadline is before `end`. */
  ghost predicate Recoverable(cfg: Config, w: World, cs: seq<Command>, clock: nat -> int, end: int) {
    && |w.dbs| > 0 && w.log == EncodeLog(cs) && AllLoggable(cs)
    && NoneDue(w.dbs[0], end)
    && Restored(cfg.env, |w.dbs|, w.log, clock) == w.dbs
  }

  /**
    When a restart still brings the databases back after the command: a FLUSHALL must have nothing to remove from
    database 0, and a logged command that runs in another, empty database must neither make a key there nor change
    database 0, where it is replayed.
   */
  predicate Repeatable(cfg: Config, w: World, db: nat, now: int, c: Command)
    requires |w.dbs| > 0
  {
    if c.name == "FLUSHALL" then w.dbs[0] == map[]
    else Logs(c) && db != 0 ==> !Creates(cfg.env, now, c.name, c.args) && Idle(w.dbs[0], now, c.name, c.args)
  }

  lemma RestoredAt(cfg: Config, w: World, cs: seq<Command>, clock: nat -> int, end: int, db: nat)
    requires Recoverable(cfg, w, cs, clock, end) && db < |w.dbs|
    ensures w.dbs[db] == if db == 0 then Rebuild(cfg.env, cs, clock) else map[]
    ensures NoneDue(w.dbs[db], end)
  {
    LogReplays(cs);
    assert w.dbs[db] == Restored(cfg.env, |w.dbs|, w.log, clock)[db];
  }

  lemma ReaderKeepsWorld(cfg: Config, w: World, db: nat, now: int, end: int, c: Command)
    requires db < |w.dbs| && NoneDue(w.dbs[db], end) && now <= end && Registered(c.name) && !IsWriteCommand(c.name)
    ensures Execute(cfg, w, db, now, c).0 == w
  {
    hide Apply, NoneDue, Live;
    NotLoggedOnlyRead(c.name);
    ReadersChangeNothing(cfg.env, w.dbs[db], now, c.name, c.args);
    assert c.name != "SELECT" && c.name != "FLUSHALL";
    assert w.dbs[db := w.dbs[db]] == w.dbs;
  }

  /** What a logged command does, and what a restart makes of it: the same, but in database 0 and by another clock. */
  lemma WriterRedone(cfg: Config, w: World, db: nat, now: int, c: Command, cs: seq<Command>, clock: nat -> int,
                     end: int)
    requires cfg.aof && Recoverable(cfg, w, cs, clock, end) && db < |w.dbs| && Logs(c) && Loggable(c)
    ensures var w' := Execute(cfg, w, db, now, c).0;
            && w'.dbs == w.dbs[db := Apply(cfg.env, w.dbs[db], now, c.name, c.args).0]
            && w'.log == EncodeLog(cs + [c])
            && Restored(cfg.env, |w.dbs|, w'.log, clock) ==
               w.dbs[0 := Apply(cfg.env, w.dbs[0], clock(|cs|), c.name, c.args).0]
  {
    hide Apply, Registered, Replayed, EncodeLog, EncodeCommand, NoneDue;
    RestoredAt(cfg, w, cs, clock, end, 0);
    EncodeLogAppend(cs, c);
    LogReplays(cs + [c]);
    LogReplays(cs);
    RebuildOneMore(cfg.env, cs, c, clock);
    var there := Apply(cfg.env, w.dbs[0], clock(|cs|), c.name, c.args).0;
    assert Restored(cfg.env, |w.dbs|, EncodeLog(cs + [c]), clock) == w.dbs[0 := there];
  }

  lemma WriterRepeatable(cfg: Config, w: World, db: nat, now: int, c: Command, cs: seq<Command>, clock: nat -> int,
                         end: int)
    requires Recoverable(cfg, w, cs, clock, end) && db < |w.dbs| && Logs(c) && now <= end
    ensures w.dbs[db := Apply(cfg.env, w.dbs[db], now, c.name, c.args).0] ==
            w.dbs[0 := Apply(cfg.env, w.dbs[0], now, c.name, c.args).0]
            <==> Repeatable(cfg, w, db, now, c)
  {
    hide Apply, Idle, Creates, Registered, Recoverable, NoneDue;
    RestoredAt(cfg, w, cs, clock, end, 0);
    RestoredAt(cfg, w, cs, clock, end, db);
    NotLoggedOnlyRead(c.name);
    if db != 0 {
      var here := Apply(cfg.env, w.dbs[db], now, c.name, c.args).0;
      var there := Apply(cfg.env, w.dbs[0], now, c.name, c.args).0;
      var live, redone := w.dbs[db := here], w.dbs[0 := there];
      CreatesIff(cfg.env, now, c.name, c.args);
      if !Creates(cfg.env, now, c.name, c.args) {
        IdleIff(cfg.env, w.dbs[0], now, end, c.name, c.args);
      }
      assert live[db] == here && redone[db] == w.dbs[db] && live[0] == w.dbs[0] && redone[0] == there;
      assert live == redone <==> here == w.dbs[db] && there == w.dbs[0];
    }
  }

  lemma FlushRepeatable(cfg: Config, w: World, cs: seq<Command>, clock: nat -> int, end: int)
    requires Recoverable(cfg, w, cs, clock, end)
    ensures w.dbs == AllEmpty(|w.dbs|) <==> w.dbs[0] == map[]
  {
    forall i | 0 <= i < |w.dbs| ensures i > 0 ==> w.dbs[i] == map[] {
      RestoredAt(cfg, w, cs, clock, end, i);
    }
  }

  lemma WriterIff(cfg: Config, w: World, db: nat, now: int, c: Command, cs: seq<Command>, clock: nat -> int, end: int)
    requires cfg.aof && Recoverable(cfg, w, cs, clock, end) && db < |w.dbs| && Logs(c)
    requires Loggable(c) && GivesNoneDue(c.name, c.args, end) && now <= end && clock(|cs|) <= end
    ensures var w' := Execute(cfg, w, db, now, c).0;
            && w'.log == EncodeLog(cs + [c])
            && (Restored(cfg.env, |w.dbs|, w'.log, clock) == w'.dbs <==> Repeatable(cfg, w, db, now, c))
  {
    hide Apply, Registered, NoneDue, IsWriteCommand, Recoverable, Repeatable, Restored, EncodeLog, Execute,
      Loggable, GivesNoneDue;
    RestoredAt(cfg, w, cs, clock, end, 0);
    WriterRedone(cfg, w, db, now, c, cs, clock, end);
    ApplyIgnoresClock(cfg.env, w.dbs[0], now, clock(|cs|), end, c.name, c.args);
    WriterRepeatable(cfg, w, db, now, c, cs, clock, end);
  }

  lemma OthersKeepWorld(cfg: Config, w: World, db: nat, now: int, c: Command, end: int)
    requires db < |w.dbs| && NoneDue(w.dbs[db], end) && now <= end && !Logs(c) && c.name != "FLUSHALL"
    ensures Execute(cfg, w, db, now, c).0 == w
  {
    hide Apply, Registered, NoneDue, IsWriteCommand;
    if Registered(c.name) && c.name != "SELECT" {
      ReaderKeepsWorld(cfg, w, db, now, end, c);
    }
  }

  /** One command that gives nothing due keeps the databases recoverable just when it is repeatable. */
  lemma ExecuteRecoverableIff(cfg: Config, w: World, db: nat, now: int, c: Command, cs: seq<Command>,
                              clock: nat -> int, end: int)
    requires cfg.aof && Recoverable(cfg, w, cs, clock, end) && db < |w.dbs| && !Unmodelled(c.name)
    requires Loggable(c) && GivesNoneDue(c.name, c.args, end) && now <= end && (Logs(c) ==> clock(|cs|) <= end)
    ensures var w' := Execute(cfg, w, db, now, c).0;
            && w'.log == EncodeLog(if Logs(c) then cs + [c] else cs)
            && (Restored(cfg.env, |w.dbs|, w'.log, clock) == w'.dbs <==> Repeatable(cfg, w, db, now, c))
  {
    hide Apply, Registered, NoneDue, IsWriteCommand, Restored, EncodeLog, Loggable, GivesNoneDue, Creates, Idle;
    RestoredAt(cfg, w, cs, clock, end, db);
    if Logs(c) {
      WriterIff(cfg, w, db, now, c, cs, clock, end);
    } else if c.name == "FLUSHALL" {
      FlushRepeatable(cfg, w, cs, clock, end);
    } else {
      OthersKeepWorld(cfg, w, db, now, c, end);
    }
  }

  lemma ExecuteLeavesNoneDue(cfg: Config, w: World, db: nat, now: int, end: int, c: Command)
    requires db < |w.dbs| && NoneDue(w.dbs[0], end) && NoneDue(w.dbs[db], end)
    requires GivesNoneDue(c.name, c.args, end) && now <= end
    ensures NoneDue(Execute(cfg, w, db, now, c).0.dbs[0], end)
  {
    hide Apply, Registered;
    if Registered(c.name) {
      ApplyIgnoresClock(cfg.env, w.dbs[db], now, now, end, c.name, c.args);
    }
  }

  // Whole runs.

  /** The commands that a sequential run writes to the log. */
  function Logged(acts: seq<Act>): seq<Command>
    decreases |acts|
  {
    if acts == [] then []
    else
      var a := acts[|acts| - 1];
      Logged(acts[..|acts| - 1]) + (if a.Exec? && Logs(a.c) then [a.c] else [])
  }

  /**
    A command for which a replay can do what was done: it is one of the model, or none at all; it flushes nothing; and
    it gives no deadline but such as are not before `end`.
   */
  predicate Fine(c: Command, end: int) {
    !Unmodelled(c.name) && c.name != "FLUSHALL" && Loggable(c) && GivesNoneDue(c.name, c.args, end)
  }

  predicate FineAct(a: Act, end: int) {
    a.Exec? ==> Fine(a.c, end) && a.now <= end
  }

  ghost predicate FineActs(acts: seq<Act>, end: int) {
    forall i :: 0 <= i < |acts| ==> FineAct(acts[i], end)
  }

  /** The database that the client uses after the acts, of n databases: the last it selected, or 0. */
  function Selected(acts: seq<Act>, n: nat, id: int): nat
    decreases |acts|
  {
    if acts == [] then 0
    else
      var before, a := Selected(acts[..|acts| - 1], n, id), acts[|acts| - 1];
      if a.id != id then before
      else if a.Reset? then 0
      else if a.c.name == "SELECT" && |a.c.args| == 1 && SelectsOne(a.c.args[0], n) then ParseInt(a.c.args[0]).value
      else before
  }

  predicate SelectsOne(s: string, n: nat) {
    ParseInt(s).Some? && 0 <= ParseInt(s).value < n
  }

  /** Every command that is logged runs in database 0. */
  ghost predicate InZero(acts: seq<Act>, n: nat) {
    forall i :: 0 <= i < |acts| && acts[i].Exec? && Logs(acts[i].c) ==> Selected(acts[..i], n, acts[i].id) == 0
  }

  lemma {:induction false} SelectedIsUsed(cfg: Config, w: World, acts: seq<Act>, id: int)
    requires |w.dbs| > 0
    ensures Uses(DoAll(cfg, Plain(w, map[]), acts), id) == Selected(acts, |w.dbs|, id)
    decreases |acts|
  {
    hide Apply, Registered;
    if acts != [] {
      SelectedIsUsed(cfg, w, acts[..|acts| - 1], id);
    }
  }

  lemma FrontIsFine(acts: seq<Act>, n: nat, end: int)
    requires acts != [] && FineActs(acts, end) && InZero(acts, n)
    ensures FineActs(acts[..|acts| - 1], end) && InZero(acts[..|acts| - 1], n)
  {
    var front := acts[..|acts| - 1];
    forall i | 0 <= i < |front| && front[i].Exec? && Logs(front[i].c)
      ensures Selected(front[..i], n, front[i].id) == 0
    {
      assert front[..i] == acts[..i] && front[i] == acts[i];
    }
  }

  lemma DoRecoverable(cfg: Config, p: Plain, a: Act, cs: seq<Command>, clock: nat -> int, end: int)
    requires cfg.aof && Sound(p) && Recoverable(cfg, p.world, cs, clock, end) && FineAct(a, end)
    requires a.Exec? && Logs(a.c) ==> Uses(p, a.id) == 0 && clock(|cs|) <= end
    ensures Recoverable(cfg, Do(cfg, p, a).world, if a.Exec? && Logs(a.c) then cs + [a.c] else cs, clock, end)
  {
    hide Apply, Registered, NoneDue, IsWriteCommand;
    if a.Exec? {
      var db := Uses(p, a.id);
      RestoredAt(cfg, p.world, cs, clock, end, db);
      RestoredAt(cfg, p.world, cs, clock, end, 0);
      ExecuteRecoverableIff(cfg, p.world, db, a.now, a.c, cs, clock, end);
      ExecuteLeavesNoneDue(cfg, p.world, db, a.now, end, a.c);
    }
  }

  lemma HasZero(cfg: Config, w: World, cs: seq<Command>, clock: nat -> int, end: int)
    ensures Recoverable(cfg, w, cs, clock, end) ==> |w.dbs| > 0
  {
  }

  /**
    From a world that the replay of its log restores, any run of fine commands whose writes are in database 0 leads to
    such a world: the log, replayed at any later times, restores the live databases as long as no deadline has passed.
   */
  lemma {:induction false} ReplayRestores(cfg: Config, w: World, cs: seq<Command>, acts: seq<Act>, clock: nat -> int,
                                          end: int)
    requires cfg.aof && Recoverable(cfg, w, cs, clock, end)
    requires FineActs(acts, end) && InZero(acts, |w.dbs|) && ReadsBy(clock, |cs| + |Logged(acts)|, end)
    ensures Recoverable(cfg, DoAll(cfg, Plain(w, map[]), acts).world, cs + Logged(acts), clock, end)
    decreases |acts|
  {
    hide Recoverable, Fine, Logs;
    HasZero(cfg, w, cs, clock, end);
    if acts == [] {
      assert cs + [] == cs;
    } else {
      var n := |acts| - 1;
      var front, a := acts[..n], acts[n];
      FrontIsFine(acts, |w.dbs|, end);
      ReplayRestores(cfg, w, cs, front, clock, end);
      var p := DoAll(cfg, Plain(w, map[]), front);
      SelectedIsUsed(cfg, w, front, a.id);
      assert |Logged(acts)| == |Logged(front)| + if a.Exec? && Logs(a.c) then 1 else 0;
      DoRecoverable(cfg, p, a, cs + Logged(front), clock, end);
      assert a.Exec? && Logs(a.c) ==> cs + Logged(front) + [a.c] == cs + Logged(acts);
      assert Logged(front) + [] == Logged(front);
    }
  }

  lemma StartRecoverable(cfg: Config, n: nat, clock: nat -> int, end: int)
    requires n > 0
    ensures Recoverable(cfg, Start(n), [], clock, end)
  {
    LogReplays([]);
    var dbs := AllEmpty(n);
    assert dbs[0 := map[]] == dbs;
  }

  /** Every prefix of what is logged is what some prefix of the run has logged. */
  lemma {:induction false} LoggedUpTo(acts: seq<Act>, j: nat) returns (m: nat)
    requires j <= |Logged(acts)|
    ensures m <= |acts| && Logged(acts[..m]) == Logged(acts)[..j]
    decreases |acts|
  {
    hide Logs;
    m := |acts|;
    if j < |Logged(acts)| {
      var front := acts[..m - 1];
      m := LoggedUpTo(front, j);
      assert acts[..m] == front[..m];
    } else {
      assert acts[..m] == acts && Logged(acts)[..j] == Logged(acts);
    }
  }

  lemma PrefixIsFine(acts: seq<Act>, m: nat, n: nat, end: int)
    requires m <= |acts| && FineActs(acts, end) && InZero(acts, n)
    ensures FineActs(acts[..m], end) && InZero(acts[..m], n)
  {
    var front := acts[..m];
    forall i | 0 <= i < |front| && front[i].Exec? && Logs(front[i].c)
      ensures Selected(front[..i], n, front[i].id) == 0
    {
      assert front[..i] == acts[..i] && front[i] == acts[i];
    }
  }

  /**
    Crash safety: wherever the log is cut off behind what was in it at first, a restart brings back the databases as
    they were after some prefix of the run, whose commands are all those that lie wholly before the cut.
   */
  lemma CrashRestoresPrefix(cfg: Config, w: World, cs: seq<Command>, acts: seq<Act>, clock: nat -> int, end: int,
                            k: nat)
    returns (m: nat)
    requires cfg.aof && Recoverable(cfg, w, cs, clock, end)
    requires FineActs(acts, end) && InZero(acts, |w.dbs|) && ReadsBy(clock, |cs| + |Logged(acts)|, end)
    requires |w.log| <= k <= |DoAll(cfg, Plain(w, map[]), acts).world.log|
    ensures m <= |acts|
    ensures var log, all := DoAll(cfg, Plain(w, map[]), acts).world.log, cs + Logged(acts);
            && cs + Logged(acts[..m]) == all[..Whole(all, k)]
            && Restored(cfg.env, |w.dbs|, log[..k], clock) == DoAll(cfg, Plain(w, map[]), acts[..m]).world.dbs
  {
    hide Logs, EncodeLog, Replayed, NoneDue, Whole, FineActs, InZero, Logged, DoAll;
    var all := cs + Logged(acts);
    ReplayRestores(cfg, w, cs, acts, clock, end);
    CutReplaysWholeCommands(all, k);
    WholeIsExact(all, k, |cs|);
    assert all[..|cs|] == cs;
    var j := Whole(all, k);
    m := LoggedUpTo(acts, j - |cs|);
    assert cs + Logged(acts)[..j - |cs|] == all[..j];
    PrefixIsFine(acts, m, |w.dbs|, end);
    ReplayRestores(cfg, w, cs, acts[..m], clock, end);
    LogReplays(cs + Logged(acts[..m]));
  }

  // From events to acts.

  /** Every command that is requested passes the one test, and every time at which a request is handled the other. */
  ghost predicate RequestsPass(es: seq<Event>, p: Command -> bool, q: int -> bool) {
    forall i :: 0 <= i < |es| && es[i].Request? ==>
      && (ToCommand(es[i].value).Some? ==> p(ToCommand(es[i].value).value))
      && forall j :: q(es[i].clock(j))
  }

  ghost predicate ActsPass(acts: seq<Act>, p: Command -> bool, q: int -> bool) {
    forall i :: 0 <= i < |acts| && acts[i].Exec? ==> p(acts[i].c) && q(acts[i].now)
  }

  lemma {:induction false} QueuesPass(es: seq<Event>, p: Command -> bool, q: int -> bool, id: int)
    requires RequestsPass(es, p, q)
    ensures var st := Stands(es, id); st.Inside? ==> forall i :: 0 <= i < |st.queue| ==> p(st.queue[i])
    decreases |es|
  {
    if es != [] {
      QueuesPass(es[..|es| - 1], p, q, id);
    }
  }

  lemma ActsOfPass(es: seq<Event>, e: Event, p: Command -> bool, q: int -> bool)
    requires RequestsPass([e], p, q)
    requires var st := Stands(es, e.id); st.Inside? ==> forall i :: 0 <= i < |st.queue| ==> p(st.queue[i])
    ensures ActsPass(ActsOf(es, e), p, q)
  {
    hide Stands, ToCommand;
    assert [e][0] == e;
  }

  /** What all requests pass, the sequential run that they amount to passes. */
  lemma {:induction false} SerialPasses(es: seq<Event>, p: Command -> bool, q: int -> bool)
    requires RequestsPass(es, p, q)
    ensures ActsPass(Serial(es), p, q)
    decreases |es|
  {
    if es != [] {
      var front, e := es[..|es| - 1], es[|es| - 1];
      SerialPasses(front, p, q);
      QueuesPass(front, p, q, e.id);
      ActsOfPass(front, e, p, q);
      hide ActsOf;
    }
  }

  /** The requests are for fine commands, and handled at `end` at the latest. */
  ghost predicate FineRequests(es: seq<Event>, end: int) {
    RequestsPass(es, c => Fine(c, end), now => now <= end)
  }

  lemma FineSerial(es: seq<Event>, end: int)
    requires FineRequests(es, end)
    ensures FineActs(Serial(es), end)
  {
    hide Fine, Serial;
    SerialPasses(es, c => Fine(c, end), now => now <= end);
  }

  /**
    The same for a server that was opened on such a world, after any interleaving of its clients' requests, with or
    without transactions: it is enough that what they amount to is fine.
   */
  lemma RestartRestores(cfg: Config, w: World, cs: seq<Command>, es: seq<Event>, clock: nat -> int, end: int)
    requires cfg.aof && Recoverable(cfg, w, cs, clock, end)
    requires FineActs(Serial(es), end) && InZero(Serial(es), |w.dbs|)
    requires ReadsBy(clock, |cs| + |Logged(Serial(es))|, end)
    ensures Recoverable(cfg, Run(cfg, Opened(w), es).world, cs + Logged(Serial(es)), clock, end)
  {
    HasZero(cfg, w, cs, clock, end);
    hide Recoverable, InZero, FineActs, Run, Serial, DoAll, ReadsBy;
    RunIsSerial(cfg, w, es);
    ReplayRestores(cfg, w, cs, Serial(es), clock, end);
  }

  /**
    Any part of its log brings it back to a point of the sequential run, the last one with no more in the log than
    that.
   */
  lemma CrashedRestartRestores(cfg: Config, w: World, cs: seq<Command>, es: seq<Event>, clock: nat -> int, end: int,
                               k: nat)
    returns (m: nat)
    requires cfg.aof && Recoverable(cfg, w, cs, clock, end)
    requires FineActs(Serial(es), end) && InZero(Serial(es), |w.dbs|)
    requires ReadsBy(clock, |cs| + |Logged(Serial(es))|, end)
    requires |w.log| <= k <= |Run(cfg, Opened(w), es).world.log|
    ensures m <= |Serial(es)|
    ensures var log, all := Run(cfg, Opened(w), es).world.log, cs + Logged(Serial(es));
            && cs + Logged(Serial(es)[..m]) == all[..Whole(all, k)]
            && Restored(cfg.env, |w.dbs|, log[..k], clock) ==
               DoAll(cfg, Plain(w, map[]), Serial(es)[..m]).world.dbs
  {
    HasZero(cfg, w, cs, clock, end);
    hide Recoverable, Restored, InZero, FineActs, Logged, Whole, Run, Serial, DoAll, ReadsBy;
    RunIsSerial(cfg, w, es);
    m := CrashRestoresPrefix(cfg, w, cs, Serial(es), clock, end, k);
  }

  // One clock is as good as another.

  /** Commands that give nothing due before `end`, as they stand in a log. */
  ghost predicate FineLog(cs: seq<Command>, end: int) {
    forall i :: 0 <= i < |cs| ==> Loggable(cs[i]) && GivesNoneDue(cs[i].name, cs[i].args, end)
  }

  lemma {:induction false} RebuildIgnoresClock(env: Env, cs: seq<Command>, clock: nat -> int, clock': nat -> int,
                                               end: int)
    requires FineLog(cs, end) && ReadsBy(clock, |cs|, end) && ReadsBy(clock', |cs|, end)
    ensures Rebuild(env, cs, clock) == Rebuild(env, cs, clock') && NoneDue(Rebuild(env, cs, clock), end)
    decreases |cs|
  {
    hide Apply, Registered, Loggable, GivesNoneDue;
    if cs != [] {
      var n := |cs| - 1;
      RebuildIgnoresClock(env, cs[..n], clock, clock', end);
      if Registered(cs[n].name) {
        ApplyIgnoresClock(env, Rebuild(env, cs[..n], clock), clock(n), clock'(n), end, cs[n].name, cs[n].args);
      }
    }
  }

  /** What a replay restores at some times it restores at any others, as long as no deadline has passed. */
  lemma AnyClockRestores(cfg: Config, w: World, cs: seq<Command>, clock: nat -> int, clock': nat -> int, end: int)
    requires |w.dbs| > 0 && w.log == EncodeLog(cs) && FineLog(cs, end)
    requires ReadsBy(clock, |cs|, end) && ReadsBy(clock', |cs|, end)
    requires Restored(cfg.env, |w.dbs|, w.log, clock) == w.dbs
    ensures Recoverable(cfg, w, cs, clock', end)
  {
    hide Rebuild, EncodeLog, Replayed, NoneDue, GivesNoneDue, Loggable;
    RebuildIgnoresClock(cfg.env, cs, clock, clock', end);
    LogReplays(cs);
    assert w.dbs[0] == Restored(cfg.env, |w.dbs|, w.log, clock)[0];
  }

  lemma {:induction false} LoggedIsFine(acts: seq<Act>, end: int)
    requires FineActs(acts, end)
    ensures FineLog(Logged(acts), end)
    decreases |acts|
  {
    hide GivesNoneDue, Loggable, Logs;
    if acts != [] {
      assert FineAct(acts[|acts| - 1], end);
      LoggedIsFine(acts[..|acts| - 1], end);
    }
  }

  // Without SELECT and deadlines.

  /** A command of the model, or none at all, that selects and flushes nothing and gives no deadline. */
  predicate Simple(c: Command) {
    && !Unmodelled(c.name) && c.name != "FLUSHALL" && c.name != "SELECT"
    && Loggable(c) && GivesNoDeadline(c.name, c.args)
  }

  ghost predicate SimpleActs(acts: seq<Act>) {
    forall i :: 0 <= i < |acts| && acts[i].Exec? ==> Simple(acts[i].c)
  }

  ghost predicate SimpleLog(cs: seq<Command>) {
    forall i :: 0 <= i < |cs| ==> Simple(cs[i])
  }

  lemma SimpleSerial(es: seq<Event>)
    requires RequestsPass(es, Simple, _ => true)
    ensures SimpleActs(Serial(es))
  {
    hide Simple, Serial;
    SerialPasses(es, Simple, _ => true);
  }

  lemma {:induction false} SelectsNothing(acts: seq<Act>, n: nat, id: int)
    requires SimpleActs(acts)
    ensures Selected(acts, n, id) == 0
    decreases |acts|
  {
    if acts != [] {
      SelectsNothing(acts[..|acts| - 1], n, id);
    }
  }

  /** A time after all that happens in the run, and in the replay of what it logs. */
  lemma {:induction false} Latest(acts: seq<Act>, clock: nat -> int, n: nat) returns (end: int)
    ensures ReadsBy(clock, n, end) && forall i :: 0 <= i < |acts| && acts[i].Exec? ==> acts[i].now <= end
    decreases |acts| + n
  {
    if n > 0 {
      end := Latest(acts, clock, n - 1);
      end := if clock(n - 1) > end then clock(n - 1) else end;
    } else if acts != [] {
      var a := acts[|acts| - 1];
      end := Latest(acts[..|acts| - 1], clock, n);
      end := if a.Exec? && a.now > end then a.now else end;
    } else {
      end := 0;
    }
  }

  lemma SimpleIsFine(acts: seq<Act>, n: nat, end: int)
    requires SimpleActs(acts) && forall i :: 0 <= i < |acts| && acts[i].Exec? ==> acts[i].now <= end
    ensures FineActs(acts, end) && InZero(acts, n)
  {
    hide GivesNoDeadline, GivesNoneDue, Loggable, Logs;
    forall i | 0 <= i < |acts| ensures FineAct(acts[i], end) {
      if acts[i].Exec? {
        NoDeadlineIsNoneDue(acts[i].c.name, acts[i].c.args, end);
      }
    }
    forall i | 0 <= i < |acts| && acts[i].Exec? && Logs(acts[i].c) ensures Selected(acts[..i], n, acts[i].id) == 0 {
      assert SimpleActs(acts[..i]);
      SelectsNothing(acts[..i], n, acts[i].id);
    }
  }

  lemma SimpleLogIsFine(cs: seq<Command>, end: int)
    requires SimpleLog(cs)
    ensures FineLog(cs, end)
  {
    hide GivesNoDeadline, GivesNoneDue, Loggable;
    forall i | 0 <= i < |cs| ensures GivesNoneDue(cs[i].name, cs[i].args, end) {
      NoDeadlineIsNoneDue(cs[i].name, cs[i].args, end);
    }
  }

  /**
    Opened on a world with a log of simple commands that a replay restores, a server is restored by its log after any
    interleaving of simple requests, whenever that is replayed.
   */
  lemma SimpleRestartRestores(cfg: Config, w: World, cs: seq<Command>, es: seq<Event>, clock: nat -> int)
    requires cfg.aof && |w.dbs| > 0 && w.log == EncodeLog(cs) && SimpleLog(cs)
    requires Restored(cfg.env, |w.dbs|, w.log, clock) == w.dbs && RequestsPass(es, Simple, _ => true)
    ensures var w' := Run(cfg, Opened(w), es).world;
            w'.log == EncodeLog(cs + Logged(Serial(es))) && Restored(cfg.env, |w.dbs|, w'.log, clock) == w'.dbs
  {
    hide Restored, InZero, RequestsPass, SimpleActs, SimpleLog, NoneDue, Logged, FineActs, FineLog, EncodeLog;
    SimpleSerial(es);
    var end := Latest(Serial(es), clock, |cs| + |Logged(Serial(es))|);
    SimpleIsFine(Serial(es), |w.dbs|, end);
    SimpleLogIsFine(cs, end);
    AnyClockRestores(cfg, w, cs, clock, clock, end);
    RestartRestores(cfg, w, cs, es, clock, end);
  }
}
