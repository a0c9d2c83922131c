/** Servers that are restarted and go on: what a crash means for the restarts after the next. */
module Restarts {
  import opened Basics
  import opened Strings
  import opened Resp
  import opened AppendOnlyFiles
  import opened TornEntries
  import opened Keyspaces
  import opened CommandSpecs
  import opened Deadlines
  import opened Effects
  import opened Serving
  import opened Transactions
  import opened Recovery

  /** The server that restarts from a file: what the file restores, and the file as its log. */
  function Restarted(env: Env, n: nat, file: string, clock: nat -> int): World
    requires n > 0
  {
    World(Restored(env, n, file, clock), file)
  }

  // Lives of a server.

  /** From one restart to the next: the readings of the clock while the log is replayed, and the events after that. */
  datatype Life = Life(clock: nat -> int, events: seq<Event>)

  /** The world in which the last of the lives ends; the next begins with a replay of the log. */
  function Lived(cfg: Config, w: World, lives: seq<Life>): (w': World)
    requires |w.dbs| > 0
    ensures |w'.dbs| == |w.dbs|
    decreases |lives|
  {
    if lives == [] then w
    else
      var before, life := Lived(cfg, w, lives[..|lives| - 1]), lives[|lives| - 1];
      Run(cfg, Opened(Restarted(cfg.env, |w.dbs|, before.log, life.clock)), life.events).world
  }

  ghost predicate FineLife(life: Life, n: nat, end: int) {
    && FineActs(Serial(life.events), end) && InZero(Serial(life.events), n)
    && forall i :: life.clock(i) <= end
  }

  /** What the lives have written to the log, one after the other. */
  function LoggedIn(lives: seq<Life>): seq<Command>
    decreases |lives|
  {
    if lives == [] then [] else LoggedIn(lives[..|lives| - 1]) + Logged(Serial(lives[|lives| - 1].events))
  }

  lemma LifeRestores(cfg: Config, w: World, cs: seq<Command>, life: Life, end: int)
    requires cfg.aof && |w.dbs| > 0 && w.log == EncodeLog(cs) && FineLog(cs, end) && FineLife(life, |w.dbs|, end)
    requires Restored(cfg.env, |w.dbs|, w.log, life.clock) == w.dbs
    ensures var w' := Run(cfg, Opened(Restarted(cfg.env, |w.dbs|, w.log, life.clock)), life.events).world;
            var cs' := cs + Logged(Serial(life.events));
            FineLog(cs', end) && Recoverable(cfg, w', cs', life.clock, end)
  {
    hide FineActs, InZero, Restored, EncodeLog, Logged, Serial, Run, Recoverable, GivesNoneDue, Loggable;
    AnyClockRestores(cfg, w, cs, life.clock, life.clock, end);
    RestartRestores(cfg, w, cs, life.events, life.clock, end);
    LoggedIsFine(Serial(life.events), end);
  }

  /**
    However often a server is restarted, and whatever fine requests it handles in between: at any times before the
    deadlines that were given, the log restores what was there.
   */
  lemma {:induction false} LivesRestore(cfg: Config, w: World, cs: seq<Command>, lives: seq<Life>, clock: nat -> int,
                                        end: int)
    requires cfg.aof && |w.dbs| > 0 && w.log == EncodeLog(cs) && FineLog(cs, end)
    requires forall i :: clock(i) <= end
    requires Restored(cfg.env, |w.dbs|, w.log, clock) == w.dbs
    requires forall i :: 0 <= i < |lives| ==> FineLife(lives[i], |w.dbs|, end)
    ensures var cs' := cs + LoggedIn(lives);
            FineLog(cs', end) && Recoverable(cfg, Lived(cfg, w, lives), cs', clock, end)
    decreases |lives|
  {
    hide FineLife, FineLog, Restored, EncodeLog, Logged, Serial, Run, Recoverable;
    if lives == [] {
      assert cs + [] == cs;
      AnyClockRestores(cfg, w, cs, clock, clock, end);
    } else {
      var n := |lives| - 1;
      var before, life := lives[..n], lives[n];
      LivesRestore(cfg, w, cs, before, clock, end);
      LastLifeRestores(cfg, Lived(cfg, w, before), cs + LoggedIn(before), life, clock, end);
      assert cs + LoggedIn(lives) == cs + LoggedIn(before) + Logged(Serial(life.events));
    }
  }

  lemma LastLifeRestores(cfg: Config, w: World, cs: seq<Command>, life: Life, clock: nat -> int, end: int)
    requires cfg.aof && Recoverable(cfg, w, cs, clock, end) && FineLog(cs, end) && FineLife(life, |w.dbs|, end)
    requires forall i :: clock(i) <= end
    ensures var w' := Run(cfg, Opened(Restarted(cfg.env, |w.dbs|, w.log, life.clock)), life.events).world;
            var cs' := cs + Logged(Serial(life.events));
            FineLog(cs', end) && Recoverable(cfg, w', cs', clock, end)
  {
    hide FineActs, InZero, Restored, EncodeLog, Logged, Serial, Run, GivesNoneDue, Loggable;
    AnyClockRestores(cfg, w, cs, clock, life.clock, end);
    LifeRestores(cfg, w, cs, life, end);
    var w' := Run(cfg, Opened(Restarted(cfg.env, |w.dbs|, w.log, life.clock)), life.events).world;
    AnyClockRestores(cfg, w', cs + Logged(Serial(life.events)), life.clock, clock, end);
  }

  // Going on after a crash.

  /**
    Whatever fine requests with writes in database 0 are handled after a restart, the next restart brings the databases
    back.
   */
  ghost predicate GoesOn(cfg: Config, w: World, clock: nat -> int, end: int)
    requires |w.dbs| > 0
  {
    forall es: seq<Event> :: FineActs(Serial(es), end) && InZero(Serial(es), |w.dbs|) ==>
      var w' := Run(cfg, Opened(w), es).world; Restored(cfg.env, |w.dbs|, w'.log, clock) == w'.dbs
  }

  lemma RecoverableGoesOn(cfg: Config, w: World, cs: seq<Command>, clock: nat -> int, end: int)
    requires cfg.aof && Recoverable(cfg, w, cs, clock, end) && forall i :: clock(i) <= end
    ensures GoesOn(cfg, w, clock, end)
  {
    hide FineActs, InZero, Restored, EncodeLog, Logged, DoAll, Serial;
    forall es: seq<Event> | FineActs(Serial(es), end) && InZero(Serial(es), |w.dbs|)
      ensures var w' := Run(cfg, Opened(w), es).world; Restored(cfg.env, |w.dbs|, w'.log, clock) == w'.dbs
    {
      RestartRestores(cfg, w, cs, es, clock, end);
    }
  }

  lemma {:induction false} KeepTtlsChangeNothing(args: seq<string>, i: nat, now: int, o: SetOptions)
    requires forall j :: i <= j < |args| ==> args[j] == "KEEPTTL"
    ensures ParseSetOptions(args, i, now, o) == Ok(o) && LastExpiry(args, i) == None
    decreases |args| - i
  {
    assert ToUpper("KEEPTTL") == "KEEPTTL";
    if i < |args| {
      KeepTtlsChangeNothing(args, i + 1, now, o);
    }
  }

  lemma PlainSetStores(env: Env, ks: Keyspace, now: int, key: string, text: string, padded: bool)
    ensures var c := PlainSet(key, text, padded);
            && Logs(c) && !Unmodelled(c.name) && GivesNoDeadline(c.name, c.args)
            && Apply(env, ks, now, c.name, c.args) == (ks[key := Entry(Text(text), None)], OK_REPLY)
  {
    hide ApplyList, ApplyZSet, ParseSetOptions, LastExpiry;
    var c := PlainSet(key, text, padded);
    assert forall j :: 2 <= j < |c.args| ==> c.args[j] == KEEPTTLS[j - 2];
    KeepTtlsChangeNothing(c.args, 2, now, NO_OPTIONS);
    assert "SET" in KEY_NAMES && "SET" !in LIST_NAMES && "SET" !in ZSET_NAMES && !Unmodelled("SET");
    assert IsWriteCommand("SET");
    assert SetText(ks, now, c.args) == (ks[key := Entry(Text(text), None)], OK_REPLY);
    assert GivesNoDeadline(c.name, c.args);
    assert ApplyKey(ks, now, c.name, c.args) == (ks[key := Entry(Text(text), None)], OK_REPLY);
  }

  lemma PlainSetIsFine(key: string, text: string, padded: bool, end: int)
    requires Loggable(PlainSet(key, text, padded))
    ensures var c := PlainSet(key, text, padded); Fine(c, end) && c.name == "SET"
  {
    var c := PlainSet(key, text, padded);
    assert c.name == "SET";
    hide GivesNoDeadline, GivesNoneDue, Loggable, PlainSet;
    var env := Env(_ => None, (x, _) => x, _ => "");
    PlainSetStores(env, map[], end, key, text, padded);
    NoDeadlineIsNoneDue(c.name, c.args, end);
  }

  lemma RedoneElsewhere(env: Env, cs: seq<Command>, got: seq<Command>, clock: nat -> int, key: string)
    requires |got| <= 1 && (got != [] ==> key !in got[0].args)
    ensures SameAt(Rebuild(env, cs, clock), Rebuild(env, cs + got, clock), key)
  {
    hide Apply, Registered;
    if got == [] {
      assert cs + got == cs;
    } else {
      assert cs + got == cs + [got[0]];
      RebuildOneMore(env, cs, got[0], clock);
      if Registered(got[0].name) {
        OnlyNamedKeysChange(env, Rebuild(env, cs, clock), clock(|cs|), got[0].name, got[0].args, key);
      }
    }
  }

  /** A client connects and sets a key. */
  function SetRequest(c: Command, now: int): seq<Event> {
    [Connect(0), Request(0, Array(Bulks(Words(c))), _ => now)]
  }

  lemma SetRequestIs(c: Command, now: int)
    requires Loggable(c) && !Controls(c.name)
    ensures Serial(SetRequest(c, now)) == [Reset(0), Exec(0, c, now)]
  {
    hide Loggable;
    var es := SetRequest(c, now);
    WordsAreCommand(c);
    assert es[..1] == [es[0]] && es[..1][..0] == [];
    assert Serial([]) == [] && Stands([], 0) == Offline;
    assert Serial([es[0]]) == [Reset(0)] && Stands([es[0]], 0) == Outside;
  }

  lemma SetRequestIsFine(c: Command, end: int, n: nat)
    requires Fine(c, end)
    ensures var acts := [Reset(0), Exec(0, c, end)]; FineActs(acts, end) && InZero(acts, n)
  {
    hide Fine, Logs;
    var acts := [Reset(0), Exec(0, c, end)];
    assert acts[..1] == [Reset(0)] && [Reset(0)][..0] == [];
    assert Selected([Reset(0)], n, 0) == 0;
  }

  lemma SetAlone(cfg: Config, w: World, key: string, text: string, padded: bool, now: int)
    requires cfg.aof && |w.dbs| > 0 && Loggable(PlainSet(key, text, padded))
    ensures var c := PlainSet(key, text, padded);
            var w' := Run(cfg, Opened(w), SetRequest(c, now)).world;
            && w'.dbs == w.dbs[0 := w.dbs[0][key := Entry(Text(text), None)]]
            && w'.log == w.log + EncodeLog([c])
  {
    var c := PlainSet(key, text, padded);
    assert c.name == "SET";
    hide Apply, EncodeCommand, Registered, Run, Serial, PlainSet, Loggable;
    PlainSetStores(cfg.env, w.dbs[0], now, key, text, padded);
    SetRequestIs(c, now);
    RunIsSerial(cfg, w, SetRequest(c, now));
    var a, b, p := Reset(0), Exec(0, c, now), Plain(w, map[]);
    assert [a, b][..1] == [a] && [a][..0] == [];
    assert DoAll(cfg, p, []) == p && DoAll(cfg, p, [a]) == Do(cfg, p, a);
    assert DoAll(cfg, p, [a, b]) == Do(cfg, Do(cfg, p, a), b);
    assert EncodeLog([c]) == EncodeCommand(c) + [] == EncodeCommand(c);
  }

  lemma TornDoesNotGoOn(cfg: Config, w: World, cs: seq<Command>, k: nat, clock: nat -> int, end: int)
    requires cfg.aof && |w.dbs| > 0 && AllLoggable(cs) && k <= |EncodeLog(cs)| && w.log == EncodeLog(cs)[..k]
    requires w.dbs[0] == Rebuild(cfg.env, cs[..Whole(cs, k)], clock) && k != |EncodeLog(cs[..Whole(cs, k)])|
    ensures !GoesOn(cfg, w, clock, end)
  {
    hide EncodeLog, LastIsEmpty, PlainSet, FineActs, InZero, Serial, Run, Replayed, Rebuild, Fine;
    var n := Whole(cs, k);
    var torn := CutLeaves(cs, k);
    assert torn != [] && n < |cs|;
    var key := FreshKey(cs[n]);
    var before := w.dbs[0];
    var text := if key in before && before[key].data == Text("A") then "B" else "A";
    var padded, got := TornFileLosesSet(cs, k, key, text);
    if got != [] {
      FreshKeyStaysOut(cs[n], got[0], key);
    }
    var c := PlainSet(key, text, padded);
    PlainSetIsFine(key, text, padded, end);
    SetRequestIs(c, end);
    SetRequestIsFine(c, end, |w.dbs|);
    SetAlone(cfg, w, key, text, padded, end);
    RedoneElsewhere(cfg.env, cs[..n], got, clock, key);
    var w' := Run(cfg, Opened(w), SetRequest(c, end)).world;
    assert w'.dbs[0][key] == Entry(Text(text), None);
    assert Restored(cfg.env, |w.dbs|, w'.log, clock)[0] == Rebuild(cfg.env, cs[..n] + got, clock);
  }

  /**
    A server that restarts from a log cut off at any byte goes on as if nothing had happened, so that the restart
    after that restores whatever its clients have done in between, just when the log was cut on the end of a command.
   */
  lemma RestartAfterCrashIff(cfg: Config, w: World, cs: seq<Command>, es: seq<Event>, k: nat, clock: nat -> int,
                             clock': nat -> int, end: int)
    requires cfg.aof && Recoverable(cfg, w, cs, clock, end) && FineLog(cs, end)
    requires FineActs(Serial(es), end) && InZero(Serial(es), |w.dbs|)
    requires forall i :: clock(i) <= end && clock'(i) <= end
    requires |w.log| <= k <= |Run(cfg, Opened(w), es).world.log|
    ensures var file, all := Run(cfg, Opened(w), es).world.log[..k], cs + Logged(Serial(es));
            GoesOn(cfg, Restarted(cfg.env, |w.dbs|, file, clock), clock', end)
            <==> k == |EncodeLog(all[..Whole(all, k)])|
  {
    hide EncodeLog, Logged, FineActs, InZero, GoesOn, Replayed, Rebuild, NoneDue, Serial, Run, DoAll, FineLog, Whole;
    var acts := Serial(es);
    var all := cs + Logged(acts);
    var j := Whole(all, k);
    RunIsSerial(cfg, w, es);
    RestartRestores(cfg, w, cs, es, clock, end);
    var m := CrashRestoresPrefix(cfg, w, cs, acts, clock, end, k);
    PrefixIsFine(acts, m, |w.dbs|, end);
    PrefixRestores(cfg, w, cs, acts[..m], clock, clock', end);
    var world := DoAll(cfg, Plain(w, map[]), acts[..m]).world;
    var file := Run(cfg, Opened(w), es).world.log[..k];
    var again := Restarted(cfg.env, |w.dbs|, file, clock);
    if k == |EncodeLog(all[..j])| {
      var torn := CutLeaves(all, k);
      assert torn == [];
      assert again == world;
      RecoverableGoesOn(cfg, again, all[..j], clock', end);
    } else {
      RestoredAt(cfg, world, all[..j], clock', end, 0);
      TornDoesNotGoOn(cfg, again, all, k, clock', end);
    }
  }

  lemma PrefixRestores(cfg: Config, w: World, cs: seq<Command>, acts: seq<Act>, clock: nat -> int, clock': nat -> int,
                       end: int)
    requires cfg.aof && Recoverable(cfg, w, cs, clock, end) && FineLog(cs, end)
    requires FineActs(acts, end) && InZero(acts, |w.dbs|) && forall i :: clock(i) <= end && clock'(i) <= end
    ensures Recoverable(cfg, DoAll(cfg, Plain(w, map[]), acts).world, cs + Logged(acts), clock', end)
  {
    hide EncodeLog, Logged, FineActs, InZero, DoAll, Restored, GivesNoneDue, Loggable;
    AnyClockRestores(cfg, w, cs, clock, clock', end);
    ReplayRestores(cfg, w, cs, acts, clock', end);
  }
}
