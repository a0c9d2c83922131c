/** Transactions are serial: any interleaving of the clients' requests amounts to a sequential run. */
module Transactions {
  import opened AppendOnlyFiles
  import opened Serving

  // The reference: what should be executed, told from the events alone.

  /**
    Where a client stands after some events: not connected, outside a transaction, or inside one with these commands.
   */
  datatype Standing = Offline | Outside | Inside(queue: seq<Command>)

  predicate Controls(name: string) {
    name in {"MULTI", "EXEC", "DISCARD", "QUIT"}
  }

  function After(before: Standing, c: Command): Standing {
    if before.Offline? || c.name == "QUIT" then Offline
    else if before.Outside? then (if c.name == "MULTI" then Inside([]) else Outside)
    else if c.name == "EXEC" || c.name == "DISCARD" then Outside
    else if c.name == "MULTI" then before
    else Inside(before.queue + [c])
  }

  function Stands(es: seq<Event>, id: int): Standing
    decreases |es|
  {
    if es == [] then Offline
    else
      var before, e := Stands(es[..|es| - 1], id), es[|es| - 1];
      if e.id != id then before
      else
        match e
        case Connect(_) => Outside
        case Disconnect(_) => Offline
        case Request(_, v, _) => match ToCommand(v) case None => before case Some(c) => After(before, c)
  }

  /** One thing done to the databases: a client starts or leaves with database 0, or a command runs at a time. */
  datatype Act = Reset(id: int) | Exec(id: int, c: Command, now: int)

  function Contiguously(id: int, cs: seq<Command>, clock: nat -> int): (acts: seq<Act>)
    ensures |acts| == |cs|
  {
    seq(|cs|, i requires 0 <= i < |cs| => Exec(id, cs[i], clock(i)))
  }

  /** What a request does at once: a command outside a transaction runs, EXEC runs all that is queued. */
  function ActsOfRequest(before: Standing, id: int, c: Command, clock: nat -> int): seq<Act> {
    match before
    case Offline => []
    case Outside => if c.name == "QUIT" then [Reset(id)] else if Controls(c.name) then [] else [Exec(id, c, clock(0))]
    case Inside(queue) =>
      if c.name == "QUIT" then [Reset(id)] else if c.name == "EXEC" then Contiguously(id, queue, clock) else []
  }

  function ActsOf(es: seq<Event>, e: Event): seq<Act> {
    match e
    case Connect(id) => [Reset(id)]
    case Disconnect(id) => [Reset(id)]
    case Request(id, v, clock) =>
      match ToCommand(v) case None => [] case Some(c) => ActsOfRequest(Stands(es, id), id, c, clock)
  }

  /** The sequential run that the events amount to. */
  function Serial(es: seq<Event>): seq<Act>
    decreases |es|
  {
    if es == [] then [] else Serial(es[..|es| - 1]) + ActsOf(es[..|es| - 1], es[|es| - 1])
  }

  /** A server without transactions: databases, a log, and which database each client uses. */
  datatype Plain = Plain(world: World, uses: map<int, nat>)

  function Uses(p: Plain, id: int): nat {
    if id in p.uses then p.uses[id] else 0
  }

  ghost predicate Sound(p: Plain) {
    |p.world.dbs| > 0 && forall id :: id in p.uses ==> p.uses[id] < |p.world.dbs|
  }

  function Do(cfg: Config, p: Plain, a: Act): (p': Plain)
    requires Sound(p)
    ensures Sound(p') && |p'.world.dbs| == |p.world.dbs|
  {
    match a
    case Reset(id) => p.(uses := p.uses[id := 0])
    case Exec(id, c, now) =>
      var (w, db, _) := Execute(cfg, p.world, Uses(p, id), now, c);
      Plain(w, p.uses[id := db])
  }

  function DoAll(cfg: Config, p: Plain, acts: seq<Act>): (p': Plain)
    requires Sound(p)
    ensures Sound(p') && |p'.world.dbs| == |p.world.dbs|
    decreases |acts|
  {
    if acts == [] then p else Do(cfg, DoAll(cfg, p, acts[..|acts| - 1]), acts[|acts| - 1])
  }

  lemma {:induction false} DoAllJoins(cfg: Config, p: Plain, a: seq<Act>, b: seq<Act>)
    requires Sound(p)
    ensures DoAll(cfg, p, a + b) == DoAll(cfg, DoAll(cfg, p, a), b)
    decreases |b|
  {
    if b == [] {
      assert a + b == a;
    } else {
      var n := |b| - 1;
      assert (a + b)[..|a + b| - 1] == a + b[..n];
      DoAllJoins(cfg, p, a, b[..n]);
    }
  }

  /** The commands of a transaction run one after the other, as nothing else would come in between. */
  lemma {:induction false} BlockIsExecuteAll(cfg: Config, p: Plain, id: int, cs: seq<Command>, clock: nat -> int)
    requires Sound(p)
    ensures var (w, db, _) := ExecuteAll(cfg, p.world, Uses(p, id), cs, clock);
            var p' := DoAll(cfg, p, Contiguously(id, cs, clock));
            p'.world == w && Uses(p', id) == db && forall other :: other != id ==> Uses(p', other) == Uses(p, other)
    decreases |cs|
  {
    if cs != [] {
      var n := |cs| - 1;
      BlockIsExecuteAll(cfg, p, id, cs[..n], clock);
      assert Contiguously(id, cs, clock)[..n] == Contiguously(id, cs[..n], clock);
    }
  }

  // What the state keeps.

  /** The client's fields say where it stands. */
  predicate Reflects(cl: Client, st: Standing) {
    match st
    case Offline => false
    case Outside => !cl.inMulti && cl.queue == []
    case Inside(queue) => cl.inMulti && cl.queue == queue
  }

  /** The state, the history and the sequential run agree. */
  ghost predicate Agree(s: State, es: seq<Event>, p: Plain) {
    && Sound(p) && s.world == p.world
    && (forall id :: id in s.clients <==> Stands(es, id) != Offline)
    && (forall id :: id in s.clients ==> Reflects(s.clients[id], Stands(es, id)) && s.clients[id].db == Uses(p, id))
  }

  lemma HandledAgrees(cfg: Config, p: Plain, id: int, cl: Client, before: Standing, c: Command, clock: nat -> int)
    requires Sound(p) && Reflects(cl, before) && cl.db == Uses(p, id)
    ensures var h := HandleCommand(cfg, p.world, cl, c, clock);
            var p' := DoAll(cfg, p, ActsOfRequest(before, id, c, clock));
            && h.world == p'.world
            && (h.client.None? <==> After(before, c).Offline?)
            && (h.client.Some? ==> Reflects(h.client.value, After(before, c)) && h.client.value.db == Uses(p', id))
            && (forall other :: other != id ==> Uses(p', other) == Uses(p, other))
  {
    hide Execute, ExecuteAll;
    assert DoAll(cfg, p, [Reset(id)]) == Do(cfg, DoAll(cfg, p, []), Reset(id));
    if before.Inside? {
      if c.name == "EXEC" {
        BlockIsExecuteAll(cfg, p, id, before.queue, clock);
      }
    } else if !Controls(c.name) {
      assert DoAll(cfg, p, [Exec(id, c, clock(0))]) == Do(cfg, DoAll(cfg, p, []), Exec(id, c, clock(0)));
    }
  }

  lemma StepAgrees(cfg: Config, s: State, es: seq<Event>, p: Plain, e: Event)
    requires Valid(s) && Agree(s, es, p)
    ensures Agree(Step(cfg, s, e), es + [e], DoAll(cfg, p, ActsOf(es, e)))
  {
    assert (es + [e])[..|es|] == es;
    assert DoAll(cfg, p, [Reset(e.id)]) == Do(cfg, DoAll(cfg, p, []), Reset(e.id));
    match e
    case Request(id, v, clock) =>
      if id in s.clients && ToCommand(v).Some? {
        HandledAgrees(cfg, p, id, s.clients[id], Stands(es, id), ToCommand(v).value, clock);
      }
    case _ =>
  }

  lemma NothingAgrees(w: World)
    requires |w.dbs| > 0
    ensures Agree(Opened(w), [], Plain(w, map[]))
  {
  }

  /**
    Transactions are serial: whatever databases and log the server has been opened on, after any interleaving of the
    clients' requests the databases, the log and every client's database are those of the sequential run, in which the
    commands of a transaction stand next to each other at its EXEC and those of a discarded one do not occur.
   */
  lemma {:induction false} TransactionsAreSerial(cfg: Config, w: World, es: seq<Event>)
    requires |w.dbs| > 0
    ensures Agree(Run(cfg, Opened(w), es), es, DoAll(cfg, Plain(w, map[]), Serial(es)))
    decreases |es|
  {
    hide Step, ActsOf, Do, Agree, Stands;
    if es == [] {
      NothingAgrees(w);
    } else {
      var front, e := es[..|es| - 1], es[|es| - 1];
      TransactionsAreSerial(cfg, w, front);
      StepAgrees(cfg, Run(cfg, Opened(w), front), front, DoAll(cfg, Plain(w, map[]), Serial(front)), e);
      assert front + [e] == es;
      DoAllJoins(cfg, Plain(w, map[]), Serial(front), ActsOf(front, e));
    }
  }

  lemma RunIsSerial(cfg: Config, w: World, es: seq<Event>)
    requires |w.dbs| > 0
    ensures Run(cfg, Opened(w), es).world == DoAll(cfg, Plain(w, map[]), Serial(es)).world
  {
    hide Run, Serial, DoAll;
    TransactionsAreSerial(cfg, w, es);
  }

  /** No queue holds a command that controls transactions, and outside a transaction the queue is empty. */
  lemma {:induction false} QueuesHoldNoControls(es: seq<Event>, id: int)
    ensures var st := Stands(es, id); st.Inside? ==> forall i :: 0 <= i < |st.queue| ==> !Controls(st.queue[i].name)
    decreases |es|
  {
    if es != [] {
      QueuesHoldNoControls(es[..|es| - 1], id);
    }
  }

  lemma ClientsKeepQueues(cfg: Config, w: World, es: seq<Event>, id: int)
    requires |w.dbs| > 0 && id in Run(cfg, Opened(w), es).clients
    ensures var cl := Run(cfg, Opened(w), es).clients[id];
            && (!cl.inMulti ==> cl.queue == [])
            && forall i :: 0 <= i < |cl.queue| ==> !Controls(cl.queue[i].name)
  {
    TransactionsAreSerial(cfg, w, es);
    QueuesHoldNoControls(es, id);
  }
}
