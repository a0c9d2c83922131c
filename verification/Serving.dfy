/**
  The server as a state machine: clients, their transactions, the databases and the log. One event at a time is
  handled to its end, as the event loop does.
 */
module Serving {
  import opened Basics
  import opened Strings
  import opened Resp
  import opened AppendOnlyFiles
  import opened Keyspaces
  import opened CommandSpecs

  /** The environment of the handlers, and whether a log is kept. */
  datatype Config = Config(env: Env, aof: bool)

  datatype World = World(dbs: seq<Keyspace>, log: string)

  datatype Client = Client(db: nat, inMulti: bool, queue: seq<Command>)

  const FRESH := Client(0, false, [])

  datatype State = State(world: World, clients: map<int, Client>)

  const DB_OUT_OF_RANGE := Error("ERR DB index is out of range")
  const NESTED_MULTI := Error("ERR MULTI calls can not be nested")
  const DISCARD_WITHOUT_MULTI := Error("ERR DISCARD without MULTI")
  const EXEC_WITHOUT_MULTI := Error("ERR EXEC without MULTI")
  const PROTOCOL_ERROR := Error("ERR Protocol error")
  const QUEUED := SimpleString("QUEUED")

  function UnknownCommand(name: string): Value {
    Error("ERR unknown command '" + ToLower(name) + "'")
  }

  predicate IsWriteCommand(name: string) {
    name in {
      "SET", "SETNX", "SETEX", "PSETEX", "MSET", "MSETNX", "GETSET", "GETDEL",
      "INCR", "INCRBY", "DECR", "DECRBY", "INCRBYFLOAT", "APPEND", "SETRANGE",
      "DEL", "UNLINK", "EXPIRE", "EXPIREAT", "PEXPIRE", "PEXPIREAT", "PERSIST",
      "RENAME", "RENAMENX", "COPY",
      "LPUSH", "RPUSH", "LPUSHX", "RPUSHX", "LPOP", "RPOP", "LSET", "LINSERT",
      "LREM", "LTRIM", "RPOPLPUSH", "LMOVE",
      "HSET", "HMSET", "HDEL", "HINCRBY", "HINCRBYFLOAT", "HSETNX",
      "SADD", "SREM", "SMOVE", "SPOP", "SUNIONSTORE", "SINTERSTORE", "SDIFFSTORE",
      "ZADD", "ZREM", "ZINCRBY", "ZPOPMIN", "ZPOPMAX",
      "FLUSHDB", "FLUSHALL", "SELECT"
    }
  }

  function AllEmpty(n: nat): (dbs: seq<Keyspace>)
    ensures |dbs| == n && forall i :: 0 <= i < n ==> dbs[i] == map[]
  {
    seq(n, _ => map[])
  }

  /** Runs one command for a client that uses database db: the world, the client's database and the reply after it. */
  function Execute(cfg: Config, w: World, db: nat, now: int, c: Command): (r: (World, nat, Value))
    requires db < |w.dbs|
    ensures |r.0.dbs| == |w.dbs| && r.1 < |w.dbs|
  {
    if c.name == "SELECT" then
      if |c.args| != 1 then (w, db, WrongArgCount("SELECT"))
      else
        match ParseInt(c.args[0])
        case Some(i) => if 0 <= i < |w.dbs| then (w, i, OK_REPLY) else (w, db, DB_OUT_OF_RANGE)
        case None => (w, db, DB_OUT_OF_RANGE)
    else if c.name == "FLUSHALL" then (w.(dbs := AllEmpty(|w.dbs|)), db, OK_REPLY)
    else if !Registered(c.name) then (w, db, UnknownCommand(c.name))
    else
      var (ks, reply) := Apply(cfg.env, w.dbs[db], now, c.name, c.args);
      var log := if cfg.aof && IsWriteCommand(c.name) then w.log + EncodeCommand(c) else w.log;
      (World(w.dbs[db := ks], log), db, reply)
  }

  /** Runs the commands one after the other, each at its own reading of the clock. */
  function ExecuteAll(cfg: Config, w: World, db: nat, cs: seq<Command>, clock: nat -> int):
      (r: (World, nat, seq<Value>))
    requires db < |w.dbs|
    ensures |r.0.dbs| == |w.dbs| && r.1 < |w.dbs| && |r.2| == |cs|
    decreases |cs|
  {
    if cs == [] then (w, db, [])
    else
      var n := |cs| - 1;
      var (w1, db1, replies) := ExecuteAll(cfg, w, db, cs[..n], clock);
      var (w2, db2, reply) := Execute(cfg, w1, db1, clock(n), cs[n]);
      (w2, db2, replies + [reply])
  }

  /** After a request: the world, the client unless it has left, and the reply. */
  datatype Handled = Handled(world: World, client: Option<Client>, reply: Value)

  function HandleCommand(cfg: Config, w: World, cl: Client, c: Command, clock: nat -> int): (r: Handled)
    requires cl.db < |w.dbs|
    ensures |r.world.dbs| == |w.dbs| && (r.client.Some? ==> r.client.value.db < |w.dbs|)
  {
    match c.name
    case "MULTI" =>
      if cl.inMulti then Handled(w, Some(cl), NESTED_MULTI)
      else Handled(w, Some(cl.(inMulti := true, queue := [])), OK_REPLY)
    case "DISCARD" =>
      if !cl.inMulti then Handled(w, Some(cl), DISCARD_WITHOUT_MULTI)
      else Handled(w, Some(cl.(inMulti := false, queue := [])), OK_REPLY)
    case "EXEC" =>
      if !cl.inMulti then Handled(w, Some(cl), EXEC_WITHOUT_MULTI)
      else
        var (w', db, replies) := ExecuteAll(cfg, w, cl.db, cl.queue, clock);
        Handled(w', Some(Client(db, false, [])), Array(replies))
    case "QUIT" => Handled(w, None, OK_REPLY)
    case _ =>
      if cl.inMulti then Handled(w, Some(cl.(queue := cl.queue + [c])), QUEUED)
      else
        var (w', db, reply) := Execute(cfg, w, cl.db, clock(0), c);
        Handled(w', Some(cl.(db := db)), reply)
  }

  function HandleValue(cfg: Config, w: World, cl: Client, v: Value, clock: nat -> int): (r: Handled)
    requires cl.db < |w.dbs|
    ensures |r.world.dbs| == |w.dbs| && (r.client.Some? ==> r.client.value.db < |w.dbs|)
  {
    match ToCommand(v)
    case None => Handled(w, Some(cl), PROTOCOL_ERROR)
    case Some(c) => HandleCommand(cfg, w, cl, c, clock)
  }

  /**
    What happens to the server: a connection is accepted, a client's next value has been read, or a client's
    connection ends, which is also what a read error amounts to.
   */
  datatype Event =
    | Connect(id: int)
    | Request(id: int, value: Value, clock: nat -> int)
    | Disconnect(id: int)

  ghost predicate Valid(s: State) {
    |s.world.dbs| > 0 && forall id :: id in s.clients ==> s.clients[id].db < |s.world.dbs|
  }

  function Step(cfg: Config, s: State, e: Event): (s': State)
    requires Valid(s)
    ensures Valid(s') && |s'.world.dbs| == |s.world.dbs|
  {
    match e
    case Connect(id) => s.(clients := s.clients[id := FRESH])
    case Disconnect(id) => s.(clients := s.clients - {id})
    case Request(id, v, clock) =>
      if id !in s.clients then s
      else
        var h := HandleValue(cfg, s.world, s.clients[id], v, clock);
        State(h.world, if h.client.Some? then s.clients[id := h.client.value] else s.clients - {id})
  }

  /** n empty databases and an empty log. */
  function Start(n: nat): World {
    World(AllEmpty(n), [])
  }

  /** A server on the databases and the log of a world, before anybody has connected. */
  function Opened(w: World): State {
    State(w, map[])
  }

  /** All events, one after the other. */
  function Run(cfg: Config, s: State, es: seq<Event>): (s': State)
    requires Valid(s)
    ensures Valid(s') && |s'.world.dbs| == |s.world.dbs|
    decreases |es|
  {
    if es == [] then s else Step(cfg, Run(cfg, s, es[..|es| - 1]), es[|es| - 1])
  }

  lemma RunOneMore(cfg: Config, s: State, es: seq<Event>, e: Event)
    requires Valid(s)
    ensures Run(cfg, s, es + [e]) == Step(cfg, Run(cfg, s, es), e)
  {
    assert (es + [e])[..|es|] == es;
  }

  /** One turn of the event loop after another make up one run. */
  lemma {:induction false} RunJoins(cfg: Config, s: State, a: seq<Event>, b: seq<Event>)
    requires Valid(s)
    ensures Run(cfg, s, a + b) == Run(cfg, Run(cfg, s, a), b)
    decreases |b|
  {
    hide Step;
    if b == [] {
      assert a + b == a;
    } else {
      var n := |b| - 1;
      assert (a + b)[..|a + b| - 1] == a + b[..n];
      RunJoins(cfg, s, a, b[..n]);
    }
  }
}
