/** The server's objects: the store of databases, a client's session, and the server that ties them to the log. */
module Servers {
  import opened Strings
  import opened Resp
  import opened RespStreams
  import opened AppendOnlyFiles
  import opened Keyspaces
  import opened Databases
  import KeyCommands
  import Specs = CommandSpecs
  import Serving
  import Recovery
  import Restarts
  import Replies

  class Store {
    const dbs: seq<DB>
    ghost var contents: seq<Keyspace>
    ghost var Repr: set<object>

    ghost predicate Valid()
      reads this, Repr
    {
      && this in Repr && |contents| == |dbs|
      && (forall i :: 0 <= i < |dbs| ==>
           dbs[i] in Repr && dbs[i] in dbs[i].Repr && dbs[i].Repr <= Repr && this !in dbs[i].Repr && dbs[i].Valid())
      && (forall i :: 0 <= i < |dbs| ==> contents[i] == dbs[i].Keyspace())
      && (forall i, j :: 0 <= i < j < |dbs| ==> dbs[i].Repr !! dbs[j].Repr)
    }

    constructor (n: nat)
      ensures Valid() && fresh(Repr) && |dbs| == n && contents == Serving.AllEmpty(n)
    {
      var s: seq<DB> := [];
      ghost var r: set<object> := {};
      for i := 0 to n
        invariant |s| == i && fresh(r)
        invariant forall j :: 0 <= j < i ==> s[j] in r && s[j].Repr <= r && s[j].Valid() && s[j].Keyspace() == map[]
        invariant forall j, k :: 0 <= j < k < i ==> s[j].Repr !! s[k].Repr
      {
        var db := new DB();
        s := s + [db];
        r := r + db.Repr;
      }
      dbs := s;
      contents := Serving.AllEmpty(n);
      Repr := r + {this};
    }

    /** One database is changed, and whatever it has got since is new. */
    twostate lemma DbChanged(i: nat)
      requires old(Valid()) && i < |dbs| && dbs[i] in dbs[i].Repr && dbs[i].Valid()
      requires fresh(dbs[i].Repr - old(dbs[i].Repr)) && Repr == old(Repr) + dbs[i].Repr
      requires unchanged(old(Repr - dbs[i].Repr - {this}))
      requires contents == old(contents)[i := dbs[i].Keyspace()]
      ensures Valid()
    {
      hide DB.Valid, DB.Keyspace;
    }

    /** Calls the handler registered under the name on one database. */
    method Call(env: Specs.Env, i: nat, now: int, name: string, args: seq<string>) returns (r: Value)
      requires Valid() && i < |dbs| && Specs.Registered(name)
      modifies Repr
      ensures Valid() && fresh(Repr - old(Repr))
      ensures var (ks, reply) := Specs.Apply(env, old(contents)[i], now, name, args);
              contents == old(contents)[i := ks] && r == reply
    {
      hide Specs.Apply, Specs.Registered, DB.Keyspace;
      r := KeyCommands.Run(env, dbs[i], now, name, args);
      Repr := Repr + dbs[i].Repr;
      contents := contents[i := dbs[i].Keyspace()];
      DbChanged(i);
    }

    method FlushAll()
      requires Valid()
      modifies Repr
      ensures Valid() && Repr == old(Repr) && contents == Serving.AllEmpty(|dbs|)
    {
      for i := 0 to |dbs|
        invariant Valid() && Repr == old(Repr)
        invariant forall j :: 0 <= j < i ==> contents[j] == map[]
      {
        label before:
        dbs[i].Flush();
        contents := contents[i := map[]];
        assert Repr == Repr + dbs[i].Repr;
        DbChanged@before(i);
      }
    }
  }

  /** A client's session. */
  class Client {
    const reader: Reader
    const writer: Writer
    var dbIndex: nat
    var inMulti: bool
    var queue: seq<Command>

    constructor (input: string)
      ensures fresh(reader) && fresh(writer) && reader.rest == input && writer.out == []
      ensures View() == Serving.FRESH
    {
      reader := new Reader(input);
      writer := new Writer();
      dbIndex, inMulti, queue := 0, false, [];
    }

    function View(): Serving.Client
      reads this
    {
      Serving.Client(dbIndex, inMulti, queue)
    }

    method StartMulti()
      modifies this
      ensures View() == old(View()).(inMulti := true, queue := [])
    {
      inMulti, queue := true, [];
    }

    method DiscardMulti()
      modifies this
      ensures View() == old(View()).(inMulti := false, queue := [])
    {
      inMulti, queue := false, [];
    }

    method Enqueue(c: Command)
      modifies this
      ensures View() == old(View()).(queue := old(queue) + [c])
    {
      queue := queue + [c];
    }

    method FlushQueue() returns (q: seq<Command>)
      modifies this
      ensures q == old(queue) && View() == old(View()).(inMulti := false, queue := [])
    {
      q := queue;
      queue, inMulti := [], false;
    }
  }

  class Server {
    const env: Specs.Env
    const store: Store
    const aof: AOF?
    var clients: map<int, Client>

    function Log(): string
      reads aof
    {
      if aof == null then [] else aof.bytes
    }

    ghost function World(): Serving.World
      reads store, aof
    {
      Serving.World(store.contents, Log())
    }

    function Cfg(): Serving.Config {
      Serving.Config(env, aof != null)
    }

    /** The log's objects, if there is a log. */
    ghost function LogRepr(): set<object> {
      if aof == null then {} else {aof}
    }

    ghost predicate Ready()
      reads store, store.Repr
    {
      store.Valid() && |store.dbs| > 0 && LogRepr() !! store.Repr
    }

    /** A server with n databases; with a log it starts from what the file replays to. */
    constructor (env: Specs.Env, n: nat, keepsLog: bool, file: string, clock: nat -> int)
      requires n > 0
      ensures Valid() && fresh(store.Repr) && fresh(LogRepr()) && Cfg() == Serving.Config(env, keepsLog)
      ensures State() ==
              Serving.Opened(if keepsLog then Restarts.Restarted(env, n, file, clock) else Serving.Start(n))
    {
      this.env := env;
      store := new Store(n);
      if keepsLog {
        aof := new AOF(file);
      } else {
        aof := null;
      }
      clients := map[];
      new;
      if keepsLog {
        ReplayAOF(file, clock);
      }
    }

    /** The handler of the replay. */
    method Redo(now: int, cmd: Command)
      requires Ready()
      modifies store.Repr
      ensures Ready() && fresh(store.Repr - old(store.Repr))
      ensures store.contents == old(store.contents)[0 := Recovery.Redo(env, old(store.contents)[0], now, cmd)]
    {
      if Specs.Registered(cmd.name) {
        var _ := store.Call(env, 0, now, cmd.name, cmd.args);
      }
    }

    /** Runs the commands that the bytes hold in database 0, up to the first that cannot be read. */
    method ReplayAOF(file: string, clock: nat -> int)
      requires Ready() && store.contents == Serving.AllEmpty(|store.dbs|)
      modifies store.Repr
      ensures Ready() && fresh(store.Repr - old(store.Repr))
      ensures store.contents == Recovery.Restored(env, |store.dbs|, file, clock)
    {
      var reader := new Reader(file);
      ghost var seen: seq<Command> := [];
      var n := 0;
      while true
        invariant Ready() && fresh(store.Repr - old(store.Repr)) && fresh(reader) && reader !in store.Repr
        invariant StillToReplay(file, seen, reader.rest) && n == |seen|
        invariant Rebuilt(store.contents, env, seen, clock)
        decreases |reader.rest|
      {
        ghost var before := reader.rest;
        var v := reader.TakeValue();
        NextToReplay(file, seen, before);
        if v.Err? {
          break;
        }
        var cmd := ToCommand(v.value);
        if cmd.Some? {
          RebuiltOneMore(store.contents, env, seen, cmd.value, clock);
          Redo(clock(n), cmd.value);
          seen := seen + [cmd.value];
          n := n + 1;
        }
      }
    }

    method Execute(c: Client, now: int, cmd: Command) returns (r: Value)
      requires Ready() && c !in store.Repr && c.dbIndex < |store.dbs|
      modifies store.Repr, LogRepr(), c`dbIndex
      ensures Ready() && fresh(store.Repr - old(store.Repr))
      ensures (World(), c.dbIndex, r) == Serving.Execute(Cfg(), old(World()), old(c.dbIndex), now, cmd)
    {
      if cmd.name == "SELECT" {
        if |cmd.args| != 1 {
          return Specs.WrongArgCount("SELECT");
        }
        var idx := ParseInt(cmd.args[0]);
        if idx.None? || idx.value < 0 || idx.value >= |store.dbs| {
          return Serving.DB_OUT_OF_RANGE;
        }
        c.dbIndex := idx.value;
        return Specs.OK_REPLY;
      }
      if cmd.name == "FLUSHALL" {
        store.FlushAll();
        return Specs.OK_REPLY;
      }
      if !Specs.Registered(cmd.name) {
        return Serving.UnknownCommand(cmd.name);
      }
      r := store.Call(env, c.dbIndex, now, cmd.name, cmd.args);
      if aof != null && Serving.IsWriteCommand(cmd.name) {
        aof.Write(Words(cmd));
      }
    }

    method ExecuteAndWrite(c: Client, now: int, cmd: Command) returns (r: Value)
      requires Ready() && {c, c.writer} !! store.Repr && c.dbIndex < |store.dbs|
      modifies store.Repr, LogRepr(), c`dbIndex, c.writer
      ensures Ready() && fresh(store.Repr - old(store.Repr))
      ensures (World(), c.dbIndex, r) == Serving.Execute(Cfg(), old(World()), old(c.dbIndex), now, cmd)
      ensures c.writer.out == old(c.writer.out) + Encode(r)
    {
      r := Execute(c, now, cmd);
      c.writer.WriteValue(r);
    }

    lemma DbCount()
      ensures Ready() ==> |World().dbs| == |store.dbs|
    {
    }

    /** The loop of a transaction: the commands one after the other, and their replies. */
    method ExecuteQueued(c: Client, queue: seq<Command>, clock: nat -> int) returns (ghost replies: seq<Value>)
      requires Ready() && {c, c.writer} !! store.Repr && c.dbIndex < |store.dbs|
      modifies store.Repr, LogRepr(), c`dbIndex, c.writer
      ensures Ready() && fresh(store.Repr - old(store.Repr))
      ensures (World(), c.dbIndex, replies) == Serving.ExecuteAll(Cfg(), old(World()), old(c.dbIndex), queue, clock)
      ensures c.writer.out == old(c.writer.out) + EncodeAll(replies)
    {
      replies := [];
      DbCount();
      assert EncodeAll(replies) == [];
      hide Ready, Serving.Execute, EncodeAll;
      for i := 0 to |queue|
        invariant Ready() && fresh(store.Repr - old(store.Repr)) && {c, c.writer} !! store.Repr
        invariant c.dbIndex < |store.dbs|
        invariant (World(), c.dbIndex, replies) ==
                  Serving.ExecuteAll(Cfg(), old(World()), old(c.dbIndex), queue[..i], clock)
        invariant c.writer.out == old(c.writer.out) + EncodeAll(replies)
      {
        OneCommandMore(Cfg(), old(World()), old(c.dbIndex), queue, i, clock);
        hide Serving.ExecuteAll;
        var result := ExecuteAndWrite(c, clock(i), queue[i]);
        DbCount();
        OneReplyMore(old(c.writer.out), replies, result);
        replies := replies + [result];
      }
      assert queue[..|queue|] == queue;
    }

    method ExecTransaction(c: Client, clock: nat -> int)
      requires Ready() && {c, c.writer} !! store.Repr && c.dbIndex < |store.dbs|
      modifies store.Repr, LogRepr(), c, c.writer
      ensures Ready() && fresh(store.Repr - old(store.Repr))
      ensures var (w, db, replies) := Serving.ExecuteAll(Cfg(), old(World()), old(c.dbIndex), old(c.queue), clock);
              && World() == w && c.View() == Serving.Client(db, false, [])
              && c.writer.out == old(c.writer.out) + Encode(Array(replies))
    {
      var queue := c.FlushQueue();
      c.writer.WriteArrayLen(|queue|);
      ghost var replies := ExecuteQueued(c, queue, clock);
      HeaderAndElements(old(c.writer.out), replies);
    }

    method QueueOrExecute(c: Client, now: int, cmd: Command)
      requires Ready() && {c, c.writer} !! store.Repr && c.dbIndex < |store.dbs|
      modifies store.Repr, LogRepr(), c, c.writer
      ensures Ready() && fresh(store.Repr - old(store.Repr)) && c.dbIndex < |store.dbs|
      ensures old(c.inMulti) ==>
                && World() == old(World()) && c.View() == old(c.View()).(queue := old(c.queue) + [cmd])
                && c.writer.out == old(c.writer.out) + Encode(Serving.QUEUED)
      ensures !old(c.inMulti) ==>
                var (w, db, reply) := Serving.Execute(Cfg(), old(World()), old(c.dbIndex), now, cmd);
                && World() == w && c.View() == old(c.View()).(db := db)
                && c.writer.out == old(c.writer.out) + Encode(reply)
    {
      if c.inMulti {
        c.Enqueue(cmd);
        c.writer.WriteSimpleString("QUEUED");
        return;
      }
      var _ := ExecuteAndWrite(c, now, cmd);
    }

    /** The requests that control transactions, queueing inside one, and running a command outside. */
    method HandleCommand(c: Client, cmd: Command, clock: nat -> int) returns (stay: bool)
      requires Ready() && {c, c.writer} !! store.Repr && c.dbIndex < |store.dbs|
      modifies store.Repr, LogRepr(), c, c.writer
      ensures Ready() && fresh(store.Repr - old(store.Repr)) && c.dbIndex < |store.dbs|
      ensures var h := Serving.HandleCommand(Cfg(), old(World()), old(c.View()), cmd, clock);
              && World() == h.world && stay == h.client.Some? && (stay ==> c.View() == h.client.value)
              && c.writer.out == old(c.writer.out) + Encode(h.reply)
    {
      hide Ready, Serving.Execute, Serving.ExecuteAll, Encode;
      match cmd.name {
        case "MULTI" =>
          if c.inMulti {
            c.writer.WriteError(Serving.NESTED_MULTI.s);
          } else {
            c.StartMulti();
            c.writer.WriteSimpleString("OK");
          }
          return true;
        case "DISCARD" =>
          if !c.inMulti {
            c.writer.WriteError(Serving.DISCARD_WITHOUT_MULTI.s);
          } else {
            c.DiscardMulti();
            c.writer.WriteSimpleString("OK");
          }
          return true;
        case "EXEC" =>
          if !c.inMulti {
            c.writer.WriteError(Serving.EXEC_WITHOUT_MULTI.s);
            return true;
          }
          ExecTransaction(c, clock);
          DbCount();
          return true;
        case "QUIT" =>
          c.writer.WriteSimpleString("OK");
          return false;
        case _ =>
          QueueOrExecute(c, clock(0), cmd);
          return true;
      }
    }

    /** Reads one value from the client and handles it; whether the connection stays. */
    method HandleClient(c: Client, clock: nat -> int) returns (stay: bool)
      requires Ready() && {c, c.writer, c.reader} !! store.Repr && c.dbIndex < |store.dbs|
      modifies store.Repr, LogRepr(), c, c.writer, c.reader
      ensures Ready() && fresh(store.Repr - old(store.Repr))
      ensures c.dbIndex < |store.dbs|
      ensures Parse(old(c.reader.rest)).Err? ==> !stay && World() == old(World()) && c.writer.out == old(c.writer.out)
      ensures Parse(old(c.reader.rest)).Ok? ==>
                var (v, left) := Parse(old(c.reader.rest)).value;
                var h := Serving.HandleValue(Cfg(), old(World()), old(c.View()), v, clock);
                && World() == h.world && stay == h.client.Some? && (stay ==> c.View() == h.client.value)
                && c.writer.out == old(c.writer.out) + Encode(h.reply) && c.reader.rest == left
    {
      var v := c.reader.TakeValue();
      if v.Err? {
        return false;
      }
      var cmd := ToCommand(v.value);
      if cmd.None? {
        c.writer.WriteError(Serving.PROTOCOL_ERROR.s);
        return true;
      }
      stay := HandleCommand(c, cmd.value, clock);
    }

    /** No object belongs to two clients, or to a client and the store. */
    ghost predicate Valid()
      reads this, store, store.Repr, clients.Values
    {
      && Ready() && this !in store.Repr
      && (forall id :: id in clients ==>
            {clients[id], clients[id].reader, clients[id].writer} !! store.Repr && clients[id].dbIndex < |store.dbs|)
      && (forall i, j :: i in clients && j in clients && i != j ==>
            && clients[i] != clients[j]
            && clients[i].reader != clients[j].reader && clients[i].writer != clients[j].writer)
    }

    ghost function State(): Serving.State
      reads this, store, aof, clients.Values
    {
      Serving.State(World(), map id | id in clients :: clients[id].View())
    }

    method AcceptConn(id: int, input: string)
      requires Valid()
      modifies this
      ensures Valid() && State() == Serving.Step(Cfg(), old(State()), Serving.Connect(id))
    {
      hide Store.Valid, Serving.HandleValue;
      var c := new Client(input);
      clients := clients[id := c];
    }

    method RemoveClient(id: int)
      requires Valid()
      modifies this
      ensures Valid() && State() == Serving.Step(Cfg(), old(State()), Serving.Disconnect(id))
      ensures clients == old(clients) - {id}
    {
      clients := clients - {id};
    }

    /** One client has been handled, and nobody else's objects have changed. */
    twostate lemma ClientServed(id: int)
      requires old(Valid()) && clients == old(clients) && id in clients
      requires Ready() && fresh(store.Repr - old(store.Repr)) && clients[id].dbIndex < |store.dbs|
      requires forall i :: i in clients && i != id ==> unchanged(clients[i])
      ensures Valid()
      ensures State() == Serving.State(World(), old(State().clients)[id := clients[id].View()])
    {
      var views := old(State().clients)[id := clients[id].View()];
      forall i | i in clients ensures State().clients[i] == views[i] {
        if i != id {
          assert unchanged(clients[i]);
        }
      }
      assert State().clients == views;
    }

    /** Handles what the client has sent; unless it stays, it is still to be removed. */
    method ServeReady(id: int, clock: nat -> int) returns (stay: bool)
      requires Valid() && id in clients
      modifies store.Repr, LogRepr(), clients[id], clients[id].writer, clients[id].reader
      ensures Valid() && fresh(store.Repr - old(store.Repr)) && clients == old(clients)
      ensures State().(clients := if stay then State().clients else State().clients - {id}) ==
              Serving.Step(Cfg(), old(State()), old(EventOf(id, clients[id].reader.rest, clock)))
      ensures clients[id].writer.out == old(clients[id].writer.out) +
              EncodeAll(Replies.AnswerTo(Cfg(), old(State()), old(EventOf(id, clients[id].reader.rest, clock)), id))
      ensures stay ==> clients[id].reader.rest == Unread(old(clients[id].reader.rest))
    {
      hide EventOf, Replies.AnswerTo, Serving.Step, Serving.HandleValue, Unread;
      var c := clients[id];
      ghost var s, input, out := State(), c.reader.rest, c.writer.out;
      StepOfRead(Cfg(), s, id, input, clock);
      AnswerOfRead(Cfg(), s, id, input, clock);
      ReadLeaves(input);
      stay := HandleClient(c, clock);
      assert out + [] == out;
      ClientServed(id);
      DropPut(s.clients, id, c.View());
    }

    /** What the event loop does when a client has something to read. */
    method Serve(id: int, clock: nat -> int)
      requires Valid() && id in clients
      modifies this, store.Repr, LogRepr(), clients[id], clients[id].writer, clients[id].reader
      ensures Valid() && fresh(store.Repr - old(store.Repr))
      ensures State() == Serving.Step(Cfg(), old(State()), old(EventOf(id, clients[id].reader.rest, clock)))
      ensures clients == old(clients) || clients == old(clients) - {id}
      ensures old(clients[id]).writer.out == old(clients[id].writer.out) +
              EncodeAll(Replies.AnswerTo(Cfg(), old(State()), old(EventOf(id, clients[id].reader.rest, clock)), id))
      ensures id in clients ==> clients[id].reader.rest == Unread(old(clients[id].reader.rest))
    {
      hide Replies.AnswerTo, EventOf, Ready;
      var stay := ServeReady(id, clock);
      if !stay {
        RemoveClient(id);
      }
    }

    /** What every client has still to be read. */
    ghost function Inputs(): map<int, string>
      reads this, clients.Values, set c | c in clients.Values :: c.reader
    {
      map id | id in clients :: clients[id].reader.rest
    }

    /** What every client has been sent. */
    ghost function Outputs(): map<int, string>
      reads this, clients.Values, set c | c in clients.Values :: c.writer
    {
      map id | id in clients :: clients[id].writer.out
    }

    /** These clients and what belongs to each of them are apart from each other and from the store. */
    ghost predicate Apart(cs: map<int, Client>)
      reads store, store.Repr
    {
      && (forall i :: i in cs ==> {cs[i], cs[i].reader, cs[i].writer} !! store.Repr)
      && (forall i, j :: i in cs && j in cs && i != j ==>
            cs[i] != cs[j] && cs[i].reader != cs[j].reader && cs[i].writer != cs[j].writer)
    }

    lemma OnlyOneAnswered(e: Serving.Event)
      requires Valid()
      ensures Serving.Valid(State()) && forall i :: i != e.id ==> Replies.AnswerTo(Cfg(), State(), e, i) == []
    {
    }

    /** Serves one client and sends nothing to the others, be they still connected or not. */
    method ServeOne(id: int, clock: nat -> int, ghost cs: map<int, Client>, ghost left: map<int, string>)
      returns (ghost e: Serving.Event)
      requires Valid() && id in clients && Apart(cs) && Among(cs) && Unreads(cs, left)
      modifies this, store.Repr, LogRepr(), clients[id], clients[id].writer, clients[id].reader
      ensures Valid() && fresh(store.Repr - old(store.Repr)) && Apart(cs) && Among(cs)
      ensures id in left && Unreads(cs, left[id := Unread(left[id])])
      ensures State() == Serving.Step(Cfg(), old(State()), e) && e == EventOf(id, left[id], clock)
      ensures forall i :: i in cs ==>
                cs[i].writer.out == old(cs[i].writer.out) + EncodeAll(Replies.AnswerTo(Cfg(), old(State()), e, i))
    {
      hide Valid, State, Serving.Step, Serving.Valid, EventOf, Replies.AnswerTo, Unread;
      e := EventOf(id, clients[id].reader.rest, clock);
      OnlyOneAnswered(e);
      Serve(id, clock);
    }

    /** What the clients that are still connected have to be read. */
    ghost predicate Unreads(cs: map<int, Client>, left: map<int, string>)
      reads this, set c | c in cs.Values :: c.reader
    {
      left.Keys == cs.Keys && forall i :: i in clients && i in cs ==> cs[i].reader.rest == left[i]
    }

    ghost predicate Among(cs: map<int, Client>)
      reads this
    {
      forall i :: i in clients ==> i in cs && clients[i] == cs[i]
    }

    /** Since they had sent `outs`, the clients have been sent just their answers over the events. */
    ghost predicate Sent(cs: map<int, Client>, outs: map<int, string>, s: Serving.State, es: seq<Serving.Event>)
      requires Serving.Valid(s)
      reads set c | c in cs.Values :: c.writer
    {
      && outs.Keys == cs.Keys
      && forall i :: i in cs ==> cs[i].writer.out == outs[i] + EncodeAll(Replies.Answers(Cfg(), s, es, i))
    }

    method ServeNext(id: int, clock: nat -> int, ghost cs: map<int, Client>, ghost left: map<int, string>,
                     ghost outs: map<int, string>, ghost s: Serving.State, ghost es: seq<Serving.Event>)
      returns (ghost e: Serving.Event)
      requires Valid() && id in clients && Apart(cs) && Among(cs) && Unreads(cs, left)
      requires Serving.Valid(s) && State() == Serving.Run(Cfg(), s, es) && Sent(cs, outs, s, es)
      modifies this, store.Repr, LogRepr(), clients[id], clients[id].writer, clients[id].reader
      ensures Valid() && fresh(store.Repr - old(store.Repr)) && Apart(cs) && Among(cs)
      ensures id in left && Unreads(cs, left[id := Unread(left[id])]) && e == EventOf(id, left[id], clock)
      ensures State() == Serving.Run(Cfg(), s, es + [e]) && Sent(cs, outs, s, es + [e])
    {
      hide Valid, Apart, Among, Unreads, Serving.Step, Replies.Answers, Serving.Run, State, EventOf, Unread;
      e := ServeOne(id, clock, cs, left);
      forall i | i in cs ensures cs[i].writer.out == outs[i] + EncodeAll(Replies.Answers(Cfg(), s, es + [e], i)) {
        OneAnswerMore(Cfg(), s, es, e, i, outs[i]);
      }
      Serving.RunOneMore(Cfg(), s, es, e);
    }

    /** What holds between two clients of a turn: `es` has happened, and `left` is what is still to be read. */
    ghost predicate Between(cs: map<int, Client>, outs: map<int, string>, left: map<int, string>, s: Serving.State,
                            es: seq<Serving.Event>)
      requires Serving.Valid(s)
      reads this, store, store.Repr, aof, clients.Values
      reads set c | c in cs.Values :: c.writer
      reads set c | c in cs.Values :: c.reader
    {
      && Valid() && Apart(cs) && Among(cs) && Unreads(cs, left) && Sent(cs, outs, s, es)
      && State() == Serving.Run(Cfg(), s, es)
    }

    /** Serves the client unless it has gone in the meantime. */
    method ServeIfThere(id: int, clock: nat -> int, ghost cs: map<int, Client>, ghost left: map<int, string>,
                        ghost outs: map<int, string>, ghost s: Serving.State, ghost es: seq<Serving.Event>)
      returns (ghost es': seq<Serving.Event>, ghost left': map<int, string>)
      requires Serving.Valid(s) && Between(cs, outs, left, s, es)
      modifies this, store.Repr, LogRepr(), cs.Values
      modifies set c | c in cs.Values :: c.writer
      modifies set c | c in cs.Values :: c.reader
      ensures fresh(store.Repr - old(store.Repr)) && Between(cs, outs, left', s, es')
      ensures (es', left') ==
              if id in left && id in Serving.Run(Cfg(), s, es).clients
              then (es + [EventOf(id, left[id], clock)], left[id := Unread(left[id])])
              else (es, left)
    {
      assert id in clients <==> id in State().clients;
      assert id in clients ==> id in left && clients[id] in cs.Values;
      es', left' := es, left;
      hide Valid, Apart, Unreads, Sent, Serving.Step, Serving.Run, State, EventOf, Unread;
      if id in clients {
        ghost var e := ServeNext(id, clock, cs, left, outs, s, es);
        es', left' := es + [e], left[id := Unread(left[id])];
      }
    }

    /** One turn of the event loop: the clients that have something to read, one after the other. */
    method ServeAll(ids: seq<int>, clocks: nat -> (nat -> int)) returns (ghost es: seq<Serving.Event>)
      requires Valid()
      modifies this, store.Repr, LogRepr(), clients.Values
      modifies set c | c in clients.Values :: c.writer
      modifies set c | c in clients.Values :: c.reader
      ensures Valid() && fresh(store.Repr - old(store.Repr))
      ensures es == TurnOf(Cfg(), old(State()), old(Inputs()), ids, clocks).0
      ensures State() == Serving.Run(Cfg(), old(State()), es)
      ensures Sent(old(clients), old(Outputs()), old(State()), es)
    {
      ghost var s, cs, inputs, left := State(), clients, Inputs(), Inputs();
      es := [];
      TurnBegins(clocks);
      hide Between, TurnOf, Valid, State, Inputs, Outputs, Sent, Serving.Run;
      assert ids[..0] == [];
      for k := 0 to |ids|
        invariant fresh(store.Repr - old(store.Repr)) && Between(cs, old(Outputs()), left, s, es)
        invariant (es, left) == TurnOf(Cfg(), s, inputs, ids[..k], clocks)
      {
        TurnOneMore(Cfg(), s, inputs, ids, clocks, k);
        es, left := ServeIfThere(ids[k], clocks(k), cs, left, old(Outputs()), s, es);
      }
      assert ids[..|ids|] == ids;
      TurnEnds(cs, old(Outputs()), left, s, es);
    }

    lemma TurnBegins(clocks: nat -> (nat -> int))
      requires Valid()
      ensures Serving.Valid(State()) && Between(clients, Outputs(), Inputs(), State(), [])
      ensures TurnOf(Cfg(), State(), Inputs(), [], clocks) == ([], Inputs())
    {
      hide Serving.Step;
      assert forall i :: i in clients ==> Outputs()[i] + [] == Outputs()[i];
    }

    lemma TurnEnds(cs: map<int, Client>, outs: map<int, string>, left: map<int, string>, s: Serving.State,
                   es: seq<Serving.Event>)
      requires Serving.Valid(s) && Between(cs, outs, left, s, es)
      ensures Valid() && Sent(cs, outs, s, es) && State() == Serving.Run(Cfg(), s, es)
    {
    }
  }

  /** The event that a client with something to read amounts to. */
  function EventOf(id: int, input: string, clock: nat -> int): (e: Serving.Event)
    ensures e.id == id
  {
    match Parse(input)
    case Err(_) => Serving.Disconnect(id)
    case Ok((v, _)) => Serving.Request(id, v, clock)
  }

  /** What a value read leaves of the input. */
  function Unread(input: string): string {
    match Parse(input) case Err(_) => [] case Ok((_, left)) => left
  }

  /**
    What one turn of the event loop amounts to: the events, and what is left to read of the clients' inputs. A client
    that has gone since it was found ready is passed over.
   */
  function TurnOf(cfg: Serving.Config, s: Serving.State, inputs: map<int, string>, ids: seq<int>,
                  clocks: nat -> (nat -> int)):
      (r: (seq<Serving.Event>, map<int, string>))
    requires Serving.Valid(s)
    ensures r.1.Keys == inputs.Keys
    decreases |ids|
  {
    if ids == [] then ([], inputs)
    else
      var n := |ids| - 1;
      var (es, left) := TurnOf(cfg, s, inputs, ids[..n], clocks);
      var id := ids[n];
      if id in left && id in Serving.Run(cfg, s, es).clients
      then (es + [EventOf(id, left[id], clocks(n))], left[id := Unread(left[id])])
      else (es, left)
  }

  lemma TurnOneMore(cfg: Serving.Config, s: Serving.State, inputs: map<int, string>, ids: seq<int>,
                    clocks: nat -> (nat -> int), k: nat)
    requires Serving.Valid(s) && k < |ids|
    ensures var (es, left) := TurnOf(cfg, s, inputs, ids[..k], clocks);
            var id := ids[k];
            TurnOf(cfg, s, inputs, ids[..k + 1], clocks) ==
            if id in left && id in Serving.Run(cfg, s, es).clients
            then (es + [EventOf(id, left[id], clocks(k))], left[id := Unread(left[id])])
            else (es, left)
  {
    hide Serving.Run, EventOf, Unread;
    assert ids[..k + 1][..k] == ids[..k];
  }

  lemma MoreEncoded(out: string, a: seq<Value>, b: seq<Value>)
    ensures out + EncodeAll(a) + EncodeAll(b) == out + EncodeAll(a + b)
  {
    EncodeAllJoins(a, b);
    hide EncodeAll;
  }

  lemma OneAnswerMore(cfg: Serving.Config, s: Serving.State, es: seq<Serving.Event>, e: Serving.Event, id: int,
                      out: string)
    requires Serving.Valid(s)
    ensures out + EncodeAll(Replies.Answers(cfg, s, es, id)) +
            EncodeAll(Replies.AnswerTo(cfg, Serving.Run(cfg, s, es), e, id)) ==
            out + EncodeAll(Replies.Answers(cfg, s, es + [e], id))
  {
    hide Replies.Answers, Replies.AnswerTo, Serving.Run, Serving.Valid, EncodeAll;
    Replies.AnswersOneMore(cfg, s, es, e, id);
    MoreEncoded(out, Replies.Answers(cfg, s, es, id), Replies.AnswerTo(cfg, Serving.Run(cfg, s, es), e, id));
  }

  lemma ReadLeaves(input: string)
    ensures Parse(input).Ok? ==> Unread(input) == Parse(input).value.1
  {
  }

  lemma AnswerOfRead(cfg: Serving.Config, s: Serving.State, id: int, input: string, clock: nat -> int)
    requires Serving.Valid(s) && id in s.clients
    ensures EncodeAll(Replies.AnswerTo(cfg, s, EventOf(id, input, clock), id)) ==
            match Parse(input)
            case Err(_) => []
            case Ok((v, _)) => Encode(Serving.HandleValue(cfg, s.world, s.clients[id], v, clock).reply)
  {
    hide Serving.HandleValue;
  }

  lemma DropPut(m: map<int, Serving.Client>, id: int, c: Serving.Client)
    ensures m[id := c] - {id} == m - {id}
  {
  }

  lemma StepOfRead(cfg: Serving.Config, s: Serving.State, id: int, input: string, clock: nat -> int)
    requires Serving.Valid(s) && id in s.clients
    ensures var s' := Serving.Step(cfg, s, EventOf(id, input, clock));
            && (Parse(input).Err? ==> s' == s.(clients := s.clients - {id}))
            && (Parse(input).Ok? ==>
                  var h := Serving.HandleValue(cfg, s.world, s.clients[id], Parse(input).value.0, clock);
                  && s'.world == h.world
                  && (h.client.Some? ==> s'.clients == s.clients[id := h.client.value])
                  && (h.client.None? ==> s'.clients == s.clients - {id}))
  {
  }

  /** What has been seen and what the rest replays to make up what the file replays to. */
  ghost predicate StillToReplay(file: string, seen: seq<Command>, rest: string) {
    Replayed(file) == seen + Replayed(rest)
  }

  lemma NextToReplay(file: string, seen: seq<Command>, b: string)
    requires StillToReplay(file, seen, b)
    ensures Parse(b).Err? ==> seen == Replayed(file)
    ensures Parse(b).Ok? ==>
              var (v, more) := Parse(b).value;
              StillToReplay(file, if ToCommand(v).Some? then seen + [ToCommand(v).value] else seen, more)
  {
    if Parse(b).Ok? && ToCommand(Parse(b).value.0).Some? {
      var c, more := ToCommand(Parse(b).value.0).value, Replayed(Parse(b).value.1);
      assert seen + ([c] + more) == seen + [c] + more;
    }
  }

  /** Database 0 holds what the commands rebuild, the others nothing. */
  ghost predicate Rebuilt(dbs: seq<Keyspace>, env: Specs.Env, cs: seq<Command>, clock: nat -> int) {
    |dbs| > 0 && dbs == Serving.AllEmpty(|dbs|)[0 := Recovery.Rebuild(env, cs, clock)]
  }

  lemma RebuiltOneMore(dbs: seq<Keyspace>, env: Specs.Env, cs: seq<Command>, c: Command, clock: nat -> int)
    requires Rebuilt(dbs, env, cs, clock)
    ensures Rebuilt(dbs[0 := Recovery.Redo(env, dbs[0], clock(|cs|), c)], env, cs + [c], clock)
  {
    Recovery.RebuildOneMore(env, cs, c, clock);
  }

  lemma OneReplyMore(head: string, replies: seq<Value>, r: Value)
    ensures head + EncodeAll(replies) + Encode(r) == head + EncodeAll(replies + [r])
  {
    EncodeOneMore(replies, r);
  }

  lemma OneCommandMore(cfg: Serving.Config, w: Serving.World, db: nat, queue: seq<Command>, i: nat, clock: nat -> int)
    requires db < |w.dbs| && i < |queue|
    ensures var (w1, db1, replies) := Serving.ExecuteAll(cfg, w, db, queue[..i], clock);
            var (w2, db2, reply) := Serving.Execute(cfg, w1, db1, clock(i), queue[i]);
            Serving.ExecuteAll(cfg, w, db, queue[..i + 1], clock) == (w2, db2, replies + [reply])
  {
    assert queue[..i + 1][..i] == queue[..i];
  }
}
