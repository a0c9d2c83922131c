/** What the server makes of a request, told from its words. */
module RequestPromises {
  import opened Basics
  import opened Strings
  import opened Resp
  import opened AppendOnlyFiles
  import opened Keyspaces
  import opened CommandSpecs
  import opened Serving
  import opened KeyPromises

  // From a value to a command.

  /** Just the arrays that begin with a bulk string, be it null, are commands. */
  lemma CommandsAre(v: Value)
    ensures ToCommand(v).Some? <==> v.Array? && |v.elems| > 0 && (v.elems[0].BulkString? || v.elems[0].NullBulk?)
  {
  }

  /**
    The name is the first word, its letters in lower case replaced by those in upper case, 32 places before them; the
    arguments are the other words as they stand.
   */
  lemma CommandMeans(head: string, more: seq<Value>)
    ensures var c := ToCommand(Array([BulkString(head)] + more));
            && c.Some? && |c.value.name| == |head| && |c.value.args| == |more|
            && (forall i :: 0 <= i < |head| ==>
                  c.value.name[i] as int ==
                  if 97 <= head[i] as int <= 122 then head[i] as int - 32 else head[i] as int)
            && forall i :: 0 <= i < |more| && more[i].BulkString? ==> c.value.args[i] == more[i].s
  {
    var v := Array([BulkString(head)] + more);
    assert v.elems[0] == BulkString(head) && v.elems[1..] == more;
    forall i | 0 <= i < |head|
      ensures ToUpper(head)[i] as int == if 97 <= head[i] as int <= 122 then head[i] as int - 32 else head[i] as int
    {
      UpperMeans(head, i);
    }
  }

  /** The same character, or the same letter in upper and lower case. */
  predicate SameLetter(a: char, b: char) {
    || a == b
    || (65 <= a as int <= 90 && b as int == a as int + 32)
    || (65 <= b as int <= 90 && a as int == b as int + 32)
  }

  predicate SameButForCase(a: string, b: string) {
    |a| == |b| && forall i :: 0 <= i < |a| ==> SameLetter(a[i], b[i])
  }

  /** Requests whose first words differ in the case of letters alone are handled alike. */
  lemma CaseDoesNotMatter(cfg: Config, w: World, cl: Client, a: string, b: string, more: seq<Value>,
                          clock: nat -> int)
    requires SameButForCase(a, b) && cl.db < |w.dbs|
    ensures HandleValue(cfg, w, cl, Array([BulkString(a)] + more), clock) ==
            HandleValue(cfg, w, cl, Array([BulkString(b)] + more), clock)
  {
    hide HandleCommand;
    var c, d := ToCommand(Array([BulkString(a)] + more)), ToCommand(Array([BulkString(b)] + more));
    CommandMeans(a, more);
    CommandMeans(b, more);
    assert c.value.name == d.value.name;
    assert (Array([BulkString(a)] + more)).elems[1..] == more == (Array([BulkString(b)] + more)).elems[1..];
  }

  // What controls the session.

  /** MULTI, DISCARD and QUIT, and EXEC without MULTI: the client afterwards, and the reply. */
  lemma ControlPromise(cfg: Config, w: World, cl: Client, args: seq<string>, clock: nat -> int)
    requires cl.db < |w.dbs|
    ensures HandleCommand(cfg, w, cl, Command("MULTI", args), clock) ==
            if cl.inMulti then Handled(w, Some(cl), Error("ERR MULTI calls can not be nested"))
            else Handled(w, Some(Client(cl.db, true, [])), SimpleString("OK"))
    ensures HandleCommand(cfg, w, cl, Command("DISCARD", args), clock) ==
            if cl.inMulti then Handled(w, Some(Client(cl.db, false, [])), SimpleString("OK"))
            else Handled(w, Some(cl), Error("ERR DISCARD without MULTI"))
    ensures !cl.inMulti ==>
              HandleCommand(cfg, w, cl, Command("EXEC", args), clock) ==
              Handled(w, Some(cl), Error("ERR EXEC without MULTI"))
    ensures HandleCommand(cfg, w, cl, Command("QUIT", args), clock) == Handled(w, None, SimpleString("OK"))
  {
    hide Execute, ExecuteAll;
  }

  /** Any other command is queued inside a transaction, and nothing else happens. */
  lemma QueuePromise(cfg: Config, w: World, cl: Client, c: Command, clock: nat -> int)
    requires cl.db < |w.dbs| && cl.inMulti && c.name !in {"MULTI", "EXEC", "DISCARD", "QUIT"}
    ensures HandleCommand(cfg, w, cl, c, clock) ==
            Handled(w, Some(Client(cl.db, true, cl.queue + [c])), SimpleString("QUEUED"))
  {
    hide Execute, ExecuteAll;
  }

  /** A value that is no command is answered and changes nothing. */
  lemma NoCommandPromise(cfg: Config, w: World, cl: Client, v: Value, clock: nat -> int)
    requires cl.db < |w.dbs| && ToCommand(v).None?
    ensures HandleValue(cfg, w, cl, v, clock) == Handled(w, Some(cl), Error("ERR Protocol error"))
  {
    hide HandleCommand;
  }

  /** SELECT takes the number of a database there is. */
  lemma SelectPromise(cfg: Config, w: World, db: nat, now: int, text: string)
    requires db < |w.dbs|
    ensures Execute(cfg, w, db, now, Command("SELECT", [text])) ==
            match ParseInt(text)
            case Some(i) =>
              if 0 <= i < |w.dbs| then (w, i, SimpleString("OK")) else (w, db, Error("ERR DB index is out of range"))
            case None => (w, db, Error("ERR DB index is out of range"))
  {
    hide Apply, ParseInt;
  }

  /** FLUSHALL empties every database, and no other command is unknown but those that are not registered. */
  lemma FlushPromise(cfg: Config, w: World, db: nat, now: int, c: Command)
    requires db < |w.dbs|
    ensures var (w', db', reply) := Execute(cfg, w, db, now, Command("FLUSHALL", c.args));
            && |w'.dbs| == |w.dbs| && (forall i :: 0 <= i < |w'.dbs| ==> w'.dbs[i] == map[])
            && w'.log == w.log && db' == db && reply == SimpleString("OK")
    ensures !Registered(c.name) && c.name != "SELECT" && c.name != "FLUSHALL" ==>
              Execute(cfg, w, db, now, c) == (w, db, Error("ERR unknown command '" + ToLower(c.name) + "'"))
  {
    hide Apply, Registered, ToLower;
  }

  /** A registered command runs in the client's database, and what it replies is the reply; a write is logged. */
  lemma RunPromise(cfg: Config, w: World, db: nat, now: int, c: Command)
    requires db < |w.dbs| && Registered(c.name)
    ensures var (w', db', reply) := Execute(cfg, w, db, now, c);
            var (ks, r) := Apply(cfg.env, w.dbs[db], now, c.name, c.args);
            && w'.dbs == w.dbs[db := ks] && db' == db && reply == r
            && w'.log == w.log + if cfg.aof && IsWriteCommand(c.name) then EncodeCommand(c) else []
  {
    hide Apply, EncodeCommand, IsWriteCommand;
  }

  lemma SetWord()
    ensures SameButForCase("set", "SET") && "SET" in KEY_NAMES && Registered("SET")
    ensures "SET" !in {"MULTI", "EXEC", "DISCARD", "QUIT", "SELECT", "FLUSHALL"}
  {
    assert SameLetter('s', 'S') && SameLetter('e', 'E') && SameLetter('t', 'T');
  }

  /** The request `set k v` of a client that has just connected: the reply is OK, and the text is under the key. */
  lemma LowerCaseSet(cfg: Config, w: World, key: string, text: string, clock: nat -> int)
    requires |w.dbs| > 0
    ensures var h := HandleValue(cfg, w, FRESH, Array(Bulks(["set", key, text])), clock);
            && h.reply == SimpleString("OK") && h.client == Some(FRESH)
            && key in h.world.dbs[0] && h.world.dbs[0][key] == Entry(Text(text), None)
  {
    hide HandleValue, HandleCommand, Execute, Apply, Registered, SameButForCase, ToCommand, ParseSetOptions, ToUpper;
    var more, args := Bulks([key, text]), [key, text];
    SetWord();
    assert Bulks(["set", key, text]) == [BulkString("set")] + more;
    CaseDoesNotMatter(cfg, w, FRESH, "set", "SET", more, clock);
    SetRequestRuns(cfg, w, args, clock);
    RunPromise(cfg, w, 0, clock(0), Command("SET", args));
    assert [key, text] + [] == args;
    SetPromise(cfg.env, w.dbs[0], clock(0), key, text, []);
    PlainOptions(args, clock(0));
  }

  lemma SetRequestRuns(cfg: Config, w: World, args: seq<string>, clock: nat -> int)
    requires |w.dbs| > 0
    ensures var (w', db, reply) := Execute(cfg, w, 0, clock(0), Command("SET", args));
            HandleValue(cfg, w, FRESH, Array([BulkString("SET")] + Bulks(args)), clock) ==
            Handled(w', Some(FRESH.(db := db)), reply)
  {
    hide Execute, ExecuteAll;
    var v := Array([BulkString("SET")] + Bulks(args));
    assert v.elems[0] == BulkString("SET") && v.elems[1..] == Bulks(args);
    assert ToUpper("SET") == "SET" && Texts(Bulks(args)) == args;
    assert ToCommand(v) == Some(Command("SET", args));
  }

  /** EXEC replies with what its commands have replied, each in its turn. */
  lemma {:induction false} ExecPromise(cfg: Config, w: World, db: nat, cs: seq<Command>, clock: nat -> int, i: nat)
    requires db < |w.dbs| && i < |cs|
    ensures var before := ExecuteAll(cfg, w, db, cs[..i], clock);
            ExecuteAll(cfg, w, db, cs, clock).2[i] == Execute(cfg, before.0, before.1, clock(i), cs[i]).2
    decreases |cs|
  {
    hide Execute;
    if i < |cs| - 1 {
      assert cs[..|cs| - 1][..i] == cs[..i];
      ExecPromise(cfg, w, db, cs[..|cs| - 1], clock, i);
    }
  }

  /** What clients are told. */
  lemma ErrorTexts()
    ensures NOT_A_FLOAT == Error("ERR value is not a valid float") && SYNTAX_ERROR == Error("ERR syntax error")
    ensures NO_SUCH_KEY == Error("ERR no such key") && INDEX_OUT_OF_RANGE == Error("ERR index out of range")
    ensures BOUND_NOT_A_FLOAT == Error("ERR min or max is not a float") && OK_REPLY == SimpleString("OK")
    ensures NOT_AN_INTEGER == Error("ERR value is not an integer" + " or out of range")
    ensures WRONG_TYPE == Error("WRONGTYPE Operation against a key" + " holding the wrong kind of value")
    ensures INVALID_EXPIRE == Error("ERR invalid expire time" + " in 'set' command")
  {
  }
}
