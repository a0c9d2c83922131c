/** The handlers of the string and key commands, and the registry that finds a handler by name. */
module KeyCommands {
  import opened Basics
  import opened Strings
  import opened Resp
  import opened Keyspaces
  import opened Databases
  import ListCommands
  import ZSetCommands
  import Specs = CommandSpecs

  /** The options of SET. */
  method ParseSetOptions(args: seq<string>, now: int) returns (r: Result<Specs.SetOptions, Value>)
    requires |args| >= 2
    ensures r == Specs.ParseSetOptions(args, 2, now, Specs.SetOptions(false, false, None))
  {
    var o := Specs.SetOptions(false, false, None);
    ghost var spec := Specs.ParseSetOptions(args, 2, now, o);
    var i := 2;
    while i < |args|
      invariant i >= 2 && spec == Specs.ParseSetOptions(args, i, now, o)
      decreases |args| - i
    {
      var opt := ToUpper(args[i]);
      if opt == "EX" || opt == "PX" || opt == "EXAT" || opt == "PXAT" {
        i := i + 1;
        if i >= |args| {
          return Err(Specs.SYNTAX_ERROR);
        }
        var deadline := Specs.Deadline(opt, args[i], now);
        if deadline.None? {
          return Err(Specs.INVALID_EXPIRE);
        }
        o := o.(expiry := deadline);
      } else if opt == "NX" {
        o := o.(nx := true);
      } else if opt == "XX" {
        o := o.(xx := true);
      } else if opt != "KEEPTTL" {
        return Err(Specs.SYNTAX_ERROR);
      }
      i := i + 1;
    }
    return Ok(o);
  }

  method CmdSet(db: DB, now: int, args: seq<string>) returns (r: Value)
    requires db.Valid()
    modifies db
    ensures db.Valid() && fresh(db.Repr - old(db.Repr))
    ensures (db.Keyspace(), r) == Specs.SetText(old(db.Keyspace()), now, args)
  {
    if |args| < 2 {
      return Specs.WrongArgCount("SET");
    }
    var options := ParseSetOptions(args, now);
    if options.Err? {
      return options.error;
    }
    var o := options.value;
    if o.nx {
      var found := db.Get(args[0], now);
      if found.Some? {
        return NullBulk;
      }
    }
    if o.xx {
      var found := db.Get(args[0], now);
      if found.None? {
        return NullBulk;
      }
    }
    SetTextObject(db, args[0], args[1], o.expiry);
    return Specs.OK_REPLY;
  }

  method SetTextObject(db: DB, key: string, text: string, expiry: Option<int>)
    requires db.Valid()
    modifies db
    ensures db.Valid() && fresh(db.Repr - old(db.Repr))
    ensures db.Keyspace() == old(db.Keyspace())[key := Entry(Text(text), expiry)]
  {
    var obj := new Object(TextValue(text), expiry);
    db.Set(key, obj);
  }

  method CmdGet(db: DB, now: int, args: seq<string>) returns (r: Value)
    requires db.Valid()
    modifies db
    ensures db.Valid() && db.Repr == old(db.Repr)
    ensures (db.Keyspace(), r) == Specs.GetText(old(db.Keyspace()), now, args)
  {
    if |args| != 1 {
      return Specs.WrongArgCount("GET");
    }
    var found := db.Get(args[0], now);
    if found.None? {
      return NullBulk;
    }
    match found.value.value {
      case TextValue(text) => return BulkString(text);
      case _ => return Specs.WRONG_TYPE;
    }
  }

  method CmdDel(db: DB, args: seq<string>) returns (r: Value)
    requires db.Valid()
    modifies db
    ensures db.Valid() && db.Repr == old(db.Repr)
    ensures (db.Keyspace(), r) == Specs.DelKeys(old(db.Keyspace()), args)
  {
    if |args| < 1 {
      return Specs.WrongArgCount("DEL");
    }
    var n := db.Del(args);
    return Integer(n);
  }

  method CmdRename(db: DB, now: int, args: seq<string>) returns (r: Value)
    requires db.Valid()
    modifies db
    ensures db.Valid() && fresh(db.Repr - old(db.Repr))
    ensures (db.Keyspace(), r) == Specs.RenameKey(old(db.Keyspace()), now, args)
  {
    if |args| != 2 {
      return Specs.WrongArgCount("RENAME");
    }
    var ok := db.Rename(args[0], args[1], now);
    if !ok {
      return Specs.NO_SUCH_KEY;
    }
    return Specs.OK_REPLY;
  }

  method RunList(db: DB, now: int, name: string, args: seq<string>) returns (r: Value)
    requires db.Valid() && name in Specs.LIST_NAMES
    modifies db.Repr
    ensures db.Valid() && fresh(db.Repr - old(db.Repr))
    ensures (db.Keyspace(), r) == Specs.ApplyList(old(db.Keyspace()), now, name, args)
  {
    match name {
      case "LPUSH" => r := ListCommands.CmdPush(db, now, name, args, true);
      case "RPUSH" => r := ListCommands.CmdPush(db, now, name, args, false);
      case "LPUSHX" => r := ListCommands.CmdPushX(db, now, name, args, true);
      case "RPUSHX" => r := ListCommands.CmdPushX(db, now, name, args, false);
      case "LPOP" => r := ListCommands.CmdPop(db, now, name, args, true);
      case "RPOP" => r := ListCommands.CmdPop(db, now, name, args, false);
      case "LLEN" => r := ListCommands.CmdLLen(db, now, args);
      case "LRANGE" => r := ListCommands.CmdLRange(db, now, args);
      case "LINDEX" => r := ListCommands.CmdLIndex(db, now, args);
      case "LSET" => r := ListCommands.CmdLSet(db, now, args);
      case "LINSERT" => r := ListCommands.CmdLInsert(db, now, args);
      case "LREM" => r := ListCommands.CmdLRem(db, now, args);
      case "LTRIM" => r := ListCommands.CmdLTrim(db, now, args);
      case "RPOPLPUSH" => r := ListCommands.CmdRPopLPush(db, now, args);
      case _ => r := ListCommands.CmdLMove(db, now, args);
    }
  }

  method RunZSet(env: Specs.Env, db: DB, now: int, name: string, args: seq<string>) returns (r: Value)
    requires db.Valid() && name in Specs.ZSET_NAMES
    modifies db.Repr
    ensures db.Valid() && fresh(db.Repr - old(db.Repr))
    ensures (db.Keyspace(), r) == Specs.ApplyZSet(env, old(db.Keyspace()), now, name, args)
  {
    match name {
      case "ZADD" => r := ZSetCommands.CmdZAdd(env, db, now, args);
      case "ZREM" => r := ZSetCommands.CmdZRem(db, now, args);
      case "ZSCORE" => r := ZSetCommands.CmdZScore(env, db, now, args);
      case "ZINCRBY" => r := ZSetCommands.CmdZIncrBy(env, db, now, args);
      case "ZRANGE" => r := ZSetCommands.CmdZRange(env, db, now, name, args, false);
      case "ZREVRANGE" => r := ZSetCommands.CmdZRange(env, db, now, name, args, true);
      case "ZRANGEBYSCORE" => r := ZSetCommands.CmdZRangeByScore(env, db, now, name, args, false);
      case "ZREVRANGEBYSCORE" => r := ZSetCommands.CmdZRangeByScore(env, db, now, name, args, true);
      case "ZCARD" => r := ZSetCommands.CmdZCard(db, now, args);
      case "ZCOUNT" => r := ZSetCommands.CmdZCount(env, db, now, args);
      case "ZPOPMIN" => r := ZSetCommands.CmdZPop(env, db, now, name, args, true);
      case "ZPOPMAX" => r := ZSetCommands.CmdZPop(env, db, now, name, args, false);
      case _ => r := ZSetCommands.CmdZRangeByLex(db, now, args);
    }
  }

  /** Calls the handler registered under the name. */
  method Run(env: Specs.Env, db: DB, now: int, name: string, args: seq<string>) returns (r: Value)
    requires db.Valid() && Specs.Registered(name)
    modifies db.Repr
    ensures db.Valid() && fresh(db.Repr - old(db.Repr))
    ensures (db.Keyspace(), r) == Specs.Apply(env, old(db.Keyspace()), now, name, args)
  {
    if name in Specs.LIST_NAMES {
      r := RunList(db, now, name, args);
      return;
    }
    if name in Specs.ZSET_NAMES {
      r := RunZSet(env, db, now, name, args);
      return;
    }
    match name {
      case "SET" => r := CmdSet(db, now, args);
      case "GET" => r := CmdGet(db, now, args);
      case "DEL" => r := CmdDel(db, args);
      case _ => r := CmdRename(db, now, args);
    }
  }
}
