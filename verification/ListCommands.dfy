/** The handlers of the list commands. */
module ListCommands {
  import opened Basics
  import opened Strings
  import opened Occurrences
  import opened Resp
  import opened Keyspaces
  import opened LinkedLists
  import opened Databases
  import Specs = CommandSpecs

  /** The list under a key; None when the key is absent, and an error when it holds something else. */
  method GetList(db: DB, key: string, now: int) returns (l: Result<Option<List>, Value>)
    requires db.Valid()
    modifies db
    ensures db.Valid() && db.Repr == old(db.Repr)
    ensures db.Keyspace() == Purge(old(db.Keyspace()), key, now)
    ensures match Specs.GetItems(db.Keyspace(), key)
            case Wrong => l == Err(Specs.WRONG_TYPE)
            case Absent => l == Ok(None)
            case There(s) => l.Ok? && l.value.Some? && Holds(db, key, l.value.value)
  {
    var o := db.Get(key, now);
    if o.None? {
      return Ok(None);
    }
    match o.value.value
    case ListValue(list) => return Ok(Some(list));
    case _ => return Err(Specs.WRONG_TYPE);
  }

  ghost predicate Holds(db: DB, key: string, l: List)
    reads db
  {
    key in db.data && db.data[key].value == ListValue(l)
  }

  /** The list under a key, made if the key is absent; an error when it holds something else. */
  method GetOrCreateList(db: DB, key: string, now: int) returns (l: Result<List, Value>)
    requires db.Valid()
    modifies db
    ensures db.Valid() && fresh(db.Repr - old(db.Repr))
    ensures var ks := Purge(old(db.Keyspace()), key, now);
            match Specs.GetItems(ks, key)
            case Wrong => l == Err(Specs.WRONG_TYPE) && db.Keyspace() == ks
            case got => l.Ok? && Holds(db, key, l.value)
                        && db.Keyspace() == Specs.Put(ks, key, Items(Specs.ValueOr(got, [])))
  {
    var found := GetList(db, key, now);
    if found.Err? {
      return Err(found.error);
    }
    if found.value.Some? {
      Specs.PutSame(db.Keyspace(), key);
      return Ok(found.value.value);
    }
    var list := NewList(db, key);
    return Ok(list);
  }

  method NewList(db: DB, key: string) returns (l: List)
    requires db.Valid() && key !in db.data
    modifies db
    ensures db.Valid() && fresh(db.Repr - old(db.Repr))
    ensures Holds(db, key, l) && db.Keyspace() == old(db.Keyspace())[key := Entry(Items([]), None)]
  {
    hide DB.Valid, DB.Keyspace;
    var o := NewListObject();
    l := o.value.list;
    db.NewIsApart(o.Repr());
    db.Set(key, o);
  }

  method NewListObject() returns (o: Object)
    ensures o.value.ListValue? && fresh(o) && fresh(o.Repr()) && o.Valid() && o.Entry() == Entry(Items([]), None)
  {
    var l := new List();
    o := new Object(ListValue(l), None);
  }

  /** The values, one after the other, onto the list under a key. */
  method PushAll(db: DB, key: string, l: List, values: seq<string>, atHead: bool)
    requires db.Valid() && Holds(db, key, l)
    modifies db.Repr
    ensures db.Valid() && fresh(db.Repr - old(db.Repr)) && l.length == |l.contents|
    ensures l.contents == if atHead then Reverse(values) + old(l.contents) else old(l.contents) + values
    ensures db.Keyspace() == Specs.Put(old(db.Keyspace()), key, Items(l.contents))
  {
    db.ListHeld(key, l);
    if atHead {
      l.LPush(values);
    } else {
      l.RPush(values);
    }
    db.Repr := db.Repr + l.Repr();
    db.ListChanged(key, l);
  }

  method CmdPush(db: DB, now: int, name: string, args: seq<string>, atHead: bool) returns (r: Value)
    requires db.Valid()
    modifies db.Repr
    ensures db.Valid() && fresh(db.Repr - old(db.Repr))
    ensures (db.Keyspace(), r) == Specs.Push(old(db.Keyspace()), now, name, args, atHead)
  {
    hide DB.Valid, DB.Keyspace, List.Valid;
    db.InRepr();
    if |args| < 2 {
      return Specs.WrongArgCount(name);
    }
    ghost var ks := Purge(db.Keyspace(), args[0], now);
    var got := GetOrCreateList(db, args[0], now);
    if got.Err? {
      return got.error;
    }
    var l := got.value;
    db.ListHeld(args[0], l);
    ghost var s := l.contents;
    PushAll(db, args[0], l, args[1..], atHead);
    Specs.PutTwice(ks, args[0], Items(s), Items(l.contents));
    return Integer(l.length);
  }

  /** LPUSHX and RPUSHX. */
  method CmdPushX(db: DB, now: int, name: string, args: seq<string>, atHead: bool) returns (r: Value)
    requires db.Valid()
    modifies db.Repr
    ensures db.Valid() && fresh(db.Repr - old(db.Repr))
    ensures (db.Keyspace(), r) == Specs.PushX(old(db.Keyspace()), now, name, args, atHead)
  {
    hide DB.Valid, DB.Keyspace, List.Valid;
    db.InRepr();
    if |args| < 2 {
      return Specs.WrongArgCount(name);
    }
    var got := GetList(db, args[0], now);
    if got.Err? {
      return got.error;
    }
    if got.value.None? {
      return Integer(0);
    }
    var l := got.value.value;
    db.ListHeld(args[0], l);
    PushAll(db, args[0], l, args[1..], atHead);
    return Integer(l.length);
  }

  method CmdLLen(db: DB, now: int, args: seq<string>) returns (r: Value)
    requires db.Valid()
    modifies db
    ensures db.Valid() && db.Repr == old(db.Repr)
    ensures (db.Keyspace(), r) == Specs.LLen(old(db.Keyspace()), now, args)
  {
    hide DB.Valid, DB.Keyspace, List.Valid;
    if |args| != 1 {
      return Specs.WrongArgCount("LLEN");
    }
    var got := GetList(db, args[0], now);
    if got.Err? {
      return got.error;
    }
    if got.value.None? {
      return Integer(0);
    }
    db.ListHeld(args[0], got.value.value);
    return Integer(got.value.value.length);
  }

  method CmdLIndex(db: DB, now: int, args: seq<string>) returns (r: Value)
    requires db.Valid()
    modifies db
    ensures db.Valid() && db.Repr == old(db.Repr)
    ensures (db.Keyspace(), r) == Specs.LIndex(old(db.Keyspace()), now, args)
  {
    hide DB.Valid, DB.Keyspace, List.Valid;
    if |args| != 2 {
      return Specs.WrongArgCount("LINDEX");
    }
    var got := GetList(db, args[0], now);
    if got.Err? {
      return got.error;
    }
    if got.value.None? {
      return NullBulk;
    }
    var idx := ParseInt(args[1]);
    if idx.None? {
      return Specs.NOT_AN_INTEGER;
    }
    db.ListHeld(args[0], got.value.value);
    var v := got.value.value.Index(idx.value);
    return if v.None? then NullBulk else BulkString(v.value);
  }

  /** Replaces one element of the list under a key. */
  method SetAt(db: DB, key: string, l: List, idx: int, v: string) returns (ok: bool)
    requires db.Valid() && Holds(db, key, l)
    modifies db.Repr
    ensures db.Valid() && fresh(db.Repr - old(db.Repr))
    ensures var s, i := old(l.contents), Position(|old(l.contents)|, idx);
            && (ok <==> 0 <= i < |s|)
            && db.Keyspace() == Specs.Put(old(db.Keyspace()), key, Items(if ok then s[i := v] else s))
  {
    db.ListHeld(key, l);
    ok := l.Set(idx, v);
    db.ListChanged(key, l);
  }

  method CmdLSet(db: DB, now: int, args: seq<string>) returns (r: Value)
    requires db.Valid()
    modifies db.Repr
    ensures db.Valid() && fresh(db.Repr - old(db.Repr))
    ensures (db.Keyspace(), r) == Specs.LSet(old(db.Keyspace()), now, args)
  {
    hide DB.Valid, DB.Keyspace, List.Valid;
    db.InRepr();
    if |args| != 3 {
      return Specs.WrongArgCount("LSET");
    }
    var got := GetList(db, args[0], now);
    if got.Err? {
      return got.error;
    }
    if got.value.None? {
      return Specs.NO_SUCH_KEY;
    }
    var idx := ParseInt(args[1]);
    if idx.None? {
      return Specs.NOT_AN_INTEGER;
    }
    db.ListHeld(args[0], got.value.value);
    Specs.PutSame(db.Keyspace(), args[0]);
    var ok := SetAt(db, args[0], got.value.value, idx.value, args[2]);
    return if ok then Specs.OK_REPLY else Specs.INDEX_OUT_OF_RANGE;
  }

  /** Inserts at the pivot of the list under a key; -1 if there is none. */
  method InsertAt(db: DB, key: string, l: List, pivot: string, v: string, before: bool) returns (n: int)
    requires db.Valid() && Holds(db, key, l)
    modifies db.Repr
    ensures db.Valid() && fresh(db.Repr - old(db.Repr))
    ensures var s := old(l.contents);
            && n == (if pivot in s then |s| + 1 else -1)
            && db.Keyspace() ==
               Specs.Put(old(db.Keyspace()), key, Items(if pivot in s then Specs.InsertAt(s, pivot, v, before) else s))
  {
    db.ListHeld(key, l);
    if before {
      n := l.InsertBefore(pivot, v);
    } else {
      n := l.InsertAfter(pivot, v);
    }
    db.Repr := db.Repr + l.Repr();
    db.ListChanged(key, l);
  }

  method CmdLInsert(db: DB, now: int, args: seq<string>) returns (r: Value)
    requires db.Valid()
    modifies db.Repr
    ensures db.Valid() && fresh(db.Repr - old(db.Repr))
    ensures (db.Keyspace(), r) == Specs.LInsert(old(db.Keyspace()), now, args)
  {
    hide DB.Valid, DB.Keyspace, List.Valid;
    db.InRepr();
    if |args| != 4 {
      return Specs.WrongArgCount("LINSERT");
    }
    var got := GetList(db, args[0], now);
    if got.Err? {
      return got.error;
    }
    if got.value.None? {
      return Integer(0);
    }
    var where := ToUpper(args[1]);
    if where != "BEFORE" && where != "AFTER" {
      return Specs.SYNTAX_ERROR;
    }
    db.ListHeld(args[0], got.value.value);
    Specs.PutSame(db.Keyspace(), args[0]);
    var n := InsertAt(db, args[0], got.value.value, args[2], args[3], where == "BEFORE");
    return Integer(n);
  }

  /** The last step of the commands that take elements out. */
  method DropIfEmpty(db: DB, key: string, l: List)
    requires db.Valid() && Holds(db, key, l) && l.Valid()
    modifies db
    ensures db.Valid() && db.Repr == old(db.Repr)
    ensures db.Keyspace() == if l.contents == [] then old(db.Keyspace()) - {key} else old(db.Keyspace())
  {
    hide DB.Valid, DB.Keyspace, DeleteAll;
    if l.length == 0 {
      DeleteOne(db.Keyspace(), key);
      var _ := db.Del([key]);
    }
  }

  method PopOne(l: List, atHead: bool) returns (v: Option<string>)
    requires l.Valid()
    modifies l.Repr()
    ensures l.Valid() && l.Repr() <= old(l.Repr())
    ensures old(l.contents) == [] ==> v == None && l.contents == []
    ensures old(l.contents) != [] ==>
              && v == Some(Specs.Off(old(l.contents), 1, atHead)[0])
              && l.contents == Specs.Left(old(l.contents), 1, atHead)
  {
    if atHead {
      v := l.LPop();
    } else {
      v := l.RPop();
    }
  }

  /** Pops up to count elements. */
  method PopMany(l: List, count: nat, atHead: bool) returns (values: seq<string>)
    requires l.Valid()
    modifies l.Repr()
    ensures l.Valid() && l.Repr() <= old(l.Repr())
    ensures var s, k := old(l.contents), Min(count, |old(l.contents)|);
            values == Specs.Off(s, k, atHead) && l.contents == Specs.Left(s, k, atHead)
  {
    ghost var s := l.contents;
    values := [];
    var i := 0;
    while i < count
      invariant i <= count && l.Valid() && l.Repr() <= old(l.Repr())
      invariant Specs.Popped(s, i, atHead, values, l.contents)
    {
      Specs.PopRound(s, i, atHead, values, l.contents);
      var v := PopOne(l, atHead);
      if v.None? {
        break;
      }
      values := values + [v.value];
      i := i + 1;
    }
  }

  /** Takes up to count elements off the list under a key, which goes away if it becomes empty. */
  method PopFrom(db: DB, key: string, l: List, count: nat, atHead: bool) returns (values: seq<string>)
    requires db.Valid() && Holds(db, key, l)
    modifies db.Repr
    ensures db.Valid() && fresh(db.Repr - old(db.Repr))
    ensures var s, k := old(l.contents), Min(count, |old(l.contents)|);
            values == Specs.Off(s, k, atHead) &&
            db.Keyspace() == Specs.PutOrDrop(old(db.Keyspace()), key, Items(Specs.Left(s, k, atHead)))
  {
    values := PopMany(l, count, atHead);
    db.ListChanged(key, l);
    DropIfEmpty(db, key, l);
    Specs.PutTwice(old(db.Keyspace()), key, Items(l.contents), Items(l.contents));
  }

  method CmdPop(db: DB, now: int, name: string, args: seq<string>, atHead: bool) returns (r: Value)
    requires db.Valid()
    modifies db.Repr
    ensures db.Valid() && fresh(db.Repr - old(db.Repr))
    ensures (db.Keyspace(), r) == Specs.Pop(old(db.Keyspace()), now, name, args, atHead)
  {
    hide DB.Valid, DB.Keyspace, List.Valid;
    db.InRepr();
    if |args| < 1 {
      return Specs.WrongArgCount(name);
    }
    var got := GetList(db, args[0], now);
    if got.Err? {
      return got.error;
    }
    if got.value.None? {
      return NullBulk;
    }
    var count := 1;
    if |args| >= 2 {
      var n := ParseInt(args[1]);
      if n.None? || n.value < 0 {
        return Specs.NOT_AN_INTEGER;
      }
      count := n.value;
    }
    db.ListHeld(args[0], got.value.value);
    var values := PopFrom(db, args[0], got.value.value, count, atHead);
    if |args| >= 2 {
      return if values == [] then NullArray else Array(Bulks(values));
    }
    return if values == [] then NullBulk else BulkString(values[0]);
  }

  method CmdLRange(db: DB, now: int, args: seq<string>) returns (r: Value)
    requires db.Valid()
    modifies db
    ensures db.Valid() && db.Repr == old(db.Repr)
    ensures (db.Keyspace(), r) == Specs.LRange(old(db.Keyspace()), now, args)
  {
    hide DB.Valid, DB.Keyspace, List.Valid;
    if |args| != 3 {
      return Specs.WrongArgCount("LRANGE");
    }
    var got := GetList(db, args[0], now);
    if got.Err? {
      return got.error;
    }
    if got.value.None? {
      return Array([]);
    }
    var start, stop := ParseInt(args[1]), ParseInt(args[2]);
    if start.None? || stop.None? {
      return Specs.NOT_AN_INTEGER;
    }
    var l := got.value.value;
    db.ListHeld(args[0], l);
    assert Specs.GetItems(db.Keyspace(), args[0]) == Specs.There(l.contents);
    var items := l.Range(start.value, stop.value);
    return Array(Bulks(items));
  }

  method RemoveFrom(db: DB, key: string, l: List, count: int, element: string) returns (removed: int)
    requires db.Valid() && Holds(db, key, l)
    modifies db.Repr
    ensures db.Valid() && fresh(db.Repr - old(db.Repr))
    ensures var s' := Removed(old(l.contents), count, element);
            removed == |old(l.contents)| - |s'| &&
            db.Keyspace() == Specs.PutOrDrop(old(db.Keyspace()), key, Items(s'))
  {
    removed := l.Remove(count, element);
    db.ListChanged(key, l);
    DropIfEmpty(db, key, l);
    Specs.PutTwice(old(db.Keyspace()), key, Items(l.contents), Items(l.contents));
  }

  method CmdLRem(db: DB, now: int, args: seq<string>) returns (r: Value)
    requires db.Valid()
    modifies db.Repr
    ensures db.Valid() && fresh(db.Repr - old(db.Repr))
    ensures (db.Keyspace(), r) == Specs.LRem(old(db.Keyspace()), now, args)
  {
    hide DB.Valid, DB.Keyspace, List.Valid;
    db.InRepr();
    if |args| != 3 {
      return Specs.WrongArgCount("LREM");
    }
    var got := GetList(db, args[0], now);
    if got.Err? {
      return got.error;
    }
    if got.value.None? {
      return Integer(0);
    }
    var count := ParseInt(args[1]);
    if count.None? {
      return Specs.NOT_AN_INTEGER;
    }
    db.ListHeld(args[0], got.value.value);
    var n := RemoveFrom(db, args[0], got.value.value, count.value, args[2]);
    return Integer(n);
  }

  method TrimTo(db: DB, key: string, l: List, start: int, stop: int)
    requires db.Valid() && Holds(db, key, l)
    modifies db.Repr
    ensures db.Valid() && fresh(db.Repr - old(db.Repr))
    ensures db.Keyspace() == Specs.PutOrDrop(old(db.Keyspace()), key, Items(Slice(old(l.contents), start, stop)))
  {
    l.Trim(start, stop);
    db.ListChanged(key, l);
    DropIfEmpty(db, key, l);
    Specs.PutTwice(old(db.Keyspace()), key, Items(l.contents), Items(l.contents));
  }

  method CmdLTrim(db: DB, now: int, args: seq<string>) returns (r: Value)
    requires db.Valid()
    modifies db.Repr
    ensures db.Valid() && fresh(db.Repr - old(db.Repr))
    ensures (db.Keyspace(), r) == Specs.LTrim(old(db.Keyspace()), now, args)
  {
    hide DB.Valid, DB.Keyspace, List.Valid;
    db.InRepr();
    if |args| != 3 {
      return Specs.WrongArgCount("LTRIM");
    }
    var got := GetList(db, args[0], now);
    if got.Err? {
      return got.error;
    }
    if got.value.None? {
      return Specs.OK_REPLY;
    }
    var start, stop := ParseInt(args[1]), ParseInt(args[2]);
    if start.None? || stop.None? {
      return Specs.NOT_AN_INTEGER;
    }
    db.ListHeld(args[0], got.value.value);
    TrimTo(db, args[0], got.value.value, start.value, stop.value);
    return Specs.OK_REPLY;
  }

  /** One value onto the list under a key. */
  method PushOnto(db: DB, key: string, l: List, v: string, atHead: bool)
    requires db.Valid() && Holds(db, key, l)
    modifies db.Repr
    ensures db.Valid() && fresh(db.Repr - old(db.Repr))
    ensures db.Keyspace() ==
            Specs.Put(old(db.Keyspace()), key, Items(if atHead then [v] + old(l.contents) else old(l.contents) + [v]))
  {
    if atHead {
      l.PushHead(v);
    } else {
      l.PushTail(v);
    }
    db.Repr := db.Repr + l.Repr();
    db.ListChanged(key, l);
  }

  method DeliverTo(db: DB, now: int, key: string, v: string, to: Option<bool>) returns (r: Value)
    requires db.Valid()
    modifies db.Repr
    ensures db.Valid() && fresh(db.Repr - old(db.Repr))
    ensures (db.Keyspace(), r) == Specs.Deliver(old(db.Keyspace()), now, key, v, to)
  {
    var target := GetOrCreateList(db, key, now);
    if target.Err? {
      return target.error;
    }
    if to.None? {
      return Specs.SYNTAX_ERROR;
    }
    ghost var s := target.value.contents;
    PushOnto(db, key, target.value, v, to.value);
    Specs.PutTwice(Purge(old(db.Keyspace()), key, now), key, Items(s), Items(if to.value then [v] + s else s + [v]));
    return BulkString(v);
  }

  /** One element off a list that is not empty, then onto dst, which may be the same key. */
  method MoveOne(db: DB, now: int, src: string, l: List, dst: string, fromHead: bool, to: Option<bool>)
    returns (r: Value)
    requires db.Valid() && Holds(db, src, l) && l.contents != []
    modifies db.Repr
    ensures db.Valid() && fresh(db.Repr - old(db.Repr))
    ensures var s := old(l.contents);
            var ks := Specs.PutOrDrop(old(db.Keyspace()), src, Items(Specs.Left(s, 1, fromHead)));
            (db.Keyspace(), r) == Specs.Deliver(ks, now, dst, Specs.Off(s, 1, fromHead)[0], to)
  {
    var values := PopFrom(db, src, l, 1, fromHead);
    r := DeliverTo(db, now, dst, values[0], to);
  }

  /** What RPOPLPUSH and LMOVE share. */
  method MoveElement(db: DB, now: int, src: string, l: List, dst: string, fromHead: bool, to: Option<bool>)
    returns (r: Value)
    requires db.Valid() && Holds(db, src, l)
    modifies db.Repr
    ensures db.Valid() && fresh(db.Repr - old(db.Repr))
    ensures (db.Keyspace(), r) == Specs.Move(old(db.Keyspace()), now, src, old(l.contents), dst, fromHead, to)
  {
    if l.length == 0 {
      return NullBulk;
    }
    r := MoveOne(db, now, src, l, dst, fromHead, to);
  }

  method CmdRPopLPush(db: DB, now: int, args: seq<string>) returns (r: Value)
    requires db.Valid()
    modifies db.Repr
    ensures db.Valid() && fresh(db.Repr - old(db.Repr))
    ensures (db.Keyspace(), r) == Specs.RPopLPush(old(db.Keyspace()), now, args)
  {
    hide DB.Valid, DB.Keyspace, List.Valid;
    db.InRepr();
    if |args| != 2 {
      return Specs.WrongArgCount("RPOPLPUSH");
    }
    var src := GetList(db, args[0], now);
    if src.Err? {
      return src.error;
    }
    if src.value.None? {
      return NullBulk;
    }
    db.ListHeld(args[0], src.value.value);
    r := MoveElement(db, now, args[0], src.value.value, args[1], false, Some(true));
  }

  method CmdLMove(db: DB, now: int, args: seq<string>) returns (r: Value)
    requires db.Valid()
    modifies db.Repr
    ensures db.Valid() && fresh(db.Repr - old(db.Repr))
    ensures (db.Keyspace(), r) == Specs.LMove(old(db.Keyspace()), now, args)
  {
    hide DB.Valid, DB.Keyspace, List.Valid;
    db.InRepr();
    if |args| != 4 {
      return Specs.WrongArgCount("LMOVE");
    }
    var src := GetList(db, args[0], now);
    if src.Err? {
      return src.error;
    }
    if src.value.None? {
      return NullBulk;
    }
    var fromHead := Specs.Direction(args[2]);
    if fromHead.None? {
      return Specs.SYNTAX_ERROR;
    }
    db.ListHeld(args[0], src.value.value);
    r := MoveElement(db, now, args[0], src.value.value, args[1], fromHead.value, Specs.Direction(args[3]));
  }
}
