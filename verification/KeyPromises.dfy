/** What SET, GET, DEL and RENAME do, told from their arguments alone. */
module KeyPromises {
  import opened Basics
  import opened Strings
  import opened Resp
  import opened Keyspaces
  import opened CommandSpecs
  import opened Deadlines
  import opened Effects
  import opened Delays
  import opened ListPromises

  // The options of SET.

  /** The words that give a deadline, in whatever case. */
  predicate Timed(arg: string) {
    ToUpper(arg) in {"EX", "PX", "EXAT", "PXAT"}
  }

  /** An option begins at j, if they are read from i on: those that give a deadline have an argument. */
  predicate BeginsAt(args: seq<string>, i: nat, j: nat): (begins: bool)
    ensures begins ==> i <= j < |args|
    decreases |args| - i
  {
    && i <= j < |args|
    && (i == j || BeginsAt(args, if Timed(args[i]) then i + 2 else i + 1, j))
  }

  predicate Word(args: seq<string>, i: nat, j: nat, word: string) {
    BeginsAt(args, i, j) && ToUpper(args[j]) == word
  }

  ghost predicate HasWord(args: seq<string>, i: nat, word: string) {
    exists j: nat :: Word(args, i, j, word)
  }

  function Next(args: seq<string>, i: nat): nat
    requires i < |args|
  {
    if Timed(args[i]) then i + 2 else i + 1
  }

  lemma HasWordNext(args: seq<string>, i: nat, word: string)
    requires i < |args|
    ensures HasWord(args, i, word) <==> ToUpper(args[i]) == word || HasWord(args, Next(args, i), word)
  {
    if ToUpper(args[i]) == word {
      assert Word(args, i, i, word);
    }
    if j: nat :| Word(args, Next(args, i), j, word) {
      assert Word(args, i, j, word);
    }
    if j: nat :| Word(args, i, j, word) && j != i {
      assert Word(args, Next(args, i), j, word);
    }
  }

  ghost predicate AllUnderstood(args: seq<string>, i: nat) {
    forall j: nat :: BeginsAt(args, i, j) ==> Understood(args, j)
  }

  lemma AllUnderstoodNext(args: seq<string>, i: nat)
    requires i < |args|
    ensures AllUnderstood(args, i) <==> Understood(args, i) && AllUnderstood(args, Next(args, i))
  {
    assert BeginsAt(args, i, i);
    if AllUnderstood(args, i) {
      forall j: nat | BeginsAt(args, Next(args, i), j) ensures Understood(args, j) {
        assert BeginsAt(args, i, j);
      }
    }
  }

  /** It is a word that is known, and has a positive number behind it if it gives a deadline. */
  predicate Understood(args: seq<string>, j: nat)
    requires j < |args|
  {
    if Timed(args[j])
    then j + 1 < |args| && ParseInt(args[j + 1]).Some? && ParseInt(args[j + 1]).value > 0
    else ToUpper(args[j]) in {"NX", "XX", "KEEPTTL"}
  }

  /** The deadline in nanoseconds: seconds or milliseconds, from now on or from the beginning of time. */
  function DeadlineFrom(word: string, n: int, now: int): int {
    match word
    case "EX" => now + n * 1_000_000_000
    case "PX" => now + n * 1_000_000
    case "EXAT" => n * 1_000_000_000
    case _ => n * 1_000_000
  }

  /** The option at j is the last that gives a deadline. */
  ghost predicate LastDeadline(args: seq<string>, i: nat, j: nat) {
    BeginsAt(args, i, j) && Timed(args[j]) && forall k: nat :: k > j && BeginsAt(args, i, k) ==> !Timed(args[k])
  }

  lemma DeadlineMeans(word: string, arg: string, now: int)
    requires word in {"EX", "PX", "EXAT", "PXAT"}
    ensures Deadline(word, arg, now) ==
            if ParseInt(arg).Some? && ParseInt(arg).value > 0
            then Some(DeadlineFrom(word, ParseInt(arg).value, now)) else None
  {
  }

  lemma {:induction false} SetOptionsFrom(args: seq<string>, i: nat, now: int, o: SetOptions)
    ensures var r := ParseSetOptions(args, i, now, o);
            && (r.Ok? <==> AllUnderstood(args, i))
            && (r.Ok? ==>
                  && (r.value.nx <==> o.nx || HasWord(args, i, "NX"))
                  && (r.value.xx <==> o.xx || HasWord(args, i, "XX")))
    decreases |args| - i
  {
    hide ParseInt, ToUpper, Deadline, HasWord, AllUnderstood;
    if i >= |args| {
      NothingThere(args, i);
    } else {
      var word := ToUpper(args[i]);
      AllUnderstoodNext(args, i);
      HasWordNext(args, i, "NX");
      HasWordNext(args, i, "XX");
      if word in {"EX", "PX", "EXAT", "PXAT"} {
        if i + 1 < |args| {
          DeadlineMeans(word, args[i + 1], now);
          if Understood(args, i) {
            SetOptionsFrom(args, i + 2, now, o.(expiry := Deadline(word, args[i + 1], now)));
          }
        }
      } else if Understood(args, i) {
        SetOptionsFrom(args, i + 1, now, o.(nx := o.nx || word == "NX", xx := o.xx || word == "XX"));
      }
    }
  }

  lemma NothingThere(args: seq<string>, i: nat)
    requires i >= |args|
    ensures AllUnderstood(args, i) && forall word :: !HasWord(args, i, word)
  {
  }

  lemma {:induction false} NoDeadlineGiven(args: seq<string>, i: nat, now: int, o: SetOptions)
    requires ParseSetOptions(args, i, now, o).Ok? && forall j: nat :: BeginsAt(args, i, j) ==> !Timed(args[j])
    ensures ParseSetOptions(args, i, now, o).value.expiry == o.expiry
    decreases |args| - i
  {
    hide ParseInt, ToUpper, Deadline;
    if i < |args| {
      assert BeginsAt(args, i, i);
      forall j: nat | BeginsAt(args, i + 1, j) ensures !Timed(args[j]) {
        assert BeginsAt(args, i, j);
      }
      var word := ToUpper(args[i]);
      NoDeadlineGiven(args, i + 1, now, o.(nx := o.nx || word == "NX", xx := o.xx || word == "XX"));
    }
  }

  lemma {:induction false} DeadlineGiven(args: seq<string>, i: nat, j: nat, now: int, o: SetOptions)
    requires ParseSetOptions(args, i, now, o).Ok? && LastDeadline(args, i, j)
    ensures j + 1 < |args| && ParseInt(args[j + 1]).Some?
    ensures ParseSetOptions(args, i, now, o).value.expiry ==
            Some(DeadlineFrom(ToUpper(args[j]), ParseInt(args[j + 1]).value, now))
    decreases |args| - i
  {
    hide ParseInt, ToUpper, Deadline, DeadlineFrom;
    var word, next := ToUpper(args[i]), Next(args, i);
    forall k: nat | BeginsAt(args, next, k) ensures BeginsAt(args, i, k) && k > i {
    }
    if Timed(args[i]) {
      DeadlineMeans(word, args[i + 1], now);
      var o1 := o.(expiry := Deadline(word, args[i + 1], now));
      if i == j {
        NoDeadlineGiven(args, i + 2, now, o1);
      } else {
        DeadlineGiven(args, i + 2, j, now, o1);
      }
    } else {
      DeadlineGiven(args, i + 1, j, now, o.(nx := o.nx || word == "NX", xx := o.xx || word == "XX"));
    }
  }

  /** The option at j is the first that is not understood. */
  ghost predicate FirstRefused(args: seq<string>, i: nat, j: nat) {
    && BeginsAt(args, i, j) && !Understood(args, j)
    && forall k: nat :: k < j && BeginsAt(args, i, k) ==> Understood(args, k)
  }

  /** The first option that is not understood is refused: as a bad deadline, if it is one that has an argument. */
  lemma {:induction false} SetRefuses(args: seq<string>, i: nat, now: int, o: SetOptions) returns (j: nat)
    requires ParseSetOptions(args, i, now, o).Err?
    ensures FirstRefused(args, i, j)
    ensures ParseSetOptions(args, i, now, o).error ==
            if Timed(args[j]) && j + 1 < |args| then INVALID_EXPIRE else SYNTAX_ERROR
    decreases |args| - i
  {
    hide ParseInt, ToUpper, Deadline;
    var word, next := ToUpper(args[i]), Next(args, i);
    if Timed(args[i]) && i + 1 < |args| {
      DeadlineMeans(word, args[i + 1], now);
    }
    if Understood(args, i) {
      var o1 := if Timed(args[i]) then o.(expiry := Deadline(word, args[i + 1], now))
                else o.(nx := o.nx || word == "NX", xx := o.xx || word == "XX");
      j := SetRefuses(args, next, now, o1);
    } else {
      j := i;
    }
  }

  /**
    SET is told its options by their words, wherever they stand, and the last that gives a deadline decides; one word
    that is not understood, and all is refused.
   */
  lemma SetOptionsMean(args: seq<string>, now: int)
    ensures var r := ParseSetOptions(args, 2, now, NO_OPTIONS);
            && (r.Ok? <==> AllUnderstood(args, 2))
            && (r.Ok? ==>
                  && (r.value.nx <==> HasWord(args, 2, "NX")) && (r.value.xx <==> HasWord(args, 2, "XX"))
                  && ((forall j: nat :: BeginsAt(args, 2, j) ==> !Timed(args[j])) ==> r.value.expiry == None)
                  && forall j: nat :: LastDeadline(args, 2, j) ==>
                       && j + 1 < |args| && ParseInt(args[j + 1]).Some?
                       && r.value.expiry ==
                          Some(DeadlineFrom(ToUpper(args[j]), ParseInt(args[j + 1]).value, now)))
  {
    hide ParseSetOptions, AllUnderstood, HasWord, LastDeadline, DeadlineFrom, BeginsAt, Timed;
    SetOptionsFrom(args, 2, now, NO_OPTIONS);
    if ParseSetOptions(args, 2, now, NO_OPTIONS).Ok? {
      if forall j: nat :: BeginsAt(args, 2, j) ==> !Timed(args[j]) {
        NoDeadlineGiven(args, 2, now, NO_OPTIONS);
      }
      forall j: nat | LastDeadline(args, 2, j)
        ensures j + 1 < |args| && ParseInt(args[j + 1]).Some?
        ensures ParseSetOptions(args, 2, now, NO_OPTIONS).value.expiry ==
                Some(DeadlineFrom(ToUpper(args[j]), ParseInt(args[j + 1]).value, now))
      {
        DeadlineGiven(args, 2, j, now, NO_OPTIONS);
      }
    }
  }

  /** The four deadlines, each on its own. */
  lemma UnitsOfSet(key: string, text: string, word: string, arg: string, now: int)
    requires ToUpper(word) in {"EX", "PX", "EXAT", "PXAT"} && ParseInt(arg).Some? && ParseInt(arg).value > 0
    ensures var n := ParseInt(arg).value;
            ParseSetOptions([key, text, word, arg], 2, now, NO_OPTIONS) ==
            Ok(SetOptions(false, false,
                 Some(if ToUpper(word) == "EX" then now + n * 1_000_000_000
                      else if ToUpper(word) == "PX" then now + n * 1_000_000
                      else if ToUpper(word) == "EXAT" then n * 1_000_000_000 else n * 1_000_000)))
  {
    hide ParseInt, ToUpper;
    var args := [key, text, word, arg];
    DeadlineMeans(ToUpper(word), arg, now);
    var o := NO_OPTIONS.(expiry := Deadline(ToUpper(word), arg, now));
    assert ParseSetOptions(args, 4, now, o) == Ok(o);
  }

  // The commands.

  /** SET stores the text with the deadline and nothing else, unless NX finds something to be seen, or XX nothing. */
  lemma SetPromise(env: Env, ks: Keyspace, now: int, key: string, text: string, opts: seq<string>)
    ensures var args := [key, text] + opts;
            var r := ParseSetOptions(args, 2, now, NO_OPTIONS);
            var (ks', reply) := Apply(env, ks, now, "SET", args);
            if r.Err? then Alike(ks, ks', now) && reply == r.error
            else if (r.value.nx && Seen(ks, key, now)) || (r.value.xx && !Seen(ks, key, now))
            then Alike(ks, ks', now) && reply == NullBulk
            else && Aside(ks, ks', key) && key in ks' && ks'[key] == Entry(Text(text), r.value.expiry)
                 && reply == OK_REPLY
  {
    var args := [key, text] + opts;
    assert args[0] == key && args[1] == text;
    hide Purge, Alike, Apply, Aside, ParseSetOptions;
    ByName(env, ks, now, "SET", args);
    Lookup(ks, key, now);
    AlikeSelf(ks, now);
    PurgeSees(ks, key, now);
    var r := ParseSetOptions(args, 2, now, NO_OPTIONS);
    if r.Ok? {
      PutAside(ks, key, now, Entry(Text(text), r.value.expiry));
    }
  }

  lemma PutAside(ks: Keyspace, key: string, now: int, e: Entry)
    ensures Aside(ks, ks[key := e], key) && Aside(ks, Purge(ks, key, now)[key := e], key)
  {
  }

  /** GET sees what is there up to the deadline, the very moment included. */
  lemma GetPromise(env: Env, ks: Keyspace, now: int, key: string)
    ensures var (ks', reply) := Apply(env, ks, now, "GET", [key]);
            && Alike(ks, ks', now)
            && reply == if key in ks && (ks[key].expiry == None || now <= ks[key].expiry.value)
                        then match ks[key].data case Text(t) => BulkString(t) case _ => WRONG_TYPE
                        else NullBulk
  {
    hide Alike, Apply;
    ByName(env, ks, now, "GET", [key]);
    Lookup(ks, key, now);
  }

  /** What has been set is got until its deadline, and from then on nothing. */
  lemma SetThenGet(env: Env, ks: Keyspace, now: int, key: string, text: string, arg: string, later: int)
    requires ParseInt(arg).Some? && ParseInt(arg).value > 0
    ensures var ks' := Apply(env, ks, now, "SET", [key, text, "PX", arg]).0;
            Apply(env, ks', later, "GET", [key]).1 ==
            if later <= now + ParseInt(arg).value * 1_000_000 then BulkString(text) else NullBulk
    ensures var ks' := Apply(env, ks, now, "SET", [key, text]).0;
            Apply(env, ks', later, "GET", [key]).1 == BulkString(text)
  {
    assert ToUpper("PX") == "PX";
    hide Alike, Apply, ParseSetOptions, ToUpper, ParseInt;
    UnitsOfSet(key, text, "PX", arg, now);
    assert [key, text] + ["PX", arg] == [key, text, "PX", arg] && [key, text] + [] == [key, text];
    SetPromise(env, ks, now, key, text, ["PX", arg]);
    SetPromise(env, ks, now, key, text, []);
    PlainOptions([key, text], now);
    GetPromise(env, Apply(env, ks, now, "SET", [key, text, "PX", arg]).0, later, key);
    GetPromise(env, Apply(env, ks, now, "SET", [key, text]).0, later, key);
  }

  lemma PlainOptions(args: seq<string>, now: int)
    requires |args| == 2
    ensures ParseSetOptions(args, 2, now, NO_OPTIONS) == Ok(SetOptions(false, false, None))
  {
  }

  lemma {:induction false} DeletedCount(ks: Keyspace, keys: seq<string>)
    ensures var (ks', n) := DeleteAll(ks, keys);
            n == |set k | k in ks && k in keys| && ks' == ks - (set k | k in keys)
    decreases |keys|
  {
    DeleteAllRemoves(ks, keys);
    var held := set k | k in ks && k in keys;
    if keys == [] {
      assert held == {};
    } else {
      var ks1, more := ks - {keys[0]}, keys[1..];
      DeletedCount(ks1, more);
      var held1 := set k | k in ks1 && k in more;
      assert keys == [keys[0]] + more;
      assert held == held1 + if keys[0] in ks then {keys[0]} else {};
    }
  }

  /** DEL removes the keys and no others, and counts those that are in the table, each once. */
  lemma DelPromise(env: Env, ks: Keyspace, now: int, keys: seq<string>)
    requires keys != []
    ensures var (ks', reply) := Apply(env, ks, now, "DEL", keys);
            && reply == Integer(|set k | k in ks && k in keys|)
            && (forall k :: k in ks' <==> k in ks && k !in keys) && (forall k :: k in ks' ==> ks'[k] == ks[k])
  {
    hide Apply, DeleteAll;
    ByName(env, ks, now, "DEL", keys);
    DeletedCount(ks, keys);
  }

  /** RENAME puts what can be seen under the new key, with its deadline, and takes it from the old one. */
  lemma RenamePromise(env: Env, ks: Keyspace, now: int, src: string, dst: string)
    ensures var (ks', reply) := Apply(env, ks, now, "RENAME", [src, dst]);
            if !Seen(ks, src, now) then ks' == ks && reply == NO_SUCH_KEY
            else && dst in ks' && ks'[dst] == ks[src] && (src != dst ==> src !in ks')
                 && (forall k :: k != src && k != dst ==> SameAt(ks, ks', k)) && reply == OK_REPLY
  {
    hide Apply;
    ByName(env, ks, now, "RENAME", [src, dst]);
  }

  /** With another number of arguments nothing is done, and the reply names the command. */
  lemma KeyWrongCountIsRefused(env: Env, ks: Keyspace, now: int, name: string, args: seq<string>)
    requires name in KEY_NAMES
    requires match name
             case "SET" => |args| < 2
             case "GET" => |args| != 1
             case "DEL" => |args| < 1
             case _ => |args| != 2
    ensures Apply(env, ks, now, name, args) ==
            (ks, Error("ERR wrong number of arguments for '" + ToLower(name) + "' command"))
  {
    hide Apply, ToLower, DeleteAll, Lazy, ParseSetOptions;
    ByName(env, ks, now, name, args);
  }

  // Counting and naming.

  /** EXISTS counts each key that can be seen, as often as it is named. */
  lemma {:induction false} CountLiveCounts(ks: Keyspace, a: seq<string>, b: seq<string>, key: string, now: int)
    ensures CountLive(ks, [], now) == 0
    ensures CountLive(ks, [key], now) ==
            if key in ks && (ks[key].expiry == None || now <= ks[key].expiry.value) then 1 else 0
    ensures CountLive(ks, a + b, now) == CountLive(ks, a, now) + CountLive(ks, b, now)
    decreases |a|
  {
    assert [key][1..] == [];
    if a == [] {
      assert a + b == b;
    } else {
      assert (a + b)[1..] == a[1..] + b;
      CountLiveCounts(ks, a[1..], b, key, now);
    }
  }

  /** What the store says of deadlines, keys and their number concerns what can be seen, and nothing else. */
  lemma StoreAnswers(ks: Keyspace, key: string, deadline: int, matches: string -> bool, now: int)
    ensures Lazy(ks, Op.TTL(key), now) ==
            (ks, Number(if !Seen(ks, key, now) then -2
                        else match ks[key].expiry case None => -1 case Some(d) => d - now))
    ensures Lazy(ks, Op.Keys(matches), now) == (ks, KeySet(set k | k in Live(ks, now) && matches(k)))
    ensures Lazy(ks, Op.Size, now) == (ks, Number(|Live(ks, now)|))
    ensures var (ks', answer) := Lazy(ks, Op.SetExpiry(key, deadline), now);
            if !Seen(ks, key, now) then ks' == ks && answer == Flag(false)
            else && Aside(ks, ks', key) && key in ks' && ks'[key] == Entry(ks[key].data, Some(deadline))
                 && answer == Flag(true)
  {
    assert Live(ks, now).Keys == set k | k in ks && !Expired(ks[k], now);
    assert (set k | k in Live(ks, now) && matches(k)) == set k | k in ks && !Expired(ks[k], now) && matches(k);
  }

  /** The name of a type is that of what the key holds. */
  lemma TypeNames(ks: Keyspace, key: string, now: int)
    ensures Lazy(ks, Op.Type(key), now).1 ==
            Name(if !Seen(ks, key, now) then "none"
                 else match ks[key].data case Text(_) => "string" case Items(_) => "list" case Scored(_) => "zset")
  {
  }
}
