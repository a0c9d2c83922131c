/** A database: keys to objects, which hold strings, lists or sorted sets. */
module Databases {
  import opened Basics
  import opened Keyspaces
  import opened LinkedLists
  import opened SortedSets

  /** What an object's interface value holds; the tag is the object's type. */
  datatype Payload = TextValue(text: string) | ListValue(list: List) | ZSetValue(zset: ZSet)

  class Object {
    const value: Payload
    var expiry: Option<int>

    /** The objects whose fields say which objects belong to this one. */
    ghost function Anchors(): set<object> {
      match value
      case TextValue(_) => {this}
      case ListValue(l) => {this, l}
      case ZSetValue(z) => {this, z, z.sl}
    }

    ghost function Repr(): set<object>
      reads Anchors()
    {
      match value
      case TextValue(_) => {this}
      case ListValue(l) => {this} + l.Repr()
      case ZSetValue(z) => {this} + z.Repr()
    }

    ghost predicate Valid()
      reads Anchors(), Repr()
    {
      match value
      case TextValue(_) => true
      case ListValue(l) => this !in l.Repr() && l.Valid()
      case ZSetValue(z) => this !in z.Repr() && z.Valid()
    }

    ghost function Entry(): Entry
      reads Anchors(), Repr()
      requires Valid()
    {
      match value
      case TextValue(t) => Keyspaces.Entry(Text(t), expiry)
      case ListValue(l) => Keyspaces.Entry(Items(l.contents), expiry)
      case ZSetValue(z) => Keyspaces.Entry(Scored(z.Contents()), expiry)
    }

    /** The name of the object's type tag. */
    function TypeName(): string {
      match value
      case TextValue(_) => "string"
      case ListValue(_) => "list"
      case ZSetValue(_) => "zset"
    }

    /** An object none of whose parts has changed is as it was. */
    twostate lemma Same()
      requires old(Valid()) && unchanged(Anchors()) && unchanged(old(Repr()))
      ensures Valid() && Repr() == old(Repr()) && Entry() == old(Entry())
    {
    }

    /** An object with another deadline. */
    twostate lemma Redated()
      requires old(Valid()) && unchanged(Anchors() - {this}) && unchanged(old(Repr()) - {this})
      ensures Valid() && Repr() == old(Repr())
      ensures Entry() == old(Entry()).(expiry := expiry)
    {
      hide List.Valid, ZSet.Valid;
    }

    constructor (value: Payload, expiry: Option<int>)
      ensures this.value == value && this.expiry == expiry
    {
      this.value := value;
      this.expiry := expiry;
    }

    predicate IsExpired(now: int)
      reads this
    {
      expiry.Some? && now > expiry.value
    }
  }

  /** The keys outside `rest` that match and have not lapsed: what a walk over the table has found of them. */
  ghost function Matching(ks: Keyspace, rest: set<string>, matches: string -> bool, now: int): set<string> {
    set k | k in ks && k !in rest && !Expired(ks[k], now) && matches(k)
  }

  /** The pattern that every key matches. */
  ghost function Any(): string -> bool {
    _ => true
  }

  lemma MatchingAll(ks: Keyspace, matches: string -> bool, now: int)
    ensures Matching(ks, ks.Keys, matches, now) == {}
    ensures Lazy(ks, Op.Keys(matches), now) == (ks, KeySet(Matching(ks, {}, matches, now)))
  {
    assert Matching(ks, {}, matches, now) == set k | k in ks && !Expired(ks[k], now) && matches(k);
  }

  lemma MatchingAny(ks: Keyspace, now: int)
    ensures Lazy(ks, Op.Size, now) == (ks, Number(|Matching(ks, {}, Any(), now)|))
  {
    assert Matching(ks, {}, Any(), now) == set k | k in ks && !Expired(ks[k], now);
  }

  lemma OneKeyLess(ks: Keyspace, rest: set<string>, k: string, matches: string -> bool, now: int)
    requires k in rest && k in ks
    ensures k !in Matching(ks, rest, matches, now)
    ensures Matching(ks, rest - {k}, matches, now) ==
            Matching(ks, rest, matches, now) + if !Expired(ks[k], now) && matches(k) then {k} else {}
    ensures |Matching(ks, rest - {k}, matches, now)| ==
            |Matching(ks, rest, matches, now)| + if !Expired(ks[k], now) && matches(k) then 1 else 0
  {
  }

  class DB {
    var data: map<string, Object>
    ghost var Repr: set<object>

    ghost predicate Valid()
      reads this, Repr
    {
      && this in Repr
      && (forall k {:trigger data[k]} :: k in data ==>
            data[k].Anchors() <= Repr && data[k].Repr() <= Repr && this !in data[k].Repr() && data[k].Valid())
      && (forall j, k {:trigger data[j], data[k]} :: j in data && k in data && j != k ==>
           data[j].Repr() !! data[k].Repr())
    }

    ghost function Keyspace(): Keyspace
      reads this, Repr
      requires Valid()
    {
      map k | k in data :: data[k].Entry()
    }

    constructor ()
      ensures Valid() && fresh(Repr) && Keyspace() == map[]
    {
      data := map[];
      Repr := {this};
    }

    /** Objects that stay under their keys, none of them changed, are as they were. */
    twostate lemma KeptAreSame(new kept: set<string>)
      requires old(Valid()) && unchanged(old(Repr) - {this}) && kept <= data.Keys && kept <= old(data).Keys
      requires forall k {:trigger data[k]} :: k in data && k in kept ==> data[k] == old(data)[k]
      ensures forall k {:trigger data[k]} :: k in data && k in kept ==>
                && data[k].Anchors() <= old(Repr) && data[k].Repr() <= old(Repr) && this !in data[k].Repr()
                && data[k].Repr() == old(data[k].Repr()) && data[k].Valid() && data[k].Entry() == old(data[k].Entry())
    {
      forall k | k in data && k in kept { data[k].Same(); }
    }

    /** What the keyspace says of the keys and their objects. */
    lemma Held()
      requires Valid()
      ensures Keyspace().Keys == data.Keys
      ensures forall k {:trigger data[k]} {:trigger Keyspace()[k]} :: k in data ==>
                Keyspace()[k].expiry == data[k].expiry && TypeName(Keyspace()[k].data) == data[k].TypeName()
    {
    }

    lemma ObjectAt(key: string)
      requires Valid() && key in data
      ensures var o := data[key];
              && o.Valid() && this !in o.Repr() && this !in o.Anchors() && Keyspace()[key] == o.Entry()
              && forall k {:trigger data[k]} :: k in data && k != key ==>
                   data[k].Repr() !! o.Repr() && this !in data[k].Repr() && this !in data[k].Anchors()
    {
      hide Object.Valid, Object.Entry;
    }

    /** delete(db.data, key) */
    method Drop(key: string)
      requires Valid()
      modifies this
      ensures Valid() && Repr == old(Repr)
      ensures Keyspace() == old(Keyspace()) - {key} && data == old(data) - {key}
    {
      data := data - {key};
      KeptAreSame(data.Keys);
    }

    method Get(key: string, now: int) returns (o: Option<Object>)
      requires Valid()
      modifies this
      ensures Valid() && Repr == old(Repr)
      ensures Keyspace() == Purge(old(Keyspace()), key, now)
      ensures o.Some? <==> key in Keyspace()
      ensures o.Some? ==> key in data && o.value == data[key]
    {
      if key !in data {
        return None;
      }
      if data[key].IsExpired(now) {
        Drop(key);
        return None;
      }
      return Some(data[key]);
    }

    twostate lemma OthersAreSame(key: string)
      requires old(Valid()) && data == old(data)
      requires forall k {:trigger data[k]} :: k in data && k != key ==> unchanged(old(data[k].Repr()))
      ensures forall k {:trigger data[k]} :: k in data && k != key ==>
                && data[k].Anchors() == old(data[k].Anchors()) && data[k].Repr() == old(data[k].Repr())
                && data[k].Valid() && data[k].Entry() == old(data[k].Entry())
    {
      forall k | k in data && k != key { data[k].Same(); }
    }

    /** Every key but one is as it was, and that one's object is whole and shares nothing with the others. */
    twostate lemma ObjectChanged(key: string)
      requires old(Valid()) && data == old(data) && key in data
      requires forall k {:trigger data[k]} :: k in data && k != key ==> unchanged(old(data[k].Repr()))
      requires data[key].Anchors() <= Repr && data[key].Valid() && this !in data[key].Repr()
      requires Repr == old(Repr) + data[key].Repr() && fresh(data[key].Repr() - old(data[key].Repr()))
      ensures Valid()
      ensures Keyspace() == old(Keyspace())[key := data[key].Entry()]
    {
      hide Object.Anchors, Object.Repr, Object.Valid, Object.Entry;
      OthersAreSame(key);
    }

    /** A list after it has been changed in place: the key's entry has changed accordingly, and nothing else. */
    twostate lemma ListChanged(new key: string, l: List)
      requires old(Valid()) && unchanged(`data) && key in data && data[key].value == ListValue(l)
      requires forall k {:trigger data[k]} :: k in data && k != key ==> unchanged(old(data[k].Repr()))
      requires unchanged(data[key]) && l.Valid() && this !in l.Repr() && data[key] !in l.Repr()
      requires fresh(l.Repr() - old(l.Repr())) && Repr == old(Repr) + l.Repr()
      ensures Valid()
      ensures Keyspace() == old(Keyspace())[key := old(Keyspace())[key].(data := Items(l.contents))]
    {
      ObjectChanged(key);
    }

    /** A sorted set after it has been changed in place: the key's entry has changed accordingly, and nothing else. */
    twostate lemma ZSetChanged(new key: string, z: ZSet)
      requires old(Valid()) && unchanged(`data) && key in data && data[key].value == ZSetValue(z)
      requires forall k {:trigger data[k]} :: k in data && k != key ==> unchanged(old(data[k].Repr()))
      requires unchanged(data[key]) && z.Valid() && this !in z.Repr() && data[key] !in z.Repr()
      requires fresh(z.Repr() - old(z.Repr())) && Repr == old(Repr) + z.Repr()
      ensures Valid()
      ensures Keyspace() == old(Keyspace())[key := old(Keyspace())[key].(data := Scored(z.Contents()))]
    {
      ObjectChanged(key);
    }

    lemma InRepr()
      requires Valid()
      ensures this in Repr
    {
    }

    /** What is new belongs to no object of the database. */
    lemma NewIsApart(s: set<object>)
      requires Valid() && s !! Repr
      ensures this !in s && forall k {:trigger data[k]} :: k in data ==> data[k].Repr() !! s
    {
    }

    /** What the keyspace says of a list that is under a key. */
    lemma ListHeld(key: string, l: List)
      requires Valid() && key in data && data[key].value == ListValue(l)
      ensures l.Valid() && l.length == |l.contents| && l.Repr() <= Repr && this !in l.Repr()
      ensures key in Keyspace() && Keyspace()[key].data == Items(l.contents)
    {
      assert Keyspace()[key] == data[key].Entry();
    }

    /** What the keyspace says of a sorted set that is under a key. */
    lemma ZSetHeld(key: string, z: ZSet)
      requires Valid() && key in data && data[key].value == ZSetValue(z)
      ensures z.Valid() && |z.sl.nodes| > 0 && z.Repr() <= Repr && this !in z.Repr()
      ensures key in Keyspace() && Keyspace()[key].data == Scored(z.Contents())
    {
      assert Keyspace()[key] == data[key].Entry();
    }

    /** Makes room for an object that is to be stored. */
    ghost method Enlarge(o: Object)
      requires Valid() && o.Valid() && this !in o.Repr()
      modifies `Repr
      ensures Valid() && Repr == old(Repr) + o.Repr() && Keyspace() == old(Keyspace())
      ensures o.Valid() && o.Repr() == old(o.Repr()) && o.Entry() == old(o.Entry())
      ensures forall k {:trigger data[k]} :: k in data ==> data[k].Repr() == old(data[k].Repr())
    {
      assert o.Anchors() <= o.Repr();
      Repr := Repr + o.Repr();
      o.Same();
      KeptAreSame(data.Keys);
    }

    /** db.data[key] = obj */
    method Store(key: string, o: Object)
      requires Valid() && o.Valid() && o.Repr() <= Repr && this !in o.Repr()
      requires forall k {:trigger data[k]} :: k in data && k != key ==> data[k].Repr() !! o.Repr()
      modifies `data
      ensures Valid()
      ensures Keyspace() == old(Keyspace()[key := o.Entry()]) && data == old(data)[key := o]
      ensures o.Repr() == old(o.Repr())
    {
      assert o.Anchors() <= o.Repr();
      data := data[key := o];
      o.Same();
      KeptAreSame(data.Keys - {key});
    }

    /** Stores an object that shares nothing with those under the other keys. */
    method Set(key: string, o: Object)
      requires Valid() && o.Valid() && this !in o.Repr()
      requires forall k {:trigger data[k]} :: k in data && k != key ==> data[k].Repr() !! o.Repr()
      modifies this
      ensures Valid() && Repr == old(Repr) + o.Repr()
      ensures Keyspace() == old(Keyspace()[key := o.Entry()]) && data == old(data)[key := o]
    {
      hide Valid, Keyspace, Object.Valid, Object.Entry, Object.Repr;
      Enlarge(o);
      Store(key, o);
    }

    /** Removes the keys; how many were in the table. */
    method Del(keys: seq<string>) returns (count: nat)
      requires Valid()
      modifies this
      ensures Valid() && Repr == old(Repr)
      ensures (Keyspace(), count) == DeleteAll(old(Keyspace()), keys)
    {
      count := 0;
      ghost var start := Keyspace();
      hide Valid, Keyspace, DeleteAll;
      for i := 0 to |keys|
        invariant Valid() && Repr == old(Repr) && StillToDelete(start, keys, Keyspace(), keys[i..], count)
      {
        DeleteNext(start, keys, Keyspace(), keys[i..], count);
        assert keys[i..][1..] == keys[i + 1..];
        Held();
        if keys[i] in data {
          count := count + 1;
        }
        Drop(keys[i]);
      }
      assert keys[|keys|..] == [];
      DeleteDone(start, keys, Keyspace(), count);
    }

    /** How many of the keys are there and have not lapsed. */
    method Exists(keys: seq<string>, now: int) returns (count: int)
      requires Valid()
      ensures (Keyspace(), Number(count)) == Lazy(Keyspace(), Op.Exists(keys), now)
    {
      count := 0;
      for i := 0 to |keys|
        invariant CountLive(Keyspace(), keys, now) == count + CountLive(Keyspace(), keys[i..], now)
      {
        assert keys[i..][1..] == keys[i + 1..];
        if keys[i] in data && !data[keys[i]].IsExpired(now) {
          count := count + 1;
        }
      }
    }

    /** The assignment to obj.Expiry. */
    method PutDeadline(key: string, deadline: Option<int>)
      requires Valid() && key in data
      modifies data[key]
      ensures Valid() && Keyspace() == old(Keyspace())[key := old(Keyspace())[key].(expiry := deadline)]
    {
      hide Object.Valid, Object.Entry;
      label before:
      data[key].expiry := deadline;
      data[key].Redated@before();
      ObjectChanged@before(key);
    }

    method SetExpiry(key: string, deadline: int, now: int) returns (ok: bool)
      requires Valid()
      modifies Repr
      ensures Valid() && Repr == old(Repr)
      ensures (Keyspace(), Flag(ok)) == Lazy(old(Keyspace()), Op.SetExpiry(key, deadline), now)
    {
      if key !in data || data[key].IsExpired(now) {
        return false;
      }
      PutDeadline(key, Some(deadline));
      return true;
    }

    method RemoveExpiry(key: string) returns (ok: bool)
      requires Valid()
      modifies Repr
      ensures Valid() && Repr == old(Repr)
      ensures (Keyspace(), ok) == Keyspaces.RemoveExpiry(old(Keyspace()), key)
    {
      if key !in data {
        return false;
      }
      PutDeadline(key, None);
      return true;
    }

    method TTL(key: string, now: int) returns (d: int)
      requires Valid()
      ensures (Keyspace(), Number(d)) == Lazy(Keyspace(), Op.TTL(key), now)
    {
      if key !in data || data[key].IsExpired(now) {
        return -2;
      }
      if data[key].expiry.None? {
        return -1;
      }
      return data[key].expiry.value - now;
    }

    method Type(key: string, now: int) returns (name: string)
      requires Valid()
      modifies this
      ensures Valid() && Repr == old(Repr)
      ensures (Keyspace(), Name(name)) == Lazy(old(Keyspace()), Op.Type(key), now)
    {
      hide Valid, Keyspace;
      var o := Get(key, now);
      Held();
      if o.None? {
        return "none";
      }
      return o.value.TypeName();
    }

    /** The keys that match and have not lapsed; the order in which a map yields them is not modelled. */
    method Keys(matches: string -> bool, now: int) returns (keys: set<string>)
      requires Valid()
      ensures (Keyspace(), KeySet(keys)) == Lazy(Keyspace(), Op.Keys(matches), now)
    {
      keys := {};
      var rest := data.Keys;
      Held();
      MatchingAll(Keyspace(), matches, now);
      hide Valid, Keyspace, Matching, Lazy;
      while rest != {}
        invariant rest <= data.Keys && keys == Matching(Keyspace(), rest, matches, now)
        decreases rest
      {
        var k :| k in rest;
        OneKeyLess(Keyspace(), rest, k, matches, now);
        rest := rest - {k};
        if !data[k].IsExpired(now) && matches(k) {
          keys := keys + {k};
        }
      }
    }

    method Size(now: int) returns (count: int)
      requires Valid()
      ensures (Keyspace(), Number(count)) == Lazy(Keyspace(), Op.Size, now)
    {
      count := 0;
      var rest := data.Keys;
      Held();
      MatchingAll(Keyspace(), Any(), now);
      MatchingAny(Keyspace(), now);
      hide Valid, Keyspace, Matching, Lazy, Any;
      while rest != {}
        invariant rest <= data.Keys && count == |Matching(Keyspace(), rest, Any(), now)|
        decreases rest
      {
        var k :| k in rest;
        OneKeyLess(Keyspace(), rest, k, Any(), now);
        rest := rest - {k};
        if !data[k].IsExpired(now) {
          count := count + 1;
        }
      }
    }

    /** Takes an object out of the table. */
    method Take(key: string) returns (o: Object)
      requires Valid() && key in data
      modifies this
      ensures Valid() && Repr == old(Repr) && o.Repr() <= Repr
      ensures o.Valid() && this !in o.Repr() && o.Entry() == old(Keyspace())[key]
      ensures forall k {:trigger data[k]} :: k in data ==> data[k].Repr() !! o.Repr()
      ensures Keyspace() == old(Keyspace()) - {key}
    {
      o := data[key];
      ObjectAt(key);
      hide Keyspace;
      Drop(key);
      o.Same();
      KeptAreSame(data.Keys);
    }

    method Rename(src: string, dst: string, now: int) returns (ok: bool)
      requires Valid()
      modifies this
      ensures Valid() && Repr == old(Repr)
      ensures (Keyspace(), Flag(ok)) == Lazy(old(Keyspace()), Op.Rename(src, dst), now)
    {
      Held();
      hide Valid, Keyspace, Object.Valid, Object.Entry, Object.Repr, Object.Anchors;
      if src !in data || data[src].IsExpired(now) {
        return false;
      }
      var o := Take(src);
      Set(dst, o);
      return true;
    }

    method Flush()
      requires Valid()
      modifies this
      ensures Valid() && Repr == old(Repr) && Keyspace() == map[]
    {
      data := map[];
    }
  }
}
