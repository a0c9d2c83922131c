/** The sorted set: a skip list paired with a map from members to scores. */
module SortedSets {
  import opened Basics
  import opened Pairs
  import opened Skiplists

  /** Map and pairs say the same. */
  ghost predicate Agree(members: map<string, Score>, s: seq<Pair>) {
    forall p {:trigger p in s} :: p in s <==> p.member in members && members[p.member] == p.score
  }

  /** The map determines the pairs and their order. */
  lemma AgreeIsCanonical(members: map<string, Score>, s: seq<Pair>, t: seq<Pair>)
    requires Sorted(s) && Sorted(t) && Agree(members, s) && Agree(members, t)
    ensures s == t
  {
    SortedIsCanonical(s, t);
  }

  /** Taking a member out of both. */
  lemma Removing(members: map<string, Score>, s: seq<Pair>, member: string)
    requires Proper(s) && Agree(members, s)
    ensures var r := RemoveMember(s, member); UniqueMembers(r) && Agree(members - {member}, r)
    ensures if member in members
            then && Pair(members[member], member) in s
                 && RemoveMember(s, member) == RemovePair(s, Pair(members[member], member))
            else RemoveMember(s, member) == s && members - {member} == members
  {
    ScoreOfHeld(s, member);
    RemoveMemberIsRemovePair(s, member);
    RemoveMemberKeepsProper(s, member);
    if member in members {
      assert Pair(members[member], member) in s;
    } else {
      assert forall p :: p in s ==> p.member != member;
    }
    forall p: Pair
      ensures p in RemoveMember(s, member) <==> p.member in members - {member} && members[p.member] == p.score
    {
      RemoveMemberHas(s, member, p);
    }
  }

  /** The two steps of Add, first out and then in, as one change of map and pairs. */
  lemma Adding(members: map<string, Score>, s: seq<Pair>, score: Score, member: string)
    requires Proper(s) && Agree(members, s)
    ensures var r, q := RemoveMember(s, member), Pair(score, member);
            && r == (if member in members then RemovePair(s, Pair(members[member], member)) else s)
            && q !in r
            && UniqueMembers(InsertSorted(r, q)) && Agree(members[member := score], InsertSorted(r, q))
    ensures member in members ==> Pair(members[member], member) in s
  {
    ScoreOfHeld(s, member);
    RemoveMemberIsRemovePair(s, member);
    AddPairKeepsProper(s, score, member);
    RemoveMemberHas(s, member, Pair(score, member));
    if member in members {
      assert Pair(members[member], member) in s;
    } else {
      assert forall p :: p in s ==> p.member != member;
    }
  }

  class ZSet {
    const sl: Skiplist
    var members: map<string, Score>

    ghost predicate Valid()
      reads this, sl, sl.nodes
    {
      && this !in sl.Repr() && sl.Valid()
      && UniqueMembers(sl.Contents())
      && Agree(members, sl.Contents())
    }

    /** The pairs held, in order. */
    ghost function Contents(): seq<Pair>
      reads this, sl
      requires |sl.nodes| > 0
    {
      sl.Contents()
    }

    ghost function Repr(): set<object>
      reads this, sl
    {
      {this} + sl.Repr()
    }

    constructor ()
      ensures Valid() && Contents() == [] && members == map[] && fresh(Repr())
    {
      sl := new Skiplist();
      members := map[];
    }

    /** Add's first step: if the member is held, its pair leaves the list. */
    method Unlist(member: string) returns (held: bool)
      requires Valid()
      modifies sl.Repr()
      ensures sl.Valid() && |sl.nodes| > 0 && sl.Repr() <= old(sl.Repr())
      ensures held <==> member in members
      ensures sl.Contents() == RemoveMember(old(sl.Contents()), member)
    {
      Adding(members, Contents(), 0.0, member);
      if member !in members {
        return false;
      }
      held := sl.Delete(members[member], member);
    }

    /** Add's last step: the pair joins the list. */
    method Enlist(score: Score, member: string)
      requires sl.Valid() && |sl.nodes| > 0 && Pair(score, member) !in sl.Contents() && this !in sl.Repr()
      modifies sl.Repr()
      ensures sl.Valid() && |sl.nodes| > 0 && this !in sl.Repr() && fresh(Repr() - old(Repr()))
      ensures sl.Contents() == InsertSorted(old(sl.Contents()), Pair(score, member))
    {
      sl.ValidIsInOrder();
      hide Skiplist.Valid, Skiplist.InOrder, Skiplist.Contents, InsertSorted;
      var _ := sl.Insert(score, member);
    }

    lemma Adds(score: Score, member: string)
      requires Valid()
      ensures var r, q := RemoveMember(sl.Contents(), member), Pair(score, member);
              && |sl.nodes| > 0 && q !in r
              && UniqueMembers(InsertSorted(r, q)) && Agree(members[member := score], InsertSorted(r, q))
    {
      Adding(members, Contents(), score, member);
    }

    /** Gives a member a score; true when the member is new. */
    method Add(score: Score, member: string) returns (isNew: bool)
      requires Valid()
      modifies Repr()
      ensures Valid() && fresh(Repr() - old(Repr()))
      ensures members == old(members)[member := score]
      ensures isNew <==> member !in old(members)
      ensures Contents() == AddPair(old(Contents()), score, member)
    {
      hide UniqueMembers, Agree, Skiplist.Valid, Skiplist.Contents, InsertSorted, RemoveMember;
      Adds(score, member);
      var held := Unlist(member);
      isNew := !held;
      members := members[member := score];
      assert Repr() <= old(Repr());
      Enlist(score, member);
    }

    /** Takes a member out; false when it is not there. */
    method Remove(member: string) returns (removed: bool)
      requires Valid()
      modifies Repr()
      ensures Valid() && Repr() <= old(Repr())
      ensures members == old(members) - {member}
      ensures removed <==> member in old(members)
      ensures Contents() == RemoveMember(old(Contents()), member)
    {
      Removing(members, Contents(), member);
      if member !in members {
        return false;
      }
      var _ := sl.Delete(members[member], member);
      members := members - {member};
      return true;
    }

    method GetScore(member: string) returns (r: Option<Score>)
      requires Valid()
      ensures r == ScoreOf(Contents(), member)
    {
      ScoreOfHeld(Contents(), member);
      if member !in members {
        assert forall p :: p in Contents() ==> p.member != member;
        return None;
      }
      assert Pair(members[member], member) in Contents();
      return Some(members[member]);
    }

    lemma ScoreIsHeld(member: string)
      requires Valid()
      ensures ScoreOf(Contents(), member).Some? <==> member in members
    {
      ScoreOfHeld(Contents(), member);
      if member in members {
        assert Pair(members[member], member) in Contents();
      } else {
        assert forall p :: p in Contents() ==> p.member != member;
      }
    }

    method Len() returns (n: int)
      requires Valid()
      ensures n == |Contents()|
    {
      n := sl.length;
    }

    /** A search for the member's rank does not take the header for it. */
    ghost predicate Rankable(member: string)
      reads this, sl
      requires |sl.nodes| == |sl.heights| > 0 && member in members
    {
      member != "" || sl.ReachesTop(sl.CountUpTo(Pair(members[member], member)))
    }

    /** The member's position in the order, from 0; None when it is not held. */
    method Rank(member: string) returns (r: Option<int>)
      requires Valid()
      ensures r.None? <==> member !in members
      ensures r.Some? ==>
                if Rankable(member)
                then 0 <= r.value < |Contents()| && Contents()[r.value] == Pair(members[member], member)
                else r.value == -1
    {
      if member !in members {
        return None;
      }
      ghost var q := Pair(members[member], member);
      assert q in Contents() && |sl.nodes| == |sl.heights| > 0;
      hide Agree, UniqueMembers;
      hide Skiplist.Valid, Skiplist.Ranked, Skiplist.ReachesTop, Skiplist.CountUpTo, Skiplist.Contents;
      var rank := sl.GetRank(members[member], member);
      sl.RankIsPlace(q, rank);
      return Some(rank - 1);
    }

    /** The member's position from the end. */
    method RevRank(member: string) returns (r: Option<int>)
      requires Valid()
      ensures r.None? <==> member !in members
      ensures r.Some? ==>
                if Rankable(member)
                then 0 <= r.value < |Contents()| && Reverse(Contents())[r.value] == Pair(members[member], member)
                else r.value == |Contents()|
    {
      var rank := Rank(member);
      if rank.None? {
        return None;
      }
      return Some(sl.length - 1 - rank.value);
    }
  }
}
