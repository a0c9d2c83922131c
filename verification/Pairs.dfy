/**
  The elements of a sorted set and their order: by score, then by member.
  A score stands for a float64 that is not NaN; only the order of scores is used.
 */
module Pairs {
  import opened Basics
  import opened Strings

  type Score = real

  datatype Pair = Pair(score: Score, member: string)

  /** The comparison written out in every search loop of the skip list. */
  predicate Before(p: Pair, q: Pair) {
    p.score < q.score || (p.score == q.score && Less(p.member, q.member))
  }

  lemma BeforeIsStrict(p: Pair, q: Pair)
    ensures !Before(p, p)
    ensures Before(p, q) ==> !Before(q, p)
    ensures Before(p, q) || p == q || Before(q, p)
  {
    LessIsIrreflexive(p.member);
    LessIsTotal(p.member, q.member);
    if Less(p.member, q.member) && Less(q.member, p.member) {
      LessIsTransitive(p.member, q.member, p.member);
    }
  }

  lemma BeforeIsTransitive(p: Pair, q: Pair, r: Pair)
    requires Before(p, q) && Before(q, r)
    ensures Before(p, r)
  {
    if p.score == q.score && q.score == r.score {
      LessIsTransitive(p.member, q.member, r.member);
    }
  }

  ghost predicate Sorted(s: seq<Pair>) {
    forall i, j {:trigger Before(s[i], s[j])} :: 0 <= i < j < |s| ==> Before(s[i], s[j])
  }

  /** An earlier pair has the smaller score, or the same score and the member that comes first byte by byte. */
  lemma SortedIff(s: seq<Pair>)
    ensures Sorted(s)
            <==> forall i, j :: 0 <= i < j < |s| ==>
                   || s[i].score < s[j].score
                   || (s[i].score == s[j].score && exists k: nat :: PartAt(s[i].member, s[j].member, k))
  {
    forall i, j | 0 <= i < j < |s|
      ensures Before(s[i], s[j])
              <==> || s[i].score < s[j].score
                   || (s[i].score == s[j].score && exists k: nat :: PartAt(s[i].member, s[j].member, k))
    {
      LessIff(s[i].member, s[j].member);
    }
  }

  ghost predicate UniqueMembers(s: seq<Pair>) {
    forall i, j :: 0 <= i < j < |s| ==> s[i].member != s[j].member
  }

  /** The number of leading pairs that come before p; on a sorted sequence, the number of all such pairs. */
  function CountBefore(s: seq<Pair>, p: Pair): (n: nat)
    ensures n <= |s|
  {
    if s == [] || !Before(s[0], p) then 0 else 1 + CountBefore(s[1..], p)
  }

  lemma {:induction false} CountBeforeCounts(s: seq<Pair>, p: Pair)
    ensures var n := CountBefore(s, p);
            (forall i :: 0 <= i < n ==> Before(s[i], p)) && (n < |s| ==> !Before(s[n], p))
  {
    if s != [] && Before(s[0], p) {
      CountBeforeCounts(s[1..], p);
    }
  }

  lemma CountBeforeSplits(s: seq<Pair>, p: Pair)
    requires Sorted(s)
    ensures forall i :: 0 <= i < |s| ==> (Before(s[i], p) <==> i < CountBefore(s, p))
    ensures p in s <==> CountBefore(s, p) < |s| && s[CountBefore(s, p)] == p
  {
    var n := CountBefore(s, p);
    CountBeforeCounts(s, p);
    forall i | n <= i < |s|
      ensures !Before(s[i], p)
      ensures n < i ==> s[i] != p
    {
      BeforeIsStrict(s[n], p);
      if n < i {
        assert Before(s[n], s[i]);
        if Before(s[i], p) {
          BeforeIsTransitive(s[n], s[i], p);
        }
      }
    }
    BeforeIsStrict(p, p);
  }

  lemma RankIsPosition(s: seq<Pair>, i: nat)
    requires Sorted(s) && i < |s|
    ensures CountBefore(s, s[i]) == i
  {
    var n := CountBefore(s, s[i]);
    CountBeforeSplits(s, s[i]);
    BeforeIsStrict(s[i], s[i]);
    assert s[i] in s;
  }

  /** Pairs and positions correspond one to one, and the order of the positions is that of the pairs. */
  lemma RanksAreBijective(s: seq<Pair>)
    requires Sorted(s)
    ensures forall i :: 0 <= i < |s| ==> CountBefore(s, s[i]) == i
    ensures forall p :: p in s ==> CountBefore(s, p) < |s| && s[CountBefore(s, p)] == p
    ensures forall p, q :: p in s && q in s ==> (CountBefore(s, p) < CountBefore(s, q) <==> Before(p, q))
  {
    forall i | 0 <= i < |s| ensures CountBefore(s, s[i]) == i {
      RankIsPosition(s, i);
    }
    forall p | p in s ensures CountBefore(s, p) < |s| && s[CountBefore(s, p)] == p {
      CountBeforeSplits(s, p);
    }
    forall p, q | p in s && q in s ensures CountBefore(s, p) < CountBefore(s, q) <==> Before(p, q) {
      CountBeforeSplits(s, q);
      BeforeIsStrict(p, p);
    }
  }

  /** In order, where the same pair may stand more than once. */
  ghost predicate Ordered(s: seq<Pair>) {
    forall i, j {:trigger Before(s[j], s[i])} :: 0 <= i < j < |s| ==> !Before(s[j], s[i])
  }

  lemma SortedIsOrdered(s: seq<Pair>)
    requires Sorted(s)
    ensures Ordered(s)
  {
    forall i, j | 0 <= i < j < |s|
      ensures !Before(s[j], s[i])
    {
      assert Before(s[i], s[j]);
      BeforeIsStrict(s[i], s[j]);
    }
  }

  lemma OrderedSplits(s: seq<Pair>, p: Pair)
    requires Ordered(s)
    ensures forall i :: 0 <= i < |s| ==> (Before(s[i], p) <==> i < CountBefore(s, p))
  {
    var n := CountBefore(s, p);
    CountBeforeCounts(s, p);
    forall i | n <= i < |s|
      ensures !Before(s[i], p)
    {
      assert n < i ==> !Before(s[i], s[n]);
      BeforeIsStrict(s[n], p);
      if Before(s[i], p) && s[n] != p {
        BeforeIsTransitive(s[i], p, s[n]);
      }
    }
  }

  lemma InsertKeepsOrdered(s: seq<Pair>, p: Pair)
    requires Ordered(s)
    ensures Ordered(InsertSorted(s, p))
  {
    var n, t := CountBefore(s, p), InsertSorted(s, p);
    OrderedSplits(s, p);
    forall i, j | 0 <= i < j < |t|
      ensures !Before(t[j], t[i])
    {
      var k, l := if i < n then i else i - 1, if j < n then j else j - 1;
      if i != n && j != n {
        assert !Before(s[l], s[k]);
      } else if j == n {
        BeforeIsStrict(s[i], p);
      } else {
        assert !Before(s[l], p);
      }
    }
  }

  /** The sequence with p put where the order wants it. */
  function InsertSorted(s: seq<Pair>, p: Pair): seq<Pair> {
    var n := CountBefore(s, p);
    s[..n] + [p] + s[n..]
  }

  function RemovePair(s: seq<Pair>, p: Pair): seq<Pair> {
    if s == [] then [] else if s[0] == p then s[1..] else [s[0]] + RemovePair(s[1..], p)
  }

  lemma InsertAtKeepsSorted(s: seq<Pair>, p: Pair, n: nat)
    requires Sorted(s) && n <= |s|
    requires forall i :: 0 <= i < n ==> Before(s[i], p)
    requires forall i :: n <= i < |s| ==> Before(p, s[i])
    ensures Sorted(s[..n] + [p] + s[n..])
  {
    var t := s[..n] + [p] + s[n..];
    forall i, j | 0 <= i < j < |t|
      ensures Before(t[i], t[j])
    {
      var k := if i < n then i else i - 1;
      var l := if j < n then j else j - 1;
      if i != n && j != n {
        assert Before(s[k], s[l]);
      }
    }
  }

  lemma InsertKeepsSorted(s: seq<Pair>, p: Pair)
    requires Sorted(s) && p !in s
    ensures Sorted(InsertSorted(s, p))
    ensures multiset(InsertSorted(s, p)) == multiset(s) + multiset{p}
  {
    var n := CountBefore(s, p);
    CountBeforeSplits(s, p);
    forall i | n <= i < |s|
      ensures Before(p, s[i])
    {
      BeforeIsStrict(p, s[i]);
    }
    InsertAtKeepsSorted(s, p, n);
    assert s == s[..n] + s[n..];
  }

  lemma {:induction false} RemoveAt(s: seq<Pair>, p: Pair, k: nat)
    requires k < |s| && s[k] == p && p !in s[..k]
    ensures RemovePair(s, p) == s[..k] + s[k + 1..]
  {
    if k > 0 {
      assert s[0] in s[..k];
      assert s[1..][..k - 1] == s[..k][1..];
      RemoveAt(s[1..], p, k - 1);
    }
  }

  lemma {:induction false} RemoveAbsent(s: seq<Pair>, p: Pair)
    requires p !in s
    ensures RemovePair(s, p) == s
  {
    if s != [] {
      RemoveAbsent(s[1..], p);
    }
  }

  lemma RemoveFromSorted(s: seq<Pair>, p: Pair)
    requires Sorted(s) && p in s
    ensures var n := CountBefore(s, p);
            n < |s| && s[n] == p && RemovePair(s, p) == s[..n] + s[n + 1..]
    ensures Sorted(RemovePair(s, p)) && p !in RemovePair(s, p)
  {
    var n := CountBefore(s, p);
    CountBeforeSplits(s, p);
    BeforeIsStrict(p, p);
    RemoveAt(s, p, n);
    forall i | 0 <= i < |s| && i != n
      ensures s[i] != p
    {
      if i > n { assert Before(s[n], s[i]); }
    }
  }

  /** Removing what was just inserted gives the sequence back. */
  lemma RemoveUndoesInsert(s: seq<Pair>, p: Pair)
    requires Sorted(s) && p !in s
    ensures RemovePair(InsertSorted(s, p), p) == s
  {
    var n := CountBefore(s, p);
    var t := InsertSorted(s, p);
    assert t[n] == p && t[..n] == s[..n] && t[n + 1..] == s[n..];
    RemoveAt(t, p, n);
  }

  lemma HeadIsLeast(s: seq<Pair>, p: Pair)
    requires Sorted(s) && p in s
    ensures s[0] == p || Before(s[0], p)
  {
    var i :| 0 <= i < |s| && s[i] == p;
  }

  lemma TailHasTheRest(s: seq<Pair>, p: Pair)
    requires Sorted(s) && s != []
    ensures p in s[1..] <==> p in s && p != s[0]
  {
    BeforeIsStrict(p, p);
    assert s == [s[0]] + s[1..];
    assert forall i :: 0 <= i < |s[1..]| ==> Before(s[0], s[1..][i]);
  }

  /** A sorted sequence is determined by its elements. */
  lemma {:induction false} SortedIsCanonical(s: seq<Pair>, t: seq<Pair>)
    requires Sorted(s) && Sorted(t)
    requires forall p :: p in s <==> p in t
    ensures s == t
  {
    assert forall i :: 0 <= i < |s| ==> s[i] in t;
    assert forall i :: 0 <= i < |t| ==> t[i] in s;
    if s != [] {
      HeadIsLeast(s, t[0]);
      HeadIsLeast(t, s[0]);
      BeforeIsStrict(s[0], t[0]);
      forall p
        ensures p in s[1..] <==> p in t[1..]
      {
        TailHasTheRest(s, p);
        TailHasTheRest(t, p);
      }
      SortedIsCanonical(s[1..], t[1..]);
    }
  }

  /** What a sorted set holds: pairs in order, no member twice. */
  ghost predicate Proper(s: seq<Pair>) {
    Sorted(s) && UniqueMembers(s)
  }

  /** The pairs but that of the member. */
  function RemoveMember(s: seq<Pair>, member: string): (r: seq<Pair>)
    ensures |r| <= |s|
  {
    if s == [] then [] else if s[0].member == member then s[1..] else [s[0]] + RemoveMember(s[1..], member)
  }

  function ScoreOf(s: seq<Pair>, member: string): Option<Score> {
    if s == [] then None else if s[0].member == member then Some(s[0].score) else ScoreOf(s[1..], member)
  }

  /** The pairs once the member has the score, whether or not it had one before. */
  function AddPair(s: seq<Pair>, score: Score, member: string): seq<Pair> {
    InsertSorted(RemoveMember(s, member), Pair(score, member))
  }

  lemma {:induction false} ScoreOfHeld(s: seq<Pair>, member: string)
    requires UniqueMembers(s)
    ensures forall sc :: ScoreOf(s, member) == Some(sc) <==> Pair(sc, member) in s
    ensures ScoreOf(s, member) == None <==> forall p :: p in s ==> p.member != member
  {
    if s != [] {
      assert s == [s[0]] + s[1..];
      forall i, j | 0 <= i < j < |s[1..]|
        ensures s[1..][i].member != s[1..][j].member
      {
        assert s[i + 1].member != s[j + 1].member;
      }
      ScoreOfHeld(s[1..], member);
      if s[0].member == member {
        assert forall i :: 0 <= i < |s[1..]| ==> s[1..][i].member != s[0].member;
      }
    }
  }

  /** Removing a member that is held is removing its pair; removing one that is not changes nothing. */
  lemma {:induction false} RemoveMemberIsRemovePair(s: seq<Pair>, member: string)
    requires UniqueMembers(s)
    ensures RemoveMember(s, member) ==
            match ScoreOf(s, member) case None => s case Some(sc) => RemovePair(s, Pair(sc, member))
  {
    if s != [] && s[0].member != member {
      forall i, j | 0 <= i < j < |s[1..]|
        ensures s[1..][i].member != s[1..][j].member
      {
        assert s[i + 1].member != s[j + 1].member;
      }
      RemoveMemberIsRemovePair(s[1..], member);
    }
  }

  lemma {:induction false} RemoveMemberHas(s: seq<Pair>, member: string, p: Pair)
    requires UniqueMembers(s)
    ensures p in RemoveMember(s, member) <==> p in s && p.member != member
  {
    if s != [] {
      assert s == [s[0]] + s[1..];
      assert forall i :: 0 <= i < |s[1..]| ==> s[1..][i].member != s[0].member;
      if s[0].member != member {
        forall i, j | 0 <= i < j < |s[1..]|
          ensures s[1..][i].member != s[1..][j].member
        {
          assert s[i + 1].member != s[j + 1].member;
        }
        RemoveMemberHas(s[1..], member, p);
      }
    }
  }

  lemma {:induction false} RemoveMemberKeepsProper(s: seq<Pair>, member: string)
    requires Proper(s)
    ensures Proper(RemoveMember(s, member))
  {
    if s != [] {
      ProperSlice(s, 1, |s|);
      if s[0].member != member {
        RemoveMemberKeepsProper(s[1..], member);
        var r := RemoveMember(s[1..], member);
        forall i | 0 <= i < |r|
          ensures Before(s[0], r[i]) && s[0].member != r[i].member
        {
          RemoveMemberHas(s[1..], member, r[i]);
          var k :| 0 <= k < |s[1..]| && s[1..][k] == r[i];
          assert Before(s[0], s[k + 1]) && s[0].member != s[k + 1].member;
        }
        PrependKeepsProper(s[0], r);
      }
    }
  }

  lemma PrependKeepsProper(p: Pair, s: seq<Pair>)
    requires Proper(s)
    requires forall i :: 0 <= i < |s| ==> Before(p, s[i]) && p.member != s[i].member
    ensures Proper([p] + s)
  {
    var t := [p] + s;
    forall i, j | 0 <= i < j < |t|
      ensures Before(t[i], t[j]) && t[i].member != t[j].member
    {
      if i > 0 {
        assert Before(s[i - 1], s[j - 1]) && s[i - 1].member != s[j - 1].member;
      }
    }
  }

  lemma ProperSlice(s: seq<Pair>, a: nat, b: nat)
    requires Proper(s) && a <= b <= |s|
    ensures Proper(s[a..b])
  {
    var t := s[a..b];
    forall i, j | 0 <= i < j < |t|
      ensures Before(t[i], t[j]) && t[i].member != t[j].member
    {
      assert Before(s[a + i], s[a + j]) && s[a + i].member != s[a + j].member;
    }
  }

  /** Giving a member a score keeps the pairs in order and the members unique, and touches no other pair. */
  lemma AddPairKeepsProper(s: seq<Pair>, score: Score, member: string)
    requires Proper(s)
    ensures Proper(AddPair(s, score, member))
    ensures forall p :: p in AddPair(s, score, member) <==> p == Pair(score, member) || (p in s && p.member != member)
  {
    var r, q := RemoveMember(s, member), Pair(score, member);
    RemoveMemberKeepsProper(s, member);
    RemoveMemberHas(s, member, q);
    InsertKeepsSorted(r, q);
    forall p
      ensures p in r <==> p in s && p.member != member
    {
      RemoveMemberHas(s, member, p);
    }
    PutKeepsUnique(r, q, CountBefore(r, q));
  }

  lemma PutKeepsUnique(r: seq<Pair>, q: Pair, n: nat)
    requires UniqueMembers(r) && n <= |r|
    requires forall p :: p in r ==> p.member != q.member
    ensures UniqueMembers(r[..n] + [q] + r[n..])
    ensures forall p :: p in r[..n] + [q] + r[n..] <==> p == q || p in r
  {
    var t := r[..n] + [q] + r[n..];
    assert r == r[..n] + r[n..];
    forall i, j | 0 <= i < j < |t|
      ensures t[i].member != t[j].member
    {
      if i != n && j != n {
        assert r[if i < n then i else i - 1].member != r[if j < n then j else j - 1].member;
      }
    }
  }
}
