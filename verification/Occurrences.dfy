/** Removing the first, the last or all occurrences of an element from a sequence. */
module Occurrences {
  import opened Basics

  /** s without the first k occurrences of e. */
  function DropFirst<T(==)>(s: seq<T>, k: nat, e: T): (r: seq<T>)
    ensures |r| <= |s|
  {
    if s == [] || k == 0 then s
    else if s[0] == e then DropFirst(s[1..], k - 1, e)
    else [s[0]] + DropFirst(s[1..], k, e)
  }

  /** s without the last k occurrences of e. */
  function DropLast<T(==)>(s: seq<T>, k: nat, e: T): (r: seq<T>)
    ensures |r| <= |s|
  {
    if s == [] || k == 0 then s
    else
      var front, last := s[..|s| - 1], s[|s| - 1];
      if last == e then DropLast(front, k - 1, e) else DropLast(front, k, e) + [last]
  }

  /** The position of the first occurrence of e, or |s|. */
  function FirstIndex<T(==)>(s: seq<T>, e: T): (i: nat)
    ensures i <= |s|
  {
    if s == [] || s[0] == e then 0 else 1 + FirstIndex(s[1..], e)
  }

  lemma {:induction false} FirstIndexIs<T>(s: seq<T>, e: T, i: nat)
    requires i < |s| && s[i] == e && e !in s[..i]
    ensures FirstIndex(s, e) == i
  {
    if i > 0 {
      assert s[0] in s[..i];
      assert s[..i][1..] == s[1..][..i - 1];
      FirstIndexIs(s[1..], e, i - 1);
    }
  }

  function Count<T(==)>(s: seq<T>, e: T): (n: nat)
    ensures n <= |s|
  {
    if s == [] then 0 else (if s[0] == e then 1 else 0) + Count(s[1..], e)
  }

  /** LREM: from the head for a positive count, from the tail for a negative one, everywhere for 0. */
  function Removed<T(==)>(s: seq<T>, count: int, e: T): seq<T> {
    if count == 0 then DropFirst(s, |s|, e)
    else if count > 0 then DropFirst(s, count, e)
    else DropLast(s, -count, e)
  }

  /** One more element at the end: it goes if it is an occurrence and fewer than k have gone before. */
  lemma {:induction false} DropFirstStep<T>(a: seq<T>, x: T, k: nat, e: T)
    ensures DropFirst(a + [x], k, e) ==
            if x == e && |a| - |DropFirst(a, k, e)| < k then DropFirst(a, k, e) else DropFirst(a, k, e) + [x]
    ensures |a| - |DropFirst(a, k, e)| <= k
  {
    if a == [] {
      assert [x][1..] == [];
    } else if k > 0 {
      assert (a + [x])[1..] == a[1..] + [x];
      if a[0] == e {
        DropFirstStep(a[1..], x, k - 1, e);
      } else {
        DropFirstStep(a[1..], x, k, e);
        assert [a[0]] + (DropFirst(a[1..], k, e) + [x]) == ([a[0]] + DropFirst(a[1..], k, e)) + [x];
      }
    }
  }

  /** Once k have gone, the rest stays. */
  lemma {:induction false} DropFirstDone<T>(a: seq<T>, b: seq<T>, k: nat, e: T)
    requires |a| - |DropFirst(a, k, e)| == k
    ensures DropFirst(a + b, k, e) == DropFirst(a, k, e) + b
  {
    if k > 0 {
      assert (a + b)[1..] == a[1..] + b;
      if a[0] == e {
        DropFirstDone(a[1..], b, k - 1, e);
      } else {
        DropFirstDone(a[1..], b, k, e);
        assert [a[0]] + (DropFirst(a[1..], k, e) + b) == ([a[0]] + DropFirst(a[1..], k, e)) + b;
      }
    }
  }

  /** One more element at the front, for removal from the end. */
  lemma {:induction false} DropLastStep<T>(x: T, a: seq<T>, k: nat, e: T)
    ensures DropLast([x] + a, k, e) ==
            if x == e && |a| - |DropLast(a, k, e)| < k then DropLast(a, k, e) else [x] + DropLast(a, k, e)
    ensures |a| - |DropLast(a, k, e)| <= k
  {
    if a == [] {
      assert [x][..0] == [];
    } else if k > 0 {
      var s, front, last := [x] + a, a[..|a| - 1], a[|a| - 1];
      assert s[..|s| - 1] == [x] + front && s[|s| - 1] == last;
      if last == e {
        DropLastStep(x, front, k - 1, e);
      } else {
        DropLastStep(x, front, k, e);
        assert ([x] + DropLast(front, k, e)) + [last] == [x] + (DropLast(front, k, e) + [last]);
      }
    }
  }

  lemma {:induction false} DropLastDone<T>(b: seq<T>, a: seq<T>, k: nat, e: T)
    requires |a| - |DropLast(a, k, e)| == k
    ensures DropLast(b + a, k, e) == b + DropLast(a, k, e)
  {
    if k > 0 {
      var front, last := a[..|a| - 1], a[|a| - 1];
      assert (b + a)[..|b + a| - 1] == b + front && (b + a)[|b + a| - 1] == last;
      if last == e {
        DropLastDone(b, front, k - 1, e);
      } else {
        DropLastDone(b, front, k, e);
        assert (b + DropLast(front, k, e)) + [last] == b + (DropLast(front, k, e) + [last]);
      }
    }
  }

  /** Removing from the tail is removing from the head of the reversed sequence, reversed. */
  lemma {:induction false} DropLastIsReversed<T>(s: seq<T>, k: nat, e: T)
    ensures DropLast(s, k, e) == Reverse(DropFirst(Reverse(s), k, e))
  {
    if s == [] || k == 0 {
      assert Reverse(Reverse(s)) == s;
    } else {
      var front, last := s[..|s| - 1], s[|s| - 1];
      assert Reverse(s)[1..] == Reverse(front) && Reverse(s)[0] == last;
      if last == e {
        DropLastIsReversed(front, k - 1, e);
      } else {
        DropLastIsReversed(front, k, e);
      }
    }
  }

  /** The elements of s other than e. */
  function Without<T(==)>(s: seq<T>, e: T): seq<T> {
    if s == [] then [] else (if s[0] == e then [] else [s[0]]) + Without(s[1..], e)
  }

  /**
    What the removal means: s splits so that the first part holds exactly the occurrences to go,
    min(k, all) of them; the first part loses them and nothing else, and the second part stays.
   */
  lemma {:induction false} DropFirstMeans<T>(s: seq<T>, k: nat, e: T) returns (cut: nat)
    ensures cut <= |s|
    ensures DropFirst(s, k, e) == Without(s[..cut], e) + s[cut..]
    ensures Count(s[..cut], e) == Min(k, Count(s, e))
    ensures |s| - |DropFirst(s, k, e)| == Min(k, Count(s, e))
  {
    if s == [] || k == 0 {
      cut := 0;
    } else {
      var k' := if s[0] == e then k - 1 else k;
      var c := DropFirstMeans(s[1..], k', e);
      cut := c + 1;
      assert s[..cut][1..] == s[1..][..c];
      assert s[cut..] == s[1..][c..];
    }
  }

  /** Removing every occurrence leaves the other elements in order. */
  lemma {:induction false} DropAll<T>(s: seq<T>, k: nat, e: T)
    requires k >= |s|
    ensures DropFirst(s, k, e) == Without(s, e)
  {
    if s != [] && k > 0 {
      DropAll(s[1..], if s[0] == e then k - 1 else k, e);
    }
  }

  lemma {:induction false} CountIs<T>(s: seq<T>, e: T)
    ensures Count(s, e) == multiset(s)[e]
  {
    if s != [] {
      CountIs(s[1..], e);
      assert s == [s[0]] + s[1..];
    }
  }

  lemma {:induction false} WithoutCounts<T>(s: seq<T>, e: T)
    ensures e !in Without(s, e) && |Without(s, e)| == |s| - Count(s, e)
  {
    if s != [] {
      WithoutCounts(s[1..], e);
    }
  }

  lemma {:induction false} WithoutAt<T>(s: seq<T>, e: T, i: nat)
    requires i < |s| && s[i] != e
    ensures var j := i - Count(s[..i], e); 0 <= j < |Without(s, e)| && Without(s, e)[j] == s[i]
  {
    if i > 0 {
      WithoutAt(s[1..], e, i - 1);
      assert s[..i][1..] == s[1..][..i - 1];
    }
  }

  /** None of the occurrences is left, and every other element moves forward by as many places as are before it. */
  lemma WithoutMeans<T>(s: seq<T>, e: T)
    ensures e !in Without(s, e) && |Without(s, e)| == |s| - multiset(s)[e]
    ensures forall i :: 0 <= i < |s| && s[i] != e ==>
              var j := i - multiset(s[..i])[e]; 0 <= j < |Without(s, e)| && Without(s, e)[j] == s[i]
  {
    WithoutCounts(s, e);
    CountIs(s, e);
    forall i | 0 <= i < |s| && s[i] != e
      ensures var j := i - multiset(s[..i])[e]; 0 <= j < |Without(s, e)| && Without(s, e)[j] == s[i]
    {
      WithoutAt(s, e, i);
      CountIs(s[..i], e);
    }
  }

  /** A count of 0 removes every occurrence, wherever it stands. */
  lemma RemovedAll<T>(s: seq<T>, e: T)
    ensures Removed(s, 0, e) == Without(s, e)
  {
    DropAll(s, |s|, e);
  }

  /** A positive count removes so many of the occurrences, if there are as many, and the first of them. */
  lemma RemovedFirst<T>(s: seq<T>, count: int, e: T) returns (cut: nat)
    requires count > 0
    ensures cut <= |s| && Removed(s, count, e) == Without(s[..cut], e) + s[cut..]
    ensures multiset(s[..cut])[e] == Min(count, multiset(s)[e])
  {
    cut := DropFirstMeans(s, count, e);
    CountIs(s[..cut], e);
    CountIs(s, e);
  }

  /** A negative count removes so many from the end: it is the positive one, on the reversed sequence. */
  lemma RemovedLast<T>(s: seq<T>, count: int, e: T)
    requires count < 0
    ensures Removed(s, count, e) == Reverse(Removed(Reverse(s), -count, e))
  {
    DropLastIsReversed(s, -count, e);
  }

  lemma ReverseKeepsAll<T>(s: seq<T>)
    ensures multiset(Reverse(s)) == multiset(s)
    decreases |s|
  {
    if s != [] {
      var front, last := s[..|s| - 1], s[|s| - 1];
      assert s == front + [last] && Reverse(s) == [last] + Reverse(front);
      ReverseKeepsAll(front);
    }
  }

  /**
    What goes: a first part of the sequence, or of its reversal for a negative count, loses all its occurrences, and
    these are as many as the count says.
   */
  lemma RemovedMeans<T>(s: seq<T>, count: int, e: T) returns (cut: nat)
    ensures var all := if count < 0 then Reverse(s) else s;
            && cut <= |s|
            && multiset(all[..cut])[e] ==
               (if count == 0 then multiset(s)[e] else Min(if count < 0 then -count else count, multiset(s)[e]))
            && var left := Without(all[..cut], e) + all[cut..];
               Removed(s, count, e) == if count < 0 then Reverse(left) else left
  {
    hide Removed, Without;
    if count == 0 {
      RemovedAll(s, e);
      cut := |s|;
      assert s[..cut] == s && Without(s, e) + s[cut..] == Without(s, e);
    } else if count > 0 {
      cut := RemovedFirst(s, count, e);
    } else {
      RemovedLast(s, count, e);
      cut := RemovedFirst(Reverse(s), -count, e);
      ReverseKeepsAll(s);
    }
  }

  /** How many elements go: all occurrences, or as many of them as the count says. */
  lemma RemovedCounts<T>(s: seq<T>, count: int, e: T)
    ensures |s| - |Removed(s, count, e)| ==
            if count == 0 then multiset(s)[e] else Min(if count < 0 then -count else count, multiset(s)[e])
  {
    hide Removed, Without;
    var cut := RemovedMeans(s, count, e);
    WithoutMeans((if count < 0 then Reverse(s) else s)[..cut], e);
  }

  /** The removing walk from the head is at position j of s: it has kept `done`, and what is there is `now`. */
  ghost predicate Walked<T>(s: seq<T>, j: nat, k: nat, e: T, done: seq<T>, now: seq<T>) {
    j <= |s| && done == DropFirst(s[..j], k, e) && now == done + s[j..]
  }

  /** One round of it. */
  lemma ForwardStep<T>(s: seq<T>, j: nat, k: nat, e: T, done: seq<T>, now: seq<T>)
    requires j < |s| && Walked(s, j, k, e, done, now) && j - |done| < k
    ensures now[|done|] == s[j]
    ensures if s[j] == e
            then Walked(s, j + 1, k, e, done, now[..|done|] + now[|done| + 1..])
            else Walked(s, j + 1, k, e, done + [s[j]], now)
  {
    DropFirstStep(s[..j], s[j], k, e);
    assert s[..j + 1] == s[..j] + [s[j]];
  }

  lemma StillToWalk<T>(s: seq<T>, j: nat, k: nat, e: T, done: seq<T>, now: seq<T>)
    requires Walked(s, j, k, e, done, now)
    ensures |s| - j == |now| - |done|
  {
  }

  lemma ForwardBegins<T>(s: seq<T>, k: nat, e: T)
    ensures Walked(s, 0, k, e, [], s)
  {
  }

  /** The walk ends behind the last element, or once it has removed k of them. */
  lemma ForwardDone<T>(s: seq<T>, j: nat, k: nat, e: T, done: seq<T>, now: seq<T>)
    requires Walked(s, j, k, e, done, now) && (|done| >= |now| || j - |done| == k)
    ensures now == DropFirst(s, k, e)
  {
    assert s == s[..j] + s[j..];
    if j == |s| {
      assert s[..j] == s;
    } else {
      DropFirstDone(s[..j], s[j..], k, e);
    }
  }

  /** One round of the removing walk from the tail, at position j - 1 of s. */
  lemma BackwardStep<T>(s: seq<T>, j: nat, k: nat, e: T, done: seq<T>, now: seq<T>)
    requires 0 < j <= |s| && done == DropLast(s[j..], k, e) && now == s[..j] + done && |s| - j - |done| < k
    ensures now[j - 1] == s[j - 1]
    ensures s[j - 1] == e ==> now[..j - 1] + now[j..] == s[..j - 1] + done && done == DropLast(s[j - 1..], k, e)
    ensures s[j - 1] != e ==> now == s[..j - 1] + ([s[j - 1]] + done) && [s[j - 1]] + done == DropLast(s[j - 1..], k, e)
  {
    DropLastStep(s[j - 1], s[j..], k, e);
    assert s[j - 1..] == [s[j - 1]] + s[j..];
  }

  lemma BackwardDone<T>(s: seq<T>, j: nat, k: nat, e: T)
    requires j <= |s| && (j == 0 || |s| - j - |DropLast(s[j..], k, e)| == k)
    ensures DropLast(s, k, e) == s[..j] + DropLast(s[j..], k, e)
  {
    assert s == s[..j] + s[j..];
    if j == 0 {
      assert s[j..] == s;
    } else {
      DropLastDone(s[..j], s[j..], k, e);
    }
  }
}
