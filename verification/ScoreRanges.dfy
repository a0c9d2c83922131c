/** The score queries as the plain filter of a sorted sequence, and why they may be computed as a slice of it. */
module ScoreRanges {
  import opened Basics
  import opened Pairs

  /** The pairs with min <= score <= max, in order. */
  function InScores(s: seq<Pair>, min: Score, max: Score): seq<Pair> {
    if s == [] then []
    else (if min <= s[0].score <= max then [s[0]] else []) + InScores(s[1..], min, max)
  }

  /** The elements left after skipping `offset` of them; a negative offset skips none. */
  function Skip<T>(s: seq<T>, offset: int): seq<T> {
    if offset <= 0 then s else s[Min(offset, |s|)..]
  }

  /** LIMIT offset count: skip, then take at most count; a count of 0 or less takes all. */
  function Limit<T>(s: seq<T>, offset: int, count: int): seq<T> {
    var r := Skip(s, offset);
    if count > 0 then r[..Min(count, |r|)] else r
  }

  /** The elements of ranks start..stop, 1-based and inclusive, as far as they exist. */
  function RankSlice<T>(s: seq<T>, start: int, stop: int): seq<T> {
    var lo := if start < 1 then 1 else start;
    var hi := if stop > |s| then |s| else stop;
    if lo > hi then [] else s[lo - 1..hi]
  }

  /** They are the elements whose ranks, counted from 1, are from start to stop. */
  lemma RankSliceSelects<T>(s: seq<T>, start: int, stop: int) returns (lo: nat, hi: nat)
    ensures lo <= hi <= |s| && RankSlice(s, start, stop) == s[lo..hi]
    ensures forall i {:trigger s[i]} :: 0 <= i < |s| ==> (lo <= i < hi <==> start <= i + 1 <= stop)
  {
    var a, b := if start < 1 then 0 else start - 1, if stop > |s| then |s| else stop;
    lo, hi := if a < b then a else 0, if a < b then b else 0;
  }

  function Below(min: Score): Pair -> bool {
    (p: Pair) => p.score < min
  }

  function AtMost(max: Score): Pair -> bool {
    (p: Pair) => p.score <= max
  }

  /** The number of leading pairs that pass the test. */
  function CountWhile(s: seq<Pair>, test: Pair -> bool): (n: nat)
    ensures n <= |s|
  {
    if s == [] || !test(s[0]) then 0 else 1 + CountWhile(s[1..], test)
  }

  lemma {:induction false} CountWhileSplits(s: seq<Pair>, test: Pair -> bool)
    requires forall i, j {:trigger test(s[i]), test(s[j])} :: 0 <= i < j < |s| && test(s[j]) ==> test(s[i])
    ensures forall i {:trigger test(s[i])} :: 0 <= i < |s| ==> (test(s[i]) <==> i < CountWhile(s, test))
  {
    if s != [] {
      CountWhileSplits(s[1..], test);
      forall i | 0 <= i < |s|
        ensures test(s[i]) <==> i < CountWhile(s, test)
      {
        if i > 0 {
          assert s[1..][i - 1] == s[i];
          assert test(s[1..][i - 1]) <==> i - 1 < CountWhile(s[1..], test);
          assert test(s[i]) ==> test(s[0]);
        }
      }
    }
  }

  /** In a sorted sequence the scores below a bound come first. */
  lemma ScoresSplit(s: seq<Pair>, b: Score)
    requires Sorted(s)
    ensures forall i :: 0 <= i < |s| ==> (s[i].score < b <==> i < CountWhile(s, Below(b)))
    ensures forall i :: 0 <= i < |s| ==> (s[i].score <= b <==> i < CountWhile(s, AtMost(b)))
  {
    forall i, j | 0 <= i < j < |s|
      ensures s[i].score <= s[j].score
    {
      assert Before(s[i], s[j]);
    }
    CountWhileSplits(s, Below(b));
    CountWhileSplits(s, AtMost(b));
    forall i | 0 <= i < |s|
      ensures s[i].score < b <==> i < CountWhile(s, Below(b))
      ensures s[i].score <= b <==> i < CountWhile(s, AtMost(b))
    {
      assert Below(b)(s[i]) <==> s[i].score < b;
      assert AtMost(b)(s[i]) <==> s[i].score <= b;
    }
  }

  /** The positions from p to q hold just the scores within the bounds. */
  ghost predicate HoldsJust(s: seq<Pair>, min: Score, max: Score, p: nat, q: nat) {
    p <= q <= |s| && forall i :: 0 <= i < |s| ==> (min <= s[i].score <= max <==> p <= i < q)
  }

  lemma HoldsLater(s: seq<Pair>, min: Score, max: Score, p: nat, q: nat)
    requires s != [] && HoldsJust(s, min, max, p, q)
    ensures HoldsJust(s[1..], min, max, if p > 0 then p - 1 else 0, if q > 0 then q - 1 else 0)
    ensures min <= s[0].score <= max <==> p == 0 < q
  {
    var t := s[1..];
    assert forall i :: 0 <= i < |t| ==> t[i] == s[i + 1];
  }

  lemma {:induction false} FilterOfSlice(s: seq<Pair>, min: Score, max: Score, p: nat, q: nat)
    requires HoldsJust(s, min, max, p, q)
    ensures InScores(s, min, max) == s[p..q]
  {
    if s != [] {
      HoldsLater(s, min, max, p, q);
      hide HoldsJust;
      FilterOfSlice(s[1..], min, max, if p > 0 then p - 1 else 0, if q > 0 then q - 1 else 0);
      SliceLater(s, p, q);
    }
  }

  lemma SliceLater<T>(s: seq<T>, p: nat, q: nat)
    requires s != [] && p <= q <= |s|
    ensures s[p..q] == (if p == 0 < q then [s[0]] else []) +
            s[1..][if p > 0 then p - 1 else 0..if q > 0 then q - 1 else 0]
  {
  }

  /** Of a sorted sequence, the filter is the slice from the first score not below min to the last not above max. */
  lemma InScoresIsSlice(s: seq<Pair>, min: Score, max: Score)
    requires Sorted(s)
    ensures var p, q := CountWhile(s, Below(min)), CountWhile(s, AtMost(max));
            InScores(s, min, max) == if p <= q then s[p..q] else []
  {
    var p, q := CountWhile(s, Below(min)), CountWhile(s, AtMost(max));
    ScoresSplit(s, min);
    ScoresSplit(s, max);
    if p <= q {
      FilterOfSlice(s, min, max, p, q);
    } else {
      FilterOfSlice(s, min, max, p, p);
    }
  }

  /** The filter is the part of a sorted sequence whose scores are within the bounds, both included. */
  lemma InScoresSelects(s: seq<Pair>, min: Score, max: Score) returns (lo: nat, hi: nat)
    requires Sorted(s)
    ensures lo <= hi <= |s| && InScores(s, min, max) == s[lo..hi]
    ensures forall i :: 0 <= i < |s| ==> (lo <= i < hi <==> min <= s[i].score <= max)
  {
    ScoresSplit(s, min);
    ScoresSplit(s, max);
    lo, hi := CountWhile(s, Below(min)), CountWhile(s, AtMost(max));
    if lo > hi {
      hi := lo;
    }
    FilterOfSlice(s, min, max, lo, hi);
  }

  /** Position i is not among the first `offset`, and among the `count` after them, if that is positive. */
  predicate Passes(i: int, offset: int, count: int) {
    offset <= i && (count <= 0 || i < (if offset < 0 then 0 else offset) + count)
  }

  /** LIMIT passes over the first `offset` elements, and takes `count` of the others, or all if that is not positive. */
  lemma LimitSelects<T>(s: seq<T>, offset: int, count: int) returns (lo: nat, hi: nat)
    ensures lo <= hi <= |s| && Limit(s, offset, count) == s[lo..hi]
    ensures forall i :: 0 <= i < |s| ==> (lo <= i < hi <==> Passes(i, offset, count))
  {
    lo := if offset <= 0 then 0 else Min(offset, |s|);
    hi := if count > 0 then Min(lo + count, |s|) else |s|;
  }

  /** Where in a sorted sequence the filter begins, counted from the front, and ends, counted from the back. */
  lemma ScoreRun(s: seq<Pair>, min: Score, max: Score) returns (all: seq<Pair>, p: nat, q: nat)
    requires Sorted(s)
    ensures all == InScores(s, min, max) && p == CountWhile(s, Below(min)) && q == CountWhile(s, AtMost(max))
    ensures p + |all| <= |s| && |all| <= q <= |s|
    ensures forall j :: 0 <= j < |all| ==>
            all[j] == s[p + j] && Reverse(all)[j] == s[q - 1 - j] && min <= all[j].score <= max
    ensures p + |all| < |s| ==> s[p + |all|].score > max
    ensures q - |all| > 0 ==> s[q - |all| - 1].score < min
  {
    all, p, q := InScores(s, min, max), CountWhile(s, Below(min)), CountWhile(s, AtMost(max));
    InScoresIsSlice(s, min, max);
    BoundsSplit(s, min, max, p, q);
    assert |all| == if p <= q then q - p else 0;
    forall j | 0 <= j < |all|
      ensures all[j] == s[p + j] && Reverse(all)[j] == s[q - 1 - j] && min <= all[j].score <= max
    {
      assert all == s[p..q] && Reverse(all)[j] == all[|all| - 1 - j];
    }
  }

  /** The two counts of a filter, each with what it splits. */
  lemma BoundsSplit(s: seq<Pair>, min: Score, max: Score, p: nat, q: nat)
    requires Sorted(s) && p == CountWhile(s, Below(min)) && q == CountWhile(s, AtMost(max))
    ensures forall i :: 0 <= i < |s| ==> (s[i].score < min <==> i < p) && (s[i].score <= max <==> i < q)
  {
    ScoresSplit(s, min);
    ScoresSplit(s, max);
  }

  /** How many of the first j elements a walk with this offset has skipped. */
  function Skipped(offset: int, j: nat): nat {
    if offset <= 0 then 0 else if j < offset then j else offset
  }

  /** What it has collected of them. */
  function Taken<T>(all: seq<T>, offset: int, j: nat): seq<T>
    requires j <= |all|
  {
    all[Skipped(offset, j)..j]
  }

  /** A walk that has seen j pairs has passed over so many and collected the others, and is not yet done. */
  ghost predicate Took<T>(all: seq<T>, offset: int, count: int, j: nat, skipped: int, result: seq<T>) {
    && j <= |all| && skipped == Skipped(offset, j) && result == Taken(all, offset, j)
    && (count > 0 ==> |result| < count)
  }

  lemma TookNothing<T>(all: seq<T>, offset: int, count: int)
    ensures Took(all, offset, count, 0, 0, [])
  {
  }

  /** The next pair is passed over or collected, and then the walk may be done. */
  lemma TakeOneMore<T>(all: seq<T>, offset: int, count: int, j: nat, skipped: int, result: seq<T>)
    requires j < |all| && Took(all, offset, count, j, skipped, result)
    ensures if skipped < offset then Took(all, offset, count, j + 1, skipped + 1, result)
            else if count > 0 && |result| + 1 >= count then result + [all[j]] == Limit(all, offset, count)
            else Took(all, offset, count, j + 1, skipped, result + [all[j]])
  {
    if skipped >= offset {
      assert Taken(all, offset, j + 1) == result + [all[j]];
    }
  }

  /** A walk that has seen everything has what LIMIT asks for. */
  lemma TookAll<T>(all: seq<T>, offset: int, count: int, skipped: int, result: seq<T>)
    requires Took(all, offset, count, |all|, skipped, result)
    ensures result == Limit(all, offset, count)
  {
  }
}
