/** The insertion sort of a slice of strings. */
module StringSorting {
  import opened Strings

  /** x put into a sorted sequence, searching from its end. */
  function InsertString(ss: seq<string>, x: string): (r: seq<string>)
    ensures |r| == |ss| + 1
  {
    if ss == [] || !Less(x, ss[|ss| - 1]) then ss + [x]
    else InsertString(ss[..|ss| - 1], x) + [ss[|ss| - 1]]
  }

  function Sort(ss: seq<string>): (r: seq<string>)
    ensures |r| == |ss|
  {
    if ss == [] then [] else InsertString(Sort(ss[..|ss| - 1]), ss[|ss| - 1])
  }

  ghost predicate NonDescending(ss: seq<string>) {
    forall i, j {:trigger Less(ss[j], ss[i])} :: 0 <= i < j < |ss| ==> !Less(ss[j], ss[i])
  }

  /** The inner loop: element i sinks to its place among those before it. */
  method Sink(a: array<string>, i: nat)
    requires i < a.Length
    modifies a
    ensures a[..i + 1] == InsertString(old(a[..i]), old(a[i]))
    ensures a[i + 1..] == old(a[i + 1..])
  {
    hide Less, InsertString;
    ghost var t, x := a[..i], a[i];
    var j := i;
    assert t[i..] == [] && t[..i] == t;
    while j > 0 && Less(a[j], a[j - 1])
      invariant 0 <= j <= i
      invariant a[..j] == t[..j] && a[j] == x && a[j + 1..i + 1] == t[j..]
      invariant a[i + 1..] == old(a[i + 1..])
      invariant InsertString(t, x) == InsertString(t[..j], x) + t[j..]
    {
      assert a[j - 1] == a[..j][j - 1] == t[j - 1];
      SinkStep(t, x, j);
      a[j], a[j - 1] := a[j - 1], a[j];
      j := j - 1;
    }
    assert a[..i + 1] == t[..j] + [x] + t[j..];
    assert j > 0 ==> a[j - 1] == a[..j][j - 1] == t[j - 1];
    SinkEnds(t, x, j);
  }

  lemma SinkEnds(t: seq<string>, x: string, j: nat)
    requires j <= |t| && (j > 0 ==> !Less(x, t[j - 1]))
    ensures InsertString(t[..j], x) == t[..j] + [x]
  {
    assert j > 0 ==> t[..j][j - 1] == t[j - 1];
  }

  lemma SinkStep(t: seq<string>, x: string, j: nat)
    requires 0 < j <= |t| && Less(x, t[j - 1])
    ensures InsertString(t[..j], x) + t[j..] == InsertString(t[..j - 1], x) + t[j - 1..]
  {
    assert t[..j][..j - 1] == t[..j - 1];
    assert [t[j - 1]] + t[j..] == t[j - 1..];
  }

  /** Sorts in place by exchanging neighbours. */
  method SortStrings(a: array<string>)
    modifies a
    ensures a[..] == Sort(old(a[..]))
  {
    ghost var s := a[..];
    for i := 0 to a.Length
      invariant a[..i] == Sort(s[..i]) && a[i..] == s[i..]
    {
      assert s[..i + 1][..i] == s[..i] && a[i] == s[i];
      Sink(a, i);
      assert s[i..][1..] == s[i + 1..];
    }
    assert a[..] == a[..a.Length] && s[..a.Length] == s;
  }

  lemma {:induction false} InsertKeepsOrder(ss: seq<string>, x: string)
    requires NonDescending(ss)
    ensures NonDescending(InsertString(ss, x))
    ensures multiset(InsertString(ss, x)) == multiset(ss) + multiset{x}
    ensures ss != [] ==> InsertString(ss, x)[|ss|] == (if Less(x, ss[|ss| - 1]) then ss[|ss| - 1] else x)
  {
    var r := InsertString(ss, x);
    if ss == [] || !Less(x, ss[|ss| - 1]) {
      forall i, j | 0 <= i < j < |r|
        ensures !Less(r[j], r[i])
      {
        if j == |ss| { NotAbove(ss, i, x); }
      }
    } else {
      var front, last := ss[..|ss| - 1], ss[|ss| - 1];
      assert ss == front + [last];
      forall i, j | 0 <= i < j < |front|
        ensures !Less(front[j], front[i])
      {
        assert !Less(ss[j], ss[i]);
      }
      InsertKeepsOrder(front, x);
      var q := InsertString(front, x);
      forall i, j | 0 <= i < j < |r|
        ensures !Less(r[j], r[i])
      {
        if j == |q| {
          assert q[i] in multiset(q);
          NoneAbove(ss, q[i], x);
        } else {
          assert !Less(q[j], q[i]);
        }
      }
    }
  }

  /** In order, nothing is above the last element; so nothing is above what is not below it. */
  lemma NotAbove(ss: seq<string>, i: nat, x: string)
    requires NonDescending(ss) && i < |ss| && !Less(x, ss[|ss| - 1])
    ensures !Less(x, ss[i])
  {
    var last := ss[|ss| - 1];
    if i < |ss| - 1 && Less(x, ss[i]) {
      assert !Less(last, ss[i]);
      LessIsTotal(ss[i], last);
      if ss[i] != last {
        LessIsTransitive(x, ss[i], last);
      }
    }
  }

  lemma NoneAbove(ss: seq<string>, y: string, x: string)
    requires NonDescending(ss) && ss != [] && Less(x, ss[|ss| - 1])
    requires y in multiset(ss[..|ss| - 1]) + multiset{x}
    ensures !Less(ss[|ss| - 1], y)
  {
    var last := ss[|ss| - 1];
    if y == x {
      if Less(last, x) {
        LessIsTransitive(x, last, x);
        LessIsIrreflexive(x);
      }
    } else {
      assert y in ss[..|ss| - 1];
      var i :| 0 <= i < |ss| - 1 && ss[..|ss| - 1][i] == y;
      assert !Less(last, ss[i]);
    }
  }

  /** The sort orders its elements and keeps each of them as often as it was there. */
  lemma {:induction false} SortSorts(ss: seq<string>)
    ensures NonDescending(Sort(ss)) && multiset(Sort(ss)) == multiset(ss)
  {
    if ss != [] {
      SortSorts(ss[..|ss| - 1]);
      InsertKeepsOrder(Sort(ss[..|ss| - 1]), ss[|ss| - 1]);
      assert ss == ss[..|ss| - 1] + [ss[|ss| - 1]];
    }
  }

  /** An earlier string is the same as a later one, or comes first byte by byte. */
  lemma SortIsBytewise(ss: seq<string>)
    ensures var r := Sort(ss);
            forall i, j :: 0 <= i < j < |r| ==> r[i] == r[j] || exists k: nat :: PartAt(r[i], r[j], k)
  {
    hide Sort, Less, PartAt;
    var r := Sort(ss);
    SortSorts(ss);
    forall i, j | 0 <= i < j < |r| ensures r[i] == r[j] || exists k: nat :: PartAt(r[i], r[j], k) {
      assert !Less(r[j], r[i]);
      LessIsTotal(r[i], r[j]);
      LessIff(r[i], r[j]);
    }
  }

  lemma LastIsSame(a: seq<string>, b: seq<string>)
    requires NonDescending(a) && NonDescending(b) && multiset(a) == multiset(b) && a != [] && |a| == |b|
    ensures a[|a| - 1] == b[|b| - 1]
  {
    hide NonDescending, Less;
    var n := |a| - 1;
    assert a[n] in multiset(b) && b[n] in multiset(a);
    LastIsGreatest(a, b[n]);
    LastIsGreatest(b, a[n]);
    LessIsTotal(a[n], b[n]);
  }

  /** An ordered sequence is determined by its elements. */
  lemma {:induction false} OrderIsCanonical(a: seq<string>, b: seq<string>)
    requires NonDescending(a) && NonDescending(b) && multiset(a) == multiset(b)
    ensures a == b
  {
    hide NonDescending, Less;
    assert |multiset(a)| == |a| && |multiset(b)| == |b|;
    if a != [] {
      var n := |a| - 1;
      LastIsSame(a, b);
      assert a == a[..n] + [a[n]] && b == b[..n] + [b[n]];
      assert multiset(a[..n]) == multiset(a) - multiset{a[n]};
      FrontInOrder(a);
      FrontInOrder(b);
      OrderIsCanonical(a[..n], b[..n]);
    }
  }

  lemma FrontInOrder(a: seq<string>)
    requires NonDescending(a) && a != []
    ensures NonDescending(a[..|a| - 1])
  {
    forall i, j {:trigger Less(a[j], a[i])} | 0 <= i < j < |a| - 1
      ensures !Less(a[..|a| - 1][j], a[..|a| - 1][i])
    {
      assert !Less(a[j], a[i]);
    }
  }

  lemma LastIsGreatest(a: seq<string>, x: string)
    requires NonDescending(a) && x in a
    ensures !Less(a[|a| - 1], x)
  {
    var i :| 0 <= i < |a| && a[i] == x;
    if i == |a| - 1 {
      LessIsIrreflexive(x);
    }
  }

  /** The result does not depend on the order in which the elements came. */
  lemma SortIgnoresOrder(a: seq<string>, b: seq<string>)
    requires multiset(a) == multiset(b)
    ensures Sort(a) == Sort(b)
  {
    SortSorts(a);
    SortSorts(b);
    OrderIsCanonical(Sort(a), Sort(b));
  }
}
