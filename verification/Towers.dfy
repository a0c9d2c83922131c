/**
  The geometry of a skip list. A list of towers is the sequence of their heights, with the
  header's tower at index 0, so that the index of a tower is its rank. A link at level i
  leads to the next tower taller than i; its span is the distance in ranks.
 */
module Towers {
  /** The first index from s on whose tower is taller than i, or |h|. */
  function NextFrom(h: seq<nat>, s: nat, i: nat): (j: nat)
    requires s <= |h|
    ensures s <= j <= |h|
    ensures j < |h| ==> h[j] > i
    decreases |h| - s
  {
    if s == |h| || h[s] > i then s else NextFrom(h, s + 1, i)
  }

  /** Where the link at level i of tower k leads; |h| stands for nil. */
  function Next(h: seq<nat>, k: nat, i: nat): (j: nat)
    requires k < |h|
    ensures k < j <= |h|
    ensures j < |h| ==> h[j] > i
  {
    NextFrom(h, k + 1, i)
  }

  /** The span of that link: the distance in ranks, or to the last tower when it is nil. */
  function Span(h: seq<nat>, k: nat, i: nat): nat
    requires k < |h|
  {
    var j := Next(h, k, i);
    if j < |h| then j - k else j - k - 1
  }

  /** The last index up to p whose tower is taller than i: the predecessor a search at level i ends on. */
  function Last(h: seq<nat>, p: nat, i: nat): (k: nat)
    requires p < |h| && h[0] > i
    ensures k <= p && h[k] > i
  {
    if h[p] > i then p else Last(h, p - 1, i)
  }

  lemma {:induction false} NextSkipsFrom(h: seq<nat>, s: nat, i: nat)
    requires s <= |h|
    ensures forall m :: s <= m < NextFrom(h, s, i) ==> h[m] <= i
    decreases |h| - s
  {
    if s < |h| && h[s] <= i {
      NextSkipsFrom(h, s + 1, i);
    }
  }

  /** A link passes only towers too low for its level. */
  lemma NextSkips(h: seq<nat>, k: nat, i: nat)
    requires k < |h|
    ensures forall m :: k < m < Next(h, k, i) ==> h[m] <= i
  {
    NextSkipsFrom(h, k + 1, i);
  }

  lemma {:induction false} LastSkips(h: seq<nat>, p: nat, i: nat)
    requires p < |h| && h[0] > i
    ensures forall m :: Last(h, p, i) < m <= p ==> h[m] <= i
  {
    if h[p] <= i {
      LastSkips(h, p - 1, i);
    }
  }

  /** The predecessors of rank p depend only on the towers up to p. */
  lemma {:induction false} LastOfPrefix(g: seq<nat>, h: seq<nat>, p: nat, i: nat)
    requires p < |g| && p < |h| && h[0] > i
    requires forall m :: 0 <= m <= p ==> g[m] == h[m]
    ensures Last(g, p, i) == Last(h, p, i)
  {
    if h[p] <= i {
      LastOfPrefix(g, h, p - 1, i);
    }
  }

  lemma NextIsUnique(h: seq<nat>, k: nat, i: nat, j: nat)
    requires k < j <= |h|
    requires j < |h| ==> h[j] > i
    requires forall m :: k < m < j ==> h[m] <= i
    ensures Next(h, k, i) == j
  {
    NextSkips(h, k, i);
  }

  /** Exactly the predecessor at level i has a link at level i that crosses p. */
  lemma CrossesIffLast(h: seq<nat>, p: nat, i: nat, k: nat)
    requires p < |h| && h[0] > i
    requires k <= p && h[k] > i
    ensures Next(h, k, i) > p <==> k == Last(h, p, i)
  {
    NextSkips(h, k, i);
    LastSkips(h, p, i);
  }

  /** The sequence with e put after index p; on heights, the towers with a new one. */
  function PutAfter<T>(s: seq<T>, p: nat, e: T): seq<T>
    requires p < |s|
  {
    s[..p + 1] + [e] + s[p + 1..]
  }

  /** The sequence without the element after index p. */
  function DropAfter<T>(s: seq<T>, p: nat): (r: seq<T>)
    requires p + 1 < |s|
    ensures |r| == |s| - 1
    ensures forall i :: 0 <= i <= p ==> r[i] == s[i]
    ensures forall i :: p < i < |r| ==> r[i] == s[i + 1]
  {
    s[..p + 1] + s[p + 2..]
  }

  lemma PutDropped<T>(s: seq<T>, p: nat)
    requires p + 1 < |s|
    ensures PutAfter(DropAfter(s, p), p, s[p + 1]) == s
  {
  }

  /** How a new tower changes the link at level i of an old one: only links that cross it change. */
  lemma PutNext(h: seq<nat>, p: nat, v: nat, k: nat, i: nat)
    requires p < |h| && k < |h|
    ensures var n := Next(h, k, i);
            var g := PutAfter(h, p, v);
            if k > p then Next(g, k + 1, i) == n + 1
            else if n <= p then Next(g, k, i) == n
            else Next(g, k, i) == if i < v then p + 1 else n + 1
  {
    var n := Next(h, k, i);
    NextSkips(h, k, i);
    var g := PutAfter(h, p, v);
    if k > p {
      NextIsUnique(g, k + 1, i, n + 1);
    } else if n <= p {
      NextIsUnique(g, k, i, n);
    } else if i < v {
      NextIsUnique(g, k, i, p + 1);
    } else {
      forall m | k < m < n + 1
        ensures g[m] <= i
      {
        if m > p + 1 {
          assert g[m] == h[m - 1];
        }
      }
      NextIsUnique(g, k, i, n + 1);
    }
  }

  /** The link at level i of the new tower: what its predecessor's link was. */
  lemma PutNextOfNew(h: seq<nat>, p: nat, v: nat, i: nat)
    requires p < |h| && h[0] > i
    ensures Next(PutAfter(h, p, v), p + 1, i) == Next(h, Last(h, p, i), i) + 1
  {
    var k := Last(h, p, i);
    var n := Next(h, k, i);
    NextSkips(h, k, i);
    CrossesIffLast(h, p, i, k);
    var g := PutAfter(h, p, v);
    forall m | p + 1 < m < n + 1
      ensures g[m] <= i
    {
      assert g[m] == h[m - 1];
    }
    NextIsUnique(g, p + 1, i, n + 1);
  }

  /** At a level that only the header has, the header is every search's predecessor. */
  lemma HeaderIsLast(h: seq<nat>, p: nat, i: nat)
    requires p < |h| && h[0] > i
    requires forall k :: 1 <= k < |h| ==> h[k] <= i
    ensures Last(h, p, i) == 0
  {
  }

  /** At level 0, which every tower has, links lead to the neighbour. */
  lemma NextAtGround(h: seq<nat>, k: nat)
    requires k < |h| && (k + 1 < |h| ==> h[k + 1] >= 1)
    ensures Next(h, k, 0) == k + 1
  {
  }
}
