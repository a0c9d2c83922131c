/** The skip list behind a sorted set. */
module Skiplists {
  import opened Basics
  import opened Strings
  import opened Pairs
  import opened Towers
  import opened ScoreRanges

  const MAX_LEVEL: nat := 32

  const TWO_97: Score := 158456325028528675187087900672.0

  /** -math.MaxFloat64, that is -(2^53 - 1) * 2^971, the score of the header; no search reads it. */
  const HEADER_SCORE: Score :=
    -9007199254740991.0 * 2.0 * TWO_97 * TWO_97 * TWO_97 * TWO_97 * TWO_97
    * TWO_97 * TWO_97 * TWO_97 * TWO_97 * TWO_97

  datatype Level = Level(forward: Node?, span: int)

  class Node {
    const member: string
    const score: Score
    var backward: Node?
    var levels: seq<Level>

    constructor (level: nat, score: Score, member: string)
      ensures this.score == score && this.member == member && backward == null
      ensures levels == seq(level, _ => Level(null, 0))
    {
      this.score := score;
      this.member := member;
      backward := null;
      levels := seq(level, _ => Level(null, 0));
    }
  }

  function PairOf(n: Node): Pair {
    Pair(n.score, n.member)
  }

  /** The test of the search of Insert and Delete: strictly before the target. */
  function Earlier(target: Pair): Pair -> bool {
    p => Before(p, target)
  }

  /** The test of the search of GetRank: up to the target. */
  function UpTo(target: Pair): Pair -> bool {
    (p: Pair) => p.score < target.score ||
                 (p.score == target.score && (Less(p.member, target.member) || p.member == target.member))
  }

  function PairsOf(ns: seq<Node>): (s: seq<Pair>)
    ensures |s| == |ns|
    ensures forall i :: 0 <= i < |s| ==> s[i] == PairOf(ns[i])
  {
    seq(|ns|, i requires 0 <= i < |ns| => PairOf(ns[i]))
  }

  ghost predicate Differ(m: Node, n: Node) {
    m != n
  }

  ghost predicate Distinct(ns: seq<Node>) {
    forall i, j {:trigger Differ(ns[i], ns[j])} :: 0 <= i < j < |ns| ==> Differ(ns[i], ns[j])
  }

  /** The levels of every node, as one value. */
  ghost function Table(ns: seq<Node>): (t: seq<seq<Level>>)
    reads ns
    ensures |t| == |ns|
    ensures forall k :: 0 <= k < |t| ==> t[k] == ns[k].levels
  {
    seq(|ns|, k requires 0 <= k < |ns| reads ns => ns[k].levels)
  }

  /** What the towers demand of one link; spans at levels not in use may be stale. */
  ghost predicate LinkOk(ns: seq<Node>, h: seq<nat>, link: Level, level: nat, k: nat, i: nat)
    requires |ns| == |h| && k < |h|
  {
    && link.forward == (var j := Next(h, k, i); if j < |h| then ns[j] else null)
    && (i < level ==> link.span == Span(h, k, i))
  }

  /** Every link of every node leads to the next tower taller than its level and spans the distance. */
  ghost predicate Linked(ns: seq<Node>, h: seq<nat>, t: seq<seq<Level>>, level: nat) {
    && |ns| == |h| == |t| > 0
    && (forall k :: 0 <= k < |h| ==> |t[k]| == h[k])
    && (forall k, i {:trigger LinkOk(ns, h, t[k][i], level, k, i)} ::
          0 <= k < |h| && 0 <= i < h[k] ==> LinkOk(ns, h, t[k][i], level, k, i))
  }

  /** The heights: the header has all levels, every other tower at least one and none not in use. */
  ghost predicate HeightsOk(h: seq<nat>, level: nat) {
    && |h| > 0 && h[0] == MAX_LEVEL
    && 1 <= level <= MAX_LEVEL
    && (forall k :: 1 <= k < |h| ==> 1 <= h[k] <= level)
  }

  /** `level` is in use by some node, or is 1. */
  ghost predicate LevelIsTight(h: seq<nat>, level: nat) {
    level == 1 || exists k :: 1 <= k < |h| && h[k] == level
  }

  ghost predicate BackLinked(ns: seq<Node>)
    reads ns
  {
    forall k {:trigger ns[k].backward} :: 1 <= k < |ns| ==> ns[k].backward == if k == 1 then null else ns[k - 1]
  }

  /** What splicing in x after index p makes of the link at level i of tower k <= p. */
  function Redirect(h: seq<nat>, link: Level, level: nat, p: nat, v: nat, x: Node, k: nat, i: nat): Level
    requires k <= p < |h| && h[0] > i
  {
    if i < level && k == Last(h, p, i)
    then if i < v then Level(x, p - k + 1) else Level(link.forward, link.span + 1)
    else link
  }

  /** The links after a node of height v has been spliced in after index p. */
  ghost predicate Spliced(h: seq<nat>, t: seq<seq<Level>>, level: nat, p: nat, v: nat, x: Node, t': seq<seq<Level>>)
    requires |t| == |h| && p < |h| && h[0] == MAX_LEVEL && v <= level <= MAX_LEVEL
    requires forall k :: 0 <= k < |h| ==> h[k] <= MAX_LEVEL && |t[k]| == h[k]
  {
    && |t'| == |h| + 1
    && (forall k :: 0 <= k <= p ==> |t'[k]| == h[k])
    && (forall k, i :: 0 <= k <= p && 0 <= i < h[k] ==> t'[k][i] == Redirect(h, t[k][i], level, p, v, x, k, i))
    && |t'[p + 1]| == v
    && (forall i :: 0 <= i < v ==> t'[p + 1][i] == LinkOver(h, t, p, i))
    && (forall k :: p + 1 < k <= |h| ==> t'[k] == t[k - 1])
  }

  /** The link at level i of a node spliced in after index p: the rest of its predecessor's link. */
  function LinkOver(h: seq<nat>, t: seq<seq<Level>>, p: nat, i: nat): Level
    requires |t| == |h| && p < |h| && h[0] > i
    requires forall k :: 0 <= k < |h| ==> |t[k]| == h[k]
  {
    var k := Last(h, p, i);
    Level(t[k][i].forward, t[k][i].span - (p - k))
  }

  lemma SplicedIsLinked(ns: seq<Node>, h: seq<nat>, t: seq<seq<Level>>, level: nat,
                        p: nat, v: nat, x: Node, t': seq<seq<Level>>)
    requires Linked(ns, h, t, level) && HeightsOk(h, level)
    requires p < |h| && 1 <= v <= level
    requires Spliced(h, t, level, p, v, x, t')
    ensures Linked(PutAfter(ns, p, x), PutAfter(h, p, v), t', level)
  {
    var g := PutAfter(h, p, v);
    var ns' := PutAfter(ns, p, x);
    forall k, i | 0 <= k < |g| && 0 <= i < g[k]
      ensures LinkOk(ns', g, t'[k][i], level, k, i)
    {
      SplicedLink(ns, h, t, level, p, v, x, t', k, i);
    }
  }

  lemma SplicedLink(ns: seq<Node>, h: seq<nat>, t: seq<seq<Level>>, level: nat,
                    p: nat, v: nat, x: Node, t': seq<seq<Level>>, k: nat, i: nat)
    requires Linked(ns, h, t, level) && HeightsOk(h, level)
    requires p < |h| && 1 <= v <= level
    requires Spliced(h, t, level, p, v, x, t')
    requires k <= |h| && i < |t'[k]|
    ensures LinkOk(PutAfter(ns, p, x), PutAfter(h, p, v), t'[k][i], level, k, i)
  {
    hide LinkOk, Redirect, Last;
    if k <= p {
      LinkBefore(ns, h, t[k][i], level, p, v, x, k, i);
    } else if k == p + 1 {
      var l := Last(h, p, i);
      LinkOfNew(ns, h, t[l][i], level, p, v, x, i);
      assert t'[p + 1][i] == LinkOver(h, t, p, i);
    } else {
      LinkAfter(ns, h, t[k - 1][i], level, p, v, x, k - 1, i);
    }
  }

  lemma LinkBefore(ns: seq<Node>, h: seq<nat>, link: Level, level: nat, p: nat, v: nat, x: Node, k: nat, i: nat)
    requires |ns| == |h| && k <= p < |h| && h[0] > i && h[k] > i && v <= level
    requires LinkOk(ns, h, link, level, k, i)
    ensures LinkOk(PutAfter(ns, p, x), PutAfter(h, p, v), Redirect(h, link, level, p, v, x, k, i), level, k, i)
  {
    PutNext(h, p, v, k, i);
    CrossesIffLast(h, p, i, k);
  }

  lemma LinkAfter(ns: seq<Node>, h: seq<nat>, link: Level, level: nat, p: nat, v: nat, x: Node, k: nat, i: nat)
    requires |ns| == |h| && p < k < |h|
    requires LinkOk(ns, h, link, level, k, i)
    ensures LinkOk(PutAfter(ns, p, x), PutAfter(h, p, v), link, level, k + 1, i)
  {
    PutNext(h, p, v, k, i);
  }

  lemma LinkOfNew(ns: seq<Node>, h: seq<nat>, link: Level, level: nat, p: nat, v: nat, x: Node, i: nat)
    requires |ns| == |h| && p < |h| && h[0] > i
    requires LinkOk(ns, h, link, level, Last(h, p, i), i)
    ensures LinkOk(PutAfter(ns, p, x), PutAfter(h, p, v),
                   Level(link.forward, link.span - (p - Last(h, p, i))), level, p + 1, i)
  {
    PutNextOfNew(h, p, v, i);
    CrossesIffLast(h, p, i, Last(h, p, i));
  }

  /** What unlinking the node x of height v after index p makes of the link at level i of tower k <= p. */
  function Bypass(h: seq<nat>, link: Level, over: Level, level: nat, p: nat, v: nat, k: nat, i: nat): Level
    requires k <= p < |h| && h[0] > i
  {
    if i < level && k == Last(h, p, i)
    then if i < v then Level(over.forward, link.span + over.span - 1) else Level(link.forward, link.span - 1)
    else link
  }

  lemma BypassBefore(ns: seq<Node>, h: seq<nat>, link: Level, over: Level, level: nat,
                     p: nat, v: nat, x: Node, k: nat, i: nat)
    requires |ns| == |h| && k <= p < |h| && h[0] > i && h[k] > i && v <= level
    requires LinkOk(PutAfter(ns, p, x), PutAfter(h, p, v), link, level, k, i)
    requires i < v ==> LinkOk(PutAfter(ns, p, x), PutAfter(h, p, v), over, level, p + 1, i)
    ensures LinkOk(ns, h, Bypass(h, link, over, level, p, v, k, i), level, k, i)
  {
    PutNext(h, p, v, k, i);
    CrossesIffLast(h, p, i, k);
    if i < v {
      PutNextOfNew(h, p, v, i);
    }
  }

  lemma BypassAfter(ns: seq<Node>, h: seq<nat>, link: Level, level: nat, p: nat, v: nat, x: Node, k: nat, i: nat)
    requires |ns| == |h| && p < k < |h|
    requires LinkOk(PutAfter(ns, p, x), PutAfter(h, p, v), link, level, k + 1, i)
    ensures LinkOk(ns, h, link, level, k, i)
  {
    PutNext(h, p, v, k, i);
  }

  ghost predicate SameShape(h: seq<nat>, t: seq<seq<Level>>) {
    |t| == |h| && forall k {:trigger t[k]} :: 0 <= k < |h| ==> |t[k]| == h[k]
  }

  /** `rank` names, for each level in use, a tower that has the level. */
  ghost predicate RanksOk(h: seq<nat>, rank: seq<int>) {
    forall i {:trigger rank[i]} :: 0 <= i < |rank| ==> 0 <= rank[i] < |h| && i < h[rank[i]]
  }

  /** The links after one assignment. */
  ghost function Relink(t: seq<seq<Level>>, k: int, i: nat, link: Level): seq<seq<Level>>
    requires 0 <= k < |t| && i < |t[k]|
  {
    t[k := t[k][i := link]]
  }

  /** The link that Insert's loops leave at level i of the predecessor there. */
  ghost function NewLink(link: Level, rank: seq<int>, v: nat, x: Node, i: nat): Level
    requires i < |rank|
  {
    if i < v then Level(x, rank[0] - rank[i] + 1) else Level(link.forward, link.span + 1)
  }

  /** The links of the old nodes after Insert's loops have run for the levels below i. */
  ghost function Splicing(h: seq<nat>, t: seq<seq<Level>>, rank: seq<int>, v: nat, x: Node,
                          i: nat): (t': seq<seq<Level>>)
    requires SameShape(h, t) && i <= |rank|
    ensures SameShape(h, t')
  {
    seq(|t|, k requires 0 <= k < |t| =>
      seq(|t[k]|, j requires 0 <= j < |t[k]| =>
        if j < i && k == rank[j] then NewLink(t[k][j], rank, v, x, j) else t[k][j]))
  }

  lemma SplicingAt(h: seq<nat>, t: seq<seq<Level>>, rank: seq<int>, v: nat, x: Node, i: nat, k: nat, j: nat)
    requires SameShape(h, t) && i <= |rank| && k < |h| && j < h[k]
    ensures Splicing(h, t, rank, v, x, i)[k][j] ==
            if j < i && k == rank[j] then NewLink(t[k][j], rank, v, x, j) else t[k][j]
  {
  }

  lemma SplicingNothing(h: seq<nat>, t: seq<seq<Level>>, rank: seq<int>, v: nat, x: Node)
    requires SameShape(h, t)
    ensures Splicing(h, t, rank, v, x, 0) == t
  {
    forall k | 0 <= k < |t|
      ensures Splicing(h, t, rank, v, x, 0)[k] == t[k]
    {
    }
  }

  /** One round of Insert's loops. */
  lemma SplicingStep(h: seq<nat>, t: seq<seq<Level>>, rank: seq<int>, v: nat, x: Node, i: nat, now: seq<seq<Level>>)
    requires SameShape(h, t) && RanksOk(h, rank) && i < |rank| && now == Splicing(h, t, rank, v, x, i)
    ensures SameShape(h, now) && now[rank[i]][i] == t[rank[i]][i]
    ensures Relink(now, rank[i], i, NewLink(t[rank[i]][i], rank, v, x, i)) == Splicing(h, t, rank, v, x, i + 1)
  {
    var next := Relink(now, rank[i], i, NewLink(t[rank[i]][i], rank, v, x, i));
    forall k | 0 <= k < |h|
      ensures next[k] == Splicing(h, t, rank, v, x, i + 1)[k]
    {
      forall j | 0 <= j < h[k]
        ensures next[k][j] == Splicing(h, t, rank, v, x, i + 1)[k][j]
      {
        SplicingAt(h, t, rank, v, x, i, k, j);
        SplicingAt(h, t, rank, v, x, i + 1, k, j);
      }
    }
  }

  /** From `now` to `next`, Insert's loops change the level-i link of the predecessor there. */
  ghost predicate SplicingRound(h: seq<nat>, t: seq<seq<Level>>, rank: seq<int>, v: nat, x: Node, i: nat,
                                now: seq<seq<Level>>, next: seq<seq<Level>>)
    requires SameShape(h, t) && RanksOk(h, rank) && i < |rank|
  {
    && SameShape(h, now) && now[rank[i]][i] == t[rank[i]][i]
    && next == Relink(now, rank[i], i, NewLink(now[rank[i]][i], rank, v, x, i))
  }

  /** The tables between the rounds of Insert's loops. */
  ghost predicate SplicingRun(run: seq<seq<seq<Level>>>, h: seq<nat>, t: seq<seq<Level>>, rank: seq<int>, v: nat,
                              x: Node)
    requires SameShape(h, t) && RanksOk(h, rank)
  {
    && |run| == |rank| + 1 && run[0] == t
    && forall i {:trigger SplicingRound(h, t, rank, v, x, i, run[i], run[i + 1])} ::
         0 <= i < |rank| ==> SplicingRound(h, t, rank, v, x, i, run[i], run[i + 1])
  }

  lemma RoundOfRun(run: seq<seq<seq<Level>>>, h: seq<nat>, t: seq<seq<Level>>, rank: seq<int>, v: nat, x: Node, i: nat)
    requires SameShape(h, t) && RanksOk(h, rank) && SplicingRun(run, h, t, rank, v, x) && i < |rank|
    ensures |run| == |rank| + 1 && SplicingRound(h, t, rank, v, x, i, run[i], run[i + 1])
  {
  }

  lemma SplicingRuns(h: seq<nat>, t: seq<seq<Level>>, rank: seq<int>, v: nat, x: Node)
    returns (run: seq<seq<seq<Level>>>)
    requires SameShape(h, t) && RanksOk(h, rank)
    ensures SplicingRun(run, h, t, rank, v, x) && run[|rank|] == Splicing(h, t, rank, v, x, |rank|)
  {
    run := seq(|rank| + 1, i requires 0 <= i <= |rank| => Splicing(h, t, rank, v, x, i));
    SplicingNothing(h, t, rank, v, x);
    forall i {:trigger SplicingRound(h, t, rank, v, x, i, run[i], run[i + 1])} | 0 <= i < |rank|
      ensures SplicingRound(h, t, rank, v, x, i, run[i], run[i + 1])
    {
      SplicingStep(h, t, rank, v, x, i, run[i]);
    }
  }

  /** The level-i link of the node spliced in, from its predecessor's. */
  ghost function OverLink(h: seq<nat>, t: seq<seq<Level>>, rank: seq<int>, i: nat): Level
    requires SameShape(h, t) && RanksOk(h, rank) && i < |rank|
  {
    var link := t[rank[i]][i];
    Level(link.forward, link.span - (rank[0] - rank[i]))
  }

  /** `rank` holds, for the levels from i up, the rank of the predecessor of rank p. */
  ghost predicate RanksLast(h: seq<nat>, rank: seq<int>, p: nat, i: nat)
    requires p < |h| && h[0] == MAX_LEVEL && |rank| <= MAX_LEVEL
  {
    forall j {:trigger rank[j]} :: i <= j < |rank| ==> rank[j] == Last(h, p, j)
  }

  /** With the ranks of the predecessors, Insert's loops do splice x in. */
  lemma SplicingIsSpliced(h: seq<nat>, t: seq<seq<Level>>, rank: seq<int>, level: nat,
                          p: nat, v: nat, x: Node, links: seq<Level>)
    requires SameShape(h, t) && HeightsOk(h, level) && p < |h| && 1 <= v <= level == |rank|
    requires RanksOk(h, rank) && RanksLast(h, rank, p, 0)
    requires |links| == v && forall i :: 0 <= i < v ==> links[i] == OverLink(h, t, rank, i)
    ensures Spliced(h, t, level, p, v, x, PutAfter(Splicing(h, t, rank, v, x, level), p, links))
  {
    var u := Splicing(h, t, rank, v, x, level);
    var t' := PutAfter(u, p, links);
    CrossesIffLast(h, p, 0, p);
    forall k, i | 0 <= k <= p && 0 <= i < h[k]
      ensures t'[k][i] == Redirect(h, t[k][i], level, p, v, x, k, i)
    {
      SplicingAt(h, t, rank, v, x, level, k, i);
      CrossesIffLast(h, p, i, k);
    }
    forall k | p + 1 < k <= |h|
      ensures t'[k] == t[k - 1]
    {
      SplicingAfter(h, t, rank, p, v, x, level, k - 1);
    }
    forall i | 0 <= i < v
      ensures t'[p + 1][i] == LinkOver(h, t, p, i)
    {
      assert links[i] == OverLink(h, t, rank, i);
    }
  }

  lemma SplicingAfter(h: seq<nat>, t: seq<seq<Level>>, rank: seq<int>, p: nat, v: nat, x: Node, i: nat, k: nat)
    requires SameShape(h, t) && RanksOk(h, rank) && i <= |rank| && p < k < |h|
    requires forall j :: 0 <= j < |rank| ==> rank[j] <= p
    ensures Splicing(h, t, rank, v, x, i)[k] == t[k]
  {
    forall j | 0 <= j < h[k]
      ensures Splicing(h, t, rank, v, x, i)[k][j] == t[k][j]
    {
      SplicingAt(h, t, rank, v, x, i, k, j);
    }
  }

  /** With the ranks of the predecessors, Insert's loops leave all nodes, x among them, linked. */
  lemma SplicingIsLinked(ns: seq<Node>, h: seq<nat>, t: seq<seq<Level>>, rank: seq<int>, level: nat,
                         p: nat, x: Node, links: seq<Level>)
    requires Linked(ns, h, t, level) && HeightsOk(h, level) && p < |h| && 1 <= |links| <= level == |rank|
    requires RanksOk(h, rank) && RanksLast(h, rank, p, 0)
    requires forall i :: 0 <= i < |links| ==> links[i] == OverLink(h, t, rank, i)
    ensures var t' := PutAfter(Splicing(h, t, rank, |links|, x, level), p, links);
            Linked(PutAfter(ns, p, x), PutAfter(h, p, |links|), t', level)
  {
    var t' := PutAfter(Splicing(h, t, rank, |links|, x, level), p, links);
    SplicingIsSpliced(h, t, rank, level, p, |links|, x, links);
    SplicedIsLinked(ns, h, t, level, p, |links|, x, t');
  }

  lemma SplicedGround(ns: seq<Node>, h: seq<nat>, u: seq<seq<Level>>, level: nat, p: nat, x: Node, links: seq<Level>)
    requires |ns| == |h| == |u| && p < |h| && HeightsOk(h, level) && |links| > 0
    requires Linked(PutAfter(ns, p, x), PutAfter(h, p, |links|), PutAfter(u, p, links), level)
    ensures links[0].forward == if p + 1 < |ns| then ns[p + 1] else null
  {
    GroundLink(PutAfter(ns, p, x), PutAfter(h, p, |links|), PutAfter(u, p, links), level, p + 1);
  }

  lemma GroundLink(ns: seq<Node>, h: seq<nat>, t: seq<seq<Level>>, level: nat, k: nat)
    requires Linked(ns, h, t, level) && k < |ns| && h[k] > 0 && (k + 1 < |h| ==> h[k + 1] >= 1)
    ensures t[k][0].forward == if k + 1 < |ns| then ns[k + 1] else null
  {
    NextAtGround(h, k);
    assert LinkOk(ns, h, t[k][0], level, k, 0);
  }

  lemma TableOfPut(ns: seq<Node>, p: nat, x: Node)
    requires p < |ns|
    ensures Table(PutAfter(ns, p, x)) == PutAfter(Table(ns), p, x.levels)
  {
  }

  /** A level not yet in use holds one nil link, from the header over the whole list. */
  lemma RaisedIsLinked(ns: seq<Node>, h: seq<nat>, t: seq<seq<Level>>, level: nat, v: nat, t': seq<seq<Level>>)
    requires Linked(ns, h, t, level) && HeightsOk(h, level) && level <= v <= MAX_LEVEL
    requires |t'| == |t| && |t'[0]| == MAX_LEVEL
    requires forall k :: 1 <= k < |t| ==> t'[k] == t[k]
    requires forall j :: 0 <= j < MAX_LEVEL ==>
               t'[0][j] == if level <= j < v then Level(t[0][j].forward, |h| - 1) else t[0][j]
    ensures Linked(ns, h, t', v) && HeightsOk(h, v)
  {
    forall k, j | 0 <= k < |h| && 0 <= j < h[k]
      ensures LinkOk(ns, h, t'[k][j], v, k, j)
    {
      assert LinkOk(ns, h, t[k][j], level, k, j);
      if k == 0 && level <= j {
        assert Next(h, k, j) == |h|;
      }
    }
  }

  lemma DistinctPut(ns: seq<Node>, p: nat, x: Node)
    requires Distinct(ns) && p < |ns| && x !in ns
    ensures Distinct(PutAfter(ns, p, x))
  {
    var ns' := PutAfter(ns, p, x);
    forall i, j | 0 <= i < j < |ns'|
      ensures Differ(ns'[i], ns'[j])
    {
      var k := if i <= p then i else i - 1;
      var l := if j <= p then j else j - 1;
      if i != p + 1 && j != p + 1 {
        assert Differ(ns[k], ns[l]);
      }
    }
  }

  lemma HeightsPut(h: seq<nat>, level: nat, p: nat, v: nat)
    requires HeightsOk(h, level) && p < |h| && 1 <= v <= level
    requires LevelIsTight(h, level) || v == level
    ensures HeightsOk(PutAfter(h, p, v), level) && LevelIsTight(PutAfter(h, p, v), level)
  {
    var g := PutAfter(h, p, v);
    if v == level {
      assert g[p + 1] == level;
    } else if level > 1 {
      var k :| 1 <= k < |h| && h[k] == level;
      assert g[if k <= p then k else k + 1] == level;
    }
  }

  lemma HeightsDrop(h: seq<nat>, level: nat, p: nat)
    requires HeightsOk(h, level) && p + 1 < |h|
    ensures HeightsOk(DropAfter(h, p), level)
  {
  }

  lemma PairsOfPut(ns: seq<Node>, p: nat, x: Node)
    requires p < |ns|
    ensures var s := PairsOf(ns[1..]);
            PairsOf(PutAfter(ns, p, x)[1..]) == s[..p] + [PairOf(x)] + s[p..]
  {
  }

  lemma PutAddsOne(ns: seq<Node>, p: nat, x: Node)
    requires p < |ns|
    ensures (set n: object | n in PutAfter(ns, p, x)) == (set n: object | n in ns) + {x}
  {
    assert PutAfter(ns, p, x)[p + 1] == x;
    assert ns == ns[..p + 1] + ns[p + 1..];
  }

  /** What Delete's loop leaves at level i of the predecessor there; x has the links `over`. */
  ghost function CutLink(link: Level, over: seq<Level>, x: Node, i: nat): Level {
    if link.forward == x && i < |over|
    then Level(over[i].forward, link.span + over[i].span - 1)
    else Level(link.forward, link.span - 1)
  }

  /** The links after Delete's loop has run for the levels below i. */
  ghost function Cutting(h: seq<nat>, t: seq<seq<Level>>, rank: seq<int>, over: seq<Level>, x: Node,
                         i: nat): (t': seq<seq<Level>>)
    requires SameShape(h, t) && i <= |rank|
    ensures SameShape(h, t')
  {
    seq(|t|, k requires 0 <= k < |t| =>
      seq(|t[k]|, j requires 0 <= j < |t[k]| =>
        if j < i && k == rank[j] then CutLink(t[k][j], over, x, j) else t[k][j]))
  }

  lemma CuttingAt(h: seq<nat>, t: seq<seq<Level>>, rank: seq<int>, over: seq<Level>, x: Node, i: nat, k: nat, j: nat)
    requires SameShape(h, t) && i <= |rank| && k < |h| && j < h[k]
    ensures Cutting(h, t, rank, over, x, i)[k][j] ==
            if j < i && k == rank[j] then CutLink(t[k][j], over, x, j) else t[k][j]
  {
  }

  /** Delete's loop may run: no predecessor is x, of rank q, and x has the levels at which it is linked to. */
  ghost predicate CutSafe(h: seq<nat>, t: seq<seq<Level>>, rank: seq<int>, x: Node, q: nat)
    requires SameShape(h, t) && RanksOk(h, rank) && q < |h|
  {
    forall i {:trigger CutSafeAt(h, t, rank, x, q, i)} :: 0 <= i < |rank| ==> CutSafeAt(h, t, rank, x, q, i)
  }

  ghost predicate CutSafeAt(h: seq<nat>, t: seq<seq<Level>>, rank: seq<int>, x: Node, q: nat, i: nat)
    requires SameShape(h, t) && RanksOk(h, rank) && q < |h| && i < |rank|
  {
    rank[i] != q && (t[rank[i]][i].forward == x ==> i < h[q])
  }

  lemma CuttingElsewhere(h: seq<nat>, t: seq<seq<Level>>, rank: seq<int>, over: seq<Level>, x: Node, i: nat, q: nat)
    requires SameShape(h, t) && RanksOk(h, rank) && i <= |rank| && q < |h| && CutSafe(h, t, rank, x, q)
    ensures Cutting(h, t, rank, over, x, i)[q] == t[q]
  {
    forall j | 0 <= j < h[q]
      ensures Cutting(h, t, rank, over, x, i)[q][j] == t[q][j]
    {
      CuttingAt(h, t, rank, over, x, i, q, j);
      assert j < |rank| ==> CutSafeAt(h, t, rank, x, q, j);
    }
  }

  lemma CuttingNothing(h: seq<nat>, t: seq<seq<Level>>, rank: seq<int>, over: seq<Level>, x: Node)
    requires SameShape(h, t)
    ensures Cutting(h, t, rank, over, x, 0) == t
  {
    forall k | 0 <= k < |t|
      ensures Cutting(h, t, rank, over, x, 0)[k] == t[k]
    {
    }
  }

  /** One round of Delete's loop. */
  lemma CuttingStep(h: seq<nat>, t: seq<seq<Level>>, rank: seq<int>, over: seq<Level>, x: Node,
                    i: nat, q: nat, now: seq<seq<Level>>)
    requires SameShape(h, t) && RanksOk(h, rank) && i < |rank| && q < |h| && CutSafe(h, t, rank, x, q)
    requires now == Cutting(h, t, rank, over, x, i) && over == t[q]
    ensures SameShape(h, now) && now[rank[i]][i] == t[rank[i]][i] && now[q] == over
    ensures now[rank[i]][i].forward == x ==> i < |over|
    ensures Relink(now, rank[i], i, CutLink(now[rank[i]][i], over, x, i)) == Cutting(h, t, rank, over, x, i + 1)
    ensures rank[i] != q
  {
    CuttingAt(h, t, rank, over, x, i, rank[i], i);
    CuttingElsewhere(h, t, rank, over, x, i, q);
    assert CutSafeAt(h, t, rank, x, q, i);
    var next := Relink(now, rank[i], i, CutLink(now[rank[i]][i], over, x, i));
    forall k | 0 <= k < |h|
      ensures next[k] == Cutting(h, t, rank, over, x, i + 1)[k]
    {
      forall j | 0 <= j < h[k]
        ensures next[k][j] == Cutting(h, t, rank, over, x, i + 1)[k][j]
      {
        CuttingAt(h, t, rank, over, x, i, k, j);
        CuttingAt(h, t, rank, over, x, i + 1, k, j);
      }
    }
  }

  /** From `now` to `next`, Delete's loop changes the level-i link of the predecessor there; the links of x stay. */
  ghost predicate CuttingRound(h: seq<nat>, rank: seq<int>, over: seq<Level>, x: Node, q: nat, i: nat,
                               now: seq<seq<Level>>, next: seq<seq<Level>>)
    requires RanksOk(h, rank) && i < |rank| && q < |h|
  {
    && SameShape(h, now) && rank[i] != q && now[q] == over && (now[rank[i]][i].forward == x ==> i < |over|)
    && next == Relink(now, rank[i], i, CutLink(now[rank[i]][i], over, x, i))
  }

  /** The tables between the rounds of Delete's loop. */
  ghost predicate CuttingRun(run: seq<seq<seq<Level>>>, h: seq<nat>, t: seq<seq<Level>>, rank: seq<int>,
                             over: seq<Level>, x: Node, q: nat)
    requires RanksOk(h, rank) && q < |h|
  {
    && |run| == |rank| + 1 && run[0] == t
    && forall i {:trigger CuttingRound(h, rank, over, x, q, i, run[i], run[i + 1])} ::
         0 <= i < |rank| ==> CuttingRound(h, rank, over, x, q, i, run[i], run[i + 1])
  }

  lemma CuttingRuns(h: seq<nat>, t: seq<seq<Level>>, rank: seq<int>, over: seq<Level>, x: Node, q: nat)
    returns (run: seq<seq<seq<Level>>>)
    requires SameShape(h, t) && RanksOk(h, rank) && q < |h| && CutSafe(h, t, rank, x, q) && over == t[q]
    ensures CuttingRun(run, h, t, rank, over, x, q) && run[|rank|] == Cutting(h, t, rank, over, x, |rank|)
  {
    run := seq(|rank| + 1, i requires 0 <= i <= |rank| => Cutting(h, t, rank, over, x, i));
    CuttingNothing(h, t, rank, over, x);
    forall i {:trigger CuttingRound(h, rank, over, x, q, i, run[i], run[i + 1])} | 0 <= i < |rank|
      ensures CuttingRound(h, rank, over, x, q, i, run[i], run[i + 1])
    {
      CuttingStep(h, t, rank, over, x, i, q, run[i]);
    }
  }

  /** Delete's loop, with the ranks of the predecessors, leaves the other nodes linked as if x had never been. */
  lemma CuttingIsLinked(ns: seq<Node>, h: seq<nat>, level: nat, p: nat, v: nat, x: Node,
                        t: seq<seq<Level>>, rank: seq<int>)
    requires |ns| == |h| && p < |h| && HeightsOk(h, level) && 1 <= v <= level == |rank|
    requires x !in ns
    requires Linked(PutAfter(ns, p, x), PutAfter(h, p, v), t, level)
    requires RanksOk(PutAfter(h, p, v), rank) && RanksLast(h, rank, p, 0)
    ensures Linked(ns, h, DropAfter(Cutting(PutAfter(h, p, v), t, rank, t[p + 1], x, level), p), level)
  {
    var g := PutAfter(h, p, v);
    var u := Cutting(g, t, rank, t[p + 1], x, level);
    var t' := DropAfter(u, p);
    forall k | 0 <= k < |h|
      ensures |t'[k]| == h[k]
    {
      assert |u[if k <= p then k else k + 1]| == h[k];
    }
    forall k, i | 0 <= k < |h| && 0 <= i < h[k]
      ensures LinkOk(ns, h, t'[k][i], level, k, i)
    {
      CutLinkOk(ns, h, level, p, v, x, t, rank, k, i);
    }
  }

  lemma CutLinkOk(ns: seq<Node>, h: seq<nat>, level: nat, p: nat, v: nat, x: Node,
                  t: seq<seq<Level>>, rank: seq<int>, k: nat, i: nat)
    requires |ns| == |h| && p < |h| && HeightsOk(h, level) && 1 <= v <= level == |rank|
    requires x !in ns
    requires Linked(PutAfter(ns, p, x), PutAfter(h, p, v), t, level)
    requires RanksOk(PutAfter(h, p, v), rank) && RanksLast(h, rank, p, 0)
    requires k < |h| && i < h[k]
    ensures var u := Cutting(PutAfter(h, p, v), t, rank, t[p + 1], x, level);
            LinkOk(ns, h, u[if k <= p then k else k + 1][i], level, k, i)
  {
    var g := PutAfter(h, p, v);
    var ns' := PutAfter(ns, p, x);
    var k' := if k <= p then k else k + 1;
    CuttingAt(g, t, rank, t[p + 1], x, level, k', i);
    var link := t[k'][i];
    assert LinkOk(ns', g, link, level, k', i);
    if k > p {
      BypassAfter(ns, h, link, level, p, v, x, k, i);
    } else {
      var over := if i < v then t[p + 1][i] else link;
      if i < v { assert LinkOk(ns', g, t[p + 1][i], level, p + 1, i); }
      BypassBefore(ns, h, link, over, level, p, v, x, k, i);
      PutNext(h, p, v, k, i);
      CrossesIffLast(h, p, i, k);
    }
  }

  lemma DistinctDrop(ns: seq<Node>, p: nat)
    requires Distinct(ns) && p + 1 < |ns|
    ensures Distinct(DropAfter(ns, p)) && ns[p + 1] !in DropAfter(ns, p)
  {
    var ns' := DropAfter(ns, p);
    forall i, j | 0 <= i < j < |ns'|
      ensures Differ(ns'[i], ns'[j])
    {
      assert Differ(ns[if i <= p then i else i + 1], ns[if j <= p then j else j + 1]);
    }
    forall i | 0 <= i < |ns'|
      ensures ns'[i] != ns[p + 1]
    {
      assert if i <= p then Differ(ns[i], ns[p + 1]) else Differ(ns[p + 1], ns[i + 1]);
    }
  }

  lemma PairsDrop(ns: seq<Node>, p: nat)
    requires p + 1 < |ns| && p == CountBefore(PairsOf(ns[1..]), PairOf(ns[p + 1]))
    requires Sorted(PairsOf(ns[1..]))
    ensures PairsOf(DropAfter(ns, p)[1..]) == RemovePair(PairsOf(ns[1..]), PairOf(ns[p + 1]))
    ensures Sorted(PairsOf(DropAfter(ns, p)[1..]))
  {
    var s := PairsOf(ns[1..]);
    assert s[p] == PairOf(ns[p + 1]);
    RemoveFromSorted(s, s[p]);
    assert PairsOf(DropAfter(ns, p)[1..]) == s[..p] + s[p + 1..];
  }

  /** A level that only the header has may be taken out of use. */
  lemma LoweredIsLinked(ns: seq<Node>, h: seq<nat>, t: seq<seq<Level>>, level: nat)
    requires Linked(ns, h, t, level) && HeightsOk(h, level) && level > 1
    requires t[0][level - 1].forward == null
    ensures Linked(ns, h, t, level - 1) && HeightsOk(h, level - 1)
  {
    assert LinkOk(ns, h, t[0][level - 1], level, 0, level - 1);
    NextSkips(h, 0, level - 1);
    forall k, i | 0 <= k < |h| && 0 <= i < h[k]
      ensures LinkOk(ns, h, t[k][i], level - 1, k, i)
    {
      assert LinkOk(ns, h, t[k][i], level, k, i);
    }
  }

  /** A level at which the header is linked to a node is in use. */
  lemma LinkedLevelIsTight(ns: seq<Node>, h: seq<nat>, t: seq<seq<Level>>, level: nat)
    requires Linked(ns, h, t, level) && HeightsOk(h, level)
    requires t[0][level - 1].forward != null
    ensures LevelIsTight(h, level)
  {
    assert LinkOk(ns, h, t[0][level - 1], level, 0, level - 1);
    assert h[Next(h, 0, level - 1)] == level;
  }

  lemma IsCutSafe(ns: seq<Node>, h: seq<nat>, t: seq<seq<Level>>, level: nat, rank: seq<int>, p: nat)
    requires Linked(ns, h, t, level) && HeightsOk(h, level) && Distinct(ns) && p + 1 < |ns|
    requires RanksOk(h, rank) && |rank| <= level && RanksLast(DropAfter(h, p), rank, p, 0)
    ensures CutSafe(h, t, rank, ns[p + 1], p + 1)
  {
    forall i {:trigger CutSafeAt(h, t, rank, ns[p + 1], p + 1, i)} | 0 <= i < |rank|
      ensures CutSafeAt(h, t, rank, ns[p + 1], p + 1, i)
    {
      var k := rank[i];
      var n := Next(h, k, i);
      assert LinkOk(ns, h, t[k][i], level, k, i);
      if n < p + 1 {
        assert Differ(ns[n], ns[p + 1]);
      } else if p + 1 < n < |ns| {
        assert Differ(ns[p + 1], ns[n]);
      }
    }
  }

  /** What removing the target means for the nodes, when it belongs at rank p + 1. */
  lemma RemovalAt(ns: seq<Node>, target: Pair, p: nat)
    requires |ns| > p == CountBefore(PairsOf(ns[1..]), target) && Sorted(PairsOf(ns[1..]))
    ensures target in PairsOf(ns[1..]) <==> p + 1 < |ns| && PairOf(ns[p + 1]) == target
    ensures var s := PairsOf(ns[1..]);
            if target in s
            then RemovePair(s, target) == PairsOf(DropAfter(ns, p)[1..]) && Sorted(PairsOf(DropAfter(ns, p)[1..]))
            else RemovePair(s, target) == s
    ensures target in PairsOf(ns[1..]) ==> (set n: object | n in DropAfter(ns, p)) <= (set n: object | n in ns)
  {
    CountBeforeSplits(PairsOf(ns[1..]), target);
    if target in PairsOf(ns[1..]) {
      PairsDrop(ns, p);
    } else {
      RemoveAbsent(PairsOf(ns[1..]), target);
    }
  }

  /** Delete's loop: it may run, leaves x as it was, and takes x out of every chain. */
  lemma CutIsLinked(ns: seq<Node>, h: seq<nat>, t: seq<seq<Level>>, level: nat, rank: seq<int>, p: nat)
    requires Linked(ns, h, t, level) && HeightsOk(h, level) && Distinct(ns) && p + 1 < |ns|
    requires RanksOk(h, rank) && |rank| == level && RanksLast(DropAfter(h, p), rank, p, 0)
    ensures CutSafe(h, t, rank, ns[p + 1], p + 1)
    ensures var u := Cutting(h, t, rank, t[p + 1], ns[p + 1], level);
            u[p + 1] == t[p + 1] && Linked(DropAfter(ns, p), DropAfter(h, p), DropAfter(u, p), level)
    ensures |t[p + 1]| > 0 && t[p + 1][0].forward == if p + 2 < |ns| then ns[p + 2] else null
  {
    hide CutSafe, Cutting, RanksLast, RanksOk;
    var x := ns[p + 1];
    IsCutSafe(ns, h, t, level, rank, p);
    CuttingElsewhere(h, t, rank, t[p + 1], x, level, p + 1);
    NextAtGround(h, p + 1);
    assert LinkOk(ns, h, t[p + 1][0], level, p + 1, 0);
    DistinctDrop(ns, p);
    PutDropped(ns, p);
    PutDropped(h, p);
    CuttingIsLinked(DropAfter(ns, p), DropAfter(h, p), level, p, h[p + 1], x, t, rank);
  }

  lemma TableOfDrop(ns: seq<Node>, p: nat)
    requires p + 1 < |ns|
    ensures Table(DropAfter(ns, p)) == DropAfter(Table(ns), p)
  {
  }

  /** Of s, the elements from position a up to, not including, position b have been collected. */
  ghost predicate Collected<T>(result: seq<T>, s: seq<T>, a: nat, b: int) {
    a <= b <= |s| && result == s[a..b]
  }

  lemma CollectOneMore<T>(result: seq<T>, s: seq<T>, a: nat, b: nat)
    requires Collected(result, s, a, b) && b < |s|
    ensures Collected(result + [s[b]], s, a, b + 1)
  {
    assert s[a..b + 1] == s[a..b] + [s[b]];
  }

  class Skiplist {
    const header: Node
    var tail: Node?
    var length: int
    var level: nat

    ghost var nodes: seq<Node>    // the header, then the nodes of level 0 in order
    ghost var heights: seq<nat>   // the number of levels of each

    /** Nodes, heights and links agree, for some level that every tower respects. */
    ghost predicate Wired()
      reads this, nodes
    {
      && |nodes| == |heights| > 0 && nodes[0] == header && header.member == ""
      && Distinct(nodes)
      && HeightsOk(heights, level)
      && Linked(nodes, heights, Table(nodes), level)
      && BackLinked(nodes)
    }

    ghost predicate Ended()
      reads this
    {
      length == |nodes| - 1 && tail == (if |nodes| > 1 then nodes[|nodes| - 1] else null)
    }

    /** All of the invariant but the order of the pairs. */
    ghost predicate Built()
      reads this, nodes
    {
      && Wired()
      && LevelIsTight(heights, level)
      && Ended()
    }

    ghost predicate Valid()
      reads this, nodes
    {
      Built() && Sorted(PairsOf(nodes[1..]))
    }

    /** The invariant of a list that may hold the same pair more than once. */
    ghost predicate InOrder()
      reads this, nodes
    {
      Built() && Ordered(PairsOf(nodes[1..]))
    }

    lemma ValidIsInOrder()
      requires Valid()
      ensures InOrder()
    {
      SortedIsOrdered(PairsOf(nodes[1..]));
    }

    /** The pairs held, in order. */
    ghost function Contents(): seq<Pair>
      reads this
      requires |nodes| > 0
    {
      PairsOf(nodes[1..])
    }

    ghost function Repr(): set<object>
      reads this
    {
      {this} + (set n: object | n in nodes)
    }

    constructor ()
      ensures Valid() && Contents() == [] && fresh(Repr()) && heights == [MAX_LEVEL]
    {
      header := new Node(MAX_LEVEL, HEADER_SCORE, "");
      tail := null;
      length := 0;
      level := 1;
      new;
      nodes := [header];
      heights := [MAX_LEVEL];
      assert Table(nodes)[0] == header.levels;
    }

    method RandomLevel() returns (level: nat)
      ensures 1 <= level <= MAX_LEVEL
    {
      level := 1;
      var more: bool := *;
      while level < MAX_LEVEL && more
        invariant 1 <= level <= MAX_LEVEL
      {
        level := level + 1;
        more := *;
      }
    }

    lemma LinkAt(k: nat, i: nat)
      requires Wired() && k < |nodes| && i < heights[k]
      ensures |nodes[k].levels| == heights[k]
      ensures LinkOk(nodes, heights, nodes[k].levels[i], level, k, i)
    {
      assert Table(nodes)[k] == nodes[k].levels;
    }

    /** The nodes that pass the test are those up to rank p. */
    ghost predicate SplitsAt(test: Pair -> bool, p: nat)
      reads this
    {
      && p < |nodes|
      && forall k {:trigger test(PairOf(nodes[k]))} :: 1 <= k < |nodes| ==> (test(PairOf(nodes[k])) <==> k <= p)
    }

    lemma BeforeSplits(target: Pair)
      requires InOrder()
      ensures SplitsAt(Earlier(target), CountBefore(Contents(), target))
    {
      OrderedSplits(Contents(), target);
      forall k | 1 <= k < |nodes|
        ensures Earlier(target)(PairOf(nodes[k])) <==> k <= CountBefore(Contents(), target)
      {
        assert Contents()[k - 1] == PairOf(nodes[k]);
      }
    }

    /** For the levels from i up, `update` and `rank` hold the last node up to rank p and its rank. */
    ghost predicate Predecessors(update: seq<Node>, rank: seq<int>, i: nat, p: nat)
      reads this
      requires |nodes| == |heights| && p < |nodes| && heights[0] == MAX_LEVEL
    {
      && |update| == |rank| <= MAX_LEVEL
      && RanksLast(heights, rank, p, i)
      && forall j {:trigger update[j]} :: i <= j < |rank| ==> 0 <= rank[j] < |nodes| && update[j] == nodes[rank[j]]
    }

    /** The search of Insert and Delete: at each level in use, the last node that passes the test, and its rank. */
    method FindPredecessors(test: Pair -> bool, ghost p: nat) returns (update: seq<Node>, rank: seq<int>)
      requires Wired() && SplitsAt(test, p)
      ensures |update| == level && Predecessors(update, rank, 0, p)
    {
      update := seq(level, _ => header);
      rank := seq(level, _ => 0);
      var x := header;
      var i := level;
      while i > 0
        invariant 0 <= i <= level
        invariant |update| == level
        invariant x == if i < level then update[i] else header
        invariant Predecessors(update, rank, i, p)
      {
        i := i - 1;
        var r := if i == level - 1 then 0 else rank[i + 1];
        r, x := Descend(x, r, i, test, p);
        update := update[i := x];
        rank := rank[i := r];
      }
    }

    /** The inner loop of every search: along level i for as long as the next pair passes the test. */
    method Descend(x0: Node, r0: nat, i: nat, test: Pair -> bool, ghost p: nat) returns (r: nat, x: Node)
      requires Wired() && SplitsAt(test, p) && i < level
      requires r0 <= p && x0 == nodes[r0] && heights[r0] > i
      ensures r0 <= r == Last(heights, p, i) && x == nodes[r]
    {
      r, x := r0, x0;
      LinkAt(r, i);
      while x.levels[i].forward != null && test(PairOf(x.levels[i].forward))
        invariant r0 <= r <= p && x == nodes[r] && heights[r] > i
        invariant |x.levels| > i && LinkOk(nodes, heights, x.levels[i], level, r, i)
        decreases |nodes| - r
      {
        r := r + x.levels[i].span;
        x := x.levels[i].forward;
        LinkAt(r, i);
      }
      CrossesIffLast(heights, p, i, r);
    }

    /** The loop over the levels not yet in use. */
    method OpenLevels(v: nat, update: seq<Node>, rank: seq<int>, ghost p: nat)
      returns (update': seq<Node>, rank': seq<int>)
      requires p < |nodes| == |heights| && nodes[0] == header && HeightsOk(heights, level) &&
              |header.levels| == MAX_LEVEL
      requires level < v <= MAX_LEVEL && |update| == level && Predecessors(update, rank, 0, p)
      modifies header`levels
      ensures |update'| == v && Predecessors(update', rank', 0, p)
      ensures |header.levels| == MAX_LEVEL
      ensures forall j :: 0 <= j < MAX_LEVEL ==>
                header.levels[j] ==
                if level <= j < v then Level(old(header.levels)[j].forward, length) else old(header.levels)[j]
    {
      update', rank' := update, rank;
      var i := level;
      while i < v
        invariant level <= i <= v && |header.levels| == MAX_LEVEL
        invariant forall j :: 0 <= j < MAX_LEVEL ==>
                    header.levels[j] ==
                    if level <= j < i then Level(old(header.levels)[j].forward, length) else old(header.levels)[j]
        invariant |update'| == i && Predecessors(update', rank', 0, p)
      {
        HeaderIsLast(heights, p, i);
        rank' := rank' + [0];
        update' := update' + [header];
        header.levels := header.levels[i := header.levels[i].(span := length)];
        i := i + 1;
      }
    }

    /** Insert's second step: levels not yet in use start from the header with spans over the whole list. */
    method RaiseLevel(v: nat, update: seq<Node>, rank: seq<int>, ghost p: nat)
      returns (update': seq<Node>, rank': seq<int>)
      requires Wired() && length == |nodes| - 1 && level < v <= MAX_LEVEL && p < |nodes|
      requires |update| == level && Predecessors(update, rank, 0, p)
      modifies `level, header`levels
      ensures Wired() && level == v
      ensures |update'| == level && Predecessors(update', rank', 0, p)
    {
      ghost var before: seq<seq<Level>> := Table(nodes);
      assert before[0] == header.levels;
      update', rank' := OpenLevels(v, update, rank, p);
      ghost var after: seq<seq<Level>> := Table(nodes);
      assert forall k :: 1 <= k < |nodes| ==> after[k] == before[k];
      RaisedIsLinked(nodes, heights, before, level, v, after);
      level := v;
      assert Table(nodes) == after;
      assert BackLinked(nodes);
    }

    /** `update` and `rank` name, for each level in use, a node that has the level. */
    ghost predicate Aimed(update: seq<Node>, rank: seq<int>)
      reads this
    {
      && |nodes| == |heights| && Distinct(nodes)
      && RanksOk(heights, rank) && |update| == |rank| == level
      && forall i {:trigger update[i]} :: 0 <= i < |rank| ==> update[i] == nodes[rank[i]]
    }

    /** One assignment to a link of a predecessor, with what it means for the links of all nodes. */
    method SetLink(update: seq<Node>, rank: seq<int>, i: nat, link: Level)
      requires Aimed(update, rank) && i < level && i < |update[i].levels|
      modifies nodes`levels
      ensures Table(nodes) == old(Relink(Table(nodes), rank[i], i, link))
    {
      var n, k := update[i], rank[i];
      n.levels := n.levels[i := link];
      forall m | 0 <= m < |nodes| && m != k
        ensures nodes[m].levels == old(nodes[m].levels)
      {
        if m < k {
          assert Differ(nodes[m], nodes[k]);
        } else {
          assert Differ(nodes[k], nodes[m]);
        }
      }
    }

    /** Splice x in at one of its levels. */
    method LinkLevel(x: Node, update: seq<Node>, rank: seq<int>, i: nat)
      requires Aimed(update, rank) && x !in nodes && i < |x.levels| && i < level
      requires SameShape(heights, Table(nodes))
      modifies x`levels, nodes`levels
      ensures x.levels == old(x.levels)[i := OverLink(heights, old(Table(nodes)), rank, i)]
      ensures Table(nodes) == old(Relink(Table(nodes), rank[i], i, Level(x, rank[0] - rank[i] + 1)))
    {
      ghost var now: seq<seq<Level>> := Table(nodes);
      var link := update[i].levels[i];
      assert link == now[rank[i]][i];
      x.levels := x.levels[i := Level(link.forward, link.span - (rank[0] - rank[i]))];
      assert Table(nodes) == now;
      SetLink(update, rank, i, Level(x, rank[0] - rank[i] + 1));
    }

    /** Insert's first loop: splice x in at each of its levels. */
    method LinkLevels(x: Node, update: seq<Node>, rank: seq<int>, ghost t: seq<seq<Level>>,
                      ghost run: seq<seq<seq<Level>>>)
      requires Aimed(update, rank) && x !in nodes && |x.levels| <= level
      requires SameShape(heights, t) && SplicingRun(run, heights, t, rank, |x.levels|, x) && Table(nodes) == t
      modifies x`levels, nodes`levels
      ensures |x.levels| == old(|x.levels|)
      ensures forall j :: 0 <= j < |x.levels| ==> x.levels[j] == OverLink(heights, t, rank, j)
      ensures Table(nodes) == run[|x.levels|]
    {
      var v := |x.levels|;
      var i := 0;
      while i < v
        invariant 0 <= i <= v == |x.levels|
        invariant Table(nodes) == run[i]
        invariant forall j :: 0 <= j < i ==> x.levels[j] == OverLink(heights, t, rank, j)
      {
        RoundOfRun(run, heights, t, rank, v, x, i);
        LinkLevel(x, update, rank, i);
        i := i + 1;
      }
    }

    /** Widen the link that passes over x at one level. */
    method WidenLevel(v: nat, update: seq<Node>, rank: seq<int>, i: nat, ghost x: Node,
                      ghost t: seq<seq<Level>>, ghost next: seq<seq<Level>>)
      requires Aimed(update, rank) && v <= i < level
      requires SameShape(heights, t) && SplicingRound(heights, t, rank, v, x, i, Table(nodes), next)
      modifies nodes`levels
      ensures Table(nodes) == next
    {
      var link := update[i].levels[i];
      assert link == Table(nodes)[rank[i]][i];
      SetLink(update, rank, i, link.(span := link.span + 1));
    }

    /** Insert's second loop: widen the links that pass over x. */
    method WidenLevels(v: nat, update: seq<Node>, rank: seq<int>, ghost x: Node,
                       ghost t: seq<seq<Level>>, ghost run: seq<seq<seq<Level>>>)
      requires Aimed(update, rank) && v <= level
      requires SameShape(heights, t) && SplicingRun(run, heights, t, rank, v, x) && Table(nodes) == run[v]
      modifies nodes`levels
      ensures Table(nodes) == run[level]
    {
      var i := v;
      while i < level
        invariant v <= i <= level
        invariant Table(nodes) == run[i]
      {
        hide SplicingRun, SplicingRound, SameShape, Distinct, RanksOk, Table;
        RoundOfRun(run, heights, t, rank, v, x, i);
        WidenLevel(v, update, rank, i, x, t, run[i + 1]);
        i := i + 1;
      }
    }

    /** Insert's loops, with ranks that a search found. */
    method LinkIn(x: Node, update: seq<Node>, rank: seq<int>, ghost p: nat)
      requires Aimed(update, rank) && x !in nodes && 1 <= |x.levels| <= level && p < |nodes|
      requires HeightsOk(heights, level) && RanksLast(heights, rank, p, 0)
      requires Linked(nodes, heights, Table(nodes), level)
      modifies x`levels, nodes`levels
      ensures |x.levels| == old(|x.levels|)
      ensures x.levels[0].forward == if p + 1 < |nodes| then nodes[p + 1] else null
      ensures Linked(PutAfter(nodes, p, x), PutAfter(heights, p, |x.levels|), Table(PutAfter(nodes, p, x)), level)
    {
      ghost var t: seq<seq<Level>> := Table(nodes);
      var v := |x.levels|;
      ghost var run := SplicingRuns(heights, t, rank, v, x);
      LinkLevels(x, update, rank, t, run);
      WidenLevels(v, update, rank, x, t, run);
      SplicingIsLinked(nodes, heights, t, rank, level, p, x, x.levels);
      SplicedGround(nodes, heights, Table(nodes), level, p, x, x.levels);
      TableOfPut(nodes, p, x);
    }

    /** Insert's last step: the backward links and the tail. */
    method LinkBack(x: Node, pred: Node, ghost p: nat)
      requires p < |nodes| && nodes[0] == header && pred == nodes[p] && Distinct(nodes) && x !in nodes
      requires BackLinked(nodes) && |x.levels| > 0
      requires x.levels[0].forward == if p + 1 < |nodes| then nodes[p + 1] else null
      requires tail == if |nodes| > 1 then nodes[|nodes| - 1] else null
      modifies x`backward, nodes`backward, `tail
      ensures BackLinked(PutAfter(nodes, p, x))
      ensures tail == PutAfter(nodes, p, x)[|nodes|]
    {
      assert forall k :: 1 <= k < |nodes| ==> Differ(nodes[0], nodes[k]);
      x.backward := if pred == header then null else pred;
      if x.levels[0].forward != null {
        assert forall k :: 0 <= k < p + 1 ==> Differ(nodes[k], nodes[p + 1]);
        assert forall k :: p + 1 < k < |nodes| ==> Differ(nodes[p + 1], nodes[k]);
        x.levels[0].forward.backward := x;
      } else {
        tail := x;
      }
      ghost var ns := PutAfter(nodes, p, x);
      forall k | 1 <= k < |ns|
        ensures ns[k].backward == if k == 1 then null else ns[k - 1]
      {
        if k != p + 1 {
          var k' := if k <= p then k else k - 1;
          assert ns[k] == nodes[k'] && old(nodes[k'].backward) == if k' == 1 then null else nodes[k' - 1];
        }
      }
    }

    /** The links are as they must be once x is the node of rank p + 1. */
    ghost predicate Spliceable(x: Node, p: nat)
      reads this, nodes, x
    {
      && p < |nodes| == |heights| && nodes[0] == header && header.member == "" && Distinct(nodes) && x !in nodes
      && BackLinked(nodes) && HeightsOk(heights, level) && 1 <= |x.levels| <= level
      && (LevelIsTight(heights, level) || |x.levels| == level)
      && Linked(PutAfter(nodes, p, x), PutAfter(heights, p, |x.levels|), Table(PutAfter(nodes, p, x)), level)
      && x.levels[0].forward == (if p + 1 < |nodes| then nodes[p + 1] else null)
      && Ended()
    }

    /** With the links in place, x becomes the node of rank p + 1. */
    method Adopt(x: Node, pred: Node, ghost p: nat)
      requires Spliceable(x, p) && pred == nodes[p]
      modifies this, x`backward, nodes`backward
      ensures Built() && nodes == PutAfter(old(nodes), p, x)
      ensures heights == PutAfter(old(heights), p, |old(x.levels)|)
    {
      hide Linked, Distinct, HeightsOk, LevelIsTight, BackLinked, Table;
      ghost var nodes', heights' := PutAfter(nodes, p, x), PutAfter(heights, p, |x.levels|);
      ghost var t: seq<seq<Level>> := Table(nodes');
      DistinctPut(nodes, p, x);
      HeightsPut(heights, level, p, |x.levels|);
      LinkBack(x, pred, p);
      assert Table(nodes') == t && BackLinked(nodes');
      length := length + 1;
      heights, nodes := heights', nodes';
      assert Linked(nodes, heights, t, level);
    }

    /** Insert's search, and new levels in use if the draw is higher than all of them. */
    method Prepare(score: Score, member: string, v: nat, ghost p: nat) returns (update: seq<Node>, rank: seq<int>)
      requires Built() && SplitsAt(Earlier(Pair(score, member)), p) && 1 <= v <= MAX_LEVEL
      modifies `level, header`levels
      ensures Wired() && 1 <= v <= level && (LevelIsTight(heights, level) || v == level)
      ensures Aimed(update, rank) && RanksLast(heights, rank, p, 0) && update[0] == nodes[p]
    {
      update, rank := FindPredecessors(Earlier(Pair(score, member)), p);
      if v > level {
        update, rank := RaiseLevel(v, update, rank, p);
      }
      assert rank[0] == Last(heights, p, 0) == p;
      assert update[0] == nodes[p];
    }

    method NewNode(score: Score, member: string, v: nat, update: seq<Node>, rank: seq<int>, ghost p: nat)
      returns (x: Node)
      requires Wired() && 1 <= v <= level && (LevelIsTight(heights, level) || v == level)
      requires p < |nodes| && Aimed(update, rank) && RanksLast(heights, rank, p, 0)
      requires Ended()
      modifies nodes`levels
      ensures Spliceable(x, p) && fresh(x) && PairOf(x) == Pair(score, member) && |x.levels| == v
    {
      x := new Node(v, score, member);
      assert |x.levels| == v && x !in nodes;
      LinkIn(x, update, rank, p);
      assert BackLinked(nodes);
    }

    /** Insert for a target that belongs at rank p + 1. */
    method InsertAt(score: Score, member: string, v: nat, ghost p: nat) returns (x: Node)
      requires Built() && SplitsAt(Earlier(Pair(score, member)), p) && 1 <= v <= MAX_LEVEL
      modifies this, nodes
      ensures Built() && fresh(x) && PairOf(x) == Pair(score, member)
      ensures nodes == PutAfter(old(nodes), p, x) && heights == PutAfter(old(heights), p, v)
    {
      var update, rank := Prepare(score, member, v, p);
      x := NewNode(score, member, v, update, rank, p);
      Adopt(x, update[0], p);
    }

    /** Insert once the height of the tower has been drawn; the search does not depend on the draw. */
    method InsertOfHeight(score: Score, member: string, v: nat) returns (x: Node)
      requires InOrder() && 1 <= v <= MAX_LEVEL
      modifies Repr()
      ensures InOrder() && |nodes| > 0 && fresh(Repr() - old(Repr()))
      ensures Contents() == InsertSorted(old(Contents()), Pair(score, member))
      ensures heights == PutAfter(old(heights), CountBefore(old(Contents()), Pair(score, member)), v)
      ensures old(Valid() && Pair(score, member) !in Contents()) ==> Valid()
      ensures x in Repr() && PairOf(x) == Pair(score, member)
    {
      ghost var p := CountBefore(Contents(), Pair(score, member));
      BeforeSplits(Pair(score, member));
      x := InsertAt(score, member, v, p);
      PairsOfPut(old(nodes), p, x);
      InsertKeepsOrdered(old(Contents()), PairOf(x));
      if old(Valid() && Pair(score, member) !in Contents()) {
        InsertKeepsSorted(old(Contents()), PairOf(x));
      }
      PutAddsOne(old(nodes), p, x);
    }

    /**
      Insert puts the pair in its place, in front of any that is equal to it. A pair that is held already is held twice
      after that; the member map of a sorted set sees to it that this does not happen there.
     */
    method Insert(score: Score, member: string) returns (x: Node)
      requires InOrder()
      modifies Repr()
      ensures InOrder() && |nodes| > 0 && fresh(Repr() - old(Repr()))
      ensures Contents() == InsertSorted(old(Contents()), Pair(score, member))
      ensures old(Valid() && Pair(score, member) !in Contents()) ==> Valid()
      ensures x in Repr() && PairOf(x) == Pair(score, member)
    {
      var v := RandomLevel();
      x := InsertOfHeight(score, member, v);
    }

    /** One level of the predecessor: around x, or over it. */
    method CutLevel(x: Node, update: seq<Node>, rank: seq<int>, i: nat, ghost q: nat, ghost next: seq<seq<Level>>)
      requires Aimed(update, rank) && i < level && q < |nodes| && x == nodes[q]
      requires CuttingRound(heights, rank, x.levels, x, q, i, Table(nodes), next)
      modifies nodes`levels
      ensures Table(nodes) == next && x.levels == old(x.levels)
    {
      var link := update[i].levels[i];
      assert link == Table(nodes)[rank[i]][i];
      var cut := if link.forward == x then Level(x.levels[i].forward, link.span + x.levels[i].span - 1)
                 else link.(span := link.span - 1);
      assert cut == CutLink(link, x.levels, x, i);
      SetLink(update, rank, i, cut);
    }

    /** Delete's loop over the levels in use; q is the rank of x. */
    method CutLevels(x: Node, update: seq<Node>, rank: seq<int>, ghost q: nat, ghost run: seq<seq<seq<Level>>>)
      requires Aimed(update, rank) && q < |nodes| && x == nodes[q]
      requires CuttingRun(run, heights, Table(nodes), rank, x.levels, x, q)
      modifies nodes`levels
      ensures Table(nodes) == run[level]
    {
      ghost var over := x.levels;
      var i := 0;
      while i < level
        invariant 0 <= i <= level
        invariant Table(nodes) == run[i] && x.levels == over
      {
        assert CuttingRound(heights, rank, over, x, q, i, run[i], run[i + 1]);
        CutLevel(x, update, rank, i, q, run[i + 1]);
        i := i + 1;
      }
    }

    /** deleteNode's loop, with ranks that a search found. */
    method CutOut(x: Node, update: seq<Node>, rank: seq<int>, ghost p: nat)
      requires p + 1 < |nodes| && x == nodes[p + 1] && HeightsOk(heights, level)
      requires Aimed(update, rank) && RanksLast(DropAfter(heights, p), rank, p, 0)
      requires Linked(nodes, heights, Table(nodes), level)
      modifies nodes`levels
      ensures Linked(DropAfter(nodes, p), DropAfter(heights, p), Table(DropAfter(nodes, p)), level)
      ensures |x.levels| > 0 && x.levels[0].forward == if p + 2 < |nodes| then nodes[p + 2] else null
    {
      ghost var t: seq<seq<Level>> := Table(nodes);
      CutIsLinked(nodes, heights, t, level, rank, p);
      ghost var run := CuttingRuns(heights, t, rank, t[p + 1], x, p + 1);
      CutLevels(x, update, rank, p + 1, run);
      assert x.levels == Table(nodes)[p + 1];
      TableOfDrop(nodes, p);
    }

    /** deleteNode's step on the backward links and the tail. */
    method UnlinkBack(x: Node, ghost p: nat)
      requires p + 1 < |nodes| && x == nodes[p + 1] && Distinct(nodes) && BackLinked(nodes)
      requires |x.levels| > 0 && x.levels[0].forward == if p + 2 < |nodes| then nodes[p + 2] else null
      requires tail == nodes[|nodes| - 1]
      modifies nodes`backward, `tail
      ensures BackLinked(DropAfter(nodes, p))
      ensures tail == if |nodes| > 2 then DropAfter(nodes, p)[|nodes| - 2] else null
    {
      assert nodes[p + 1].backward == if p + 1 == 1 then null else nodes[p + 1 - 1];
      if x.levels[0].forward != null {
        assert forall k :: 0 <= k < p + 2 ==> Differ(nodes[k], nodes[p + 2]);
        assert forall k :: p + 2 < k < |nodes| ==> Differ(nodes[p + 2], nodes[k]);
        x.levels[0].forward.backward := x.backward;
      } else {
        tail := x.backward;
      }
      ghost var ns := DropAfter(nodes, p);
      forall k | 1 <= k < |ns|
        ensures ns[k].backward == if k == 1 then null else ns[k - 1]
      {
        var k' := if k <= p then k else k + 1;
        assert ns[k] == nodes[k'] &&
          nodes[k'].backward == if k == 1 then null else nodes[if k == p + 1 then p else k' - 1];
      }
    }

    /** The loop that lowers the level past levels the header has to itself. */
    method LowerLevel()
      requires Wired() && Ended()
      modifies `level
      ensures Wired() && Ended() && LevelIsTight(heights, level)
    {
      hide Distinct, BackLinked;
      while level > 1 && header.levels[level - 1].forward == null
        invariant Wired() && |header.levels| == MAX_LEVEL
        decreases level
      {
        LoweredIsLinked(nodes, heights, Table(nodes), level);
        level := level - 1;
      }
      if level > 1 {
        LinkedLevelIsTight(nodes, heights, Table(nodes), level);
      }
    }

    /** The links are as they must be once the node of rank p + 1 is gone. */
    ghost predicate Droppable(p: nat)
      reads this, nodes
    {
      && p + 1 < |nodes| == |heights| && nodes[0] == header && header.member == "" && Distinct(nodes)
      && BackLinked(nodes) && HeightsOk(heights, level)
      && Linked(DropAfter(nodes, p), DropAfter(heights, p), Table(DropAfter(nodes, p)), level)
      && |nodes[p + 1].levels| > 0
      && nodes[p + 1].levels[0].forward == (if p + 2 < |nodes| then nodes[p + 2] else null)
      && tail == nodes[|nodes| - 1]
      && length == |nodes| - 1
    }

    method CutNode(x: Node, update: seq<Node>, rank: seq<int>, ghost p: nat)
      requires Built() && p + 1 < |nodes| && x == nodes[p + 1]
      requires Aimed(update, rank) && RanksLast(DropAfter(heights, p), rank, p, 0)
      modifies nodes`levels
      ensures Droppable(p)
    {
      hide Linked, Distinct, HeightsOk, LevelIsTight, Table, RanksLast, Aimed;
      CutOut(x, update, rank, p);
    }

    /** The node of rank p + 1 ceases to be one. */
    method Drop(x: Node, ghost p: nat)
      requires Droppable(p) && x == nodes[p + 1]
      modifies this, nodes`backward
      ensures Wired() && nodes == DropAfter(old(nodes), p)
      ensures Ended()
    {
      hide Linked, Distinct, HeightsOk, LevelIsTight, BackLinked, Table;
      ghost var nodes', heights' := DropAfter(nodes, p), DropAfter(heights, p);
      ghost var t: seq<seq<Level>> := Table(nodes');
      DistinctDrop(nodes, p);
      HeightsDrop(heights, level, p);
      UnlinkBack(x, p);
      assert Table(nodes') == t && BackLinked(nodes');
      length := length - 1;
      nodes, heights := nodes', heights';
      assert Linked(nodes, heights, t, level);
    }

    method DeleteNode(x: Node, update: seq<Node>, rank: seq<int>, ghost p: nat)
      requires Built() && p + 1 < |nodes| && x == nodes[p + 1]
      requires Aimed(update, rank) && RanksLast(DropAfter(heights, p), rank, p, 0)
      modifies this, nodes
      ensures Built() && nodes == DropAfter(old(nodes), p)
    {
      CutNode(x, update, rank, p);
      Drop(x, p);
      LowerLevel();
    }

    /** The ranks of the predecessors do not depend on what comes after them. */
    lemma RanksWithout(rank: seq<int>, p: nat)
      requires p + 1 < |heights| && heights[0] == MAX_LEVEL && |rank| <= MAX_LEVEL
      requires RanksLast(heights, rank, p, 0)
      ensures RanksLast(DropAfter(heights, p), rank, p, 0)
    {
      forall j {:trigger rank[j]} | 0 <= j < |rank|
        ensures rank[j] == Last(DropAfter(heights, p), p, j)
      {
        LastOfPrefix(DropAfter(heights, p), heights, p, j);
      }
    }

    /** At level 0 the predecessor is the node of rank p, and its link leads to the next node. */
    lemma Ground(p: nat)
      requires Wired() && p < |nodes|
      ensures Last(heights, p, 0) == p && |nodes[p].levels| > 0
      ensures nodes[p].levels[0].forward == if p + 1 < |nodes| then nodes[p + 1] else null
    {
      LinkAt(p, 0);
      NextAtGround(heights, p);
    }

    /** Delete for a target that can only be at rank p + 1. */
    method DeleteAt(score: Score, member: string, ghost p: nat) returns (found: bool)
      requires Built() && SplitsAt(Earlier(Pair(score, member)), p)
      modifies this, nodes
      ensures Built()
      ensures found <==> p + 1 < |old(nodes)| && PairOf(old(nodes)[p + 1]) == Pair(score, member)
      ensures found ==> nodes == DropAfter(old(nodes), p)
      ensures !found ==> unchanged(this) && unchanged(nodes)
    {
      var update, rank := FindPredecessors(Earlier(Pair(score, member)), p);
      Ground(p);
      var x := update[0].levels[0].forward;
      if x == null || x.score != score || x.member != member {
        return false;
      }
      RanksWithout(rank, p);
      DeleteNode(x, update, rank, p);
      found := true;
    }

    /** Delete removes a pair if it is there, and otherwise changes nothing. */
    method Delete(score: Score, member: string) returns (found: bool)
      requires Valid()
      modifies Repr()
      ensures Valid() && Repr() <= old(Repr())
      ensures found <==> Pair(score, member) in old(Contents())
      ensures Contents() == RemovePair(old(Contents()), Pair(score, member))
      ensures !found ==> unchanged(Repr())
    {
      ghost var target := Pair(score, member);
      ghost var p := CountBefore(Contents(), target);
      ValidIsInOrder();
      BeforeSplits(target);
      RemovalAt(nodes, target, p);
      found := DeleteAt(score, member, p);
    }

    /** Some tower up to rank p reaches the top level in use, so that a search for rank p leaves the header at once. */
    ghost predicate ReachesTop(p: nat)
      reads this
      requires |nodes| == |heights|
    {
      exists k :: 1 <= k <= p && k < |heights| && heights[k] == level
    }

    /**
      The node of rank k has the member, and a search for rank p comes to rest on it: no tower in between is as tall.
     */
    ghost predicate Hit(k: int, member: string, p: nat)
      reads this
      requires |nodes| == |heights|
    {
      && 1 <= k <= p && k < |nodes| && nodes[k].member == member
      && forall m :: k < m <= p && m < |heights| ==> heights[m] < heights[k]
    }

    /** The number of pairs up to the target. */
    ghost function CountUpTo(target: Pair): nat
      reads this
      requires |nodes| > 0
    {
      CountBefore(Contents(), target) + if target in Contents() then 1 else 0
    }

    lemma UpToSplits(target: Pair)
      requires Valid()
      ensures CountUpTo(target) < |nodes| && SplitsAt(UpTo(target), CountUpTo(target))
      ensures target in Contents() ==> PairOf(nodes[CountUpTo(target)]) == target
    {
      var s, n := Contents(), CountBefore(Contents(), target);
      CountBeforeSplits(s, target);
      forall k | 1 <= k < |nodes|
        ensures UpTo(target)(PairOf(nodes[k])) <==> k <= CountUpTo(target)
      {
        assert s[k - 1] == PairOf(nodes[k]);
        if k > n + 1 && target in s { assert Before(s[n], s[k - 1]); BeforeIsStrict(s[n], s[k - 1]); }
      }
    }

    /**
      The 1-based rank of a pair, or 0. The search compares members only where it comes to rest, the header's
      empty member included, so that the empty member is missed while the search is still at the header.
     */
    method GetRank(score: Score, member: string) returns (r: int)
      requires Valid()
      ensures Ranked(r, member, CountUpTo(Pair(score, member)))
    {
      UpToSplits(Pair(score, member));
      r := RankAt(Pair(score, member), CountUpTo(Pair(score, member)));
    }

    /** What GetRank answers when its search is for rank p. */
    ghost predicate Ranked(r: int, member: string, p: nat)
      reads this
      requires |nodes| == |heights|
    {
      if (member != "" || ReachesTop(p)) && exists k :: Hit(k, member, p) then Hit(r, member, p) else r == 0
    }

    method RankAt(target: Pair, ghost p: nat) returns (r: int)
      requires Wired() && SplitsAt(UpTo(target), p)
      ensures Ranked(r, target.member, p)
    {
      var rank, x, i := 0, header, level;
      while i > 0
        invariant 0 <= i <= level
        invariant rank <= p && x == nodes[rank] && (if i == level then rank == 0 else heights[rank] > i)
        invariant i < level && target.member == "" ==> ReachesTop(p)
        invariant forall k :: Hit(k, target.member, p) ==> heights[k] <= i
      {
        i := i - 1;
        rank, x := Descend(x, rank, i, UpTo(target), p);
        TopOrHeader(i, rank, p);
        LastSkips(heights, p, i);
        if x.member == target.member {
          assert rank > 0 ==> Hit(rank, target.member, p);
          return rank;
        }
      }
      return 0;
    }

    /** At the top level a search leaves the header just when some tower reaches that level. */
    lemma TopOrHeader(i: nat, rank: nat, p: nat)
      requires Wired() && p < |nodes| && i < level && rank == Last(heights, p, i)
      ensures i == level - 1 ==> (rank > 0 <==> ReachesTop(p))
    {
      LastSkips(heights, p, i);
      if i == level - 1 && rank > 0 {
        assert heights[rank] == level;
      }
    }

    /**
      For a pair that is held, with members unique: the rank is right just when the member is not empty
      or some tower no later than its own has full height.
     */
    lemma RankOfHeld(target: Pair, r: int)
      requires Valid() && UniqueMembers(Contents()) && target in Contents()
      requires Ranked(r, target.member, CountUpTo(target))
      ensures r == CountBefore(Contents(), target) + 1 <==> target.member != "" || ReachesTop(CountUpTo(target))
      ensures r == CountBefore(Contents(), target) + 1 || r == 0
    {
      var p := CountUpTo(target);
      UpToSplits(target);
      assert Hit(p, target.member, p);
      if r > 0 {
        assert Contents()[r - 1] == PairOf(nodes[r]) && Contents()[p - 1] == PairOf(nodes[p]);
      }
    }

    /** Where it is not missed, the rank is the position of the pair. */
    lemma RankIsPlace(target: Pair, r: int)
      requires Valid() && UniqueMembers(Contents()) && target in Contents()
      requires Ranked(r, target.member, CountUpTo(target))
      ensures if target.member != "" || ReachesTop(CountUpTo(target))
              then 1 <= r <= |Contents()| && Contents()[r - 1] == target
              else r == 0
    {
      RankOfHeld(target, r);
      CountBeforeSplits(Contents(), target);
    }

    /**
      A tower of height 1 for the empty member and one of height 2 after it: the empty member, of rank 1, gets rank 0.
     */
    lemma EmptyMemberIsMissed(r: int)
      requires Valid() && UniqueMembers(Contents()) && heights == [MAX_LEVEL, 1, 2] && Contents()[0].member == ""
      requires Ranked(r, "", CountUpTo(Contents()[0]))
      ensures r == 0
    {
      RankIsPosition(Contents(), 0);
      RankOfHeld(Contents()[0], r);
    }

    /** For a non-empty member that is not held at any score, the rank is 0. */
    lemma RankOfAbsent(target: Pair, r: int)
      requires Valid() && Ranked(r, target.member, CountUpTo(target))
      requires forall q :: q in Contents() ==> q.member != target.member
      ensures r == 0
    {
      UpToSplits(target);
      forall k | 1 <= k < |nodes|
        ensures nodes[k].member != target.member
      {
        assert PairOf(nodes[k]) == Contents()[k - 1];
      }
    }

    /** The inner loop of GetByRank: along level i without passing the rank. */
    method Advance(x0: Node, r0: nat, i: nat, rank: int, ghost p: nat) returns (r: nat, x: Node)
      requires Wired() && i < level && p < |nodes|
      requires p == if rank < 0 then 0 else if rank < |nodes| then rank else |nodes| - 1
      requires r0 <= p && x0 == nodes[r0] && heights[r0] > i
      ensures r0 <= r == Last(heights, p, i) && x == nodes[r]
    {
      r, x := r0, x0;
      LinkAt(r, i);
      while x.levels[i].forward != null && r + x.levels[i].span <= rank
        invariant r0 <= r <= p && x == nodes[r] && heights[r] > i
        invariant |x.levels| > i && LinkOk(nodes, heights, x.levels[i], level, r, i)
        decreases |nodes| - r
      {
        r := r + x.levels[i].span;
        x := x.levels[i].forward;
        LinkAt(r, i);
      }
      CrossesIffLast(heights, p, i, r);
    }

    /** The node of a 1-based rank, or null; rank 0 is the header's. */
    method GetByRank(rank: int) returns (x: Node?)
      requires Built()
      ensures x == if 0 <= rank < |nodes| then nodes[rank] else null
    {
      ghost var p := if rank < 0 then 0 else if rank < |nodes| then rank else |nodes| - 1;
      var traversed, node, i := 0, header, level;
      while i > 0
        invariant 0 <= i <= level
        invariant traversed <= p < |heights| && node == nodes[traversed]
        invariant if i == level then traversed == 0 else heights[traversed] > i
        invariant i < level ==> traversed == Last(heights, p, i) && traversed != rank
      {
        i := i - 1;
        traversed, node := Advance(node, traversed, i, rank, p);
        if traversed == rank {
          return node;
        }
      }
      Ground(p);
      return null;
    }

    lemma HeaderComesFirst(k: nat)
      requires Valid() && k < |nodes|
      ensures nodes[k] == header <==> k == 0
    {
      assert k > 0 ==> Differ(nodes[0], nodes[k]);
    }

    /** The rank of a pair that is held, or 0 where it is missed. */
    method RankOfPair(score: Score, member: string) returns (r: int)
      requires Valid() && UniqueMembers(Contents()) && Pair(score, member) in Contents()
      ensures var p := CountUpTo(Pair(score, member));
              r == if member != "" || ReachesTop(p) then p else 0
    {
      r := GetRank(score, member);
      RankOfHeld(Pair(score, member), r);
    }

    lemma NodeOfPair(target: Pair)
      requires Valid() && target in Contents()
      ensures var p := CountUpTo(target);
              1 <= p < |nodes| && nodes[0] == header != nodes[p] && PairOf(nodes[p]) == target
    {
      UpToSplits(target);
      HeaderComesFirst(0);
      HeaderComesFirst(CountUpTo(target));
    }

    /** The node of the rank of a pair that is held is its own node, or the header where the rank is missed. */
    method NodeOfRankOf(score: Score, member: string) returns (x: Node?)
      requires Valid() && UniqueMembers(Contents()) && Pair(score, member) in Contents()
      ensures x != null
      ensures if member != "" || ReachesTop(CountUpTo(Pair(score, member)))
              then x != header && PairOf(x) == Pair(score, member)
              else x == header
    {
      assert Built();
      hide Valid, Built, UniqueMembers, ReachesTop, CountUpTo;
      NodeOfPair(Pair(score, member));
      var rank := RankOfPair(score, member);
      x := GetByRank(rank);
    }

    /** The rank of the pair of a rank is that rank, or 0 where it is missed. */
    method RankOfNodeOf(rank: int) returns (r: int)
      requires Valid() && UniqueMembers(Contents()) && 1 <= rank < |nodes|
      ensures r == if nodes[rank].member != "" || ReachesTop(rank) then rank else 0
    {
      hide Wired, UniqueMembers, ReachesTop;
      var x := GetByRank(rank);
      RankOfContents(rank);
      RankIsPosition(Contents(), rank - 1);
      r := RankOfPair(x.score, x.member);
    }

    /** What a walk along level 0 sees at rank k. */
    lemma Onward(k: int)
      ensures Built() && 1 <= k < |nodes| ==>
                && |Contents()| == |nodes| - 1 && Contents()[k - 1] == PairOf(nodes[k]) && |nodes[k].levels| > 0
                && nodes[k].levels[0].forward == if k + 1 < |nodes| then nodes[k + 1] else null
    {
      if Built() && 1 <= k < |nodes| {
        Ground(k);
        RankOfContents(k);
      }
    }

    /** The walk of RangeByRank from the node it starts at. */
    method WalkFrom(first: Node, start: nat, stop: nat) returns (result: seq<Pair>)
      requires Built() && 1 <= start <= stop < |nodes| && first == nodes[start]
      ensures result == Contents()[start - 1..stop]
    {
      Onward(start);
      hide Built, Contents;
      ghost var s := Contents();
      var node: Node?, r := first, start;
      result := [];
      while node != null && r <= stop
        invariant start <= r <= stop + 1
        invariant node == if r < |nodes| then nodes[r] else null
        invariant Collected(result, s, start - 1, r - 1)
        decreases stop + 1 - r
      {
        Onward(r);
        CollectOneMore(result, s, start - 1, r - 1);
        hide Collected;
        result := result + [PairOf(node)];
        node := node.levels[0].forward;
        r := r + 1;
      }
    }

    method WalkRanks(start: nat, stop: nat) returns (result: seq<Pair>)
      requires Built() && 1 <= start <= stop < |nodes|
      ensures result == Contents()[start - 1..stop]
    {
      var first := GetByRank(start);
      result := WalkFrom(first, start, stop);
    }

    /** The pairs of ranks start..stop, 1-based and inclusive, as far as they exist. */
    method RangeByRank(start: int, stop: int) returns (result: seq<Pair>)
      requires Valid()
      ensures result == RankSlice(Contents(), start, stop)
    {
      var start, stop := start, stop;
      if start < 1 {
        start := 1;
      }
      if stop > length {
        stop := length;
      }
      if start > stop {
        return [];
      }
      result := WalkRanks(start, stop);
    }

    /** First node, or null. */
    method First() returns (x: Node?)
      requires Wired()
      ensures x == if |nodes| > 1 then nodes[1] else null
    {
      Ground(0);
      x := header.levels[0].forward;
    }

    /** Last node, or null. */
    method LastNode() returns (x: Node?)
      requires Built()
      ensures x == if |nodes| > 1 then nodes[|nodes| - 1] else null
    {
      x := tail;
    }

    /** The search of the score queries: the last node that passes the test, or the header. */
    method Seek(test: Pair -> bool, ghost p: nat) returns (x: Node)
      requires Wired() && SplitsAt(test, p)
      ensures x == nodes[p]
    {
      x := header;
      var r, i := 0, level;
      while i > 0
        invariant 0 <= i <= level
        invariant r <= p && x == nodes[r] && (if i == level then r == 0 else heights[r] > i)
        invariant i < level ==> r == Last(heights, p, i)
      {
        i := i - 1;
        r, x := Descend(x, r, i, test, p);
      }
      Ground(p);
    }

    lemma ScoreSplits(b: Score)
      requires Valid()
      ensures SplitsAt(Below(b), CountWhile(Contents(), Below(b)))
      ensures SplitsAt(AtMost(b), CountWhile(Contents(), AtMost(b)))
    {
      ScoresSplit(Contents(), b);
      forall k | 1 <= k < |nodes|
        ensures Below(b)(PairOf(nodes[k])) <==> k <= CountWhile(Contents(), Below(b))
        ensures AtMost(b)(PairOf(nodes[k])) <==> k <= CountWhile(Contents(), AtMost(b))
      {
        assert Contents()[k - 1] == PairOf(nodes[k]);
      }
    }

    /** `all` are the pairs of ranks p + 1, p + 2, ... */
    ghost predicate RunFrom(p: nat, all: seq<Pair>)
      reads this
    {
      p + |all| < |nodes| && forall j {:trigger all[j]} :: 0 <= j < |all| ==> all[j] == PairOf(nodes[p + 1 + j])
    }

    /** The link of the node of rank k on level 0. */
    lemma NextOf(k: int)
      ensures Wired() && 0 <= k < |nodes| ==>
                && |nodes[k].levels| > 0
                && nodes[k].levels[0].forward == if k + 1 < |nodes| then nodes[k + 1] else null
    {
      if Wired() && 0 <= k < |nodes| {
        Ground(k);
      }
    }

    lemma RunAt(p: nat, all: seq<Pair>, j: nat)
      requires RunFrom(p, all)
      ensures p + |all| < |nodes| && (j < |all| ==> all[j] == PairOf(nodes[p + 1 + j]))
    {
    }

    /** The walk of RangeByScore, from rank p + 1. */
    method WalkForward(x0: Node?, max: Score, offset: int, count: int, ghost p: nat, ghost all: seq<Pair>)
      returns (result: seq<Pair>)
      requires Wired() && RunFrom(p, all)
      requires x0 == if p + 1 < |nodes| then nodes[p + 1] else null
      requires forall j {:trigger all[j]} :: 0 <= j < |all| ==> all[j].score <= max
      requires p + |all| + 1 < |nodes| ==> nodes[p + |all| + 1].score > max
      ensures result == Limit(all, offset, count)
    {
      result := [];
      var x, skipped := x0, 0;
      ghost var j := 0;
      RunAt(p, all, 0);
      TookNothing(all, offset, count);
      hide Wired, RunFrom, Took, Limit;
      while x != null && x.score <= max
        invariant 0 <= j <= |all|
        invariant x == if p + 1 + j < |nodes| then nodes[p + 1 + j] else null
        invariant Took(all, offset, count, j, skipped, result)
        decreases |all| - j
      {
        RunAt(p, all, j);
        TakeOneMore(all, offset, count, j, skipped, result);
        NextOf(p + 1 + j);
        if skipped < offset {
          skipped := skipped + 1;
        } else {
          result := result + [PairOf(x)];
          if count > 0 && |result| >= count {
            return;
          }
        }
        x := x.levels[0].forward;
        j := j + 1;
      }
      RunAt(p, all, j);
      TookAll(all, offset, count, skipped, result);
    }

    /** The walk of CountByScore, from rank p + 1. */
    method WalkCount(x0: Node?, max: Score, ghost p: nat, ghost all: seq<Pair>) returns (count: int)
      requires Wired() && RunFrom(p, all)
      requires x0 == if p + 1 < |nodes| then nodes[p + 1] else null
      requires forall j {:trigger all[j]} :: 0 <= j < |all| ==> all[j].score <= max
      requires p + |all| + 1 < |nodes| ==> nodes[p + |all| + 1].score > max
      ensures count == |all|
    {
      var x := x0;
      count := 0;
      RunAt(p, all, 0);
      hide Wired, RunFrom;
      while x != null && x.score <= max
        invariant 0 <= count <= |all|
        invariant x == if p + 1 + count < |nodes| then nodes[p + 1 + count] else null
        decreases |all| - count
      {
        NextOf(p + 1 + count);
        x := x.levels[0].forward;
        count := count + 1;
      }
      RunAt(p, all, count);
    }

    /** `all` are the pairs of ranks q, q - 1, ... */
    ghost predicate RunBack(q: nat, all: seq<Pair>)
      reads this
    {
      |all| <= q < |nodes| && forall j {:trigger all[j]} :: 0 <= j < |all| ==> all[j] == PairOf(nodes[q - j])
    }

    lemma RunBackAt(q: nat, all: seq<Pair>, j: nat)
      requires RunBack(q, all)
      ensures |all| <= q < |nodes| && (j < |all| ==> all[j] == PairOf(nodes[q - j]))
    {
    }

    /** The header comes first, and the backward link of the node of rank k is as it must be. */
    lemma BackOf(k: int)
      ensures Wired() && 0 <= k < |nodes| ==>
                && nodes[0] == header && (nodes[k] == header <==> k == 0)
                && (k > 0 ==> nodes[k].backward == if k == 1 then null else nodes[k - 1])
                && (k > 1 ==> nodes[k - 1] != header)
    {
      if Wired() && 0 < k < |nodes| {
        assert Differ(nodes[0], nodes[k]);
        assert k > 1 ==> Differ(nodes[0], nodes[k - 1]);
      }
    }

    /** The walk of RevRangeByScore, from rank q down. */
    method WalkBackward(x0: Node, min: Score, offset: int, count: int, ghost q: nat, ghost all: seq<Pair>)
      returns (result: seq<Pair>)
      requires Wired() && RunBack(q, all) && x0 == nodes[q]
      requires forall j {:trigger all[j]} :: 0 <= j < |all| ==> min <= all[j].score
      requires q - |all| > 0 ==> nodes[q - |all|].score < min
      ensures result == Limit(all, offset, count)
    {
      result := [];
      var x: Node?, skipped := x0, 0;
      ghost var j := 0;
      TookNothing(all, offset, count);
      BackOf(q);
      RunBackAt(q, all, 0);
      hide Wired, RunBack, Took, Limit;
      while x != null && x != header && x.score >= min
        invariant 0 <= j <= |all|
        invariant x == if q == 0 then header else if j < q then nodes[q - j] else null
        invariant Took(all, offset, count, j, skipped, result)
        decreases |all| - j
      {
        RunBackAt(q, all, j);
        TakeOneMore(all, offset, count, j, skipped, result);
        BackOf(q - j);
        if skipped < offset {
          skipped := skipped + 1;
        } else {
          result := result + [PairOf(x)];
          if count > 0 && |result| >= count {
            return;
          }
        }
        x := x.backward;
        j := j + 1;
      }
      RunBackAt(q, all, j);
      BackOf(q - j);
      TookAll(all, offset, count, skipped, result);
    }

    /** The filter of a score query, as ranks: it runs from the first score not below min to the last not above max. */
    lemma FilterRun(min: Score, max: Score) returns (all: seq<Pair>, p: nat, q: nat)
      requires Valid()
      ensures all == InScores(Contents(), min, max)
      ensures SplitsAt(Below(min), p) && SplitsAt(AtMost(max), q)
      ensures RunFrom(p, all) && RunBack(q, Reverse(all))
      ensures forall j {:trigger all[j]} :: 0 <= j < |all| ==> min <= all[j].score <= max
      ensures p + |all| + 1 < |nodes| ==> nodes[p + |all| + 1].score > max
      ensures q - |all| > 0 ==> nodes[q - |all|].score < min
    {
      ScoreSplits(min);
      ScoreSplits(max);
      all, p, q := ScoreRun(Contents(), min, max);
      hide SplitsAt, InScores, CountWhile, RunFrom, RunBack;
      SliceIsRun(all, p);
      SliceIsRunBack(Reverse(all), q);
      hide Valid, Reverse;
      RankOfContents(p + |all| + 1);
      RankOfContents(q - |all|);
    }

    lemma SliceIsRun(all: seq<Pair>, p: nat)
      requires Wired() && p + |all| <= |Contents()| && forall j :: 0 <= j < |all| ==> all[j] == Contents()[p + j]
      ensures RunFrom(p, all)
    {
      forall j | 0 <= j < |all| ensures all[j] == PairOf(nodes[p + 1 + j]) {
        RankOfContents(p + 1 + j);
      }
    }

    lemma SliceIsRunBack(all: seq<Pair>, q: nat)
      requires Wired() && |all| <= q <= |Contents()| && forall j :: 0 <= j < |all| ==> all[j] == Contents()[q - 1 - j]
      ensures RunBack(q, all)
    {
      forall j | 0 <= j < |all| ensures all[j] == PairOf(nodes[q - j]) {
        RankOfContents(q - j);
      }
    }

    lemma RankOfContents(k: int)
      requires Wired()
      ensures 1 <= k < |nodes| ==> Contents()[k - 1] == PairOf(nodes[k])
    {
    }

    /** The pairs with min <= score <= max in order, after `offset` of them and at most `count` if that is positive. */
    method RangeByScore(min: Score, max: Score, offset: int, count: int) returns (result: seq<Pair>)
      requires Valid()
      ensures result == Limit(InScores(Contents(), min, max), offset, count)
    {
      ghost var all, p, q := FilterRun(min, max);
      var x := Seek(Below(min), p);
      Ground(p);
      result := WalkForward(x.levels[0].forward, max, offset, count, p, all);
    }

    /** The same pairs in descending order. */
    method RevRangeByScore(max: Score, min: Score, offset: int, count: int) returns (result: seq<Pair>)
      requires Valid()
      ensures result == Limit(Reverse(InScores(Contents(), min, max)), offset, count)
    {
      ghost var all, p, q := FilterRun(min, max);
      var x := Seek(AtMost(max), q);
      result := WalkBackward(x, min, offset, count, q, Reverse(all));
    }

    /** The number of pairs with min <= score <= max. */
    method CountByScore(min: Score, max: Score) returns (count: int)
      requires Valid()
      ensures count == |InScores(Contents(), min, max)|
    {
      ghost var all, p, q := FilterRun(min, max);
      var x := Seek(Below(min), p);
      Ground(p);
      count := WalkCount(x.levels[0].forward, max, p, all);
    }
  }

  lemma TwoInserted()
    ensures var s := InsertSorted([], Pair(1.0, ""));
            s == [Pair(1.0, "")] && InsertSorted(s, Pair(2.0, "b")) == [Pair(1.0, ""), Pair(2.0, "b")]
    ensures CountBefore([], Pair(1.0, "")) == 0 && CountBefore([Pair(1.0, "")], Pair(2.0, "b")) == 1
  {
    assert [Pair(1.0, "")][1..] == [];
  }

  method BuildTwo() returns (sl: Skiplist)
    ensures fresh(sl.Repr()) && sl.Valid() && sl.heights == [MAX_LEVEL, 1, 2]
    ensures sl.Contents() == [Pair(1.0, ""), Pair(2.0, "b")]
  {
    hide Skiplist.Valid, Skiplist.InOrder, Skiplist.Contents, CountBefore, InsertSorted;
    sl := new Skiplist();
    TwoInserted();
    sl.ValidIsInOrder();
    var _ := sl.InsertOfHeight(1.0, "", 1);
    var _ := sl.InsertOfHeight(2.0, "b", 2);
    assert sl.heights == [MAX_LEVEL, 1, 2];
  }

  /** The empty member with a tower of height 1 and a member with one of height 2: GetRank misses the former. */
  method MissedMember() returns (sl: Skiplist, r: int)
    ensures fresh(sl.Repr()) && sl.Valid() && sl.heights == [MAX_LEVEL, 1, 2]
    ensures sl.Contents() == [Pair(1.0, ""), Pair(2.0, "b")] && r == 0
  {
    hide Skiplist.Valid, Skiplist.Contents, Skiplist.Ranked, Skiplist.CountUpTo;
    sl := BuildTwo();
    r := sl.GetRank(1.0, "");
    sl.EmptyMemberIsMissed(r);
  }
}
