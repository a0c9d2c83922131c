/** The doubly linked list behind a list key. */
module LinkedLists {
  import opened Basics
  import opened Occurrences

  class ListNode {
    var Value: string
    var prev: ListNode?
    var next: ListNode?

    constructor (value: string, prev: ListNode?, next: ListNode?)
      ensures Value == value && this.prev == prev && this.next == next
    {
      Value := value;
      this.prev := prev;
      this.next := next;
    }
  }

  ghost predicate Differ(m: ListNode, n: ListNode) {
    m != n
  }

  ghost predicate Distinct(ns: seq<ListNode>) {
    forall i, j {:trigger Differ(ns[i], ns[j])} :: 0 <= i < j < |ns| ==> Differ(ns[i], ns[j])
  }

  lemma DistinctSlice(ns: seq<ListNode>, a: nat, b: nat)
    requires Distinct(ns) && a <= b <= |ns|
    ensures Distinct(ns[a..b])
  {
    forall i, j {:trigger Differ(ns[a..b][i], ns[a..b][j])} | 0 <= i < j < b - a
      ensures Differ(ns[a..b][i], ns[a..b][j])
    {
      assert Differ(ns[a + i], ns[a + j]);
    }
  }

  lemma DistinctPut(ns: seq<ListNode>, p: nat, x: ListNode)
    requires Distinct(ns) && p <= |ns| && x !in ns
    ensures Distinct(ns[..p] + [x] + ns[p..])
  {
    var ns' := ns[..p] + [x] + ns[p..];
    forall i, j | 0 <= i < j < |ns'|
      ensures Differ(ns'[i], ns'[j])
    {
      if i != p && j != p {
        assert Differ(ns[if i < p then i else i - 1], ns[if j < p then j else j - 1]);
      }
    }
  }

  lemma DistinctDrop(ns: seq<ListNode>, p: nat)
    requires Distinct(ns) && p < |ns|
    ensures Distinct(ns[..p] + ns[p + 1..])
  {
    var ns' := ns[..p] + ns[p + 1..];
    forall i, j | 0 <= i < j < |ns'|
      ensures Differ(ns'[i], ns'[j])
    {
      assert Differ(ns[if i < p then i else i + 1], ns[if j < p then j else j + 1]);
    }
  }

  /** The node of rank k is none of the others. */
  lemma DiffersFrom(ns: seq<ListNode>, k: nat)
    requires Distinct(ns) && k < |ns|
    ensures forall j :: 0 <= j < |ns| && j != k ==> ns[j] != ns[k]
  {
    forall j | 0 <= j < |ns| && j != k
      ensures ns[j] != ns[k]
    {
      assert if j < k then Differ(ns[j], ns[k]) else Differ(ns[k], ns[j]);
    }
  }

  /** The nodes are chained both ways and carry the contents. */
  ghost predicate Chained(ns: seq<ListNode>, contents: seq<string>)
    reads ns
  {
    && |ns| == |contents|
    && (forall k {:trigger ns[k].next} :: 0 <= k < |ns| ==> ns[k].next == if k + 1 < |ns| then ns[k + 1] else null)
    && (forall k {:trigger ns[k].prev} :: 0 <= k < |ns| ==> ns[k].prev == if k > 0 then ns[k - 1] else null)
    && (forall k {:trigger ns[k].Value} :: 0 <= k < |ns| ==> ns[k].Value == contents[k])
  }

  /** The nodes are chained but for n, which stands in the chain between the first q of them and the others. */
  ghost predicate ChainedAround(ns: seq<ListNode>, contents: seq<string>, q: nat, n: ListNode)
    reads ns, n
  {
    && |ns| == |contents| && q <= |ns|
    && n.prev == (if q > 0 then ns[q - 1] else null) && n.next == (if q < |ns| then ns[q] else null)
    && (forall k {:trigger ns[k].next} :: 0 <= k < |ns| ==>
          ns[k].next == if k + 1 == q then n else if k + 1 < |ns| then ns[k + 1] else null)
    && (forall k {:trigger ns[k].prev} :: 0 <= k < |ns| ==>
         ns[k].prev == if k == q then n else if k > 0 then ns[k - 1] else null)
    && (forall k {:trigger ns[k].Value} :: 0 <= k < |ns| ==> ns[k].Value == contents[k])
  }

  lemma PutIsChained(ns: seq<ListNode>, contents: seq<string>, q: nat, n: ListNode)
    requires ChainedAround(ns, contents, q, n)
    ensures Chained(ns[..q] + [n] + ns[q..], contents[..q] + [n.Value] + contents[q..])
  {
    var all := ns[..q] + [n] + ns[q..];
    forall k | 0 <= k < |all|
      ensures k < q ==> all[k] == ns[k]
      ensures k > q ==> all[k] == ns[k - 1]
    {
    }
  }

  /** The nodes from a to b are chained with each other and with no others. */
  ghost predicate ChainedWithin(ns: seq<ListNode>, contents: seq<string>, a: nat, b: nat)
    reads ns
  {
    && |ns| == |contents| && a <= b < |ns|
    && (forall k {:trigger ns[k].next} :: a <= k <= b ==> ns[k].next == if k < b then ns[k + 1] else null)
    && (forall k {:trigger ns[k].prev} :: a <= k <= b ==> ns[k].prev == if k > a then ns[k - 1] else null)
    && (forall k {:trigger ns[k].Value} :: a <= k <= b ==> ns[k].Value == contents[k])
  }

  lemma SliceIsChained(ns: seq<ListNode>, contents: seq<string>, a: nat, b: nat)
    requires ChainedWithin(ns, contents, a, b)
    ensures Chained(ns[a..b + 1], contents[a..b + 1])
  {
    var part := ns[a..b + 1];
    assert forall k :: 0 <= k < |part| ==> part[k] == ns[a + k];
  }

  /** The nodes but for that of rank p are chained with each other. */
  ghost predicate ChainedWithout(ns: seq<ListNode>, contents: seq<string>, p: nat)
    reads ns
  {
    && |ns| == |contents| && p < |ns|
    && (forall k {:trigger ns[k].next} :: 0 <= k < |ns| && k != p ==>
          ns[k].next == var j := if k + 1 == p then k + 2 else k + 1; if j < |ns| then ns[j] else null)
    && (forall k {:trigger ns[k].prev} :: 0 <= k < |ns| && k != p ==>
          ns[k].prev == var j := if k - 1 == p then k - 2 else k - 1; if j >= 0 then ns[j] else null)
    && (forall k {:trigger ns[k].Value} :: 0 <= k < |ns| && k != p ==> ns[k].Value == contents[k])
  }

  lemma DropIsChained(ns: seq<ListNode>, contents: seq<string>, p: nat)
    requires ChainedWithout(ns, contents, p)
    ensures Chained(ns[..p] + ns[p + 1..], contents[..p] + contents[p + 1..])
  {
    var all := ns[..p] + ns[p + 1..];
    forall k | 0 <= k < |all|
      ensures all[k] == if k < p then ns[k] else ns[k + 1]
    {
    }
  }

  class List {
    var head: ListNode?
    var tail: ListNode?
    var length: int

    ghost var nodes: seq<ListNode>
    ghost var contents: seq<string>

    ghost predicate Valid()
      reads this, nodes
    {
      && Distinct(nodes)
      && Chained(nodes, contents)
      && head == (if |nodes| > 0 then nodes[0] else null)
      && tail == (if |nodes| > 0 then nodes[|nodes| - 1] else null)
      && length == |nodes|
    }

    ghost function Repr(): set<object>
      reads this
    {
      {this} + (set n: object | n in nodes)
    }

    constructor ()
      ensures Valid() && contents == [] && fresh(Repr())
    {
      head, tail, length := null, null, 0;
      nodes, contents := [], [];
    }

    method Len() returns (n: int)
      requires Valid()
      ensures n == |contents|
    {
      n := length;
    }

    /** One round of LPush. */
    method PushHead(v: string)
      requires Valid()
      modifies this, nodes
      ensures Valid() && contents == [v] + old(contents)
      ensures fresh(Repr() - old(Repr()))
    {
      assert forall k :: 0 < k < |nodes| ==> Differ(nodes[0], nodes[k]);
      var node := new ListNode(v, null, null);
      if head == null {
        head := node;
        tail := node;
      } else {
        node.next := head;
        head.prev := node;
        head := node;
      }
      length := length + 1;
      nodes := [node] + nodes;
      contents := [v] + contents;
    }

    /** One round of RPush. */
    method PushTail(v: string)
      requires Valid()
      modifies this, nodes
      ensures Valid() && contents == old(contents) + [v]
      ensures fresh(Repr() - old(Repr()))
    {
      assert forall k :: 0 <= k < |nodes| - 1 ==> Differ(nodes[k], nodes[|nodes| - 1]);
      var node := new ListNode(v, null, null);
      if tail == null {
        head := node;
        tail := node;
      } else {
        node.prev := tail;
        tail.next := node;
        tail := node;
      }
      length := length + 1;
      nodes := nodes + [node];
      contents := contents + [v];
    }

    /** Each value becomes the new head, so that the last one given ends up first. */
    method LPush(values: seq<string>)
      requires Valid()
      modifies Repr()
      ensures Valid() && contents == Reverse(values) + old(contents)
      ensures fresh(Repr() - old(Repr()))
    {
      for i := 0 to |values|
        invariant Valid() && contents == Reverse(values[..i]) + old(contents)
        invariant fresh(Repr() - old(Repr()))
      {
        PushHead(values[i]);
        assert Reverse(values[..i + 1]) == [values[i]] + Reverse(values[..i]);
      }
      assert values[..|values|] == values;
    }

    method RPush(values: seq<string>)
      requires Valid()
      modifies Repr()
      ensures Valid() && contents == old(contents) + values
      ensures fresh(Repr() - old(Repr()))
    {
      for i := 0 to |values|
        invariant Valid() && contents == old(contents) + values[..i]
        invariant fresh(Repr() - old(Repr()))
      {
        PushTail(values[i]);
      }
    }

    method LPop() returns (r: Option<string>)
      requires Valid()
      modifies Repr()
      ensures Valid() && Repr() <= old(Repr())
      ensures old(contents) == [] ==> r == None && contents == []
      ensures old(contents) != [] ==> r == Some(old(contents)[0]) && contents == old(contents)[1..]
    {
      if head == null {
        return None;
      }
      assert forall k :: 1 < k < |nodes| ==> Differ(nodes[1], nodes[k]);
      r := Some(head.Value);
      head := head.next;
      if head != null {
        head.prev := null;
      } else {
        tail := null;
      }
      length := length - 1;
      DistinctSlice(nodes, 1, |nodes|);
      nodes := nodes[1..];
      contents := contents[1..];
    }

    method RPop() returns (r: Option<string>)
      requires Valid()
      modifies Repr()
      ensures Valid() && Repr() <= old(Repr())
      ensures old(contents) == [] ==> r == None && contents == []
      ensures old(contents) != [] ==>
                r == Some(old(contents)[|old(contents)| - 1]) && contents == old(contents)[..|old(contents)| - 1]
    {
      if tail == null {
        return None;
      }
      assert forall k :: 0 <= k < |nodes| - 2 ==> Differ(nodes[k], nodes[|nodes| - 2]);
      r := Some(tail.Value);
      tail := tail.prev;
      if tail != null {
        tail.next := null;
      } else {
        head := null;
      }
      length := length - 1;
      nodes := nodes[..|nodes| - 1];
      contents := contents[..|contents| - 1];
    }

    /** The node at an index, by a walk from the nearer end; the answer does not depend on which end that is. */
    method NodeAt(idx: int) returns (node: ListNode?)
      requires Valid()
      ensures var i := Position(|nodes|, idx);
              node == if 0 <= i < |nodes| then nodes[i] else null
    {
      var idx := if idx < 0 then length + idx else idx;
      if idx < 0 || idx >= length {
        return null;
      }
      if idx < length / 2 {
        node := head;
        for i := 0 to idx
          invariant node == nodes[i]
        {
          node := node.next;
        }
        return node;
      }
      node := tail;
      var i := length - 1;
      while i > idx
        invariant idx <= i < length && node == nodes[i]
      {
        node := node.prev;
        i := i - 1;
      }
    }

    method Index(idx: int) returns (r: Option<string>)
      requires Valid()
      ensures var i := Position(|contents|, idx);
              r == if 0 <= i < |contents| then Some(contents[i]) else None
    {
      var node := NodeAt(idx);
      if node == null {
        return None;
      }
      return Some(node.Value);
    }

    method Set(idx: int, value: string) returns (ok: bool)
      requires Valid()
      modifies Repr()
      ensures Valid() && Repr() == old(Repr())
      ensures var i := Position(|old(contents)|, idx);
              && (ok <==> 0 <= i < |old(contents)|)
              && contents == if ok then old(contents)[i := value] else old(contents)
    {
      var node := NodeAt(idx);
      if node == null {
        return false;
      }
      ghost var i := Position(length, idx);
      assert forall k :: 0 <= k < i ==> Differ(nodes[k], nodes[i]);
      assert forall k :: i < k < |nodes| ==> Differ(nodes[i], nodes[k]);
      node.Value := value;
      contents := contents[i := value];
      return true;
    }

    /** The values from start to stop, inclusive. */
    method Range(start: int, stop: int) returns (result: seq<string>)
      requires Valid()
      ensures result == Slice(contents, start, stop)
    {
      var (a, b) := NormalizeRange(length, start, stop);
      if a > b {
        return [];
      }
      result := [];
      var node := NodeAt(a);
      var i := a;
      while i <= b && node != null
        invariant a <= i <= b + 1
        invariant node == if i < |nodes| then nodes[i] else null
        invariant result == contents[a..i]
        decreases b - i
      {
        result := result + [node.Value];
        node := node.next;
        i := i + 1;
      }
    }

    /** Keep only the elements from start to stop, inclusive. */
    method Trim(start: int, stop: int)
      requires Valid()
      modifies Repr()
      ensures Valid() && Repr() <= old(Repr())
      ensures contents == Slice(old(contents), start, stop)
    {
      var (a, b) := NormalizeRange(length, start, stop);
      if a > b {
        head := null;
        tail := null;
        length := 0;
        nodes, contents := [], [];
        return;
      }
      DistinctSlice(nodes, a, b + 1);
      CutOff(a, b);
      SliceIsChained(nodes, contents, a, b);
      hide Chained, Distinct;
      nodes, contents := nodes[a..b + 1], contents[a..b + 1];
    }

    /** Makes the nodes from a to b the ends. */
    method CutOff(a: nat, b: nat)
      requires Valid() && a <= b < |nodes|
      modifies this`head, this`tail, this`length, nodes
      ensures ChainedWithin(nodes, contents, a, b) && head == nodes[a] && tail == nodes[b] && length == b - a + 1
    {
      var newHead := NodeAt(a);
      var newTail := NodeAt(b);
      DiffersFrom(nodes, a);
      DiffersFrom(nodes, b);
      hide Distinct;
      if newHead != null {
        newHead.prev := null;
      }
      if newTail != null {
        newTail.next := null;
      }
      head := newHead;
      tail := newTail;
      length := b - a + 1;
    }

    /** Puts a value before the first occurrence of pivot; the new length, or -1 when there is none. */
    method InsertBefore(pivot: string, newVal: string) returns (r: int)
      requires Valid()
      modifies Repr()
      ensures Valid() && fresh(Repr() - old(Repr()))
      ensures pivot !in old(contents) ==> r == -1 && contents == old(contents)
      ensures pivot in old(contents) ==>
                var i := FirstIndex(old(contents), pivot);
                r == |contents| && contents == old(contents)[..i] + [newVal] + old(contents)[i..]
    {
      var node := head;
      ghost var k := 0;
      while node != null
        invariant 0 <= k <= |nodes|
        invariant node == if k < |nodes| then nodes[k] else null
        invariant pivot !in contents[..k]
        decreases |nodes| - k
      {
        if node.Value == pivot {
          FirstIndexIs(contents, pivot, k);
          InsertNodeBefore(node, newVal, k);
          return length;
        }
        node := node.next;
        k := k + 1;
      }
      return -1;
    }

    /** Puts a value after the first occurrence of pivot. */
    method InsertAfter(pivot: string, newVal: string) returns (r: int)
      requires Valid()
      modifies Repr()
      ensures Valid() && fresh(Repr() - old(Repr()))
      ensures pivot !in old(contents) ==> r == -1 && contents == old(contents)
      ensures pivot in old(contents) ==>
                var i := FirstIndex(old(contents), pivot) + 1;
                && i <= |old(contents)| && r == |contents|
                && contents == old(contents)[..i] + [newVal] + old(contents)[i..]
    {
      var node := head;
      ghost var k := 0;
      while node != null
        invariant 0 <= k <= |nodes|
        invariant node == if k < |nodes| then nodes[k] else null
        invariant pivot !in contents[..k]
        decreases |nodes| - k
      {
        if node.Value == pivot {
          FirstIndexIs(contents, pivot, k);
          InsertNodeAfter(node, newVal, k);
          return length;
        }
        node := node.next;
        k := k + 1;
      }
      return -1;
    }

    method LinkBefore(node: ListNode, val: string, ghost k: nat) returns (n: ListNode)
      requires Valid() && k < |nodes| && node == nodes[k]
      modifies this`head, this`length, nodes
      ensures fresh(n) && n.Value == val && ChainedAround(nodes, contents, k, n)
      ensures head == (if k == 0 then n else nodes[0]) && length == old(length) + 1
    {
      DiffersFrom(nodes, k);
      if k > 0 { DiffersFrom(nodes, k - 1); }
      hide Distinct;
      n := new ListNode(val, node.prev, node);
      if node.prev != null {
        node.prev.next := n;
      } else {
        head := n;
      }
      node.prev := n;
      length := length + 1;
    }

    method InsertNodeBefore(node: ListNode, val: string, ghost k: nat)
      requires Valid() && k < |nodes| && node == nodes[k]
      modifies this, nodes
      ensures Valid() && fresh(Repr() - old(Repr()))
      ensures contents == old(contents)[..k] + [val] + old(contents)[k..]
    {
      hide Distinct, ChainedAround;
      var n := LinkBefore(node, val, k);
      DistinctPut(nodes, k, n);
      PutIsChained(nodes, contents, k, n);
      hide Chained;
      nodes := nodes[..k] + [n] + nodes[k..];
      contents := contents[..k] + [val] + contents[k..];
    }

    method LinkAfter(node: ListNode, val: string, ghost k: nat) returns (n: ListNode)
      requires Valid() && k < |nodes| && node == nodes[k]
      modifies this`tail, this`length, nodes
      ensures fresh(n) && n.Value == val && ChainedAround(nodes, contents, k + 1, n)
      ensures tail == (if k + 1 == |nodes| then n else nodes[|nodes| - 1]) && length == old(length) + 1
    {
      DiffersFrom(nodes, k);
      if k + 1 < |nodes| { DiffersFrom(nodes, k + 1); }
      hide Distinct;
      n := new ListNode(val, node, node.next);
      if node.next != null {
        node.next.prev := n;
      } else {
        tail := n;
      }
      node.next := n;
      length := length + 1;
    }

    method InsertNodeAfter(node: ListNode, val: string, ghost k: nat)
      requires Valid() && k < |nodes| && node == nodes[k]
      modifies this, nodes
      ensures Valid() && fresh(Repr() - old(Repr()))
      ensures contents == old(contents)[..k + 1] + [val] + old(contents)[k + 1..]
    {
      hide Distinct, ChainedAround;
      var n := LinkAfter(node, val, k);
      DistinctPut(nodes, k + 1, n);
      PutIsChained(nodes, contents, k + 1, n);
      hide Chained;
      nodes := nodes[..k + 1] + [n] + nodes[k + 1..];
      contents := contents[..k + 1] + [val] + contents[k + 1..];
    }

    method Unlink(node: ListNode, ghost k: nat)
      requires Valid() && k < |nodes| && node == nodes[k]
      modifies this`head, this`tail, this`length, nodes
      ensures ChainedWithout(nodes, contents, k) && length == old(length) - 1
      ensures head == if k > 0 then nodes[0] else if |nodes| > 1 then nodes[1] else null
      ensures tail == if k + 1 < |nodes| then nodes[|nodes| - 1] else if |nodes| > 1 then nodes[|nodes| - 2] else null
    {
      if k > 0 { DiffersFrom(nodes, k - 1); }
      if k + 1 < |nodes| { DiffersFrom(nodes, k + 1); }
      hide Distinct;
      if node.prev != null {
        node.prev.next := node.next;
      } else {
        head := node.next;
      }
      if node.next != null {
        node.next.prev := node.prev;
      } else {
        tail := node.prev;
      }
      length := length - 1;
    }

    method RemoveNode(node: ListNode, ghost k: nat)
      requires Valid() && k < |nodes| && node == nodes[k]
      modifies Repr()
      ensures Valid() && Repr() <= old(Repr()) && nodes == old(nodes)[..k] + old(nodes)[k + 1..]
      ensures contents == old(contents)[..k] + old(contents)[k + 1..]
    {
      hide Distinct, ChainedWithout;
      Unlink(node, k);
      DistinctDrop(nodes, k);
      DropIsChained(nodes, contents, k);
      hide Chained;
      nodes := nodes[..k] + nodes[k + 1..];
      contents := contents[..k] + contents[k + 1..];
    }

    lemma NodeOfRank(k: nat)
      requires Valid() && k < |nodes|
      ensures |nodes| == |contents| && nodes[k].Value == contents[k]
      ensures nodes[k].next == if k + 1 < |nodes| then nodes[k + 1] else null
      ensures nodes[k].prev == if k > 0 then nodes[k - 1] else null
    {
    }

    lemma HeadIsFirst()
      requires Valid()
      ensures head == (if |nodes| > 0 then nodes[0] else null) && |nodes| == |contents|
    {
    }

    /** Remove's walk from the head. */
    method RemoveForward(count: int, element: string) returns (removed: int)
      requires Valid() && count >= 0
      modifies Repr()
      ensures Valid() && Repr() <= old(Repr())
      ensures contents == Removed(old(contents), count, element)
      ensures removed == |old(contents)| - |contents|
    {
      hide Valid, Repr, Walked, DropFirst;
      ghost var s, bound := contents, if count == 0 then |contents| else count;
      ghost var j: nat, done: seq<string> := 0, [];
      HeadIsFirst();
      ForwardBegins(s, bound, element);
      removed := 0;
      var node := head;
      while node != null && (count == 0 || removed < count)
        invariant Valid() && Repr() <= old(Repr()) && |nodes| == |contents|
        invariant Walked(s, j, bound, element, done, contents)
        invariant removed == j - |done| <= bound
        invariant node == if |done| < |nodes| then nodes[|done|] else null
        decreases |s| - j
      {
        StillToWalk(s, j, bound, element, done, contents);
        ForwardStep(s, j, bound, element, done, contents);
        NodeOfRank(|done|);
        var next := node.next;
        if node.Value == element {
          RemoveNode(node, |done|);
          removed := removed + 1;
        } else {
          done := done + [s[j]];
        }
        node := next;
        j := j + 1;
      }
      StillToWalk(s, j, bound, element, done, contents);
      ForwardDone(s, j, bound, element, done, contents);
    }

    /** Remove's walk from the tail. */
    method RemoveBackward(count: int, element: string) returns (removed: int)
      requires Valid() && count > 0
      modifies Repr()
      ensures Valid() && Repr() <= old(Repr())
      ensures contents == Removed(old(contents), -count, element)
      ensures removed == |old(contents)| - |contents|
    {
      ghost var s := contents;
      ghost var j: nat, done: seq<string> := |contents|, [];
      assert DropLast(s[j..], count, element) == done;
      hide Distinct, DropLast;
      removed := 0;
      var node := tail;
      while node != null && removed < count
        invariant Valid() && Repr() <= old(Repr())
        invariant j <= |s| && done == DropLast(s[j..], count, element)
        invariant contents == s[..j] + done
        invariant removed == |s| - j - |done| <= count
        invariant node == if j > 0 then nodes[j - 1] else null
        decreases j
      {
        BackwardStep(s, j, count, element, done, contents);
        NodeOfRank(j - 1);
        hide Valid, Repr;
        var next := node.prev;
        if node.Value == element {
          RemoveNode(node, j - 1);
          removed := removed + 1;
        } else {
          done := [s[j - 1]] + done;
        }
        node := next;
        j := j - 1;
      }
      BackwardDone(s, j, count, element);
    }

    /** Removes occurrences of an element and returns how many. */
    method Remove(count: int, element: string) returns (removed: int)
      requires Valid()
      modifies Repr()
      ensures Valid() && Repr() <= old(Repr())
      ensures contents == Removed(old(contents), count, element)
      ensures removed == |old(contents)| - |contents|
    {
      if count < 0 {
        removed := RemoveBackward(-count, element);
      } else {
        removed := RemoveForward(count, element);
      }
    }
  }
}
