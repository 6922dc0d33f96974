/** The intrusive circular doubly linked list of `include/dllist.h`.

    A head is an ordinary node; a list is the ring of nodes reached from it. Both
    links of a node that is on no list are null. */
module Dllist {
  import opened SelectionSort

  class Node {
    var prev: Node?
    var next: Node?

    /** Storage is zeroed by its owner. */
    constructor ()
      ensures prev == null && next == null
    {
      prev, next := null, null;
    }
  }

  /** Neighbours in `c` are linked both ways. */
  ghost predicate Linked(c: seq<Node>)
    reads c
  {
    forall i, j :: 0 <= i && j == i + 1 && j < |c| ==> c[i].next == c[j] && c[j].prev == c[i]
  }

  /** `h` heads a well-formed ring whose element nodes are `s`, in list order. */
  ghost predicate Ring(h: Node, s: seq<Node>)
    reads h, s
  {
    && h !in s
    && (forall i, j :: 0 <= i < j < |s| ==> s[i] != s[j])
    && (if s == [] then h.next == h && h.prev == h
        else h.next == s[0] && s[0].prev == h && h.prev == s[|s| - 1] && s[|s| - 1].next == h)
    && Linked(s)
  }

  ghost predicate Unlinked(n: Node)
    reads n
  {
    n.prev == null && n.next == null
  }

  /** No node is in both sequences. */
  ghost predicate Apart(s: seq<Node>, t: seq<Node>) {
    forall i, j :: 0 <= i < |s| && 0 <= j < |t| ==> s[i] != t[j]
  }

  method Init(h: Node)
    modifies h
    ensures Ring(h, [])
  {
    h.prev := h;
    h.next := h;
  }

  method IsEmpty(h: Node, ghost s: seq<Node>) returns (empty: bool)
    requires Ring(h, s)
    ensures empty <==> s == []
  {
    empty := h.prev == h && h.next == h;
  }

  method AddToHead(h: Node, n: Node, ghost s: seq<Node>)
    requires Ring(h, s) && n != h && n !in s
    modifies h, h.next, n
    ensures Ring(h, [n] + s)
  {
    var tmp := h.next;
    h.next := n;
    n.next := tmp;
    tmp.prev := n;
    n.prev := h;
  }

  method AddToTail(h: Node, n: Node, ghost s: seq<Node>)
    requires Ring(h, s) && n != h && n !in s
    modifies h, h.prev, n
    ensures Ring(h, s + [n])
  {
    var tmp := h.prev;
    h.prev := n;
    n.prev := tmp;
    tmp.next := n;
    n.next := h;
  }

  /** Answers yes for every node of a ring, head or element, and no for a node that was zeroed
      or removed. */
  method NodeIsInList(n: Node) returns (inList: bool)
    ensures Unlinked(n) ==> !inList
    ensures forall h: Node, s: seq<Node> :: Ring(h, s) && (n == h || n in s) ==> inList
  {
    forall h: Node, s: seq<Node> | Ring(h, s) && (n == h || n in s) ensures n.next != null {
      if n in s {
        var k :| 0 <= k < |s| && s[k] == n;
        Neighbours(h, s, k);
      }
    }
    inList := n.next != null;
  }

  lemma Neighbours(h: Node, s: seq<Node>, k: nat)
    requires Ring(h, s) && k < |s|
    ensures s[k].next == (if k + 1 < |s| then s[k + 1] else h)
    ensures s[k].prev == (if k > 0 then s[k - 1] else h)
  {
  }

  method RemoveNode(n: Node, ghost h: Node, ghost s: seq<Node>, ghost k: nat)
    requires Ring(h, s) && k < |s| && s[k] == n
    modifies n, n.prev, n.next
    ensures Ring(h, Without(s, k)) && Unlinked(n)
  {
    Neighbours(h, s, k);
    n.next.prev := n.prev;
    n.prev.next := n.next;
    n.prev := null;
    n.next := null;
  }

  method ReplaceHead(oldHead: Node, newHead: Node, ghost s: seq<Node>)
    requires Ring(oldHead, s) && newHead !in s && (newHead == oldHead ==> s == [])
    modifies oldHead, newHead, s
    ensures Ring(newHead, s) && Ring(oldHead, [])
  {
    var empty := IsEmpty(oldHead, s);
    if empty {
      newHead.next := newHead;
      newHead.prev := newHead;
    } else {
      oldHead.next.prev := newHead;
      oldHead.prev.next := newHead;

      newHead.next := oldHead.next;
      newHead.prev := oldHead.prev;

      oldHead.next := oldHead;
      oldHead.prev := oldHead;
    }
  }

  method InsertListAtHead(outHead: Node, inHead: Node, ghost out: seq<Node>, ghost ins: seq<Node>)
    requires Ring(outHead, out) && Ring(inHead, ins)
    requires outHead != inHead && outHead !in ins && inHead !in out
    requires Apart(out, ins)
    modifies outHead, inHead, out, ins
    ensures Ring(outHead, ins + out) && Ring(inHead, [])
  {
    var inHeadNext := inHead.next;
    var outHeadNext := outHead.next;
    var empty := IsEmpty(inHead, ins);
    if !empty {
      outHead.next := inHeadNext;
      inHeadNext.prev := outHead;

      inHead.prev.next := outHeadNext;
      outHeadNext.prev := inHead.prev;

      Init(inHead);
      assert Linked(ins) && Linked(out);
    } else {
      assert ins + out == out;
    }
  }

  method GetNextNode(h: Node, ghost s: seq<Node>) returns (r: Node?)
    requires Ring(h, s)
    ensures r == if s == [] then null else s[0]
  {
    if h.next == h {
      r := null;
    } else {
      r := h.next;
    }
  }

  method GetPrevNode(h: Node, ghost s: seq<Node>) returns (r: Node?)
    requires Ring(h, s)
    ensures r == if s == [] then null else s[|s| - 1]
  {
    if h.prev == h {
      r := null;
    } else {
      r := h.prev;
    }
  }

  /** Any node of a ring may stand in for its head: the two queries above also answer
      from an element, and then count the head among the nodes they can return. */
  lemma RingFromElement(h: Node, s: seq<Node>, k: nat)
    requires Ring(h, s) && k < |s|
    ensures Ring(s[k], s[k + 1..] + [h] + s[..k])
  {
  }

  function Kept(drop: Node -> bool): Node -> bool {
    (n: Node) => !drop(n)
  }

  /** Following a link from the node at position `k` (the head when `k == |cur|`)
      stays on the ring. */
  lemma NextStaysOnRing(h: Node, cur: seq<Node>, k: nat)
    requires Ring(h, cur) && k <= |cur|
    ensures h.next == (if cur == [] then h else cur[0])
    ensures k < |cur| ==> cur[k] != h && cur[k].next == (if k + 1 < |cur| then cur[k + 1] else h)
  {
  }

  /** What is on the ring, and where the walk stands, after the body has seen `cur[k]`. */
  function RingAfter(drop: Node -> bool, cur: seq<Node>, k: nat): seq<Node>
    requires k < |cur|
  {
    if drop(cur[k]) then Without(cur, k) else cur
  }

  function PositionAfter(drop: Node -> bool, cur: seq<Node>, k: nat): nat
    requires k < |cur|
  {
    if drop(cur[k]) then k else k + 1
  }

  /** A forward walk over `s` that has noted `visited`: the ring now holds `cur` and the
      walk stands at position `k` of it. */
  ghost predicate Walked(drop: Node -> bool, s: seq<Node>, visited: seq<Node>, cur: seq<Node>, k: nat) {
    && k <= |cur| && |visited| <= |s|
    && visited == s[..|visited|] && cur[k..] == s[|visited|..]
    && cur[..k] == Filter(Kept(drop), visited)
    && Within(cur, s)
    && (forall i :: 0 <= i < |visited| && drop(visited[i]) ==> visited[i] !in cur)
  }

  ghost predicate DroppedUnlinked(drop: Node -> bool, visited: seq<Node>)
    reads visited
  {
    forall i :: 0 <= i < |visited| && drop(visited[i]) ==> Unlinked(visited[i])
  }

  lemma WalkedStep(drop: Node -> bool, s: seq<Node>, visited: seq<Node>, cur: seq<Node>, k: nat)
    requires Walked(drop, s, visited, cur, k) && k < |cur|
    requires forall i, j :: 0 <= i < j < |cur| ==> cur[i] != cur[j]
    ensures Walked(drop, s, visited + [cur[k]], RingAfter(drop, cur, k), PositionAfter(drop, cur, k))
  {
    var n := cur[k];
    assert n == cur[k..][0] == s[|visited|];
    assert cur[k + 1..] == cur[k..][1..] == s[|visited| + 1..];
    assert visited + [n] == s[..|visited| + 1];
    FilterConcat(Kept(drop), visited, [n]);
    FilterSingle(Kept(drop), n);
    if drop(n) {
      var rest := Without(cur, k);
      assert rest[..k] == cur[..k] && rest[k..] == cur[k + 1..];
      WithoutKeepsRest(cur, k);
      assert n !in rest;
    } else {
      assert cur[..k + 1] == cur[..k] + [n];
    }
  }

  /** The loop body: removes the current node when `drop` says so. */
  method Visit(node: Node, drop: Node -> bool, ghost h: Node, ghost cur: seq<Node>, ghost k: nat,
               ghost dropped: seq<Node>)
    requires Ring(h, cur) && k < |cur| && cur[k] == node
    requires DroppedUnlinked(drop, dropped)
    requires forall i :: 0 <= i < |dropped| && drop(dropped[i]) ==> dropped[i] != h && dropped[i] !in cur
    modifies h, cur
    ensures Ring(h, RingAfter(drop, cur, k))
    ensures DroppedUnlinked(drop, dropped + [node])
  {
    if drop(node) {
      Neighbours(h, cur, k);
      RemoveNode(node, h, cur, k);
    }
  }

  method VisitForward(node: Node, drop: Node -> bool, ghost h: Node, ghost s: seq<Node>, ghost visited: seq<Node>,
                      ghost cur: seq<Node>, ghost k: nat)
    requires Ring(h, cur) && k < |cur| && cur[k] == node && h !in s
    requires Walked(drop, s, visited, cur, k) && DroppedUnlinked(drop, visited)
    modifies h, cur
    ensures Ring(h, RingAfter(drop, cur, k)) && DroppedUnlinked(drop, visited + [node])
    ensures Walked(drop, s, visited + [node], RingAfter(drop, cur, k), PositionAfter(drop, cur, k))
    ensures var cur', k' := RingAfter(drop, cur, k), PositionAfter(drop, cur, k);
            && h.next != null
            && old(node.next) == (if k' < |cur'| then cur'[k'] else h)
            && (k' < |cur'| ==> cur'[k'].next != null)
  {
    Neighbours(h, cur, k);
    WalkedStep(drop, s, visited, cur, k);
    Visit(node, drop, h, cur, k, visited);
    NextStaysOnRing(h, RingAfter(drop, cur, k), PositionAfter(drop, cur, k));
  }

  /** `dllist_foreach_node` with a body that notes the node and removes it when `drop`
      says so. */
  method ForeachNode(h: Node, drop: Node -> bool, ghost s: seq<Node>) returns (visited: seq<Node>)
    requires Ring(h, s)
    modifies h, s
    ensures visited == s
    ensures Ring(h, Filter(Kept(drop), s))
    ensures DroppedUnlinked(drop, s)
  {
    ghost var cur: seq<Node>, k: nat := s, 0;
    visited := [];
    NextStaysOnRing(h, s, 0);
    var node: Node, next: Node := h.next, h.next.next;
    while node != h
      invariant Walked(drop, s, visited, cur, k) && Ring(h, cur)
      invariant node == (if k < |cur| then cur[k] else h) && next == node.next
      invariant DroppedUnlinked(drop, visited)
      decreases |cur| - k
    {
      VisitForward(node, drop, h, s, visited, cur, k);
      visited := visited + [node];
      cur, k := RingAfter(drop, cur, k), PositionAfter(drop, cur, k);
      node := next;
      next := node.next;
    }
    assert cur[k..] == [] && cur[..k] == cur;
  }

  // ---------- Backward walk ----------

  lemma PrevStaysOnRing(h: Node, cur: seq<Node>, k: nat)
    requires Ring(h, cur) && k <= |cur|
    ensures h.prev == (if cur == [] then h else cur[|cur| - 1])
    ensures k > 0 ==> cur[k - 1] != h && cur[k - 1].prev == (if k > 1 then cur[k - 2] else h)
  {
  }

  /** A backward walk that has noted `visited`; what is before position `k` is still to come. */
  ghost predicate WalkedBack(drop: Node -> bool, s: seq<Node>, visited: seq<Node>, cur: seq<Node>, k: nat) {
    && k <= |cur| && k <= |s| && |visited| == |s| - k
    && visited == Reverse(s[k..]) && cur[..k] == s[..k]
    && cur[k..] == Filter(Kept(drop), s[k..])
    && Within(cur, s)
    && (forall i :: 0 <= i < |visited| && drop(visited[i]) ==> visited[i] !in cur)
  }

  lemma WalkedBackStep(drop: Node -> bool, s: seq<Node>, visited: seq<Node>, cur: seq<Node>, k: nat)
    requires WalkedBack(drop, s, visited, cur, k) && k > 0
    requires forall i, j :: 0 <= i < j < |cur| ==> cur[i] != cur[j]
    ensures WalkedBack(drop, s, visited + [cur[k - 1]], RingAfter(drop, cur, k - 1), k - 1)
  {
    assert cur[k - 1] == cur[..k][k - 1] == s[k - 1];
    assert cur[..k - 1] == cur[..k][..k - 1] == s[..k - 1];
    assert s[k - 1..] == [s[k - 1]] + s[k..];
    ReverseCons(s[k - 1], s[k..]);
    assert Without(cur, k - 1)[..k - 1] == cur[..k - 1] && Without(cur, k - 1)[k - 1..] == cur[k..];
    WithoutKeepsRest(cur, k - 1);
  }

  method VisitBackward(node: Node, drop: Node -> bool, ghost h: Node, ghost s: seq<Node>, ghost visited: seq<Node>,
                       ghost cur: seq<Node>, ghost k: nat)
    requires Ring(h, cur) && 0 < k <= |cur| && cur[k - 1] == node && h !in s
    requires WalkedBack(drop, s, visited, cur, k) && DroppedUnlinked(drop, visited)
    modifies h, cur
    ensures Ring(h, RingAfter(drop, cur, k - 1)) && DroppedUnlinked(drop, visited + [node])
    ensures WalkedBack(drop, s, visited + [node], RingAfter(drop, cur, k - 1), k - 1)
    ensures var cur' := RingAfter(drop, cur, k - 1);
            && h.prev != null
            && old(node.prev) == (if k > 1 then cur'[k - 2] else h)
            && (k > 1 ==> cur'[k - 2].prev != null)
  {
    Neighbours(h, cur, k - 1);
    WalkedBackStep(drop, s, visited, cur, k);
    Visit(node, drop, h, cur, k - 1, visited);
    PrevStaysOnRing(h, RingAfter(drop, cur, k - 1), k - 1);
  }

  /** `dllist_foreach_node_backwards` with the same body. */
  method ForeachNodeBackwards(h: Node, drop: Node -> bool, ghost s: seq<Node>) returns (visited: seq<Node>)
    requires Ring(h, s)
    modifies h, s
    ensures visited == Reverse(s)
    ensures Ring(h, Filter(Kept(drop), s))
    ensures DroppedUnlinked(drop, s)
  {
    ghost var cur: seq<Node>, k: nat := s, |s|;
    visited := [];
    assert s[k..] == [];
    PrevStaysOnRing(h, s, k);
    var node: Node, prev: Node := h.prev, h.prev.prev;
    while node != h
      invariant WalkedBack(drop, s, visited, cur, k) && Ring(h, cur)
      invariant node == (if k > 0 then cur[k - 1] else h) && prev == node.prev
      invariant DroppedUnlinked(drop, visited)
      decreases k
    {
      VisitBackward(node, drop, h, s, visited, cur, k);
      visited := visited + [node];
      cur, k := RingAfter(drop, cur, k - 1), k - 1;
      node := prev;
      prev := node.prev;
    }
    assert s[k..] == s && cur[k..] == cur;
    DroppedReversed(drop, s);
  }

  lemma DroppedReversed(drop: Node -> bool, s: seq<Node>)
    requires DroppedUnlinked(drop, Reverse(s))
    ensures DroppedUnlinked(drop, s)
  {
    ReverseIsPermutation(s);
    SameElements(Reverse(s), s);
  }

  // ---------- Sort ----------

  /** The nodes of `s`, split over two lists. */
  ghost predicate Split(s: seq<Node>, a: seq<Node>, b: seq<Node>) {
    Within(a, s) && Within(b, s) && Apart(a, b)
  }

  /** Moving the node at position `k` of `a` to either end of `b` keeps the split. */
  lemma SplitAfterMove(s: seq<Node>, a: seq<Node>, b: seq<Node>, k: nat)
    requires Split(s, a, b) && k < |a| && forall i, j :: 0 <= i < j < |a| ==> a[i] != a[j]
    ensures Split(s, Without(a, k), [a[k]] + b) && Split(s, Without(a, k), b + [a[k]])
  {
    WithoutKeepsRest(a, k);
  }

  /** Takes the node at position `k` of one list and puts it at the head of another. */
  method MoveToHead(n: Node, a: Node, b: Node, ghost from: seq<Node>, ghost to: seq<Node>, ghost k: nat)
    requires Ring(a, from) && Ring(b, to) && k < |from| && from[k] == n
    requires a != b && a !in to && b !in from && Apart(from, to)
    modifies a, from, b, to
    ensures Ring(a, Without(from, k)) && Ring(b, [n] + to)
  {
    Neighbours(a, from, k);
    RemoveNode(n, a, from, k);
    NextStaysOnRing(b, to, 0);
    AddToHead(b, n, to);
  }

  /** The same, to the tail. */
  method MoveToTail(n: Node, a: Node, b: Node, ghost from: seq<Node>, ghost to: seq<Node>, ghost k: nat)
    requires Ring(a, from) && Ring(b, to) && k < |from| && from[k] == n
    requires a != b && a !in to && b !in from && Apart(from, to)
    modifies a, from, b, to
    ensures Ring(a, Without(from, k)) && Ring(b, to + [n])
  {
    Neighbours(a, from, k);
    RemoveNode(n, a, from, k);
    PrevStaysOnRing(b, to, |to|);
    AddToTail(b, n, to);
  }

  /** First phase: drains the list into the temporary one, which reverses it. */
  method DrainToTemp(h: Node, temp: Node, ghost s: seq<Node>)
    requires Ring(h, s) && Ring(temp, []) && h != temp && temp !in s
    modifies h, s, temp
    ensures Ring(h, []) && Ring(temp, Reverse(s))
  {
    hide Linked;
    ghost var from, to := s, [];
    NextStaysOnRing(h, s, 0);
    var node: Node, next: Node := h.next, h.next.next;
    while node != h
      invariant Ring(h, from) && Ring(temp, to) && Split(s, from, to)
      invariant Reverse(from) + to == Reverse(s)
      invariant node == (if from == [] then h else from[0]) && next == node.next
      decreases |from|
    {
      NextStaysOnRing(h, from, 0);
      SplitAfterMove(s, from, to, 0);
      ReverseFirst(from, to);
      MoveToHead(node, h, temp, from, to, 0);
      from, to := Without(from, 0), [node] + to;
      NextStaysOnRing(h, from, 0);
      node := next;
      next := node.next;
    }
    assert from == [] && Reverse(from) + to == to;
  }

  lemma ReverseFirst(from: seq<Node>, to: seq<Node>)
    requires from != []
    ensures |Without(from, 0)| == |from| - 1
    ensures forall i :: 0 <= i < |from| - 1 ==> Without(from, 0)[i] == from[i + 1]
    ensures Reverse(from) + to == Reverse(Without(from, 0)) + ([from[0]] + to)
  {
    assert Without(from, 0) == from[1..];
  }

  /** The scan: the first node, unless `cmpr` prefers a later one to the candidate. */
  method FindSmallest(temp: Node, cmpr: (Node, Node) -> bool, ghost left: seq<Node>) returns (smallest: Node?)
    requires Ring(temp, left) && left != []
    ensures smallest == left[Pick(cmpr, left, |left|)]
  {
    smallest := null;
    ghost var n := 0;
    NextStaysOnRing(temp, left, 0);
    var node: Node, next: Node := temp.next, temp.next.next;
    while node != temp
      invariant 0 <= n <= |left|
      invariant node == (if n < |left| then left[n] else temp) && next == node.next
      invariant if n == 0 then smallest == null else smallest == left[Pick(cmpr, left, n)]
      decreases |left| - n
    {
      NextStaysOnRing(temp, left, n);
      if smallest == null || cmpr(smallest, node) {
        smallest := node;
      }
      n := n + 1;
      NextStaysOnRing(temp, left, n);
      node := next;
      next := node.next;
    }
  }

  /** What the second phase keeps: `left` is still on the temporary list, and draining it
      after `done` gives the result. */
  ghost predicate Selecting(cmpr: (Node, Node) -> bool, s: seq<Node>, left: seq<Node>, done: seq<Node>) {
    Split(s, left, done) && done + Drain(cmpr, left) == Drain(cmpr, s)
  }

  method SelectOne(h: Node, temp: Node, cmpr: (Node, Node) -> bool, ghost s: seq<Node>, ghost left: seq<Node>,
                   ghost done: seq<Node>)
    requires Ring(h, done) && Ring(temp, left) && left != [] && Selecting(cmpr, s, left, done)
    requires h != temp && h !in left && temp !in done
    modifies h, done, temp, left
    ensures var k := Pick(cmpr, left, |left|);
            && Ring(temp, Without(left, k)) && Ring(h, done + [left[k]])
            && Selecting(cmpr, s, Without(left, k), done + [left[k]])
  {
    var smallest := FindSmallest(temp, cmpr, left);
    ghost var k := Pick(cmpr, left, |left|);
    SplitAfterMove(s, left, done, k);
    DrainTakes(cmpr, left, done);
    MoveToTail(smallest, temp, h, left, done, k);
  }

  /** Second phase: repeatedly moves the smallest node to the tail of the list. */
  method SelectFromTemp(h: Node, temp: Node, cmpr: (Node, Node) -> bool, ghost s: seq<Node>)
    requires Ring(h, []) && Ring(temp, s) && h != temp && h !in s
    modifies h, s, temp
    ensures Ring(h, Drain(cmpr, s)) && Ring(temp, [])
  {
    ghost var left, done := s, [];
    assert done + Drain(cmpr, left) == Drain(cmpr, s);
    var empty := IsEmpty(temp, left);
    while !empty
      invariant Ring(temp, left) && Ring(h, done) && Selecting(cmpr, s, left, done)
      invariant empty <==> left == []
      decreases |left|
    {
      SelectOne(h, temp, cmpr, s, left, done);
      ghost var k := Pick(cmpr, left, |left|);
      left, done := Without(left, k), done + [left[k]];
      empty := IsEmpty(temp, left);
    }
    assert done + Drain(cmpr, left) == done;
  }

  /** `dllist_sort`, for any comparator at all. */
  method Sort(h: Node, cmpr: (Node, Node) -> bool, ghost s: seq<Node>)
    requires Ring(h, s)
    modifies h, s
    ensures Ring(h, Sorted(cmpr, s))
  {
    var temp := new Node();
    Init(temp);
    DrainToTemp(h, temp, s);
    ReverseIsPermutation(s);
    SameElements(Reverse(s), s);
    SelectFromTemp(h, temp, cmpr, Reverse(s));
  }

  lemma DrainTakes(cmpr: (Node, Node) -> bool, left: seq<Node>, done: seq<Node>)
    requires left != []
    ensures var k := Pick(cmpr, left, |left|);
            done + Drain(cmpr, left) == (done + [left[k]]) + Drain(cmpr, Without(left, k))
  {
  }
}
