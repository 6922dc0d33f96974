/** Any number of `dllist` lists sharing one set of nodes, and any run of operations on them. */
module ListHeap {
  import opened SelectionSort
  import opened Dllist

  /** Which list each head owns, and which nodes are zeroed and on no list. */
  datatype Lists = Lists(on: map<Node, seq<Node>>, off: set<Node>)

  datatype Op =
    | MakeHead(n: Node)
    | AddHead(h: Node, n: Node)
    | AddTail(h: Node, n: Node)
    | Remove(n: Node, h: Node, k: nat)
    | Replace(h: Node, g: Node)
    | InsertList(out: Node, ins: Node)
    | RemoveWhere(h: Node, drop: Node -> bool)
    | SortBy(h: Node, cmpr: (Node, Node) -> bool)

  /** What the header asks of the caller. */
  predicate Enabled(op: Op, l: Lists) {
    match op
    case MakeHead(n) => n in l.off
    case AddHead(h, n) => h in l.on && n in l.off
    case AddTail(h, n) => h in l.on && n in l.off
    case Remove(n, h, k) => h in l.on && k < |l.on[h]| && l.on[h][k] == n
    case Replace(h, g) => h in l.on && g in l.on && l.on[g] == []
    case InsertList(out, ins) => out in l.on && ins in l.on && out != ins
    case RemoveWhere(h, _) => h in l.on
    case SortBy(h, _) => h in l.on
  }

  function Elements(s: seq<Node>): set<Node> {
    set n | n in s
  }

  /** The meaning of an operation, with no links in sight. */
  function Apply(op: Op, l: Lists): Lists
    requires Enabled(op, l)
  {
    match op
    case MakeHead(n) => Lists(l.on[n := []], l.off - {n})
    case AddHead(h, n) => Lists(l.on[h := [n] + l.on[h]], l.off - {n})
    case AddTail(h, n) => Lists(l.on[h := l.on[h] + [n]], l.off - {n})
    case Remove(n, h, k) => Lists(l.on[h := Without(l.on[h], k)], l.off + {n})
    case Replace(h, g) => Lists(l.on[g := l.on[h]][h := []], l.off)
    case InsertList(out, ins) => Lists(l.on[out := l.on[ins] + l.on[out]][ins := []], l.off)
    case RemoveWhere(h, drop) =>
      Lists(l.on[h := Filter(Kept(drop), l.on[h])], l.off + set n | n in Elements(l.on[h]) && drop(n))
    case SortBy(h, cmpr) => Lists(l.on[h := Sorted(cmpr, l.on[h])], l.off)
  }

  ghost predicate AllEnabled(ops: seq<Op>, l: Lists) {
    ops == [] || (Enabled(ops[0], l) && AllEnabled(ops[1..], Apply(ops[0], l)))
  }

  ghost function ApplyAll(ops: seq<Op>, l: Lists): Lists
    requires AllEnabled(ops, l)
  {
    if ops == [] then l else ApplyAll(ops[1..], Apply(ops[0], l))
  }

  ghost predicate Distinct(s: seq<Node>) {
    forall i, j :: 0 <= i < j < |s| ==> s[i] != s[j]
  }

  /** Lists are pairwise disjoint, heads are not elements, and free nodes are neither. */
  ghost predicate Disjoint(l: Lists) {
    && (forall h, g :: h in l.on && g in l.on ==> h !in l.on[g])
    && (forall h, g :: h in l.on && g in l.on && h != g ==> Apart(l.on[h], l.on[g]))
    && (forall n :: n in l.off ==> n !in l.on)
    && (forall n, h :: n in l.off && h in l.on ==> n !in l.on[h])
  }

  ghost predicate Inside(l: Lists, repr: set<Node>) {
    && l.off <= repr
    && (forall h :: h in l.on ==> h in repr && Elements(l.on[h]) <= repr)
  }

  ghost function NodesOf(h: Node, s: seq<Node>): set<Node> {
    {h} + Elements(s)
  }

  /** Heads and elements of every list except those headed in `hs`. */
  ghost function Others(l: Lists, hs: set<Node>): set<Node> {
    set h, n | h in l.on && h !in hs && n in NodesOf(h, l.on[h]) :: n
  }

  ghost predicate RingsExcept(l: Lists, hs: set<Node>)
    reads Others(l, hs)
  {
    forall h :: h in l.on && h !in hs ==>
      assert NodesOf(h, l.on[h]) <= Others(l, hs);
      Ring(h, l.on[h])
  }

  ghost predicate AllUnlinked(ns: set<Node>)
    reads ns
  {
    forall n :: n in ns ==> Unlinked(n)
  }

  lemma OthersAreApart(l: Lists, hs: set<Node>)
    requires Disjoint(l) && hs <= l.on.Keys
    ensures Others(l, hs) !! hs && Others(l, hs) !! l.off
    ensures forall h :: h in l.on && h in hs ==> Others(l, hs) !! Elements(l.on[h])
  {
  }

  lemma {:induction false} FilterIsWithin(p: Node -> bool, s: seq<Node>)
    ensures Within(Filter(p, s), s)
    ensures forall i :: 0 <= i < |Filter(p, s)| ==> p(Filter(p, s)[i])
  {
    if s != [] { FilterIsWithin(p, s[1..]); }
  }

  /** Giving one list new contents: `taken` nodes come from the free ones, `freed` go back. */
  lemma UpdateKeepsDisjoint(l: Lists, repr: set<Node>, h: Node, t: seq<Node>, taken: set<Node>, freed: set<Node>)
    requires Disjoint(l) && Inside(l, repr) && h in l.on && taken <= l.off && freed <= Elements(l.on[h])
    requires forall i :: 0 <= i < |t| ==> (t[i] in l.on[h] || t[i] in taken) && t[i] !in freed
    ensures var l' := Lists(l.on[h := t], l.off - taken + freed);
            Disjoint(l') && Inside(l', repr)
  {
  }

  /** Emptying one list into another. */
  lemma MoveKeepsDisjoint(l: Lists, repr: set<Node>, from: Node, to: Node, t: seq<Node>)
    requires Disjoint(l) && Inside(l, repr) && from in l.on && to in l.on
    requires forall i :: 0 <= i < |t| ==> t[i] in l.on[from] || t[i] in l.on[to]
    requires from == to ==> t == []
    ensures var l' := Lists(l.on[to := t][from := []], l.off);
            Disjoint(l') && Inside(l', repr)
  {
    var moved := Elements(l.on[from]);
    UpdateKeepsDisjoint(l, repr, from, [], {}, moved);
    if from != to {
      var l1 := Lists(l.on[from := []], l.off - {} + moved);
      UpdateKeepsDisjoint(l1, repr, to, t, moved, {});
      assert l.on[from := []][to := t] == l.on[to := t][from := []];
      assert l1.off - moved + {} == l.off;
    } else {
      assert l.on[to := t][from := []] == l.on[from := []];
    }
  }

  /** The rings outside `{a, b}`, together with those re-made there, are all the rings. */
  lemma Rejoin(l: Lists, l': Lists, a: Node, b: Node)
    requires RingsExcept(l, {a, b})
    requires forall h :: h in l'.on && h != a && h != b ==> h in l.on && l'.on[h] == l.on[h]
    requires a in l'.on && Ring(a, l'.on[a])
    requires b in l'.on && Ring(b, l'.on[b])
    ensures RingsExcept(l', {})
  {
  }

  lemma EndsOnRing(h: Node, s: seq<Node>)
    requires Ring(h, s)
    ensures h.next in NodesOf(h, s) && h.prev in NodesOf(h, s)
  {
  }

  /** The links realise `l`. */
  ghost predicate Sound(l: Lists)
    reads Others(l, {}), l.off
  {
    RingsExcept(l, {}) && AllUnlinked(l.off)
  }

  // ---------- The links: every operation re-makes its own rings and no others ----------

  method MakeHeadLinks(n: Node, ghost l: Lists, ghost repr: set<Node>)
    requires Enabled(Op.MakeHead(n), l) && Disjoint(l) && Inside(l, repr) && Sound(l)
    modifies repr
    ensures var l' := Apply(Op.MakeHead(n), l); Sound(l')
  {
    OthersAreApart(l, {});
    Init(n);
    Rejoin(l, Apply(Op.MakeHead(n), l), n, n);
  }

  method AddHeadLinks(h: Node, n: Node, ghost l: Lists, ghost repr: set<Node>)
    requires Enabled(Op.AddHead(h, n), l) && Disjoint(l) && Inside(l, repr) && Sound(l)
    modifies repr
    ensures var l' := Apply(Op.AddHead(h, n), l); Sound(l')
  {
    OthersAreApart(l, {h, h});
    EndsOnRing(h, l.on[h]);
    AddToHead(h, n, l.on[h]);
    Rejoin(l, Apply(Op.AddHead(h, n), l), h, h);
  }

  method AddTailLinks(h: Node, n: Node, ghost l: Lists, ghost repr: set<Node>)
    requires Enabled(Op.AddTail(h, n), l) && Disjoint(l) && Inside(l, repr) && Sound(l)
    modifies repr
    ensures var l' := Apply(Op.AddTail(h, n), l); Sound(l')
  {
    OthersAreApart(l, {h, h});
    EndsOnRing(h, l.on[h]);
    AddToTail(h, n, l.on[h]);
    Rejoin(l, Apply(Op.AddTail(h, n), l), h, h);
  }

  method RemoveLinks(n: Node, ghost h: Node, ghost k: nat, ghost l: Lists, ghost repr: set<Node>)
    requires Enabled(Op.Remove(n, h, k), l) && Disjoint(l) && Inside(l, repr) && Sound(l)
    modifies repr
    ensures var l' := Apply(Op.Remove(n, h, k), l); Sound(l')
  {
    OthersAreApart(l, {h, h});
    Neighbours(h, l.on[h], k);
    RemoveNode(n, h, l.on[h], k);
    Rejoin(l, Apply(Op.Remove(n, h, k), l), h, h);
  }

  method ReplaceLinks(h: Node, g: Node, ghost l: Lists, ghost repr: set<Node>)
    requires Enabled(Op.Replace(h, g), l) && Disjoint(l) && Inside(l, repr) && Sound(l)
    modifies repr
    ensures var l' := Apply(Op.Replace(h, g), l); Sound(l')
  {
    OthersAreApart(l, {h, g});
    ReplaceHead(h, g, l.on[h]);
    Rejoin(l, Apply(Op.Replace(h, g), l), h, g);
  }

  method InsertListLinks(out: Node, ins: Node, ghost l: Lists, ghost repr: set<Node>)
    requires Enabled(Op.InsertList(out, ins), l) && Disjoint(l) && Inside(l, repr) && Sound(l)
    modifies repr
    ensures var l' := Apply(Op.InsertList(out, ins), l); Sound(l')
  {
    OthersAreApart(l, {out, ins});
    InsertListAtHead(out, ins, l.on[out], l.on[ins]);
    Rejoin(l, Apply(Op.InsertList(out, ins), l), out, ins);
  }

  method RemoveWhereLinks(h: Node, drop: Node -> bool, ghost l: Lists, ghost repr: set<Node>)
      returns (visited: seq<Node>)
    requires Enabled(Op.RemoveWhere(h, drop), l) && Disjoint(l) && Inside(l, repr) && Sound(l)
    modifies repr
    ensures var l' := Apply(Op.RemoveWhere(h, drop), l); Sound(l')
    ensures visited == l.on[h]
  {
    OthersAreApart(l, {h, h});
    visited := ForeachNode(h, drop, l.on[h]);
    Rejoin(l, Apply(Op.RemoveWhere(h, drop), l), h, h);
  }

  method SortByLinks(h: Node, cmpr: (Node, Node) -> bool, ghost l: Lists, ghost repr: set<Node>)
    requires Enabled(Op.SortBy(h, cmpr), l) && Disjoint(l) && Inside(l, repr) && Sound(l)
    modifies repr
    ensures var l' := Apply(Op.SortBy(h, cmpr), l); Sound(l')
  {
    OthersAreApart(l, {h, h});
    Sort(h, cmpr, l.on[h]);
    Rejoin(l, Apply(Op.SortBy(h, cmpr), l), h, h);
  }

  method ApplyLinks(op: Op, ghost l: Lists, ghost repr: set<Node>)
    requires Enabled(op, l) && Disjoint(l) && Inside(l, repr) && Sound(l)
    modifies repr
    ensures Sound(Apply(op, l))
  {
    match op
    case MakeHead(n) => MakeHeadLinks(n, l, repr);
    case AddHead(h, n) => AddHeadLinks(h, n, l, repr);
    case AddTail(h, n) => AddTailLinks(h, n, l, repr);
    case Remove(n, h, k) => RemoveLinks(n, h, k, l, repr);
    case Replace(h, g) => ReplaceLinks(h, g, l, repr);
    case InsertList(out, ins) => InsertListLinks(out, ins, l, repr);
    case RemoveWhere(h, drop) => var _ := RemoveWhereLinks(h, drop, l, repr);
    case SortBy(h, cmpr) => SortByLinks(h, cmpr, l, repr);
  }

  /** No operation makes two lists share a node. */
  lemma ApplyKeepsDisjoint(op: Op, l: Lists, repr: set<Node>)
    requires Enabled(op, l) && Disjoint(l) && Inside(l, repr)
    requires forall h :: h in l.on ==> Distinct(l.on[h])
    ensures Disjoint(Apply(op, l)) && Inside(Apply(op, l), repr)
  {
    match op
    case MakeHead(n) =>
    case AddHead(h, n) => UpdateKeepsDisjoint(l, repr, h, [n] + l.on[h], {n}, {});
    case AddTail(h, n) => UpdateKeepsDisjoint(l, repr, h, l.on[h] + [n], {n}, {});
    case Remove(n, h, k) => UpdateKeepsDisjoint(l, repr, h, Without(l.on[h], k), {}, {l.on[h][k]});
    case Replace(h, g) => MoveKeepsDisjoint(l, repr, h, g, l.on[h]);
    case InsertList(out, ins) => MoveKeepsDisjoint(l, repr, ins, out, l.on[ins] + l.on[out]);
    case RemoveWhere(h, drop) =>
      FilterIsWithin(Kept(drop), l.on[h]);
      UpdateKeepsDisjoint(l, repr, h, Filter(Kept(drop), l.on[h]), {}, set n | n in Elements(l.on[h]) && drop(n));
    case SortBy(h, cmpr) =>
      SortedKeepsElements(cmpr, l.on[h]);
      UpdateKeepsDisjoint(l, repr, h, Sorted(cmpr, l.on[h]), {}, {});
  }

  // ---------- What a caller sees ----------

  /** The same heads, and only those of `hs` may own another list. */
  ghost predicate SameBut(l: Lists, l': Lists, hs: set<Node>) {
    l'.on.Keys == l.on.Keys && forall g :: g in l.on && g !in hs ==> l'.on[g] == l.on[g]
  }

  /** The elements of `t` are those at the places `at` of `s`, in order. */
  ghost predicate Places(s: seq<Node>, t: seq<Node>, at: seq<nat>) {
    && |at| == |t|
    && (forall i :: 0 <= i < |t| ==> at[i] < |s| && s[at[i]] == t[i])
    && (forall i, j :: 0 <= i < j < |t| ==> at[i] < at[j])
  }

  /** Just the elements not dropped are kept, in their order. */
  ghost predicate KeptInOrder(s: seq<Node>, t: seq<Node>, drop: Node -> bool) {
    && (exists at :: Places(s, t, at))
    && (forall i :: 0 <= i < |t| ==> !drop(t[i]))
    && (forall i :: 0 <= i < |s| ==> drop(s[i]) || s[i] in t)
  }

  /** An operation by what a caller sees of it, whatever function computes it. */
  ghost predicate Shows(op: Op, l: Lists, l': Lists)
    requires Enabled(op, l)
  {
    match op
    case MakeHead(n) =>
      && l'.on.Keys == l.on.Keys + {n} && l'.on[n] == [] && l'.off == l.off - {n}
      && forall g :: g in l.on ==> l'.on[g] == l.on[g]
    case AddHead(h, n) => SameBut(l, l', {h}) && l'.on[h] == [n] + l.on[h] && l'.off == l.off - {n}
    case AddTail(h, n) => SameBut(l, l', {h}) && l'.on[h] == l.on[h] + [n] && l'.off == l.off - {n}
    case Remove(n, h, k) =>
      SameBut(l, l', {h}) && l'.on[h] == l.on[h][..k] + l.on[h][k + 1..] && l'.off == l.off + {n}
    case Replace(h, g) =>
      SameBut(l, l', {h, g}) && l'.on[h] == [] && (h != g ==> l'.on[g] == l.on[h]) && l'.off == l.off
    case InsertList(out, ins) =>
      SameBut(l, l', {out, ins}) && l'.on[out] == l.on[ins] + l.on[out] && l'.on[ins] == [] && l'.off == l.off
    case RemoveWhere(h, drop) =>
      && SameBut(l, l', {h}) && KeptInOrder(l.on[h], l'.on[h], drop)
      && l'.off == l.off + set n | n in l.on[h] && drop(n)
    case SortBy(h, cmpr) =>
      SameBut(l, l', {h}) && multiset(l'.on[h]) == multiset(l.on[h]) && l'.off == l.off
  }

  lemma ApplyShows(op: Op, l: Lists)
    requires Enabled(op, l) && Disjoint(l)
    ensures Shows(op, l, Apply(op, l))
    ensures op.SortBy? ==>
              forall le: (Node, Node) -> bool ::
                TotalPreorder(le, l.on[op.h]) && Consistent(le, op.cmpr, l.on[op.h]) ==>
                  Ordered(le, Apply(op, l).on[op.h])
  {
    hide KeptInOrder, Filter, Sorted, Ordered, TotalPreorder, Consistent;
    match op
    case RemoveWhere(h, drop) => FilterKeepsInOrder(l.on[h], drop);
    case SortBy(h, cmpr) => OrderedBySort(cmpr, l.on[h]);
    case _ =>
  }

  lemma {:induction false} FilterPlaces(s: seq<Node>, drop: Node -> bool) returns (at: seq<nat>)
    ensures Places(s, Filter(Kept(drop), s), at)
  {
    at := [];
    if s != [] {
      var rest := FilterPlaces(s[1..], drop);
      at := seq(|rest|, i requires 0 <= i < |rest| => rest[i] + 1);
      if !drop(s[0]) { at := [0] + at; }
    }
  }

  lemma {:induction false} FilterKeeps(s: seq<Node>, drop: Node -> bool)
    ensures forall n :: n in Filter(Kept(drop), s) <==> n in s && !drop(n)
  {
    if s != [] {
      FilterKeeps(s[1..], drop);
      assert s == [s[0]] + s[1..];
    }
  }

  lemma FilterKeepsInOrder(s: seq<Node>, drop: Node -> bool)
    ensures KeptInOrder(s, Filter(Kept(drop), s), drop)
  {
    hide Filter;
    var at := FilterPlaces(s, drop);
    FilterKeeps(s, drop);
  }

  lemma OrderedBySort(cmpr: (Node, Node) -> bool, s: seq<Node>)
    ensures multiset(Sorted(cmpr, s)) == multiset(s)
    ensures forall le: (Node, Node) -> bool :: TotalPreorder(le, s) && Consistent(le, cmpr, s) ==>
              Ordered(le, Sorted(cmpr, s))
  {
    forall le: (Node, Node) -> bool
      ensures TotalPreorder(le, s) && Consistent(le, cmpr, s) ==> Ordered(le, Sorted(cmpr, s))
    {
      SortedIsOrderedPermutation(le, cmpr, s);
    }
    SortedIsOrderedPermutation((a, b) => true, cmpr, s);
  }

  lemma EndsAreLinked(l: Lists)
    requires Sound(l)
    ensures forall h :: h in l.on ==> LinkedEnds(h, l.on[h])
    ensures forall n :: n in l.off ==> Unlinked(n)
  {
    forall h | h in l.on ensures LinkedEnds(h, l.on[h]) {
      assert Ring(h, l.on[h]);
    }
  }

  /** A head is linked to the ends of its list, and they to it. */
  ghost predicate LinkedEnds(h: Node, s: seq<Node>)
    reads h, s
  {
    if s == [] then h.next == h == h.prev
    else h.next == s[0] && s[0].prev == h && h.prev == s[|s| - 1] && s[|s| - 1].next == h
  }

  // ---------- Whole runs ----------

  /** Every head, element and free node. */
  ghost function AllNodes(l: Lists): set<Node> {
    Others(l, {}) + l.off
  }

  lemma UpdateKeepsNodes(l: Lists, h: Node, t: seq<Node>, off: set<Node>)
    requires h in l.on && Elements(t) + off == Elements(l.on[h]) + l.off
    ensures AllNodes(Lists(l.on[h := t], off)) == AllNodes(l)
  {
    var l' := Lists(l.on[h := t], off);
    assert l'.on[h] == t;
    forall n ensures n in AllNodes(l') <==> n in AllNodes(l) {
      assert n in NodesOf(h, t) ==> n in Others(l', {});
      assert n in NodesOf(h, l.on[h]) ==> n in Others(l, {});
      assert forall g :: g in l.on && g != h && n in NodesOf(g, l.on[g]) ==> n in NodesOf(g, l'.on[g]);
    }
  }

  lemma MoveKeepsNodes(l: Lists, from: Node, to: Node, t: seq<Node>)
    requires from in l.on && to in l.on && Elements(t) == Elements(l.on[from]) + Elements(l.on[to])
    requires from == to ==> t == []
    ensures AllNodes(Lists(l.on[to := t][from := []], l.off)) == AllNodes(l)
  {
    var l' := Lists(l.on[to := t][from := []], l.off);
    forall n ensures n in AllNodes(l') <==> n in AllNodes(l) {
      assert n in NodesOf(to, l'.on[to]) ==> n in Others(l', {});
      assert n in NodesOf(from, l'.on[from]) ==> n in Others(l', {});
      assert n in NodesOf(from, l.on[from]) ==> n in Others(l, {});
      assert n in NodesOf(to, l.on[to]) ==> n in Others(l, {});
      assert forall g :: g in l.on && g != from && g != to && n in NodesOf(g, l.on[g]) ==> n in NodesOf(g, l'.on[g]);
    }
  }

  lemma MakeHeadKeepsNodes(l: Lists, n: Node)
    requires n in l.off && n !in l.on
    ensures AllNodes(Apply(Op.MakeHead(n), l)) == AllNodes(l)
  {
    var l' := Apply(Op.MakeHead(n), l);
    forall m ensures m in AllNodes(l') <==> m in AllNodes(l) {
      assert m in NodesOf(n, l'.on[n]) <==> m == n;
      assert forall g :: g in l.on && m in NodesOf(g, l.on[g]) ==> m in NodesOf(g, l'.on[g]);
    }
  }

  lemma {:induction false} FilterSplits(drop: Node -> bool, s: seq<Node>)
    ensures Elements(s) == Elements(Filter(Kept(drop), s)) + set n | n in Elements(s) && drop(n)
  {
    if s != [] {
      FilterSplits(drop, s[1..]);
      var rest := Filter(Kept(drop), s[1..]);
      assert Elements(s) == {s[0]} + Elements(s[1..]);
      assert Elements([s[0]] + rest) == {s[0]} + Elements(rest);
    }
  }

  lemma WithoutSplits(s: seq<Node>, k: nat)
    requires k < |s|
    ensures Elements(s) == Elements(Without(s, k)) + {s[k]}
  {
    assert s == s[..k] + [s[k]] + s[k + 1..];
  }

  /** No operation loses or invents a node. */
  lemma ApplyKeepsNodes(op: Op, l: Lists)
    requires Enabled(op, l) && Disjoint(l)
    ensures AllNodes(Apply(op, l)) == AllNodes(l)
  {
    var l' := Apply(op, l);
    match op
    case MakeHead(n) => MakeHeadKeepsNodes(l, n);
    case AddHead(h, n) => UpdateKeepsNodes(l, h, [n] + l.on[h], l'.off);
    case AddTail(h, n) => UpdateKeepsNodes(l, h, l.on[h] + [n], l'.off);
    case Remove(n, h, k) =>
      WithoutSplits(l.on[h], k);
      UpdateKeepsNodes(l, h, Without(l.on[h], k), l'.off);
    case Replace(h, g) => MoveKeepsNodes(l, h, g, if h == g then [] else l.on[h]);
    case InsertList(out, ins) => MoveKeepsNodes(l, ins, out, l.on[ins] + l.on[out]);
    case RemoveWhere(h, drop) =>
      FilterSplits(drop, l.on[h]);
      UpdateKeepsNodes(l, h, Filter(Kept(drop), l.on[h]), l'.off);
    case SortBy(h, cmpr) =>
      SortedKeepsElements(cmpr, l.on[h]);
      UpdateKeepsNodes(l, h, Sorted(cmpr, l.on[h]), l'.off);
  }

  ghost predicate OnSomeList(l: Lists, n: Node) {
    exists h :: h in l.on && n in l.on[h]
  }

  /** A fixed set of nodes, every one a head, on one list, or free. */
  class Heap {
    ghost var lists: Lists
    ghost const repr: set<Node>

    ghost predicate Valid()
      reads this, repr
    {
      && Inside(lists, repr)
      && Disjoint(lists)
      && Sound(lists)
    }

    constructor (nodes: set<Node>)
      requires AllUnlinked(nodes)
      ensures Valid() && repr == nodes && lists == Lists(map[], nodes)
    {
      lists := Lists(map[], nodes);
      repr := nodes;
    }

    /** Runs one operation; the links and the meaning agree afterwards. */
    method Step(op: Op)
      requires Valid() && Enabled(op, lists)
      modifies this, repr
      ensures Valid() && lists == Apply(op, old(lists))
      ensures AllNodes(lists) == old(AllNodes(lists))
      ensures Shows(op, old(lists), lists)
      // In particular the ends: a head is linked to the first and last node of its new list.
      ensures match op
              case MakeHead(n) => n.next == n == n.prev
              case AddHead(h, n) => h.next == n && n.prev == h
              case AddTail(h, n) => h.prev == n && n.next == h
              case Remove(n, h, k) => n.next == null && n.prev == null
              case Replace(h, g) =>
                && h.next == h == h.prev
                && (h != g && old(lists.on[h]) != [] ==>
                      g.next == old(lists.on[h][0]) && g.prev == old(lists.on[h][|lists.on[h]| - 1]))
              case InsertList(out, ins) =>
                && ins.next == ins == ins.prev
                && (old(lists.on[ins]) != [] ==> out.next == old(lists.on[ins][0]))
                && (old(lists.on[out]) != [] ==> out.prev == old(lists.on[out][|lists.on[out]| - 1]))
              case RemoveWhere(h, drop) =>
                forall i :: 0 <= i < |old(lists.on[h])| && drop(old(lists.on[h])[i]) ==> Unlinked(old(lists.on[h])[i])
              case SortBy(h, cmpr) =>
                forall le: (Node, Node) -> bool ::
                  TotalPreorder(le, old(lists.on[h])) && Consistent(le, cmpr, old(lists.on[h])) ==>
                    Ordered(le, lists.on[h])
    {
      hide Apply, Inside, Disjoint, AllNodes, KeptInOrder, Linked, Ordered, TotalPreorder, Consistent;
      ghost var l := lists;
      ApplyKeepsNodes(op, lists);
      ApplyKeepsDisjoint(op, lists, repr);
      ApplyShows(op, lists);
      ApplyLinks(op, lists, repr);
      lists := Apply(op, lists);
      EndsAreLinked(lists);
    }

    /** Runs any enabled sequence of operations. */
    method Run(ops: seq<Op>)
      requires Valid() && AllEnabled(ops, lists)
      modifies this, repr
      ensures Valid() && lists == ApplyAll(ops, old(lists))
      ensures AllNodes(lists) == old(AllNodes(lists))
    {
      var i := 0;
      assert ops[0..] == ops;
      while i < |ops|
        invariant 0 <= i <= |ops|
        invariant Valid() && AllEnabled(ops[i..], lists)
        invariant ApplyAll(ops[i..], lists) == ApplyAll(ops, old(lists))
        invariant AllNodes(lists) == old(AllNodes(lists))
      {
        assert ops[i..][0] == ops[i] && ops[i..][1..] == ops[i + 1..];
        Step(ops[i]);
        i := i + 1;
      }
    }

    /** `dllist_node_is_in_list` on a node that is not a head. */
    method IsInList(n: Node) returns (inList: bool)
      requires Valid() && (n in lists.off || OnSomeList(lists, n))
      ensures inList <==> OnSomeList(lists, n)
      ensures inList <==> n !in lists.off
    {
      inList := NodeIsInList(n);
      if OnSomeList(lists, n) {
        ghost var h :| h in lists.on && n in lists.on[h];
        assert Ring(h, lists.on[h]);
      }
    }
  }
}
