/** The order that `dllist_sort` produces, as a function on sequences.

    The header calls the routine an insertion sort. The code drains the list into
    a temporary head (which reverses it) and then repeatedly scans that list for the
    node to take next: the first node is the candidate, and a later node replaces the
    candidate whenever `cmpr(candidate, later)` answers true. */
module SelectionSort {

  function Reverse<T>(s: seq<T>): seq<T> {
    if s == [] then [] else Reverse(s[1..]) + [s[0]]
  }

  function Without<T>(s: seq<T>, k: nat): seq<T>
    requires k < |s|
  {
    s[..k] + s[k + 1..]
  }

  /** The candidate's index after the scan has looked at the first `n` elements. */
  function Pick<T>(cmpr: (T, T) -> bool, s: seq<T>, n: nat): (k: nat)
    requires 0 < n <= |s|
    ensures k < n
  {
    if n == 1 then 0
    else
      var k := Pick(cmpr, s, n - 1);
      if cmpr(s[k], s[n - 1]) then n - 1 else k
  }

  /** Repeatedly takes the picked element. */
  function Drain<T>(cmpr: (T, T) -> bool, s: seq<T>): seq<T>
    decreases |s|
  {
    if s == [] then []
    else
      var k := Pick(cmpr, s, |s|);
      [s[k]] + Drain(cmpr, Without(s, k))
  }

  function Sorted<T>(cmpr: (T, T) -> bool, s: seq<T>): seq<T> {
    Drain(cmpr, Reverse(s))
  }

  ghost predicate Within<T>(s: seq<T>, t: seq<T>) {
    forall i :: 0 <= i < |s| ==> s[i] in t
  }

  lemma WithoutKeepsRest<T>(s: seq<T>, k: nat)
    requires k < |s|
    ensures multiset(s) == multiset{s[k]} + multiset(Without(s, k))
    ensures Within(Without(s, k), s)
  {
    assert s == s[..k] + [s[k]] + s[k + 1..];
  }

  lemma {:induction false} DrainIsPermutation<T>(cmpr: (T, T) -> bool, s: seq<T>)
    ensures multiset(Drain(cmpr, s)) == multiset(s)
    decreases |s|
  {
    if s != [] {
      var k := Pick(cmpr, s, |s|);
      WithoutKeepsRest(s, k);
      DrainIsPermutation(cmpr, Without(s, k));
    }
  }

  lemma {:induction false} ReverseIsPermutation<T>(s: seq<T>)
    ensures multiset(Reverse(s)) == multiset(s)
  {
    if s != [] {
      ReverseIsPermutation(s[1..]);
      assert s == [s[0]] + s[1..];
    }
  }

  lemma {:induction false} ReverseSnoc<T>(s: seq<T>, x: T)
    ensures Reverse(s + [x]) == [x] + Reverse(s)
  {
    if s == [] {
      assert s + [x] == [x];
    } else {
      ReverseSnoc(s[1..], x);
      assert (s + [x])[0] == s[0] && (s + [x])[1..] == s[1..] + [x];
    }
  }

  lemma {:induction false} ReverseTwice<T>(s: seq<T>)
    ensures Reverse(Reverse(s)) == s
  {
    if s != [] {
      ReverseTwice(s[1..]);
      ReverseSnoc(Reverse(s[1..]), s[0]);
    }
  }

  lemma SameElements<T>(s: seq<T>, t: seq<T>)
    requires multiset(s) == multiset(t)
    ensures |s| == |t|
    ensures Within(s, t) && Within(t, s)
  {
    assert |s| == |multiset(s)|;
    forall i | 0 <= i < |s| ensures s[i] in t {
      assert s[i] in multiset(t);
    }
    forall i | 0 <= i < |t| ensures t[i] in s {
      assert t[i] in multiset(s);
    }
  }

  // ---------- What a client has to provide ----------

  /** `le` is a total preorder on the elements of `s`. */
  ghost predicate TotalPreorder<T>(le: (T, T) -> bool, s: seq<T>) {
    && (forall a, b :: a in s && b in s ==> le(a, b) || le(b, a))
    && (forall a, b, c :: a in s && b in s && c in s && le(a, b) && le(b, c) ==> le(a, c))
  }

  /** The comparator asks for a swap whenever the next node is strictly smaller, and
      never when it is strictly larger; on ties it may answer either way. */
  ghost predicate Consistent<T>(le: (T, T) -> bool, cmpr: (T, T) -> bool, s: seq<T>) {
    forall a, b :: a in s && b in s ==>
      && (!le(a, b) ==> cmpr(a, b))
      && (!le(b, a) ==> !cmpr(a, b))
  }

  ghost predicate Ordered<T>(le: (T, T) -> bool, s: seq<T>) {
    forall i, j :: 0 <= i < j < |s| ==> le(s[i], s[j])
  }

  // ---------- Sortedness ----------

  lemma {:induction false} PickIsLeast<T>(le: (T, T) -> bool, cmpr: (T, T) -> bool, s: seq<T>, n: nat)
    requires 0 < n <= |s| && TotalPreorder(le, s) && Consistent(le, cmpr, s)
    ensures forall i :: 0 <= i < n ==> le(s[Pick(cmpr, s, n)], s[i])
  {
    if n > 1 {
      PickIsLeast(le, cmpr, s, n - 1);
      var k := Pick(cmpr, s, n - 1);
      assert s[k] in s && s[n - 1] in s;
      forall i | 0 <= i < n
        ensures le(s[Pick(cmpr, s, n)], s[i])
      {
        assert s[i] in s;
      }
    } else {
      assert s[0] in s;
    }
  }

  lemma {:induction false} DrainIsOrdered<T>(le: (T, T) -> bool, cmpr: (T, T) -> bool, s: seq<T>)
    requires TotalPreorder(le, s) && Consistent(le, cmpr, s)
    ensures Ordered(le, Drain(cmpr, s))
    decreases |s|
  {
    if s != [] {
      var k := Pick(cmpr, s, |s|);
      var rest := Without(s, k);
      WithoutKeepsRest(s, k);
      DrainIsOrdered(le, cmpr, rest);
      var tail := Drain(cmpr, rest);
      DrainIsPermutation(cmpr, rest);
      SameElements(tail, rest);
      PickIsLeast(le, cmpr, s, |s|);
      forall j | 0 <= j < |tail| ensures le(s[k], tail[j]) {
        assert tail[j] in rest;
      }
      ConsIsOrdered(le, s[k], tail);
    }
  }

  lemma ConsIsOrdered<T>(le: (T, T) -> bool, x: T, s: seq<T>)
    requires Ordered(le, s) && forall j :: 0 <= j < |s| ==> le(x, s[j])
    ensures Ordered(le, [x] + s)
  {
  }

  /** Whatever the comparator answers, the result is a rearrangement of the list;
      with a consistent comparator it is in order. */
  lemma SortedIsOrderedPermutation<T>(le: (T, T) -> bool, cmpr: (T, T) -> bool, s: seq<T>)
    ensures multiset(Sorted(cmpr, s)) == multiset(s)
    ensures TotalPreorder(le, s) && Consistent(le, cmpr, s) ==> Ordered(le, Sorted(cmpr, s))
  {
    var r := Reverse(s);
    ReverseIsPermutation(s);
    DrainIsPermutation(cmpr, r);
    SameElements(r, s);
    if TotalPreorder(le, s) && Consistent(le, cmpr, s) {
      DrainIsOrdered(le, cmpr, r);
    }
  }

  lemma SortedKeepsElements<T>(cmpr: (T, T) -> bool, s: seq<T>)
    ensures |Sorted(cmpr, s)| == |s|
    ensures Within(Sorted(cmpr, s), s) && Within(s, Sorted(cmpr, s))
  {
    ReverseIsPermutation(s);
    DrainIsPermutation(cmpr, Reverse(s));
    SameElements(Sorted(cmpr, s), s);
  }

  lemma SortsPair<T>(cmpr: (T, T) -> bool, a: T, b: T)
    ensures Sorted(cmpr, [b, a]) == if cmpr(a, b) then [b, a] else [a, b]
  {
    var k := Pick(cmpr, [a, b], 2);
    assert k == if cmpr(a, b) then 1 else 0 by {
      assert Pick(cmpr, [a, b], 1) == 0;
    }
    assert Without([a, b], k) == if cmpr(a, b) then [a] else [b];
    DrainSingle(cmpr, a);
    DrainSingle(cmpr, b);
    ReverseSnoc([b], a);
    assert [b] + [a] == [b, a] && [b][1..] == [];
    assert Reverse([b]) == [b];
  }

  lemma DrainSingle<T>(cmpr: (T, T) -> bool, a: T)
    ensures Drain(cmpr, [a]) == [a]
  {
    assert Without([a], 0) == [];
  }

  /** Consistency is not only enough but needed: a comparator orders every list over
      the elements of `s` exactly when it is consistent on them. */
  lemma OrdersEveryListIffConsistent<T>(le: (T, T) -> bool, cmpr: (T, T) -> bool, s: seq<T>)
    requires TotalPreorder(le, s)
    ensures Consistent(le, cmpr, s) <==>
            forall t: seq<T> :: Within(t, s) ==> Ordered(le, Sorted(cmpr, t))
  {
    if Consistent(le, cmpr, s) {
      forall t: seq<T> | Within(t, s)
        ensures Ordered(le, Sorted(cmpr, t))
      {
        SortedIsOrderedPermutation(le, cmpr, t);
      }
    } else {
      var a, b :| a in s && b in s && !((!le(a, b) ==> cmpr(a, b)) && (!le(b, a) ==> !cmpr(a, b)));
      InconsistentPairIsNotOrdered(le, cmpr, a, b);
      assert Within([b, a], s);
    }
  }

  lemma InconsistentPairIsNotOrdered<T>(le: (T, T) -> bool, cmpr: (T, T) -> bool, a: T, b: T)
    requires le(a, b) || le(b, a)
    requires (!le(a, b) && !cmpr(a, b)) || (!le(b, a) && cmpr(a, b))
    ensures !Ordered(le, Sorted(cmpr, [b, a]))
  {
    SortsPair(cmpr, a, b);
    var r := Sorted(cmpr, [b, a]);
    assert !le(r[0], r[1]);
  }

  // ---------- Tie order ----------

  /** The elements of `s` that `p` selects, in order. */
  function Filter<T>(p: T -> bool, s: seq<T>): seq<T> {
    if s == [] then [] else (if p(s[0]) then [s[0]] else []) + Filter(p, s[1..])
  }

  lemma {:induction false} FilterConcat<T>(p: T -> bool, s: seq<T>, t: seq<T>)
    ensures Filter(p, s + t) == Filter(p, s) + Filter(p, t)
  {
    if s == [] {
      assert s + t == t;
    } else {
      var u := s + t;
      assert u[0] == s[0] && u[1..] == s[1..] + t;
      FilterConcat(p, s[1..], t);
      assert Filter(p, u) == (if p(s[0]) then [s[0]] else []) + (Filter(p, s[1..]) + Filter(p, t));
    }
  }

  lemma {:induction false} FilterNone<T>(p: T -> bool, s: seq<T>)
    requires forall i :: 0 <= i < |s| ==> !p(s[i])
    ensures Filter(p, s) == []
  {
    if s != [] { FilterNone(p, s[1..]); }
  }

  lemma FilterSingle<T>(p: T -> bool, x: T)
    ensures Filter(p, [x]) == if p(x) then [x] else []
  {
    assert [x][1..] == [];
  }

  lemma {:induction false} FilterReverse<T>(p: T -> bool, s: seq<T>)
    ensures Filter(p, Reverse(s)) == Reverse(Filter(p, s))
  {
    if s != [] {
      FilterReverse(p, s[1..]);
      FilterConcat(p, Reverse(s[1..]), [s[0]]);
      FilterSingle(p, s[0]);
      if p(s[0]) {
        ReverseCons(s[0], Filter(p, s[1..]));
      } else {
        assert Filter(p, s) == Filter(p, s[1..]);
      }
    }
  }

  lemma ReverseCons<T>(x: T, s: seq<T>)
    ensures Reverse([x] + s) == Reverse(s) + [x]
  {
    assert ([x] + s)[1..] == s;
  }

  /** What filtering keeps around index `k`. */
  lemma FilterAround<T>(p: T -> bool, s: seq<T>, k: nat)
    requires k < |s|
    ensures Filter(p, s) == Filter(p, s[..k]) + ((if p(s[k]) then [s[k]] else []) + Filter(p, s[k + 1..]))
    ensures Filter(p, Without(s, k)) == Filter(p, s[..k]) + Filter(p, s[k + 1..])
  {
    FilterConcat(p, s[..k], s[k + 1..]);
    FilterConcat(p, s[..k], s[k..]);
    assert s == s[..k] + s[k..];
  }

  /** A strict comparator swaps only for a strictly smaller node. */
  ghost predicate Strict<T>(le: (T, T) -> bool, cmpr: (T, T) -> bool, s: seq<T>) {
    forall a, b :: a in s && b in s ==> (cmpr(a, b) <==> !le(a, b))
  }

  /** A lax comparator swaps for a strictly smaller or tied node. */
  ghost predicate Lax<T>(le: (T, T) -> bool, cmpr: (T, T) -> bool, s: seq<T>) {
    forall a, b :: a in s && b in s ==> (cmpr(a, b) <==> le(b, a))
  }

  function Tied<T>(le: (T, T) -> bool, e: T): T -> bool {
    x => le(e, x) && le(x, e)
  }

  /** A strict scan keeps the first of the least elements, a lax one the last. */
  lemma {:induction false} PickAmongTies<T>(le: (T, T) -> bool, cmpr: (T, T) -> bool, s: seq<T>, n: nat)
    requires 0 < n <= |s| && TotalPreorder(le, s)
    ensures Strict(le, cmpr, s) ==> forall i :: 0 <= i < Pick(cmpr, s, n) ==> !le(s[i], s[Pick(cmpr, s, n)])
    ensures Lax(le, cmpr, s) ==> forall i :: Pick(cmpr, s, n) < i < n ==> !le(s[i], s[Pick(cmpr, s, n)])
  {
    if n > 1 {
      PickAmongTies(le, cmpr, s, n - 1);
      var k := Pick(cmpr, s, n - 1);
      assert s[k] in s && s[n - 1] in s;
      if Strict(le, cmpr, s) && cmpr(s[k], s[n - 1]) {
        PickIsLeast(le, cmpr, s, n - 1);
        forall i | 0 <= i < n - 1 ensures !le(s[i], s[n - 1]) {
          assert s[i] in s;
        }
      }
    }
  }

  lemma NoTieWith<T>(le: (T, T) -> bool, all: seq<T>, e: T, y: T, t: seq<T>)
    requires TotalPreorder(le, all) && e in all && y in all && Tied(le, e)(y)
    requires Within(t, all) && forall i :: 0 <= i < |t| ==> !le(t[i], y)
    ensures Filter(Tied(le, e), t) == []
  {
    FilterNone(Tied(le, e), t);
  }

  lemma TakeFirst<T>(p: T -> bool, s: seq<T>, k: nat)
    requires k < |s| && (p(s[k]) ==> Filter(p, s[..k]) == [])
    ensures Filter(p, s) == (if p(s[k]) then [s[k]] else []) + Filter(p, Without(s, k))
  {
    FilterAround(p, s, k);
  }

  lemma TakeLast<T>(p: T -> bool, s: seq<T>, k: nat)
    requires k < |s| && (p(s[k]) ==> Filter(p, s[k + 1..]) == [])
    ensures Filter(p, s) == Filter(p, Without(s, k)) + (if p(s[k]) then [s[k]] else [])
  {
    FilterAround(p, s, k);
  }

  lemma DrainHead<T>(p: T -> bool, x: T, rest: seq<T>)
    ensures Filter(p, [x] + rest) == (if p(x) then [x] else []) + Filter(p, rest)
  {
    assert ([x] + rest)[1..] == rest;
  }

  /** `s` is what is left of `all`; `e` may already have been taken from it. */
  lemma {:induction false} DrainTiesStrict<T>(le: (T, T) -> bool, cmpr: (T, T) -> bool, all: seq<T>, s: seq<T>, e: T)
    requires TotalPreorder(le, all) && Strict(le, cmpr, all) && e in all && Within(s, all)
    ensures Filter(Tied(le, e), Drain(cmpr, s)) == Filter(Tied(le, e), s)
    decreases |s|
  {
    if s != [] {
      var k := Pick(cmpr, s, |s|);
      var rest := Without(s, k);
      WithoutKeepsRest(s, k);
      DrainTiesStrict(le, cmpr, all, rest, e);
      PickAmongTies(le, cmpr, s, |s|);
      if Tied(le, e)(s[k]) {
        NoTieWith(le, all, e, s[k], s[..k]);
      }
      TakeFirst(Tied(le, e), s, k);
      DrainHead(Tied(le, e), s[k], Drain(cmpr, rest));
    }
  }

  lemma {:induction false} DrainTiesLax<T>(le: (T, T) -> bool, cmpr: (T, T) -> bool, all: seq<T>, s: seq<T>, e: T)
    requires TotalPreorder(le, all) && Lax(le, cmpr, all) && e in all && Within(s, all)
    ensures Filter(Tied(le, e), Drain(cmpr, s)) == Reverse(Filter(Tied(le, e), s))
    decreases |s|
  {
    if s != [] {
      var p := Tied(le, e);
      var k := Pick(cmpr, s, |s|);
      var rest := Without(s, k);
      WithoutKeepsRest(s, k);
      DrainTiesLax(le, cmpr, all, rest, e);
      PickAmongTies(le, cmpr, s, |s|);
      if p(s[k]) {
        NoTieWith(le, all, e, s[k], s[k + 1..]);
      }
      TakeLast(p, s, k);
      DrainHead(p, s[k], Drain(cmpr, rest));
      if p(s[k]) {
        ReverseSnoc(Filter(p, rest), s[k]);
      } else {
        assert Filter(p, s) == Filter(p, rest);
      }
    }
  }

  /** `dllist_sort` leaves tied nodes in reverse original order under a strict
      comparator and in original order under a lax one. */
  lemma SortedTies<T>(le: (T, T) -> bool, cmpr: (T, T) -> bool, s: seq<T>, e: T)
    requires TotalPreorder(le, s) && e in s
    ensures Strict(le, cmpr, s) ==> Filter(Tied(le, e), Sorted(cmpr, s)) == Reverse(Filter(Tied(le, e), s))
    ensures Lax(le, cmpr, s) ==> Filter(Tied(le, e), Sorted(cmpr, s)) == Filter(Tied(le, e), s)
  {
    var r := Reverse(s);
    ReverseIsPermutation(s);
    SameElements(r, s);
    FilterReverse(Tied(le, e), s);
    if Strict(le, cmpr, s) {
      DrainTiesStrict(le, cmpr, s, r, e);
    }
    if Lax(le, cmpr, s) {
      DrainTiesLax(le, cmpr, s, r, e);
      ReverseTwice(Filter(Tied(le, e), s));
    }
  }
}
