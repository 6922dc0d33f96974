/** Runs of a system as sequences of states, one more than there are steps, and which steps of a
    run were granted what they asked for. */
module Traces {
  ghost predicate Follows<S, T>(goes: (S, T, S) -> bool, trace: seq<S>, steps: seq<T>) {
    && |trace| == |steps| + 1
    && forall i :: 0 <= i < |steps| ==> goes(trace[i], steps[i], trace[i + 1])
  }

  lemma FollowsPrefix<S, T>(goes: (S, T, S) -> bool, trace: seq<S>, steps: seq<T>)
    requires Follows(goes, trace, steps) && steps != []
    ensures Follows(goes, trace[..|steps|], steps[..|steps| - 1])
  {
  }

  lemma FollowsSnoc<S, T>(goes: (S, T, S) -> bool, trace: seq<S>, steps: seq<T>, step: T, next: S)
    requires Follows(goes, trace, steps) && goes(trace[|steps|], step, next)
    ensures Follows(goes, trace + [next], steps + [step])
  {
  }

  /** The places of the steps that were granted something, in order. */
  ghost function Picked<S, T>(grants: (S, T, S) -> bool, trace: seq<S>, steps: seq<T>): (picked: seq<nat>)
    requires |trace| == |steps| + 1
    ensures Increasing(picked, |steps|)
    ensures forall i :: 0 <= i < |steps| ==> (i in picked <==> grants(trace[i], steps[i], trace[i + 1]))
  {
    if steps == [] then []
    else
      var n := |steps| - 1;
      Picked(grants, trace[..n + 1], steps[..n]) + if grants(trace[n], steps[n], trace[n + 1]) then [n] else []
  }

  ghost predicate Increasing(picked: seq<nat>, n: nat) {
    && (forall i :: 0 <= i < |picked| ==> picked[i] < n)
    && (forall i, j :: 0 <= i < j < |picked| ==> picked[i] < picked[j])
  }

  /** What the steps at these places asked for. */
  ghost function ItemsAt<T, U>(item: T -> U, steps: seq<T>, picked: seq<nat>): seq<U>
    requires Increasing(picked, |steps|)
  {
    seq(|picked|, i requires 0 <= i < |picked| => item(steps[picked[i]]))
  }

  lemma ItemsAtSnoc<T, U>(item: T -> U, steps: seq<T>, picked: seq<nat>, more: seq<nat>)
    requires steps != [] && (more == [] || more == [|steps| - 1])
    requires Increasing(picked, |steps| - 1) && Increasing(picked + more, |steps|)
    ensures ItemsAt(item, steps, picked + more) == ItemsAt(item, steps[..|steps| - 1], picked)
            + if more == [] then [] else [item(steps[|steps| - 1])]
  {
  }

  /** If every step that is granted something adds just that to a list, and no other step
      changes the list, then in a whole run just what was granted is added, in order. */
  lemma {:induction false} RunAddsWhatWasGranted<S(!new), T(!new), U>(
      goes: (S, T, S) -> bool, grants: (S, T, S) -> bool, list: S -> seq<U>, item: T -> U, trace: seq<S>, steps: seq<T>)
    requires Follows(goes, trace, steps)
    requires forall a, step, b :: goes(a, step, b) ==>
               list(b) == list(a) + if grants(a, step, b) then [item(step)] else []
    ensures list(trace[|steps|]) == list(trace[0]) + ItemsAt(item, steps, Picked(grants, trace, steps))
  {
    if steps == [] {
      assert ItemsAt(item, steps, []) == [];
    } else {
      var n := |steps| - 1;
      FollowsPrefix(goes, trace, steps);
      RunAddsWhatWasGranted(goes, grants, list, item, trace[..n + 1], steps[..n]);
      var picked := Picked(grants, trace[..n + 1], steps[..n]);
      var more := if grants(trace[n], steps[n], trace[n + 1]) then [n] else [];
      assert Picked(grants, trace, steps) == picked + more;
      assert goes(trace[n], steps[n], trace[n + 1]);
      ItemsAtSnoc(item, steps, picked, more);
    }
  }

  /** What every step keeps or extends, a whole run does. */
  lemma {:induction false} RunExtends<S(!new), T(!new), U>(
      goes: (S, T, S) -> bool, list: S -> seq<U>, trace: seq<S>, steps: seq<T>)
    requires Follows(goes, trace, steps)
    requires forall a, step, b :: goes(a, step, b) ==> list(a) <= list(b)
    ensures list(trace[0]) <= list(trace[|steps|])
  {
    if steps != [] {
      var n := |steps| - 1;
      FollowsPrefix(goes, trace, steps);
      RunExtends(goes, list, trace[..n + 1], steps[..n]);
      assert goes(trace[n], steps[n], trace[n + 1]);
    }
  }
}
