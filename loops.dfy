/**
 * Two loop shapes on sequences, stated once for any element type: a loop
 * that maps each element and its position to a result, and a loop that
 * threads a state through the elements and logs one line per element.
 */
module Loops {

  /** `f` applied to each element and its position, in order. */
  function Indexed<A, B>(xs: seq<A>, f: (A, nat) -> B): (ys: seq<B>)
    ensures |ys| == |xs|
    decreases |xs|
  {
    if xs == [] then [] else Indexed(xs[..|xs| - 1], f) + [f(xs[|xs| - 1], |xs| - 1)]
  }

  lemma IndexedAppend<A, B>(xs: seq<A>, x: A, f: (A, nat) -> B)
    ensures Indexed(xs + [x], f) == Indexed(xs, f) + [f(x, |xs|)]
  {
    assert (xs + [x])[..|xs|] == xs;
  }

  lemma {:induction false} IndexedAt<A, B>(xs: seq<A>, f: (A, nat) -> B, k: nat)
    requires k < |xs|
    ensures Indexed(xs, f)[k] == f(xs[k], k)
    decreases |xs|
  {
    var front := xs[..|xs| - 1];
    if k < |front| {
      IndexedAt(front, f, k);
      assert front[k] == xs[k];
    }
  }

  /**
   * The loop that threads a state through `items`: `step` turns the state
   * and one item into the next state and a log line. The result is the
   * final state and the lines, one per item, in order.
   */
  function Fold<S, A, L>(s: S, items: seq<A>, step: (S, A) -> (S, L)): (r: (S, seq<L>))
    ensures |r.1| == |items|
    decreases |items|
  {
    if items == [] then (s, [])
    else
      var prev := Fold(s, items[..|items| - 1], step);
      var next := step(prev.0, items[|items| - 1]);
      (next.0, prev.1 + [next.1])
  }

  /** One more item: one more step from the state reached so far. */
  lemma FoldAppend<S, A, L>(s: S, items: seq<A>, x: A, step: (S, A) -> (S, L))
    ensures var prev := Fold(s, items, step);
      Fold(s, items + [x], step) == (step(prev.0, x).0, prev.1 + [step(prev.0, x).1])
  {
    assert (items + [x])[..|items|] == items;
  }

  /** The `k`-th line is what the step logs for item `k` from the state reached after the first `k` items. */
  lemma {:induction false} FoldLogAt<S, A, L>(s: S, items: seq<A>, step: (S, A) -> (S, L), k: nat)
    requires k < |items|
    ensures Fold(s, items, step).1[k] == step(Fold(s, items[..k], step).0, items[k]).1
    decreases |items|
  {
    var front := items[..|items| - 1];
    if k < |front| {
      FoldLogAt(s, front, step, k);
      assert front[..k] == items[..k] && front[k] == items[k];
    } else {
      assert items[..k] == front;
    }
  }

  /** The step keeps `p` when it starts from state `x` with item `a` and logs an `ok` line. */
  ghost predicate Keeps<S, A, L>(step: (S, A) -> (S, L), p: S -> bool, ok: L -> bool, x: S, a: A) {
    p(x) && ok(step(x, a).1) ==> p(step(x, a).0)
  }

  /**
   * A property of the state that every step keeps when it logs an `ok`
   * line holds at the end, when every line logged is `ok`.
   */
  lemma {:induction false} FoldPreserves<S, A, L>(s: S, items: seq<A>, step: (S, A) -> (S, L),
                                                  p: S -> bool, ok: L -> bool)
    requires p(s)
    requires forall x, a :: Keeps(step, p, ok, x, a)
    requires forall k :: 0 <= k < |items| ==> ok(Fold(s, items, step).1[k])
    ensures p(Fold(s, items, step).0)
    decreases |items|
  {
    if items != [] {
      var front := items[..|items| - 1];
      var prev := Fold(s, front, step);
      var whole := Fold(s, items, step);
      assert forall k :: 0 <= k < |front| ==> whole.1[k] == prev.1[k];
      FoldPreserves(s, front, step, p, ok);
      assert whole.1[|front|] == step(prev.0, items[|front|]).1;
      assert Keeps(step, p, ok, prev.0, items[|front|]);
    }
  }
}
