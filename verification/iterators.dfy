/** The iteration capabilities of `core::iter` that every payload of an
    `AnonIterN` must provide, stated over an abstract iterator state `S`.

    A payload type is modelled by its state and the functions its trait impls
    supply: `next: S -> Step<T, S>` for `Iterator`, `nextBack` of the same type
    for `DoubleEndedIterator` and `len: S -> nat` for `ExactSizeIterator`.
    `&mut self` becomes "old state in, new state out". */
module Iterators {
  import opened Options

  /** The outcome of one call to `next` or `next_back`: the item produced
      (`None` when the iterator reports exhaustion) and the state afterwards. */
  datatype Step<T, S> = Step(item: Option<T>, rest: S)

  /** The end a double-ended iterator is pulled from. */
  datatype End = Front | Back

  /** The results of a series of calls, in call order, and the final state. */
  datatype Run<T, S> = Run(items: seq<Option<T>>, rest: S)

  /** `k` successive calls of `next`, starting from state `s`. */
  function Pull<T, S>(next: S -> Step<T, S>, s: S, k: nat): (r: Run<T, S>)
    ensures |r.items| == k
    decreases k
  {
    if k == 0 then Run([], s)
    else
      var st := next(s);
      var tail := Pull(next, st.rest, k - 1);
      Run([st.item] + tail.items, tail.rest)
  }

  /** One call per entry of `ops`, `next` for `Front` and `nextBack` for `Back`,
      starting from state `s`. */
  function Drive<T, S>(next: S -> Step<T, S>, nextBack: S -> Step<T, S>, s: S, ops: seq<End>): (r: Run<T, S>)
    ensures |r.items| == |ops|
    decreases |ops|
  {
    if |ops| == 0 then Run([], s)
    else
      var st := if ops[0].Front? then next(s) else nextBack(s);
      var tail := Drive(next, nextBack, st.rest, ops[1..]);
      Run([st.item] + tail.items, tail.rest)
  }

  /** `FusedIterator`: once `next` has returned `None`, the next call (and so,
      by induction, every later call) returns `None` as well. */
  ghost predicate Fused<T, S(!new)>(next: S -> Step<T, S>) {
    forall s :: next(s).item.None? ==> next(next(s).rest).item.None?
  }

  /** `ExactSizeIterator` for the pulling function `next`: `len` is positive
      exactly when `next` yields an item, and each item yielded lowers it by one. */
  ghost predicate ExactSize<T, S(!new)>(next: S -> Step<T, S>, len: S -> nat) {
    forall s :: ExactSizeStep(next, len, s)
  }

  /** The `ExactSizeIterator` obligation at one state `s`. */
  ghost predicate ExactSizeStep<T, S>(next: S -> Step<T, S>, len: S -> nat, s: S) {
    && (next(s).item.Some? <==> len(s) > 0)
    && (next(s).item.Some? ==> len(next(s).rest) == len(s) - 1)
  }

  /** The value of `Iterator::size_hint`: a lower bound on the items left and
      an upper bound, `None` when unbounded. */
  datatype SizeHint = SizeHint(lower: nat, upper: Option<nat>)

  /** The documented obligation of every `ExactSizeIterator`: `size_hint`
      returns the exact size, `(len, Some(len))`. */
  ghost predicate HintIsExact<S(!new)>(hint: S -> SizeHint, len: S -> nat) {
    forall s :: hint(s) == SizeHint(len(s), Some(len(s)))
  }

  /** What a fused iterator over the finite list `xs` yields in `k` calls:
      the items of `xs` in order, then `None` for every further call. */
  function Expected<T>(xs: seq<T>, k: nat): (r: seq<Option<T>>)
    ensures |r| == k
  {
    seq(k, i requires 0 <= i < k => if i < |xs| then Some(xs[i]) else None)
  }

  /** Pulling `j + k` times is pulling `j` times and then `k` more times from
      where the first run stopped. */
  lemma {:induction false} PullSplit<T, S>(next: S -> Step<T, S>, s: S, j: nat, k: nat)
    ensures Pull(next, s, j + k).items == Pull(next, s, j).items + Pull(next, Pull(next, s, j).rest, k).items
    ensures Pull(next, s, j + k).rest == Pull(next, Pull(next, s, j).rest, k).rest
    decreases j
  {
    if j > 0 {
      PullSplit(next, next(s).rest, j - 1, k);
      assert j + k - 1 == (j - 1) + k;
    }
  }

  /** A fused iterator that has returned `None` keeps returning `None`: every
      one of `k` calls made from an exhausted state yields nothing. */
  lemma {:induction false} FusedStaysExhausted<T, S(!new)>(next: S -> Step<T, S>, s: S, k: nat)
    requires Fused(next)
    requires next(s).item.None?
    ensures forall i :: 0 <= i < k ==> Pull(next, s, k).items[i].None?
    decreases k
  {
    if k > 0 {
      FusedStaysExhausted(next, next(s).rest, k - 1);
    }
  }

  /** Under `ExactSizeIterator`, consuming `k <= len(s)` items yields `k` items
      and lowers the reported length by exactly `k`. */
  lemma {:induction false} ExactSizeConsume<T, S(!new)>(next: S -> Step<T, S>, len: S -> nat, s: S, k: nat)
    requires ExactSize(next, len)
    requires k <= len(s)
    ensures forall i :: 0 <= i < k ==> Pull(next, s, k).items[i].Some?
    ensures len(Pull(next, s, k).rest) == len(s) - k
    decreases k
  {
    if k > 0 {
      assert ExactSizeStep(next, len, s);
      ExactSizeConsume(next, len, next(s).rest, k - 1);
    }
  }

  /** Under `ExactSizeIterator`, the length reported before any consumption is
      the number of items subsequently produced: `len(s)` calls all yield an
      item, and the call after them yields `None`. */
  lemma LenCountsItems<T, S(!new)>(next: S -> Step<T, S>, len: S -> nat, s: S)
    requires ExactSize(next, len)
    ensures var r := Pull(next, s, len(s) + 1);
      && (forall i :: 0 <= i < len(s) ==> r.items[i].Some?)
      && r.items[len(s)].None?
  {
    var n := len(s);
    ExactSizeConsume(next, len, s, n);
    PullSplit(next, s, n, 1);
    var mid := Pull(next, s, n).rest;
    assert len(mid) == 0 && ExactSizeStep(next, len, mid);
    assert Pull(next, mid, 1).items == [next(mid).item];
  }
}
