/** The two payload iterators of the crate's usage example: a vector's owning
    iterator (`vec::IntoIter`) and an integer range (`core::ops::Range<i32>`).
    Both are foreign library code; they are modelled by the items they still
    have to produce, which is all the wrapper can observe of them. */
module Payloads {
  import opened Options
  import opened Iterators

  /** An iterator over a finite list, such as `vec![5, 10].into_iter()`:
      the state is the list of items not yet produced. */
  datatype SeqIter<T> = SeqIter(items: seq<T>)

  /** `next` takes the front item off the list. */
  function SeqNext<T>(it: SeqIter<T>): (r: Step<T, SeqIter<T>>)
    ensures r.item.None? <==> |it.items| == 0
    ensures r.item.Some? ==> it.items == [r.item.value] + r.rest.items
    ensures r.item.None? ==> r.rest == it
  {
    if |it.items| == 0 then Step(None, it)
    else Step(Some(it.items[0]), SeqIter(it.items[1..]))
  }

  /** `next_back` takes the last item off the list. */
  function SeqNextBack<T>(it: SeqIter<T>): (r: Step<T, SeqIter<T>>)
    ensures r.item.None? <==> |it.items| == 0
    ensures r.item.Some? ==> it.items == r.rest.items + [r.item.value]
    ensures r.item.None? ==> r.rest == it
  {
    if |it.items| == 0 then Step(None, it)
    else Step(Some(it.items[|it.items| - 1]), SeqIter(it.items[..|it.items| - 1]))
  }

  /** `len` is the number of items left. */
  function SeqLen<T>(it: SeqIter<T>): nat {
    |it.items|
  }

  /** `size_hint` is exact. */
  function SeqHint<T>(it: SeqIter<T>): SizeHint {
    SizeHint(|it.items|, Some(|it.items|))
  }

  /** A list iterator is fused and reports its exact size from both ends. */
  lemma SeqIterCapabilities<T(!new)>()
    ensures Fused(SeqNext<T>) && Fused(SeqNextBack<T>)
    ensures ExactSize(SeqNext<T>, SeqLen<T>) && ExactSize(SeqNextBack<T>, SeqLen<T>)
    ensures HintIsExact(SeqHint<T>, SeqLen<T>)
  {
  }

  /** Pulling `k` times from a list iterator yields the list's items in order,
      then `None` for every further call. */
  lemma {:induction false} SeqIterYields<T>(it: SeqIter<T>, k: nat)
    ensures Pull(SeqNext<T>, it, k).items == Expected(it.items, k)
    decreases k
  {
    if k > 0 {
      var st := SeqNext(it);
      SeqIterYields(st.rest, k - 1);
      var e := Expected(st.rest.items, k - 1);
      assert Pull(SeqNext<T>, it, k).items == [st.item] + e;
      forall i | 0 <= i < k
        ensures ([st.item] + e)[i] == Expected(it.items, k)[i]
      {
        if 0 < i < |it.items| {
          assert it.items[i] == st.rest.items[i - 1];
        }
      }
    }
  }

  /** `start..end` over `i32`. Because `start` only grows while it stays below
      `end`, and `end` only shrinks while it stays above `start`, neither bound
      ever leaves the `i32` range, so unbounded integers lose nothing here. */
  datatype Range = Range(start: int, end: int)

  /** The items a range still has to produce: `start`, `start + 1`, ..., `end - 1`
      (the range is half-open), and nothing when `start >= end`. */
  function RangeItems(rg: Range): (r: seq<int>)
    ensures |r| == if rg.start < rg.end then rg.end - rg.start else 0
  {
    if rg.start < rg.end then seq(rg.end - rg.start, i => rg.start + i) else []
  }

  /** `next` produces `start` and moves `start` up by one. */
  function RangeNext(rg: Range): (r: Step<int, Range>)
    ensures r.item.None? <==> |RangeItems(rg)| == 0
    ensures r.item.Some? ==> RangeItems(rg) == [r.item.value] + RangeItems(r.rest)
    ensures r.item.None? ==> r.rest == rg
  {
    if rg.start < rg.end then
      var r := Step(Some(rg.start), Range(rg.start + 1, rg.end));
      assert RangeItems(rg) == [rg.start] + RangeItems(r.rest);
      r
    else Step(None, rg)
  }

  /** `next_back` moves `end` down by one and produces it. */
  function RangeNextBack(rg: Range): (r: Step<int, Range>)
    ensures r.item.None? <==> |RangeItems(rg)| == 0
    ensures r.item.Some? ==> RangeItems(rg) == RangeItems(r.rest) + [r.item.value]
    ensures r.item.None? ==> r.rest == rg
  {
    if rg.start < rg.end then
      var r := Step(Some(rg.end - 1), Range(rg.start, rg.end - 1));
      assert RangeItems(rg) == RangeItems(r.rest) + [rg.end - 1];
      r
    else Step(None, rg)
  }

  /** `len` is the distance from `start` to `end`, or 0 for an empty range. */
  function RangeLen(rg: Range): nat {
    if rg.start < rg.end then rg.end - rg.start else 0
  }

  /** `size_hint` is exact. */
  function RangeHint(rg: Range): SizeHint {
    SizeHint(RangeLen(rg), Some(RangeLen(rg)))
  }

  /** A range is fused and reports its exact size from both ends. */
  lemma RangeCapabilities()
    ensures Fused(RangeNext) && Fused(RangeNextBack)
    ensures ExactSize(RangeNext, RangeLen) && ExactSize(RangeNextBack, RangeLen)
    ensures HintIsExact(RangeHint, RangeLen)
  {
  }

  /** Pulling `k` times from a range yields its items in ascending order,
      then `None` for every further call. */
  lemma {:induction false} RangeYields(rg: Range, k: nat)
    ensures Pull(RangeNext, rg, k).items == Expected(RangeItems(rg), k)
    decreases k
  {
    if k > 0 {
      var st := RangeNext(rg);
      RangeYields(st.rest, k - 1);
      var xs := RangeItems(rg);
      var e := Expected(RangeItems(st.rest), k - 1);
      assert Pull(RangeNext, rg, k).items == [st.item] + e;
      forall i | 0 <= i < k
        ensures ([st.item] + e)[i] == Expected(xs, k)[i]
      {
        if 0 < i < |xs| {
          assert xs[i] == RangeItems(st.rest)[i - 1];
        }
      }
    }
  }
}
