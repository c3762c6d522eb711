/** The crate's usage example: a function `foo` that returns either a range
    or a vector's iterator behind one return type. Its body builds values of
    the concrete type `AnonIter2<i32, Range<i32>, vec::IntoIter<i32>>`; `foo`
    declares only `impl Iterator<Item = i32>`, so the further capabilities
    below belong to that concrete type, not to what `foo`'s signature shows. */
module Examples {
  import opened Options
  import opened Iterators
  import opened Payloads
  import opened Arity2
  import Arity3

  /** `foo(0)` is `AnonIter2::I1(1..10)`; any other argument gives
      `AnonIter2::I2(vec![5, 10].into_iter())`. */
  function Foo(x: int): (w: AnonIter2<Range, SeqIter<int>>)
    ensures w.I1? <==> x == 0
  {
    if x == 0 then I1(Range(1, 10)) else I2(SeqIter([5, 10]))
  }

  /** The `Iterator` impl of `AnonIter2<i32, Range<i32>, vec::IntoIter<i32>>`. */
  function FooNext(): AnonIter2<Range, SeqIter<int>> -> Step<int, AnonIter2<Range, SeqIter<int>>> {
    Next2Fn(RangeNext, SeqNext<int>)
  }

  /** The `ExactSizeIterator` impl of `AnonIter2<i32, Range<i32>, vec::IntoIter<i32>>`. */
  function FooLen(): AnonIter2<Range, SeqIter<int>> -> nat {
    Len2Fn(RangeLen, SeqLen<int>)
  }

  /** `foo(0)` yields 1, 2, ..., 9 (the range is half-open) and then `None`. */
  lemma FooZeroYields()
    ensures Pull(FooNext(), Foo(0), 10).items
         == [Some(1), Some(2), Some(3), Some(4), Some(5), Some(6), Some(7), Some(8), Some(9), None]
  {
    PullDispatch2(RangeNext, SeqNext<int>, Foo(0), 10);
    RangeYields(Range(1, 10), 10);
  }

  /** `foo(x)` for `x != 0` yields 5, 10 and then `None`. */
  lemma FooOtherYields(x: int)
    requires x != 0
    ensures Pull(FooNext(), Foo(x), 3).items == [Some(5), Some(10), None]
  {
    PullDispatch2(RangeNext, SeqNext<int>, Foo(x), 3);
    SeqIterYields(SeqIter([5, 10]), 3);
  }

  /** `AnonIter2<i32, Range<i32>, vec::IntoIter<i32>>` is fused and reports
      its exact size, because both payload types are and do. */
  lemma FooCapabilities()
    ensures Fused(FooNext()) && ExactSize(FooNext(), FooLen())
  {
    RangeCapabilities();
    SeqIterCapabilities<int>();
    Fused2(RangeNext, SeqNext<int>);
    ExactSize2(RangeNext, SeqNext<int>, RangeLen, SeqLen<int>);
  }

  /** Whichever value `foo` built, its `len` at the concrete `AnonIter2` type
      (9 or 2) is the number of items that come before the first `None`. */
  lemma FooLenCountsItems(x: int)
    ensures FooLen()(Foo(x)) == if x == 0 then 9 else 2
    ensures var n := FooLen()(Foo(x));
      var r := Pull(FooNext(), Foo(x), n + 1);
      (forall i :: 0 <= i < n ==> r.items[i].Some?) && r.items[n].None?
  {
    FooCapabilities();
    LenCountsItems(FooNext(), FooLen(), Foo(x));
  }

  /** The list held by whichever variant of an `AnonIter3` of list
      iterators is active. */
  function ActiveList3(w: Arity3.AnonIter3<SeqIter<int>, SeqIter<int>, SeqIter<int>>): seq<int> {
    match w
    case I1(p) => p.items
    case I2(p) => p.items
    case I3(p) => p.items
  }

  /** Three list iterators behind one `AnonIter3` (say of lengths 3, 0 and 5):
      whichever variant is active, draining the wrapper yields that list's
      items in order and then `None`. */
  lemma ListsYield3(w: Arity3.AnonIter3<SeqIter<int>, SeqIter<int>, SeqIter<int>>, k: nat)
    ensures Pull(Arity3.Next3Fn(SeqNext<int>, SeqNext<int>, SeqNext<int>), w, k).items
         == Expected(ActiveList3(w), k)
  {
    Arity3.PullDispatch3(SeqNext<int>, SeqNext<int>, SeqNext<int>, w, k);
    match w
    case I1(p) => SeqIterYields(p, k);
    case I2(p) => SeqIterYields(p, k);
    case I3(p) => SeqIterYields(p, k);
  }

  /** For the same wrapper, `len` before any consumption is the active list's
      length; after `k` items it has dropped by exactly `k`, and it is 0
      exactly when the next call returns `None`. */
  lemma ListsCount3(w: Arity3.AnonIter3<SeqIter<int>, SeqIter<int>, SeqIter<int>>, k: nat)
    requires k <= |ActiveList3(w)|
    ensures Arity3.Len3(SeqLen<int>, SeqLen<int>, SeqLen<int>, w) == |ActiveList3(w)|
    ensures var f := Arity3.Next3Fn(SeqNext<int>, SeqNext<int>, SeqNext<int>);
      var l := Arity3.Len3Fn(SeqLen<int>, SeqLen<int>, SeqLen<int>);
      var rest := Pull(f, w, k).rest;
      && l(rest) == |ActiveList3(w)| - k
      && (l(rest) == 0 <==> f(rest).item.None?)
  {
    var f := Arity3.Next3Fn(SeqNext<int>, SeqNext<int>, SeqNext<int>);
    var l := Arity3.Len3Fn(SeqLen<int>, SeqLen<int>, SeqLen<int>);
    ListsExactSize3();
    ExactSizeConsume(f, l, w, k);
    var rest := Pull(f, w, k).rest;
    assert f(rest).item.Some? <==> l(rest) > 0;
  }

  /** An `AnonIter3` of list iterators reports its exact size. */
  lemma ListsExactSize3()
    ensures ExactSize(Arity3.Next3Fn(SeqNext<int>, SeqNext<int>, SeqNext<int>),
                      Arity3.Len3Fn(SeqLen<int>, SeqLen<int>, SeqLen<int>))
  {
    SeqIterCapabilities<int>();
    Arity3.ExactSize3(SeqNext<int>, SeqNext<int>, SeqNext<int>, SeqLen<int>, SeqLen<int>, SeqLen<int>);
  }

  /** As written, the value `AnonIter2::I2(vec![5, 10].into_iter())`, used at
      its concrete type `AnonIter2<i32, Range<i32>, vec::IntoIter<i32>>`,
      reports `len() == 2` but `size_hint() == (0, None)`: the wrapper breaks
      `ExactSizeIterator`'s obligation even though both payload types meet it. */
  lemma FooSizeHintAsWritten()
    ensures FooLen()(Foo(1)) == 2
    ensures SizeHint2AsWritten(Foo(1)) != SizeHint(2, Some(2))
    ensures !HintIsExact(SizeHint2AsWrittenFn<Range, SeqIter<int>>(), FooLen())
  {
    var h := SizeHint2AsWrittenFn<Range, SeqIter<int>>();
    assert h(Foo(1)) != SizeHint(FooLen()(Foo(1)), Some(FooLen()(Foo(1))));
  }

  /** With `size_hint` forwarded, `AnonIter2<i32, Range<i32>, vec::IntoIter<i32>>`
      reports `(len, Some(len))` on every value. */
  lemma FooSizeHintForwarded()
    ensures HintIsExact(SizeHint2Fn(RangeHint, SeqHint<int>), FooLen())
  {
    RangeCapabilities();
    SeqIterCapabilities<int>();
    SizeHintExact2(RangeHint, SeqHint<int>, RangeLen, SeqLen<int>);
  }
}
