/** `AnonIter2`, the two-variant expansion of the crate's `create!` macro,
    written out by hand.

    The wrapper holds exactly one payload iterator, and the two variants may
    hold payloads of different types. `next`, `next_back` and `len` match on
    the active variant and forward to its payload. `FusedIterator` has no
    code: the wrapper is fused exactly when its payloads are.

    Rust's item type parameter `T` is not a parameter of the datatype here.
    The operations take one step function per variant, and all of them have
    the same item type `T`, just as the `Iterator<Item = T>` bounds require. */
module Arity2 {
  import opened Options
  import opened Iterators

  /** `AnonIter2::I1(p)` or `AnonIter2::I2(p)`. There is no third, empty or
      default variant. */
  datatype AnonIter2<P1, P2> = I1(i1: P1) | I2(i2: P2)

  /** The active variant's number. */
  function Tag2<P1, P2>(w: AnonIter2<P1, P2>): (t: nat)
    ensures 1 <= t <= 2
    ensures t == 1 <==> w.I1?
    ensures t == 2 <==> w.I2?
  {
    match w
    case I1(_) => 1
    case I2(_) => 2
  }

  /** `Iterator::next`: forwards to the active payload's `next`, returns its
      item unchanged and keeps the variant. */
  function Next2<T, P1, P2>(next1: P1 -> Step<T, P1>, next2: P2 -> Step<T, P2>, w: AnonIter2<P1, P2>)
    : (r: Step<T, AnonIter2<P1, P2>>)
    ensures Tag2(r.rest) == Tag2(w)
    ensures w.I1? ==> next1(w.i1) == Step(r.item, r.rest.i1)
    ensures w.I2? ==> next2(w.i2) == Step(r.item, r.rest.i2)
  {
    match w
    case I1(p) => var st := next1(p); Step(st.item, I1(st.rest))
    case I2(p) => var st := next2(p); Step(st.item, I2(st.rest))
  }

  /** `DoubleEndedIterator::next_back`: forwards to the active payload's
      `next_back`, returns its item unchanged and keeps the variant. */
  function NextBack2<T, P1, P2>(back1: P1 -> Step<T, P1>, back2: P2 -> Step<T, P2>, w: AnonIter2<P1, P2>)
    : (r: Step<T, AnonIter2<P1, P2>>)
    ensures Tag2(r.rest) == Tag2(w)
    ensures w.I1? ==> back1(w.i1) == Step(r.item, r.rest.i1)
    ensures w.I2? ==> back2(w.i2) == Step(r.item, r.rest.i2)
  {
    match w
    case I1(p) => var st := back1(p); Step(st.item, I1(st.rest))
    case I2(p) => var st := back2(p); Step(st.item, I2(st.rest))
  }

  /** `ExactSizeIterator::len`: the active payload's `len`, with no
      arithmetic of the wrapper's own. */
  function Len2<P1, P2>(len1: P1 -> nat, len2: P2 -> nat, w: AnonIter2<P1, P2>): (n: nat)
    ensures w.I1? ==> n == len1(w.i1)
    ensures w.I2? ==> n == len2(w.i2)
  {
    match w
    case I1(p) => len1(p)
    case I2(p) => len2(p)
  }

  /** The wrapper's `Iterator` impl as a step function. */
  function Next2Fn<T, P1, P2>(next1: P1 -> Step<T, P1>, next2: P2 -> Step<T, P2>)
    : AnonIter2<P1, P2> -> Step<T, AnonIter2<P1, P2>>
  {
    w => Next2(next1, next2, w)
  }

  /** The wrapper's `DoubleEndedIterator` impl as a step function. */
  function NextBack2Fn<T, P1, P2>(back1: P1 -> Step<T, P1>, back2: P2 -> Step<T, P2>)
    : AnonIter2<P1, P2> -> Step<T, AnonIter2<P1, P2>>
  {
    w => NextBack2(back1, back2, w)
  }

  /** The wrapper's `ExactSizeIterator` impl as a function. */
  function Len2Fn<P1, P2>(len1: P1 -> nat, len2: P2 -> nat): AnonIter2<P1, P2> -> nat
  {
    w => Len2(len1, len2, w)
  }

  /** Draining: `k` calls of `next` on the wrapper yield exactly what `k`
      calls of `next` on the active payload yield, in the same order, and
      leave the wrapper in the same variant holding the payload's final state. */
  lemma {:induction false} PullDispatch2<T, P1, P2>(next1: P1 -> Step<T, P1>, next2: P2 -> Step<T, P2>, w: AnonIter2<P1, P2>, k: nat)
    ensures w.I1? ==>
      var p := Pull(next1, w.i1, k);
      Pull(Next2Fn(next1, next2), w, k) == Run(p.items, I1(p.rest))
    ensures w.I2? ==>
      var p := Pull(next2, w.i2, k);
      Pull(Next2Fn(next1, next2), w, k) == Run(p.items, I2(p.rest))
    decreases k
  {
    if k > 0 {
      PullDispatch2(next1, next2, Next2(next1, next2, w).rest, k - 1);
    }
  }

  /** Any interleaving of `next` and `next_back` on the wrapper yields exactly
      what the same interleaving yields on the active payload. */
  lemma {:induction false} DriveDispatch2<T, P1, P2>(
    next1: P1 -> Step<T, P1>, next2: P2 -> Step<T, P2>,
    back1: P1 -> Step<T, P1>, back2: P2 -> Step<T, P2>,
    w: AnonIter2<P1, P2>, ops: seq<End>)
    ensures w.I1? ==>
      var p := Drive(next1, back1, w.i1, ops);
      Drive(Next2Fn(next1, next2), NextBack2Fn(back1, back2), w, ops) == Run(p.items, I1(p.rest))
    ensures w.I2? ==>
      var p := Drive(next2, back2, w.i2, ops);
      Drive(Next2Fn(next1, next2), NextBack2Fn(back1, back2), w, ops) == Run(p.items, I2(p.rest))
    decreases |ops|
  {
    if |ops| > 0 {
      var st := if ops[0].Front? then Next2(next1, next2, w) else NextBack2(back1, back2, w);
      DriveDispatch2(next1, next2, back1, back2, st.rest, ops[1..]);
    }
  }

  /** `FusedIterator`: the wrapper, with no state of its own, is fused if and
      only if every variant's payload is fused. */
  lemma Fused2<T, P1(!new), P2(!new)>(next1: P1 -> Step<T, P1>, next2: P2 -> Step<T, P2>)
    ensures Fused(Next2Fn(next1, next2)) <==> Fused(next1) && Fused(next2)
  {
    var f := Next2Fn(next1, next2);
    if Fused(f) {
      forall s: P1 | next1(s).item.None?
        ensures next1(next1(s).rest).item.None?
      {
        assert f(I1(s)).item.None?;
      }
      forall s: P2 | next2(s).item.None?
        ensures next2(next2(s).rest).item.None?
      {
        assert f(I2(s)).item.None?;
      }
    }
  }

  /** `ExactSizeIterator` for forward iteration: with exact-size payloads, a
      `next` that yields an item lowers the wrapper's `len` by exactly one, and
      `len` is 0 exactly when `next` returns `None`; and conversely. */
  lemma ExactSize2<T, P1(!new), P2(!new)>(
    next1: P1 -> Step<T, P1>, next2: P2 -> Step<T, P2>, len1: P1 -> nat, len2: P2 -> nat)
    ensures ExactSize(Next2Fn(next1, next2), Len2Fn(len1, len2))
        <==> ExactSize(next1, len1) && ExactSize(next2, len2)
  {
    var f, l := Next2Fn(next1, next2), Len2Fn(len1, len2);
    if ExactSize(f, l) {
      assert ExactSize(next1, len1) by {
        forall s: P1 ensures ExactSizeStep(next1, len1, s) {
          assert ExactSizeStep(f, l, I1(s));
        }
      }
      assert ExactSize(next2, len2) by {
        forall s: P2 ensures ExactSizeStep(next2, len2, s) {
          assert ExactSizeStep(f, l, I2(s));
        }
      }
    }
    if ExactSize(next1, len1) && ExactSize(next2, len2) {
      forall w ensures ExactSizeStep(f, l, w) {
        match w
        case I1(p) => assert ExactSizeStep(next1, len1, p);
        case I2(p) => assert ExactSizeStep(next2, len2, p);
      }
    }
  }

  /** `ExactSizeIterator` for backward iteration: `next_back` keeps the
      wrapper's `len` exact if and only if it keeps every payload's exact. */
  lemma ExactSizeBack2<T, P1(!new), P2(!new)>(
    back1: P1 -> Step<T, P1>, back2: P2 -> Step<T, P2>, len1: P1 -> nat, len2: P2 -> nat)
    ensures ExactSize(NextBack2Fn(back1, back2), Len2Fn(len1, len2))
        <==> ExactSize(back1, len1) && ExactSize(back2, len2)
  {
    var f, l := NextBack2Fn(back1, back2), Len2Fn(len1, len2);
    if ExactSize(f, l) {
      assert ExactSize(back1, len1) by {
        forall s: P1 ensures ExactSizeStep(back1, len1, s) {
          assert ExactSizeStep(f, l, I1(s));
        }
      }
      assert ExactSize(back2, len2) by {
        forall s: P2 ensures ExactSizeStep(back2, len2, s) {
          assert ExactSizeStep(f, l, I2(s));
        }
      }
    }
    if ExactSize(back1, len1) && ExactSize(back2, len2) {
      forall w ensures ExactSizeStep(f, l, w) {
        match w
        case I1(p) => assert ExactSizeStep(back1, len1, p);
        case I2(p) => assert ExactSizeStep(back2, len2, p);
      }
    }
  }

  // ------------------------------------------------------------ size_hint

  /** `Iterator::size_hint` as the source leaves it: not overridden, so the
      trait's default applies, which claims nothing about the items left
      whatever the active payload knows. */
  function SizeHint2AsWritten<P1, P2>(w: AnonIter2<P1, P2>): (h: SizeHint)
    ensures h.lower == 0 && h.upper.None?
  {
    SizeHint(0, None)
  }

  /** The as-written `size_hint` as a function. */
  function SizeHint2AsWrittenFn<P1, P2>(): AnonIter2<P1, P2> -> SizeHint
  {
    w => SizeHint2AsWritten(w)
  }

  /** `Iterator::size_hint` forwarded to the active payload, as the other
      three operations are. */
  function SizeHint2<P1, P2>(hint1: P1 -> SizeHint, hint2: P2 -> SizeHint, w: AnonIter2<P1, P2>): (h: SizeHint)
    ensures w.I1? ==> h == hint1(w.i1)
    ensures w.I2? ==> h == hint2(w.i2)
  {
    match w
    case I1(p) => hint1(p)
    case I2(p) => hint2(p)
  }

  /** The forwarded `size_hint` as a function. */
  function SizeHint2Fn<P1, P2>(hint1: P1 -> SizeHint, hint2: P2 -> SizeHint): AnonIter2<P1, P2> -> SizeHint
  {
    w => SizeHint2(hint1, hint2, w)
  }

  /** With `size_hint` forwarded, the wrapper meets `ExactSizeIterator`'s
      obligation that `size_hint` be `(len, Some(len))` if and only if every
      payload does. */
  lemma SizeHintExact2<P1(!new), P2(!new)>(hint1: P1 -> SizeHint, hint2: P2 -> SizeHint, len1: P1 -> nat, len2: P2 -> nat)
    ensures HintIsExact(SizeHint2Fn(hint1, hint2), Len2Fn(len1, len2))
        <==> HintIsExact(hint1, len1) && HintIsExact(hint2, len2)
  {
    var h, l := SizeHint2Fn(hint1, hint2), Len2Fn(len1, len2);
    if HintIsExact(h, l) {
      forall s: P1 ensures hint1(s) == SizeHint(len1(s), Some(len1(s))) {
        assert h(I1(s)) == SizeHint(l(I1(s)), Some(l(I1(s))));
      }
      forall s: P2 ensures hint2(s) == SizeHint(len2(s), Some(len2(s))) {
        assert h(I2(s)) == SizeHint(l(I2(s)), Some(l(I2(s))));
      }
    }
  }

  /** As written, the wrapper never meets `ExactSizeIterator`'s obligation on
      `size_hint`: the default `(0, None)` has no upper bound, so it differs
      from `(len, Some(len))` on every value, whatever the payloads' `len`. */
  lemma SizeHintNeverExact2<P1(!new), P2(!new)>(len1: P1 -> nat, len2: P2 -> nat, w: AnonIter2<P1, P2>)
    ensures SizeHint2AsWritten(w) != SizeHint(Len2(len1, len2, w), Some(Len2(len1, len2, w)))
    ensures !HintIsExact(SizeHint2AsWrittenFn<P1, P2>(), Len2Fn(len1, len2))
  {
    var h, l := SizeHint2AsWrittenFn<P1, P2>(), Len2Fn(len1, len2);
    assert h(w) != SizeHint(l(w), Some(l(w)));
  }
}
