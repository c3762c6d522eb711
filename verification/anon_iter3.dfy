/** `AnonIter3`, the three-variant expansion of the crate's `create!` macro,
    written out by hand. It follows the same pattern as `AnonIter2`, with one
    more variant in every match. */
module Arity3 {
  import opened Options
  import opened Iterators

  /** `AnonIter3::I1(p)`, `AnonIter3::I2(p)` or `AnonIter3::I3(p)`. */
  datatype AnonIter3<P1, P2, P3> = I1(i1: P1) | I2(i2: P2) | I3(i3: P3)

  /** The active variant's number. */
  function Tag3<P1, P2, P3>(w: AnonIter3<P1, P2, P3>): (t: nat)
    ensures 1 <= t <= 3
    ensures t == 1 <==> w.I1?
    ensures t == 2 <==> w.I2?
    ensures t == 3 <==> w.I3?
  {
    match w
    case I1(_) => 1
    case I2(_) => 2
    case I3(_) => 3
  }

  /** `Iterator::next`: forwards to the active payload's `next`, returns its
      item unchanged and keeps the variant. */
  function Next3<T, P1, P2, P3>(next1: P1 -> Step<T, P1>, next2: P2 -> Step<T, P2>, next3: P3 -> Step<T, P3>, w: AnonIter3<P1, P2, P3>)
    : (r: Step<T, AnonIter3<P1, P2, P3>>)
    ensures Tag3(r.rest) == Tag3(w)
    ensures w.I1? ==> next1(w.i1) == Step(r.item, r.rest.i1)
    ensures w.I2? ==> next2(w.i2) == Step(r.item, r.rest.i2)
    ensures w.I3? ==> next3(w.i3) == Step(r.item, r.rest.i3)
  {
    match w
    case I1(p) => var st := next1(p); Step(st.item, I1(st.rest))
    case I2(p) => var st := next2(p); Step(st.item, I2(st.rest))
    case I3(p) => var st := next3(p); Step(st.item, I3(st.rest))
  }

  /** `DoubleEndedIterator::next_back`: forwards to the active payload's
      `next_back`, returns its item unchanged and keeps the variant. */
  function NextBack3<T, P1, P2, P3>(back1: P1 -> Step<T, P1>, back2: P2 -> Step<T, P2>, back3: P3 -> Step<T, P3>, w: AnonIter3<P1, P2, P3>)
    : (r: Step<T, AnonIter3<P1, P2, P3>>)
    ensures Tag3(r.rest) == Tag3(w)
    ensures w.I1? ==> back1(w.i1) == Step(r.item, r.rest.i1)
    ensures w.I2? ==> back2(w.i2) == Step(r.item, r.rest.i2)
    ensures w.I3? ==> back3(w.i3) == Step(r.item, r.rest.i3)
  {
    match w
    case I1(p) => var st := back1(p); Step(st.item, I1(st.rest))
    case I2(p) => var st := back2(p); Step(st.item, I2(st.rest))
    case I3(p) => var st := back3(p); Step(st.item, I3(st.rest))
  }

  /** `ExactSizeIterator::len`: the active payload's `len`. */
  function Len3<P1, P2, P3>(len1: P1 -> nat, len2: P2 -> nat, len3: P3 -> nat, w: AnonIter3<P1, P2, P3>): (n: nat)
    ensures w.I1? ==> n == len1(w.i1)
    ensures w.I2? ==> n == len2(w.i2)
    ensures w.I3? ==> n == len3(w.i3)
  {
    match w
    case I1(p) => len1(p)
    case I2(p) => len2(p)
    case I3(p) => len3(p)
  }

  /** The wrapper's `Iterator` impl as a step function. */
  function Next3Fn<T, P1, P2, P3>(next1: P1 -> Step<T, P1>, next2: P2 -> Step<T, P2>, next3: P3 -> Step<T, P3>)
    : AnonIter3<P1, P2, P3> -> Step<T, AnonIter3<P1, P2, P3>>
  {
    w => Next3(next1, next2, next3, w)
  }

  /** The wrapper's `DoubleEndedIterator` impl as a step function. */
  function NextBack3Fn<T, P1, P2, P3>(back1: P1 -> Step<T, P1>, back2: P2 -> Step<T, P2>, back3: P3 -> Step<T, P3>)
    : AnonIter3<P1, P2, P3> -> Step<T, AnonIter3<P1, P2, P3>>
  {
    w => NextBack3(back1, back2, back3, w)
  }

  /** The wrapper's `ExactSizeIterator` impl as a function. */
  function Len3Fn<P1, P2, P3>(len1: P1 -> nat, len2: P2 -> nat, len3: P3 -> nat): AnonIter3<P1, P2, P3> -> nat
  {
    w => Len3(len1, len2, len3, w)
  }

  /** Draining the three-way wrapper with `next` yields what draining the
      active payload yields, and keeps the variant. */
  lemma {:induction false} PullDispatch3<T, P1, P2, P3>(
    next1: P1 -> Step<T, P1>, next2: P2 -> Step<T, P2>, next3: P3 -> Step<T, P3>,
    w: AnonIter3<P1, P2, P3>, k: nat)
    ensures w.I1? ==>
      var p := Pull(next1, w.i1, k);
      Pull(Next3Fn(next1, next2, next3), w, k) == Run(p.items, I1(p.rest))
    ensures w.I2? ==>
      var p := Pull(next2, w.i2, k);
      Pull(Next3Fn(next1, next2, next3), w, k) == Run(p.items, I2(p.rest))
    ensures w.I3? ==>
      var p := Pull(next3, w.i3, k);
      Pull(Next3Fn(next1, next2, next3), w, k) == Run(p.items, I3(p.rest))
    decreases k
  {
    if k > 0 {
      PullDispatch3(next1, next2, next3, Next3(next1, next2, next3, w).rest, k - 1);
    }
  }

  /** Any interleaving of `next` and `next_back` on the three-way wrapper
      yields what the same interleaving yields on the active payload. */
  lemma {:induction false} DriveDispatch3<T, P1, P2, P3>(
    next1: P1 -> Step<T, P1>, next2: P2 -> Step<T, P2>, next3: P3 -> Step<T, P3>,
    back1: P1 -> Step<T, P1>, back2: P2 -> Step<T, P2>, back3: P3 -> Step<T, P3>,
    w: AnonIter3<P1, P2, P3>, ops: seq<End>)
    ensures w.I1? ==>
      var p := Drive(next1, back1, w.i1, ops);
      Drive(Next3Fn(next1, next2, next3), NextBack3Fn(back1, back2, back3), w, ops) == Run(p.items, I1(p.rest))
    ensures w.I2? ==>
      var p := Drive(next2, back2, w.i2, ops);
      Drive(Next3Fn(next1, next2, next3), NextBack3Fn(back1, back2, back3), w, ops) == Run(p.items, I2(p.rest))
    ensures w.I3? ==>
      var p := Drive(next3, back3, w.i3, ops);
      Drive(Next3Fn(next1, next2, next3), NextBack3Fn(back1, back2, back3), w, ops) == Run(p.items, I3(p.rest))
    decreases |ops|
  {
    if |ops| > 0 {
      var st := if ops[0].Front? then Next3(next1, next2, next3, w) else NextBack3(back1, back2, back3, w);
      DriveDispatch3(next1, next2, next3, back1, back2, back3, st.rest, ops[1..]);
    }
  }

  /** The three-way wrapper is fused if and only if all three payloads are. */
  lemma Fused3<T, P1(!new), P2(!new), P3(!new)>(next1: P1 -> Step<T, P1>, next2: P2 -> Step<T, P2>, next3: P3 -> Step<T, P3>)
    ensures Fused(Next3Fn(next1, next2, next3)) <==> Fused(next1) && Fused(next2) && Fused(next3)
  {
    var f := Next3Fn(next1, next2, next3);
    if Fused(f) {
      forall s: P1 | next1(s).item.None?
        ensures next1(next1(s).rest).item.None?
      {
        assert f(I1(s)).item.None?;
      }
      forall s: P2 | next2(s).item.None?
        ensures next2(next2(s).rest).item.None?
      {
        assert f(I2(s)).item.None?;
      }
      forall s: P3 | next3(s).item.None?
        ensures next3(next3(s).rest).item.None?
      {
        assert f(I3(s)).item.None?;
      }
    }
  }

  /** The three-way wrapper's `len` is exact for `next` if and only if every
      payload's is. */
  lemma ExactSize3<T, P1(!new), P2(!new), P3(!new)>(
    next1: P1 -> Step<T, P1>, next2: P2 -> Step<T, P2>, next3: P3 -> Step<T, P3>,
    len1: P1 -> nat, len2: P2 -> nat, len3: P3 -> nat)
    ensures ExactSize(Next3Fn(next1, next2, next3), Len3Fn(len1, len2, len3))
        <==> ExactSize(next1, len1) && ExactSize(next2, len2) && ExactSize(next3, len3)
  {
    var f, l := Next3Fn(next1, next2, next3), Len3Fn(len1, len2, len3);
    if ExactSize(f, l) {
      assert ExactSize(next1, len1) by {
        forall s: P1 ensures ExactSizeStep(next1, len1, s) {
          assert ExactSizeStep(f, l, I1(s));
        }
      }
      assert ExactSize(next2, len2) by {
        forall s: P2 ensures ExactSizeStep(next2, len2, s) {
          assert ExactSizeStep(f, l, I2(s));
        }
      }
      assert ExactSize(next3, len3) by {
        forall s: P3 ensures ExactSizeStep(next3, len3, s) {
          assert ExactSizeStep(f, l, I3(s));
        }
      }
    }
    if ExactSize(next1, len1) && ExactSize(next2, len2) && ExactSize(next3, len3) {
      forall w ensures ExactSizeStep(f, l, w) {
        match w
        case I1(p) => assert ExactSizeStep(next1, len1, p);
        case I2(p) => assert ExactSizeStep(next2, len2, p);
        case I3(p) => assert ExactSizeStep(next3, len3, p);
      }
    }
  }

  /** The three-way wrapper's `len` is exact for `next_back` if and only if
      every payload's is. */
  lemma ExactSizeBack3<T, P1(!new), P2(!new), P3(!new)>(
    back1: P1 -> Step<T, P1>, back2: P2 -> Step<T, P2>, back3: P3 -> Step<T, P3>,
    len1: P1 -> nat, len2: P2 -> nat, len3: P3 -> nat)
    ensures ExactSize(NextBack3Fn(back1, back2, back3), Len3Fn(len1, len2, len3))
        <==> ExactSize(back1, len1) && ExactSize(back2, len2) && ExactSize(back3, len3)
  {
    var f, l := NextBack3Fn(back1, back2, back3), Len3Fn(len1, len2, len3);
    if ExactSize(f, l) {
      assert ExactSize(back1, len1) by {
        forall s: P1 ensures ExactSizeStep(back1, len1, s) {
          assert ExactSizeStep(f, l, I1(s));
        }
      }
      assert ExactSize(back2, len2) by {
        forall s: P2 ensures ExactSizeStep(back2, len2, s) {
          assert ExactSizeStep(f, l, I2(s));
        }
      }
      assert ExactSize(back3, len3) by {
        forall s: P3 ensures ExactSizeStep(back3, len3, s) {
          assert ExactSizeStep(f, l, I3(s));
        }
      }
    }
    if ExactSize(back1, len1) && ExactSize(back2, len2) && ExactSize(back3, len3) {
      forall w ensures ExactSizeStep(f, l, w) {
        match w
        case I1(p) => assert ExactSizeStep(back1, len1, p);
        case I2(p) => assert ExactSizeStep(back2, len2, p);
        case I3(p) => assert ExactSizeStep(back3, len3, p);
      }
    }
  }
}
