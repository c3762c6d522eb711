/** The tag-indexed form of the `AnonIterN` family: one definition standing
    for all eleven expansions of the `create!` macro, for 2 to 12 variants.

    A value is a variant number `tag` (1 for `I1` up to `n` for `In`) and the
    payload that variant holds. The payloads share one state type `S`. This
    form cannot express different payload types per variant; `Arity2` and
    `Arity3` do, and the embeddings at the end of this module show that the
    two forms agree when all payload types coincide. The trait impls of the
    `n` payload types are given as sequences with one entry per variant. */
module ArityN {
  import opened Options
  import opened Iterators
  import Arity2
  import Arity3

  /** The macro is expanded for `AnonIter2` up to `AnonIter12`. */
  const MinArity: nat := 2
  const MaxArity: nat := 12

  /** Variant `tag` of an `n`-variant wrapper, holding `payload`. */
  datatype Tagged<S> = Tagged(tag: nat, payload: S)

  /** `w` is a value of the `n`-variant wrapper: `n` is one of the expanded
      arities and `w`'s tag names one of its variants. */
  predicate WellTagged<S>(n: nat, w: Tagged<S>) {
    MinArity <= n <= MaxArity && 1 <= w.tag <= n
  }

  /** `Iterator::next`: forwards to variant `tag`'s `next`, returns its item
      unchanged and keeps the variant. */
  function NextN<T, S>(nexts: seq<S -> Step<T, S>>, w: Tagged<S>): (r: Step<T, Tagged<S>>)
    requires WellTagged(|nexts|, w)
    ensures r.rest.tag == w.tag
    ensures nexts[w.tag - 1](w.payload) == Step(r.item, r.rest.payload)
  {
    var st := nexts[w.tag - 1](w.payload);
    Step(st.item, Tagged(w.tag, st.rest))
  }

  /** `DoubleEndedIterator::next_back`: forwards to variant `tag`'s
      `next_back`, returns its item unchanged and keeps the variant. */
  function NextBackN<T, S>(backs: seq<S -> Step<T, S>>, w: Tagged<S>): (r: Step<T, Tagged<S>>)
    requires WellTagged(|backs|, w)
    ensures r.rest.tag == w.tag
    ensures backs[w.tag - 1](w.payload) == Step(r.item, r.rest.payload)
  {
    var st := backs[w.tag - 1](w.payload);
    Step(st.item, Tagged(w.tag, st.rest))
  }

  /** `ExactSizeIterator::len`: variant `tag`'s `len`, unchanged. */
  function LenN<S>(lens: seq<S -> nat>, w: Tagged<S>): (n: nat)
    requires WellTagged(|lens|, w)
    ensures n == lens[w.tag - 1](w.payload)
  {
    lens[w.tag - 1](w.payload)
  }

  /** `k` calls of the wrapper's `next`. */
  function PullN<T, S>(nexts: seq<S -> Step<T, S>>, w: Tagged<S>, k: nat): (r: Run<T, Tagged<S>>)
    requires WellTagged(|nexts|, w)
    ensures r.rest.tag == w.tag
    ensures |r.items| == k
    decreases k
  {
    if k == 0 then Run([], w)
    else
      var st := NextN(nexts, w);
      var tail := PullN(nexts, st.rest, k - 1);
      Run([st.item] + tail.items, tail.rest)
  }

  /** One call of the wrapper's `next` or `next_back` per entry of `ops`. */
  function DriveN<T, S>(nexts: seq<S -> Step<T, S>>, backs: seq<S -> Step<T, S>>, w: Tagged<S>, ops: seq<End>)
    : (r: Run<T, Tagged<S>>)
    requires |backs| == |nexts| && WellTagged(|nexts|, w)
    ensures r.rest.tag == w.tag
    ensures |r.items| == |ops|
    decreases |ops|
  {
    if |ops| == 0 then Run([], w)
    else
      var st := if ops[0].Front? then NextN(nexts, w) else NextBackN(backs, w);
      var tail := DriveN(nexts, backs, st.rest, ops[1..]);
      Run([st.item] + tail.items, tail.rest)
  }

  /** Draining the wrapper with `next` yields exactly what draining the
      active payload yields, in the same order, for every arity and tag. */
  lemma {:induction false} PullDispatchN<T, S>(nexts: seq<S -> Step<T, S>>, w: Tagged<S>, k: nat)
    requires WellTagged(|nexts|, w)
    ensures var p := Pull(nexts[w.tag - 1], w.payload, k);
      PullN(nexts, w, k) == Run(p.items, Tagged(w.tag, p.rest))
    decreases k
  {
    if k > 0 {
      PullDispatchN(nexts, NextN(nexts, w).rest, k - 1);
    }
  }

  /** Any interleaving of `next` and `next_back` on the wrapper yields exactly
      what the same interleaving yields on the active payload. */
  lemma {:induction false} DriveDispatchN<T, S>(nexts: seq<S -> Step<T, S>>, backs: seq<S -> Step<T, S>>, w: Tagged<S>, ops: seq<End>)
    requires |backs| == |nexts| && WellTagged(|nexts|, w)
    ensures var p := Drive(nexts[w.tag - 1], backs[w.tag - 1], w.payload, ops);
      DriveN(nexts, backs, w, ops) == Run(p.items, Tagged(w.tag, p.rest))
    decreases |ops|
  {
    if |ops| > 0 {
      var st := if ops[0].Front? then NextN(nexts, w) else NextBackN(backs, w);
      DriveDispatchN(nexts, backs, st.rest, ops[1..]);
    }
  }

  /** `FusedIterator` for the wrapper: on every value of the wrapper, a `next`
      that returned `None` is followed by one that returns `None`. */
  ghost predicate FusedN<T, S(!new)>(nexts: seq<S -> Step<T, S>>) {
    forall w | WellTagged(|nexts|, w) ::
      NextN(nexts, w).item.None? ==> NextN(nexts, NextN(nexts, w).rest).item.None?
  }

  /** `ExactSizeIterator` for the wrapper: on every value of the wrapper, `len`
      is positive exactly when `next` yields an item, and each item lowers it
      by one. */
  ghost predicate ExactSizeN<T, S(!new)>(nexts: seq<S -> Step<T, S>>, lens: seq<S -> nat>)
    requires |lens| == |nexts|
  {
    forall w | WellTagged(|nexts|, w) ::
      && (NextN(nexts, w).item.Some? <==> LenN(lens, w) > 0)
      && (NextN(nexts, w).item.Some? ==> LenN(lens, NextN(nexts, w).rest) == LenN(lens, w) - 1)
  }

  /** The wrapper is fused, with no state of its own, if and only if the
      payload of every variant is fused. */
  lemma FusedTransferN<T, S(!new)>(nexts: seq<S -> Step<T, S>>)
    requires MinArity <= |nexts| <= MaxArity
    ensures FusedN(nexts) <==> forall i :: 0 <= i < |nexts| ==> Fused(nexts[i])
  {
    if FusedN(nexts) {
      forall i, s | 0 <= i < |nexts| && nexts[i](s).item.None?
        ensures nexts[i](nexts[i](s).rest).item.None?
      {
        var w := Tagged(i + 1, s);
        assert NextN(nexts, w).item.None?;
      }
    }
    if forall i :: 0 <= i < |nexts| ==> Fused(nexts[i]) {
      forall w | WellTagged(|nexts|, w) && NextN(nexts, w).item.None?
        ensures NextN(nexts, NextN(nexts, w).rest).item.None?
      {
        assert Fused(nexts[w.tag - 1]);
      }
    }
  }

  /** The wrapper's `len` is exact if and only if every variant's is. */
  lemma ExactSizeTransferN<T, S(!new)>(nexts: seq<S -> Step<T, S>>, lens: seq<S -> nat>)
    requires MinArity <= |nexts| <= MaxArity && |lens| == |nexts|
    ensures ExactSizeN(nexts, lens) <==> forall i :: 0 <= i < |nexts| ==> ExactSize(nexts[i], lens[i])
  {
    if ExactSizeN(nexts, lens) {
      forall i | 0 <= i < |nexts| ensures ExactSize(nexts[i], lens[i]) {
        forall s ensures ExactSizeStep(nexts[i], lens[i], s) {
          var w := Tagged(i + 1, s);
          assert NextN(nexts, w).item.Some? <==> LenN(lens, w) > 0;
        }
      }
    }
    if forall i :: 0 <= i < |nexts| ==> ExactSize(nexts[i], lens[i]) {
      forall w | WellTagged(|nexts|, w)
        ensures && (NextN(nexts, w).item.Some? <==> LenN(lens, w) > 0)
                && (NextN(nexts, w).item.Some? ==> LenN(lens, NextN(nexts, w).rest) == LenN(lens, w) - 1)
      {
        assert ExactSizeStep(nexts[w.tag - 1], lens[w.tag - 1], w.payload);
      }
    }
  }

  // ------------------------------------------------- the explicit arities

  /** `AnonIter2::I1(p)` is variant 1 and `AnonIter2::I2(p)` variant 2. */
  function FromArity2<S>(w: Arity2.AnonIter2<S, S>): (t: Tagged<S>)
    ensures WellTagged(2, t) && t.tag == Arity2.Tag2(w)
  {
    match w
    case I1(p) => Tagged(1, p)
    case I2(p) => Tagged(2, p)
  }

  /** The inverse of `FromArity2`. */
  function ToArity2<S>(t: Tagged<S>): (w: Arity2.AnonIter2<S, S>)
    requires WellTagged(2, t)
    ensures Arity2.Tag2(w) == t.tag
  {
    if t.tag == 1 then Arity2.I1(t.payload) else Arity2.I2(t.payload)
  }

  /** Every `AnonIter2` value is exactly one variant holding exactly one
      payload: the two forms are in one-to-one correspondence. */
  lemma Arity2RoundTrip<S>(w: Arity2.AnonIter2<S, S>, t: Tagged<S>)
    ensures ToArity2(FromArity2(w)) == w
    ensures WellTagged(2, t) ==> FromArity2(ToArity2(t)) == t
  {
  }

  /** `AnonIter2`'s `next`, `next_back` and `len` are the tag-indexed ones at
      arity 2. */
  lemma Arity2Agrees<T, S>(next1: S -> Step<T, S>, next2: S -> Step<T, S>,
                           back1: S -> Step<T, S>, back2: S -> Step<T, S>,
                           len1: S -> nat, len2: S -> nat, w: Arity2.AnonIter2<S, S>)
    ensures var r := Arity2.Next2(next1, next2, w);
      NextN([next1, next2], FromArity2(w)) == Step(r.item, FromArity2(r.rest))
    ensures var r := Arity2.NextBack2(back1, back2, w);
      NextBackN([back1, back2], FromArity2(w)) == Step(r.item, FromArity2(r.rest))
    ensures LenN([len1, len2], FromArity2(w)) == Arity2.Len2(len1, len2, w)
  {
  }

  /** `AnonIter3::I1(p)`, `I2(p)` and `I3(p)` are variants 1, 2 and 3. */
  function FromArity3<S>(w: Arity3.AnonIter3<S, S, S>): (t: Tagged<S>)
    ensures WellTagged(3, t) && t.tag == Arity3.Tag3(w)
  {
    match w
    case I1(p) => Tagged(1, p)
    case I2(p) => Tagged(2, p)
    case I3(p) => Tagged(3, p)
  }

  /** The inverse of `FromArity3`. */
  function ToArity3<S>(t: Tagged<S>): (w: Arity3.AnonIter3<S, S, S>)
    requires WellTagged(3, t)
    ensures Arity3.Tag3(w) == t.tag
  {
    if t.tag == 1 then Arity3.I1(t.payload)
    else if t.tag == 2 then Arity3.I2(t.payload)
    else Arity3.I3(t.payload)
  }

  /** Every `AnonIter3` value is exactly one variant holding exactly one
      payload: the two forms are in one-to-one correspondence. */
  lemma Arity3RoundTrip<S>(w: Arity3.AnonIter3<S, S, S>, t: Tagged<S>)
    ensures ToArity3(FromArity3(w)) == w
    ensures WellTagged(3, t) ==> FromArity3(ToArity3(t)) == t
  {
  }

  /** `AnonIter3`'s `next`, `next_back` and `len` are the tag-indexed ones at
      arity 3. */
  lemma Arity3Agrees<T, S>(next1: S -> Step<T, S>, next2: S -> Step<T, S>, next3: S -> Step<T, S>,
                           back1: S -> Step<T, S>, back2: S -> Step<T, S>, back3: S -> Step<T, S>,
                           len1: S -> nat, len2: S -> nat, len3: S -> nat, w: Arity3.AnonIter3<S, S, S>)
    ensures var r := Arity3.Next3(next1, next2, next3, w);
      NextN([next1, next2, next3], FromArity3(w)) == Step(r.item, FromArity3(r.rest))
    ensures var r := Arity3.NextBack3(back1, back2, back3, w);
      NextBackN([back1, back2, back3], FromArity3(w)) == Step(r.item, FromArity3(r.rest))
    ensures LenN([len1, len2, len3], FromArity3(w)) == Arity3.Len3(len1, len2, len3, w)
  {
  }
}
