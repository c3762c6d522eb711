# anon_iter: the `AnonIterN` iterator wrappers, modelled in Dafny

`anon_iter` lets a function declared `-> impl Iterator<Item = T>` return one
of several iterator types. Each branch wraps its iterator in a variant of a
closed enum: `AnonIter2::I1(it)`, `AnonIter8::I3(it)`, and so on. The
`create!` macro stamps out the enum `AnonIterN<T, I1, ..., In>` for `n` = 2
to 12. Each enum holds exactly one payload iterator, and every variant yields
the same item type `T`. Four trait impls forward to the active variant:

- `Iterator::next`
- `DoubleEndedIterator::next_back`
- `FusedIterator`, which is a marker with no code
- `ExactSizeIterator::len`

The last three exist only when every variant's payload type supports them.

This project models that wrapper family and proves its forwarding contract:

- Each operation returns exactly what the active payload's operation returns.
- The active variant never changes.
- Draining the wrapper, or any interleaving of `next` and `next_back`,
  matches the same calls on the payload.
- The wrapper is fused, or exact-size, if and only if all of its payloads are.

Files and modules:

- `options.dfy` (`Options`): the `Option` that `next` returns.
- `iterators.dfy` (`Iterators`): the `core::iter` contracts over an abstract
  iterator state `S`. The payload's trait impls are function values:
  `next: S -> Step<T, S>`, `nextBack`, `len: S -> nat`. `&mut self` becomes
  "state in, new state out". `Fused` and `ExactSize` are predicates on these
  functions. `Pull` runs `k` calls of `next`. `Drive` runs an interleaving of
  `Front`/`Back` calls. The module also has general lemmas about fused and
  exact-size iterators.
- `payloads.dfy` (`Payloads`): the two payload types of the crate's usage
  example. `SeqIter` is a list iterator such as `vec::IntoIter`, with the
  items still to come as its state. `Range` is `start..end` over `i32`.
- `anon_iter2.dfy` (`Arity2`) and `anon_iter3.dfy` (`Arity3`): `AnonIter2`
  and `AnonIter3` written out. Each variant has its own payload type.
- `anon_iter_n.dfy` (`ArityN`): the tag-indexed form `Tagged(tag, payload)`
  with `1 <= tag <= n` and `2 <= n <= 12`. It stands for all eleven
  expansions. It is related to `Arity2`/`Arity3` by round-trip and agreement
  lemmas.
- `examples.dfy` (`Examples`): the usage example `foo`, whose values have the
  concrete type `AnonIter2<i32, Range<i32>, vec::IntoIter<i32>>`, and a
  three-variant wrapper of list iterators. `foo` itself declares only
  `impl Iterator<Item = i32>`; the fused, exact-size and `size_hint` facts
  below are about the concrete type.

## Model

| member | source | states |
|---|---|---|
| Arity2.Tag2 | src/lib.rs:55-63 | every `AnonIter2` value is exactly one of the variants `I1`, `I2`, numbered 1 and 2; there is no other case |
| Arity2.Next2 | src/lib.rs:70-76 | `next` returns exactly the active payload's `next` item, the payload advances as it would on its own, and the variant is unchanged |
| Arity2.NextBack2 | src/lib.rs:82-88 | `next_back` returns exactly the active payload's `next_back` item and keeps the variant |
| Arity2.Len2 | src/lib.rs:96-102 | `len` is the active payload's `len`, with no arithmetic of the wrapper's |
| Arity2.PullDispatch2 | src/lib.rs:70-76 | `k` calls of `next` on the wrapper yield the same items in the same order as `k` calls on the active payload, and end in the same variant holding the payload's final state |
| Arity2.DriveDispatch2 | src/lib.rs:70-88 | any interleaving of `next` and `next_back` on the wrapper yields the same items as that interleaving on the active payload |
| Arity2.Fused2 | src/lib.rs:91 | the wrapper, with no state of its own, is fused if and only if both payload types are |
| Arity2.ExactSize2 | src/lib.rs:94-102 | `len` is 0 exactly when `next` returns `None` and drops by one per item produced, for the wrapper if and only if for both payloads |
| Arity2.ExactSizeBack2 | src/lib.rs:80-102 | the same exactness of `len` holds under `next_back` for the wrapper if and only if for both payloads |
| Arity2.SizeHint2AsWritten | src/lib.rs:66-77 | the wrapper's `size_hint` is the trait default: lower bound 0, no upper bound, whatever the payload |
| Arity2.SizeHintNeverExact2 | src/lib.rs:66-103 | as written, on every `AnonIter2` value and for any payload `len`, the default hint `(0, None)` differs from `(len, Some(len))`, so the wrapper never meets the exact-size obligation |
| Arity2.SizeHintExact2 | src/lib.rs:94-102 | with `size_hint` forwarded, the wrapper's hint is `(len, Some(len))` if and only if each payload's is |
| Arity3.Tag3 | src/lib.rs:55-63 | every `AnonIter3` value is exactly one of `I1`, `I2`, `I3` |
| Arity3.Next3 | src/lib.rs:70-76 | `next` returns the active payload's item and keeps the variant, for three variants |
| Arity3.NextBack3 | src/lib.rs:82-88 | `next_back` returns the active payload's item and keeps the variant, for three variants |
| Arity3.Len3 | src/lib.rs:96-102 | `len` is the active payload's `len`, for three variants |
| Arity3.PullDispatch3 | src/lib.rs:70-76 | draining `AnonIter3` with `next` yields exactly what draining the active payload yields |
| Arity3.DriveDispatch3 | src/lib.rs:70-88 | any interleaving of `next`/`next_back` on `AnonIter3` matches the same interleaving on the active payload |
| Arity3.Fused3 | src/lib.rs:91 | `AnonIter3` is fused if and only if all three payload types are |
| Arity3.ExactSize3 | src/lib.rs:94-102 | `AnonIter3`'s `len` is exact under `next` if and only if every payload's is |
| Arity3.ExactSizeBack3 | src/lib.rs:80-102 | `AnonIter3`'s `len` is exact under `next_back` if and only if every payload's is |
| ArityN.NextN | src/lib.rs:70-76 | for any arity 2..12 and any tag 1..n, `next` is the tag's payload `next` and keeps the tag |
| ArityN.NextBackN | src/lib.rs:82-88 | for any arity and tag, `next_back` is the tag's payload `next_back` and keeps the tag |
| ArityN.LenN | src/lib.rs:96-102 | for any arity and tag, `len` is the tag's payload `len` |
| ArityN.PullDispatchN | src/lib.rs:70-76 | for every arity and tag, draining the wrapper equals draining the active payload, in order |
| ArityN.DriveDispatchN | src/lib.rs:70-88 | for every arity and tag, any `next`/`next_back` interleaving matches the same interleaving on the payload |
| ArityN.FusedTransferN | src/lib.rs:91 | for every arity, the wrapper is fused if and only if every variant's payload is fused |
| ArityN.ExactSizeTransferN | src/lib.rs:94-102 | for every arity, the wrapper's `len` is exact if and only if every variant's `len` is |
| ArityN.FromArity2 | src/lib.rs:107 | `AnonIter2`'s variants are tags 1 and 2 of the two-variant form |
| ArityN.Arity2RoundTrip | src/lib.rs:55-63 | `AnonIter2` values and well-tagged two-variant values correspond one to one: each holds exactly one payload under exactly one tag |
| ArityN.Arity2Agrees | src/lib.rs:107 | `AnonIter2`'s `next`, `next_back` and `len` are the tag-indexed operations at arity 2 |
| ArityN.FromArity3 | src/lib.rs:108 | `AnonIter3`'s variants are tags 1, 2 and 3 of the three-variant form |
| ArityN.Arity3RoundTrip | src/lib.rs:55-63 | `AnonIter3` values and well-tagged three-variant values correspond one to one |
| ArityN.Arity3Agrees | src/lib.rs:108 | `AnonIter3`'s `next`, `next_back` and `len` are the tag-indexed operations at arity 3 |
| Iterators.FusedStaysExhausted | src/lib.rs:91 | a fused iterator that has returned `None` returns `None` on every one of any number of further calls |
| Iterators.ExactSizeConsume | src/lib.rs:94-102 | under exact size, consuming `k <= len` items yields `k` items and lowers `len` by exactly `k` |
| Iterators.LenCountsItems | src/lib.rs:94-102 | under exact size, the `len` reported before consumption is the number of items produced before the first `None` |
| Payloads.SeqNext | src/lib.rs:26 | the list iterator's `next` yields the front item and leaves the rest, or `None` on an empty list |
| Payloads.SeqNextBack | src/lib.rs:26 | the list iterator's `next_back` yields the last item and leaves the rest |
| Payloads.SeqIterYields | src/lib.rs:26 | `k` calls of `next` on a list iterator yield its items in order, then `None` |
| Payloads.RangeNext | src/lib.rs:25 | the range's `next` yields `start` and leaves the remaining half-open range, or `None` when empty |
| Payloads.RangeNextBack | src/lib.rs:25 | the range's `next_back` yields `end - 1` and leaves the remaining range |
| Payloads.RangeYields | src/lib.rs:25 | `k` calls of `next` on a range yield `start, start + 1, ..., end - 1`, then `None` |
| Examples.Foo | src/lib.rs:23-28 | `foo(x)` is the range variant exactly when `x == 0` |
| Examples.FooZeroYields | src/lib.rs:25 | `foo(0)` yields 1, 2, ..., 9 and then `None` |
| Examples.FooOtherYields | src/lib.rs:26 | `foo(x)` with `x != 0` yields 5, 10 and then `None` |
| Examples.FooCapabilities | src/lib.rs:91-102 | `AnonIter2<i32, Range<i32>, vec::IntoIter<i32>>` is fused and exact-size, because its range and list payloads are |
| Examples.FooLenCountsItems | src/lib.rs:23-28 | the value `foo(x)` builds has, at its concrete `AnonIter2` type, `len` 9 or 2, and exactly that many items come before the first `None` |
| Examples.ListsYield3 | src/lib.rs:108 | an `AnonIter3` of list iterators yields the active list's items in order, then `None` |
| Examples.ListsCount3 | src/lib.rs:108 | for that wrapper, `len` starts at the active list's length, drops by one per item, and is 0 exactly when `next` returns `None` |
| Examples.FooSizeHintAsWritten | src/lib.rs:94-102 | as written, `AnonIter2::I2(vec![5, 10].into_iter())` at type `AnonIter2<i32, Range<i32>, vec::IntoIter<i32>>` has `len() == 2` but `size_hint() == (0, None)`, so the exact-size obligation fails |
| Examples.FooSizeHintForwarded | src/lib.rs:94-102 | with `size_hint` forwarded, `AnonIter2<i32, Range<i32>, vec::IntoIter<i32>>` reports `(len, Some(len))` on every value |

## Left out

- The `macro_rules!` mechanism and its eleven expansions (src/lib.rs:43-44,
  107-117). `AnonIter2` and `AnonIter3` are written out. `ArityN` stands for
  every arity 2..12, but its payloads share one state type.
- Conditional trait-impl resolution (src/lib.rs:80, 91, 94). A capability
  that the wrapper has only when every payload has it becomes a predicate on
  the payloads' functions. The transfer lemmas are stated as "if and only if".
- Rust's item type parameter `T` on the enum. The item type is fixed by the
  step functions passed to the operations, and they must all agree.
- The real `Range` and `vec::IntoIter` implementations, which are foreign
  library code. They are modelled by the items they still have to produce.
  `Range<i32>` uses unbounded integers: its bounds move only towards each
  other, so `i32` overflow cannot occur.
- Ownership, drop, `&mut` aliasing and `#![no_std]`. Each call takes the
  iterator's state and returns the new state.
- Documentation text and doc attributes.
- Iterator methods the source does not override (`count`, `nth`, `fold`,
  ...). Their trait defaults are built from `next`, so their behaviour
  follows from the `next` model. `size_hint` is the exception (see Findings).
- The forwarded `size_hint` (see Findings) is written only at arity 2.
  Arity 3 and the tag-indexed form would repeat the same match.

## Findings

| source | as written | input that shows it | evidently intended | confidence | as-written member | corrected member |
|---|---|---|---|---|---|---|
| src/lib.rs:66-103 | `ExactSizeIterator` is implemented, but `size_hint` is not overridden, so the trait default `(0, None)` applies | `AnonIter2::I2(vec![5, 10].into_iter())` used at its concrete type `AnonIter2<i32, Range<i32>, vec::IntoIter<i32>>`: `len()` is 2, `size_hint()` is `(0, None)` | `size_hint` forwarded to the active payload like `next`, `next_back` and `len`, so that it equals `(len, Some(len))` as `ExactSizeIterator` documents | high; not executed | Arity2.SizeHint2AsWritten, Arity2.SizeHintNeverExact2, Examples.FooSizeHintAsWritten | Arity2.SizeHint2, Arity2.SizeHintExact2, Examples.FooSizeHintForwarded |
