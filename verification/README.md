# safer-std, modelled in Dafny

`safer-std` is a small Rust crate of slice and vec utilities built from
scratch, with `unsafe` code kept to a minimum. It provides:

- a read-only double-ended slice cursor, `SliceIter`;
- a mutable double-ended slice cursor, `SliceIterMut`;
- a draining cursor over a range of a `Vec`, `VecDrain`;
- three free functions built on them: `reverse`, `rotate_right` and `rotate_left`.

This project models those four source files as pure Dafny functions and
methods over immutable values, and proves what the cursors promise.

- `SliceIter` (`slice_iter.dfy`) keeps the slice it walks and a window `[lo, hi)`.
  Its items are element values.
- `SliceIterMut` (`slice_iter_mut.dfy`) walks `n` slots.
  - An exclusive reference `&mut T` is modelled by the index of the slot it points to.
  - The set `lent` records every slot handed out, so the borrow discipline the Rust compiler enforces becomes a proved invariant.
  - Whatever the order of `next` and `next_back` calls, no slot is handed out twice, and no handed-out slot stays reachable through the cursor.
- `VecDrain` (`vec_drain.dfy`) holds three things:
  - the vec's contents after it was shortened;
  - the removed storage past its length;
  - the window the cursor still owns.

  Two multisets record the elements moved out (`yielded`) and destroyed in place (`dropped`). `Accounted` is the ownership invariant: yielded, dropped and the window together are exactly the removed elements.
- `SliceOps` (`slice_ops.dfy`) holds `reverse` and the two rotations as methods. The methods return the slice contents they leave behind.
  - `Reverse` drives the `SliceIterMut` model in the same loop the source uses.
  - Each swap is shown to touch two distinct slots.
- `SeqSpec` (`seq_spec.dfy`) gives reference definitions of reversal and rotation, independent of the algorithms, together with their algebra.
- `Wrappers` (`wrappers.dfy`) gives `Option` and `Result`.

A panic becomes a `Failure`/`None` outcome or, where the caller must not
reach it, a precondition.

## Intended behaviour

Three places in the code do not do what the crate's own surrounding code and the standard library contracts it implements call for. The model follows the code as written, proves the gap, and states the intended behaviour as a separate, proved definition (see Findings).

- `SliceIterMut::nth` (src/slice_iter_mut.rs:33-43) always returns `None`. `Iterator::nth` is documented to return the element after skipping `n`. The crate's own `SliceIter::nth` (src/slice_iter.rs:29-39) does that, and so does the unreachable tail of `SliceIterMut::nth` at lines 39-42. `SliceIterMut.NthIntended` follows them.
- `VecDrain::new` (src/vec_drain.rs:15-19) reads `range.start_bound()` a second time to find the end index. `RangeBounds::end_bound` is where a range's end lies, and the match arms at lines 16-18 are the ones for an end bound (`Unbounded` gives the length, `Included(n)` gives `n + 1`). `VecDrain.DecodeBoundsIntended` reads the end bound instead.
- `VecDrain::nth_back` (src/vec_drain.rs:95-113) empties the window past the start without destroying it. The `Drop` impl (src/vec_drain.rs:46-54) and `nth` (src/vec_drain.rs:76-80) destroy every element they remove from the window. The vec no longer owns those slots, because `new` shortens it (src/vec_drain.rs:31-40). `VecDrain.NthBackIntended` destroys them.

The drain's whole life is proved twice:
- with the code as written, where accounting holds only when no call takes the leaking path;
- with the corrected `nth_back`, where every drained element is handled exactly once whatever the calls.

## Model

| member | source | states |
|---|---|---|
| SliceIter.New | src/slice_iter.rs:6-8 | a fresh cursor's window is the whole slice |
| SliceIter.AsSlice | src/slice_iter.rs:10-12 | the remaining window has as many elements as the cursor's bounds enclose |
| SliceIter.AsSliceIsContiguous | src/slice_iter.rs:10-12 | the window is a contiguous part of the slice, flanked by what was consumed from each end |
| SliceIter.Next | src/slice_iter.rs:18-22 | yields the window's first element and leaves the rest; an empty window yields nothing and is unchanged |
| SliceIter.SizeHint | src/slice_iter.rs:24-27 | the hint is exact: both bounds equal the number of elements left |
| SliceIter.Nth | src/slice_iter.rs:29-39 | yields the element at offset n and leaves what follows; past the end it yields nothing and empties the window |
| SliceIter.NextBack | src/slice_iter.rs:43-47 | yields the window's last element and leaves all before it |
| SliceIter.NthBack | src/slice_iter.rs:49-59 | yields the element n places before the last and leaves what precedes it; past the start it yields nothing and empties the window |
| SliceIter.AdvanceDropsFront | src/slice_iter.rs:18-22 | n discarded `next` calls move the front by n, stopping at the back |
| SliceIter.RetreatDropsBack | src/slice_iter.rs:43-47 | n discarded `next_back` calls move the back by n, stopping at the front |
| SliceIter.NthIsAdvanceThenNext | src/slice_iter.rs:29-39 | `nth(n)` equals n discarded `next` calls followed by one more |
| SliceIter.NthZeroIsNext | src/slice_iter.rs:29-39 | `nth(0)` behaves exactly as `next` |
| SliceIter.NthBackIsRetreatThenNextBack | src/slice_iter.rs:49-59 | `nth_back(n)` yields the same item and leaves the same window as n discarded `next_back` calls followed by one more |
| SliceIter.CollectIsAsSlice | src/slice_iter.rs:18-27 | calling `next` until exhaustion visits exactly the window, in order, in as many steps as `size_hint` announced |
| SliceIterMut.New | src/slice_iter_mut.rs:8-10 | a fresh cursor reaches exactly the slots of the slice and has lent none |
| SliceIterMut.IntoMutSlice | src/slice_iter_mut.rs:12-14 | the returned slice is the window's slots in order, none of them lent before |
| SliceIterMut.SizeHint | src/slice_iter_mut.rs:28-31 | the hint is exact: both bounds equal the length of the remaining slice |
| SliceIterMut.Next | src/slice_iter_mut.rs:21-26 | lends the window's first slot; that slot was not lent before and is no longer reachable; the window loses exactly that slot |
| SliceIterMut.NextBack | src/slice_iter_mut.rs:47-52 | lends the window's last slot, under the same non-aliasing guarantees as `next` |
| SliceIterMut.Nth | src/slice_iter_mut.rs:33-43 | as written: for every n, lends nothing, empties the window and leaves the lent set unchanged |
| SliceIterMut.NthAlwaysNone | src/slice_iter_mut.rs:33-43 | when the window holds more than n slots, `nth` as written gives a different answer from the intended `nth` |
| SliceIterMut.NthExample | src/slice_iter_mut.rs:33-43 | `nth(1)` on a fresh three-slot cursor lends nothing as written |
| SliceIterMut.NthIntended | src/slice_iter_mut.rs:39-42 | lends the slot at offset n and leaves the slots after it; past the end lends nothing and empties the window |
| SliceIterMut.NthIntendedExample | src/slice_iter_mut.rs:39-42 | `nth(1)` on a fresh three-slot cursor, as intended, lends slot 1 and leaves one slot |
| SliceIterMut.NthBack | src/slice_iter_mut.rs:54-65 | lends the slot n places before the last and leaves what precedes it; past the start lends nothing and empties the window |
| SliceIterMut.Step | src/slice_iter_mut.rs:21-52 | a step lends a fresh slot exactly when the window is non-empty; a front step lends the window's first slot and a back step its last |
| SliceIterMut.RunShrinksWindow | src/slice_iter_mut.rs:21-52 | any interleaving of `next` and `next_back` lends min(steps, window length) slots and shrinks the window by exactly that many |
| SliceIterMut.RunLendsFromWindow | src/slice_iter_mut.rs:21-52 | every slot lent by any interleaving came from the original window, was not lent before, and is no longer reachable |
| SliceIterMut.RunLendsEachSlotOnce | src/slice_iter_mut.rs:21-52 | no interleaving lends the same slot twice |
| SliceIterMut.RunLendsWhatLeavesTheWindow | src/slice_iter_mut.rs:21-52 | every slot that leaves the window is lent |
| SliceIterMut.RunToExhaustion | src/slice_iter_mut.rs:21-52 | n steps on a fresh n-slot cursor lend every slot and exhaust the cursor |
| VecDrain.DecodeBounds | src/vec_drain.rs:10-19 | as written: an unbounded start decodes to the whole vec, an inclusive start to a range of one index, an exclusive start to an end one below the start |
| VecDrain.DecodeIgnoresEndBound | src/vec_drain.rs:15-19 | as written, the decoded indices do not depend on the end bound at all |
| VecDrain.DecodeBoundsIntended | src/vec_drain.rs:10-19 | the decoded half-open range holds exactly the vec indices the range contains |
| VecDrain.New | src/vec_drain.rs:21-42 | faults in the source's order (start past len, end past len, end before start); otherwise the vec keeps the original minus `[start, end)` in order, the window holds `[start, end)` in order, and everything removed is accounted for |
| VecDrain.NewFromRange | src/vec_drain.rs:9-42 | as written: an unbounded start drains the whole vec, an inclusive start drains one element, an exclusive start always faults |
| VecDrain.RangeEndIgnoredExample | src/vec_drain.rs:15-19 | `1..4` on a 7-element vec drains only index 1, although index 2 is in the range; the intended decoding gives `[1, 4)` |
| VecDrain.SizeHint | src/vec_drain.rs:66-69 | the hint is exact: both bounds equal the number of elements left |
| VecDrain.CollectIsWindow | src/vec_drain.rs:58-69 | calling `next` until exhaustion moves out exactly the window, in order, in as many calls as `size_hint` announced |
| VecDrain.Next | src/vec_drain.rs:58-64 | moves the first window element out; the set of elements accounted for is unchanged |
| VecDrain.NextBack | src/vec_drain.rs:87-93 | moves the last window element out; the set of elements accounted for is unchanged |
| VecDrain.DropFront | src/vec_drain.rs:72-80 | destroys the first k window elements in place; the set of elements accounted for is unchanged |
| VecDrain.DropBack | src/vec_drain.rs:102-110 | destroys the last k window elements in place; the set of elements accounted for is unchanged |
| VecDrain.Nth | src/vec_drain.rs:71-83 | destroys the first min(n, len) elements, then yields as `next`; nothing is lost or duplicated |
| VecDrain.NthBack | src/vec_drain.rs:95-113 | as written: below the length, destroys the last n elements and yields as `next_back`; past the start, empties the window and the remaining elements fall out of the accounting |
| VecDrain.NthBackLeaks | src/vec_drain.rs:96-100 | past the start, `nth_back` breaks the accounting invariant, and the elements it held are never destroyed, even by `Drop` |
| VecDrain.NthBackIntended | src/vec_drain.rs:95-113 | past the start, destroys every remaining element, so nothing leaves the accounting |
| VecDrain.Drop | src/vec_drain.rs:46-54 | destroys every element still owned; under the invariant, every removed element has then been moved out or destroyed exactly once |
| VecDrain.Perform | src/vec_drain.rs:56-114 | no call increases what the cursor answers for, and only the leaking `nth_back` path decreases it |
| VecDrain.ApplyAccounts | src/vec_drain.rs:56-114 | any sequence of calls never moves out or destroys an element twice, and loses nothing unless it takes the leaking path |
| VecDrain.DrainLifecycle | src/vec_drain.rs:9-114 | for any calls before the drop, the vec ends as the original minus `[start, end)`, in order, and no removed element is moved out or destroyed twice |
| VecDrain.DrainLifecycleWithoutLeak | src/vec_drain.rs:9-114 | unless `nth_back` leaked, every drained element is moved out or destroyed exactly once by the time the cursor is dropped |
| VecDrain.NewFromRangeIntended | src/vec_drain.rs:9-42 | with the intended decoding, construction succeeds exactly when the decoded range fits the vec, and the window is the run of the vec at exactly the indices the range contains |
| VecDrain.RangeIntendedExample | src/vec_drain.rs:9-42 | with the intended decoding, `1..4` drains `2, 3, 4` from `[1..7]` and leaves `[1, 5, 6, 7]` |
| VecDrain.PerformIntended | src/vec_drain.rs:56-114 | with the intended `nth_back`, no call changes what the cursor answers for |
| VecDrain.ApplyIntendedAccounts | src/vec_drain.rs:56-114 | with the intended `nth_back`, no sequence of calls changes what the cursor answers for |
| VecDrain.DrainLifecycleIntended | src/vec_drain.rs:9-114 | with the intended `nth_back`, for any calls before the drop, every drained element is moved out or destroyed exactly once |
| VecDrain.DrainMiddleExample | src/vec_drain.rs:21-64 | draining `[1, 4)` from `[1..7]` leaves `[1, 5, 6, 7]` and yields 2, 3, 4, then nothing |
| SeqSpec.ReversedAt | src/lib.rs:41-48 | position i of the reversal holds position len-1-i of the original |
| SeqSpec.ReversedInvolutive | src/lib.rs:41-48 | reversing twice gives back the original |
| SeqSpec.ReversedPermutes | src/lib.rs:41-48 | reversal neither adds nor loses elements |
| SeqSpec.ReverseThenReverseHalves | src/lib.rs:16-22 | reversing the whole, then each side of the split at k, is rotation right by k |
| SeqSpec.RotatedLeftIsRotatedRight | src/lib.rs:30-33 | rotating left by k is rotating right by len-k |
| SeqSpec.RotateRightThenLeft | src/lib.rs:16-33 | a right rotation by k is undone by a left rotation by k |
| SeqSpec.RotateByZeroOrLength | src/lib.rs:16-33 | rotations by 0 and by the length change nothing |
| SliceOps.Swap | src/lib.rs:45 | exchanges the two slots' elements and leaves every other slot alone |
| SliceOps.Reverse | src/lib.rs:41-48 | the slice ends up as the reference reversal, a permutation of the original |
| SliceOps.RotateRight | src/lib.rs:16-22 | panics exactly when k exceeds the length; otherwise the last k elements move to the front, in order |
| SliceOps.RotateLeft | src/lib.rs:30-33 | panics exactly when k exceeds the length; otherwise the first k elements move to the back, in order |
| SliceOps.DocumentedExamples | src/lib.rs:10-40 | the three documented examples on `[1..7]` hold |

## Left out

- Raw pointers, `ptr::read` and `ptr::drop_in_place` are left out. Moving an element out and destroying it are modelled as adding it to the `yielded` or `dropped` multiset.
- Lifetimes are left out. They are modelled only as slot disjointness: the `lent` set of the mutable cursor.
- `core::slice::rotate_left`, used by `VecDrain::new`, is specified by its result (`SeqSpec.RotatedLeft`) rather than by its algorithm.
- Vec capacity and reallocation are left out.
- usize overflow of `n + 1` in the bound decoding is left out. Integers are unbounded.
- `RangeBounds` is modelled as a pair of `Bound` values instead of generic dispatch.
- Panic messages are left out. A panic is a `Failure` carrying which check failed, or `None` for the rotations.
- Unwinding during a panic is left out. So is the double-drop hazard the source guards against by shortening the vec first.
- `SliceIter.Emptied`: `&[]` is a static empty slice not tied to the original. The model keeps the original slice and moves the front to the back, which gives the same empty window.
- `SliceOps.RotateLeft`: in the source, `len - k` underflows when k exceeds the length. That is a panic in a debug build; in a release build it wraps to a huge k, which the assertion in `rotate_right` then rejects. Both outcomes are modelled as one `None`.
- The drain datatype goes beyond the source: the source's cursor holds only its window slice. The model also carries the vec and the removed storage, to relate the window to them.

## Findings

| source | as written | input that shows it | evidently intended | confidence | as-written member | corrected member |
|---|---|---|---|---|---|---|
| src/slice_iter_mut.rs:34-37 | `nth` replaces the field with an empty slice and then tests `n` against the field, not the taken slice, so the guard always fires | a fresh cursor over 3 slots, `nth(1)`: returns `None` and exhausts the cursor | test `n` against the taken slice's length, lend slot 1 and keep slot 2 | high, not executed | SliceIterMut.NthAlwaysNone | SliceIterMut.NthIntended |
| src/vec_drain.rs:15-19 | the end index is computed from `range.start_bound()`, so the end bound is ignored | `[1, 2, 3, 4, 5, 6, 7]` drained over `1..4` removes only `2`, although index 2 is in the range | compute the end index from `range.end_bound()` | high, not executed | VecDrain.RangeEndIgnoredExample | VecDrain.DecodeBoundsIntended |
| src/vec_drain.rs:96-100 | `nth_back` with `n >= len` empties the window without destroying its elements | a drain whose window holds one element, `nth_back(1)`: that element is neither yielded nor destroyed, even by `Drop` | destroy the remaining elements, as `nth` does | high, not executed | VecDrain.NthBackLeaks | VecDrain.NthBackIntended |
