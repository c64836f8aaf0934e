/** The draining cursor of src/vec_drain.rs.

    `VecDrain::new` rotates the range to be removed to the end of the vec's
    storage, shortens the vec's length so that the vec no longer owns those
    elements, and keeps them as its window. Iteration then moves elements out
    of the window (they are yielded) or destroys them in place (they are
    dropped), and dropping the cursor destroys whatever is left.

    Moves and destruction are modelled as bookkeeping rather than memory
    operations: the vec and the removed storage are never changed after
    construction, and the multisets `yielded` and `dropped` record every
    element that left the window by each route. An element is accounted for exactly once when
    yielded, dropped and window together make up the removed storage. */
module VecDrain {
  import opened Wrappers
  import SeqSpec

  /** One end of a range argument, as `core::ops::Bound`. */
  datatype Bound = Unbounded | Included(n: nat) | Excluded(n: nat)

  /** A range argument `R: RangeBounds<usize>`, given by its two bounds. */
  datatype RangeArg = RangeArg(startBound: Bound, endBound: Bound)

  /** The faults `VecDrain::new` stops with, in the order it checks for them. */
  datatype Fault = StartPastLen | EndPastLen | EndBeforeStart

  /** The cursor together with the vec it borrows: `vec` is the vec's
      contents after it was shortened, `removed` the storage past its length,
      where the rotation put the drained range, and `window` the slice the
      cursor still owns, a part of `removed`. */
  datatype Drain<T> = Drain(
    vec: seq<T>, removed: seq<T>, window: seq<T>,
    yielded: multiset<T>, dropped: multiset<T>)

  /** The calls a client can make on the cursor. */
  datatype Call = CallNext | CallNextBack | CallNth(n: nat) | CallNthBack(n: nat)

  /** Whether index `i` lies in the range, as `RangeBounds::contains`. */
  predicate Contains(r: RangeArg, i: nat) {
    && (match r.startBound
        case Unbounded => true
        case Included(s) => s <= i
        case Excluded(s) => s < i)
    && (match r.endBound
        case Unbounded => true
        case Included(e) => i <= e
        case Excluded(e) => i < e)
  }

  /** The first index a range argument designates. */
  function StartIndex(b: Bound): nat {
    match b
    case Unbounded => 0
    case Included(n) => n
    case Excluded(n) => n + 1
  }

  /** The bound decoding of `VecDrain::new` as written: the end index is
      computed from the START bound, and the end bound is never consulted. */
  function DecodeBounds(len: nat, r: RangeArg): (b: (nat, nat))
    ensures b.0 == StartIndex(r.startBound)
    ensures r.startBound.Unbounded? ==> b == (0, len)
    ensures r.startBound.Included? ==> b.1 == b.0 + 1
    ensures r.startBound.Excluded? ==> b.1 + 1 == b.0
  {
    var start := StartIndex(r.startBound);
    var end := match r.startBound
      case Unbounded => len
      case Included(n) => n + 1
      case Excluded(n) => n;
    (start, end)
  }

  /** The bound decoding as evidently intended: the end index comes from the
      end bound, so that the decoded half-open range holds exactly the
      indices of the vec that the range contains. */
  function DecodeBoundsIntended(len: nat, r: RangeArg): (b: (nat, nat))
    ensures forall i: nat :: i < len ==> (b.0 <= i < b.1 <==> Contains(r, i))
  {
    var start := StartIndex(r.startBound);
    var end := match r.endBound
      case Unbounded => len
      case Included(n) => n + 1
      case Excluded(n) => n;
    (start, end)
  }

  /** Everything the cursor has answered for: moved out, destroyed, or still
      held. */
  function Held<T(==)>(d: Drain<T>): multiset<T> {
    d.yielded + d.dropped + multiset(d.window)
  }

  /** Every removed element is yielded, dropped or still in the window, and
      none of them twice. */
  ghost predicate Accounted<T>(d: Drain<T>) {
    Held(d) == multiset(d.removed)
  }

  /** `r` leaves the vec and its storage as `d` had them. */
  ghost predicate Untouched<T>(r: Drain<T>, d: Drain<T>) {
    r.vec == d.vec && r.removed == d.removed
  }

  /** The multiset of a sequence splits at any index. */
  lemma {:induction false} SplitMultiset<T>(s: seq<T>, k: nat)
    requires k <= |s|
    ensures multiset(s) == multiset(s[..k]) + multiset(s[k..])
  {
    assert s == s[..k] + s[k..];
  }

  /** `VecDrain::new` over explicit indices: checks the indices in the
      source's order, rotates `vec[start..]` left by `end - start`, shortens
      the vec to exclude the rotated-out tail and keeps that tail as the
      window. The vec then holds the original without `[start, end)`, in
      order, and the window holds `[start, end)`, in order. */
  function New<T(==)>(vec: seq<T>, start: nat, end: nat): (r: Result<Drain<T>, Fault>)
    ensures r == Failure(StartPastLen) <==> start > |vec|
    ensures r == Failure(EndPastLen) <==> start <= |vec| < end
    ensures r == Failure(EndBeforeStart) <==> end < start <= |vec|
    ensures r.Success? <==> start <= end <= |vec|
    ensures r.Success? ==>
      && r.value.vec == vec[..start] + vec[end..]
      && |r.value.vec| == |vec| - (end - start)
      && r.value.window == vec[start..end]
      && r.value.removed == vec[start..end]
      && r.value.yielded == multiset{} && r.value.dropped == multiset{}
      && Accounted(r.value)
  {
    if start > |vec| then Failure(StartPastLen)
    else if end > |vec| then Failure(EndPastLen)
    else if end < start then Failure(EndBeforeStart)
    else
      var len := end - start;
      var buf := vec[..start] + SeqSpec.RotatedLeft(vec[start..], len);
      var keep := |buf| - len;
      assert vec[start..][len..] == vec[end..] && vec[start..][..len] == vec[start..end];
      assert buf[..keep] == vec[..start] + vec[end..];
      assert buf[keep..] == vec[start..end];
      Success(Drain(buf[..keep], buf[keep..], buf[keep..], multiset{}, multiset{}))
  }

  /** `VecDrain::new` with a range argument, as written. Since the end index
      is taken from the start bound, a range with an unbounded start drains
      the whole vec, one with an inclusive start drains exactly one element,
      and one with an exclusive start always faults. */
  function NewFromRange<T(==)>(vec: seq<T>, range: RangeArg): (r: Result<Drain<T>, Fault>)
    ensures range.startBound.Unbounded? ==>
      r.Success? && r.value.window == vec && r.value.vec == []
    ensures range.startBound.Included? && range.startBound.n < |vec| ==>
      r.Success? && r.value.window == [vec[range.startBound.n]]
    ensures range.startBound.Excluded? ==> r.Failure?
  {
    var (start, end) := DecodeBounds(|vec|, range);
    assert vec[..0] + vec[|vec|..] == [] && vec[0..|vec|] == vec;
    New(vec, start, end)
  }

  /** `VecDrain::new` with a range argument, as evidently intended: the
      window is the run of the vec at exactly the indices the range contains,
      in order. */
  function NewFromRangeIntended<T(==)>(vec: seq<T>, range: RangeArg): (r: Result<Drain<T>, Fault>)
    ensures r.Success? <==>
      StartIndex(range.startBound) <= DecodeBoundsIntended(|vec|, range).1 <= |vec|
    ensures r.Success? ==>
      var s := StartIndex(range.startBound);
      && s + |r.value.window| <= |vec|
      && r.value.window == vec[s..s + |r.value.window|]
      && (forall i: nat :: i < |vec| ==> (Contains(range, i) <==> s <= i < s + |r.value.window|))
  {
    var (start, end) := DecodeBoundsIntended(|vec|, range);
    New(vec, start, end)
  }

  /** `size_hint`: exact, both bounds equal the number of elements left. */
  function SizeHint<T>(d: Drain<T>): (r: (nat, Option<nat>))
    ensures r.1 == Some(r.0) && r.0 == |d.window|
  {
    var n := |d.window|;
    (n, Some(n))
  }

  /** `next`: moves the first element of the window out and yields it; an
      empty window yields nothing and is left as it is. */
  function Next<T(==)>(d: Drain<T>): (r: (Drain<T>, Option<T>))
    ensures Untouched(r.0, d) && r.0.dropped == d.dropped
    ensures Held(r.0) == Held(d)
    ensures d.window == [] ==> r == (d, None)
    ensures d.window != [] ==>
      && r.1 == Some(d.window[0])
      && r.0.window == d.window[1..]
      && r.0.yielded == d.yielded + multiset{d.window[0]}
  {
    if d.window == [] then (d, None)
    else
      var x := d.window[0];
      assert d.window == [x] + d.window[1..];
      (d.(window := d.window[1..], yielded := d.yielded + multiset{x}), Some(x))
  }

  /** `next_back`: moves the last element of the window out and yields it. */
  function NextBack<T(==)>(d: Drain<T>): (r: (Drain<T>, Option<T>))
    ensures Untouched(r.0, d) && r.0.dropped == d.dropped
    ensures Held(r.0) == Held(d)
    ensures d.window == [] ==> r == (d, None)
    ensures d.window != [] ==>
      && r.1 == Some(d.window[|d.window| - 1])
      && r.0.window == d.window[..|d.window| - 1]
      && r.0.yielded == d.yielded + multiset{d.window[|d.window| - 1]}
  {
    if d.window == [] then (d, None)
    else
      var k := |d.window| - 1;
      var x := d.window[k];
      assert d.window == d.window[..k] + [x];
      (d.(window := d.window[..k], yielded := d.yielded + multiset{x}), Some(x))
  }

  /** Every element `next` yields until the drain is exhausted, in order. */
  function Collect<T(==)>(d: Drain<T>): (r: seq<T>)
    decreases |d.window|
  {
    var (rest, x) := Next(d);
    if x.None? then [] else [x.value] + Collect(rest)
  }

  /** Calling `next` until it yields nothing moves out exactly the window, in
      order, in as many calls as `size_hint` announced. */
  lemma {:induction false} CollectIsWindow<T>(d: Drain<T>)
    ensures Collect(d) == d.window
    ensures |Collect(d)| == SizeHint(d).0
    decreases |d.window|
  {
    var (rest, x) := Next(d);
    if x.Some? {
      CollectIsWindow(rest);
      assert d.window == [x.value] + rest.window;
    }
  }

  /** Destroys the first `k` elements of the window in place. */
  function DropFront<T(==)>(d: Drain<T>, k: nat): (r: Drain<T>)
    requires k <= |d.window|
    ensures Untouched(r, d) && r.yielded == d.yielded
    ensures Held(r) == Held(d)
    ensures r.dropped == d.dropped + multiset(d.window[..k])
    ensures r.window == d.window[k..]
  {
    SplitMultiset(d.window, k);
    d.(window := d.window[k..], dropped := d.dropped + multiset(d.window[..k]))
  }

  /** Destroys the last `k` elements of the window in place. */
  function DropBack<T(==)>(d: Drain<T>, k: nat): (r: Drain<T>)
    requires k <= |d.window|
    ensures Untouched(r, d) && r.yielded == d.yielded
    ensures Held(r) == Held(d)
    ensures r.dropped == d.dropped + multiset(d.window[|d.window| - k..])
    ensures r.window == d.window[..|d.window| - k]
  {
    var cut := |d.window| - k;
    SplitMultiset(d.window, cut);
    d.(window := d.window[..cut], dropped := d.dropped + multiset(d.window[cut..]))
  }

  /** `nth`: destroys the first `n` elements of the window (all of them when
      there are fewer) and then behaves as `next`. */
  function Nth<T(==)>(d: Drain<T>, n: nat): (r: (Drain<T>, Option<T>))
    ensures Untouched(r.0, d)
    ensures Held(r.0) == Held(d)
    ensures r.0.dropped ==
      d.dropped + multiset(d.window[..if n <= |d.window| then n else |d.window|])
    ensures n < |d.window| ==>
      && r.1 == Some(d.window[n])
      && r.0.window == d.window[n + 1..]
      && r.0.yielded == d.yielded + multiset{d.window[n]}
    ensures n >= |d.window| ==>
      r.1 == None && r.0.window == [] && r.0.yielded == d.yielded
  {
    var k := if n <= |d.window| then n else |d.window|;
    var skipped := DropFront(d, k);
    assert n < |d.window| ==> skipped.window[1..] == d.window[n + 1..];
    Next(skipped)
  }

  /** `nth_back` as written: with `n` below the window's length it destroys
      the last `n` elements and then behaves as `next_back`; otherwise it
      empties the window WITHOUT destroying its elements, so that they are
      neither yielded nor dropped, and are lost to the accounting. */
  function NthBack<T(==)>(d: Drain<T>, n: nat): (r: (Drain<T>, Option<T>))
    ensures Untouched(r.0, d)
    ensures n >= |d.window| ==>
      && r.1 == None && r.0.window == []
      && r.0.yielded == d.yielded && r.0.dropped == d.dropped
      && Held(r.0) + multiset(d.window) == Held(d)
    ensures n < |d.window| ==>
      && Held(r.0) == Held(d)
      && r.0.dropped == d.dropped + multiset(d.window[|d.window| - n..])
      && r.1 == Some(d.window[|d.window| - 1 - n])
      && r.0.window == d.window[..|d.window| - 1 - n]
      && r.0.yielded == d.yielded + multiset{d.window[|d.window| - 1 - n]}
  {
    if n >= |d.window| then (d.(window := []), None)
    else
      var cut := DropBack(d, n);
      var k := |d.window| - 1 - n;
      assert |cut.window| == k + 1 && cut.window[k] == d.window[k];
      assert cut.window[..k] == d.window[..k];
      NextBack(cut)
  }

  /** `nth_back` as evidently intended: past the start it destroys every
      element left in the window, so nothing escapes the accounting. */
  function NthBackIntended<T(==)>(d: Drain<T>, n: nat): (r: (Drain<T>, Option<T>))
    ensures Untouched(r.0, d)
    ensures Held(r.0) == Held(d)
    ensures n >= |d.window| ==>
      && r.1 == None && r.0.window == []
      && r.0.yielded == d.yielded && r.0.dropped == d.dropped + multiset(d.window)
    ensures n < |d.window| ==> r == NthBack(d, n)
  {
    if n >= |d.window| then (d.(window := [], dropped := d.dropped + multiset(d.window)), None)
    else NthBack(d, n)
  }

  /** `Drop::drop`: destroys every element still in the window. When every
      removed element was accounted for, each has now been moved out or
      destroyed, exactly once. */
  function Drop<T(==)>(d: Drain<T>): (r: Drain<T>)
    ensures Untouched(r, d) && r.window == []
    ensures r.yielded == d.yielded && r.dropped == d.dropped + multiset(d.window)
    ensures Accounted(d) ==> r.yielded + r.dropped == multiset(d.removed)
  {
    d.(window := [], dropped := d.dropped + multiset(d.window))
  }

  /** `nth_back` past the start loses exactly the elements the window still
      held: afterwards they are neither yielded nor dropped, and dropping the
      cursor no longer destroys them. */
  lemma {:induction false} NthBackLeaks<T>(d: Drain<T>, n: nat)
    requires Accounted(d)
    requires |d.window| <= n && d.window != []
    ensures !Accounted(NthBack(d, n).0)
    ensures var fin := Drop(NthBack(d, n).0);
      fin.yielded + fin.dropped + multiset(d.window) == multiset(d.removed)
  {
    var r := NthBack(d, n).0;
    assert multiset(d.window) != multiset{} by {
      assert d.window[0] in multiset(d.window);
    }
    assert Held(r) != Held(d);
  }

  /** Whether the call takes the leaking path of `nth_back`. */
  ghost predicate Leaks<T>(d: Drain<T>, c: Call) {
    c.CallNthBack? && c.n >= |d.window| && d.window != []
  }

  /** One call, dispatched. */
  function Perform<T(==)>(d: Drain<T>, c: Call): (r: (Drain<T>, Option<T>))
    ensures Untouched(r.0, d)
    ensures Held(r.0) <= Held(d)
    ensures !Leaks(d, c) ==> Held(r.0) == Held(d)
  {
    match c
    case CallNext => Next(d)
    case CallNextBack => NextBack(d)
    case CallNth(n) => Nth(d, n)
    case CallNthBack(n) =>
      assert d.window == [] ==> multiset(d.window) == multiset{};
      NthBack(d, n)
  }

  /** The cursor after the calls, in order. */
  function Apply<T(==)>(d: Drain<T>, calls: seq<Call>): (r: Drain<T>)
    ensures Untouched(r, d)
    decreases |calls|
  {
    if calls == [] then d else Apply(Perform(d, calls[0]).0, calls[1..])
  }

  /** Whether none of the calls takes the leaking path of `nth_back`. */
  ghost predicate NoLeak<T>(d: Drain<T>, calls: seq<Call>)
    decreases |calls|
  {
    calls == [] || (!Leaks(d, calls[0]) && NoLeak(Perform(d, calls[0]).0, calls[1..]))
  }

  /** Any sequence of calls never moves out or destroys an element twice, and
      loses nothing unless a call takes the leaking path of `nth_back`. */
  lemma {:induction false} ApplyAccounts<T>(d: Drain<T>, calls: seq<Call>)
    ensures Held(Apply(d, calls)) <= Held(d)
    ensures NoLeak(d, calls) ==> Held(Apply(d, calls)) == Held(d)
    decreases |calls|
  {
    if calls != [] {
      ApplyAccounts(Perform(d, calls[0]).0, calls[1..]);
    }
  }

  /** The whole life of a drain over `[start, end)`: whatever calls are made
      before the cursor is dropped, the vec ends up as the original without
      `[start, end)`, in order, and no removed element is moved out or
      destroyed twice. */
  lemma {:induction false} DrainLifecycle<T>(vec: seq<T>, start: nat, end: nat, calls: seq<Call>)
    requires start <= end <= |vec|
    ensures Drop(Apply(New(vec, start, end).value, calls)).vec == vec[..start] + vec[end..]
    ensures Drop(Apply(New(vec, start, end).value, calls)).yielded
      + Drop(Apply(New(vec, start, end).value, calls)).dropped <= multiset(vec[start..end])
  {
    ApplyAccounts(New(vec, start, end).value, calls);
  }

  /** Unless `nth_back` leaked, every element drained over `[start, end)` is
      moved out or destroyed exactly once by the time the cursor is dropped. */
  lemma {:induction false} DrainLifecycleWithoutLeak<T>(vec: seq<T>, start: nat, end: nat, calls: seq<Call>)
    requires start <= end <= |vec|
    requires NoLeak(New(vec, start, end).value, calls)
    ensures Drop(Apply(New(vec, start, end).value, calls)).yielded
      + Drop(Apply(New(vec, start, end).value, calls)).dropped == multiset(vec[start..end])
  {
    ApplyAccounts(New(vec, start, end).value, calls);
  }

  /** One call, dispatched, with `nth_back` as evidently intended. */
  function PerformIntended<T(==)>(d: Drain<T>, c: Call): (r: (Drain<T>, Option<T>))
    ensures Untouched(r.0, d)
    ensures Held(r.0) == Held(d)
  {
    match c
    case CallNext => Next(d)
    case CallNextBack => NextBack(d)
    case CallNth(n) => Nth(d, n)
    case CallNthBack(n) => NthBackIntended(d, n)
  }

  /** The cursor after the calls, in order, with `nth_back` as evidently
      intended. */
  function ApplyIntended<T(==)>(d: Drain<T>, calls: seq<Call>): (r: Drain<T>)
    ensures Untouched(r, d)
    decreases |calls|
  {
    if calls == [] then d else ApplyIntended(PerformIntended(d, calls[0]).0, calls[1..])
  }

  /** With `nth_back` as evidently intended, no sequence of calls changes what
      the cursor answers for. */
  lemma {:induction false} ApplyIntendedAccounts<T>(d: Drain<T>, calls: seq<Call>)
    ensures Held(ApplyIntended(d, calls)) == Held(d)
    decreases |calls|
  {
    if calls != [] {
      ApplyIntendedAccounts(PerformIntended(d, calls[0]).0, calls[1..]);
    }
  }

  /** With `nth_back` as evidently intended, whatever calls are made before
      the cursor is dropped, every element drained over `[start, end)` is
      moved out or destroyed exactly once. */
  lemma {:induction false} DrainLifecycleIntended<T>(vec: seq<T>, start: nat, end: nat, calls: seq<Call>)
    requires start <= end <= |vec|
    ensures Drop(ApplyIntended(New(vec, start, end).value, calls)).yielded
      + Drop(ApplyIntended(New(vec, start, end).value, calls)).dropped == multiset(vec[start..end])
  {
    ApplyIntendedAccounts(New(vec, start, end).value, calls);
  }

  /** Draining `[1, 4)` from `[1, 2, 3, 4, 5, 6, 7]` leaves `[1, 5, 6, 7]` and
      yields `2, 3, 4` front to back, then nothing. */
  lemma {:induction false} DrainMiddleExample()
    ensures var d0 := New([1, 2, 3, 4, 5, 6, 7], 1, 4).value;
      && d0.vec == [1, 5, 6, 7]
      && var (d1, x1) := Next(d0);
      && var (d2, x2) := Next(d1);
      && var (d3, x3) := Next(d2);
      && x1 == Some(2) && x2 == Some(3) && x3 == Some(4)
      && Next(d3).1 == None
  {
    var vec := [1, 2, 3, 4, 5, 6, 7];
    assert vec[1..4] == [2, 3, 4];
    assert vec[..1] + vec[4..] == [1, 5, 6, 7];
  }

  /** As written, the range `1..4` drains only index 1: from
      `[1, 2, 3, 4, 5, 6, 7]` it removes just `2` and leaves
      `[1, 3, 4, 5, 6, 7]`, although index 2 lies in the range. */
  lemma {:induction false} RangeEndIgnoredExample()
    ensures Contains(RangeArg(Included(1), Excluded(4)), 2)
    ensures DecodeBounds(7, RangeArg(Included(1), Excluded(4))) == (1, 2)
    ensures var r := NewFromRange([1, 2, 3, 4, 5, 6, 7], RangeArg(Included(1), Excluded(4)));
      r.Success? && r.value.window == [2] && r.value.vec == [1, 3, 4, 5, 6, 7]
    ensures DecodeBoundsIntended(7, RangeArg(Included(1), Excluded(4))) == (1, 4)
  {
    var vec := [1, 2, 3, 4, 5, 6, 7];
    assert vec[..1] + vec[2..] == [1, 3, 4, 5, 6, 7];
  }

  /** As evidently intended, the range `1..4` drains `2, 3, 4` from
      `[1, 2, 3, 4, 5, 6, 7]` and leaves `[1, 5, 6, 7]`. */
  lemma {:induction false} RangeIntendedExample()
    ensures var r := NewFromRangeIntended([1, 2, 3, 4, 5, 6, 7], RangeArg(Included(1), Excluded(4)));
      r.Success? && r.value.window == [2, 3, 4] && r.value.vec == [1, 5, 6, 7]
  {
    var vec := [1, 2, 3, 4, 5, 6, 7];
    assert vec[1..4] == [2, 3, 4];
    assert vec[..1] + vec[4..] == [1, 5, 6, 7];
  }

  /** As written, the decoded indices depend on the start bound only. */
  lemma {:induction false} DecodeIgnoresEndBound(len: nat, b: Bound, e1: Bound, e2: Bound)
    ensures DecodeBounds(len, RangeArg(b, e1)) == DecodeBounds(len, RangeArg(b, e2))
  {
  }
}
