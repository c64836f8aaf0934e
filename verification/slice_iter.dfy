/** The read-only double-ended slice cursor of src/slice_iter.rs.

    The cursor holds a shared borrow of a slice and shrinks it from either
    end; since nothing is lent exclusively, an item is modelled by the element
    value itself. The cursor keeps the slice it was created from, so that the
    remaining window can be related to it. */
module SliceIter {
  import opened Wrappers

  /** A cursor over `base`: the elements still to be visited are
      `base[lo..hi]`. */
  datatype Iter<T> = Iter(base: seq<T>, lo: nat, hi: nat)

  predicate Valid<T>(it: Iter<T>) {
    it.lo <= it.hi <= |it.base|
  }

  /** `it` can follow `prev`: it walks the same slice, and its window is a
      contiguous part of the earlier one, so it is never longer. */
  ghost predicate Within<T>(it: Iter<T>, prev: Iter<T>) {
    it.base == prev.base && prev.lo <= it.lo && it.hi <= prev.hi
  }

  /** `SliceIter::as_slice`: the elements still to be visited. */
  function AsSlice<T>(it: Iter<T>): (r: seq<T>)
    requires Valid(it)
    ensures |r| == it.hi - it.lo
  {
    it.base[it.lo..it.hi]
  }

  /** The window is a contiguous part of the slice: the elements consumed
      from the front and from the back flank it. */
  lemma {:induction false} AsSliceIsContiguous<T>(it: Iter<T>)
    requires Valid(it)
    ensures it.base[..it.lo] + AsSlice(it) + it.base[it.hi..] == it.base
  {
    assert it.base == it.base[..it.lo] + it.base[it.lo..it.hi] + it.base[it.hi..];
  }

  /** `SliceIter::new`: a cursor whose window is the whole slice. */
  function New<T>(s: seq<T>): (it: Iter<T>)
    ensures Valid(it) && it.base == s && AsSlice(it) == s
  {
    Iter(s, 0, |s|)
  }

  /** The empty window `&[]` leaves behind. */
  function Emptied<T>(it: Iter<T>): (r: Iter<T>)
    requires Valid(it)
    ensures Valid(r) && Within(r, it) && AsSlice(r) == []
  {
    it.(lo := it.hi)
  }

  /** `size_hint`: exact, both bounds equal the number of elements left. */
  function SizeHint<T>(it: Iter<T>): (r: (nat, Option<nat>))
    requires Valid(it)
    ensures r.1 == Some(r.0) && r.0 == |AsSlice(it)|
  {
    var n := it.hi - it.lo;
    (n, Some(n))
  }

  /** `next`: the first element of the window, leaving the rest; an empty
      window yields nothing and is left as it is. */
  function Next<T>(it: Iter<T>): (r: (Iter<T>, Option<T>))
    requires Valid(it)
    ensures Valid(r.0) && Within(r.0, it)
    ensures AsSlice(it) == [] ==> r.0 == it && r.1 == None
    ensures AsSlice(it) != [] ==>
      r.1 == Some(AsSlice(it)[0]) && AsSlice(r.0) == AsSlice(it)[1..]
  {
    if it.lo == it.hi then (it, None)
    else
      assert it.base[it.lo + 1..it.hi] == it.base[it.lo..it.hi][1..];
      (it.(lo := it.lo + 1), Some(it.base[it.lo]))
  }

  /** `nth`: the element at offset `n` of the window, leaving what follows
      it; past the end the window is emptied and nothing is yielded. */
  function Nth<T>(it: Iter<T>, n: nat): (r: (Iter<T>, Option<T>))
    requires Valid(it)
    ensures Valid(r.0) && Within(r.0, it)
    ensures n >= |AsSlice(it)| ==> r.1 == None && AsSlice(r.0) == []
    ensures n < |AsSlice(it)| ==>
      r.1 == Some(AsSlice(it)[n]) && AsSlice(r.0) == AsSlice(it)[n + 1..]
  {
    if n >= it.hi - it.lo then (Emptied(it), None)
    else
      var skipped := it.(lo := it.lo + n);
      assert AsSlice(skipped) == AsSlice(it)[n..];
      Next(skipped)
  }

  /** `next_back`: the last element of the window, leaving all but it. */
  function NextBack<T>(it: Iter<T>): (r: (Iter<T>, Option<T>))
    requires Valid(it)
    ensures Valid(r.0) && Within(r.0, it)
    ensures AsSlice(it) == [] ==> r.0 == it && r.1 == None
    ensures AsSlice(it) != [] ==>
      && r.1 == Some(AsSlice(it)[|AsSlice(it)| - 1])
      && AsSlice(r.0) == AsSlice(it)[..|AsSlice(it)| - 1]
  {
    if it.lo == it.hi then (it, None)
    else
      assert it.base[it.lo..it.hi - 1] == it.base[it.lo..it.hi][..it.hi - 1 - it.lo];
      (it.(hi := it.hi - 1), Some(it.base[it.hi - 1]))
  }

  /** `nth_back`: the element `n` places before the last, leaving what
      precedes it; past the start the window is emptied and nothing is
      yielded. */
  function NthBack<T>(it: Iter<T>, n: nat): (r: (Iter<T>, Option<T>))
    requires Valid(it)
    ensures Valid(r.0) && Within(r.0, it)
    ensures n >= |AsSlice(it)| ==> r.1 == None && AsSlice(r.0) == []
    ensures n < |AsSlice(it)| ==>
      && r.1 == Some(AsSlice(it)[|AsSlice(it)| - 1 - n])
      && AsSlice(r.0) == AsSlice(it)[..|AsSlice(it)| - 1 - n]
  {
    var len := it.hi - it.lo;
    if n >= len then (Emptied(it), None)
    else
      var cut := it.(hi := it.lo + (len - n));
      assert AsSlice(cut) == AsSlice(it)[..len - n];
      NextBack(cut)
  }

  /** The cursor after `n` calls of `next` whose items are discarded. */
  function Advance<T>(it: Iter<T>, n: nat): (r: Iter<T>)
    requires Valid(it)
    ensures Valid(r)
    decreases n
  {
    if n == 0 then it else Advance(Next(it).0, n - 1)
  }

  /** The cursor after `n` calls of `next_back` whose items are discarded. */
  function Retreat<T>(it: Iter<T>, n: nat): (r: Iter<T>)
    requires Valid(it)
    ensures Valid(r)
    decreases n
  {
    if n == 0 then it else Retreat(NextBack(it).0, n - 1)
  }

  /** Every element `next` yields until the cursor is exhausted, in order. */
  function Collect<T>(it: Iter<T>): (r: seq<T>)
    requires Valid(it)
    decreases it.hi - it.lo
  {
    var (rest, x) := Next(it);
    if x.None? then [] else [x.value] + Collect(rest)
  }

  /** One `next` moves the front of a non-empty window by one. */
  lemma {:induction false} NextMovesFront<T>(it: Iter<T>)
    requires Valid(it)
    ensures Next(it).0 == if it.lo < it.hi then it.(lo := it.lo + 1) else it
  {
  }

  /** One `next_back` moves the back of a non-empty window by one. */
  lemma {:induction false} NextBackMovesBack<T>(it: Iter<T>)
    requires Valid(it)
    ensures NextBack(it).0 == if it.lo < it.hi then it.(hi := it.hi - 1) else it
  {
  }

  /** Advancing `n` times moves the front of the window by `n`, stopping at
      the back: the first `n` elements, or all of them, are passed over. */
  lemma {:induction false} AdvanceDropsFront<T>(it: Iter<T>, n: nat)
    requires Valid(it)
    ensures Advance(it, n) == it.(lo := if it.lo + n <= it.hi then it.lo + n else it.hi)
    decreases n
  {
    if n > 0 {
      NextMovesFront(it);
      AdvanceDropsFront(Next(it).0, n - 1);
    }
  }

  /** Retreating `n` times moves the back of the window by `n`, stopping at
      the front: the last `n` elements, or all of them, are passed over. */
  lemma {:induction false} RetreatDropsBack<T>(it: Iter<T>, n: nat)
    requires Valid(it)
    ensures Retreat(it, n) == it.(hi := if it.lo + n <= it.hi then it.hi - n else it.lo)
    decreases n
  {
    if n > 0 {
      NextBackMovesBack(it);
      RetreatDropsBack(NextBack(it).0, n - 1);
    }
  }

  /** `nth(n)` is `n` discarded calls of `next` followed by one more. */
  lemma {:induction false} NthIsAdvanceThenNext<T>(it: Iter<T>, n: nat)
    requires Valid(it)
    ensures Nth(it, n) == Next(Advance(it, n))
  {
    AdvanceDropsFront(it, n);
  }

  /** `nth(0)` is `next`. */
  lemma {:induction false} NthZeroIsNext<T>(it: Iter<T>)
    requires Valid(it)
    ensures Nth(it, 0) == Next(it)
  {
  }

  /** `nth_back(n)` is `n` discarded calls of `next_back` followed by one
      more: the same item, and a window holding the same elements. */
  lemma {:induction false} NthBackIsRetreatThenNextBack<T>(it: Iter<T>, n: nat)
    requires Valid(it)
    ensures NthBack(it, n).1 == NextBack(Retreat(it, n)).1
    ensures AsSlice(NthBack(it, n).0) == AsSlice(NextBack(Retreat(it, n)).0)
  {
    RetreatDropsBack(it, n);
  }

  /** Calling `next` until it yields nothing visits exactly the window, in
      order, and takes as many calls as `size_hint` announced. */
  lemma {:induction false} CollectIsAsSlice<T>(it: Iter<T>)
    requires Valid(it)
    ensures Collect(it) == AsSlice(it)
    ensures |Collect(it)| == SizeHint(it).0
    decreases it.hi - it.lo
  {
    var (rest, x) := Next(it);
    if x.Some? {
      CollectIsAsSlice(rest);
      assert AsSlice(it) == [x.value] + AsSlice(rest);
    }
  }
}
