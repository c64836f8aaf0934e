/** The mutable double-ended slice cursor of src/slice_iter_mut.rs.

    The cursor owns an exclusive borrow of a slice of `n` slots and shrinks it
    from either end. An exclusive reference `&mut T` that the cursor hands out
    is modelled by the index of the slot it points to; the set `lent` records
    every slot handed out so far, so that the borrowing discipline the Rust
    compiler enforces becomes an invariant we can state and prove. */
module SliceIterMut {
  import opened Wrappers

  /** A cursor over the slots `[0, n)` of a mutable slice: the live window is
      `[lo, hi)` and `lent` holds the slots already handed out. */
  datatype IterMut = IterMut(n: nat, lo: nat, hi: nat, lent: set<nat>)

  /** Which end of the window a step takes from. */
  datatype End = Front | Back

  /** The window lies inside the slice, and no lent slot is still reachable
      through the window: a slot is never reachable through two live handles. */
  predicate Valid(it: IterMut) {
    && it.lo <= it.hi <= it.n
    && (forall i :: i in it.lent ==> i < it.n && !(it.lo <= i < it.hi))
  }

  /** Number of slots still in the window. */
  function Len(it: IterMut): nat
    requires it.lo <= it.hi
  {
    it.hi - it.lo
  }

  /** No slot occurs twice. */
  predicate Distinct(slots: seq<nat>) {
    forall i, j :: 0 <= i < j < |slots| ==> slots[i] != slots[j]
  }

  /** Whether slot `i` is still reachable through the cursor. */
  predicate InWindow(it: IterMut, i: nat) {
    it.lo <= i < it.hi
  }

  /** The window with its position forgotten: what `&mut []` leaves behind. */
  function Emptied(it: IterMut): (r: IterMut)
    requires Valid(it)
    ensures Valid(r) && Len(r) == 0 && r.n == it.n && r.lent == it.lent
  {
    it.(lo := it.hi)
  }

  /** `SliceIterMut::new`: a cursor over the whole slice with nothing lent. */
  function New(n: nat): (it: IterMut)
    ensures Valid(it) && it.n == n && it.lent == {}
    ensures forall i: nat :: i < n <==> InWindow(it, i)
  {
    IterMut(n, 0, n, {})
  }

  /** `SliceIterMut::into_mut_slice`: the remaining window, slot by slot, in
      order; none of its slots has been lent before. */
  function IntoMutSlice(it: IterMut): (r: seq<nat>)
    requires Valid(it)
    ensures |r| == Len(it)
    ensures forall k :: 0 <= k < |r| ==> r[k] == it.lo + k
    ensures forall k :: 0 <= k < |r| ==> r[k] < it.n && r[k] !in it.lent
  {
    seq(it.hi - it.lo, k requires 0 <= k < it.hi - it.lo => it.lo + k)
  }

  /** `size_hint`: exact, both bounds equal the number of slots left. */
  function SizeHint(it: IterMut): (r: (nat, Option<nat>))
    requires Valid(it)
    ensures r.1 == Some(r.0)
    ensures r.0 == |IntoMutSlice(it)|
  {
    var n := Len(it);
    (n, Some(n))
  }

  /** `next`: lends the first slot of the window and keeps the rest; an empty
      window lends nothing and stays empty. The lent slot was never lent
      before and is no longer reachable through the cursor. */
  function Next(it: IterMut): (r: (IterMut, Option<nat>))
    requires Valid(it)
    ensures Valid(r.0) && r.0.n == it.n && r.0.hi == it.hi
    ensures Len(it) == 0 ==> r.0 == it && r.1 == None
    ensures Len(it) > 0 ==>
      && r.1 == Some(IntoMutSlice(it)[0])
      && IntoMutSlice(r.0) == IntoMutSlice(it)[1..]
      && r.0.lent == it.lent + {r.1.value}
    ensures r.1.Some? ==>
      && r.1.value !in it.lent
      && (forall i :: InWindow(it, i) <==> InWindow(r.0, i) || i == r.1.value)
      && !InWindow(r.0, r.1.value)
  {
    if it.lo == it.hi then (it, None)
    else (it.(lo := it.lo + 1, lent := it.lent + {it.lo}), Some(it.lo))
  }

  /** `next_back`: the mirror of `next`, lending the last slot of the window. */
  function NextBack(it: IterMut): (r: (IterMut, Option<nat>))
    requires Valid(it)
    ensures Valid(r.0) && r.0.n == it.n && r.0.lo == it.lo
    ensures Len(it) == 0 ==> r.0 == it && r.1 == None
    ensures Len(it) > 0 ==>
      && r.1 == Some(IntoMutSlice(it)[Len(it) - 1])
      && IntoMutSlice(r.0) == IntoMutSlice(it)[..Len(it) - 1]
      && r.0.lent == it.lent + {r.1.value}
    ensures r.1.Some? ==>
      && r.1.value !in it.lent
      && (forall i :: InWindow(it, i) <==> InWindow(r.0, i) || i == r.1.value)
      && !InWindow(r.0, r.1.value)
  {
    if it.lo == it.hi then (it, None)
    else (it.(hi := it.hi - 1, lent := it.lent + {it.hi - 1}), Some(it.hi - 1))
  }

  /** `nth` as it was evidently meant: skips `n` slots (which are then
      unreachable but never lent) and behaves as `next`; past the end it
      empties the window. */
  function NthIntended(it: IterMut, n: nat): (r: (IterMut, Option<nat>))
    requires Valid(it)
    ensures Valid(r.0) && r.0.n == it.n
    ensures n >= Len(it) ==> r.1 == None && Len(r.0) == 0 && r.0.lent == it.lent
    ensures n < Len(it) ==>
      && r.1 == Some(IntoMutSlice(it)[n])
      && IntoMutSlice(r.0) == IntoMutSlice(it)[n + 1..]
      && r.0.lent == it.lent + {r.1.value}
  {
    if n >= Len(it) then (Emptied(it), None)
    else Next(it.(lo := it.lo + n))
  }

  /** `nth` as written: the field is replaced by an empty slice first, and the
      bound is then tested against that empty slice, so the guard always holds
      and the call lends nothing and leaves the window empty. The split after
      the guard is unreachable. */
  function Nth(it: IterMut, n: nat): (r: (IterMut, Option<nat>))
    requires Valid(it)
    ensures Valid(r.0) && r.0.n == it.n
    ensures r.1 == None && Len(r.0) == 0 && r.0.lent == it.lent
  {
    var cleared := Emptied(it);
    if n >= Len(cleared) then (cleared, None)
    else assert false; (cleared, None)
  }

  /** Whatever `n` is, `nth` as written returns nothing, empties the window and
      lends nothing, even when the window held more than `n` slots. */
  lemma {:induction false} NthAlwaysNone(it: IterMut, n: nat)
    requires Valid(it)
    ensures n < Len(it) ==> NthIntended(it, n).1 != Nth(it, n).1
    ensures n + 1 < Len(it) ==> Len(NthIntended(it, n).0) != Len(Nth(it, n).0)
  {
    if n < Len(it) {
      assert |IntoMutSlice(NthIntended(it, n).0)| == Len(it) - n - 1;
    }
  }

  /** On a fresh cursor over three slots, `nth(1)` as written lends nothing. */
  lemma {:induction false} NthExample()
    ensures Nth(New(3), 1).1 == None
  {
  }

  /** On a fresh cursor over three slots, `nth(1)` as intended lends slot 1
      and leaves one slot in the window. */
  lemma {:induction false} NthIntendedExample()
    ensures NthIntended(New(3), 1).1 == Some(1)
    ensures Len(NthIntended(New(3), 1).0) == 1
  {
  }

  /** `nth_back`: skips `n` slots from the back and behaves as `next_back`;
      past the start it empties the window and lends nothing. */
  function NthBack(it: IterMut, n: nat): (r: (IterMut, Option<nat>))
    requires Valid(it)
    ensures Valid(r.0) && r.0.n == it.n
    ensures n >= Len(it) ==> r.1 == None && Len(r.0) == 0 && r.0.lent == it.lent
    ensures n < Len(it) ==>
      && r.1 == Some(IntoMutSlice(it)[Len(it) - 1 - n])
      && IntoMutSlice(r.0) == IntoMutSlice(it)[..Len(it) - 1 - n]
      && r.0.lent == it.lent + {r.1.value}
  {
    var len := Len(it);
    if n >= len then (Emptied(it), None)
    else NextBack(it.(hi := it.lo + (len - n)))
  }

  /** One step from the chosen end. */
  function Step(it: IterMut, e: End): (r: (IterMut, Option<nat>))
    requires Valid(it)
    ensures Valid(r.0) && r.0.n == it.n
    ensures r.1.None? <==> Len(it) == 0
    ensures r.1.None? ==> r.0 == it
    ensures r.1.Some? ==>
      && r.1.value !in it.lent
      && r.0.lent == it.lent + {r.1.value}
      && (e == Front ==> r.1.value == it.lo && r.0.lo == it.lo + 1 && r.0.hi == it.hi)
      && (e == Back ==> r.1.value == it.hi - 1 && r.0.lo == it.lo && r.0.hi == it.hi - 1)
  {
    match e
    case Front => Next(it)
    case Back => NextBack(it)
  }

  /** What a run of steps leaves: the cursor afterwards and the slots it lent,
      in the order they were lent. */
  datatype Trace = Trace(final: IterMut, slots: seq<nat>)

  /** Runs the steps in order and collects the slots handed out. */
  function Run(it: IterMut, steps: seq<End>): (t: Trace)
    requires Valid(it)
    ensures Valid(t.final) && t.final.n == it.n
    decreases |steps|
  {
    if steps == [] then Trace(it, [])
    else
      var (it1, x) := Step(it, steps[0]);
      var rest := Run(it1, steps[1..]);
      Trace(rest.final, (if x.Some? then [x.value] else []) + rest.slots)
  }

  /** Each step that finds the window non-empty succeeds: the run lends as
      many slots as there were steps, up to the window's length, and the
      window only shrinks. */
  lemma {:induction false} RunShrinksWindow(it: IterMut, steps: seq<End>)
    requires Valid(it)
    ensures it.lo <= Run(it, steps).final.lo && Run(it, steps).final.hi <= it.hi
    ensures |Run(it, steps).slots| == if |steps| <= Len(it) then |steps| else Len(it)
    ensures Len(Run(it, steps).final) == Len(it) - |Run(it, steps).slots|
    decreases |steps|
  {
    if steps != [] {
      var s1 := Step(it, steps[0]);
      RunShrinksWindow(s1.0, steps[1..]);
    }
  }

  /** Any interleaving of `next` and `next_back` lends only slots of the
      original window that were not lent before and are no longer reachable. */
  lemma {:induction false} RunLendsFromWindow(it: IterMut, steps: seq<End>)
    requires Valid(it)
    ensures forall k :: 0 <= k < |Run(it, steps).slots| ==>
      && InWindow(it, Run(it, steps).slots[k])
      && !InWindow(Run(it, steps).final, Run(it, steps).slots[k])
      && Run(it, steps).slots[k] !in it.lent
    decreases |steps|
  {
    if steps != [] {
      var s1 := Step(it, steps[0]);
      var it1, x := s1.0, s1.1;
      var rest := Run(it1, steps[1..]);
      RunLendsFromWindow(it1, steps[1..]);
      RunShrinksWindow(it1, steps[1..]);
      if x.None? {
        assert [] + rest.slots == rest.slots;
        assert Run(it, steps) == rest;
      } else {
        var out := [x.value] + rest.slots;
        assert Run(it, steps) == Trace(rest.final, out);
        forall k | 0 <= k < |out|
          ensures InWindow(it, out[k]) && !InWindow(rest.final, out[k]) && out[k] !in it.lent
        {
          if k > 0 {
            assert out[k] == rest.slots[k - 1];
          }
        }
      }
    }
  }

  /** Any interleaving of `next` and `next_back` never lends the same slot
      twice. */
  lemma {:induction false} RunLendsEachSlotOnce(it: IterMut, steps: seq<End>)
    requires Valid(it)
    ensures Distinct(Run(it, steps).slots)
    decreases |steps|
  {
    if steps != [] {
      var s1 := Step(it, steps[0]);
      var it1, x := s1.0, s1.1;
      var rest := Run(it1, steps[1..]);
      RunLendsEachSlotOnce(it1, steps[1..]);
      RunLendsFromWindow(it1, steps[1..]);
      if x.None? {
        assert [] + rest.slots == rest.slots;
        assert Run(it, steps) == rest;
      } else {
        assert Run(it, steps) == Trace(rest.final, [x.value] + rest.slots);
        ConsDistinct(x.value, rest.slots, it1);
      }
    }
  }

  /** Prepending a slot outside the window to distinct slots of the window
      keeps them distinct. */
  lemma {:induction false} ConsDistinct(x: nat, rest: seq<nat>, w: IterMut)
    requires Distinct(rest) && !InWindow(w, x)
    requires forall k :: 0 <= k < |rest| ==> InWindow(w, rest[k])
    ensures Distinct([x] + rest)
  {
    var out := [x] + rest;
    forall i, j | 0 <= i < j < |out|
      ensures out[i] != out[j]
    {
      assert out[j] == rest[j - 1];
      if i > 0 {
        assert out[i] == rest[i - 1];
      }
    }
  }

  /** The steps lend every slot they remove from the window: no slot leaves
      the window without being handed out. */
  lemma {:induction false} RunLendsWhatLeavesTheWindow(it: IterMut, steps: seq<End>)
    requires Valid(it)
    ensures forall i :: InWindow(it, i) && !InWindow(Run(it, steps).final, i) ==>
      i in Run(it, steps).slots
    decreases |steps|
  {
    if steps != [] {
      var s1 := Step(it, steps[0]);
      var it1, x := s1.0, s1.1;
      var rest := Run(it1, steps[1..]);
      var head := if x.Some? then [x.value] else [];
      assert Run(it, steps) == Trace(rest.final, head + rest.slots);
      RunLendsWhatLeavesTheWindow(it1, steps[1..]);
      forall i | InWindow(it, i) && !InWindow(rest.final, i)
        ensures i in head + rest.slots
      {
        if x.Some? && i == x.value {
          assert (head + rest.slots)[0] == i;
        } else {
          assert i in rest.slots;
        }
      }
    }
  }

  /** Starting from a fresh cursor over `n` slots, exactly `n` steps taken in
      any order from either end lend every slot of the slice and leave the
      cursor exhausted, so that by `Step` any further step lends nothing.
      With `RunLendsEachSlotOnce` and `RunLendsFromWindow`, every slot is lent
      exactly once. */
  lemma {:induction false} RunToExhaustion(n: nat, steps: seq<End>)
    requires |steps| == n
    ensures |Run(New(n), steps).slots| == n
    ensures Len(Run(New(n), steps).final) == 0
    ensures forall i: nat :: i < n ==> i in Run(New(n), steps).slots
  {
    var it := New(n);
    var t := Run(it, steps);
    RunShrinksWindow(it, steps);
    RunLendsWhatLeavesTheWindow(it, steps);
    assert forall i: nat :: i < n ==> InWindow(it, i) && !InWindow(t.final, i);
  }
}
