/** The free functions of src/lib.rs: in-place reversal, built on the mutable
    slice cursor, and the two rotations built on reversal.

    A slice is modelled by its contents; an in-place operation by a method
    that returns the contents it leaves behind. A panic becomes `None`. */
module SliceOps {
  import opened Wrappers
  import SeqSpec
  import SliceIterMut

  /** `core::mem::swap` on the elements of two slots. */
  function Swap<T>(s: seq<T>, a: nat, b: nat): (r: seq<T>)
    requires a < |s| && b < |s|
    ensures |r| == |s| && r[a] == s[b] && r[b] == s[a]
    ensures forall i :: 0 <= i < |s| && i != a && i != b ==> r[i] == s[i]
  {
    s[a := s[b]][b := s[a]]
  }

  /** Halfway through reversing `s` into `r`: the slots outside the window
      `[lo, hi)` already hold their reversed elements, the slots inside still
      hold their original ones. */
  ghost predicate Reversing<T>(r: seq<T>, s: seq<T>, lo: nat, hi: nat) {
    && |r| == |s| && lo <= hi <= |s|
    && (forall i :: 0 <= i < |s| && !(lo <= i < hi) ==> r[i] == s[|s| - 1 - i])
    && (forall i :: lo <= i < hi ==> r[i] == s[i])
  }

  /** Swapping the two ends of a window placed symmetrically in the slice
      moves both of them to their reversed places. */
  lemma {:induction false} SwapEndsExtendsReversing<T>(r: seq<T>, s: seq<T>, a: nat, b: nat)
    requires Reversing(r, s, a, b + 1) && a + b + 1 == |s| && a < b
    ensures Reversing(Swap(r, a, b), s, a + 1, b)
  {
  }

  /** The middle slot of an odd-length slice is its own reversed place. */
  lemma {:induction false} MiddleExtendsReversing<T>(r: seq<T>, s: seq<T>, lo: nat, hi: nat)
    requires Reversing(r, s, lo, hi) && lo + hi == |s| && lo + 1 == hi
    ensures Reversing(r, s, hi, hi)
  {
  }

  /** With an empty window, the reversal is complete. */
  lemma {:induction false} ReversingDone<T>(r: seq<T>, s: seq<T>, lo: nat)
    requires Reversing(r, s, lo, lo)
    ensures r == SeqSpec.Reversed(s)
  {
    SeqSpec.ReversedAt(s);
    assert forall i :: 0 <= i < |s| ==> r[i] == SeqSpec.Reversed(s)[i];
  }

  /** `reverse`: lends slots from the front and the back of a mutable cursor
      in turn and swaps each pair, until the front reaches the back. The two
      slots of a pair are never the same, and the slice ends up reversed. */
  method Reverse<T>(s: seq<T>) returns (r: seq<T>)
    ensures r == SeqSpec.Reversed(s)
    ensures multiset(r) == multiset(s)
  {
    var n := |s|;
    r := s;
    var it := SliceIterMut.New(n);
    while true
      invariant SliceIterMut.Valid(it) && it.n == n
      invariant it.lo + it.hi == n || (it.lo == it.hi && it.lo + it.hi == n + 1)
      invariant Reversing(r, s, it.lo, it.hi)
      decreases it.hi - it.lo
    {
      var (front, a) := SliceIterMut.Next(it);
      if a.None? {
        break;
      }
      assert a.value == it.lo && front == it.(lo := it.lo + 1, lent := it.lent + {it.lo});
      var (rest, b) := SliceIterMut.NextBack(front);
      if b.Some? {
        assert b.value == it.hi - 1 && rest.lo == it.lo + 1 && rest.hi == it.hi - 1;
        assert a.value != b.value;
        SwapEndsExtendsReversing(r, s, a.value, b.value);
        r := Swap(r, a.value, b.value);
        assert Reversing(r, s, rest.lo, rest.hi);
      } else {
        assert rest == front && it.lo + 1 == it.hi;
        MiddleExtendsReversing(r, s, it.lo, it.hi);
      }
      it := rest;
    }
    ReversingDone(r, s, it.lo);
    SeqSpec.ReversedPermutes(s);
  }

  /** `rotate_right`: panics when `k` exceeds the length; otherwise reverses
      the whole slice and then each side of the split at `k`, which moves the
      last `k` elements to the front. */
  method RotateRight<T>(s: seq<T>, k: nat) returns (r: Option<seq<T>>)
    ensures r.None? <==> k > |s|
    ensures r.Some? ==> r.value == SeqSpec.RotatedRight(s, k)
  {
    if k > |s| {
      return None;
    }
    var t := Reverse(s);
    var front := Reverse(t[..k]);
    var back := Reverse(t[k..]);
    SeqSpec.ReverseThenReverseHalves(s, k);
    return Some(front + back);
  }

  /** `rotate_left`: rotating right by `len - k`; when `k` exceeds the length
      that subtraction underflows and the call panics. Otherwise the first
      `k` elements move to the back. */
  method RotateLeft<T>(s: seq<T>, k: nat) returns (r: Option<seq<T>>)
    ensures r.None? <==> k > |s|
    ensures r.Some? ==> r.value == SeqSpec.RotatedLeft(s, k)
  {
    if k > |s| {
      return None;
    }
    r := RotateRight(s, |s| - k);
    SeqSpec.RotatedLeftIsRotatedRight(s, k);
  }

  /** The documented examples: `[1, ..., 7]` reversed, rotated right by 3 and
      rotated left by 4. */
  lemma {:induction false} DocumentedExamples()
    ensures SeqSpec.Reversed([1, 2, 3, 4, 5, 6, 7]) == [7, 6, 5, 4, 3, 2, 1]
    ensures SeqSpec.RotatedRight([1, 2, 3, 4, 5, 6, 7], 3) == [5, 6, 7, 1, 2, 3, 4]
    ensures SeqSpec.RotatedLeft([1, 2, 3, 4, 5, 6, 7], 4) == [5, 6, 7, 1, 2, 3, 4]
  {
    var s := [1, 2, 3, 4, 5, 6, 7];
    SeqSpec.ReversedAt(s);
    assert s[4..] + s[..4] == [5, 6, 7, 1, 2, 3, 4];
  }
}
