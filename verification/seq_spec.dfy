/** Reference definitions of reversal and rotation, stated independently of
    the in-place algorithms of src/lib.rs that compute them, together with
    the algebra those algorithms rely on. */
module SeqSpec {

  /** The elements of `s` in the opposite order. */
  function Reversed<T>(s: seq<T>): (r: seq<T>)
    ensures |r| == |s|
    decreases |s|
  {
    if s == [] then [] else Reversed(s[1..]) + [s[0]]
  }

  /** `s` cyclically shifted left by `k`: what `<[T]>::rotate_left(k)`
      leaves in the slice. */
  function RotatedLeft<T>(s: seq<T>, k: nat): (r: seq<T>)
    requires k <= |s|
    ensures |r| == |s|
  {
    s[k..] + s[..k]
  }

  /** `s` cyclically shifted right by `k`. */
  function RotatedRight<T>(s: seq<T>, k: nat): (r: seq<T>)
    requires k <= |s|
    ensures |r| == |s|
  {
    s[|s| - k..] + s[..|s| - k]
  }

  /** Position `i` of the reversal holds position `|s| - 1 - i` of `s`. */
  lemma {:induction false} ReversedAt<T>(s: seq<T>)
    ensures forall i :: 0 <= i < |s| ==> Reversed(s)[i] == s[|s| - 1 - i]
    decreases |s|
  {
    if s != [] {
      ReversedAt(s[1..]);
      forall i | 0 <= i < |s|
        ensures Reversed(s)[i] == s[|s| - 1 - i]
      {
        if i < |s| - 1 {
          assert Reversed(s)[i] == Reversed(s[1..])[i];
        }
      }
    }
  }

  /** Reversing twice gives back the original. */
  lemma {:induction false} ReversedInvolutive<T>(s: seq<T>)
    ensures Reversed(Reversed(s)) == s
  {
    ReversedAt(s);
    ReversedAt(Reversed(s));
  }

  /** Reversal rearranges the elements without adding or losing any. */
  lemma {:induction false} ReversedPermutes<T>(s: seq<T>)
    ensures multiset(Reversed(s)) == multiset(s)
    decreases |s|
  {
    if s != [] {
      ReversedPermutes(s[1..]);
      assert s == [s[0]] + s[1..];
    }
  }

  /** Reversing the first `k` elements of a reversal recovers the last `k`
      elements of the original. */
  lemma {:induction false} ReversedFrontOfReversal<T>(s: seq<T>, k: nat)
    requires k <= |s|
    ensures Reversed(Reversed(s)[..k]) == s[|s| - k..]
  {
    var n := |s|;
    var r := Reversed(s);
    var t := r[..k];
    ReversedAt(s);
    ReversedAt(t);
    forall i | 0 <= i < k
      ensures Reversed(t)[i] == s[n - k + i]
    {
      var j := k - 1 - i;
      assert t[j] == r[j];
    }
  }

  /** Reversing all but the first `k` elements of a reversal recovers the
      first `|s| - k` elements of the original. */
  lemma {:induction false} ReversedBackOfReversal<T>(s: seq<T>, k: nat)
    requires k <= |s|
    ensures Reversed(Reversed(s)[k..]) == s[..|s| - k]
  {
    var n := |s|;
    var r := Reversed(s);
    var t := r[k..];
    ReversedAt(s);
    ReversedAt(t);
    forall i | 0 <= i < n - k
      ensures Reversed(t)[i] == s[i]
    {
      var j := n - k - 1 - i;
      assert t[j] == r[k + j];
    }
  }

  /** Reversing the whole, then each side of the split at `k`, rotates right
      by `k`: the identity `rotate_right` is built on. */
  lemma {:induction false} ReverseThenReverseHalves<T>(s: seq<T>, k: nat)
    requires k <= |s|
    ensures Reversed(Reversed(s)[..k]) + Reversed(Reversed(s)[k..]) == RotatedRight(s, k)
  {
    ReversedFrontOfReversal(s, k);
    ReversedBackOfReversal(s, k);
  }

  /** Rotating left by `k` is rotating right by `|s| - k`. */
  lemma {:induction false} RotatedLeftIsRotatedRight<T>(s: seq<T>, k: nat)
    requires k <= |s|
    ensures RotatedLeft(s, k) == RotatedRight(s, |s| - k)
  {
  }

  /** A right rotation by `k` is undone by a left rotation by `k`. */
  lemma {:induction false} RotateRightThenLeft<T>(s: seq<T>, k: nat)
    requires k <= |s|
    ensures RotatedLeft(RotatedRight(s, k), k) == s
  {
    var n := |s|;
    var t := RotatedRight(s, k);
    assert t[..k] == s[n - k..];
    assert t[k..] == s[..n - k];
  }

  /** Rotations by `0` and by the full length change nothing. */
  lemma {:induction false} RotateByZeroOrLength<T>(s: seq<T>)
    ensures RotatedRight(s, 0) == s && RotatedRight(s, |s|) == s
    ensures RotatedLeft(s, 0) == s && RotatedLeft(s, |s|) == s
  {
    assert s[|s|..] == [] && s[..0] == [];
  }
}
