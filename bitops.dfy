/**
 * The generic rotation helper `rotate_U(value, shift, size)`, computed as
 * `(value << shift) | (value >> (size - shift))` on a word of `U`'s width.
 */
module BitOps {
  import opened Bits
  import opened Words

  /** Number of set bits of a word. */
  function PopCount(x: Word): nat { multiset(x)[true] }

  /**
   * `(value << shift) | (value >> (size - shift))`. Both shift amounts must be
   * below the width of `U`, and `size - shift` must not underflow, or Rust
   * panics; those are the preconditions.
   */
  function RotateU(value: Word, shift: nat, size: nat): (r: Word)
    requires shift < |value| && shift <= size && size - shift < |value|
    ensures |r| == |value|
  {
    Or(Shl(value, shift), Shr(value, size - shift))
  }

  /** For `0 < shift < size == width`, the helper is rotation to the left by `shift`. */
  lemma RotateUIsRotl(value: Word, shift: nat)
    requires 0 < shift < |value|
    ensures RotateU(value, shift, |value|) == Rotl(value, shift)
  {
    var n := |value|;
    forall i | 0 <= i < n
      ensures RotateU(value, shift, n)[i] == Rotl(value, shift)[i]
    {
      RotlSmallAt(value, shift, i);
    }
  }

  /** Bit `i` of a rotation by less than the width, without the modulus. */
  lemma RotlSmallAt(x: Word, a: nat, i: nat)
    requires a < |x| && i < |x|
    ensures Rotl(x, a)[i] == if i >= a then x[i - a] else x[i - a + |x|]
  {
    var n := |x|;
    if i >= a {
      DivModSmall(i - a, n);
    } else {
      ModOfDifference(i - a, n, 1, i - a + n);
    }
  }

  /** Rotating left by `width - a` is rotating right by `a`. */
  lemma RotlIsRotr(x: Word, a: nat)
    requires 0 < a < |x|
    ensures Rotl(x, |x| - a) == Rotr(x, a)
  {
    var n := |x|;
    forall i | 0 <= i < n
      ensures Rotl(x, n - a)[i] == Rotr(x, a)[i]
    {
      if i + a >= n {
        DivModShift(i + a, n);
      } else {
        DivModSmall(i + a, n);
        ModOfDifference(i + a - n, n, 1, i + a);
      }
      assert i - (n - a) == i + a - n;
    }
  }

  /** A rotation as the concatenation of the word's two parts. */
  lemma RotlSplit(x: Word, a: nat)
    requires a < |x|
    ensures Rotl(x, a) == x[|x| - a..] + x[..|x| - a]
  {
    var n := |x|;
    forall i | 0 <= i < n
      ensures Rotl(x, a)[i] == (x[n - a..] + x[..n - a])[i]
    {
      RotlSmallAt(x, a, i);
    }
  }

  /** Rotating by `shift` and then by `size - shift` gives back the value. */
  lemma RotateURoundTrip(value: Word, shift: nat)
    requires 0 < shift < |value|
    ensures RotateU(RotateU(value, shift, |value|), |value| - shift, |value|) == value
  {
    var n := |value|;
    var once := RotateU(value, shift, n);
    RotateUIsRotl(value, shift);
    assert once == Rotl(value, shift);
    assert |once| == n;
    RotateUIsRotl(once, n - shift);
    assert RotateU(once, n - shift, n) == Rotl(once, n - shift);
    RotlIsRotr(once, shift);
    assert Rotl(once, n - shift) == Rotr(once, shift);
    RotrRotl(value, shift);
  }

  /** Rotation maps zero to zero and all-ones to all-ones. */
  lemma RotateUFixesZeroAndOnes(n: nat, shift: nat)
    requires 0 < shift < n
    ensures RotateU(Zero(n), shift, n) == Zero(n)
    ensures RotateU(Not(Zero(n)), shift, n) == Not(Zero(n))
  {
    RotateUIsRotl(Zero(n), shift);
    RotateUIsRotl(Not(Zero(n)), shift);
  }

  /** Rotation preserves the number of set bits. */
  lemma RotateUPopCount(value: Word, shift: nat)
    requires 0 < shift < |value|
    ensures PopCount(RotateU(value, shift, |value|)) == PopCount(value)
  {
    var n := |value|;
    RotateUIsRotl(value, shift);
    RotlSplit(value, shift);
    assert value == value[..n - shift] + value[n - shift..];
  }
}
