/**
 * Unsigned integers of a fixed bit width and their little-endian bit strings.
 *
 * A value `x < Pow2(n)` of an `n`-bit unsigned integer type corresponds to the
 * bit string `ToBits(x, n)` whose index 0 is the least significant bit.
 * Bitwise operators on integers are defined through this correspondence.
 */
module Bits {

  function Pow2(n: nat): (r: nat)
    ensures r >= 1
  {
    if n == 0 then 1 else 2 * Pow2(n - 1)
  }

  lemma {:induction false} Pow2Add(m: nat, n: nat)
    ensures Pow2(m + n) == Pow2(m) * Pow2(n)
  {
    if m > 0 {
      Pow2Add(m - 1, n);
      assert Pow2(m + n) == 2 * Pow2(m - 1 + n);
    }
  }

  lemma {:induction false} Pow2Monotone(m: nat, n: nat)
    requires m <= n
    ensures Pow2(m) <= Pow2(n)
  {
    if m < n {
      Pow2Monotone(m, n - 1);
    }
  }

  /** The `n` low bits of `x`, least significant first. */
  function ToBits(x: nat, n: nat): (bs: seq<bool>)
    ensures |bs| == n
  {
    if n == 0 then [] else [x % 2 == 1] + ToBits(x / 2, n - 1)
  }

  /** `n` set bits. */
  function Ones(n: nat): seq<bool> { seq(n, i => true) }

  /** `n` clear bits. */
  function Zeros(n: nat): seq<bool> { seq(n, i => false) }

  /** The unsigned value of a little-endian bit string. */
  function FromBits(bs: seq<bool>): (x: nat)
    ensures x < Pow2(|bs|)
  {
    if |bs| == 0 then 0 else (if bs[0] then 1 else 0) + 2 * FromBits(bs[1..])
  }

  /** Reading the `n` low bits of an `n`-bit value loses nothing. */
  lemma {:induction false} FromToBits(x: nat, n: nat)
    requires x < Pow2(n)
    ensures FromBits(ToBits(x, n)) == x
  {
    if n > 0 {
      FromToBits(x / 2, n - 1);
      assert ToBits(x, n)[1..] == ToBits(x / 2, n - 1);
    }
  }

  /** Every bit string is the bit string of its own value. */
  lemma {:induction false} ToFromBits(bs: seq<bool>)
    ensures ToBits(FromBits(bs), |bs|) == bs
  {
    if |bs| > 0 {
      ToFromBits(bs[1..]);
      var x := FromBits(bs);
      assert x / 2 == FromBits(bs[1..]);
      assert (x % 2 == 1) == bs[0];
      assert bs == [bs[0]] + bs[1..];
    }
  }

  /** Bit strings of the same length are equal exactly when their values are. */
  lemma FromBitsInjective(xs: seq<bool>, ys: seq<bool>)
    requires |xs| == |ys| && FromBits(xs) == FromBits(ys)
    ensures xs == ys
  {
    ToFromBits(xs);
    ToFromBits(ys);
  }

  /** The all-ones bit string is the largest value, `Pow2(n) - 1`. */
  lemma {:induction false} FromBitsOnes(n: nat)
    ensures FromBits(Ones(n)) == Pow2(n) - 1
  {
    if n > 0 {
      FromBitsOnes(n - 1);
      assert Ones(n)[1..] == Ones(n - 1);
    }
  }

  /** The all-zero bit string is the value 0. */
  lemma {:induction false} FromBitsZeros(n: nat)
    ensures FromBits(Zeros(n)) == 0
  {
    if n > 0 {
      FromBitsZeros(n - 1);
      assert Zeros(n)[1..] == Zeros(n - 1);
    }
  }

  /** Complementing every bit of an `n`-bit value `x` gives `Pow2(n) - 1 - x`. */
  lemma {:induction false} FromBitsComplement(bs: seq<bool>)
    ensures FromBits(seq(|bs|, i requires 0 <= i < |bs| => !bs[i])) == Pow2(|bs|) - 1 - FromBits(bs)
  {
    if |bs| > 0 {
      var nb := seq(|bs|, i requires 0 <= i < |bs| => !bs[i]);
      var rest := bs[1..];
      FromBitsComplement(rest);
      assert nb[1..] == seq(|rest|, i requires 0 <= i < |rest| => !rest[i]);
    }
  }

  /** Euclidean division: `v == d * (v / d) + v % d` with `0 <= v % d < d`. */
  lemma DivMod(v: int, d: int)
    requires 0 < d
    ensures v == d * (v / d) + v % d && 0 <= v % d < d
  {
  }

  /** The quotient and remainder of a division are unique. */
  lemma ModUnique(v: int, d: int, q: int, r: int)
    requires 0 < d && 0 <= r < d && v == d * q + r
    ensures v % d == r && v / d == q
  {
    DivMod(v, d);
    var q', r' := v / d, v % d;
    assert d * (q - q') == r' - r;
    MulBelowDivisor(d, q - q');
  }

  lemma MulBelowDivisor(d: int, k: int)
    requires 0 < d && -d < d * k < d
    ensures k == 0
  {
  }

  lemma MulNeg(d: int, q: int)
    ensures d * -q == -(d * q)
  {
  }

  /** `(r - d * q) % d == r` for `0 <= r < d`. */
  lemma ModOfDifference(v: int, d: int, q: int, r: int)
    requires 0 < d && 0 <= r < d && v == r - d * q
    ensures v % d == r
  {
    MulNeg(d, q);
    ModUnique(v, d, -q, r);
  }

  /** Below the divisor: `v / d == 0` and `v % d == v`. */
  lemma DivModSmall(v: int, d: int)
    requires 0 <= v < d
    ensures v / d == 0 && v % d == v
  {
    ModUnique(v, d, 0, v);
  }

  /** One divisor less: `v / d == (v - d) / d + 1` and `v % d == (v - d) % d`. */
  lemma DivModShift(v: int, d: int)
    requires 0 < d <= v
    ensures v / d == (v - d) / d + 1 && v % d == (v - d) % d && 0 <= (v - d) / d
  {
    DivMod(v - d, d);
    var q, m := (v - d) / d, (v - d) % d;
    assert d * (q + 1) == d * q + d;
    ModUnique(v, d, q + 1, m);
  }

  /** Counting up modulo `d`: if `m == v % d` then `(m + 1) % d == (v + 1) % d`. */
  lemma ModSucc(m: int, v: int, d: int)
    requires 0 < d && m == v % d
    ensures (m + 1) % d == (v + 1) % d
  {
    DivMod(v, d);
    var q := v / d;
    if m + 1 < d {
      ModUnique(m + 1, d, 0, m + 1);
      ModUnique(v + 1, d, q, m + 1);
    } else {
      ModUnique(m + 1, d, 1, 0);
      ModUnique(v + 1, d, q + 1, 0);
    }
  }
}
