/**
 * `Ux4<U>`: a state made of four limbs of an unsigned integer type `U` of
 * `n` bits, limb 0 holding the least significant bits. Read as one wide
 * integer it has the value `Value(x.limbs, n)`.
 *
 * NOT, AND and XOR work limb by limb and agree with the same operation on the
 * 4n-bit string. Shift-left is limb by limb as well, so unlike a 4n-bit shift
 * it never moves a bit into the next limb. Addition chains a carry from limb
 * to limb with the rule "carry iff the wrapped sum is below either operand",
 * which loses the carry in exactly one situation (both operand limbs all-ones
 * and a carry coming in); `ExactChain` is the rule that agrees with wide
 * addition in every case.
 */
module UStates {
  import opened Bits
  import Words

  datatype Ux4 = Ux4(limbs: seq<nat>)

  /** Every limb is a value of the `n`-bit type. */
  predicate LimbsBelow(s: seq<nat>, n: nat)
  {
    forall i :: 0 <= i < |s| ==> s[i] < Pow2(n)
  }

  /** Four limbs, each a value of the `n`-bit type. */
  predicate WellFormed(x: Ux4, n: nat)
  {
    |x.limbs| == 4 && LimbsBelow(x.limbs, n)
  }

  /** `2^(n * k)`: one more than the largest value of `k` limbs of `n` bits. */
  function Modulus(n: nat, k: nat): (r: nat)
    ensures r >= 1
  {
    if k == 0 then 1 else Pow2(n) * Modulus(n, k - 1)
  }

  /** The value of a little-endian sequence of `n`-bit limbs as one wide integer. */
  function Value(limbs: seq<nat>, n: nat): nat
  {
    if |limbs| == 0 then 0 else limbs[0] + Pow2(n) * Value(limbs[1..], n)
  }

  /** The bits of the four limbs one after the other: the 4n-bit string the state stands for. */
  function WideBits(x: Ux4, n: nat): Words.Word
    requires |x.limbs| == 4
  {
    ToBits(x.limbs[0], n) + ToBits(x.limbs[1], n) + ToBits(x.limbs[2], n) + ToBits(x.limbs[3], n)
  }

  // ---------------------------------------------------------------------------
  // Operations on one limb of `n` bits

  /** `!v` */
  function LimbNot(v: nat, n: nat): nat { FromBits(Words.Not(ToBits(v, n))) }

  /** `v & w` */
  function LimbAnd(v: nat, w: nat, n: nat): nat { FromBits(Words.And(ToBits(v, n), ToBits(w, n))) }

  /** `v ^ w` */
  function LimbXor(v: nat, w: nat, n: nat): nat { FromBits(Words.Xor(ToBits(v, n), ToBits(w, n))) }

  /** `v << s`, bits pushed past the top of the limb are lost; `s < n` or Rust panics. */
  function LimbShl(v: nat, s: nat, n: nat): nat
    requires s < n
  {
    FromBits(Words.Shl(ToBits(v, n), s))
  }

  /** `Wrapping(v) + Wrapping(w)` */
  function WrappingAdd(v: nat, w: nat, n: nat): nat { (v + w) % Pow2(n) }

  // ---------------------------------------------------------------------------
  // Constructors, getter and setter

  /** `Ux4::new(state)` */
  function New(state: seq<nat>): (x: Ux4)
    requires |state| == 4
    ensures |x.limbs| == 4 && Get(x) == state
  {
    Ux4(state)
  }

  /** `Ux4::zero()`: four zero limbs. */
  function Zero(): Ux4 { Ux4([0, 0, 0, 0]) }

  /** `Ux4::from(item)`: the zero state with limb 0 replaced by `item`. */
  function FromU8(item: nat): Ux4
    requires item < 256
  {
    Ux4(Zero().limbs[0 := item])
  }

  /** `get()`: a copy of the four limbs. */
  function Get(x: Ux4): seq<nat>
    requires |x.limbs| == 4
  {
    [x.limbs[0], x.limbs[1], x.limbs[2], x.limbs[3]]
  }

  /** `set(i)`: the state after `*self = Ux4(i)` (the previous value is discarded). */
  function Set(x: Ux4, i: seq<nat>): Ux4
    requires |i| == 4
  {
    Ux4(i)
  }

  /** `From<u8>` keeps the value: the wide integer equals `item`, limbs 1-3 are zero. */
  lemma FromU8Value(item: nat, n: nat)
    requires item < 256 && 8 <= n
    ensures WellFormed(FromU8(item), n)
    ensures FromU8(item).limbs == [item, 0, 0, 0]
    ensures Value(FromU8(item).limbs, n) == item
  {
    Pow2Monotone(8, n);
    assert Pow2(8) == 256;
    var s := FromU8(item).limbs;
    assert s == [item, 0, 0, 0];
    assert s[1..] == [0, 0, 0] && s[1..][1..] == [0, 0] && s[1..][1..][1..] == [0];
    assert [0][1..] == [];
    assert Value([0], n) == 0;
    assert Value([0, 0], n) == 0;
    assert Value([0, 0, 0], n) == 0;
  }

  /** `zero()` is four zero limbs: a state of every limb width whose wide value is 0. */
  lemma ZeroValue(n: nat)
    ensures WellFormed(Zero(), n) && Get(Zero()) == [0, 0, 0, 0]
    ensures Value(Zero().limbs, n) == 0
  {
    var s := Zero().limbs;
    assert s[1..] == [0, 0, 0] && s[1..][1..] == [0, 0] && s[1..][1..][1..] == [0];
    assert [0][1..] == [];
    assert Value([0], n) == 0;
    assert Value([0, 0], n) == 0;
    assert Value([0, 0, 0], n) == 0;
  }

  /** `set(a)` then `get()` reads back `a`, whatever the state held before. */
  lemma SetThenGet(x: Ux4, a: seq<nat>)
    requires |a| == 4
    ensures Get(Set(x, a)) == a
  {
  }

  // ---------------------------------------------------------------------------
  // Bitwise operators

  /** `!x`, limb by limb. */
  function Not(x: Ux4, n: nat): Ux4
    requires |x.limbs| == 4
  {
    Ux4([LimbNot(x.limbs[0], n), LimbNot(x.limbs[1], n), LimbNot(x.limbs[2], n), LimbNot(x.limbs[3], n)])
  }

  /** `x & y`, limb by limb. */
  function And(x: Ux4, y: Ux4, n: nat): Ux4
    requires |x.limbs| == 4 && |y.limbs| == 4
  {
    Ux4([LimbAnd(x.limbs[0], y.limbs[0], n), LimbAnd(x.limbs[1], y.limbs[1], n),
         LimbAnd(x.limbs[2], y.limbs[2], n), LimbAnd(x.limbs[3], y.limbs[3], n)])
  }

  /** `x ^ y`, limb by limb. */
  function Xor(x: Ux4, y: Ux4, n: nat): Ux4
    requires |x.limbs| == 4 && |y.limbs| == 4
  {
    Ux4([LimbXor(x.limbs[0], y.limbs[0], n), LimbXor(x.limbs[1], y.limbs[1], n),
         LimbXor(x.limbs[2], y.limbs[2], n), LimbXor(x.limbs[3], y.limbs[3], n)])
  }

  /** `x << rhs`: every limb shifted on its own (`self.0.map(|x| x << rhs)`). */
  function Shl(x: Ux4, rhs: nat, n: nat): Ux4
    requires |x.limbs| == 4 && rhs < n
  {
    Ux4(seq(4, i requires 0 <= i < 4 => LimbShl(x.limbs[i], rhs, n)))
  }

  /** Complementing a limb is subtracting it from the all-ones limb. */
  lemma LimbNotValue(v: nat, n: nat)
    requires v < Pow2(n)
    ensures LimbNot(v, n) == Pow2(n) - 1 - v
  {
    FromBitsComplement(ToBits(v, n));
    FromToBits(v, n);
  }

  lemma LimbBits(v: nat, n: nat, bs: Words.Word)
    requires |bs| == n && v == FromBits(bs)
    ensures ToBits(v, n) == bs
  {
    ToFromBits(bs);
  }

  lemma ConcatXor(a1: Words.Word, a2: Words.Word, b1: Words.Word, b2: Words.Word)
    requires |a1| == |b1| && |a2| == |b2|
    ensures Words.Xor(a1 + a2, b1 + b2) == Words.Xor(a1, b1) + Words.Xor(a2, b2)
  {
  }

  lemma ConcatAnd(a1: Words.Word, a2: Words.Word, b1: Words.Word, b2: Words.Word)
    requires |a1| == |b1| && |a2| == |b2|
    ensures Words.And(a1 + a2, b1 + b2) == Words.And(a1, b1) + Words.And(a2, b2)
  {
  }

  lemma ConcatNot(a1: Words.Word, a2: Words.Word)
    ensures Words.Not(a1 + a2) == Words.Not(a1) + Words.Not(a2)
  {
  }

  /** NOT on the four limbs is NOT on the 4n-bit string: no interaction between limbs. */
  lemma NotIsWide(x: Ux4, n: nat)
    requires |x.limbs| == 4
    ensures WideBits(Not(x, n), n) == Words.Not(WideBits(x, n))
  {
    var b0, b1, b2, b3 := ToBits(x.limbs[0], n), ToBits(x.limbs[1], n), ToBits(x.limbs[2], n), ToBits(x.limbs[3], n);
    LimbBits(LimbNot(x.limbs[0], n), n, Words.Not(b0));
    LimbBits(LimbNot(x.limbs[1], n), n, Words.Not(b1));
    LimbBits(LimbNot(x.limbs[2], n), n, Words.Not(b2));
    LimbBits(LimbNot(x.limbs[3], n), n, Words.Not(b3));
    ConcatNot(b0 + b1 + b2, b3);
    ConcatNot(b0 + b1, b2);
    ConcatNot(b0, b1);
  }

  /** AND on the four limbs is AND on the 4n-bit strings. */
  lemma AndIsWide(x: Ux4, y: Ux4, n: nat)
    requires |x.limbs| == 4 && |y.limbs| == 4
    ensures WideBits(And(x, y, n), n) == Words.And(WideBits(x, n), WideBits(y, n))
  {
    var a0, a1, a2, a3 := ToBits(x.limbs[0], n), ToBits(x.limbs[1], n), ToBits(x.limbs[2], n), ToBits(x.limbs[3], n);
    var b0, b1, b2, b3 := ToBits(y.limbs[0], n), ToBits(y.limbs[1], n), ToBits(y.limbs[2], n), ToBits(y.limbs[3], n);
    LimbBits(LimbAnd(x.limbs[0], y.limbs[0], n), n, Words.And(a0, b0));
    LimbBits(LimbAnd(x.limbs[1], y.limbs[1], n), n, Words.And(a1, b1));
    LimbBits(LimbAnd(x.limbs[2], y.limbs[2], n), n, Words.And(a2, b2));
    LimbBits(LimbAnd(x.limbs[3], y.limbs[3], n), n, Words.And(a3, b3));
    ConcatAnd(a0 + a1 + a2, a3, b0 + b1 + b2, b3);
    ConcatAnd(a0 + a1, a2, b0 + b1, b2);
    ConcatAnd(a0, a1, b0, b1);
  }

  /** XOR on the four limbs is XOR on the 4n-bit strings. */
  lemma XorIsWide(x: Ux4, y: Ux4, n: nat)
    requires |x.limbs| == 4 && |y.limbs| == 4
    ensures WideBits(Xor(x, y, n), n) == Words.Xor(WideBits(x, n), WideBits(y, n))
  {
    var a0, a1, a2, a3 := ToBits(x.limbs[0], n), ToBits(x.limbs[1], n), ToBits(x.limbs[2], n), ToBits(x.limbs[3], n);
    var b0, b1, b2, b3 := ToBits(y.limbs[0], n), ToBits(y.limbs[1], n), ToBits(y.limbs[2], n), ToBits(y.limbs[3], n);
    LimbBits(LimbXor(x.limbs[0], y.limbs[0], n), n, Words.Xor(a0, b0));
    LimbBits(LimbXor(x.limbs[1], y.limbs[1], n), n, Words.Xor(a1, b1));
    LimbBits(LimbXor(x.limbs[2], y.limbs[2], n), n, Words.Xor(a2, b2));
    LimbBits(LimbXor(x.limbs[3], y.limbs[3], n), n, Words.Xor(a3, b3));
    ConcatXor(a0 + a1 + a2, a3, b0 + b1 + b2, b3);
    ConcatXor(a0 + a1, a2, b0 + b1, b2);
    ConcatXor(a0, a1, b0, b1);
  }

  lemma LimbXorInverse(v: nat, w: nat, n: nat)
    requires v < Pow2(n)
    ensures LimbXor(LimbXor(v, w, n), w, n) == v
  {
    var bv, bw := ToBits(v, n), ToBits(w, n);
    LimbBits(LimbXor(v, w, n), n, Words.Xor(bv, bw));
    Words.XorSelfInverse(bv, bw);
    FromToBits(v, n);
  }

  lemma LimbXorSelf(v: nat, n: nat)
    ensures LimbXor(v, v, n) == 0
  {
    Words.XorSelf(ToBits(v, n));
    FromBitsZeros(n);
  }

  /** `x ^ x` is the zero state. */
  lemma XorSelfIsZero(x: Ux4, n: nat)
    requires |x.limbs| == 4
    ensures Xor(x, x, n) == Zero()
  {
    LimbXorSelf(x.limbs[0], n);
    LimbXorSelf(x.limbs[1], n);
    LimbXorSelf(x.limbs[2], n);
    LimbXorSelf(x.limbs[3], n);
  }

  /** `(x ^ y) ^ y` gives back `x`. */
  lemma XorInverse(x: Ux4, y: Ux4, n: nat)
    requires WellFormed(x, n) && |y.limbs| == 4
    ensures Xor(Xor(x, y, n), y, n) == x
  {
    LimbXorInverse(x.limbs[0], y.limbs[0], n);
    LimbXorInverse(x.limbs[1], y.limbs[1], n);
    LimbXorInverse(x.limbs[2], y.limbs[2], n);
    LimbXorInverse(x.limbs[3], y.limbs[3], n);
  }

  lemma ToBitsOnes(n: nat)
    ensures ToBits(Pow2(n) - 1, n) == Ones(n)
  {
    FromBitsOnes(n);
    ToFromBits(Ones(n));
  }

  lemma ToBitsZero(n: nat)
    ensures ToBits(0, n) == Zeros(n)
  {
    FromBitsZeros(n);
    ToFromBits(Zeros(n));
  }

  /**
   * Shift-left works on each limb alone: limb `i` of `x << rhs` is limb `i` of
   * `x` shifted within its own `n` bits, so the 4n-bit string of the result is
   * the four shifted limbs one after the other, each with `rhs` zeros at its
   * bottom and its top `rhs` bits lost.
   */
  lemma ShlIsPerLimb(x: Ux4, rhs: nat, n: nat)
    requires |x.limbs| == 4 && rhs < n
    ensures forall i :: 0 <= i < 4 ==>
              ToBits(Shl(x, rhs, n).limbs[i], n) == Words.Shl(ToBits(x.limbs[i], n), rhs)
    ensures WideBits(Shl(x, rhs, n), n) ==
              Words.Shl(ToBits(x.limbs[0], n), rhs) + Words.Shl(ToBits(x.limbs[1], n), rhs) +
              Words.Shl(ToBits(x.limbs[2], n), rhs) + Words.Shl(ToBits(x.limbs[3], n), rhs)
  {
    forall i | 0 <= i < 4
      ensures ToBits(Shl(x, rhs, n).limbs[i], n) == Words.Shl(ToBits(x.limbs[i], n), rhs)
    {
      LimbBits(LimbShl(x.limbs[i], rhs, n), n, Words.Shl(ToBits(x.limbs[i], n), rhs));
    }
  }

  /**
   * Shift-left does not carry between limbs: `[max, 0, 0, 0] << 1` is
   * `[max - 1, 0, 0, 0]` (for 8-bit limbs, `[0xFF,0,0,0] << 1 == [0xFE,0,0,0]`),
   * whereas the 4n-bit shift of the same string has bit n, the lowest bit of
   * limb 1, set.
   */
  lemma ShlDoesNotCarry(n: nat, max: nat)
    requires n >= 2 && max == Pow2(n) - 1
    ensures Shl(Ux4([max, 0, 0, 0]), 1, n) == Ux4([max - 1, 0, 0, 0])
    ensures Words.Shl(WideBits(Ux4([max, 0, 0, 0]), n), 1)[n]
    ensures !WideBits(Shl(Ux4([max, 0, 0, 0]), 1, n), n)[n]
  {
    var x := Ux4([max, 0, 0, 0]);
    LimbShlOnes(n, max);
    LimbShlZero(n);
    var r := Shl(x, 1, n);
    assert r.limbs == [max - 1, 0, 0, 0];
    ToBitsOnes(n);
    ToBitsZero(n);
    var w := WideBits(x, n);
    assert w[n - 1] == Ones(n)[n - 1];
    assert Words.Shl(w, 1)[n] == w[n - 1];
    assert WideBits(r, n)[n] == Zeros(n)[0];
  }

  lemma LimbShlOnes(n: nat, max: nat)
    requires n >= 2 && max == Pow2(n) - 1
    ensures LimbShl(max, 1, n) == max - 1
  {
    ToBitsOnes(n);
    ShlOnesByOne(n);
    var w := [false] + Ones(n - 1);
    assert LimbShl(max, 1, n) == FromBits(w);
    FromBitsShiftedIn(Ones(n - 1));
    FromBitsOnes(n - 1);
    assert FromBits(w) == 2 * (Pow2(n - 1) - 1);
  }

  lemma ShlOnesByOne(n: nat)
    requires n >= 2
    ensures Words.Shl(Ones(n), 1) == [false] + Ones(n - 1)
  {
  }

  lemma FromBitsShiftedIn(s: seq<bool>)
    ensures FromBits([false] + s) == 2 * FromBits(s)
  {
    assert ([false] + s)[1..] == s;
  }

  lemma LimbShlZero(n: nat)
    requires n >= 2
    ensures LimbShl(0, 1, n) == 0
  {
    ToBitsZero(n);
    assert Words.Shl(Zeros(n), 1) == Zeros(n);
    FromBitsZeros(n);
  }

  /** The derived equality holds iff all four limbs are pairwise equal, i.e. iff the states are equal. */
  function Eq(x: Ux4, y: Ux4): (r: bool)
    requires |x.limbs| == 4 && |y.limbs| == 4
    ensures r <==> x == y
  {
    forall i :: 0 <= i < 4 ==> x.limbs[i] == y.limbs[i]
  }

  // ---------------------------------------------------------------------------
  // Addition and subtraction

  /**
   * The carry chain of `Add` from limb 0 up: the wrapped sum of the two limbs and
   * the incoming carry, then the carry `1` iff that sum is below either limb.
   * The carry out of the last limb is dropped.
   */
  function CarryChain(a: seq<nat>, b: seq<nat>, n: nat, carry: nat): (r: seq<nat>)
    requires |a| == |b|
    ensures |r| == |a|
    decreases |a|
  {
    if |a| == 0 then []
    else
      var sum := WrappingAdd(WrappingAdd(a[0], b[0], n), carry, n);
      [sum] + CarryChain(a[1..], b[1..], n, if sum < a[0] || sum < b[0] then 1 else 0)
  }

  /** The carry chain with the carry set iff the limb sum overflows. */
  function ExactChain(a: seq<nat>, b: seq<nat>, n: nat, carry: nat): (r: seq<nat>)
    requires |a| == |b|
    ensures |r| == |a|
    decreases |a|
  {
    if |a| == 0 then []
    else
      var sum := WrappingAdd(WrappingAdd(a[0], b[0], n), carry, n);
      [sum] + ExactChain(a[1..], b[1..], n, if a[0] + b[0] + carry >= Pow2(n) then 1 else 0)
  }

  /**
   * True when the chain reaches a limb, other than the last, where both operand
   * limbs are all-ones and a carry comes in: there the rule of `CarryChain`
   * drops the carry.
   */
  predicate DropsCarry(a: seq<nat>, b: seq<nat>, n: nat, carry: nat)
    requires |a| == |b|
    decreases |a|
  {
    |a| > 1 &&
    var sum := WrappingAdd(WrappingAdd(a[0], b[0], n), carry, n);
    ((carry == 1 && a[0] == Pow2(n) - 1 && b[0] == Pow2(n) - 1) ||
     DropsCarry(a[1..], b[1..], n, if sum < a[0] || sum < b[0] then 1 else 0))
  }

  /** The wide sum of `x + y`, as the source computes it. */
  function AddLimbs(x: Ux4, y: Ux4, n: nat): seq<nat>
    requires |x.limbs| == 4 && |y.limbs| == 4
  {
    CarryChain(x.limbs, y.limbs, n, 0)
  }

  /** `x - y` as the source computes it: `x + (!y + [1, 0, 0, 0])`. */
  function SubLimbs(x: Ux4, y: Ux4, n: nat): seq<nat>
    requires |x.limbs| == 4 && |y.limbs| == 4
  {
    AddLimbs(x, Ux4(AddLimbs(Not(y, n), Ux4([1, 0, 0, 0]), n)), n)
  }

  /** The sum of two limbs and a carry bit, wrapped once. */
  lemma WrappedSum(v: nat, w: nat, c: nat, n: nat)
    requires v < Pow2(n) && w < Pow2(n) && c <= 1
    ensures WrappingAdd(WrappingAdd(v, w, n), c, n) ==
            if v + w + c >= Pow2(n) then v + w + c - Pow2(n) else v + w + c
  {
    var p := Pow2(n);
    ModBelowTwice(v + w, p);
    var s := WrappingAdd(v, w, n);
    ModBelowTwice(s + c, p);
  }

  lemma ModBelowTwice(v: nat, p: nat)
    requires 0 < p && v < 2 * p
    ensures v % p == if v >= p then v - p else v
  {
    if v >= p {
      assert v - p < p;
      assert v == 1 * p + (v - p);
    } else {
      assert v == 0 * p + v;
    }
  }

  /**
   * The carry rule "wrapped sum below either limb" gives the overflow of the
   * limb sum in every case but one: both limbs all-ones with a carry coming in.
   */
  lemma CarryRule(v: nat, w: nat, c: nat, n: nat)
    requires v < Pow2(n) && w < Pow2(n) && c <= 1
    ensures var sum := WrappingAdd(WrappingAdd(v, w, n), c, n);
            ((sum < v || sum < w) == (v + w + c >= Pow2(n))) <==>
            !(v == Pow2(n) - 1 && w == Pow2(n) - 1 && c == 1)
  {
    WrappedSum(v, w, c, n);
  }

  /** Where no carry is dropped, the source's chain is the exact one. */
  lemma {:induction false} ChainsAgree(a: seq<nat>, b: seq<nat>, n: nat, carry: nat)
    requires |a| == |b| && LimbsBelow(a, n) && LimbsBelow(b, n) && carry <= 1
    requires !DropsCarry(a, b, n, carry)
    ensures CarryChain(a, b, n, carry) == ExactChain(a, b, n, carry)
  {
    if |a| > 1 {
      CarryRule(a[0], b[0], carry, n);
      var sum := WrappingAdd(WrappingAdd(a[0], b[0], n), carry, n);
      ChainsAgree(a[1..], b[1..], n, if sum < a[0] || sum < b[0] then 1 else 0);
    }
  }

  lemma MulModSplit(s: nat, x: nat, p: nat, m: nat)
    requires s < p && 0 < m
    ensures (s + p * x) % (p * m) == s + p * (x % m)
  {
    var q, r := x / m, x % m;
    DivMod(x, m);
    assert s + p * x == (p * m) * q + (s + p * r) by {
      assert p * x == p * (m * q + r) == p * r + (p * m) * q;
    }
    assert s + p * r < p * m by {
      assert r <= m - 1;
      assert p * r <= p * (m - 1) == p * m - p;
    }
    ModUnique(s + p * x, p * m, q, s + p * r);
  }

  lemma Distribute(p: nat, u: nat, v: nat, w: nat)
    ensures p * u + p * v + p * w == p * (u + v + w)
  {
  }

  /** The exact chain is addition of the wide integers modulo `2^(n * limbs)`. */
  lemma {:induction false} ExactChainValue(a: seq<nat>, b: seq<nat>, n: nat, carry: nat)
    requires |a| == |b| && LimbsBelow(a, n) && LimbsBelow(b, n) && carry <= 1
    ensures Value(ExactChain(a, b, n, carry), n) == (Value(a, n) + Value(b, n) + carry) % Modulus(n, |a|)
  {
    if |a| > 0 {
      var c' := if a[0] + b[0] + carry >= Pow2(n) then 1 else 0;
      ExactChainValue(a[1..], b[1..], n, c');
      ExactChainValueStep(a, b, n, carry);
    }
  }

  /** The inductive step of `ExactChainValue`: from the tails to the whole chains. */
  lemma ExactChainValueStep(a: seq<nat>, b: seq<nat>, n: nat, carry: nat)
    requires |a| == |b| > 0 && LimbsBelow(a, n) && LimbsBelow(b, n) && carry <= 1
    requires var c' := if a[0] + b[0] + carry >= Pow2(n) then 1 else 0;
             Value(ExactChain(a[1..], b[1..], n, c'), n) ==
             (Value(a[1..], n) + Value(b[1..], n) + c') % Modulus(n, |a| - 1)
    ensures Value(ExactChain(a, b, n, carry), n) == (Value(a, n) + Value(b, n) + carry) % Modulus(n, |a|)
  {
    var p := Pow2(n);
    var sum := WrappingAdd(WrappingAdd(a[0], b[0], n), carry, n);
    var c' := if a[0] + b[0] + carry >= p then 1 else 0;
    WrappedSum(a[0], b[0], carry, n);
    var m := Modulus(n, |a| - 1);
    var r := ExactChain(a, b, n, carry);
    assert r[1..] == ExactChain(a[1..], b[1..], n, c');
    ChainStep(a[0], b[0], carry, Value(a[1..], n), Value(b[1..], n), sum, c', p, m);
  }

  /** One limb of the exact chain, as arithmetic on the limbs and the values of the tails. */
  lemma ChainStep(a0: nat, b0: nat, carry: nat, va: nat, vb: nat, sum: nat, c': nat, p: nat, m: nat)
    requires 0 < m && sum < p && a0 + b0 + carry == sum + p * c'
    ensures sum + p * ((va + vb + c') % m) == ((a0 + p * va) + (b0 + p * vb) + carry) % (p * m)
  {
    Distribute(p, va, vb, c');
    assert (a0 + p * va) + (b0 + p * vb) + carry == sum + p * (va + vb + c');
    MulModSplit(sum, va + vb + c', p, m);
  }

  lemma ModulusOfFour(n: nat)
    ensures Modulus(n, 4) == Pow2(4 * n)
  {
    var p := Pow2(n);
    assert Modulus(n, 1) == p;
    assert Modulus(n, 2) == p * p;
    assert Modulus(n, 3) == p * (p * p);
    assert Modulus(n, 4) == p * (p * (p * p));
    Pow2Add(n, n);
    assert Pow2(2 * n) == p * p;
    Pow2Add(2 * n, n);
    assert Pow2(3 * n) == (p * p) * p;
    Pow2Add(3 * n, n);
    assert Pow2(4 * n) == ((p * p) * p) * p;
  }

  /** The source's addition is wide addition modulo `2^(4n)` whenever no carry is dropped. */
  lemma AddIsWideAddition(x: Ux4, y: Ux4, n: nat)
    requires WellFormed(x, n) && WellFormed(y, n)
    requires !DropsCarry(x.limbs, y.limbs, n, 0)
    ensures Value(AddLimbs(x, y, n), n) == (Value(x.limbs, n) + Value(y.limbs, n)) % Pow2(4 * n)
  {
    ChainsAgree(x.limbs, y.limbs, n, 0);
    ExactChainValue(x.limbs, y.limbs, n, 0);
    ModulusOfFour(n);
  }

  /** Every limb of either chain is a value of the `n`-bit type. */
  lemma {:induction false} ChainLimbsBelow(a: seq<nat>, b: seq<nat>, n: nat, carry: nat)
    requires |a| == |b|
    ensures LimbsBelow(CarryChain(a, b, n, carry), n)
    ensures LimbsBelow(ExactChain(a, b, n, carry), n)
  {
    if |a| > 0 {
      var sum := WrappingAdd(WrappingAdd(a[0], b[0], n), carry, n);
      ChainLimbsBelow(a[1..], b[1..], n, if sum < a[0] || sum < b[0] then 1 else 0);
      ChainLimbsBelow(a[1..], b[1..], n, if a[0] + b[0] + carry >= Pow2(n) then 1 else 0);
    }
  }

  /** An incoming carry of `1` instead of `0` changes the wrapped limb, since a limb of at least one bit has two values. */
  lemma CarryInChangesLimb(v: nat, w: nat, n: nat)
    requires n >= 1 && v < Pow2(n) && w < Pow2(n)
    ensures WrappingAdd(WrappingAdd(v, w, n), 0, n) != WrappingAdd(WrappingAdd(v, w, n), 1, n)
  {
    assert Pow2(n) >= 2;
    WrappedSum(v, w, 0, n);
    WrappedSum(v, w, 1, n);
  }

  /**
   * Where the source's chain drops a carry it differs from the exact chain:
   * the limb above the dropped carry misses its `+ 1`.
   */
  lemma {:induction false} DroppedCarryDiffers(a: seq<nat>, b: seq<nat>, n: nat, carry: nat)
    requires n >= 1 && |a| == |b| && LimbsBelow(a, n) && LimbsBelow(b, n) && carry <= 1
    requires DropsCarry(a, b, n, carry)
    ensures CarryChain(a, b, n, carry) != ExactChain(a, b, n, carry)
  {
    var sum := WrappingAdd(WrappingAdd(a[0], b[0], n), carry, n);
    var c := if sum < a[0] || sum < b[0] then 1 else 0;
    var e := if a[0] + b[0] + carry >= Pow2(n) then 1 else 0;
    var r, x := CarryChain(a, b, n, carry), ExactChain(a, b, n, carry);
    assert r[1..] == CarryChain(a[1..], b[1..], n, c);
    assert x[1..] == ExactChain(a[1..], b[1..], n, e);
    CarryRule(a[0], b[0], carry, n);
    if carry == 1 && a[0] == Pow2(n) - 1 && b[0] == Pow2(n) - 1 {
      WrappedSum(a[0], b[0], carry, n);
      CarryInChangesLimb(a[1], b[1], n);
      assert r[1] != x[1];
    } else {
      DroppedCarryDiffers(a[1..], b[1..], n, c);
    }
  }

  /** Limb sequences of one length with the same wide value are the same limbs. */
  lemma {:induction false} ValueInjective(s: seq<nat>, t: seq<nat>, n: nat)
    requires |s| == |t| && LimbsBelow(s, n) && LimbsBelow(t, n)
    requires Value(s, n) == Value(t, n)
    ensures s == t
  {
    if |s| > 0 {
      var p := Pow2(n);
      ModUnique(Value(s, n), p, Value(s[1..], n), s[0]);
      ModUnique(Value(t, n), p, Value(t[1..], n), t[0]);
      ValueInjective(s[1..], t[1..], n);
    }
  }

  /** Conversely, wherever a carry is dropped the source's sum is not the wide sum. */
  lemma AddDropsCarry(x: Ux4, y: Ux4, n: nat)
    requires n >= 1 && WellFormed(x, n) && WellFormed(y, n)
    requires DropsCarry(x.limbs, y.limbs, n, 0)
    ensures Value(AddLimbs(x, y, n), n) != (Value(x.limbs, n) + Value(y.limbs, n)) % Pow2(4 * n)
  {
    DroppedCarryDiffers(x.limbs, y.limbs, n, 0);
    ExactChainValue(x.limbs, y.limbs, n, 0);
    ModulusOfFour(n);
    ChainLimbsBelow(x.limbs, y.limbs, n, 0);
    if Value(AddLimbs(x, y, n), n) == Value(ExactChain(x.limbs, y.limbs, n, 0), n) {
      ValueInjective(AddLimbs(x, y, n), ExactChain(x.limbs, y.limbs, n, 0), n);
    }
  }

  /** `Add` is wide addition modulo `2^(4n)` exactly when its chain drops no carry. */
  lemma AddIsWideAdditionIff(x: Ux4, y: Ux4, n: nat)
    requires n >= 1 && WellFormed(x, n) && WellFormed(y, n)
    ensures Value(AddLimbs(x, y, n), n) == (Value(x.limbs, n) + Value(y.limbs, n)) % Pow2(4 * n)
            <==> !DropsCarry(x.limbs, y.limbs, n, 0)
  {
    if DropsCarry(x.limbs, y.limbs, n, 0) {
      AddDropsCarry(x, y, n);
    } else {
      AddIsWideAddition(x, y, n);
    }
  }

  /** The complement limbs stand for `2^(n * k) - 1 - v`. */
  lemma {:induction false} ComplementValue(s: seq<nat>, n: nat)
    requires LimbsBelow(s, n)
    ensures Value(ComplementSeq(s, n), n) == Modulus(n, |s|) - 1 - Value(s, n)
  {
    if |s| > 0 {
      var cs := ComplementSeq(s, n);
      assert cs[1..] == ComplementSeq(s[1..], n);
      ComplementValue(s[1..], n);
      LimbNotValue(s[0], n);
      ComplementStep(Pow2(n), Modulus(n, |s| - 1), s[0], Value(s[1..], n), Value(cs[1..], n));
    }
  }

  lemma ComplementStep(p: int, m: int, s0: int, v: int, cv: int)
    requires cv == m - 1 - v
    ensures (p - 1 - s0) + p * cv == p * m - 1 - (s0 + p * v)
  {
    assert p * cv == p * m - p - p * v;
  }

  /** Adding zero limbs never drops a carry: that needs an all-ones limb on both sides. */
  lemma {:induction false} ZerosNeverDrop(a: seq<nat>, n: nat, carry: nat)
    requires n >= 1
    ensures !DropsCarry(a, seq(|a|, i => 0), n, carry)
  {
    if |a| > 1 {
      var zs := seq(|a|, i => 0);
      assert zs[1..] == seq(|a| - 1, i => 0);
      assert Pow2(n) >= 2;
      var sum := WrappingAdd(WrappingAdd(a[0], 0, n), carry, n);
      ZerosNeverDrop(a[1..], n, if sum < a[0] || sum < 0 then 1 else 0);
    }
  }

  /** The `+ [1, 0, 0, 0]` of the two's complement never drops a carry. */
  lemma IncrementNeverDrops(a: seq<nat>, n: nat)
    requires n >= 1 && |a| == 4
    ensures !DropsCarry(a, [1, 0, 0, 0], n, 0)
  {
    var sum := WrappingAdd(WrappingAdd(a[0], 1, n), 0, n);
    assert [1, 0, 0, 0][1..] == seq(3, i => 0);
    ZerosNeverDrop(a[1..], n, if sum < a[0] || sum < 1 then 1 else 0);
  }

  lemma ValueOfOne(n: nat)
    ensures Value([1, 0, 0, 0], n) == 1
  {
    var s: seq<nat> := [1, 0, 0, 0];
    assert s[1..] == [0, 0, 0] && s[1..][1..] == [0, 0] && s[1..][1..][1..] == [0];
    assert [0][1..] == [];
    assert Value([0], n) == 0;
    assert Value([0, 0], n) == 0;
    assert Value([0, 0, 0], n) == 0;
  }

  /** `v + (m - w) % m` and `v - w` agree modulo `m` for `0 <= w <= m`. */
  lemma ModOfComplement(v: int, w: int, m: int)
    requires 0 < m && 0 <= w <= m
    ensures (v + (m - w) % m) % m == (v - w) % m
  {
    DivMod(v - w, m);
    var q, r := (v - w) / m, (v - w) % m;
    if w == 0 {
      ModUnique(m, m, 1, 0);
    } else {
      ModUnique(m - w, m, 0, m - w);
      assert v + (m - w) == m * (q + 1) + r;
      ModUnique(v + (m - w), m, q + 1, r);
    }
  }

  /**
   * The source's subtraction is wide subtraction modulo `2^(4n)` exactly when
   * the final addition `x + (!y + 1)` drops no carry (the `+ 1` never does).
   */
  lemma SubIsWideSubtraction(x: Ux4, y: Ux4, n: nat)
    requires n >= 1 && WellFormed(x, n) && WellFormed(y, n)
    ensures var t := AddLimbs(Not(y, n), Ux4([1, 0, 0, 0]), n);
            Value(SubLimbs(x, y, n), n) == (Value(x.limbs, n) - Value(y.limbs, n)) % Pow2(4 * n)
            <==> !DropsCarry(x.limbs, t, n, 0)
  {
    var ny, one := Not(y, n), Ux4([1, 0, 0, 0]);
    assert ny.limbs == ComplementSeq(y.limbs, n);
    ComplementValue(y.limbs, n);
    ModulusOfFour(n);
    assert Pow2(n) >= 2;
    ValueOfOne(n);
    IncrementNeverDrops(ny.limbs, n);
    AddIsWideAddition(ny, one, n);
    var t := Ux4(AddLimbs(ny, one, n));
    ChainLimbsBelow(ny.limbs, one.limbs, n, 0);
    var m := Pow2(4 * n);
    ModOfComplement(Value(x.limbs, n), Value(y.limbs, n), m);
    AddIsWideAdditionIff(x, t, n);
  }

  /**
   * With 8-bit limbs, `[255, 255, 0, 0] + [1, 255, 0, 0]` drops the carry out of
   * limb 1: the source gives `[0, 255, 0, 0]` (65280) where wide addition gives
   * `[0, 255, 1, 0]` (130816).
   */
  lemma AddDropsCarryExample()
    ensures DropsCarry([255, 255, 0, 0], [1, 255, 0, 0], 8, 0)
    ensures AddLimbs(Ux4([255, 255, 0, 0]), Ux4([1, 255, 0, 0]), 8) == [0, 255, 0, 0]
    ensures ExactChain([255, 255, 0, 0], [1, 255, 0, 0], 8, 0) == [0, 255, 1, 0]
  {
    assert Pow2(8) == 256;
  }

  /** The source's first addition test, `[1, 0, 0, 0] + [1, 0, 0, 0] == [2, 0, 0, 0]`, for every limb width from 2 bits up (the test uses 64). */
  lemma AdditionTest(n: nat)
    requires n >= 2
    ensures AddLimbs(Ux4([1, 0, 0, 0]), Ux4([1, 0, 0, 0]), n) == [2, 0, 0, 0]
  {
    Pow2Monotone(2, n);
    assert Pow2(2) == 4;
    WrappedSum(1, 1, 0, n);
    WrappedSum(0, 0, 0, n);
    CarryChainCons(1, [0, 0, 0], 1, [0, 0, 0], n, 0, 2, 0);
    CarryChainCons(0, [0, 0], 0, [0, 0], n, 0, 0, 0);
    CarryChainCons(0, [0], 0, [0], n, 0, 0, 0);
    CarryChainCons(0, [], 0, [], n, 0, 0, 0);
  }

  /** The source's second addition test: on 8-bit limbs `[255, 0, 0, 0] + [1, 0, 0, 0]` carries into limb 1. */
  lemma AdditionCarryTest()
    ensures AddLimbs(Ux4([255, 0, 0, 0]), Ux4([1, 0, 0, 0]), 8) == [0, 1, 0, 0]
  {
    assert Pow2(8) == 256;
    CarryChainCons(255, [0, 0, 0], 1, [0, 0, 0], 8, 0, 0, 1);
    CarryChainCons(0, [0, 0], 0, [0, 0], 8, 1, 1, 0);
    CarryChainCons(0, [0], 0, [0], 8, 0, 0, 0);
    CarryChainCons(0, [], 0, [], 8, 0, 0, 0);
  }

  /**
   * Subtraction inherits the dropped carry: with 8-bit limbs the source computes
   * `[1, 255, 0, 0] - [1, 0, 0, 0]` as `[0, 255, 255, 255]` instead of `[0, 255, 0, 0]`.
   */
  lemma SubDropsCarryExample()
    ensures SubLimbs(Ux4([1, 255, 0, 0]), Ux4([1, 0, 0, 0]), 8) == [0, 255, 255, 255]
  {
    NotOfOne();
    TwosComplementOfOne();
    SumDropsCarry();
  }

  lemma NotOfOne()
    ensures Not(Ux4([1, 0, 0, 0]), 8) == Ux4([254, 255, 255, 255])
  {
    assert Pow2(8) == 256;
    LimbNotValue(1, 8);
    LimbNotValue(0, 8);
  }

  lemma TwosComplementOfOne()
    ensures CarryChain([254, 255, 255, 255], [1, 0, 0, 0], 8, 0) == [255, 255, 255, 255]
  {
    assert Pow2(8) == 256;
    CarryChainCons(254, [255, 255, 255], 1, [0, 0, 0], 8, 0, 255, 0);
    CarryChainCons(255, [255, 255], 0, [0, 0], 8, 0, 255, 0);
    CarryChainCons(255, [255], 0, [0], 8, 0, 255, 0);
    CarryChainCons(255, [], 0, [], 8, 0, 255, 0);
  }

  lemma SumDropsCarry()
    ensures CarryChain([1, 255, 0, 0], [255, 255, 255, 255], 8, 0) == [0, 255, 255, 255]
  {
    assert Pow2(8) == 256;
    CarryChainCons(1, [255, 0, 0], 255, [255, 255, 255], 8, 0, 0, 1);
    CarryChainCons(255, [0, 0], 255, [255, 255], 8, 1, 255, 0);
    CarryChainCons(0, [0], 255, [255], 8, 0, 255, 0);
    CarryChainCons(0, [], 255, [], 8, 0, 255, 0);
  }

  lemma CarryChainCons(a0: nat, a: seq<nat>, b0: nat, b: seq<nat>, n: nat, carry: nat, sum: nat, next: nat)
    requires |a| == |b|
    requires sum == WrappingAdd(WrappingAdd(a0, b0, n), carry, n)
    requires next == if sum < a0 || sum < b0 then 1 else 0
    ensures CarryChain([a0] + a, [b0] + b, n, carry) == [sum] + CarryChain(a, b, n, next)
  {
    assert ([a0] + a)[1..] == a && ([b0] + b)[1..] == b;
  }

  function ComplementSeq(s: seq<nat>, n: nat): seq<nat>
  {
    seq(|s|, i requires 0 <= i < |s| => LimbNot(s[i], n))
  }

  /**
   * One limb of `x - x`: the complement limb plus its carry `c`, added to
   * the limb plus its carry `d`, is zero, and exactly one of the two
   * chains carries on.
   */
  lemma SubLimbZero(x0: nat, n: nat, c: nat, d: nat)
    requires n >= 1 && x0 < Pow2(n) && c <= 1 && d <= 1 && c + d == 1
    ensures var t := WrappingAdd(WrappingAdd(LimbNot(x0, n), 0, n), c, n);
            var s := WrappingAdd(WrappingAdd(x0, t, n), d, n);
            && s == 0
            && (if t < LimbNot(x0, n) || t < 0 then 1 else 0) + (if s < x0 || s < t then 1 else 0) == 1
  {
    var p := Pow2(n);
    assert p >= 2;
    var nx := LimbNot(x0, n);
    LimbNotValue(x0, n);
    WrappedSum(nx, 0, c, n);
    var t := WrappingAdd(WrappingAdd(nx, 0, n), c, n);
    WrappedSum(x0, t, d, n);
  }

  /**
   * Adding `x` to the two's complement chain of `x` gives zero limbs, when
   * exactly one of the two chains (the `+1` of the complement, `c`, or the
   * sum, `d`) has a carry pending.
   */
  lemma {:induction false} SubTailZero(x: seq<nat>, n: nat, c: nat, d: nat)
    requires n >= 1 && LimbsBelow(x, n) && c <= 1 && d <= 1 && c + d == 1
    ensures CarryChain(x, CarryChain(ComplementSeq(x, n), seq(|x|, i => 0), n, c), n, d) == seq(|x|, i => 0)
  {
    if |x| > 0 {
      var nx := LimbNot(x[0], n);
      var t := WrappingAdd(WrappingAdd(nx, 0, n), c, n);
      var c' := if t < nx || t < 0 then 1 else 0;
      var s := WrappingAdd(WrappingAdd(x[0], t, n), d, n);
      var d' := if s < x[0] || s < t then 1 else 0;
      SubLimbZero(x[0], n, c, d);
      var zs := seq(|x|, i => 0);
      var rest := seq(|x| - 1, i => 0);
      assert ComplementSeq(x, n)[1..] == ComplementSeq(x[1..], n);
      assert zs[1..] == rest;
      var tc := CarryChain(ComplementSeq(x, n), zs, n, c);
      assert tc[0] == t && tc[1..] == CarryChain(ComplementSeq(x[1..], n), rest, n, c');
      SubTailZero(x[1..], n, c', d');
    }
  }

  /** `x - x` is the zero state, for every `x`. */
  lemma SubSelfIsZero(x: Ux4, n: nat)
    requires WellFormed(x, n) && n >= 1
    ensures SubLimbs(x, x, n) == Zero().limbs
  {
    var l := x.limbs;
    var cs := ComplementSeq(l, n);
    assert Not(x, n).limbs == cs;
    LimbNotValue(l[0], n);
    OneAsCarryIn(cs, n);
    SubTailZero(l, n, 1, 0);
  }

  /** Adding `[1, 0, 0, 0]` is adding zero limbs with an incoming carry. */
  lemma OneAsCarryIn(a: seq<nat>, n: nat)
    requires |a| == 4 && n >= 1 && a[0] < Pow2(n)
    ensures CarryChain(a, [1, 0, 0, 0], n, 0) == CarryChain(a, seq(4, i => 0), n, 1)
  {
    assert Pow2(n) >= 2;
    WrappedSum(a[0], 1, 0, n);
    WrappedSum(a[0], 0, 1, n);
    var t := WrappingAdd(WrappingAdd(a[0], 1, n), 0, n);
    var c := if t < a[0] || t < 1 then 1 else 0;
    assert a == [a[0]] + a[1..];
    assert [1, 0, 0, 0] == [1] + [0, 0, 0] && seq(4, i => 0) == [0] + [0, 0, 0];
    CarryChainCons(a[0], a[1..], 1, [0, 0, 0], n, 0, t, c);
    CarryChainCons(a[0], a[1..], 0, [0, 0, 0], n, 1, t, c);
  }

  /**
   * The chain from limb `i` on is the wrapped sum at `i` followed by the chain
   * from `i + 1`, so appending that sum to the limbs already computed keeps
   * "computed limbs + rest of the chain" the same.
   */
  lemma CarryChainAt(done: seq<nat>, a: seq<nat>, b: seq<nat>, i: nat, n: nat, carry: nat)
    requires |a| == |b| && i < |a|
    ensures var sum := WrappingAdd(WrappingAdd(a[i], b[i], n), carry, n);
            done + CarryChain(a[i..], b[i..], n, carry) ==
            (done + [sum]) + CarryChain(a[i + 1..], b[i + 1..], n, if sum < a[i] || sum < b[i] then 1 else 0)
  {
    assert a[i..][1..] == a[i + 1..] && b[i..][1..] == b[i + 1..];
  }

  /** `x + rhs`: the source's loop over the four limbs with a running carry. */
  method Add(x: Ux4, rhs: Ux4, n: nat) returns (r: Ux4)
    requires WellFormed(x, n) && WellFormed(rhs, n)
    ensures WellFormed(r, n)
    ensures r.limbs == AddLimbs(x, rhs, n)
  {
    var result := new nat[4](_ => 0);
    var carry := 0;
    for i := 0 to 4
      invariant result[..i] + CarryChain(x.limbs[i..], rhs.limbs[i..], n, carry) == AddLimbs(x, rhs, n)
      invariant LimbsBelow(result[..i], n)
    {
      var sum := WrappingAdd(WrappingAdd(x.limbs[i], rhs.limbs[i], n), carry, n);
      CarryChainAt(result[..i], x.limbs, rhs.limbs, i, n, carry);
      ghost var done := result[..i];
      result[i] := sum;
      carry := if sum < x.limbs[i] || sum < rhs.limbs[i] then 1 else 0;
      assert result[..i + 1] == done + [sum];
    }
    assert x.limbs[4..] == [] && rhs.limbs[4..] == [];
    assert result[..] == result[..4];
    r := Ux4(result[..]);
  }

  /** `x - rhs`: `x + (!rhs + Ux4([1, 0, 0, 0]))`. */
  method Sub(x: Ux4, rhs: Ux4, n: nat) returns (r: Ux4)
    requires WellFormed(x, n) && WellFormed(rhs, n) && n >= 1
    ensures WellFormed(r, n)
    ensures r.limbs == SubLimbs(x, rhs, n)
  {
    var notRhs := Not(rhs, n);
    var twoComplementRhs := Add(notRhs, Ux4([1, 0, 0, 0]), n);
    r := Add(x, twoComplementRhs, n);
  }
}
