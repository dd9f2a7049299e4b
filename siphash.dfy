/**
 * The ARX permutation of SipHash and HalfSipHash on a four-limb state.
 *
 * `SipHash_general_permutation(state, [a, b, c, d, e])` is one SipRound with
 * the rotation amounts taken from `params`: add, rotate, XOR on the limbs
 * `v0, ..., v3` of an `n`-bit type, wrapping on overflow. Each step can be
 * undone (subtract a limb, XOR a limb again, rotate back), so the round is a
 * bijection of the states; `InverseRound` undoes it.
 *
 * The reference rounds (section 2.2 of Aumasson and Bernstein, "SipHash: a
 * fast short-input PRF", and its 32-bit variant HalfSipHash) are written out
 * independently as `ArxRound` with the six rotation amounts in the order they
 * occur in the round.
 */
module SipHash {
  import opened Bits
  import opened Words
  import UStates

  /** The rotation amounts `[a, b, c, d, e]` of the general permutation. */
  datatype Params = Params(a: nat, b: nat, c: nat, d: nat, e: nat)

  /** `SipHash_perm`: the constants of SipRound on 64-bit limbs. */
  const SipHashParams := Params(13, 16, 17, 21, 32)

  /** `Half_SipHash_perm`: the constants as the source writes them, on 32-bit limbs. */
  const HalfSipHashParams := Params(5, 8, 7, 13, 16)

  /** The constants of the HalfSipHash round in the same `[a, b, c, d, e]` roles. */
  const HalfSipHashReferenceParams := Params(5, 8, 13, 7, 16)

  // ---------------------------------------------------------------------------
  // Limb operations

  /** `urot(v, a)`: rotation of an `n`-bit limb to the left by `a`. */
  function Rot(v: nat, a: nat, n: nat): (r: nat)
    requires n > 0
    ensures r < Pow2(n)
  {
    FromBits(Rotl(ToBits(v, n), a))
  }

  /** Rotation of an `n`-bit limb to the right by `a`. */
  function RotBack(v: nat, a: nat, n: nat): (r: nat)
    requires n > 0
    ensures r < Pow2(n)
  {
    FromBits(Rotr(ToBits(v, n), a))
  }

  /** `+` on the limb type, wrapping modulo `2^n`. */
  function Add(v: nat, w: nat, n: nat): (r: nat)
    ensures r < Pow2(n)
  {
    UStates.WrappingAdd(v, w, n)
  }

  /** Subtraction modulo `2^n`, the inverse of `Add`. */
  function Sub(v: nat, w: nat, n: nat): (r: nat)
    ensures r < Pow2(n)
  {
    (v - w) % Pow2(n)
  }

  /** `^` on the limb type. */
  function Xor(v: nat, w: nat, n: nat): (r: nat)
    ensures r < Pow2(n)
  {
    UStates.LimbXor(v, w, n)
  }

  lemma RotBackRot(v: nat, a: nat, n: nat)
    requires n > 0 && v < Pow2(n)
    ensures RotBack(Rot(v, a, n), a, n) == v
  {
    var bs := Rotl(ToBits(v, n), a);
    ToFromBits(bs);
    RotrRotl(ToBits(v, n), a);
    FromToBits(v, n);
  }

  lemma RotRotBack(v: nat, a: nat, n: nat)
    requires n > 0 && v < Pow2(n)
    ensures Rot(RotBack(v, a, n), a, n) == v
  {
    var bs := Rotr(ToBits(v, n), a);
    ToFromBits(bs);
    RotlRotr(ToBits(v, n), a);
    FromToBits(v, n);
  }

  lemma SubAdd(v: nat, w: nat, n: nat)
    requires v < Pow2(n) && w < Pow2(n)
    ensures Sub(Add(v, w, n), w, n) == v
  {
    var p := Pow2(n);
    DivMod(v + w, p);
    ModOfDifference(Add(v, w, n) - w, p, (v + w) / p, v);
  }

  lemma AddSub(v: nat, w: nat, n: nat)
    requires v < Pow2(n) && w < Pow2(n)
    ensures Add(Sub(v, w, n), w, n) == v
  {
    var p := Pow2(n);
    DivMod(v - w, p);
    ModOfDifference(Sub(v, w, n) + w, p, (v - w) / p, v);
  }

  lemma XorXor(v: nat, w: nat, n: nat)
    requires v < Pow2(n)
    ensures Xor(Xor(v, w, n), w, n) == v
  {
    UStates.LimbXorInverse(v, w, n);
  }

  // ---------------------------------------------------------------------------
  // The round

  /**
   * One round as the source computes it, from `state.get()` to `state.set(..)`:
   * each line of the source is one `var`.
   */
  function Round(s: seq<nat>, p: Params, n: nat): (r: seq<nat>)
    requires |s| == 4 && n > 0
    ensures |r| == 4 && UStates.LimbsBelow(r, n)
  {
    var p0 := Add(s[0], s[1], n);
    var p1 := Xor(Rot(s[1], p.a, n), p0, n);
    var p0 := Rot(p0, p.e, n);
    var p2 := Add(s[2], s[3], n);
    var p3 := Xor(Rot(s[3], p.b, n), p2, n);
    var p0 := Add(p0, p3, n);
    var p3 := Xor(Rot(p3, p.d, n), p0, n);
    var p2 := Add(p2, p1, n);
    var p1 := Xor(Rot(p1, p.c, n), p2, n);
    var p2 := Rot(p2, p.e, n);
    [p0, p1, p2, p3]
  }

  /** The steps of `Round` undone in reverse order. */
  function InverseRound(s: seq<nat>, p: Params, n: nat): (r: seq<nat>)
    requires |s| == 4 && n > 0
    ensures |r| == 4 && UStates.LimbsBelow(r, n)
  {
    var p2 := RotBack(s[2], p.e, n);
    var p1 := RotBack(Xor(s[1], p2, n), p.c, n);
    var p2 := Sub(p2, p1, n);
    var p3 := RotBack(Xor(s[3], s[0], n), p.d, n);
    var p0 := Sub(s[0], p3, n);
    var p3 := RotBack(Xor(p3, p2, n), p.b, n);
    var p2 := Sub(p2, p3, n);
    var p0 := RotBack(p0, p.e, n);
    var p1 := RotBack(Xor(p1, p0, n), p.a, n);
    var p0 := Sub(p0, p1, n);
    [p0, p1, p2, p3]
  }

  /** Undoing a round gives back every state of `n`-bit limbs. */
  lemma InverseRoundUndoesRound(s: seq<nat>, p: Params, n: nat)
    requires |s| == 4 && n > 0 && UStates.LimbsBelow(s, n)
    ensures InverseRound(Round(s, p, n), p, n) == s
  {
    var p0 := Add(s[0], s[1], n);
    var p1 := Xor(Rot(s[1], p.a, n), p0, n);
    var p0' := Rot(p0, p.e, n);
    var p2 := Add(s[2], s[3], n);
    var p3 := Xor(Rot(s[3], p.b, n), p2, n);
    var p0'' := Add(p0', p3, n);
    var p3' := Xor(Rot(p3, p.d, n), p0'', n);
    var p2' := Add(p2, p1, n);
    var p1' := Xor(Rot(p1, p.c, n), p2', n);
    var p2'' := Rot(p2', p.e, n);
    RotBackRot(p2', p.e, n);
    XorXor(Rot(p1, p.c, n), p2', n);
    RotBackRot(p1, p.c, n);
    SubAdd(p2, p1, n);
    XorXor(Rot(p3, p.d, n), p0'', n);
    RotBackRot(p3, p.d, n);
    SubAdd(p0', p3, n);
    XorXor(Rot(s[3], p.b, n), p2, n);
    RotBackRot(s[3], p.b, n);
    SubAdd(s[2], s[3], n);
    RotBackRot(p0, p.e, n);
    XorXor(Rot(s[1], p.a, n), p0, n);
    RotBackRot(s[1], p.a, n);
    SubAdd(s[0], s[1], n);
  }

  /** Every state of `n`-bit limbs is the round of some state. */
  lemma RoundUndoesInverseRound(s: seq<nat>, p: Params, n: nat)
    requires |s| == 4 && n > 0 && UStates.LimbsBelow(s, n)
    ensures Round(InverseRound(s, p, n), p, n) == s
  {
    var q2 := RotBack(s[2], p.e, n);
    var q1 := RotBack(Xor(s[1], q2, n), p.c, n);
    var q2' := Sub(q2, q1, n);
    var q3 := RotBack(Xor(s[3], s[0], n), p.d, n);
    var q0 := Sub(s[0], q3, n);
    var q3' := RotBack(Xor(q3, q2', n), p.b, n);
    var q2'' := Sub(q2', q3', n);
    var q0' := RotBack(q0, p.e, n);
    var q1' := RotBack(Xor(q1, q0', n), p.a, n);
    var q0'' := Sub(q0', q1', n);
    AddSub(q0', q1', n);
    RotRotBack(Xor(q1, q0', n), p.a, n);
    XorXor(q1, q0', n);
    RotRotBack(q0, p.e, n);
    AddSub(q2', q3', n);
    RotRotBack(Xor(q3, q2', n), p.b, n);
    XorXor(q3, q2', n);
    AddSub(s[0], q3, n);
    RotRotBack(Xor(s[3], s[0], n), p.d, n);
    XorXor(s[3], s[0], n);
    AddSub(q2, q1, n);
    RotRotBack(Xor(s[1], q2, n), p.c, n);
    XorXor(s[1], q2, n);
    RotRotBack(s[2], p.e, n);
  }

  /** The round is a permutation: different states of `n`-bit limbs have different images. */
  lemma RoundInjective(s: seq<nat>, t: seq<nat>, p: Params, n: nat)
    requires |s| == 4 && |t| == 4 && n > 0 && UStates.LimbsBelow(s, n) && UStates.LimbsBelow(t, n)
    requires Round(s, p, n) == Round(t, p, n)
    ensures s == t
  {
    InverseRoundUndoesRound(s, p, n);
    InverseRoundUndoesRound(t, p, n);
  }

  lemma RotZero(a: nat, n: nat)
    requires n > 0
    ensures Rot(0, a, n) == 0
  {
    UStates.ToBitsZero(n);
    assert Rotl(Zeros(n), a) == Zeros(n);
    FromBitsZeros(n);
  }

  /** The all-zero state is a fixed point of the round, whatever the constants. */
  lemma RoundFixesZero(p: Params, n: nat)
    requires n > 0
    ensures Round([0, 0, 0, 0], p, n) == [0, 0, 0, 0]
  {
    RotZero(p.a, n);
    RotZero(p.b, n);
    RotZero(p.c, n);
    RotZero(p.d, n);
    RotZero(p.e, n);
    UStates.LimbXorSelf(0, n);
    assert Add(0, 0, n) == 0;
    assert Xor(0, 0, n) == 0;
  }

  // ---------------------------------------------------------------------------
  // The permutations of the source, on `Ux4` states

  /**
   * `SipHash_general_permutation(state, params)`: reads the limbs with
   * `get`, applies the add/rotate/XOR steps in order, writes them back with
   * `set`. The Rust `&mut` state is the `state` argument and the result.
   */
  method SipHashGeneralPermutation(state: UStates.Ux4, params: Params, n: nat) returns (result: UStates.Ux4)
    requires |state.limbs| == 4 && n > 0
    ensures UStates.WellFormed(result, n)
    ensures result.limbs == Round(state.limbs, params, n)
  {
    var limbs := UStates.Get(state);
    var p0, p1, p2, p3 := limbs[0], limbs[1], limbs[2], limbs[3];
    var a, b, c, d, e := params.a, params.b, params.c, params.d, params.e;

    p0 := Add(p0, p1, n);
    p1 := Xor(Rot(p1, a, n), p0, n);
    p0 := Rot(p0, e, n);
    p2 := Add(p2, p3, n);
    p3 := Xor(Rot(p3, b, n), p2, n);
    p0 := Add(p0, p3, n);
    p3 := Xor(Rot(p3, d, n), p0, n);
    p2 := Add(p2, p1, n);
    p1 := Xor(Rot(p1, c, n), p2, n);
    p2 := Rot(p2, e, n);

    result := UStates.Set(state, [p0, p1, p2, p3]);
  }

  /** `SipHash_perm`: the general permutation on 64-bit limbs with the SipHash constants. */
  method SipHashPerm(state: UStates.Ux4) returns (result: UStates.Ux4)
    requires |state.limbs| == 4
    ensures UStates.WellFormed(result, 64)
    ensures result.limbs == SipRound(state.limbs)
  {
    result := SipHashGeneralPermutation(state, SipHashParams, 64);
    SipHashParamsAreSipRound(state.limbs);
  }

  /** `Half_SipHash_perm`: the general permutation on 32-bit limbs with the constants as written. */
  method HalfSipHashPerm(state: UStates.Ux4) returns (result: UStates.Ux4)
    requires |state.limbs| == 4
    ensures UStates.WellFormed(result, 32)
    ensures result.limbs == Round(state.limbs, HalfSipHashParams, 32)
  {
    result := SipHashGeneralPermutation(state, HalfSipHashParams, 32);
  }

  /** The 32-bit permutation with the HalfSipHash constants in their roles. */
  method HalfSipHashPermCorrected(state: UStates.Ux4) returns (result: UStates.Ux4)
    requires |state.limbs| == 4
    ensures UStates.WellFormed(result, 32)
    ensures result.limbs == HalfSipRound(state.limbs)
  {
    result := SipHashGeneralPermutation(state, HalfSipHashReferenceParams, 32);
    HalfSipHashReferenceParamsAreHalfSipRound(state.limbs);
  }

  // ---------------------------------------------------------------------------
  // Reference rounds

  /**
   * The round as the SipHash paper writes it, on `v0, ..., v3`, with the six
   * rotation amounts `r` listed in the order they occur:
   * `v0 += v1; v1 <<<= r0; v1 ^= v0; v0 <<<= r1; v2 += v3; v3 <<<= r2; v3 ^= v2;
   *  v0 += v3; v3 <<<= r3; v3 ^= v0; v2 += v1; v1 <<<= r4; v1 ^= v2; v2 <<<= r5`.
   */
  function ArxRound(v: seq<nat>, r: seq<nat>, n: nat): (w: seq<nat>)
    requires |v| == 4 && |r| == 6 && n > 0
    ensures |w| == 4
  {
    var v0 := Add(v[0], v[1], n);
    var v1 := Rot(v[1], r[0], n);
    var v1 := Xor(v1, v0, n);
    var v0 := Rot(v0, r[1], n);
    var v2 := Add(v[2], v[3], n);
    var v3 := Rot(v[3], r[2], n);
    var v3 := Xor(v3, v2, n);
    var v0 := Add(v0, v3, n);
    var v3 := Rot(v3, r[3], n);
    var v3 := Xor(v3, v0, n);
    var v2 := Add(v2, v1, n);
    var v1 := Rot(v1, r[4], n);
    var v1 := Xor(v1, v2, n);
    var v2 := Rot(v2, r[5], n);
    [v0, v1, v2, v3]
  }

  /** SipRound of SipHash on 64-bit words. */
  function SipRound(v: seq<nat>): seq<nat>
    requires |v| == 4
  {
    ArxRound(v, [13, 32, 16, 21, 17, 32], 64)
  }

  /** The round of HalfSipHash on 32-bit words. */
  function HalfSipRound(v: seq<nat>): seq<nat>
    requires |v| == 4
  {
    ArxRound(v, [5, 16, 8, 7, 13, 16], 32)
  }

  /** The general permutation with `[a, b, c, d, e]` is the reference round with `[a, e, b, d, c, e]`. */
  lemma RoundIsArxRound(s: seq<nat>, p: Params, n: nat)
    requires |s| == 4 && n > 0
    ensures Round(s, p, n) == ArxRound(s, [p.a, p.e, p.b, p.d, p.c, p.e], n)
  {
  }

  /** `SipHash_perm` computes SipRound. */
  lemma SipHashParamsAreSipRound(s: seq<nat>)
    requires |s| == 4
    ensures Round(s, SipHashParams, 64) == SipRound(s)
  {
    RoundIsArxRound(s, SipHashParams, 64);
  }

  /** With the constants in their roles, the 32-bit permutation computes the HalfSipHash round. */
  lemma HalfSipHashReferenceParamsAreHalfSipRound(s: seq<nat>)
    requires |s| == 4
    ensures Round(s, HalfSipHashReferenceParams, 32) == HalfSipRound(s)
  {
    RoundIsArxRound(s, HalfSipHashReferenceParams, 32);
  }

  lemma RotOne(a: nat, n: nat)
    requires a < n
    ensures Rot(1, a, n) == Pow2(a)
  {
    var one := SingleBit(n, 0);
    assert ToBits(1, n) == one by {
      FromBitsSingleBit(n, 0);
      UStates.LimbBits(1, n, one);
    }
    assert Rotl(one, a) == SingleBit(n, a) by {
      RotlSingleBit(n, 0, a);
      DivModSmall(0 + a, n);
    }
    FromBitsSingleBit(n, a);
  }

  /** XOR of `2^c` with `1`, for `0 < c < n`, is `2^c + 1`. */
  lemma XorPowerOne(c: nat, n: nat)
    requires 0 < c < n
    ensures Xor(Pow2(c), 1, n) == Pow2(c) + 1
  {
    FromBitsSingleBit(n, c);
    UStates.LimbBits(Pow2(c), n, SingleBit(n, c));
    FromBitsSingleBit(n, 0);
    UStates.LimbBits(1, n, SingleBit(n, 0));
    FromBitsDisjointXor(SingleBit(n, c), SingleBit(n, 0));
  }

  /** Limb 1 of the round of `[1, 0, 0, 0]` is `2^c + 1`. */
  lemma RoundOfOne(p: Params, n: nat)
    requires 0 < p.c < n
    ensures Round([1, 0, 0, 0], p, n)[1] == Pow2(p.c) + 1
  {
    var big := Pow2(n);
    Pow2Monotone(1, n);
    assert Pow2(1) == 2;
    DivModSmall(1, big);
    DivModSmall(0, big);
    assert Add(1, 0, n) == 1 && Add(0, 1, n) == 1 && Add(0, 0, n) == 0;
    RotZero(p.a, n);
    RotZero(p.b, n);
    XorZero(1, n);
    RotOne(p.c, n);
    XorPowerOne(p.c, n);
  }

  lemma XorZero(v: nat, n: nat)
    requires v < Pow2(n)
    ensures Xor(0, v, n) == v
  {
    UStates.ToBitsZero(n);
    assert Words.Xor(Zeros(n), ToBits(v, n)) == ToBits(v, n);
    FromToBits(v, n);
  }

  lemma SmallPowers()
    ensures Pow2(7) == 128 && Pow2(13) == 8192
  {
  }

  lemma HalfSipHashPermOfOne(s: seq<nat>)
    requires s == [1, 0, 0, 0]
    ensures Round(s, HalfSipHashParams, 32)[1] == 129
  {
    RoundOfOne(HalfSipHashParams, 32);
    SmallPowers();
  }

  lemma HalfSipRoundOfOne(s: seq<nat>)
    requires s == [1, 0, 0, 0]
    ensures HalfSipRound(s)[1] == 8193
  {
    RoundOfOne(HalfSipHashReferenceParams, 32);
    HalfSipHashReferenceParamsAreHalfSipRound(s);
    SmallPowers();
  }

  /**
   * `Half_SipHash_perm` is not the HalfSipHash round: on `[1, 0, 0, 0]` its
   * limb 1 is `2^7 + 1 == 129`, the HalfSipHash round gives `2^13 + 1 == 8193`.
   */
  lemma HalfSipHashPermIsNotHalfSipRound(s: seq<nat>)
    requires s == [1, 0, 0, 0]
    ensures Round(s, HalfSipHashParams, 32) != HalfSipRound(s)
  {
    HalfSipHashPermOfOne(s);
    HalfSipRoundOfOne(s);
  }
}
