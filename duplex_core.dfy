/**
 * The keyed duplex of Dobraunig and Mennink (2019) as both copies of
 * `Duplex` implement it (`src/other/duplex.rs` and
 * `src/construction/duplex.rs`): `u` keys masked to their low `k` bits,
 * `reset(delta)` loading key `delta mod u` together with a random IV above
 * the key bits, rotating and permuting, and `duplex(flag, input)` returning
 * the rate bits of the state before the call.
 *
 * `urot` is rotation to the left by `alpha`; its source is not part of this
 * model. The random key and IV draws are parameters.
 */
module DuplexCore {
  import opened Words

  /** The keys kept by `new`/`setup`: each random draw masked to its low `k` bits. */
  function MaskKeys(draws: seq<Word>, kmask: Word): (keys: seq<Word>)
    requires forall i :: 0 <= i < |draws| ==> |draws[i]| == |kmask|
    ensures |keys| == |draws|
  {
    seq(|draws|, i requires 0 <= i < |draws| => And(draws[i], kmask))
  }

  /** Every key has no bit set outside the low `k` bits. */
  lemma MaskKeysBelowK(draws: seq<Word>, k: nat, width: nat, i: nat)
    requires k < width && i < |draws|
    requires forall j :: 0 <= j < |draws| ==> |draws[j]| == width
    ensures And(MaskKeys(draws, LowMask(width, k))[i], Not(LowMask(width, k))) == Zero(width)
    ensures forall j :: 0 <= j < width ==> MaskKeys(draws, LowMask(width, k))[i][j] == (j < k && draws[i][j])
  {
  }

  /** The IV of `reset`: the random draw with its low `k` bits cleared. */
  function ResetIv(draw: Word, kmask: Word): Word
    requires |draw| == |kmask|
  {
    And(draw, Not(kmask))
  }

  /** `perm(urot(keys[delta % u] | iv, alpha))`: the state `reset` leaves. */
  function ResetState(perm: Word -> Word, keys: seq<Word>, delta: nat, draw: Word, kmask: Word, alpha: nat): Word
    requires |keys| > 0 && |keys[delta % |keys|]| == |draw| == |kmask| > 0
  {
    perm(Rotl(Or(keys[delta % |keys|], ResetIv(draw, kmask)), alpha))
  }

  /**
   * The key and the IV occupy disjoint bits: the word rotated by `reset`
   * holds the key in its low `k` bits and the IV draw above them, and
   * nothing of the IV survives below `k`.
   */
  lemma ResetKeyIvDisjoint(key: Word, draw: Word, k: nat)
    requires |key| == |draw| && k < |key|
    requires And(key, Not(LowMask(|key|, k))) == Zero(|key|)
    ensures And(ResetIv(draw, LowMask(|key|, k)), LowMask(|key|, k)) == Zero(|key|)
    ensures And(key, ResetIv(draw, LowMask(|key|, k))) == Zero(|key|)
    ensures forall i :: 0 <= i < |key| ==>
              Or(key, ResetIv(draw, LowMask(|key|, k)))[i] == if i < k then key[i] else draw[i]
  {
    var n := |key|;
    forall i | 0 <= i < n
      ensures i >= k ==> !key[i]
    {
      if i >= k {
        assert And(key, Not(LowMask(n, k)))[i] == Zero(n)[i];
      }
    }
  }

  /** The word given to the permutation by `duplex(flag, input)`. */
  function PermInput(state: Word, mask: Word, flag: bool, input: Word): (w: Word)
    requires |state| == |mask| == |input|
    ensures |w| == |state|
  {
    Xor(if flag then And(state, Not(mask)) else state, input)
  }

  /**
   * With `flag` the rate of the permutation input is the rate of `input`
   * (the old rate is overwritten); without it, the input is XORed into the
   * whole state. In both cases the capacity is `state ^ input`.
   */
  lemma PermInputBits(state: Word, r: nat, flag: bool, input: Word)
    requires |state| == |input| && r < |state|
    ensures !flag ==> PermInput(state, LowMask(|state|, r), flag, input) == Xor(state, input)
    ensures forall i :: 0 <= i < |state| ==>
              PermInput(state, LowMask(|state|, r), flag, input)[i] ==
              if flag && i < r then input[i] else state[i] != input[i]
  {
  }

  /** `duplex(flag, input)`: the new state and the output. */
  function DuplexStep(perm: Word -> Word, state: Word, mask: Word, flag: bool, input: Word): (Word, Word)
    requires |state| == |mask| == |input|
  {
    (perm(PermInput(state, mask, flag, input)), And(state, mask))
  }

  /**
   * The output of `duplex` is exactly the rate of the state before the call:
   * no bit outside the rate mask is set, and every rate bit is the state's.
   */
  lemma DuplexOutputIsRate(perm: Word -> Word, state: Word, r: nat, flag: bool, input: Word)
    requires |state| == |input| && r < |state|
    ensures var output := DuplexStep(perm, state, LowMask(|state|, r), flag, input).1;
            && And(output, Not(LowMask(|state|, r))) == Zero(|state|)
            && output[..r] == state[..r]
  {
  }

  /**
   * Two calls in a row: the second output is the rate of the permuted first
   * input, so with `flag` set the first input's capacity bits and the old
   * capacity decide it, and not the old rate.
   */
  lemma FlagForgetsRate(perm: Word -> Word, s1: Word, s2: Word, r: nat, input: Word)
    requires |s1| == |s2| == |input| && r < |s1|
    requires s1[r..] == s2[r..]
    ensures DuplexStep(perm, s1, LowMask(|s1|, r), true, input) == (
              DuplexStep(perm, s2, LowMask(|s1|, r), true, input).0, And(s1, LowMask(|s1|, r)))
  {
    var mask := LowMask(|s1|, r);
    forall i | 0 <= i < |s1|
      ensures PermInput(s1, mask, true, input)[i] == PermInput(s2, mask, true, input)[i]
    {
      if i >= r {
        assert s1[i] == s1[r..][i - r] == s2[r..][i - r] == s2[i];
      }
    }
    assert PermInput(s1, mask, true, input) == PermInput(s2, mask, true, input);
  }
}
