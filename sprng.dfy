/**
 * The sponge-based PRNG of Gazi and Tessaro (`SPRNG`, `src/prng/sprng.rs`):
 * a state whose low `r` bits are the rate, `s` seed words masked to the
 * rate, and a seed index `j`. `refresh` absorbs each input XORed with the
 * current seed word and cycles `j` through the seed; `next` permutes,
 * outputs the rate, then performs `t - 1` permute-then-clear-rate steps and
 * resets `j` to 1.
 *
 * The random seed and capacity draws of `new` are parameters.
 */
module Sprng {
  import opened Bits
  import opened Words

  /** `perm(state ^ ((input ^ seed) & mask))`: one absorbed input. */
  function AbsorbInput(perm: Word -> Word, mask: Word, state: Word, input: Word, seed: Word): Word
    requires |state| == |mask| == |input| == |seed|
  {
    perm(Xor(state, And(Xor(input, seed), mask)))
  }

  /** Every seed word and input has the width of the state. */
  ghost predicate Widths(mask: Word, seed: seq<Word>, inputs: seq<Word>)
  {
    && (forall i :: 0 <= i < |seed| ==> |seed[i]| == |mask|)
    && (forall i :: 0 <= i < |inputs| ==> |inputs[i]| == |mask|)
  }

  /**
   * The state after absorbing `inputs` in order from `state`, input `i`
   * being combined with seed word `(j + i) mod s`.
   */
  function RefreshState(perm: Word -> Word, mask: Word, seed: seq<Word>, state: Word, j: nat, inputs: seq<Word>): (s: Word)
    requires |seed| > 0 && |state| == |mask| && Widths(mask, seed, inputs) && PreservesWidth(perm, |mask|)
    ensures |s| == |mask|
    decreases |inputs|
  {
    if |inputs| == 0 then state
    else
      var last := |inputs| - 1;
      var before := RefreshState(perm, mask, seed, state, j, inputs[..last]);
      AbsorbInput(perm, mask, before, inputs[last], seed[(j + last) % |seed|])
  }

  /**
   * One more input: absorbing `inputs[n]` with seed word `jj`, the index
   * reached after `n` inputs, into the state after `inputs[..n]` gives the
   * state after `inputs[..n + 1]`, and the next index is `(j + n + 1) mod s`.
   */
  lemma RefreshStateStep(perm: Word -> Word, mask: Word, seed: seq<Word>, state: Word, j: nat, inputs: seq<Word>,
                         n: nat, st: Word, jj: nat)
    requires |seed| > 0 && |state| == |mask| && Widths(mask, seed, inputs) && PreservesWidth(perm, |mask|)
    requires n < |inputs| && jj == (j + n) % |seed|
    requires Widths(mask, seed, inputs[..n]) && st == RefreshState(perm, mask, seed, state, j, inputs[..n])
    ensures Widths(mask, seed, inputs[..n + 1]) && jj < |seed|
    ensures AbsorbInput(perm, mask, st, inputs[n], seed[jj]) == RefreshState(perm, mask, seed, state, j, inputs[..n + 1])
    ensures (jj + 1) % |seed| == (j + (n + 1)) % |seed|
  {
    assert inputs[..n + 1][..n] == inputs[..n];
    ModSucc(jj, j + n, |seed|);
  }

  /**
   * With an injective permutation the refresh depends on the last input:
   * two input lists that differ only in the rate bits of their last input
   * lead to different states.
   */
  lemma RefreshAbsorbsLastInput(perm: Word -> Word, mask: Word, seed: seq<Word>, state: Word, j: nat,
                                inputs: seq<Word>, x: Word, y: Word)
    requires |seed| > 0 && |state| == |mask| && Widths(mask, seed, inputs) && PreservesWidth(perm, |mask|)
    requires |x| == |y| == |mask| && And(x, mask) != And(y, mask)
    requires forall v: Word, w: Word :: perm(v) == perm(w) ==> v == w
    ensures Widths(mask, seed, inputs + [x]) && Widths(mask, seed, inputs + [y])
    ensures RefreshState(perm, mask, seed, state, j, inputs + [x]) != RefreshState(perm, mask, seed, state, j, inputs + [y])
  {
    assert (inputs + [x])[..|inputs|] == inputs && (inputs + [y])[..|inputs|] == inputs;
    var before := RefreshState(perm, mask, seed, state, j, inputs);
    var sd := seed[(j + |inputs|) % |seed|];
    var i :| 0 <= i < |mask| && And(x, mask)[i] != And(y, mask)[i];
    assert Xor(before, And(Xor(x, sd), mask))[i] != Xor(before, And(Xor(y, sd), mask))[i];
  }

  /** `t - 1` permute-then-clear-rate steps (none for `t <= 1`). */
  function Truncate(perm: Word -> Word, mask: Word, state: Word, m: nat): (s: Word)
    requires |state| == |mask| && PreservesWidth(perm, |mask|)
    ensures |s| == |mask|
  {
    if m == 0 then state else And(perm(Truncate(perm, mask, state, m - 1)), Not(mask))
  }

  /** `next()`: the new state and the output `perm(state) & mask`. */
  function NextSpec(perm: Word -> Word, mask: Word, state: Word, t: nat): (Word, Word)
    requires |state| == |mask| && PreservesWidth(perm, |mask|)
  {
    var first := perm(state);
    (Truncate(perm, mask, first, if t >= 1 then t - 1 else 0), And(first, mask))
  }

  /**
   * The output of `next` has no bit outside the rate; for `t >= 2` the state
   * it leaves has a zero rate, and for `t <= 1` it is the permuted state.
   */
  lemma NextBits(perm: Word -> Word, state: Word, r: nat, t: nat)
    requires r < |state| && PreservesWidth(perm, |state|)
    ensures var next := NextSpec(perm, LowMask(|state|, r), state, t);
            && And(next.1, Not(LowMask(|state|, r))) == Zero(|state|)
            && next.1[..r] == perm(state)[..r]
            && (t >= 2 ==> And(next.0, LowMask(|state|, r)) == Zero(|state|))
            && (t <= 1 ==> next.0 == perm(state))
  {
    var mask := LowMask(|state|, r);
    if t >= 2 {
      var m := t - 1;
      var before := Truncate(perm, mask, perm(state), m - 1);
      assert NextSpec(perm, mask, state, t).0 == And(perm(before), Not(mask));
    }
  }

  class Sprng {
    /** Width in bits of the Rust integer type `U`. */
    const width: nat
    const r: nat
    const t: nat
    const s: nat
    var j: nat
    const mask: Word
    const perm: Word -> Word
    const seed: seq<Word>
    var state: Word

    ghost predicate Valid()
      reads this
    {
      && r < width && s > 1 && mask == LowMask(width, r)
      && |seed| == s
      && (forall i :: 0 <= i < s ==> |seed[i]| == width && And(seed[i], Not(mask)) == Zero(width))
      && j < s
      && PreservesWidth(perm, width)
      && |state| == width
    }

    /**
     * `new(params, func)`: panics unless there are exactly four parameters
     * `(n, r, t, s)` with `r <= n` and `s > 1`; the seed words are the draws
     * masked to the rate; the state has a zero rate and a random capacity;
     * `j` starts at 1.
     */
    constructor (width: nat, params: seq<nat>, func: Word -> Word, seedDraws: seq<Word>, capacityDraw: Word)
      requires |params| == 4 && params[1] <= params[0] && params[3] > 1
      requires params[1] < width && PreservesWidth(func, width)
      requires |seedDraws| == params[3] && (forall i :: 0 <= i < |seedDraws| ==> |seedDraws[i]| == width)
      requires |capacityDraw| == width
      ensures Valid()
      ensures this.width == width && r == params[1] && t == params[2] && s == params[3] && perm == func
      ensures seed == seq(s, i requires 0 <= i < s => And(seedDraws[i], mask))
      ensures state == And(capacityDraw, Not(mask)) && j == 1
    {
      var r, t, s := params[1], params[2], params[3];
      var mask := LowMask(width, r);
      var seedVec: seq<Word> := [];
      for i := 0 to s
        invariant |seedVec| == i
        invariant forall m :: 0 <= m < i ==> seedVec[m] == And(seedDraws[m], mask)
      {
        seedVec := seedVec + [And(seedDraws[i], mask)];
      }
      var st := Zero(width);
      st := Or(st, And(capacityDraw, Not(mask)));
      this.width := width;
      this.r, this.t, this.s := r, t, s;
      this.j := 1;
      this.mask := mask;
      this.perm := func;
      this.seed := seedVec;
      this.state := st;
    }

    /**
     * `refresh(inputs)`: panics on an empty list; absorbs every input in
     * order and advances `j` by one (mod `s`) per input.
     */
    method Refresh(inputs: seq<Word>)
      requires Valid() && |inputs| > 0 && Widths(mask, seed, inputs)
      modifies this
      ensures Valid()
      ensures state == RefreshState(perm, mask, seed, old(state), old(j), inputs)
      ensures j == (old(j) + |inputs|) % s
    {
      var l := |inputs|;
      ghost var j0, state0 := j, state;
      DivModSmall(j, s);
      for i := 0 to l
        invariant |state| == width && j < s
        invariant Widths(mask, seed, inputs[..i])
        invariant state == RefreshState(perm, mask, seed, state0, j0, inputs[..i])
        invariant j == (j0 + i) % s
      {
        RefreshStateStep(perm, mask, seed, state0, j0, inputs, i, state, j);
        state := perm(Xor(state, And(Xor(inputs[i], seed[j]), mask)));
        j := (j + 1) % s;
      }
      assert inputs[..l] == inputs;
    }

    /**
     * `next()`: permutes, outputs the rate, performs `t - 1` more
     * permutations each followed by clearing the rate, and resets `j` to 1.
     */
    method Next() returns (output: Word)
      requires Valid()
      modifies this
      ensures Valid()
      ensures (state, output) == NextSpec(perm, mask, old(state), t) && j == 1
    {
      state := perm(state);
      output := And(state, mask);
      var i := 1;
      while i < t
        invariant 1 <= i <= if t >= 1 then t else 1
        invariant Valid()
        invariant state == Truncate(perm, mask, perm(old(state)), i - 1)
      {
        state := perm(state);
        state := And(state, Not(mask));
        i := i + 1;
      }
      assert i - 1 == if t >= 1 then t - 1 else 0;
      j := 1;
    }
  }
}
