/**
 * `SPRG` of `src/prng/gt2016.rs`, the older copy of the Gazi–Tessaro
 * sponge PRNG. `next` is the same as `SPRNG::next`; `refresh` runs its loop
 * over `1..l` and absorbs `inputs[0..l-1]` only, so the last input is never
 * absorbed and a list of at most one input changes nothing. `setup` does
 * not check the seed length, so the seed index is in bounds only when the
 * caller keeps `s >= 2`.
 *
 * The random seed and capacity draws of `setup` are parameters.
 */
module Gt2016 {
  import opened Bits
  import opened Words
  import opened Sprng

  /** The state `refresh(inputs)` leaves, as written: every input but the last is absorbed. */
  function RefreshAsWritten(perm: Word -> Word, mask: Word, seed: seq<Word>, state: Word, j: nat, inputs: seq<Word>): (s: Word)
    requires |state| == |mask| && Widths(mask, seed, inputs) && PreservesWidth(perm, |mask|)
    requires |inputs| <= 1 || |seed| > 0
    ensures |s| == |mask|
  {
    if |inputs| <= 1 then state
    else
      assert Widths(mask, seed, inputs[..|inputs| - 1]);
      RefreshState(perm, mask, seed, state, j, inputs[..|inputs| - 1])
  }

  /**
   * The last input makes no difference: two input lists that agree on all
   * but their last element leave the same state, however the last elements
   * differ. (`SPRNG::refresh` separates them: `Sprng.RefreshAbsorbsLastInput`.)
   */
  lemma RefreshIgnoresLastInput(perm: Word -> Word, mask: Word, seed: seq<Word>, state: Word, j: nat,
                                inputs: seq<Word>, x: Word, y: Word)
    requires |seed| > 0 && |state| == |mask| && Widths(mask, seed, inputs) && PreservesWidth(perm, |mask|)
    requires |x| == |y| == |mask|
    ensures Widths(mask, seed, inputs + [x]) && Widths(mask, seed, inputs + [y])
    ensures RefreshAsWritten(perm, mask, seed, state, j, inputs + [x])
            == RefreshAsWritten(perm, mask, seed, state, j, inputs + [y])
  {
    assert (inputs + [x])[..|inputs|] == inputs && (inputs + [y])[..|inputs|] == inputs;
  }

  /**
   * A concrete case: with an injective permutation and inputs `[a, x]`
   * against `[a, y]`, where `x` and `y` differ in the rate, `SPRG` ends in
   * the same state for both and `SPRNG` in different ones.
   */
  lemma RefreshLastInputExample(perm: Word -> Word, mask: Word, seed: seq<Word>, state: Word, j: nat, a: Word, x: Word, y: Word)
    requires |seed| > 0 && (forall i :: 0 <= i < |seed| ==> |seed[i]| == |mask|) && PreservesWidth(perm, |mask|)
    requires |state| == |a| == |x| == |y| == |mask| && And(x, mask) != And(y, mask)
    requires forall v: Word, w: Word :: perm(v) == perm(w) ==> v == w
    ensures Widths(mask, seed, [a, x]) && Widths(mask, seed, [a, y])
    ensures RefreshAsWritten(perm, mask, seed, state, j, [a, x]) == RefreshAsWritten(perm, mask, seed, state, j, [a, y])
    ensures RefreshState(perm, mask, seed, state, j, [a, x]) != RefreshState(perm, mask, seed, state, j, [a, y])
  {
    assert [a] + [x] == [a, x] && [a] + [y] == [a, y];
    RefreshIgnoresLastInput(perm, mask, seed, state, j, [a], x, y);
    RefreshAbsorbsLastInput(perm, mask, seed, state, j, [a], x, y);
  }

  class Sprg {
    /** Width in bits of the Rust integer type `U`. */
    const width: nat
    const r: nat
    const t: nat
    const s: nat
    var j: nat
    const mask: Word
    const perm: Word -> Word
    const seed: seq<Word>
    var state: Word

    ghost predicate Valid()
      reads this
    {
      && 0 < r < width && mask == LowMask(width, r)
      && |seed| == s
      && (forall i :: 0 <= i < s ==> |seed[i]| == width && And(seed[i], Not(mask)) == Zero(width))
      && (j == 1 || j < s)
      && PreservesWidth(perm, width)
      && |state| == width
    }

    /** `get_params()`: `[t, s]`. */
    function GetParams(): (params: seq<nat>)
      reads this
      ensures |params| == 2 && params == [t, s]
    {
      [t, s]
    }

    /** `get_seed()`: the seed words, each masked to the rate. */
    function GetSeed(): (words: seq<Word>)
      reads this
      requires Valid()
      ensures |words| == s
      ensures forall i :: 0 <= i < s ==> |words[i]| == width && And(words[i], Not(LowMask(width, r))) == Zero(width)
    {
      seed
    }

    /** `get_mask()`: the rate mask, the low `r` bits. */
    function GetMask(): (m: Word)
      reads this
      requires Valid()
      ensures m == LowMask(width, r)
    {
      mask
    }

    /**
     * `setup(params, func)`: panics unless `0 < r <= n`; `s` is not checked;
     * the seed words are the draws masked to the rate; the state has a zero
     * rate and a random capacity; `j` starts at 1.
     */
    constructor (width: nat, params: seq<nat>, func: Word -> Word, seedDraws: seq<Word>, capacityDraw: Word)
      requires |params| >= 4 && 0 < params[1] <= params[0]
      requires params[1] < width && PreservesWidth(func, width)
      requires |seedDraws| == params[3] && (forall i :: 0 <= i < |seedDraws| ==> |seedDraws[i]| == width)
      requires |capacityDraw| == width
      ensures Valid()
      ensures this.width == width && r == params[1] && t == params[2] && s == params[3] && perm == func
      ensures seed == seq(s, i requires 0 <= i < s => And(seedDraws[i], mask))
      ensures state == And(capacityDraw, Not(mask)) && j == 1
    {
      var r, t, s := params[1], params[2], params[3];
      var mask := LowMask(width, r);
      var seedVec: seq<Word> := [];
      for i := 0 to s
        invariant |seedVec| == i
        invariant forall m :: 0 <= m < i ==> seedVec[m] == And(seedDraws[m], mask)
      {
        seedVec := seedVec + [And(seedDraws[i], mask)];
      }
      var st := Zero(width);
      st := Or(st, And(capacityDraw, Not(mask)));
      this.width := width;
      this.r, this.t, this.s := r, t, s;
      this.j := 1;
      this.mask := mask;
      this.perm := func;
      this.seed := seedVec;
      this.state := st;
    }

    /**
     * `refresh(inputs)`: for `i` in `1..l` absorbs `inputs[i - 1]` with seed
     * word `j` and advances `j` modulo `s`. Indexing the seed at `j` panics
     * unless `j < s`, which the caller must ensure whenever `l >= 2`.
     */
    method Refresh(inputs: seq<Word>)
      requires Valid() && Widths(mask, seed, inputs)
      requires |inputs| <= 1 || j < s
      modifies this
      ensures Valid()
      ensures state == RefreshAsWritten(perm, mask, seed, old(state), old(j), inputs)
      ensures j == if |inputs| <= 1 then old(j) else (old(j) + |inputs| - 1) % s
    {
      var l := |inputs|;
      if l <= 1 {
        return;
      }
      var st, jj := state, j;
      DivModSmall(jj, s);
      // `n` is the source's `i - 1`, for `i` in `1..l`.
      for n := 0 to l - 1
        invariant |st| == width && jj < s
        invariant Widths(mask, seed, inputs[..n])
        invariant st == RefreshState(perm, mask, seed, old(state), old(j), inputs[..n])
        invariant jj == (old(j) + n) % s
      {
        RefreshStateStep(perm, mask, seed, old(state), old(j), inputs, n, st, jj);
        st := perm(Xor(st, And(Xor(inputs[n], seed[jj]), mask)));
        jj := (jj + 1) % s;
      }
      state, j := st, jj;
    }

    /** `next()`: the same as `SPRNG::next`. */
    method Next() returns (output: Word)
      requires Valid()
      modifies this
      ensures Valid()
      ensures (state, output) == NextSpec(perm, mask, old(state), t) && j == 1
    {
      state := perm(state);
      output := And(state, mask);
      var i := 1;
      while i < t
        invariant 1 <= i <= if t >= 1 then t else 1
        invariant |state| == width
        invariant state == Truncate(perm, mask, perm(old(state)), i - 1)
      {
        state := perm(state);
        state := And(state, Not(mask));
        i := i + 1;
      }
      assert i - 1 == if t >= 1 then t - 1 else 0;
      j := 1;
    }
  }
}
