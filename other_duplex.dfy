/**
 * `Duplex` of `src/other/duplex.rs`: the keyed duplex with `new`, `reset`
 * and `duplex`. The random key draws of `new` and the IV draw of `reset`
 * are parameters.
 */
module OtherDuplex {
  import opened Words
  import opened DuplexCore

  class Duplex {
    /** Width in bits of the Rust integer type `U`. */
    const width: nat
    const b: nat
    const r: nat
    const k: nat
    const u: nat
    const alpha: nat
    const perm: Word -> Word
    const keys: seq<Word>
    const kmask: Word
    const mask: Word
    var state: Word

    ghost predicate Valid()
      reads this
    {
      && 0 < r <= b && 0 < k <= b && 0 < u
      && r < width && k < width
      && mask == LowMask(width, r) && kmask == LowMask(width, k)
      && |keys| == u
      && (forall i :: 0 <= i < u ==> |keys[i]| == width && And(keys[i], Not(kmask)) == Zero(width))
      && PreservesWidth(perm, width)
      && |state| == width
    }

    /**
     * `new(params, func)`: panics unless `0 < r <= b`, `0 < k <= b` and
     * `u > 0`; keeps the `u` key draws masked to their low `k` bits; the
     * state is zero.
     */
    constructor (width: nat, params: seq<nat>, func: Word -> Word, keyDraws: seq<Word>)
      requires |params| >= 5
      requires 0 < params[1] <= params[0] && 0 < params[2] <= params[0] && 0 < params[3]
      requires params[1] < width && params[2] < width
      requires PreservesWidth(func, width)
      requires |keyDraws| == params[3] && forall i :: 0 <= i < |keyDraws| ==> |keyDraws[i]| == width
      ensures Valid()
      ensures this.width == width && b == params[0] && r == params[1] && k == params[2]
      ensures u == params[3] && alpha == params[4] && perm == func
      ensures keys == MaskKeys(keyDraws, LowMask(width, params[2]))
      ensures state == Zero(width)
    {
      var b, r, k := params[0], params[1], params[2];
      var u := params[3];
      var mask := LowMask(width, r);
      var kmask := LowMask(width, k);
      var keys: seq<Word> := [];
      for i := 0 to u
        invariant keys == MaskKeys(keyDraws[..i], kmask)
      {
        keys := keys + [And(keyDraws[i], kmask)];
      }
      assert keyDraws[..u] == keyDraws;
      forall i | 0 <= i < u
        ensures And(keys[i], Not(kmask)) == Zero(width)
      {
        MaskKeysBelowK(keyDraws, k, width, i);
      }
      this.width := width;
      this.b, this.r, this.k, this.u := b, r, k, u;
      this.alpha := params[4];
      this.perm := func;
      this.keys := keys;
      this.kmask, this.mask := kmask, mask;
      this.state := Zero(width);
    }

    /**
     * `reset(delta)`: the state becomes key `delta mod u` ORed with the IV,
     * rotated by `alpha` and permuted, whatever it was before.
     */
    method Reset(delta: nat, ivDraw: Word)
      requires Valid() && |ivDraw| == width
      modifies this
      ensures Valid()
      ensures state == ResetState(perm, keys, delta, ivDraw, kmask, alpha)
    {
      var initializationVector := And(ivDraw, Not(kmask));
      state := Rotl(Or(keys[delta % u], initializationVector), alpha);
      state := perm(state);
    }

    /**
     * `duplex(flag, input)`: returns the rate of the state before the call;
     * clears the rate first when `flag` is set; XORs `input` in and permutes.
     */
    method Duplex(flag: bool, input: Word) returns (output: Word)
      requires Valid() && |input| == width
      modifies this
      ensures Valid()
      ensures (state, output) == DuplexStep(perm, old(state), mask, flag, input)
    {
      output := And(state, mask);
      if flag {
        state := And(state, Not(mask));
      }
      state := perm(Xor(state, input));
    }
  }
}
