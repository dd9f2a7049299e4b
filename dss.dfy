/**
 * The DSS stream cipher (`src/stream/dss.rs`): Asakey's key and nonce
 * absorption, followed by two branches "up" and "down" that differ only in
 * the domain bit `b - 1` (0 above, 1 below). Each squeeze permutes both
 * branches, outputs the rate of the permuted down branch, and mixes the
 * permuted up branch's rate with the XOR of both capacities into the next
 * shared value.
 */
module Dss {
  import opened Bits
  import opened Words
  import opened Outcomes
  import opened StreamCommon

  /** The up branch and the down branch. */
  type Branches = (Word, Word)

  /** `(s & !dmask, s | dmask)`: the up branch and the down branch of a shared value. */
  function DomainSplit(s: Word, dmask: Word): Branches
    requires |s| == |dmask|
  {
    (And(s, Not(dmask)), Or(s, dmask))
  }

  /**
   * With `dmask` the single bit `b - 1`, the up branch has domain bit 0, the
   * down branch has it 1, both equal the shared value everywhere else, and
   * so their XOR is `dmask`.
   */
  lemma DomainSplitInvariant(s: Word, b: nat)
    requires 0 < b <= |s|
    ensures var branches := DomainSplit(s, SingleBit(|s|, b - 1));
            && Xor(branches.0, branches.1) == SingleBit(|s|, b - 1)
            && !branches.0[b - 1] && branches.1[b - 1]
            && forall i :: 0 <= i < |s| && i != b - 1 ==> branches.0[i] == s[i] && branches.1[i] == s[i]
  {
  }

  /** `(pd & !rmask) ^ (pu & !rmask)` ORed with `pu & rmask`: the next shared value. */
  function Mix(pu: Word, pd: Word, rmask: Word): (mixed: Word)
    requires |pu| == |pd| == |rmask|
    ensures |mixed| == |pu|
  {
    Or(And(pu, rmask), Xor(And(pd, Not(rmask)), And(pu, Not(rmask))))
  }

  /**
   * The next shared value takes its rate from the permuted up branch and its
   * capacity from the XOR of both permuted branches:
   * `(P(up) & rmask) | ((P(up) ^ P(down)) & !rmask)`.
   */
  lemma MixBits(pu: Word, pd: Word, r: nat)
    requires |pu| == |pd| && r < |pu|
    ensures Mix(pu, pd, LowMask(|pu|, r)) == Or(And(pu, LowMask(|pu|, r)), And(Xor(pu, pd), Not(LowMask(|pu|, r))))
    ensures forall i :: 0 <= i < |pu| ==> Mix(pu, pd, LowMask(|pu|, r))[i] == if i < r then pu[i] else pu[i] != pd[i]
  {
  }

  /** The branches after one squeeze of `(up, down)`: both are permuted before either is written. */
  function NextBranches(perm: Word -> Word, rmask: Word, dmask: Word, up: Word, down: Word): Branches
    requires |up| == |down| == |rmask| == |dmask| && PreservesWidth(perm, |up|)
  {
    DomainSplit(Mix(perm(up), perm(down), rmask), dmask)
  }

  /**
   * One DSS squeeze on the pair of branches, returning the permuted down
   * branch as the block. (Pairs of other widths are never reached; they are
   * left as they are so that the step is total.)
   */
  function SqueezeStep(perm: Word -> Word, rmask: Word, dmask: Word, st: Branches): (Branches, Word)
  {
    var pu := perm(st.0);
    var pd := perm(st.1);
    if |pu| == |pd| == |rmask| == |dmask| then (DomainSplit(Mix(pu, pd, rmask), dmask), pd) else (st, pd)
  }

  /** `SqueezeStep` as the step function of the keystream. */
  function Squeeze(perm: Word -> Word, rmask: Word, dmask: Word): Branches -> (Branches, Word)
  {
    st => SqueezeStep(perm, rmask, dmask, st)
  }

  /** A squeeze from branches of the word width is `NextBranches` with the permuted down branch as block. */
  lemma SqueezeIsNextBranches(perm: Word -> Word, rmask: Word, dmask: Word, up: Word, down: Word)
    requires |up| == |down| == |rmask| == |dmask| && PreservesWidth(perm, |up|)
    ensures Squeeze(perm, rmask, dmask)((up, down)) == (NextBranches(perm, rmask, dmask, up, down), perm(down))
  {
  }

  /** `Collected` for the DSS squeeze: the loop invariant of `next_p_bytes`. */
  ghost predicate Squeezed(perm: Word -> Word, rmask: Word, dmask: Word, s0: Branches, st: Branches, r: nat, pBits: nat, bits: seq<bool>)
    requires r > 0 || pBits == 0
  {
    Collected(Squeeze(perm, rmask, dmask), s0, st, r, pBits, bits)
  }

  /** One round of `next_p_bytes`: a `next` and the rate bits it collects keep `Squeezed`. */
  lemma NextCollects(perm: Word -> Word, rmask: Word, dmask: Word, s0: Branches, up: Word, down: Word,
                     r: nat, pBits: nat, earlier: seq<bool>, bits: seq<bool>)
    requires |up| == |down| == |rmask| == |dmask| && |up| % 8 == 0 && 0 < r < |up| && PreservesWidth(perm, |up|)
    requires |earlier| < pBits && Squeezed(perm, rmask, dmask, s0, (up, down), r, pBits, earlier)
    requires bits == earlier + UnpackBits(BlockBytes(perm(down), r))[..Min(r, pBits - |earlier|)]
    ensures |earlier| < |bits|
    ensures Squeezed(perm, rmask, dmask, s0, NextBranches(perm, rmask, dmask, up, down), r, pBits, bits)
  {
    SqueezeIsNextBranches(perm, rmask, dmask, up, down);
    CollectedStep(Squeeze(perm, rmask, dmask), s0, (up, down), r, pBits, earlier, bits);
  }

  /** The keystream bit `i` of DSS is rate bit `i % r` of the permuted down branch of squeeze `i / r + 1`. */
  lemma KeystreamBit(perm: Word -> Word, rmask: Word, dmask: Word, st: Branches, r: nat, n: nat, i: nat)
    requires PreservesWidth(perm, |st.1|) && 0 < r < |st.1| && i < n
    ensures var down := Iterate(Squeeze(perm, rmask, dmask), st, i / r).1;
            StreamBits(Squeeze(perm, rmask, dmask), st, r, n)[i] == (i % r < |perm(down)| && perm(down)[i % r])
  {
    StreamBitsAt(Squeeze(perm, rmask, dmask), st, r, n, i);
  }

  /** The branches after `init`: Asakey's initial state, split on the domain bit. */
  function InitBranches(perm: Word -> Word, key: Word, nonce: Word, b: nat, r: nat, k: nat): Branches
    requires |key| == |nonce| && k < b && b <= |key| && r < |key| && b - k < |key|
    requires PreservesWidth(perm, |key|)
  {
    DomainSplit(InitState(perm, key, nonce, b, r, k), SingleBit(|key|, b - 1))
  }

  /** `encrypt(key, nonce, m)`: `m` XORed with as many DSS keystream bytes as it has. */
  function EncryptSpec(perm: Word -> Word, key: Word, nonce: Word, b: nat, r: nat, k: nat, m: seq<bv8>): seq<bv8>
    requires |key| == |nonce| && k < b && b <= |key| && r < |key| && b - k < |key|
    requires PreservesWidth(perm, |key|)
    requires r > 0 || |m| == 0
  {
    var width := |key|;
    var step := Squeeze(perm, LowMask(width, r), SingleBit(width, b - 1));
    Encipher(m, KeystreamBytes(step, InitBranches(perm, key, nonce, b, r, k), r, |m|))
  }

  /** A DSS ciphertext is as long as its plaintext, and encrypting it again gives the plaintext back. */
  lemma EncryptInvolution(perm: Word -> Word, key: Word, nonce: Word, b: nat, r: nat, k: nat, m: seq<bv8>)
    requires |key| == |nonce| && k < b && b <= |key| && r < |key| && b - k < |key|
    requires PreservesWidth(perm, |key|)
    requires r > 0 || |m| == 0
    ensures |EncryptSpec(perm, key, nonce, b, r, k, m)| == |m|
    ensures EncryptSpec(perm, key, nonce, b, r, k, EncryptSpec(perm, key, nonce, b, r, k, m)) == m
  {
    var width := |key|;
    var step := Squeeze(perm, LowMask(width, r), SingleBit(width, b - 1));
    EncipherInvolution(m, KeystreamBytes(step, InitBranches(perm, key, nonce, b, r, k), r, |m|));
  }

  class Dss {
    /** Width in bits of the Rust integer type `U`. */
    const width: nat
    const b: nat
    const r: nat
    const c: nat
    const k: nat
    const kmask: Word
    const rmask: Word
    const dmask: Word
    const perm: Word -> Word
    var key: Option<Word>
    var stateUp: Option<Word>
    var stateDown: Option<Word>

    ghost predicate Valid()
      reads this
    {
      && k < b && r < b && c == b - r
      && k < width && r < width && b <= width && width % 8 == 0
      && kmask == LowMask(width, k) && rmask == LowMask(width, r) && dmask == SingleBit(width, b - 1)
      && PreservesWidth(perm, width)
      && (key.Some? ==> |key.value| == width && key.value != Zero(width))
      && (stateUp.Some? <==> stateDown.Some?)
      && (stateUp.Some? ==> BranchesValid(stateUp.value, stateDown.value))
    }

    /** The two branches differ exactly in the domain bit, which is 0 above and 1 below. */
    ghost predicate BranchesValid(up: Word, down: Word)
      reads this
      requires b <= width && 0 < b
    {
      && |up| == |down| == width
      && Xor(up, down) == SingleBit(width, b - 1)
      && !up[b - 1] && down[b - 1]
    }

    /**
     * `new(params, perm)`: panics unless `k < b` and `r < b`; `kmask` and
     * `rmask` are the low `k` and `r` bits and `dmask` is the single bit
     * `b - 1`, which lies above the rate; no key and no state.
     */
    constructor (width: nat, params: seq<nat>, perm: Word -> Word)
      requires |params| >= 3
      requires params[0] > params[2] && params[0] > params[1]
      requires params[2] < width && params[1] < width && params[0] <= width && width % 8 == 0
      requires PreservesWidth(perm, width)
      ensures Valid()
      ensures this.width == width && b == params[0] && r == params[1] && k == params[2]
      ensures this.perm == perm && c == b - r && r <= b - 1
      ensures key.None? && stateUp.None? && stateDown.None?
    {
      var b, r, k := params[0], params[1], params[2];
      this.width := width;
      this.b, this.r, this.c, this.k := b, r, b - r, k;
      this.kmask := LowMask(width, k);
      this.rmask := LowMask(width, r);
      this.dmask := SingleBit(width, b - 1);
      this.perm := perm;
      key, stateUp, stateDown := None, None, None;
    }

    /** `rekey(key)`: panics on a zero key; stores it and discards both branches. */
    method Rekey(newKey: Word)
      requires Valid() && |newKey| == width && newKey != Zero(width)
      modifies this
      ensures Valid()
      ensures key == Some(newKey) && stateUp.None? && stateDown.None?
    {
      key := Some(newKey);
      stateUp := None;
      stateDown := None;
    }

    /**
     * `init(nonce)`: panics on a zero nonce; without a key it fails and
     * changes nothing; otherwise Asakey's absorption, split into the two
     * branches on the domain bit.
     */
    method Init(nonce: Word) returns (res: Result<()>)
      requires Valid() && |nonce| == width && nonce != Zero(width)
      requires key.Some? ==> b - k < width
      modifies this
      ensures Valid() && key == old(key)
      ensures old(key).None? ==> res == Err(KeyNotSet) && stateUp == old(stateUp) && stateDown == old(stateDown)
      ensures old(key).Some? ==>
                && res == Ok(())
                && stateUp == Some(InitBranches(perm, key.value, nonce, b, r, k).0)
                && stateDown == Some(InitBranches(perm, key.value, nonce, b, r, k).1)
    {
      if key.None? {
        return Err(KeyNotSet);
      }
      var s := Shl(And(key.value, kmask), b - k);
      s := perm(s);
      for i := 0 to k
        invariant key == old(key) && stateUp == old(stateUp) && stateDown == old(stateDown)
        invariant s == Absorb(perm, perm(KeyedStart(key.value, k, b)), nonce, i)
      {
        var bit := And(Shr(nonce, i), SingleBit(width, 0));
        ShrAndOne(nonce, i);
        s := Xor(s, bit);
        s := perm(s);
      }
      s := Or(And(nonce, kmask), And(s, Not(rmask)));
      DomainSplitInvariant(s, b);
      stateUp := Some(And(s, Not(dmask)));
      stateDown := Some(Or(s, dmask));
      res := Ok(());
    }

    /**
     * `next()`: fails without a state; otherwise permutes both branches,
     * returns the bytes holding the rate of the permuted down branch and
     * stores the mixed value split on the domain bit.
     */
    method Next() returns (res: Result<seq<bv8>>)
      requires Valid()
      modifies this
      ensures Valid() && key == old(key)
      ensures old(stateUp).None? ==> res == Err(NotInitialized) && stateUp == old(stateUp) && stateDown == old(stateDown)
      ensures old(stateUp).Some? ==>
                var branches := NextBranches(perm, rmask, dmask, old(stateUp).value, old(stateDown).value);
                && stateUp == Some(branches.0) && stateDown == Some(branches.1)
                && res == Ok(BlockBytes(perm(old(stateDown).value), r))
    {
      if stateUp.None? {
        return Err(NotInitialized);
      }
      var up := perm(stateUp.value);
      var down := perm(stateDown.value);
      var subKey := And(up, rmask);
      var rBits := (r + 7) / 8;
      var output := And(down, rmask);
      var mixedC := Xor(And(down, Not(rmask)), And(up, Not(rmask)));
      var mixedState := Or(subKey, mixedC);
      DomainSplitInvariant(mixedState, b);
      stateUp := Some(And(mixedState, Not(dmask)));
      stateDown := Some(Or(mixedState, dmask));
      res := Ok(PackBytes(output)[..rBits]);
    }

    /**
     * `next_p_bytes(p)`: fails without a state; otherwise squeezes blocks
     * until exactly `8p` bits are collected and packs them into `p` bytes.
     * With `r == 0` and `p > 0` the source never returns.
     */
    method NextPBytes(p: nat) returns (res: Result<seq<bv8>>)
      requires Valid() && (stateUp.Some? ==> r > 0 || p == 0)
      modifies this
      ensures Valid() && key == old(key)
      ensures old(stateUp).None? ==> res == Err(NotInitialized) && stateUp == old(stateUp) && stateDown == old(stateDown)
      ensures old(stateUp).Some? ==>
                var st := (old(stateUp).value, old(stateDown).value);
                && res == Ok(KeystreamBytes(Squeeze(perm, rmask, dmask), st, r, p))
                && stateUp.Some? && stateDown.Some?
                && (stateUp.value, stateDown.value) == StreamEnd(Squeeze(perm, rmask, dmask), st, r, 8 * p)
    {
      if stateUp.None? {
        return Err(NotInitialized);
      }
      ghost var s0 := (stateUp.value, stateDown.value);
      var keystreamBits: seq<bool> := [];
      var pBits := p * 8;
      var collectedBits := 0;
      while |keystreamBits| < pBits
        invariant Valid() && key == old(key) && stateUp.Some?
        invariant collectedBits == |keystreamBits|
        invariant Squeezed(perm, rmask, dmask, s0, (stateUp.value, stateDown.value), r, pBits, keystreamBits)
        decreases pBits - |keystreamBits|
      {
        ghost var up, down := stateUp.value, stateDown.value;
        ghost var earlier := keystreamBits;
        var out := Next();
        assert out.Ok?;
        var output := out.value;
        assert r <= 8 * |output| by {
          DivMod(r + 7, 8);
        }
        keystreamBits, collectedBits := CollectBlock(keystreamBits, collectedBits, output, r, pBits);
        NextCollects(perm, rmask, dmask, s0, up, down, r, pBits, earlier, keystreamBits);
      }
      assert keystreamBits == StreamBits(Squeeze(perm, rmask, dmask), s0, r, 8 * p);
      res := Ok(PackBytes(keystreamBits));
    }

    /**
     * `encrypt(key, nonce, m)`: rekeys, initialises and XORs `m` with `|m|`
     * keystream bytes. The result depends on key, nonce and message only.
     */
    method Encrypt(newKey: Word, nonce: Word, input: seq<bv8>) returns (res: Result<seq<bv8>>)
      requires Valid() && |newKey| == width && newKey != Zero(width)
      requires |nonce| == width && nonce != Zero(width) && b - k < width
      requires r > 0 || |input| == 0
      modifies this
      ensures Valid() && key == Some(newKey)
      ensures res == Ok(EncryptSpec(perm, newKey, nonce, b, r, k, input))
      ensures stateUp.Some? && stateDown.Some?
      ensures (stateUp.value, stateDown.value) ==
              StreamEnd(Squeeze(perm, rmask, dmask), InitBranches(perm, newKey, nonce, b, r, k), r, 8 * |input|)
    {
      Rekey(newKey);
      var initialised := Init(nonce);
      assert initialised.Ok?;
      var p := |input|;
      var keystream := NextPBytes(p);
      assert keystream.Ok?;
      var ciphertext := XorBytes(input, keystream.value);
      res := Ok(ciphertext);
    }
  }
}
