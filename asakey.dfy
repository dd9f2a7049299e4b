/**
 * The Asakey stream cipher (`src/stream/asakey.rs`): a keyed sponge whose
 * state is an optional key and an optional permutation state. `rekey` stores
 * a key, `init` absorbs a nonce bit by bit, `next` permutes and squeezes the
 * low `r` bits, `next_p_bytes` collects exactly `8p` keystream bits from
 * successive blocks and `encrypt` XORs a message with them.
 */
module Asakey {
  import opened Bits
  import opened Words
  import opened Outcomes
  import opened StreamCommon

  /** One Asakey squeeze: the state is permuted, and the new state is the block. */
  function Squeeze(perm: Word -> Word): Word -> (Word, Word)
  {
    s => (perm(s), perm(s))
  }

  /** The `p` keystream bytes after `init(nonce)` under `key`. */
  function Keystream(perm: Word -> Word, key: Word, nonce: Word, b: nat, r: nat, k: nat, p: nat): (ks: seq<bv8>)
    requires |key| == |nonce| && k < b && k < |key| && r < |key| && b - k < |key|
    requires PreservesWidth(perm, |key|)
    requires r > 0 || p == 0
    ensures |ks| == p
  {
    KeystreamBytes(Squeeze(perm), InitState(perm, key, nonce, b, r, k), r, p)
  }

  /** `encrypt(key, nonce, m)`: `m` XORed with as many keystream bytes as it has. */
  function EncryptSpec(perm: Word -> Word, key: Word, nonce: Word, b: nat, r: nat, k: nat, m: seq<bv8>): seq<bv8>
    requires |key| == |nonce| && k < b && k < |key| && r < |key| && b - k < |key|
    requires PreservesWidth(perm, |key|)
    requires r > 0 || |m| == 0
  {
    Encipher(m, Keystream(perm, key, nonce, b, r, k, |m|))
  }

  /** A ciphertext is as long as its plaintext, and encrypting it again gives the plaintext back. */
  lemma EncryptInvolution(perm: Word -> Word, key: Word, nonce: Word, b: nat, r: nat, k: nat, m: seq<bv8>)
    requires |key| == |nonce| && k < b && k < |key| && r < |key| && b - k < |key|
    requires PreservesWidth(perm, |key|)
    requires r > 0 || |m| == 0
    ensures |EncryptSpec(perm, key, nonce, b, r, k, m)| == |m|
    ensures EncryptSpec(perm, key, nonce, b, r, k, EncryptSpec(perm, key, nonce, b, r, k, m)) == m
  {
    EncipherInvolution(m, Keystream(perm, key, nonce, b, r, k, |m|));
  }

  /** `i` applications of the permutation. */
  function PermPower(perm: Word -> Word, s: Word, i: nat): Word
  {
    if i == 0 then s else perm(PermPower(perm, s, i - 1))
  }

  /** `i` Asakey squeezes are `i` permutations. */
  lemma {:induction false} IterateSqueeze(perm: Word -> Word, s: Word, i: nat)
    ensures Iterate(Squeeze(perm), s, i) == PermPower(perm, s, i)
    decreases i
  {
    if i > 0 {
      IterateSqueeze(perm, perm(s), i - 1);
      PermPowerShift(perm, s, i - 1);
    }
  }

  lemma {:induction false} PermPowerShift(perm: Word -> Word, s: Word, i: nat)
    ensures PermPower(perm, perm(s), i) == PermPower(perm, s, i + 1)
  {
    if i > 0 {
      PermPowerShift(perm, s, i - 1);
    }
  }

  /**
   * Keystream bit `i` is rate bit `i % r` of the state after `i / r + 1`
   * permutations of the initialised state.
   */
  lemma KeystreamBit(perm: Word -> Word, s: Word, r: nat, n: nat, i: nat)
    requires PreservesWidth(perm, |s|) && 0 < r < |s| && i < n
    ensures |PermPower(perm, s, i / r + 1)| == |s| && i % r < r
    ensures StreamBits(Squeeze(perm), s, r, n)[i] == PermPower(perm, s, i / r + 1)[i % r]
  {
    var q := i / r;
    var block := PermPower(perm, s, q + 1);
    StreamBitsAt(Squeeze(perm), s, r, n, i);
    assert Squeeze(perm)(Iterate(Squeeze(perm), s, q)).1 == block by {
      IterateSqueeze(perm, s, q);
    }
    PermPowerWidth(perm, s, q + 1);
  }

  lemma {:induction false} PermPowerWidth(perm: Word -> Word, s: Word, i: nat)
    requires PreservesWidth(perm, |s|)
    ensures |PermPower(perm, s, i)| == |s|
  {
    if i > 0 {
      PermPowerWidth(perm, s, i - 1);
    }
  }

  /**
   * `next_p_bytes(p)` calls `next` `ceil(8p / r)` times, none when `p == 0`,
   * so the state it leaves is the initial one permuted that many times.
   */
  lemma SqueezeCount(perm: Word -> Word, s: Word, r: nat, p: nat)
    requires r > 0
    ensures StreamEnd(Squeeze(perm), s, r, 8 * p) == PermPower(perm, s, (8 * p + r - 1) / r)
  {
    StreamEndIterates(Squeeze(perm), s, r, 8 * p);
    BlocksIsCeiling(r, 8 * p);
    IterateSqueeze(perm, s, Blocks(r, 8 * p));
  }

  class Asakey {
    /** Width in bits of the Rust integer type `U`. */
    const width: nat
    const b: nat
    const r: nat
    const c: nat
    const k: nat
    const kmask: Word
    const rmask: Word
    const perm: Word -> Word
    var key: Option<Word>
    var state: Option<Word>

    ghost predicate Valid()
      reads this
    {
      && k < b && r < b && c == b - r
      && k < width && r < width && width % 8 == 0
      && kmask == LowMask(width, k) && rmask == LowMask(width, r)
      && PreservesWidth(perm, width)
      && (key.Some? ==> |key.value| == width && key.value != Zero(width))
      && (state.Some? ==> |state.value| == width)
    }

    /**
     * `new(params, perm)`: panics unless `k < b` and `r < b`; the masks are
     * the low `k` and the low `r` bits; no key and no state.
     */
    constructor (width: nat, params: seq<nat>, perm: Word -> Word)
      requires |params| >= 3
      requires params[0] > params[2] && params[0] > params[1]
      requires params[2] < width && params[1] < width && width % 8 == 0
      requires PreservesWidth(perm, width)
      ensures Valid()
      ensures this.width == width && b == params[0] && r == params[1] && k == params[2]
      ensures this.perm == perm && c == b - r
      ensures key.None? && state.None?
    {
      var b, r, k := params[0], params[1], params[2];
      this.width := width;
      this.b, this.r, this.c, this.k := b, r, b - r, k;
      this.kmask := LowMask(width, k);
      this.rmask := LowMask(width, r);
      this.perm := perm;
      key, state := None, None;
    }

    /** `rekey(key)`: panics on a zero key; stores it and discards the state. */
    method Rekey(newKey: Word)
      requires Valid() && |newKey| == width && newKey != Zero(width)
      modifies this
      ensures Valid()
      ensures key == Some(newKey) && state.None?
    {
      key := Some(newKey);
      state := None;
    }

    /**
     * `init(nonce)`: panics on a zero nonce; without a key it fails and
     * changes nothing; otherwise the state is `InitState` of key and nonce.
     */
    method Init(nonce: Word) returns (res: Result<()>)
      requires Valid() && |nonce| == width && nonce != Zero(width)
      requires key.Some? ==> b - k < width
      modifies this
      ensures Valid() && key == old(key)
      ensures old(key).None? ==> res == Err(KeyNotSet) && state == old(state)
      ensures old(key).Some? ==> res == Ok(()) && state == Some(InitState(perm, key.value, nonce, b, r, k))
    {
      if key.None? {
        return Err(KeyNotSet);
      }
      var s := Shl(And(key.value, kmask), b - k);
      s := perm(s);
      for i := 0 to k
        invariant key == old(key) && state == old(state)
        invariant s == Absorb(perm, perm(KeyedStart(key.value, k, b)), nonce, i)
      {
        var bit := And(Shr(nonce, i), SingleBit(width, 0));
        ShrAndOne(nonce, i);
        s := Xor(s, bit);
        s := perm(s);
      }
      s := Or(And(nonce, kmask), And(s, Not(rmask)));
      state := Some(s);
      res := Ok(());
    }

    /**
     * `next()`: fails without a state; otherwise permutes the state once and
     * returns the bytes holding its `r` rate bits.
     */
    method Next() returns (res: Result<seq<bv8>>)
      requires Valid()
      modifies this
      ensures Valid() && key == old(key)
      ensures old(state).None? ==> res == Err(NotInitialized) && state == old(state)
      ensures old(state).Some? ==>
                state == Some(perm(old(state).value)) && res == Ok(BlockBytes(state.value, r))
    {
      if state.None? {
        return Err(NotInitialized);
      }
      var s := perm(state.value);
      state := Some(s);
      var rBits := (r + 7) / 8;
      var outerPart := PackBytes(And(s, rmask));
      res := Ok(outerPart[..rBits]);
    }

    /**
     * `next_p_bytes(p)`: fails without a state; otherwise squeezes blocks
     * until exactly `8p` bits are collected and packs them into `p` bytes.
     * With `r == 0` and `p > 0` the source never returns.
     */
    method NextPBytes(p: nat) returns (res: Result<seq<bv8>>)
      requires Valid() && (state.Some? ==> r > 0 || p == 0)
      modifies this
      ensures Valid() && key == old(key)
      ensures old(state).None? ==> res == Err(NotInitialized) && state == old(state)
      ensures old(state).Some? ==>
                && res == Ok(KeystreamBytes(Squeeze(perm), old(state).value, r, p))
                && state == Some(StreamEnd(Squeeze(perm), old(state).value, r, 8 * p))
    {
      if state.None? {
        return Err(NotInitialized);
      }
      ghost var s0 := state.value;
      var keystreamBits: seq<bool> := [];
      var pBits := p * 8;
      var collectedBits := 0;
      while |keystreamBits| < pBits
        invariant Valid() && key == old(key) && state.Some?
        invariant collectedBits == |keystreamBits|
        invariant Collected(Squeeze(perm), s0, state.value, r, pBits, keystreamBits)
        decreases pBits - |keystreamBits|
      {
        ghost var before := state.value;
        ghost var earlier := keystreamBits;
        var out := Next();
        assert out.Ok?;
        var output := out.value;
        assert r <= 8 * |output| by {
          DivMod(r + 7, 8);
        }
        keystreamBits, collectedBits := CollectBlock(keystreamBits, collectedBits, output, r, pBits);
        CollectedStep(Squeeze(perm), s0, before, r, pBits, earlier, keystreamBits);
      }
      assert keystreamBits == StreamBits(Squeeze(perm), s0, r, 8 * p);
      res := Ok(PackBytes(keystreamBits));
    }

    /**
     * `encrypt(key, nonce, m)`: rekeys, initialises and XORs `m` with `|m|`
     * keystream bytes. The result depends on key, nonce and message only.
     */
    method Encrypt(newKey: Word, nonce: Word, input: seq<bv8>) returns (res: Result<seq<bv8>>)
      requires Valid() && |newKey| == width && newKey != Zero(width)
      requires |nonce| == width && nonce != Zero(width) && b - k < width
      requires r > 0 || |input| == 0
      modifies this
      ensures Valid() && key == Some(newKey)
      ensures res == Ok(EncryptSpec(perm, newKey, nonce, b, r, k, input))
      ensures state == Some(StreamEnd(Squeeze(perm), InitState(perm, newKey, nonce, b, r, k), r, 8 * |input|))
    {
      Rekey(newKey);
      var initialised := Init(nonce);
      assert initialised.Ok?;
      var p := |input|;
      var keystream := NextPBytes(p);
      assert keystream.Ok?;
      var ciphertext := XorBytes(input, keystream.value);
      res := Ok(ciphertext);
    }
  }
}
