/**
 * What the two stream ciphers (Asakey and DSS) share: the keyed start and
 * bit-by-bit nonce absorption of `init`, the layout of a squeezed block, the
 * collection of exactly `8p` keystream bits from successive blocks, and
 * encryption as XOR with that keystream.
 *
 * The squeezing is described once for any state type `S` by a step function
 * `step: S -> (S, Word)` returning the next state and the word whose low `r`
 * bits are the block; Asakey and DSS differ only in their step.
 */
module StreamCommon {
  import opened Bits
  import opened Words

  // ---------------------------------------------------------------------------
  // Key and nonce absorption (`init`)

  /** `(key & kmask) << (b - k)`: the low `k` key bits moved to the top `k` bits of `b`. */
  function KeyedStart(key: Word, k: nat, b: nat): Word
    requires k < b && k < |key| && b - k < |key|
  {
    Shl(And(key, LowMask(|key|, k)), b - k)
  }

  /**
   * The state after absorbing nonce bits `0, ..., i - 1`: each one is XORed
   * into bit 0 and followed by one permutation.
   */
  function Absorb(perm: Word -> Word, s: Word, nonce: Word, i: nat): (r: Word)
    requires |s| == |nonce| && i <= |nonce| && PreservesWidth(perm, |nonce|)
    ensures |r| == |nonce|
  {
    if i == 0 then s else perm(Xor(Absorb(perm, s, nonce, i - 1), BitAt(nonce, i - 1)))
  }

  /**
   * The state `init(nonce)` leaves: the keyed start, permuted once, with the
   * `k` nonce bits absorbed, then `(nonce & kmask) | (state & !rmask)`.
   */
  function InitState(perm: Word -> Word, key: Word, nonce: Word, b: nat, r: nat, k: nat): (s: Word)
    requires |key| == |nonce| && k < b && k < |key| && r < |key| && b - k < |key|
    requires PreservesWidth(perm, |key|)
    ensures |s| == |key|
  {
    var width := |key|;
    var start := perm(KeyedStart(key, k, b));
    var absorbed := Absorb(perm, start, nonce, k);
    Or(And(nonce, LowMask(width, k)), And(absorbed, Not(LowMask(width, r))))
  }

  /**
   * After `init` the rate holds nonce bits only: rate bit `i` is nonce bit `i`
   * for `i < k` and zero for `k <= i < r`. The bits above the rate are the
   * absorbed state's, with nonce bits ORed in below `k`.
   */
  lemma InitStateLayout(perm: Word -> Word, key: Word, nonce: Word, b: nat, r: nat, k: nat, i: nat)
    requires |key| == |nonce| && k < b && k < |key| && r < |key| && b - k < |key|
    requires PreservesWidth(perm, |key|)
    requires i < |key|
    ensures var absorbed := Absorb(perm, perm(KeyedStart(key, k, b)), nonce, k);
            InitState(perm, key, nonce, b, r, k)[i] ==
            if i < r then i < k && nonce[i] else (i < k && nonce[i]) || absorbed[i]
  {
  }

  /** The keyed start holds key bit `j` at position `b - k + j` and zeros everywhere else. */
  lemma KeyedStartLayout(key: Word, k: nat, b: nat, i: nat)
    requires k < b && k < |key| && b - k < |key| && i < |key|
    ensures KeyedStart(key, k, b)[i] == (b - k <= i && i - (b - k) < k && key[i - (b - k)])
  {
    var masked := And(key, LowMask(|key|, k));
    if b - k <= i {
      assert masked[i - (b - k)] == (i - (b - k) < k && key[i - (b - k)]);
    }
  }

  /** Absorbing one more nonce bit is one XOR into bit 0 and one permutation. */
  lemma AbsorbBitZeroOnly(perm: Word -> Word, s: Word, nonce: Word, i: nat, j: nat)
    requires |s| == |nonce| && i < |nonce| && PreservesWidth(perm, |nonce|) && j < |nonce|
    ensures var before := Absorb(perm, s, nonce, i);
            Xor(before, BitAt(nonce, i))[j] == if j == 0 then before[0] != nonce[i] else before[j]
  {
  }

  // ---------------------------------------------------------------------------
  // Blocks

  /**
   * `(state & rmask).to_le_bytes()[..(r + 7) / 8]`: the bytes of the masked
   * state that hold the `r` rate bits.
   */
  function BlockBytes(s: Word, r: nat): (bytes: seq<bv8>)
    requires |s| % 8 == 0 && r < |s|
    ensures |bytes| == (r + 7) / 8
  {
    PackBytes(And(s, LowMask(|s|, r)))[..(r + 7) / 8]
  }

  /** Bit `i` of byte `j` of a block is rate bit `8j + i` of the state, and zero past the rate. */
  lemma BlockBytesBit(s: Word, r: nat, j: nat, i: nat)
    requires |s| % 8 == 0 && r < |s| && j < (r + 7) / 8 && i < 8
    ensures ByteBit(BlockBytes(s, r)[j], i) == (8 * j + i < r && s[8 * j + i])
  {
    PackBytesBit(And(s, LowMask(|s|, r)), j, i);
  }

  /** The bits of a byte string, least significant bit of the first byte first. */
  function UnpackBits(bytes: seq<bv8>): (bits: seq<bool>)
    ensures |bits| == 8 * |bytes|
  {
    seq(8 * |bytes|, n requires 0 <= n < 8 * |bytes| => ByteBit(bytes[n / 8], n % 8))
  }

  /** The first `t <= r` unpacked bits of a block are the first `t` bits of the state. */
  lemma UnpackBlock(s: Word, r: nat, t: nat)
    requires |s| % 8 == 0 && r < |s| && t <= r
    ensures t <= |UnpackBits(BlockBytes(s, r))|
    ensures UnpackBits(BlockBytes(s, r))[..t] == s[..t]
  {
    var bytes := BlockBytes(s, r);
    forall n | 0 <= n < t
      ensures UnpackBits(bytes)[n] == s[n]
    {
      BlockBytesBit(s, r, n / 8, n % 8);
    }
  }

  /** Packing bits into bytes and unpacking them gives the bits back. */
  lemma UnpackPack(bits: seq<bool>)
    requires |bits| % 8 == 0
    ensures UnpackBits(PackBytes(bits)) == bits
  {
    forall n | 0 <= n < |bits|
      ensures UnpackBits(PackBytes(bits))[n] == bits[n]
    {
      PackBytesBit(bits, n / 8, n % 8);
    }
  }

  // ---------------------------------------------------------------------------
  // Keystream

  /** The first `t` bits of `w`, reading bits past its end as zero. */
  function Take(w: Word, t: nat): (bits: seq<bool>)
    ensures |bits| == t
  {
    seq(t, i requires 0 <= i < t => i < |w| && w[i])
  }

  /**
   * With rate `0`, which `new` accepts because it only checks `r < b`, a block
   * has no bytes and a pass of the collecting loop of `next_p_bytes` adds no
   * bit: for `p > 0` that loop never ends.
   */
  lemma ZeroRateCollectsNothing(s: Word, keystreamBits: seq<bool>, pBits: nat)
    requires |s| % 8 == 0 && 0 < |s| && |keystreamBits| < pBits
    ensures BlockBytes(s, 0) == []
    ensures keystreamBits + UnpackBits(BlockBytes(s, 0))[..Min(0, pBits - |keystreamBits|)] == keystreamBits
  {
  }

  /**
   * The `n` keystream bits squeezed from state `s`: each step yields a block
   * of which at most `r` bits are kept, the last block only as many as are
   * still missing.
   */
  function StreamBits<S>(step: S -> (S, Word), s: S, r: nat, n: nat): (bits: seq<bool>)
    requires r > 0 || n == 0
    ensures |bits| == n
    decreases n
  {
    if n == 0 then []
    else
      var next := step(s);
      var t := Min(r, n);
      Take(next.1, t) + StreamBits(step, next.0, r, n - t)
  }

  /** The state once the `n` keystream bits have been squeezed. */
  function StreamEnd<S>(step: S -> (S, Word), s: S, r: nat, n: nat): S
    requires r > 0 || n == 0
    decreases n
  {
    if n == 0 then s else StreamEnd(step, step(s).0, r, n - Min(r, n))
  }

  /** The number of blocks squeezed for `n` bits. */
  function Blocks(r: nat, n: nat): nat
    requires r > 0 || n == 0
    decreases n
  {
    if n == 0 then 0 else 1 + Blocks(r, n - Min(r, n))
  }

  /** `k` steps from `s`. */
  function Iterate<S>(step: S -> (S, Word), s: S, k: nat): S
  {
    if k == 0 then s else Iterate(step, step(s).0, k - 1)
  }

  /** Squeezing `n` bits takes `ceil(n / r)` blocks, none when `n == 0`. */
  lemma {:induction false} BlocksIsCeiling(r: nat, n: nat)
    requires r > 0
    ensures Blocks(r, n) == (n + r - 1) / r
    decreases n
  {
    if n == 0 {
      DivModSmall(r - 1, r);
    } else if n <= r {
      assert Blocks(r, n - n) == 0;
      ModUnique(n + r - 1, r, 1, n - 1);
    } else {
      BlocksIsCeiling(r, n - r);
      DivMod(n - r + r - 1, r);
      var q := (n - 1) / r;
      assert n - 1 == r * q + (n - 1) % r;
      ModUnique(n + r - 1, r, q + 1, (n - 1) % r);
    }
  }

  /** The end state of squeezing `n` bits is the start state stepped once per block. */
  lemma {:induction false} StreamEndIterates<S>(step: S -> (S, Word), s: S, r: nat, n: nat)
    requires r > 0
    ensures StreamEnd(step, s, r, n) == Iterate(step, s, Blocks(r, n))
    decreases n
  {
    if n > 0 {
      StreamEndIterates(step, step(s).0, r, n - Min(r, n));
    }
  }

  /** Squeezing `m` and then `n` more bits is squeezing `m + n` bits, when `m` is whole blocks. */
  lemma {:induction false} StreamBitsAppend<S>(step: S -> (S, Word), s: S, r: nat, m: nat, n: nat)
    requires r > 0 && m % r == 0
    ensures StreamBits(step, s, r, m + n) ==
            StreamBits(step, s, r, m) + StreamBits(step, StreamEnd(step, s, r, m), r, n)
    decreases m
  {
    if m > 0 {
      var next := step(s);
      DivMod(m, r);
      assert m >= r by {
        if m < r {
          DivModSmall(m, r);
        }
      }
      assert (m - r) % r == 0 by {
        ModOfDifference(m - r, r, 1 - m / r, 0);
      }
      StreamBitsAppend(step, next.0, r, m - r, n);
    }
  }

  /**
   * Keystream bit `i` is bit `i % r` of the block squeezed by step `i / r + 1`:
   * every block but the last contributes exactly its `r` rate bits, in order.
   */
  lemma {:induction false} StreamBitsAt<S>(step: S -> (S, Word), s: S, r: nat, n: nat, i: nat)
    requires r > 0 && i < n
    ensures StreamBits(step, s, r, n)[i] == Take(step(Iterate(step, s, i / r)).1, r)[i % r]
    decreases n
  {
    var next := step(s);
    var t := Min(r, n);
    if i < t {
      DivModSmall(i, r);
    } else {
      assert t == r;
      var rest := StreamBits(step, next.0, r, n - r);
      assert StreamBits(step, s, r, n) == Take(next.1, r) + rest;
      StreamBitsAt(step, next.0, r, n - r, i - r);
      DivModShift(i, r);
      var q: nat := (i - r) / r;
      assert Iterate(step, s, q + 1) == Iterate(step, next.0, q);
    }
  }

  /**
   * One block of the keystream: of `n` bits still wanted, the first
   * `min(r, n)` are the unpacked bytes of the next block and the rest are
   * squeezed from the next state.
   */
  lemma StreamBitsStep<S>(step: S -> (S, Word), s: S, r: nat, n: nat, earlier: seq<bool>)
    requires |step(s).1| % 8 == 0 && 0 < r < |step(s).1| && n > 0
    ensures Min(r, n) <= |UnpackBits(BlockBytes(step(s).1, r))|
    ensures earlier + StreamBits(step, s, r, n)
            == (earlier + UnpackBits(BlockBytes(step(s).1, r))[..Min(r, n)])
               + StreamBits(step, step(s).0, r, n - Min(r, n))
    ensures StreamEnd(step, s, r, n) == StreamEnd(step, step(s).0, r, n - Min(r, n))
  {
    var t := Min(r, n);
    UnpackBlock(step(s).1, r, t);
    assert Take(step(s).1, t) == step(s).1[..t];
  }

  /**
   * The loop invariant of `next_p_bytes`: the bits collected so far,
   * followed by the rest of the stream from `s`, are the whole stream from
   * `s0`, and squeezing the rest ends where squeezing the whole stream does.
   */
  ghost predicate Collected<S>(step: S -> (S, Word), s0: S, s: S, r: nat, pBits: nat, bits: seq<bool>)
    requires r > 0 || pBits == 0
  {
    && |bits| <= pBits
    && bits + StreamBits(step, s, r, pBits - |bits|) == StreamBits(step, s0, r, pBits)
    && StreamEnd(step, s, r, pBits - |bits|) == StreamEnd(step, s0, r, pBits)
  }

  /** `Collected` survives one more block: appending the next block's bits and stepping the state. */
  lemma CollectedStep<S>(step: S -> (S, Word), s0: S, s: S, r: nat, pBits: nat, earlier: seq<bool>, bits: seq<bool>)
    requires |step(s).1| % 8 == 0 && 0 < r < |step(s).1| && |earlier| < pBits
    requires Collected(step, s0, s, r, pBits, earlier)
    requires bits == earlier + UnpackBits(BlockBytes(step(s).1, r))[..Min(r, pBits - |earlier|)]
    ensures |earlier| < |bits|
    ensures Collected(step, s0, step(s).0, r, pBits, bits)
  {
    StreamBitsStep(step, s, r, pBits - |earlier|, earlier);
  }

  /** `bits_to_bytes` of the `8p` keystream bits: `p` keystream bytes. */
  function KeystreamBytes<S>(step: S -> (S, Word), s: S, r: nat, p: nat): (ks: seq<bv8>)
    requires r > 0 || p == 0
    ensures |ks| == p
  {
    PackBytes(StreamBits(step, s, r, 8 * p))
  }

  /** Byte `j` of the keystream holds keystream bits `8j, ..., 8j + 7`, least significant first. */
  lemma KeystreamBytesBit<S>(step: S -> (S, Word), s: S, r: nat, p: nat, j: nat, i: nat)
    requires r > 0 && j < p && i < 8
    ensures ByteBit(KeystreamBytes(step, s, r, p)[j], i) == StreamBits(step, s, r, 8 * p)[8 * j + i]
  {
    PackBytesBit(StreamBits(step, s, r, 8 * p), j, i);
  }

  /** Encryption of `m` under keystream `ks`: byte-wise XOR, as long as `m`. */
  function Encipher(m: seq<bv8>, ks: seq<bv8>): (c: seq<bv8>)
    requires |ks| == |m|
    ensures |c| == |m|
  {
    XorBytes(m, ks)
  }

  /** Enciphering twice under the same keystream gives the message back. */
  lemma EncipherInvolution(m: seq<bv8>, ks: seq<bv8>)
    requires |ks| == |m|
    ensures Encipher(Encipher(m, ks), ks) == m
  {
    XorBytesInvolution(m, ks);
  }

  // ---------------------------------------------------------------------------
  // The bit-collecting loops of `next_p_bytes`

  /**
   * The two nested `for` loops of `next_p_bytes` over one block `output`:
   * bits are taken least significant first while fewer than `r` have been
   * taken from this block and fewer than `pBits` in total.
   */
  method CollectBlock(keystreamBits: seq<bool>, collectedBits: nat, output: seq<bv8>, r: nat, pBits: nat)
    returns (bits: seq<bool>, collected: nat)
    requires collectedBits == |keystreamBits| <= pBits
    requires r <= 8 * |output|
    ensures collected == |bits|
    ensures bits == keystreamBits + UnpackBits(output)[..Min(r, pBits - |keystreamBits|)]
  {
    bits, collected := keystreamBits, collectedBits;
    var limit := Min(r, pBits - |keystreamBits|);
    var outputIndex := 0;
    var j := 0;
    while j < |output|
      invariant 0 <= j <= |output|
      invariant outputIndex == Min(8 * j, limit)
      invariant collected == |bits| == |keystreamBits| + outputIndex
      invariant bits == keystreamBits + UnpackBits(output)[..outputIndex]
    {
      var byte := output[j];
      var i := 0;
      while i < 8
        invariant 0 <= i <= 8
        invariant outputIndex == Min(8 * j + i, limit)
        invariant collected == |bits| == |keystreamBits| + outputIndex
        invariant bits == keystreamBits + UnpackBits(output)[..outputIndex]
      {
        if outputIndex < r && collected < pBits {
          assert UnpackBits(output)[..outputIndex + 1] == UnpackBits(output)[..outputIndex] + [ByteBit(byte, i)] by {
            assert outputIndex == 8 * j + i;
            assert outputIndex / 8 == j && outputIndex % 8 == i by {
              ModUnique(outputIndex, 8, j, i);
            }
          }
          bits := bits + [ByteBit(byte, i)];
          collected := collected + 1;
          outputIndex := outputIndex + 1;
        } else {
          break;
        }
        i := i + 1;
      }
      j := j + 1;
    }
  }
}
