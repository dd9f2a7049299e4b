# crypto-tools: permutation-based constructions, modelled in Dafny

This project models the deterministic core of the Rust crate `crypto-tools`. That core is a family of symmetric constructions built around an injected permutation `perm: fn(U) -> U` on a word of an unsigned integer type `U`:

- **Stream ciphers.**
  - `Asakey` (`src/stream/asakey.rs`): a keyed sponge. `rekey` stores a key. `init` absorbs a nonce bit by bit. `next` permutes and squeezes the low `r` rate bits. `next_p_bytes` collects exactly `8p` keystream bits. `encrypt` XORs a message with them.
  - `DSS` (`src/stream/dss.rs`): the same absorption, then two branches "up" and "down" that differ only in the domain bit `b - 1`. Each squeeze cross-mixes the two branches.
- **Keyed duplex** (`src/other/duplex.rs` and its older copy `src/construction/duplex.rs`).
  - `reset(delta)` loads key `delta mod u` with a random IV, rotates and permutes.
  - `duplex(flag, input)` returns the rate of the state before the call, optionally clears the rate, XORs the input in and permutes.
- **Sponge PRNGs of Gazi and Tessaro**: `SPRNG` (`src/prng/sprng.rs`) and the older `SPRG` (`src/prng/gt2016.rs`).
  - `refresh` absorbs `(input ^ seed[j]) & mask` and cycles the seed index `j`.
  - `next` outputs the rate of the permuted state, then performs `t - 1` permute-then-clear-rate steps.
- **`Ux4<U>`** (`src/utilities/ustates.rs`): a four-limb state with limb-wise NOT, AND, XOR and shift-left, carry-chain addition, two's-complement subtraction and limb-wise equality.
- **SipHash permutation** (`src/hash/siphash.rs`): the add-rotate-XOR round of SipHash on a `Ux4`, with the constants of SipHash and of HalfSipHash.
- **Rotation helper** `rotate_U` (`src/utilities/bitops.rs`).

How the model represents things:

- **Words.** A word of the constructions is a `seq<bool>` with index 0 the least significant bit, so the rate is the low `r` bits, as the source stores it. The width of `U` is an explicit constant `width`. A Rust shift by at least the width panics; every such shift the source computes becomes a precondition.
- **`Ux4` limbs** are `nat` values below `2^n`. They are read as one wide integer `Value(limbs, n)` and as one `4n`-bit string `WideBits`.
- **Bytes** are `bv8`. `to_le_bytes` and `bits_to_bytes` both pack bits least significant bit first (`Words.PackBytes`).
- **Panics and errors.** An `assert!` panic is a precondition. An `Err(..)` return is a value of `Outcomes.Result`.
- **State.** Every construction is a class whose methods update its fields. Each method is proved against a specification function of the old state:
  - `StreamCommon.StreamBits` / `KeystreamBytes` for the keystream.
  - `DuplexCore.DuplexStep` for `duplex`.
  - `Sprng.RefreshState` / `Sprng.NextSpec` for the PRNGs.

  The properties the source promises are proved about those functions as lemmas.
- **The permutation** is an uninterpreted function `Word -> Word` that keeps the width (`Words.PreservesWidth`). The SipHash round is modelled on its own and is not plugged in.

Where a description of this crate and its code disagree, the model follows the code:

- `Shl` on `Ux4` shifts each limb on its own; the implementation is marked TODO. Every limb is shifted within its own `n` bits, so no bit crosses into the next limb (`UStates.ShlIsPerLimb`, for every input). `UStates.ShlDoesNotCarry` gives one input where this differs from a `4n`-bit shift.
- After `init`, rate bits at positions `k .. r - 1` are cleared. The absorbed state's bits are not kept there (`StreamCommon.InitStateLayout`).

## Model

| member | source | states |
|---|---|---|
| UStates.New | src/utilities/ustates.rs:21-23 | the state built from four limbs gives exactly those limbs back from `get` |
| UStates.ZeroValue | src/utilities/ustates.rs:26-28 | `zero()` is four zero limbs, a valid state for every limb width, whose wide value is 0 |
| UStates.FromU8Value | src/utilities/ustates.rs:58-62 | `From<u8>` puts the byte in limb 0 and zeros in limbs 1-3, so the wide value is the byte itself |
| UStates.SetThenGet | src/utilities/ustates.rs:45-52 | `set(a)` followed by `get()` returns exactly `a`, whatever the previous state |
| UStates.NotIsWide | src/utilities/ustates.rs:69-71 | limb-wise NOT equals NOT of the whole `4n`-bit string (no interaction between limbs) |
| UStates.AndIsWide | src/utilities/ustates.rs:78-81 | limb-wise AND equals AND of the two `4n`-bit strings |
| UStates.XorIsWide | src/utilities/ustates.rs:88-91 | limb-wise XOR equals XOR of the two `4n`-bit strings |
| UStates.XorSelfIsZero | src/utilities/ustates.rs:88-91 | `x ^ x` is the zero state for every `x` |
| UStates.XorInverse | src/utilities/ustates.rs:88-91 | `(x ^ y) ^ y == x` for every valid `x` |
| UStates.ShlIsPerLimb | src/utilities/ustates.rs:99-102 | for every state and every `rhs < n`, limb `i` of `x << rhs` is limb `i` of `x` shifted within its own `n` bits; the `4n`-bit string of the result is the four shifted limbs one after the other, so no bit moves from one limb into the next |
| UStates.ShlDoesNotCarry | src/utilities/ustates.rs:99-102 | shift-left is per limb: `[max,0,0,0] << 1 == [max-1,0,0,0]`, whereas the `4n`-bit shift would set bit `n` |
| UStates.Eq | src/utilities/ustates.rs:144-146 | the limb-wise equality holds if and only if the two states are equal |
| UStates.Add | src/utilities/ustates.rs:110-125 | the four-limb loop with a running carry returns a valid state equal to the carry chain `AddLimbs` |
| UStates.CarryRule | src/utilities/ustates.rs:115-121 | the rule "carry iff the wrapped sum is below either limb" agrees with true overflow if and only if the two limbs are not both all-ones with a carry coming in |
| UStates.ChainsAgree | src/utilities/ustates.rs:114-122 | when no limb drops a carry, the source's chain equals the exact carry chain |
| UStates.AddIsWideAddition | src/utilities/ustates.rs:110-125 | whenever no carry is dropped, `x + y` is the addition of the wide values modulo `2^(4n)` |
| UStates.ExactChainValue | src/utilities/ustates.rs:114-122 | the carry chain with the exact overflow rule is addition of the wide values modulo `2^(n * limbs)` for every input |
| UStates.DroppedCarryDiffers | src/utilities/ustates.rs:114-122 | wherever the source's rule drops a carry, its chain differs from the exact chain |
| UStates.ValueInjective | src/utilities/ustates.rs:110-125 | two limb sequences of one length with the same wide value are the same limbs |
| UStates.AddDropsCarry | src/utilities/ustates.rs:110-125 | whenever a carry is dropped, `x + y` is not the addition of the wide values modulo `2^(4n)` |
| UStates.AddIsWideAdditionIff | src/utilities/ustates.rs:110-125 | `x + y` is the addition of the wide values modulo `2^(4n)` if and only if no carry is dropped |
| UStates.AddDropsCarryExample | src/utilities/ustates.rs:115-121 | on 8-bit limbs `[255,255,0,0] + [1,255,0,0]` gives `[0,255,0,0]`, while the exact chain gives `[0,255,1,0]` |
| UStates.AdditionTest | src/utilities/ustates.rs:154-159 | `[1,0,0,0] + [1,0,0,0] == [2,0,0,0]` for every limb width of at least 2 bits |
| UStates.AdditionCarryTest | src/utilities/ustates.rs:162-167 | on 8-bit limbs `[255,0,0,0] + [1,0,0,0] == [0,1,0,0]`: the carry reaches limb 1 |
| UStates.Sub | src/utilities/ustates.rs:134-138 | `x - y` returns a valid state equal to `x + (!y + [1,0,0,0])` as the carry chains compute it |
| UStates.ComplementValue | src/utilities/ustates.rs:69-71 | the complemented limbs stand for `2^(n * limbs) - 1` minus the wide value |
| UStates.IncrementNeverDrops | src/utilities/ustates.rs:134-138 | adding `[1,0,0,0]` to any four limbs never drops a carry |
| UStates.SubIsWideSubtraction | src/utilities/ustates.rs:134-138 | `x - y` is the wide difference modulo `2^(4n)` if and only if the final addition `x + (!y + 1)` drops no carry |
| UStates.SubSelfIsZero | src/utilities/ustates.rs:134-138 | `x - x` is the zero state for every valid `x` |
| UStates.SubDropsCarryExample | src/utilities/ustates.rs:134-138 | subtraction inherits the dropped carry: `[1,255,0,0] - [1,0,0,0]` gives `[0,255,255,255]` on 8-bit limbs |
| BitOps.RotateUIsRotl | src/utilities/bitops.rs:16-21 | for `0 < shift < size == width`, `(v << shift)` ORed with `(v >> (size - shift))` is rotation left by `shift` |
| BitOps.RotateURoundTrip | src/utilities/bitops.rs:20 | rotating by `shift` and then by `size - shift` gives the value back |
| BitOps.RotateUFixesZeroAndOnes | src/utilities/bitops.rs:20 | rotation maps zero to zero and all-ones to all-ones |
| BitOps.RotateUPopCount | src/utilities/bitops.rs:20 | rotation preserves the number of set bits |
| SipHash.SipHashGeneralPermutation | src/hash/siphash.rs:12-31 | the in-order add/rotate/XOR steps leave a valid state of `n`-bit limbs equal to the round `Round(state, params)` |
| SipHash.InverseRoundUndoesRound | src/hash/siphash.rs:12-31 | the round has a left inverse: undoing its steps in reverse order gives back every state |
| SipHash.RoundUndoesInverseRound | src/hash/siphash.rs:12-31 | the round is onto: every state is the round of its inverse image |
| SipHash.RoundInjective | src/hash/siphash.rs:12-31 | different states have different rounds, for any rotation constants: the round is a permutation |
| SipHash.RoundFixesZero | src/hash/siphash.rs:19-28 | the all-zero state is a fixed point of the round |
| SipHash.RoundIsArxRound | src/hash/siphash.rs:19-28 | the general permutation with `[a,b,c,d,e]` is the reference SipHash round with rotations `[a,e,b,d,c,e]` |
| SipHash.SipHashPerm | src/hash/siphash.rs:34-37 | `SipHash_perm` computes SipRound of SipHash on 64-bit limbs |
| SipHash.SipHashParamsAreSipRound | src/hash/siphash.rs:35 | the constants `[13,16,17,21,32]` in their roles are those of SipRound |
| SipHash.HalfSipHashPerm | src/hash/siphash.rs:40-43 | `Half_SipHash_perm` is the general round on 32-bit limbs with `[5,8,7,13,16]` |
| SipHash.HalfSipHashPermIsNotHalfSipRound | src/hash/siphash.rs:41 | with those constants the result differs from the HalfSipHash round: on `[1,0,0,0]` limb 1 is 129, not 8193 |
| SipHash.HalfSipHashPermCorrected | src/hash/siphash.rs:40-43 | with `c` and `d` in their roles, the 32-bit permutation computes the HalfSipHash round |
| SipHash.HalfSipHashReferenceParamsAreHalfSipRound | src/hash/siphash.rs:41 | the constants `[5,8,13,7,16]` give exactly the HalfSipHash round |
| StreamCommon.KeyedStartLayout | src/stream/asakey.rs:119 | `(key & kmask) << (b - k)` holds key bit `j` at `b - k + j` for `j < k` and zeros everywhere else |
| StreamCommon.AbsorbBitZeroOnly | src/stream/asakey.rs:123-127 | absorbing nonce bit `i` changes only bit 0 before the next permutation, flipping it if and only if the nonce bit is set |
| StreamCommon.InitStateLayout | src/stream/asakey.rs:130 | after `init` rate bit `i` is nonce bit `i` below `k` and zero from `k` to `r - 1`; capacity bits are the absorbed state's, ORed with nonce bits below `k` |
| StreamCommon.BlockBytesBit | src/stream/asakey.rs:148-150 | bit `i` of byte `j` of a block is rate bit `8j + i` of the state, and zero past the rate |
| StreamCommon.UnpackBlock | src/stream/asakey.rs:172-184 | reading a block's bytes least significant bit first gives the state's first bits, in order |
| StreamCommon.UnpackPack | src/stream/asakey.rs:177-187 | packing bits into bytes and reading them back LSB-first gives the bits back |
| StreamCommon.CollectBlock | src/stream/asakey.rs:170-184 | the nested loops over one block append exactly its first `min(r, pBits - collected)` bits and count them |
| StreamCommon.CollectedStep | src/stream/asakey.rs:168-185 | one more `next` and its collected bits keep "collected bits followed by the rest of the stream is the whole stream" |
| StreamCommon.BlocksIsCeiling | src/stream/asakey.rs:168-185 | collecting `n` bits takes `ceil(n / r)` blocks, none when `n == 0` |
| StreamCommon.StreamEndIterates | src/stream/asakey.rs:168-185 | the state after collecting `n` bits is the start state stepped once per block |
| StreamCommon.StreamBitsAt | src/stream/asakey.rs:163-187 | keystream bit `i` is bit `i mod r` of the block squeezed by step `i / r + 1` |
| StreamCommon.StreamBitsAppend | src/stream/asakey.rs:163-187 | collecting `m` bits (whole blocks) and then `n` more is collecting `m + n` bits |
| StreamCommon.KeystreamBytesBit | src/stream/asakey.rs:187 | byte `j` of the keystream holds keystream bits `8j .. 8j + 7`, least significant first |
| StreamCommon.EncipherInvolution | src/stream/asakey.rs:210-214 | XOR with the same keystream twice gives the message back |
| Asakey.Asakey.constructor | src/stream/asakey.rs:65-96 | panics unless `k < b` and `r < b`; `c = b - r`; `kmask`/`rmask` are the low `k`/`r` bits; no key and no state |
| Asakey.Asakey.Rekey | src/stream/asakey.rs:101-107 | panics on a zero key; stores the key and discards the state |
| Asakey.Asakey.Init | src/stream/asakey.rs:112-134 | panics on a zero nonce; without a key fails with `KeyNotSet` and changes nothing, whatever `b` and `k`; otherwise the state is the keyed, nonce-absorbed `InitState` |
| Asakey.Asakey.Next | src/stream/asakey.rs:139-151 | without a state fails with `NotInitialized`; otherwise permutes once, stores it, and returns the first `ceil(r/8)` LE bytes of its rate |
| Asakey.Asakey.NextPBytes | src/stream/asakey.rs:158-188 | returns exactly the `p` keystream bytes of the state and leaves the state at the end of that stream; fails without a state, whatever `r` and `p` |
| Asakey.Asakey.Encrypt | src/stream/asakey.rs:194-218 | the ciphertext is `EncryptSpec(key, nonce, m)`, a function of key, nonce and message only, whatever the prior state |
| Asakey.EncryptInvolution | src/stream/asakey.rs:194-218 | a ciphertext has the length of the message, and encrypting it again under the same key and nonce gives the message |
| Asakey.KeystreamBit | src/stream/asakey.rs:158-188 | keystream bit `i` is rate bit `i mod r` of the initial state permuted `i / r + 1` times |
| Asakey.SqueezeCount | src/stream/asakey.rs:168-185 | `next_p_bytes(p)` permutes `ceil(8p / r)` times, none when `p == 0` |
| Dss.Dss.constructor | src/stream/dss.rs:71-102 | panics unless `k < b` and `r < b`; `dmask` is the single bit `b - 1`, above the rate; no key and no branches |
| Dss.Dss.Rekey | src/stream/dss.rs:107-114 | panics on a zero key; stores it and sets both branches to none |
| Dss.Dss.Init | src/stream/dss.rs:119-142 | without a key fails with `KeyNotSet` and changes nothing, whatever `b` and `k`; otherwise both branches are Asakey's initial state split on the domain bit, and the branch invariant holds |
| Dss.Dss.Next | src/stream/dss.rs:147-172 | without a state fails with `NotInitialized`; otherwise the branches become `NextBranches` of both permuted branches and the output is the rate of the permuted down branch; the branch invariant is kept |
| Dss.Dss.NextPBytes | src/stream/dss.rs:179-209 | returns exactly the `p` DSS keystream bytes and leaves both branches at the end of that stream; fails without a state, whatever `r` and `p` |
| Dss.Dss.Encrypt | src/stream/dss.rs:215-236 | the ciphertext is `EncryptSpec(key, nonce, m)`, independent of the prior state; the key is the new key and both branches are left at the end of the stream of 8 bits per message byte, started from the initial branches |
| Dss.DomainSplitInvariant | src/stream/dss.rs:138-139 | the up branch has domain bit 0, the down branch 1, they agree elsewhere with the shared value, and `up ^ down == dmask` |
| Dss.MixBits | src/stream/dss.rs:157-166 | the next shared value takes its rate from `P(up)` and its capacity from `P(up) ^ P(down)` |
| Dss.KeystreamBit | src/stream/dss.rs:179-209 | keystream bit `i` is rate bit `i mod r` of the permuted down branch of squeeze `i / r + 1` |
| Dss.EncryptInvolution | src/stream/dss.rs:215-236 | a DSS ciphertext has the length of the message, and encrypting it again gives the message |
| DuplexCore.MaskKeysBelowK | src/other/duplex.rs:85-87 | every stored key has no bit set outside the low `k` bits, and keeps the draw's bits below `k` |
| DuplexCore.ResetKeyIvDisjoint | src/other/duplex.rs:111-114 | the IV has no bit below `k`, so key and IV are disjoint and the rotated word holds the key below `k` and the IV draw above |
| DuplexCore.PermInputBits | src/other/duplex.rs:123-127 | with `flag` the permutation input's rate is the input's rate; without it the input is `state ^ input`; the capacity is always `state ^ input` |
| DuplexCore.DuplexOutputIsRate | src/other/duplex.rs:121 | the output of `duplex` has no bit outside the rate and its rate bits are those of the state before the call |
| DuplexCore.FlagForgetsRate | src/other/duplex.rs:120-129 | with `flag` set, two states that differ only in their rate lead to the same next state |
| OtherDuplex.Duplex.constructor | src/other/duplex.rs:67-104 | panics unless `0 < r <= b`, `0 < k <= b`, `u > 0`; keys are the draws masked to `k` bits; the state is zero |
| OtherDuplex.Duplex.Reset | src/other/duplex.rs:108-117 | the state becomes `perm(rotl(keys[delta mod u] OR iv, alpha))`, independent of the previous state |
| OtherDuplex.Duplex.Duplex | src/other/duplex.rs:120-129 | returns the old rate and sets the state to the next duplex state (`DuplexStep`); keys and masks are unchanged |
| ConstructionDuplex.Duplex.GetParams | src/construction/duplex.rs:34-36 | returns exactly `[b, r, k, u]`, four values, without `alpha` |
| ConstructionDuplex.Duplex.GetMask | src/construction/duplex.rs:39-41 | returns the rate mask, the low `r` bits |
| ConstructionDuplex.Duplex.constructor | src/construction/duplex.rs:50-86 | panics unless `0 < r <= b`, `0 < k <= b`, `u > 0`; keys masked to `k` bits; zero state |
| ConstructionDuplex.Duplex.Reset | src/construction/duplex.rs:90-97 | key `delta mod u` ORed with an IV clear below `k`, rotated by `alpha`, permuted once |
| ConstructionDuplex.Duplex.Duplex | src/construction/duplex.rs:100-109 | returns the old rate, clears the rate if and only if `flag`, and sets the state to `perm(state ^ input)` |
| Sprng.Sprng.constructor | src/prng/sprng.rs:58-88 | panics unless four parameters with `r <= n` and `s > 1`; seeds masked to the rate; initial rate bits zero; `j = 1` |
| Sprng.Sprng.Refresh | src/prng/sprng.rs:99-112 | panics on no inputs; the state absorbs every input in order (`RefreshState`) and `j` advances by the number of inputs mod `s`, staying in bounds |
| Sprng.Sprng.Next | src/prng/sprng.rs:115-132 | the output is the rate of `perm(state)`, the state is after `t - 1` permute-then-clear steps, and `j` is reset to 1 |
| Sprng.RefreshAbsorbsLastInput | src/prng/sprng.rs:104-109 | with an injective permutation, inputs that differ only in the rate of their last element give different states |
| Sprng.NextBits | src/prng/sprng.rs:117-126 | the output has no bit outside the rate and equals the rate of `perm(state)`; for `t >= 2` the new state has a zero rate, for `t <= 1` it is `perm(state)` |
| Gt2016.Sprg.GetParams | src/prng/gt2016.rs:31-33 | returns exactly `[t, s]` |
| Gt2016.Sprg.GetSeed | src/prng/gt2016.rs:36-38 | returns the `s` seed words, each with no bit outside the rate |
| Gt2016.Sprg.GetMask | src/prng/gt2016.rs:41-43 | returns the rate mask, the low `r` bits |
| Gt2016.Sprg.constructor | src/prng/gt2016.rs:52-80 | panics unless `0 < r <= n`; `s` unchecked; seeds masked; initial rate zero; `j = 1` |
| Gt2016.Sprg.Refresh | src/prng/gt2016.rs:83-91 | absorbs every input but the last; with at most one input nothing changes; `j` advances by `l - 1` mod `s` |
| Gt2016.Sprg.Next | src/prng/gt2016.rs:94-103 | the same output, new state and `j = 1` as `SPRNG::next` (`NextSpec`) |
| Gt2016.RefreshIgnoresLastInput | src/prng/gt2016.rs:85-90 | two input lists that differ only in their last element leave the same state |
| Gt2016.RefreshLastInputExample | src/prng/gt2016.rs:83-91 | on `[a, x]` versus `[a, y]` with different rates, `SPRG` ends in equal states where `SPRNG` ends in different ones |

## Left out

- Randomness: the key draws of the duplex constructors, the IV of `reset`, and the seed and capacity draws of the PRNG constructors are method parameters. `Ux4::rand` is not modelled.
- The permutation inside the constructions is an arbitrary width-preserving function. The SipHash permutation is modelled separately.
- `urot`, `bits_to_bytes` and the `ToLeBytes` trait are not part of this model. `urot` is modelled as rotation to the left. `to_le_bytes` and `bits_to_bytes` are modelled as least-significant-first packing. The involution of `encrypt` does not depend on that packing order.
- Rust integer overflow. A shift by at least the width of `U` panics; the model makes every shift amount the source computes a precondition (`1 << r`, `1 << k`, `1 << (b - 1)`, `<< (b - k)`), on the path where it is computed only: `init` without a key returns `KeyNotSet` for every `b - k`. The plain `+` on limbs in `siphash.rs` panics on overflow in debug builds; it is modelled as wrapping addition.
- Asakey.Asakey.Rekey, Dss.Dss.Rekey, Sprng.Sprng.Refresh, Sprng.Sprng.Next: the source returns a `Result` that is always `Ok`, so the model returns nothing (or just the output).
- Asakey.Asakey.NextPBytes, Dss.Dss.NextPBytes: with a state, `r == 0` and `p > 0` the source loops forever, so the model requires `r > 0 || p == 0` whenever a state is present; without a state both still return `NotInitialized` for every `r` and `p`.
- SipHash.SipHashGeneralPermutation: the `&mut Ux4` argument is modelled as a value passed in and a new value returned, so aliasing is not captured.
- BitOps.RotateUIsRotl: stated only for `0 < shift < size == width`. Other shifts either panic in Rust or are not rotations.
- The `n` parameter of `SPRNG`/`SPRG` is only checked against `r`; the word width is the separate constant `width`, and `r < width` is required for the mask shift.
- The `PRNG` trait (`src/prng/mod.rs`), the programs under `src/bin/`, `src/main.rs`, the module files, `getset` getters and `Debug`/`LowerHex` formatting are not modelled.

## Findings

| source | as written | input that shows it | evidently intended | confidence | as-written member | corrected member |
|---|---|---|---|---|---|---|
| src/utilities/ustates.rs:117-121 | the carry out of a limb is set iff the wrapped sum is below either operand limb | 8-bit limbs, `[255,255,0,0] + [1,255,0,0]`: limb 1 sums `255 + 255 + 1`, wraps to 255, no carry, result `[0,255,0,0]` instead of `[0,255,1,0]`; subtraction inherits it (`[1,255,0,0] - [1,0,0,0]` gives `[0,255,255,255]`) | carry iff the limb sum plus incoming carry reaches `2^n`, so `+` is addition modulo `2^(4n)` | high, not executed | UStates.AddDropsCarryExample | UStates.ExactChainValue |
| src/stream/asakey.rs:67-68 | `new` checks `b > k` and `b > r` only, so `r == 0` is accepted and `next_p_bytes` collects no bit per block | `r = 0`, `p = 1`: every pass of the collecting loop adds nothing, so it never ends (likewise src/stream/dss.rs) | a rate of at least one bit, so that `8p` bits take `ceil(8p / r)` blocks | high, not executed | StreamCommon.ZeroRateCollectsNothing | StreamCommon.BlocksIsCeiling |
| src/prng/gt2016.rs:85-88 | the loop runs `i` over `1..l` and absorbs `inputs[i - 1]`, so only `inputs[0 .. l - 2]` are absorbed | inputs `[a, x]` and `[a, y]` with different rates leave the same state | absorb all `l` inputs, as `SPRNG::refresh` does | high, not executed | Gt2016.RefreshIgnoresLastInput | Sprng.RefreshAbsorbsLastInput |
| src/hash/siphash.rs:41 | `Half_SipHash_perm` uses `[5,8,7,13,16]`, so `v3` is rotated by 13 and `v1` by 7 in the second half | state `[1,0,0,0]`: limb 1 of the result is 129, the HalfSipHash round gives 8193 | the HalfSipHash round (`v1` by 13, `v3` by 7), i.e. `[5,8,13,7,16]` | medium, not executed | SipHash.HalfSipHashPermIsNotHalfSipRound | SipHash.HalfSipHashReferenceParamsAreHalfSipRound |
