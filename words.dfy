/**
 * The fixed-width machine word `U` that the sponge and duplex constructions
 * are generic over, as a bit string with index 0 the least significant bit.
 * The rate of every construction is stored in the low bits, so "the rate bits"
 * of a state `s` with rate `r` are `s[0], ..., s[r-1]`.
 *
 * Shifts whose amount is at least the width overflow in Rust; the functions
 * modelling `<<` and `>>` therefore require the amount to be below the width.
 */
module Words {
  import opened Bits

  type Word = seq<bool>

  function Min(a: nat, b: nat): nat { if a <= b then a else b }

  /** `0` of the given width. */
  function Zero(width: nat): Word { Zeros(width) }

  /** `!x` */
  function Not(x: Word): Word { seq(|x|, i requires 0 <= i < |x| => !x[i]) }

  /** `x & y` */
  function And(x: Word, y: Word): Word
    requires |x| == |y|
  {
    seq(|x|, i requires 0 <= i < |x| => x[i] && y[i])
  }

  /** `x | y` */
  function Or(x: Word, y: Word): Word
    requires |x| == |y|
  {
    seq(|x|, i requires 0 <= i < |x| => x[i] || y[i])
  }

  /** `x ^ y` */
  function Xor(x: Word, y: Word): Word
    requires |x| == |y|
  {
    seq(|x|, i requires 0 <= i < |x| => x[i] != y[i])
  }

  /** `x << s`: bits move up, bits pushed past the top are dropped. */
  function Shl(x: Word, s: nat): Word
    requires s < |x|
  {
    seq(|x|, i requires 0 <= i < |x| => i >= s && x[i - s])
  }

  /** `x >> s`: bits move down, zeros come in at the top. */
  function Shr(x: Word, s: nat): Word
    requires s < |x|
  {
    seq(|x|, i requires 0 <= i < |x| => i + s < |x| && x[i + s])
  }

  /** Rotation to the left by `a` positions (taken modulo the width). */
  function Rotl(x: Word, a: nat): Word
    requires |x| > 0
  {
    seq(|x|, i requires 0 <= i < |x| => x[(i - a) % |x|])
  }

  /** Rotation to the right by `a` positions, the inverse of `Rotl`. */
  function Rotr(x: Word, a: nat): Word
    requires |x| > 0
  {
    seq(|x|, i requires 0 <= i < |x| => x[(i + a) % |x|])
  }

  lemma ModShiftBack(i: int, a: int, n: int)
    requires 0 <= i < n
    ensures ((i + a) % n - a) % n == i
    ensures ((i - a) % n + a) % n == i
  {
    ModShiftBy(i, a, n);
    ModShiftBy(i, -a, n);
  }

  lemma ModShiftBy(i: int, a: int, n: int)
    requires 0 <= i < n
    ensures ((i + a) % n - a) % n == i
  {
    var v := i + a;
    var q, r := v / n, v % n;
    DivMod(v, n);
    assert r - a == n * (-q) + i;
    ModUnique(r - a, n, -q, i);
  }

  /** Rotating right undoes rotating left. */
  lemma RotrRotl(x: Word, a: nat)
    requires |x| > 0
    ensures Rotr(Rotl(x, a), a) == x
  {
    forall i | 0 <= i < |x|
      ensures Rotr(Rotl(x, a), a)[i] == x[i]
    {
      ModShiftBack(i, a, |x|);
    }
  }

  /** Rotating left undoes rotating right. */
  lemma RotlRotr(x: Word, a: nat)
    requires |x| > 0
    ensures Rotl(Rotr(x, a), a) == x
  {
    forall i | 0 <= i < |x|
      ensures Rotl(Rotr(x, a), a)[i] == x[i]
    {
      ModShiftBack(i, a, |x|);
    }
  }

  /** A rotation moves the single set bit `k` to `(k + a) mod width`. */
  lemma RotlSingleBit(width: nat, k: nat, a: nat)
    requires k < width
    ensures Rotl(SingleBit(width, k), a) == SingleBit(width, (k + a) % width)
  {
    forall i | 0 <= i < width
      ensures Rotl(SingleBit(width, k), a)[i] == SingleBit(width, (k + a) % width)[i]
    {
      assert Rotl(SingleBit(width, k), a)[i] == ((i - a) % width == k);
      ModShiftBack(i, a, width);
      ModShiftBack(k, a, width);
    }
  }

  /** The value of the word with only bit `k` set is `2^k`. */
  lemma {:induction false} FromBitsSingleBit(width: nat, k: nat)
    requires k < width
    ensures FromBits(SingleBit(width, k)) == Pow2(k)
  {
    var w := SingleBit(width, k);
    if k == 0 {
      assert w[1..] == Zeros(width - 1);
      FromBitsZeros(width - 1);
    } else {
      assert w[1..] == SingleBit(width - 1, k - 1);
      FromBitsSingleBit(width - 1, k - 1);
    }
  }

  /** XOR of words with no set bit in common adds their values. */
  lemma {:induction false} FromBitsDisjointXor(x: Word, y: Word)
    requires |x| == |y|
    requires forall i :: 0 <= i < |x| ==> !(x[i] && y[i])
    ensures FromBits(Xor(x, y)) == FromBits(x) + FromBits(y)
  {
    if |x| > 0 {
      FromBitsDisjointXor(x[1..], y[1..]);
      assert Xor(x, y)[1..] == Xor(x[1..], y[1..]);
    }
  }

  /** `(1 << n) - 1` on a word of the given width: the low `n` bits set. */
  function LowMask(width: nat, n: nat): Word
    requires n < width
  {
    seq(width, i => i < n)
  }

  /** `1 << n` on a word of the given width: only bit `n` set. */
  function SingleBit(width: nat, n: nat): Word
    requires n < width
  {
    seq(width, i => i == n)
  }

  /** `(x >> i) & 1`: bit `i` of `x`, moved to bit 0. */
  function BitAt(x: Word, i: nat): Word
    requires i < |x|
  {
    seq(|x|, j => j == 0 && x[i])
  }

  /** `(x >> i) & 1` computed with the shift and the mask is `BitAt(x, i)`. */
  lemma ShrAndOne(x: Word, i: nat)
    requires i < |x|
    ensures And(Shr(x, i), SingleBit(|x|, 0)) == BitAt(x, i)
  {
  }

  /** A function on words that maps every word of the given width to one of the same width. */
  ghost predicate PreservesWidth(f: Word -> Word, width: nat)
  {
    forall x: Word :: |x| == width ==> |f(x)| == width
  }

  lemma XorSelfInverse(x: Word, y: Word)
    requires |x| == |y|
    ensures Xor(Xor(x, y), y) == x
  {
  }

  lemma XorSelf(x: Word)
    ensures Xor(x, x) == Zero(|x|)
  {
  }

  // Bytes

  /**
   * The byte whose bit `i` (counting from the least significant) is `bits[i]`.
   */
  function ByteOf(bits: seq<bool>): bv8
    requires |bits| == 8
  {
    (if bits[0] then 1 else 0) | (if bits[1] then 2 else 0) |
    (if bits[2] then 4 else 0) | (if bits[3] then 8 else 0) |
    (if bits[4] then 16 else 0) | (if bits[5] then 32 else 0) |
    (if bits[6] then 64 else 0) | (if bits[7] then 128 else 0)
  }

  /** `(x >> i) & 1 == 1` on a byte. */
  function ByteBit(x: bv8, i: nat): bool
    requires i < 8
  {
    (x >> i) & 1 == 1
  }

  lemma ByteOfBit(bits: seq<bool>, i: nat)
    requires |bits| == 8 && i < 8
    ensures ByteBit(ByteOf(bits), i) == bits[i]
  {
  }

  /**
   * Packing of a bit string into bytes, 8 bits per byte, the first bit of each
   * group being the least significant bit of its byte. Applied to a word this is
   * its little-endian byte serialisation.
   */
  function PackBytes(bits: seq<bool>): (bytes: seq<bv8>)
    requires |bits| % 8 == 0
    ensures |bytes| == |bits| / 8
  {
    seq(|bits| / 8, j requires 0 <= j < |bits| / 8 => ByteOf(bits[8 * j .. 8 * j + 8]))
  }

  /** Bit `i` of byte `j` of a packing is bit `8j + i` of the bit string. */
  lemma PackBytesBit(bits: seq<bool>, j: nat, i: nat)
    requires |bits| % 8 == 0 && j < |bits| / 8 && i < 8
    ensures ByteBit(PackBytes(bits)[j], i) == bits[8 * j + i]
  {
    ByteOfBit(bits[8 * j .. 8 * j + 8], i);
  }

  /** Byte-wise XOR of two byte strings, as long as the shorter one (Rust's `zip`). */
  function XorBytes(a: seq<bv8>, b: seq<bv8>): seq<bv8>
  {
    seq(Min(|a|, |b|), i requires 0 <= i < Min(|a|, |b|) => a[i] ^ b[i])
  }

  /** XOR with the same key bytes undoes itself. */
  lemma XorBytesInvolution(m: seq<bv8>, ks: seq<bv8>)
    requires |ks| >= |m|
    ensures |XorBytes(m, ks)| == |m|
    ensures XorBytes(XorBytes(m, ks), ks) == m
  {
    var c := XorBytes(m, ks);
    forall i | 0 <= i < |m|
      ensures XorBytes(c, ks)[i] == m[i]
    {
      assert c[i] ^ ks[i] == (m[i] ^ ks[i]) ^ ks[i];
    }
  }
}
