/**
 * Bit-level helpers of the crit-nib index (src/critnib.c): key bytes, the 4-bit slice
 * selected by a node's discriminator, XOR and the most-significant-set-bit index used to
 * find where two keys diverge.
 *
 * A discriminator (byte, bit) names one nibble of a key: bit 4 is the high nibble and
 * bit 0 the low one. Nibbles are numbered linearly in root-to-leaf order by Pos, so that
 * "(b1, s1) comes before (b2, s2)" is plain `<` on positions.
 */
module CritnibBits {

  /** An unsigned key byte. */
  type Byte = x: int | 0 <= x < 256

  /** Keys are opaque byte strings compared byte-wise. */
  type Key = seq<Byte>

  /** Width of a slice in bits, and the number of children of an internal node. */
  const SLICE: nat := 4
  const SLNODES: nat := 16

  function Pow2(n: nat): (r: nat)
    ensures r > 0
  {
    if n == 0 then 1 else 2 * Pow2(n - 1)
  }

  /** slice_index: the child slot selected by byte `b` at shift `bit`, i.e. (b >> bit) & NIB. */
  function SliceIndex(b: Byte, bit: nat): (r: nat)
    ensures r < SLNODES
  {
    (b / Pow2(bit)) % SLNODES
  }

  lemma SliceIndexNibbles(b: Byte)
    ensures SliceIndex(b, 4) == b / 16 && SliceIndex(b, 0) == b % 16
    ensures b == 16 * SliceIndex(b, 4) + SliceIndex(b, 0)
  {
    assert Pow2(4) == 16;
  }

  /** Linear position of the nibble named by discriminator (byte, bit), bit being 0 or 4. */
  function Pos(byte: nat, bit: nat): nat
  {
    2 * byte + (if bit == 4 then 0 else 1)
  }

  /** The nibble of key `k` at linear position `q`. */
  function Nib(k: Key, q: nat): (r: nat)
    requires q < 2 * |k|
    ensures r < SLNODES
  {
    SliceIndex(k[q / 2], if q % 2 == 0 then 4 else 0)
  }

  /** The child index a node with discriminator (byte, bit) selects for `k` is the nibble at Pos(byte, bit). */
  lemma SliceIndexIsNib(k: Key, byte: nat, bit: nat)
    requires bit == 0 || bit == 4
    requires byte < |k|
    ensures Pos(byte, bit) < 2 * |k|
    ensures SliceIndex(k[byte], bit) == Nib(k, Pos(byte, bit))
  {
  }

  /** The loop condition of the second descent of critnib_set compares discriminators in root-to-leaf order. */
  lemma DescendConditionIsPosOrder(nbyte: nat, nbit: nat, diff: nat, sh: nat)
    requires nbit == 0 || nbit == 4
    requires sh == 0 || sh == 4
    ensures (nbyte < diff || (nbyte == diff && nbit >= sh)) <==> Pos(nbyte, nbit) <= Pos(diff, sh)
  {
  }

  /** Keys k1 and k2 are long enough for, and agree on, every nibble before position q. */
  ghost predicate Agree(k1: Key, k2: Key, q: nat)
  {
    && q <= 2 * |k1|
    && q <= 2 * |k2|
    && forall j :: 0 <= j < q ==> Nib(k1, j) == Nib(k2, j)
  }

  lemma AgreeShorter(k1: Key, k2: Key, q: nat, q': nat)
    requires Agree(k1, k2, q) && q' <= q
    ensures Agree(k1, k2, q')
  {
  }

  lemma AgreeTrans(k1: Key, k2: Key, k3: Key, q: nat)
    requires Agree(k1, k2, q) && Agree(k2, k3, q)
    ensures Agree(k1, k3, q)
  {
  }

  /** Two keys with a common byte prefix of length d agree on the first 2 * d nibbles. */
  lemma {:induction false} AgreeFromBytes(k1: Key, k2: Key, d: nat)
    requires d <= |k1| && d <= |k2|
    requires k1[..d] == k2[..d]
    ensures Agree(k1, k2, 2 * d)
  {
    forall j | 0 <= j < 2 * d
      ensures Nib(k1, j) == Nib(k2, j)
    {
      assert k1[j / 2] == k1[..d][j / 2] == k2[..d][j / 2] == k2[j / 2];
    }
  }

  /** One key is a byte-wise prefix of the other (or they are equal): they agree on the whole shorter length. */
  predicate Compatible(k1: Key, k2: Key)
  {
    var c := if |k1| < |k2| then |k1| else |k2|;
    k1[..c] == k2[..c]
  }

  /** Bitwise exclusive or of two naturals, least significant bit first. */
  function Xor(a: nat, b: nat): (r: nat)
    decreases a + b
    ensures r == 0 <==> a == b
  {
    if a == 0 && b == 0 then 0
    else 2 * Xor(a / 2, b / 2) + (if a % 2 == b % 2 then 0 else 1)
  }

  lemma XorHalf(a: nat, b: nat)
    ensures Xor(a, b) / 2 == Xor(a / 2, b / 2)
  {
  }

  /** Shifting right by one slice commutes with XOR. */
  lemma XorSlice(a: nat, b: nat)
    ensures Xor(a, b) / 16 == Xor(a / 16, b / 16)
  {
    XorHalf(a, b);
    XorHalf(a / 2, b / 2);
    XorHalf(a / 4, b / 4);
    XorHalf(a / 8, b / 8);
    assert a / 2 / 2 == a / 4 && a / 4 / 2 == a / 8 && a / 8 / 2 == a / 16;
    assert b / 2 / 2 == b / 4 && b / 4 / 2 == b / 8 && b / 8 / 2 == b / 16;
    var x := Xor(a, b);
    assert x / 2 / 2 == x / 4 && x / 4 / 2 == x / 8 && x / 8 / 2 == x / 16;
  }

  /** util_mssb_index: the index of the most significant set bit of a positive number. */
  function Mssb(x: nat): (r: nat)
    requires x > 0
    ensures Pow2(r) <= x < 2 * Pow2(r)
  {
    if x < 2 then 0 else 1 + Mssb(x / 2)
  }

  lemma {:induction false} MssbBounds(x: nat, n: nat)
    requires x > 0
    ensures Mssb(x) >= n <==> x >= Pow2(n)
    decreases x
  {
    if n > 0 && x >= 2 {
      MssbBounds(x / 2, n - 1);
    }
  }

  /**
   * The divergence shift of critnib_set: for two different bytes, the most significant
   * differing bit rounded down to a multiple of SLICE is 4 exactly when the high nibbles
   * differ, is 0 otherwise, and the two bytes select different slots at that shift.
   */
  lemma SpliceShift(x: Byte, y: Byte)
    requires x != y
    ensures Xor(x, y) > 0
    ensures var sh := (Mssb(Xor(x, y)) / SLICE) * SLICE;
      && (sh == 0 || sh == 4)
      && (sh == 4 <==> x / 16 != y / 16)
      && SliceIndex(x, sh) != SliceIndex(y, sh)
  {
    var at := Xor(x, y);
    XorBelow256(x, y);
    MssbBounds(at, 8);
    MssbBounds(at, 4);
    assert Pow2(4) == 16 && Pow2(8) == 256;
    RoundToSlice(Mssb(at));
    HighNibbleDiffers(x, y);
    SliceIndexNibbles(x);
    SliceIndexNibbles(y);
  }

  lemma RoundToSlice(m: nat)
    requires m < 8
    ensures (m / SLICE) * SLICE == if m < 4 then 0 else 4
  {
  }

  /** The XOR of two bytes reaches the high nibble exactly when their high nibbles differ. */
  lemma HighNibbleDiffers(x: Byte, y: Byte)
    ensures Xor(x, y) >= 16 <==> x / 16 != y / 16
  {
    XorSlice(x, y);
  }

  lemma XorBelow256(x: Byte, y: Byte)
    ensures Xor(x, y) < 256
  {
    XorSlice(x, y);
    XorSlice(x / 16, y / 16);
    assert x / 16 / 16 == 0 && y / 16 / 16 == 0;
    var at := Xor(x, y);
    assert at / 16 / 16 == 0;
  }
}
