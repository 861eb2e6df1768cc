/** Bits of one byte of a bitflag buffer, bit 0 being the least significant
    one (the bit `1 << 0` selects). */
module Bytes {

  /** The single-bit mask `1 << j` of a byte. */
  function Mask(j: nat): (m: bv8)
    requires j < 8
  {
    match j
    case 0 => 0x01
    case 1 => 0x02
    case 2 => 0x04
    case 3 => 0x08
    case 4 => 0x10
    case 5 => 0x20
    case 6 => 0x40
    case 7 => 0x80
  }

  /** Whether bit j of b is set, as `*byte & (1 << j)` reads it. */
  predicate BitOf(b: bv8, j: nat)
    requires j < 8
  {
    b & Mask(j) != 0
  }

  /** The low mask of k bits, `(1 << 0) | ... | (1 << (k - 1))`. */
  function LowMask(k: nat): (m: bv8)
    requires k <= 8
  {
    match k
    case 0 => 0x00
    case 1 => 0x01
    case 2 => 0x03
    case 3 => 0x07
    case 4 => 0x0F
    case 5 => 0x1F
    case 6 => 0x3F
    case 7 => 0x7F
    case 8 => 0xFF
  }

  /** Adding bit k to the low mask of k bits gives the low mask of k + 1 bits,
      which is how the mask loop of operator& builds it. */
  lemma LowMaskStep(k: nat)
    requires k < 8
    ensures LowMask(k) | Mask(k) == LowMask(k + 1)
  {
  }

  /** The bits of `x | y` are the disjunctions of their bits. */
  lemma OrBit(x: bv8, y: bv8, j: nat)
    requires j < 8
    ensures BitOf(x | y, j) == (BitOf(x, j) || BitOf(y, j))
  {
    var m := Mask(j);
    assert m == 1 || m == 2 || m == 4 || m == 8 || m == 16 || m == 32 || m == 64 || m == 128;
  }

  /** The bits of `x & y` are the conjunctions of their bits. */
  lemma AndBit(x: bv8, y: bv8, j: nat)
    requires j < 8
    ensures BitOf(x & y, j) == (BitOf(x, j) && BitOf(y, j))
  {
    var m := Mask(j);
    assert m == 1 || m == 2 || m == 4 || m == 8 || m == 16 || m == 32 || m == 64 || m == 128;
  }

  /** Bit j of `1 << r` is set exactly when j == r. */
  lemma MaskBit(r: nat, j: nat)
    requires r < 8 && j < 8
    ensures BitOf(Mask(r), j) == (j == r)
    ensures BitOf(!Mask(r), j) == (j != r)
  {
    match r
    case 0 =>
    case 1 =>
    case 2 =>
    case 3 =>
    case 4 =>
    case 5 =>
    case 6 =>
    case 7 =>
  }

  /** `b |= 1 << r` sets bit r and keeps the others. */
  lemma SetBit(b: bv8, r: nat, j: nat)
    requires r < 8 && j < 8
    ensures BitOf(b | Mask(r), j) == (j == r || BitOf(b, j))
  {
    OrBit(b, Mask(r), j);
    MaskBit(r, j);
  }

  /** `b &= ~(1 << r)` clears bit r and keeps the others. */
  lemma ClearBit(b: bv8, r: nat, j: nat)
    requires r < 8 && j < 8
    ensures BitOf(b & !Mask(r), j) == (j != r && BitOf(b, j))
  {
    AndBit(b, !Mask(r), j);
    MaskBit(r, j);
  }

  /** Bit j of the low mask of k bits is set exactly when j < k. */
  lemma LowMaskBit(k: nat, j: nat)
    requires k <= 8 && j < 8
    ensures BitOf(LowMask(k), j) == (j < k)
  {
    match k
    case 0 =>
    case 1 =>
    case 2 =>
    case 3 =>
    case 4 =>
    case 5 =>
    case 6 =>
    case 7 =>
    case 8 =>
  }

  /** Two bytes are equal exactly when all their bits are. */
  lemma ByteEquality(x: bv8, y: bv8)
    ensures (x == y) == (forall j :: 0 <= j < 8 ==> BitOf(x, j) == BitOf(y, j))
  {
    if forall j :: 0 <= j < 8 ==> BitOf(x, j) == BitOf(y, j) {
      assert BitOf(x, 0) == BitOf(y, 0) && BitOf(x, 1) == BitOf(y, 1);
      assert BitOf(x, 2) == BitOf(y, 2) && BitOf(x, 3) == BitOf(y, 3);
      assert BitOf(x, 4) == BitOf(y, 4) && BitOf(x, 5) == BitOf(y, 5);
      assert BitOf(x, 6) == BitOf(y, 6) && BitOf(x, 7) == BitOf(y, 7);
    }
  }

  /** A byte is zero exactly when none of its bits is set. */
  lemma ZeroByte(b: bv8)
    ensures (b == 0) == (forall j :: 0 <= j < 8 ==> !BitOf(b, j))
  {
    ByteEquality(b, 0);
  }

  /** `x & y` is non-zero exactly when the two bytes share a set bit. */
  lemma AndNonZero(x: bv8, y: bv8)
    ensures (x & y != 0) == (exists j :: 0 <= j < 8 && BitOf(x, j) && BitOf(y, j))
  {
    ZeroByte(x & y);
    forall j | 0 <= j < 8 ensures BitOf(x & y, j) == (BitOf(x, j) && BitOf(y, j)) {
      AndBit(x, y, j);
    }
  }

  /** Masking with the low mask of k bits keeps the first k bits and clears
      the others. */
  lemma MaskedBits(x: bv8, k: nat)
    requires k <= 8
    ensures forall j :: 0 <= j < 8 ==> BitOf(x & LowMask(k), j) == (j < k && BitOf(x, j))
  {
    forall j | 0 <= j < 8 ensures BitOf(x & LowMask(k), j) == (j < k && BitOf(x, j)) {
      AndBit(x, LowMask(k), j);
      LowMaskBit(k, j);
    }
  }

  /** Whether x and y agree on the bits of mask m. */
  predicate SameUnder(x: bv8, y: bv8, m: bv8)
  {
    x & m == y & m
  }

  /** Comparing `x & mask` with `y & mask` for the low mask of k bits compares
      the first k bits of the two bytes. */
  lemma MaskedEqual(x: bv8, y: bv8, k: nat)
    requires k <= 8
    ensures SameUnder(x, y, LowMask(k)) == (forall j :: 0 <= j < k ==> BitOf(x, j) == BitOf(y, j))
  {
    var mx, my := x & LowMask(k), y & LowMask(k);
    assert SameUnder(x, y, LowMask(k)) == (mx == my);
    MaskedBits(x, k);
    MaskedBits(y, k);
    ByteEquality(mx, my);
    if mx == my {
      forall j | 0 <= j < k ensures BitOf(x, j) == BitOf(y, j) {
        assert BitOf(mx, j) == BitOf(my, j);
      }
    } else {
      var j :| 0 <= j < 8 && BitOf(mx, j) != BitOf(my, j);
      assert j < k && BitOf(x, j) != BitOf(y, j);
    }
  }
}
