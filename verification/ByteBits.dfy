/** Single bits of a byte, as libbuddy/src/buddy.c reads and writes them. */
module ByteBits {
  type byte = bv8

  /** 1 << k */
  function Mask(k: nat): (m: byte)
    requires k < 8
  {
    (1 as bv8) << k
  }

  predicate Bit(b: byte, k: nat)
    requires k < 8
  {
    b & Mask(k) != 0
  }

  lemma MaskTable()
    ensures Mask(0) == 1 && Mask(1) == 2 && Mask(2) == 4 && Mask(3) == 8
    ensures Mask(4) == 16 && Mask(5) == 32 && Mask(6) == 64 && Mask(7) == 128
  {
  }

  lemma OrMask(b: byte, k: nat, j: nat)
    requires k < 8 && j < 8
    ensures Bit(b | Mask(k), j) <==> Bit(b, j) || j == k
  {
  }

  lemma AndNotMask(b: byte, k: nat, j: nat)
    requires k < 8 && j < 8
    ensures Bit(b & !Mask(k), j) <==> Bit(b, j) && j != k
  {
  }

  lemma BareMask(k: nat, j: nat)
    requires k < 8 && j < 8
    ensures Bit(Mask(k), j) <==> j == k
    ensures !Bit(0, j)
  {
  }

  lemma EightMasks(a: bv8, b: bv8)
    requires a & 1 == b & 1 && a & 2 == b & 2 && a & 4 == b & 4 && a & 8 == b & 8
    requires a & 16 == b & 16 && a & 32 == b & 32 && a & 64 == b & 64 && a & 128 == b & 128
    ensures a == b
  {
  }

  lemma SingleBit(a: byte, k: nat)
    requires k < 8
    ensures a & Mask(k) == 0 || a & Mask(k) == Mask(k)
  {
  }

  /** A byte is its eight bits. */
  lemma Extensional(a: byte, b: byte)
    requires forall k: nat | k < 8 :: Bit(a, k) == Bit(b, k)
    ensures a == b
  {
    MaskTable();
    forall k: nat | k < 8
      ensures a & Mask(k) == b & Mask(k)
    {
      assert Bit(a, k) == Bit(b, k);
      SingleBit(a, k);
      SingleBit(b, k);
    }
    assert a & Mask(0) == b & Mask(0) && a & Mask(1) == b & Mask(1) && a & Mask(2) == b & Mask(2);
    assert a & Mask(3) == b & Mask(3) && a & Mask(4) == b & Mask(4) && a & Mask(5) == b & Mask(5);
    assert a & Mask(6) == b & Mask(6) && a & Mask(7) == b & Mask(7);
    EightMasks(a, b);
  }

  /** A byte is zero exactly when none of its bits is set. */
  lemma ZeroByte(b: byte)
    ensures b == 0 <==> forall k: nat | k < 8 :: !Bit(b, k)
  {
    forall k: nat | k < 8
      ensures !Bit(0, k)
    {
      BareMask(0, k);
    }
    if forall k: nat | k < 8 :: !Bit(b, k) {
      Extensional(b, 0);
    }
  }
}
