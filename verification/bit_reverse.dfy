/** The 8-bit bit reversal that the string hash applies to every byte
    before mixing it into the accumulators (`reverse` in src/lumen.c). */
module BitReverse {

  /** Bit `k` of `x`, counting from the least significant bit. */
  predicate Bit(x: bv8, k: bv8)
    requires k < 8
  {
    (x >> k) & 1 == 1
  }

  /** Two bytes that agree on every bit are equal. */
  lemma BitsDetermine(x: bv8, y: bv8)
    requires forall k: bv8 :: k < 8 ==> Bit(x, k) == Bit(y, k)
    ensures x == y
  {
    assert Bit(x, 0) == Bit(y, 0);
    assert Bit(x, 1) == Bit(y, 1);
    assert Bit(x, 2) == Bit(y, 2);
    assert Bit(x, 3) == Bit(y, 3);
    assert Bit(x, 4) == Bit(y, 4);
    assert Bit(x, 5) == Bit(y, 5);
    assert Bit(x, 6) == Bit(y, 6);
    assert Bit(x, 7) == Bit(y, 7);
  }

  /** The source's three-stage swap: nibbles, then bit pairs, then
      adjacent bits. */
  function Reverse(b: bv8): bv8 {
    var b1 := ((b & 0xF0) >> 4) | ((b & 0x0F) << 4);
    var b2 := ((b1 & 0xCC) >> 2) | ((b1 & 0x33) << 2);
    ((b2 & 0xAA) >> 1) | ((b2 & 0x55) << 1)
  }

  /** The swap is a bit reversal: bit `k` of the result is bit `7 - k` of
      the input. */
  lemma ReverseReversesBits(b: bv8)
    ensures forall k: bv8 :: k < 8 ==> Bit(Reverse(b), k) == Bit(b, 7 - k)
  {
  }

  /** Reversing twice gives back the byte: every bit returns to its place. */
  lemma ReverseInvolution(b: bv8)
    ensures Reverse(Reverse(b)) == b
  {
    var r := Reverse(b);
    var rr := Reverse(r);
    ReverseReversesBits(b);
    ReverseReversesBits(r);
    forall k: bv8 | k < 8
      ensures Bit(rr, k) == Bit(b, k)
    {
      assert Bit(rr, k) == Bit(r, 7 - k);
      assert Bit(r, 7 - k) == Bit(b, 7 - (7 - k));
    }
    BitsDetermine(rr, b);
  }

  /** Reversal is injective, so distinct bytes enter the hash distinctly. */
  lemma ReverseInjective(x: bv8, y: bv8)
    requires Reverse(x) == Reverse(y)
    ensures x == y
  {
    ReverseInvolution(x);
    ReverseInvolution(y);
  }

  lemma ReverseExamples()
    ensures Reverse(1) == 128
    ensures Reverse(0x0F) == 0xF0
    ensures Reverse(0x61) == 0x86
    ensures Reverse(0) == 0 && Reverse(0xFF) == 0xFF
  {
  }
}
