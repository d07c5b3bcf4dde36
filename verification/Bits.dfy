/** Single bits of bytes. */
module Bits {

  function Mask(j: nat): bv8
    requires j < 8
  {
    1 << j
  }

  predicate Bit(b: bv8, j: nat)
    requires j < 8
  {
    b & Mask(j) != 0
  }

  lemma MaskIs(j: nat)
    requires j < 8
    ensures Mask(j) == [1, 2, 4, 8, 16, 32, 64, 128][j]
  {
    assert j == 0 || j == 1 || j == 2 || j == 3 || j == 4 || j == 5 || j == 6 || j == 7;
  }

  lemma SetBit(b: bv8, j: nat, k: nat)
    requires j < 8 && k < 8
    ensures Bit(b | Mask(j), k) <==> j == k || Bit(b, k)
  {
    MaskIs(j);
    MaskIs(k);
  }

  lemma ClearBit(b: bv8, j: nat, k: nat)
    requires j < 8 && k < 8
    ensures Bit(b & !Mask(j), k) <==> j != k && Bit(b, k)
  {
    MaskIs(j);
    MaskIs(k);
  }
}
