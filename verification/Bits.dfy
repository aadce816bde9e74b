/** Single bits of packed bytes, and the set of bits a byte array has set. */
module Bits {
  const BIT_COUNT_BYTE := 8
  const MASK_BYTE: bv8 := 0xFF

  predicate Bit(b: bv8, i: nat)
    requires i < 8
  {
    b & ((1 as bv8) << i) != 0
  }

  function OrBit(b: bv8, i: nat): bv8
    requires i < 8
  {
    b | ((1 as bv8) << i)
  }

  function AndNotBit(b: bv8, i: nat): bv8
    requires i < 8
  {
    b & !((1 as bv8) << i)
  }

  lemma SetBit(b: bv8, i: nat, j: nat)
    requires i < 8 && j < 8
    ensures Bit(OrBit(b, i), j) <==> j == i || Bit(b, j)
  {
    EachBit(i);
    EachBit(j);
  }

  lemma ClearBit(b: bv8, i: nat, j: nat)
    requires i < 8 && j < 8
    ensures Bit(AndNotBit(b, i), j) <==> j != i && Bit(b, j)
  {
    EachBit(i);
    EachBit(j);
  }

  lemma EachBit(i: nat)
    requires i < 8
    ensures i == 0 || i == 1 || i == 2 || i == 3 || i == 4 || i == 5 || i == 6 || i == 7
  {
  }

  lemma MaskHasAllBits(j: nat)
    requires j < 8
    ensures Bit(MASK_BYTE, j)
  {
    EachBit(j);
  }

  /** Bit k of a packed array is bit k % 8 of byte k / 8. */
  predicate BitOf(bs: seq<bv8>, k: nat)
    requires k / 8 < |bs|
  {
    Bit(bs[k / 8], k % 8)
  }

  function SetBits(bs: seq<bv8>): set<nat> {
    set k: nat | k < 8 * |bs| && BitOf(bs, k)
  }

  /** Bits count from the lowest one of the first byte: 1 has bit 0 alone, 128 bit 7. */
  lemma BitOrder()
    ensures SetBits([1, 128]) == {0, 15}
  {
    forall k: nat | k < 16
      ensures BitOf([1, 128], k) <==> k == 0 || k == 15
    {
      EachBit(k % 8);
    }
  }

  function WithBit(bs: seq<bv8>, k: nat): seq<bv8>
    requires k / 8 < |bs|
  {
    bs[k / 8 := OrBit(bs[k / 8], k % 8)]
  }

  function WithoutBit(bs: seq<bv8>, k: nat): seq<bv8>
    requires k / 8 < |bs|
  {
    bs[k / 8 := AndNotBit(bs[k / 8], k % 8)]
  }

  lemma MarkBitAt(bs: seq<bv8>, k: nat, j: nat)
    requires k / 8 < |bs| && j / 8 < |bs|
    ensures BitOf(WithBit(bs, k), j) <==> j == k || BitOf(bs, j)
    ensures BitOf(WithoutBit(bs, k), j) <==> j != k && BitOf(bs, j)
  {
    hide Bit, OrBit, AndNotBit;
    SetBit(bs[k / 8], k % 8, j % 8);
    ClearBit(bs[k / 8], k % 8, j % 8);
  }

  lemma MarkBit(bs: seq<bv8>, k: nat)
    requires k / 8 < |bs|
    ensures SetBits(WithBit(bs, k)) == SetBits(bs) + {k}
    ensures SetBits(WithoutBit(bs, k)) == SetBits(bs) - {k}
  {
    hide BitOf;
    forall j: nat | j < 8 * |bs|
      ensures BitOf(WithBit(bs, k), j) <==> j == k || BitOf(bs, j)
      ensures BitOf(WithoutBit(bs, k), j) <==> j != k && BitOf(bs, j)
    {
      MarkBitAt(bs, k, j);
    }
  }

  lemma BitIsClear(bs: seq<bv8>, k: nat)
    requires k / 8 < |bs|
    ensures bs[k / 8] & ((1 as bv8) << (k % 8)) == 0 <==> k !in SetBits(bs)
  {
    assert k < 8 * |bs|;
    assert BitOf(bs, k) <==> bs[k / 8] & ((1 as bv8) << (k % 8)) != 0;
  }

  /** Equal bits make equal bytes, so the set of bits determines the array. */
  lemma BitsDetermineBytes(bs: seq<bv8>, cs: seq<bv8>)
    requires |bs| == |cs| && SetBits(bs) == SetBits(cs)
    ensures bs == cs
  {
    forall i | 0 <= i < |bs|
      ensures bs[i] == cs[i]
    {
      forall j: nat | j < 8
        ensures Bit(bs[i], j) <==> Bit(cs[i], j)
      {
        BitIndex(i, j);
        assert (8 * i + j in SetBits(bs)) <==> BitOf(bs, 8 * i + j);
        assert (8 * i + j in SetBits(cs)) <==> BitOf(cs, 8 * i + j);
      }
      ByteExtensional(bs[i], cs[i]);
    }
  }

  lemma BitIndex(i: nat, j: nat)
    requires j < 8
    ensures (8 * i + j) / 8 == i && (8 * i + j) % 8 == j
  {
  }

  lemma ByteExtensional(b: bv8, c: bv8)
    requires forall j: nat :: j < 8 ==> (Bit(b, j) <==> Bit(c, j))
    ensures b == c
  {
    assert Bit(b, 0) <==> Bit(c, 0);
    assert Bit(b, 1) <==> Bit(c, 1);
    assert Bit(b, 2) <==> Bit(c, 2);
    assert Bit(b, 3) <==> Bit(c, 3);
    assert Bit(b, 4) <==> Bit(c, 4);
    assert Bit(b, 5) <==> Bit(c, 5);
    assert Bit(b, 6) <==> Bit(c, 6);
    assert Bit(b, 7) <==> Bit(c, 7);
  }

  lemma FilledBits(bs: seq<bv8>, n: nat)
    requires n <= |bs| && forall j :: 0 <= j < n ==> bs[j] == MASK_BYTE
    ensures forall k: nat :: k < 8 * n ==> k in SetBits(bs)
  {
    forall k: nat | k < 8 * n
      ensures k in SetBits(bs)
    {
      MaskHasAllBits(k % 8);
      assert BitOf(bs, k);
    }
  }
}
