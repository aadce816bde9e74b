/** The fixed-width integers of the kernel and the few facts about multiples the proofs need. */
module Machine {

  const TWO_8 := 0x100
  const TWO_32 := 0x1_0000_0000
  const TWO_64 := 0x1_0000_0000_0000_0000

  type U8 = x: int | 0 <= x < TWO_8
  type U32 = x: int | 0 <= x < TWO_32
  type U64 = x: int | 0 <= x < TWO_64

  /** Truncation of an arithmetic result to a 64-bit register. */
  function Wrap64(x: int): U64 { x % TWO_64 }

  lemma WrapFits(x: int)
    ensures 0 <= x < TWO_64 ==> Wrap64(x) == x
  {
  }

  lemma Wrap32Fits(x: int)
    ensures 0 <= x < TWO_32 ==> Wrap32(x) == x
  {
  }

  lemma WrapSum(x: int, y: int)
    ensures Wrap64(Wrap64(x) + y) == Wrap64(x + y)
  {
  }

  /** Conversion to a 32-bit value. */
  function Wrap32(x: int): U32 { x % TWO_32 }

  /** Conversion to an 8-bit value. */
  function Wrap8(x: int): U8 { x % TWO_8 }

  function Min(x: int, y: int): int { if x < y then x else y }

  function Max(x: int, y: int): int { if x > y then x else y }

  /** The multiple of p at or below x. */
  function Floor(x: int, p: int): int
    requires p > 0
  {
    x - x % p
  }

  /** The multiple of p at or above x. */
  function Ceiling(x: int, p: int): int
    requires p > 0
  {
    if x % p == 0 then x else x - x % p + p
  }

  lemma DivModUnique(x: int, p: int, q: int, r: int)
    requires 0 <= r < p && x == q * p + r
    ensures x / p == q && x % p == r
  {
    var d := x / p - q;
    assert d * p == r - x % p by {
      assert x == (x / p) * p + x % p;
      assert d * p == (x / p) * p - q * p;
    }
    ProductBound(d, p);
  }

  lemma ProductBound(d: int, p: int)
    requires p > 0
    ensures d >= 1 ==> d * p >= p
    ensures d <= -1 ==> d * p <= -p
  {
  }

  lemma MultipleIsAligned(q: int, p: int)
    requires p > 0
    ensures (q * p) % p == 0 && (q * p) / p == q
  {
    DivModUnique(q * p, p, q, 0);
  }

  lemma AlignedIsMultiple(x: int, p: int)
    requires p > 0 && x % p == 0
    ensures x == (x / p) * p
  {
  }

  lemma AlignedSum(x: int, y: int, p: int)
    requires p > 0 && x % p == 0 && y % p == 0
    ensures (x + y) % p == 0 && (x - y) % p == 0
  {
    assert x + y == (x / p + y / p) * p by { AlignedIsMultiple(x, p); AlignedIsMultiple(y, p); }
    assert x - y == (x / p - y / p) * p by { AlignedIsMultiple(x, p); AlignedIsMultiple(y, p); }
    MultipleIsAligned(x / p + y / p, p);
    MultipleIsAligned(x / p - y / p, p);
  }

  /** Distinct multiples are a whole step apart. */
  lemma AlignedGap(x: int, y: int, p: int)
    requires p > 0 && x % p == 0 && y % p == 0 && x < y
    ensures x + p <= y
  {
    AlignedSum(y, x, p);
    assert (y - x) % p == 0 && y - x > 0;
    if y - x < p {
      DivModUnique(y - x, p, 0, y - x);
    }
  }

  lemma FloorAsProduct(x: int, p: int)
    requires p > 0
    ensures (x / p) * p == Floor(x, p)
    ensures (x / p + 1) * p == Floor(x, p) + p
  {
  }

  lemma QuotientBound(x: nat, p: int)
    requires p > 0
    ensures 0 <= x / p <= x
  {
    var q := x / p;
    assert q >= 1 ==> q * p >= q;
  }

  lemma FloorFacts(x: int, p: int)
    requires p > 0
    ensures Floor(x, p) % p == 0 && Floor(x, p) <= x < Floor(x, p) + p
    ensures Ceiling(x, p) % p == 0 && x <= Ceiling(x, p) < x + p
  {
    assert Floor(x, p) == (x / p) * p;
    MultipleIsAligned(x / p, p);
    AlignedSum(Floor(x, p), p, p) by { MultipleIsAligned(1, p); }
  }

  /** The smallest multiple property of Ceiling. */
  lemma CeilingLeast(x: int, y: int, p: int)
    requires p > 0 && y % p == 0 && x <= y
    ensures Ceiling(x, p) <= y
  {
    FloorFacts(x, p);
    if y < Ceiling(x, p) {
      AlignedGap(y, Ceiling(x, p), p);
    }
  }

  lemma FloorGreatest(x: int, y: int, p: int)
    requires p > 0 && y % p == 0 && y <= x
    ensures y <= Floor(x, p)
  {
    FloorFacts(x, p);
    if Floor(x, p) < y {
      AlignedGap(Floor(x, p), y, p);
    }
  }

  lemma Associative<T>(a: seq<T>, b: seq<T>, c: seq<T>)
    ensures a + b + c == a + (b + c)
  {
  }
}
