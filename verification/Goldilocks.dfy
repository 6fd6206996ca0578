/** The integers modulo p = 2^64 - 2^32 + 1. */
module Goldilocks {
  import opened Arith
  import opened Rings
  import opened Towers

  type Fp = x: int | 0 <= x < GOLDILOCKS

  function Reduce(x: int): Fp { x % GOLDILOCKS }

  function FpAdd(x: Fp, y: Fp): Fp { if x + y >= GOLDILOCKS then x + y - GOLDILOCKS else x + y }

  function FpNeg(x: Fp): Fp { if x == 0 then 0 else GOLDILOCKS - x }

  function FpMul(x: Fp, y: Fp): Fp { Reduce(x * y) }

  function FpRing(): Ring<Fp> {
    Ring(0, 1, (x: Fp, y: Fp) => FpAdd(x, y), (x: Fp) => FpNeg(x), (x: Fp, y: Fp) => FpMul(x, y))
  }

  /** Numbers that differ by a multiple of p reduce to the same element. */
  lemma ReduceShift(x: int, k: int)
    ensures Reduce(x + k * GOLDILOCKS) == Reduce(x)
  {
    var q := x / GOLDILOCKS;
    assert x == q * GOLDILOCKS + Reduce(x);
    DivModUnique(x + k * GOLDILOCKS, GOLDILOCKS, q + k, Reduce(x));
  }

  /** Reducing one factor first does not change the product. */
  lemma ReduceFactor(x: int, y: int)
    ensures Reduce(Reduce(x) * y) == Reduce(x * y)
  {
    var q := x / GOLDILOCKS;
    assert x == q * GOLDILOCKS + Reduce(x);
    assert x * y == Reduce(x) * y + (q * y) * GOLDILOCKS;
    ReduceShift(Reduce(x) * y, q * y);
  }

  lemma ReduceProduct(x: Fp, y: Fp, z: Fp)
    ensures Reduce(Reduce(x * y) * z) == Reduce(x * y * z) == Reduce(x * Reduce(y * z))
  {
    ReduceFactor(x * y, z);
    ReduceFactor(y * z, x);
    assert x * Reduce(y * z) == Reduce(y * z) * x;
    assert (y * z) * x == x * y * z;
  }

  lemma FpAddReduces(x: Fp, y: Fp)
    ensures FpAdd(x, y) == Reduce(x + y)
  {
    DivModUnique(x + y, GOLDILOCKS, if x + y >= GOLDILOCKS then 1 else 0, FpAdd(x, y));
  }

  lemma ReduceSum(x: Fp, y: Fp, z: Fp)
    ensures Reduce(x * FpAdd(y, z)) == FpAdd(Reduce(x * y), Reduce(x * z))
  {
    FpAddReduces(y, z);
    FpAddReduces(Reduce(x * y), Reduce(x * z));
    ReduceFactor(y + z, x);
    assert x * FpAdd(y, z) == FpAdd(y, z) * x;
    var (q1, q2) := ((x * y) / GOLDILOCKS, (x * z) / GOLDILOCKS);
    assert (y + z) * x == Reduce(x * y) + Reduce(x * z) + (q1 + q2) * GOLDILOCKS;
    ReduceShift(Reduce(x * y) + Reduce(x * z), q1 + q2);
  }

  lemma FpAdds(a: Fp, b: Fp, c: Fp)
    ensures AddComm(FpRing(), a, b) && AddAssoc(FpRing(), a, b, c)
    ensures AddUnit(FpRing(), a) && AddInverse(FpRing(), a)
  {
  }

  lemma FpMultiplies(a: Fp, b: Fp, c: Fp)
    ensures MulComm(FpRing(), a, b) && MulAssoc(FpRing(), a, b, c)
    ensures MulUnit(FpRing(), a) && Distrib(FpRing(), a, b, c)
  {
    SameProduct(a, b);
    ReduceProduct(a, b, c);
    ReduceSum(a, b, c);
  }

  lemma SameProduct(x: int, y: int)
    ensures Reduce(x * y) == Reduce(y * x)
  {
  }

  lemma FpIsRing()
    ensures IsRing(FpRing())
  {
    forall a: Fp, b: Fp, c: Fp
      ensures AddComm(FpRing(), a, b) && AddAssoc(FpRing(), a, b, c) && AddUnit(FpRing(), a) && AddInverse(FpRing(), a)
    {
      FpAdds(a, b, c);
    }
    forall a: Fp, b: Fp, c: Fp
      ensures MulComm(FpRing(), a, b) && MulAssoc(FpRing(), a, b, c) && MulUnit(FpRing(), a)
      ensures Distrib(FpRing(), a, b, c)
    {
      FpMultiplies(a, b, c);
    }
  }
}
