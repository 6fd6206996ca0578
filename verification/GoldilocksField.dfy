/** p = 2^64 - 2^32 + 1 is prime, so the integers modulo p are a field, and 7 is neither a square nor a cube in it. */
module GoldilocksField {
  import opened Arith
  import opened Rings
  import opened Polynomials
  import opened Primes
  import opened PrimeCharacteristic
  import opened QuadExt
  import opened CubicNorm
  import opened Towers
  import opened TowerFields
  import opened FrobeniusPower
  import opened Goldilocks
  import opened SevenPowers

  const TWO_POWER: nat := 0x1_0000_0000

  // ---------- residues modulo a divisor of p ----------

  ghost predicate Congruent(d: nat, x: Fp, y: Fp)
    requires d > 0
  {
    (x - y) % d == 0
  }

  lemma CongruentMul(d: nat, x: Fp, y: Fp, z: Fp)
    requires Divides(d, GOLDILOCKS) && Congruent(d, x, y)
    ensures Congruent(d, FpMul(x, z), FpMul(y, z))
  {
    var c, k := GOLDILOCKS / d, (x - y) / d;
    var s, t := (x * z) / GOLDILOCKS, (y * z) / GOLDILOCKS;
    assert x - y == k * d && GOLDILOCKS == c * d;
    assert FpMul(x, z) - FpMul(y, z) == (k * z - (s - t) * c) * d by {
      assert x * z == s * GOLDILOCKS + FpMul(x, z) && y * z == t * GOLDILOCKS + FpMul(y, z);
      assert x * z - y * z == (x - y) * z;
      assert (k * d) * z == (k * z) * d;
      assert (s - t) * (c * d) == ((s - t) * c) * d;
    }
    MultipleDivides(k * z - (s - t) * c, d);
  }

  lemma CongruentTrans(d: nat, x: Fp, y: Fp, z: Fp)
    requires d > 0 && Congruent(d, x, y) && Congruent(d, y, z)
    ensures Congruent(d, x, z)
  {
    var a, b := (x - y) / d, (y - z) / d;
    assert x - y == a * d && y - z == b * d;
    assert x - z == (a + b) * d;
    MultipleDivides(a + b, d);
  }

  lemma {:induction false} CongruentPow(d: nat, x: Fp, n: nat)
    requires Divides(d, GOLDILOCKS) && Congruent(d, x, 1)
    ensures Congruent(d, Pow(FpRing(), x, n), 1)
  {
    if n > 0 {
      var one: Fp := 1;
      CongruentPow(d, x, n - 1);
      CongruentMul(d, x, one, Pow(FpRing(), x, n - 1));
      OneTimes(Pow(FpRing(), x, n - 1));
      CongruentTrans(d, FpMul(x, Pow(FpRing(), x, n - 1)), Pow(FpRing(), x, n - 1), one);
    }
  }

  lemma OneTimes(x: Fp)
    ensures FpMul(1, x) == x
  {
  }

  lemma DividesDifference(d: nat, a: nat, b: nat)
    requires Divides(d, a) && Divides(d, b) && b <= a
    ensures Divides(d, a - b)
  {
    assert a == (a / d) * d && b == (b / d) * d;
    assert a - b == (a / d - b / d) * d;
    MultipleDivides(a / d - b / d, d);
  }

  /** Minus one is not one modulo any proper divisor, p being odd. */
  lemma MinusOneDiffers(d: nat)
    requires Divides(d, GOLDILOCKS) && d > 1
    ensures !Congruent(d, GOLDILOCKS - 1, 1)
  {
    if Congruent(d, GOLDILOCKS - 1, 1) {
      DividesDifference(d, GOLDILOCKS, GOLDILOCKS - 2);
    }
  }

  /** A power of a root of unity of order n below the n-th is not one, modulo any divisor of p. */
  lemma {:induction false} RootNotOne(d: nat, w: Fp, n: nat, e: nat)
    requires Divides(d, GOLDILOCKS) && d > 1 && IsRoot(FpRing(), w, n) && 0 < e < n
    ensures !Congruent(d, Pow(FpRing(), w, e), 1)
    decreases n
  {
    var r := FpRing();
    FpIsRing();
    if e % 2 == 0 {
      RootSquare(r, w, n);
      PowOfPower(r, w, 2, e / 2);
      PowSmall(r, w);
      RootNotOne(d, r.Mul(w, w), n / 2, e / 2);
    } else if Congruent(d, Pow(r, w, e), 1) {
      var half := n / 2;
      CongruentPow(d, Pow(r, w, e), half);
      PowOfPower(r, w, e, half);
      PowOfPower(r, w, half, e);
      assert e * half == half * e;
      PowOfMinusOne(r, e);
      MinusOneDiffers(d);
    }
  }

  /** w^j w^(n - i) is w^(j - i), and one when j = i. */
  lemma ShiftBack(w: Fp, n: nat, i: nat, j: nat)
    requires IsRoot(FpRing(), w, n) && i <= j && i < n
    ensures FpMul(Pow(FpRing(), w, j), Pow(FpRing(), w, n - i)) == Pow(FpRing(), w, j - i)
  {
    var r := FpRing();
    FpIsRing();
    PowAdd(r, w, j, n - i);
    PowAdd(r, w, n, j - i);
    assert j + (n - i) == n + (j - i);
    RootPower(r, w, n);
    OneTimes(Pow(r, w, j - i));
  }

  lemma RootsDiffer(d: nat, w: Fp, n: nat, i: nat, j: nat)
    requires Divides(d, GOLDILOCKS) && d > 1 && IsRoot(FpRing(), w, n) && i < j < n
    ensures !Congruent(d, Pow(FpRing(), w, j), Pow(FpRing(), w, i))
  {
    if Congruent(d, Pow(FpRing(), w, j), Pow(FpRing(), w, i)) {
      CongruentMul(d, Pow(FpRing(), w, j), Pow(FpRing(), w, i), Pow(FpRing(), w, n - i));
      ShiftBack(w, n, i, i);
      ShiftBack(w, n, i, j);
      RootNotOne(d, w, n, j - i);
    }
  }

  lemma RootIsUnit(d: nat, w: Fp, n: nat, i: nat)
    requires Divides(d, GOLDILOCKS) && d > 1 && IsRoot(FpRing(), w, n) && i < n
    ensures !Congruent(d, Pow(FpRing(), w, i), 0)
  {
    if Congruent(d, Pow(FpRing(), w, i), 0) {
      CongruentMul(d, Pow(FpRing(), w, i), 0, Pow(FpRing(), w, n - i));
      ShiftBack(w, n, i, i);
    }
  }

  // ---------- counting ----------

  /** The numbers between zero and m. */
  function Below(m: nat): (numbers: set<nat>)
    ensures forall x :: x in numbers <==> 0 < x < m
  {
    if m <= 1 then {} else Below(m - 1) + {m - 1}
  }

  lemma {:induction false} BelowSize(m: nat)
    requires m > 0
    ensures |Below(m)| == m - 1
  {
    if m > 1 {
      BelowSize(m - 1);
    }
  }

  ghost predicate AllDiffer(s: seq<nat>) { forall i, j :: 0 <= i < j < |s| ==> s[i] != s[j] }

  function Elements(s: seq<nat>): set<nat> { set x | x in s }

  lemma {:induction false} ElementsCount(s: seq<nat>)
    requires AllDiffer(s)
    ensures |Elements(s)| == |s|
  {
    if s == [] {
      assert Elements(s) == {};
    } else {
      var init, last := s[..|s| - 1], s[|s| - 1];
      ElementsCount(init);
      assert s == init + [last];
      assert Elements(s) == Elements(init) + {last};
    }
  }

  lemma SubsetSize(a: set<nat>, b: set<nat>)
    requires a <= b
    ensures |a| <= |b|
  {
    assert b == a + (b - a);
  }

  /** m distinct numbers between zero and d: d is larger than m. */
  lemma Pigeonhole(s: seq<nat>, d: nat)
    requires d > 0 && AllDiffer(s) && forall i :: 0 <= i < |s| ==> 0 < s[i] < d
    ensures |s| < d
  {
    ElementsCount(s);
    BelowSize(d);
    SubsetSize(Elements(s), Below(d));
  }

  // ---------- primality ----------

  /** 7^(2^32 - 1) has order 2^32. */
  lemma TwoPowerRoot(seven: Fp) returns (w: Fp)
    requires seven == 7
    ensures IsRoot(FpRing(), w, TWO_POWER)
  {
    var r := FpRing();
    FpIsRing();
    w := Pow(r, seven, TWO_POWER - 1);
    HalfOrderPower(seven);
    PowOfPower(r, seven, TWO_POWER - 1, TWO_POWER / 2);
    assert (TWO_POWER - 1) * (TWO_POWER / 2) == HALF_ORDER;
    LargestIsPower();
  }

  lemma SameResidue(d: nat, x: Fp, y: Fp)
    requires d > 0 && Residue(d, x) == Residue(d, y)
    ensures Congruent(d, x, y)
  {
    assert x == (x / d) * d + x % d && y == (y / d) * d + y % d;
    assert x - y == (x / d - y / d) * d;
    MultipleDivides(x / d - y / d, d);
  }

  function Residue(d: nat, x: Fp): (m: nat)
    requires d > 0
    ensures m < d
  {
    x % d
  }

  ghost predicate ResidueAt(d: nat, w: Fp, i: nat, residue: nat)
    requires d > 0
  {
    residue == Residue(d, Pow(FpRing(), w, i))
  }

  /** Modulo a divisor of p the powers of a root of order n are still distinct and nonzero. */
  lemma ResiduesDiffer(d: nat, w: Fp, n: nat, s: seq<nat>)
    requires Divides(d, GOLDILOCKS) && d > 1 && IsRoot(FpRing(), w, n)
    requires |s| == n && forall i: nat :: i < n ==> ResidueAt(d, w, i, s[i])
    ensures AllDiffer(s) && forall i :: 0 <= i < |s| ==> 0 < s[i] < d
  {
    forall i: nat, j: nat | i < j < |s|
      ensures s[i] != s[j]
    {
      assert ResidueAt(d, w, i, s[i]) && ResidueAt(d, w, j, s[j]);
      ResidueDiffers(d, w, n, i, j);
    }
    forall i: nat | i < |s|
      ensures 0 < s[i] < d
    {
      assert ResidueAt(d, w, i, s[i]);
      ResiduePositive(d, w, n, i);
    }
  }

  lemma ResidueDiffers(d: nat, w: Fp, n: nat, i: nat, j: nat)
    requires Divides(d, GOLDILOCKS) && d > 1 && IsRoot(FpRing(), w, n) && i < j < n
    ensures Residue(d, Pow(FpRing(), w, i)) != Residue(d, Pow(FpRing(), w, j))
  {
    RootsDiffer(d, w, n, i, j);
    if Residue(d, Pow(FpRing(), w, i)) == Residue(d, Pow(FpRing(), w, j)) {
      SameResidue(d, Pow(FpRing(), w, j), Pow(FpRing(), w, i));
    }
  }

  lemma ResiduePositive(d: nat, w: Fp, n: nat, i: nat)
    requires Divides(d, GOLDILOCKS) && d > 1 && IsRoot(FpRing(), w, n) && i < n
    ensures Residue(d, Pow(FpRing(), w, i)) > 0
  {
    RootIsUnit(d, w, n, i);
  }

  ghost function ResiduesOf(d: nat, w: Fp, n: nat): (s: seq<nat>)
    requires d > 0
    ensures |s| == n && forall i: nat :: i < n ==> ResidueAt(d, w, i, s[i])
  {
    seq(n, i requires 0 <= i < n => Residue(d, Pow(FpRing(), w, i)))
  }

  lemma DivisorIsLarge(d: nat)
    requires Divides(d, GOLDILOCKS) && d > 1
    ensures d > TWO_POWER
  {
    var w := TwoPowerRoot(7);
    var s := ResiduesOf(d, w, TWO_POWER);
    ResiduesDiffer(d, w, TWO_POWER, s);
    Pigeonhole(s, d);
  }

  lemma LargeProduct(d: nat, e: nat)
    requires d > TWO_POWER && e > TWO_POWER
    ensures d * e > TWO_POWER * TWO_POWER
  {
    BlocksMonotone(TWO_POWER, d, e);
  }

  /** A proper divisor and its cofactor would both exceed 2^32, and their product p. */
  lemma GoldilocksIsPrime()
    ensures IsPrime(GOLDILOCKS)
  {
    forall d: nat | 1 < d < GOLDILOCKS
      ensures !Divides(d, GOLDILOCKS)
    {
      if Divides(d, GOLDILOCKS) {
        var e := GOLDILOCKS / d;
        assert GOLDILOCKS == e * d == d * e;
        MultipleDivides(d, e);
        DivisorIsLarge(d);
        DivisorIsLarge(e);
        LargeProduct(d, e);
      }
    }
  }

  // ---------- the field ----------

  /** Inversion by the extended Euclidean algorithm. */
  function FpField(): Field<Fp> {
    Field(FpRing(), (x: Fp) => if x == 0 then None else Some(InverseMod(x, GOLDILOCKS)))
  }

  lemma FpInvert(x: Fp)
    ensures InvertSound(FpField(), x) && InvertTotal(FpField(), x)
  {
    if x != 0 {
      GoldilocksIsPrime();
      InverseModWorks(x, GOLDILOCKS);
    }
  }

  /** The integers modulo p are a field. */
  lemma FpIsField()
    ensures IsField(FpField())
  {
    FpIsRing();
    forall x: Fp
      ensures InvertSound(FpField(), x) && InvertTotal(FpField(), x)
    {
      FpInvert(x);
    }
  }

  lemma {:induction false} NatElemReduces(n: nat)
    ensures NatElem(FpRing(), n) == Reduce(n)
  {
    if n > 0 {
      NatElemReduces(n - 1);
      FpAddReduces(1, Reduce(n - 1));
      ReduceNext(n - 1);
    }
  }

  lemma ReduceNext(n: nat)
    ensures Reduce(1 + Reduce(n)) == Reduce(n + 1)
  {
    assert n == (n / GOLDILOCKS) * GOLDILOCKS + Reduce(n);
    ReduceShift(1 + Reduce(n), n / GOLDILOCKS);
  }

  lemma FpCharacteristic(p: nat)
    requires p == GOLDILOCKS
    ensures HasCharacteristic(FpRing(), p)
  {
    GoldilocksIsPrime();
    NatElemReduces(p);
  }

  /** Fermat's little theorem. */
  lemma Fermat(x: Fp, p: nat)
    requires p == GOLDILOCKS
    ensures Pow(FpRing(), x, p) == x
    ensures x != 0 ==> Pow(FpRing(), x, p - 1) == 1
  {
    FpIsField();
    FpCharacteristic(p);
    NatElemReduces(x);
    FermatForMultiple(FpField(), p, x, x);
  }

  /** A square's power (p - 1) / 2 is one, that of 7 is minus one. */
  lemma SevenNotSquare()
    ensures !IsSquare(FpRing(), 7)
  {
    if IsSquare(FpRing(), 7) {
      var s :| FpRing().Mul(s, s) == 7;
      FpIsRing();
      PowSmall(FpRing(), s);
      RootOfSeven(s, 2, HALF_ORDER);
      HalfOrderPower(7);
    }
  }

  /** A cube's power (p - 1) / 3 is one, that of 7 is not. */
  lemma SevenNotCube()
    ensures !IsCube(FpRing(), 7)
  {
    if IsCube(FpRing(), 7) {
      var s :| Pow(FpRing(), s, 3) == 7;
      RootOfSeven(s, 3, THIRD_ORDER);
      ThirdOrderPower(7);
    }
  }

  lemma RootOfSeven(s: Fp, m: nat, order: nat)
    requires m > 0 && Pow(FpRing(), s, m) == 7 && m * order == GOLDILOCKS - 1
    ensures Pow(FpRing(), 7, order) == 1
  {
    FpIsRing();
    PowOfPower(FpRing(), s, m, order);
    if s == 0 {
      MulCommutes(FpRing(), 0, Pow(FpRing(), 0, m - 1));
      MulZero(FpRing(), Pow(FpRing(), 0, m - 1));
    } else {
      Fermat(s, GOLDILOCKS);
    }
  }

  // ---------- the towers over it ----------

  /** The ground level: Frobenius is the identity. */
  function FpTower(): Tower<Fp> {
    Tower(FpField(), (x: Fp) => FpMul(x, x), (x: Fp) => x)
  }

  /** All hypotheses of the tower theorems hold over the Goldilocks field. */
  lemma FpIsGround()
    ensures IsField(FpTower().field) && IsGround(FpTower(), 7)
  {
    FpIsField();
    HalfOrderPower(7);
  }

  /** In the sextic extension of the Goldilocks field every nonzero element has an inverse. */
  lemma GoldilocksSexticIsField()
    ensures IsField(SexticTower(FpTower(), 7).field)
  {
    FpIsGround();
    SevenNotSquare();
    SevenNotCube();
    SexticFieldIff(FpTower(), 7);
  }

  /** The same for the octic extension. */
  lemma GoldilocksOcticIsField()
    ensures IsField(OcticTower(FpTower(), 7).field)
  {
    FpIsGround();
    SevenNotSquare();
    OcticFieldIff(FpTower(), 7);
  }

  /** So does Fermat's little theorem, which makes Frobenius the p-th power on the towers. */
  lemma FpIsPrimeGround(p: nat)
    requires p == GOLDILOCKS
    ensures IsPrimeGround(FpTower(), 7, p)
  {
    FpIsGround();
    FpCharacteristic(p);
    forall x: Fp
      ensures Pow(FpRing(), x, p) == x
    {
      Fermat(x, p);
    }
  }
}
