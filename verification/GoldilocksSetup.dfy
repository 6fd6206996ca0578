/** The protocol's hypotheses hold over the sextic extension of the Goldilocks field. */
module GoldilocksSetup {
  import opened Arith
  import opened Rings
  import opened Polynomials
  import opened Domains
  import opened ExtTransform
  import opened Hashing
  import opened Primes
  import opened Towers
  import opened SexticBasis
  import opened Goldilocks
  import opened SevenPowers
  import opened GoldilocksField
  import opened FriSetup

  // ---------- domains over the ground field ----------

  /** omega_n = 7^((p - 1) / n) */
  function Omega(n: nat): Fp
    requires n > 0
  {
    Pow(FpRing(), 7, (GOLDILOCKS - 1) / n)
  }

  /** The radix-2 domain of a size, rounded up. */
  function FpDomain(size: nat): Domain<Fp> {
    var n := NextPowerOfTwo(size);
    Domain(n, Omega(n), InverseMod(Omega(n), GOLDILOCKS), InverseMod(n, GOLDILOCKS))
  }

  lemma DividesMultiple(n: nat, a: nat, b: nat)
    requires Divides(n, b)
    ensures Divides(n, a * b)
  {
    var k := b / n;
    assert b == k * n && a * (k * n) == (a * k) * n;
    MultipleDivides(a * k, n);
  }

  /** A power of two up to 2^32 divides p - 1 = (2^32 - 1) 2^32. */
  lemma OrderDivides(n: nat)
    requires IsPowerOfTwo(n) && n <= MAX_DOMAIN
    ensures Divides(n, GOLDILOCKS - 1)
  {
    LargestIsPower();
    PowersOfTwoDivide(MAX_DOMAIN, n);
    DividesMultiple(n, MAX_DOMAIN - 1, MAX_DOMAIN);
  }

  lemma QuotientByFactor(order: nat, m: nat, q: nat, n: nat)
    requires q > 0 && n == m * q && Divides(n, order)
    ensures order / q == (order / n) * m
  {
    var e := order / n;
    assert order == e * n && e * (m * q) == (e * m) * q;
    MultipleDivides(e * m, q);
  }

  /** omega_q = omega_n^m for n = m q */
  lemma OmegaNests(m: nat, q: nat, n: nat)
    requires IsPowerOfTwo(m) && IsPowerOfTwo(q) && n == m * q && n <= MAX_DOMAIN
    ensures n > 0 && Omega(q) == Pow(FpRing(), Omega(n), m)
  {
    PowerTimesPower(m, q);
    OrderDivides(n);
    QuotientByFactor(GOLDILOCKS - 1, m, q, n);
    FpIsRing();
    PowOfPower(FpRing(), 7, (GOLDILOCKS - 1) / n, m);
  }

  /** omega_n^(n/2) = 7^((p - 1) / 2) = -1 */
  lemma OmegaIsRoot(n: nat)
    requires IsPowerOfTwo(n) && n <= MAX_DOMAIN
    ensures IsRoot(FpRing(), Omega(n), n)
  {
    FpIsRing();
    if n == 1 {
      Fermat(7, GOLDILOCKS);
    } else {
      OmegaHalfway(n, n / 2);
    }
  }

  lemma OmegaHalfway(n: nat, half: nat)
    requires IsPowerOfTwo(n) && n == 2 * half && n <= MAX_DOMAIN
    ensures Pow(FpRing(), Omega(n), half) == FpRing().Neg(FpRing().one)
  {
    FpIsRing();
    OrderDivides(n);
    QuotientByFactor(GOLDILOCKS - 1, half, 2, n);
    PowOfPower(FpRing(), 7, (GOLDILOCKS - 1) / n, half);
    HalfOrderPower(7);
  }

  lemma OmegaNonZero(n: nat)
    requires IsPowerOfTwo(n) && n <= MAX_DOMAIN
    ensures Omega(n) != 0
  {
    var r := FpRing();
    FpIsRing();
    OmegaIsRoot(n);
    RootPower(r, Omega(n), n);
    if Omega(n) == 0 {
      MulCommutes(r, 0, Pow(r, 0, n - 1));
      MulZero(r, Pow(r, 0, n - 1));
    }
  }

  lemma InverseIsInverse(x: Fp)
    requires x != 0
    ensures FpMul(x, InverseMod(x, GOLDILOCKS)) == 1
  {
    GoldilocksIsPrime();
    InverseModWorks(x, GOLDILOCKS);
  }

  /** The domains the polynomial library builds meet the contract. */
  lemma FpDomainValid(size: nat)
    requires size <= MAX_DOMAIN
    ensures ValidDomain(FpRing(), FpDomain(size)) && FpDomain(size).size == NextPowerOfTwo(size)
  {
    var n := NextPowerOfTwo(size);
    LargestIsPower();
    NextPowerIsLeast(size, MAX_DOMAIN);
    OmegaIsRoot(n);
    OmegaNonZero(n);
    InverseIsInverse(Omega(n));
    SizeInverse(n);
  }

  lemma SizeInverse(n: nat)
    requires 0 < n < GOLDILOCKS
    ensures FpMul(NatElem(FpRing(), n), InverseMod(n, GOLDILOCKS)) == 1
  {
    NatElemReduces(n);
    InverseIsInverse(n);
  }

  // ---------- seen in the extension ----------

  lemma {:induction false} NatElemEmbeds<A(!new), T(!new)>(f: Ring<A>, r: Ring<T>, emb: A -> T, n: nat)
    requires IsHomomorphism(f, r, emb)
    ensures NatElem(r, n) == emb(NatElem(f, n))
  {
    if n > 0 {
      NatElemEmbeds(f, r, emb, n - 1);
      HomAdd(f, r, emb, f.one, NatElem(f, n - 1));
    }
  }

  /** A homomorphism keeps the contract of a domain. */
  lemma EmbeddedDomain<A(!new), T(!new)>(f: Ring<A>, r: Ring<T>, emb: A -> T, d: Domain<A>)
    requires IsRing(f) && IsRing(r) && IsHomomorphism(f, r, emb) && ValidDomain(f, d)
    ensures ValidDomain(r, EmbedDomain(emb, d))
  {
    HomPow(f, r, emb, d.gen, d.size / 2);
    HomNeg(f, r, emb, f.one);
    HomMul(f, r, emb, d.gen, d.genInv);
    NatElemEmbeds(f, r, emb, d.size);
    HomMul(f, r, emb, NatElem(f, d.size), d.sizeInv);
  }

  /** The sextic tower, its components, its domains; any hash function, serialization and oracles. */
  function SexticSetup(fieldBytes: Fp -> seq<Byte>, hasher: Hasher, squeeze: (Log, string) -> Fp,
                       index: (Fp, nat) -> nat)
    : Setup<Fp, Sextic<Fp>>
  {
    var B := BasisFor(FpTower());
    Setup(SexticTower(FpTower(), 7).field, 6, FpRing(), B.elements, B.emb, B.comps, B.fromComps, (n: nat) => Reduce(n),
          fieldBytes, (n: nat) => EmbedDomain(B.emb, FpDomain(n)), (n: nat) => FpDomain(n), hasher, squeeze, index)
  }

  ghost predicate DomainIs(S: Setup<Fp, Sextic<Fp>>, n: nat) {
    S.groundDomains(n) == FpDomain(n) && S.domains(n) == EmbedDomain(S.emb, FpDomain(n))
  }

  lemma SetupDomain(S: Setup<Fp, Sextic<Fp>>, n: nat)
    requires IsField(S.k) && IsHomomorphism(FpRing(), S.k.ring, S.emb)
    requires DomainIs(S, n) && DomainIs(S, NextPowerOfTwo(n))
    ensures DomainFits(S, n) && DomainRounds(S, n) && DomainEmbeds(S, n)
  {
    NextOfPower(NextPowerOfTwo(n));
    if IsPowerOfTwo(n) && n <= MAX_DOMAIN {
      NextOfPower(n);
      FpIsRing();
      FpDomainValid(n);
      EmbeddedDomain(FpRing(), S.k.ring, S.emb, FpDomain(n));
    }
  }

  lemma SetupNests(S: Setup<Fp, Sextic<Fp>>, m: nat, q: nat, n: nat)
    requires IsHomomorphism(FpRing(), S.k.ring, S.emb) && n == m * q && DomainIs(S, q) && DomainIs(S, n)
    ensures DomainsNest(S, m, q)
  {
    if IsPowerOfTwo(m) && IsPowerOfTwo(q) && n <= MAX_DOMAIN {
      OmegaNests(m, q, n);
      PowerTimesPower(m, q);
      NextOfPower(q);
      NextOfPower(n);
      HomPow(FpRing(), S.k.ring, S.emb, Omega(n), m);
    }
  }

  function Product(m: nat, q: nat): nat { m * q }

  lemma SetupNest(S: Setup<Fp, Sextic<Fp>>, m: nat, q: nat)
    requires IsHomomorphism(FpRing(), S.k.ring, S.emb) && forall n :: DomainIs(S, n)
    ensures DomainsNest(S, m, q)
  {
    SetupNests(S, m, q, Product(m, q));
  }

  lemma SetupSizes(S: Setup<Fp, Sextic<Fp>>)
    requires IsField(S.k) && IsHomomorphism(FpRing(), S.k.ring, S.emb) && forall n :: DomainIs(S, n)
    ensures (forall n :: DomainFits(S, n)) && (forall n :: DomainRounds(S, n)) && (forall n :: DomainEmbeds(S, n))
  {
    forall n: nat
      ensures DomainFits(S, n) && DomainRounds(S, n) && DomainEmbeds(S, n)
    {
      SetupDomain(S, n);
    }
  }

  lemma SetupDomains(S: Setup<Fp, Sextic<Fp>>)
    requires IsField(S.k) && IsHomomorphism(FpRing(), S.k.ring, S.emb) && forall n :: DomainIs(S, n)
    ensures (forall n :: DomainFits(S, n)) && (forall n :: DomainRounds(S, n)) && (forall n :: DomainEmbeds(S, n))
    ensures forall m, q :: DomainsNest(S, m, q)
  {
    SetupSizes(S);
    forall m: nat, q: nat
      ensures DomainsNest(S, m, q)
    {
      SetupNest(S, m, q);
    }
  }

  ghost predicate ComponentsAre(S: Setup<Fp, Sextic<Fp>>) {
    && S.fromU64(0) == 0 && S.degree == 6
    && (forall x :: S.comps(x) == Comps<Fp>(x)) && (forall a :: S.emb(a) == Emb(FpRing(), a))
  }

  lemma SetupComponents(S: Setup<Fp, Sextic<Fp>>)
    requires ComponentsAre(S)
    ensures (forall x :: ComponentsFit(S, x)) && (forall a :: BaseComponents(S, a))
  {
  }

  /** Every hypothesis the protocol theorems make of field, basis and domains is met. */
  lemma SexticSetupValid(fieldBytes: Fp -> seq<Byte>, hasher: Hasher, squeeze: (Log, string) -> Fp,
                         index: (Fp, nat) -> nat)
    ensures ValidSetup(SexticSetup(fieldBytes, hasher, squeeze, index))
  {
    var S := SexticSetup(fieldBytes, hasher, squeeze, index);
    SexticAlgebra(S);
    assert forall n :: DomainIs(S, n);
    SetupDomains(S);
    SetupComponents(S);
  }

  lemma SexticAlgebra(S: Setup<Fp, Sextic<Fp>>)
    requires S.k == SexticTower(FpTower(), 7).field && BasisOf(S) == BasisFor(FpTower())
    ensures IsField(S.k) && IsBasis(S.k.ring, BasisOf(S)) && IsHomomorphism(FpRing(), S.k.ring, S.emb)
  {
    GoldilocksSexticIsField();
    FpIsGround();
    SexticHasBasis(FpTower(), 7);
  }
}
