/** Commutative rings and fields as records of operations.

    Each law is a named predicate, so that the quantifiers in `IsRing` are instantiated only
    where a lemma below asks for one law at given elements. */
module Rings {

  datatype Option<+T> = None | Some(value: T)

  datatype Ring<!T> = Ring(zero: T, one: T, plus: (T, T) -> T, minus: T -> T, times: (T, T) -> T) {
    function Add(a: T, b: T): T { plus(a, b) }

    function Neg(a: T): T { minus(a) }

    function Mul(a: T, b: T): T { times(a, b) }

    function Sub(a: T, b: T): T { Add(a, Neg(b)) }
  }

  ghost predicate AddComm<T>(r: Ring<T>, a: T, b: T) { r.Add(a, b) == r.Add(b, a) }

  ghost predicate AddAssoc<T>(r: Ring<T>, a: T, b: T, c: T) { r.Add(r.Add(a, b), c) == r.Add(a, r.Add(b, c)) }

  ghost predicate AddUnit<T>(r: Ring<T>, a: T) { r.Add(a, r.zero) == a }

  ghost predicate AddInverse<T>(r: Ring<T>, a: T) { r.Add(a, r.Neg(a)) == r.zero }

  ghost predicate MulComm<T>(r: Ring<T>, a: T, b: T) { r.Mul(a, b) == r.Mul(b, a) }

  ghost predicate MulAssoc<T>(r: Ring<T>, a: T, b: T, c: T) { r.Mul(r.Mul(a, b), c) == r.Mul(a, r.Mul(b, c)) }

  ghost predicate MulUnit<T>(r: Ring<T>, a: T) { r.Mul(a, r.one) == a }

  ghost predicate Distrib<T>(r: Ring<T>, a: T, b: T, c: T) {
    r.Mul(a, r.Add(b, c)) == r.Add(r.Mul(a, b), r.Mul(a, c))
  }

  ghost predicate IsRing<T(!new)>(r: Ring<T>) {
    && (forall a, b :: AddComm(r, a, b))
    && (forall a, b, c :: AddAssoc(r, a, b, c))
    && (forall a :: AddUnit(r, a))
    && (forall a :: AddInverse(r, a))
    && (forall a, b :: MulComm(r, a, b))
    && (forall a, b, c :: MulAssoc(r, a, b, c))
    && (forall a :: MulUnit(r, a))
    && (forall a, b, c :: Distrib(r, a, b, c))
  }

  /** A ring together with the partial inverse that `TowerField::invert` computes. */
  datatype Field<!T> = Field(ring: Ring<T>, inverse: T -> Option<T>) {
    function Invert(a: T): Option<T> { inverse(a) }
  }

  ghost predicate InvertSound<T>(f: Field<T>, a: T) {
    f.Invert(a).Some? ==> f.ring.Mul(a, f.Invert(a).value) == f.ring.one
  }

  ghost predicate InvertTotal<T>(f: Field<T>, a: T) { f.Invert(a).Some? <==> a != f.ring.zero }

  /** A ring whose partial inverse is sound wherever it is defined. */
  ghost predicate IsRingWithInverse<T(!new)>(f: Field<T>) {
    IsRing(f.ring) && forall a :: InvertSound(f, a)
  }

  ghost predicate IsField<T(!new)>(f: Field<T>) {
    IsRingWithInverse(f) && f.ring.one != f.ring.zero && forall a :: InvertTotal(f, a)
  }

  // ---------- the laws, one lemma each ----------

  lemma AddCommutes<T(!new)>(r: Ring<T>, a: T, b: T)
    requires IsRing(r)
    ensures r.Add(a, b) == r.Add(b, a)
  {
    assert AddComm(r, a, b);
  }

  lemma AddAssociates<T(!new)>(r: Ring<T>, a: T, b: T, c: T)
    requires IsRing(r)
    ensures r.Add(r.Add(a, b), c) == r.Add(a, r.Add(b, c))
  {
    assert AddAssoc(r, a, b, c);
  }

  lemma AddZero<T(!new)>(r: Ring<T>, a: T)
    requires IsRing(r)
    ensures r.Add(a, r.zero) == a && r.Add(r.zero, a) == a
  {
    assert AddUnit(r, a) && AddComm(r, a, r.zero);
  }

  lemma AddNegates<T(!new)>(r: Ring<T>, a: T)
    requires IsRing(r)
    ensures r.Add(a, r.Neg(a)) == r.zero && r.Add(r.Neg(a), a) == r.zero
  {
    assert AddInverse(r, a) && AddComm(r, a, r.Neg(a));
  }

  lemma MulCommutes<T(!new)>(r: Ring<T>, a: T, b: T)
    requires IsRing(r)
    ensures r.Mul(a, b) == r.Mul(b, a)
  {
    assert MulComm(r, a, b);
  }

  lemma MulAssociates<T(!new)>(r: Ring<T>, a: T, b: T, c: T)
    requires IsRing(r)
    ensures r.Mul(r.Mul(a, b), c) == r.Mul(a, r.Mul(b, c))
  {
    assert MulAssoc(r, a, b, c);
  }

  lemma MulOne<T(!new)>(r: Ring<T>, a: T)
    requires IsRing(r)
    ensures r.Mul(a, r.one) == a && r.Mul(r.one, a) == a
  {
    assert MulUnit(r, a) && MulComm(r, a, r.one);
  }

  lemma Distributes<T(!new)>(r: Ring<T>, a: T, b: T, c: T)
    requires IsRing(r)
    ensures r.Mul(a, r.Add(b, c)) == r.Add(r.Mul(a, b), r.Mul(a, c))
    ensures r.Mul(r.Add(b, c), a) == r.Add(r.Mul(b, a), r.Mul(c, a))
  {
    assert Distrib(r, a, b, c) && MulComm(r, a, r.Add(b, c)) && MulComm(r, a, b) && MulComm(r, a, c);
  }

  // ---------- consequences ----------

  lemma AddCancels<T(!new)>(r: Ring<T>, a: T, b: T, c: T)
    requires IsRing(r)
    requires r.Add(a, b) == r.Add(a, c)
    ensures b == c
  {
    var n := r.Neg(a);
    AddAssociates(r, n, a, b);
    AddAssociates(r, n, a, c);
    AddNegates(r, a);
    AddZero(r, b);
    AddZero(r, c);
  }

  lemma MulZero<T(!new)>(r: Ring<T>, a: T)
    requires IsRing(r)
    ensures r.Mul(a, r.zero) == r.zero && r.Mul(r.zero, a) == r.zero
  {
    AddZero(r, r.zero);
    Distributes(r, a, r.zero, r.zero);
    AddZero(r, r.Mul(a, r.zero));
    AddCancels(r, r.Mul(a, r.zero), r.Mul(a, r.zero), r.zero);
    MulCommutes(r, a, r.zero);
  }

  /** b is the only element that cancels a. */
  lemma NegUnique<T(!new)>(r: Ring<T>, a: T, b: T)
    requires IsRing(r)
    requires r.Add(a, b) == r.zero
    ensures b == r.Neg(a)
  {
    AddNegates(r, a);
    AddCancels(r, a, b, r.Neg(a));
  }

  lemma NegZero<T(!new)>(r: Ring<T>)
    requires IsRing(r)
    ensures r.Neg(r.zero) == r.zero
  {
    AddZero(r, r.zero);
    NegUnique(r, r.zero, r.zero);
  }

  lemma NegNeg<T(!new)>(r: Ring<T>, a: T)
    requires IsRing(r)
    ensures r.Neg(r.Neg(a)) == a
  {
    AddNegates(r, a);
    NegUnique(r, r.Neg(a), a);
  }

  lemma NegAdd<T(!new)>(r: Ring<T>, a: T, b: T)
    requires IsRing(r)
    ensures r.Neg(r.Add(a, b)) == r.Add(r.Neg(a), r.Neg(b))
  {
    AddSwap(r, a, b, r.Neg(a), r.Neg(b));
    AddNegates(r, a);
    AddNegates(r, b);
    AddZero(r, r.zero);
    NegUnique(r, r.Add(a, b), r.Add(r.Neg(a), r.Neg(b)));
  }

  lemma NegMul<T(!new)>(r: Ring<T>, a: T, b: T)
    requires IsRing(r)
    ensures r.Mul(r.Neg(a), b) == r.Neg(r.Mul(a, b))
    ensures r.Mul(a, r.Neg(b)) == r.Neg(r.Mul(a, b))
  {
    Distributes(r, b, a, r.Neg(a));
    AddNegates(r, a);
    MulZero(r, b);
    NegUnique(r, r.Mul(a, b), r.Mul(r.Neg(a), b));
    Distributes(r, a, b, r.Neg(b));
    AddNegates(r, b);
    MulZero(r, a);
    NegUnique(r, r.Mul(a, b), r.Mul(a, r.Neg(b)));
  }

  /** (a + b) + (c + d) = (a + c) + (b + d) */
  lemma AddSwap<T(!new)>(r: Ring<T>, a: T, b: T, c: T, d: T)
    requires IsRing(r)
    ensures r.Add(r.Add(a, b), r.Add(c, d)) == r.Add(r.Add(a, c), r.Add(b, d))
  {
    AddAssociates(r, a, b, r.Add(c, d));
    AddAssociates(r, b, c, d);
    AddCommutes(r, b, c);
    AddAssociates(r, c, b, d);
    AddAssociates(r, a, c, r.Add(b, d));
  }

  /** (a b)(c d) = (a c)(b d) */
  lemma MulSwap<T(!new)>(r: Ring<T>, a: T, b: T, c: T, d: T)
    requires IsRing(r)
    ensures r.Mul(r.Mul(a, b), r.Mul(c, d)) == r.Mul(r.Mul(a, c), r.Mul(b, d))
  {
    MulAssociates(r, a, b, r.Mul(c, d));
    MulAssociates(r, b, c, d);
    MulCommutes(r, b, c);
    MulAssociates(r, c, b, d);
    MulAssociates(r, a, c, r.Mul(b, d));
  }

  /** a (b c) = b (a c) */
  lemma MulLeftSwap<T(!new)>(r: Ring<T>, a: T, b: T, c: T)
    requires IsRing(r)
    ensures r.Mul(a, r.Mul(b, c)) == r.Mul(b, r.Mul(a, c))
  {
    MulAssociates(r, a, b, c);
    MulCommutes(r, a, b);
    MulAssociates(r, b, a, c);
  }

  lemma SubSelf<T(!new)>(r: Ring<T>, a: T, b: T)
    requires IsRing(r)
    ensures r.Sub(a, b) == r.zero <==> a == b
  {
    AddNegates(r, b);
    if r.Sub(a, b) == r.zero {
      AddCommutes(r, a, r.Neg(b));
      NegUnique(r, r.Neg(b), a);
      NegNeg(r, b);
    }
  }

  /** (a - b) + b = a and (a + b) - b = a */
  lemma SubAdd<T(!new)>(r: Ring<T>, a: T, b: T)
    requires IsRing(r)
    ensures r.Add(r.Sub(a, b), b) == a
    ensures r.Sub(r.Add(a, b), b) == a
  {
    AddAssociates(r, a, r.Neg(b), b);
    AddAssociates(r, a, b, r.Neg(b));
    AddNegates(r, b);
    AddZero(r, a);
  }

  lemma MulSub<T(!new)>(r: Ring<T>, a: T, b: T, c: T)
    requires IsRing(r)
    ensures r.Mul(a, r.Sub(b, c)) == r.Sub(r.Mul(a, b), r.Mul(a, c))
    ensures r.Mul(r.Sub(b, c), a) == r.Sub(r.Mul(b, a), r.Mul(c, a))
  {
    Distributes(r, a, b, r.Neg(c));
    NegMul(r, a, c);
    NegMul(r, c, a);
  }

  /** An element with an inverse can be cancelled. */
  lemma MulCancels<T(!new)>(r: Ring<T>, a: T, inv: T, b: T, c: T)
    requires IsRing(r)
    requires r.Mul(a, inv) == r.one
    requires r.Mul(a, b) == r.Mul(a, c)
    ensures b == c
  {
    MulCommutes(r, a, inv);
    MulAssociates(r, inv, a, b);
    MulAssociates(r, inv, a, c);
    MulOne(r, b);
    MulOne(r, c);
  }

  lemma InvertWorks<T(!new)>(f: Field<T>, a: T)
    requires IsRingWithInverse(f)
    ensures f.Invert(a).Some? ==> f.ring.Mul(a, f.Invert(a).value) == f.ring.one
  {
    assert InvertSound(f, a);
  }

  lemma InvertDefined<T(!new)>(f: Field<T>, a: T)
    requires IsField(f)
    ensures f.Invert(a).Some? <==> a != f.ring.zero
  {
    assert InvertTotal(f, a);
  }

  /** A field has no zero divisors. */
  lemma NoZeroDivisors<T(!new)>(f: Field<T>, a: T, b: T)
    requires IsField(f)
    requires f.ring.Mul(a, b) == f.ring.zero
    ensures a == f.ring.zero || b == f.ring.zero
  {
    if a != f.ring.zero {
      InvertDefined(f, a);
      InvertWorks(f, a);
      MulZero(f.ring, a);
      MulCancels(f.ring, a, f.Invert(a).value, b, f.ring.zero);
    }
  }

  // ---------- homomorphisms ----------

  ghost predicate Preserves<A, B>(f: Ring<A>, g: Ring<B>, h: A -> B, x: A, y: A) {
    h(f.Add(x, y)) == g.Add(h(x), h(y)) && h(f.Mul(x, y)) == g.Mul(h(x), h(y))
  }

  ghost predicate IsHomomorphism<A(!new), B>(f: Ring<A>, g: Ring<B>, h: A -> B) {
    && h(f.zero) == g.zero && h(f.one) == g.one
    && forall x, y :: Preserves(f, g, h, x, y)
  }

  lemma HomAdd<A(!new), B>(f: Ring<A>, g: Ring<B>, h: A -> B, x: A, y: A)
    requires IsHomomorphism(f, g, h)
    ensures h(f.Add(x, y)) == g.Add(h(x), h(y))
  {
    assert Preserves(f, g, h, x, y);
  }

  lemma HomMul<A(!new), B>(f: Ring<A>, g: Ring<B>, h: A -> B, x: A, y: A)
    requires IsHomomorphism(f, g, h)
    ensures h(f.Mul(x, y)) == g.Mul(h(x), h(y))
  {
    assert Preserves(f, g, h, x, y);
  }

  lemma HomNeg<A(!new), B(!new)>(f: Ring<A>, g: Ring<B>, h: A -> B, x: A)
    requires IsRing(f) && IsRing(g) && IsHomomorphism(f, g, h)
    ensures h(f.Neg(x)) == g.Neg(h(x))
  {
    HomAdd(f, g, h, x, f.Neg(x));
    AddNegates(f, x);
    NegUnique(g, h(x), h(f.Neg(x)));
  }

  lemma HomSub<A(!new), B(!new)>(f: Ring<A>, g: Ring<B>, h: A -> B, x: A, y: A)
    requires IsRing(f) && IsRing(g) && IsHomomorphism(f, g, h)
    ensures h(f.Sub(x, y)) == g.Sub(h(x), h(y))
  {
    HomNeg(f, g, h, y);
    HomAdd(f, g, h, x, f.Neg(y));
  }

  // ---------- powers ----------

  function Pow<T>(r: Ring<T>, x: T, n: nat): T {
    if n == 0 then r.one else r.Mul(x, Pow(r, x, n - 1))
  }

  lemma {:induction false} PowAdd<T(!new)>(r: Ring<T>, x: T, m: nat, n: nat)
    requires IsRing(r)
    ensures Pow(r, x, m + n) == r.Mul(Pow(r, x, m), Pow(r, x, n))
  {
    if m == 0 {
      MulOne(r, Pow(r, x, n));
    } else {
      PowAdd(r, x, m - 1, n);
      MulAssociates(r, x, Pow(r, x, m - 1), Pow(r, x, n));
    }
  }

  lemma {:induction false} PowOfProduct<T(!new)>(r: Ring<T>, x: T, y: T, n: nat)
    requires IsRing(r)
    ensures Pow(r, r.Mul(x, y), n) == r.Mul(Pow(r, x, n), Pow(r, y, n))
  {
    if n == 0 {
      MulOne(r, r.one);
    } else {
      PowOfProduct(r, x, y, n - 1);
      MulSwap(r, x, y, Pow(r, x, n - 1), Pow(r, y, n - 1));
    }
  }

  lemma {:induction false} PowOfPower<T(!new)>(r: Ring<T>, x: T, m: nat, n: nat)
    requires IsRing(r)
    ensures Pow(r, Pow(r, x, m), n) == Pow(r, x, m * n)
  {
    if n == 0 {
    } else {
      PowOfPower(r, x, m, n - 1);
      PowAdd(r, x, m, m * (n - 1));
      assert m + m * (n - 1) == m * n;
    }
  }

  lemma {:induction false} PowOfOne<T(!new)>(r: Ring<T>, n: nat)
    requires IsRing(r)
    ensures Pow(r, r.one, n) == r.one
  {
    if n != 0 {
      PowOfOne(r, n - 1);
      MulOne(r, r.one);
    }
  }

  /** A running product multiplied on the right. */
  lemma PowLast<T(!new)>(r: Ring<T>, x: T, n: nat)
    requires IsRing(r)
    ensures r.Mul(Pow(r, x, n), x) == Pow(r, x, n + 1)
  {
    MulCommutes(r, Pow(r, x, n), x);
  }

  lemma PowSmall<T(!new)>(r: Ring<T>, x: T)
    requires IsRing(r)
    ensures Pow(r, x, 0) == r.one && Pow(r, x, 1) == x && Pow(r, x, 2) == r.Mul(x, x)
  {
    assert Pow(r, x, 1) == r.Mul(x, Pow(r, x, 0));
    assert Pow(r, x, 2) == r.Mul(x, Pow(r, x, 1));
    MulOne(r, x);
  }

  /** Powers of an inverse are inverses of powers. */
  lemma PowOfInverse<T(!new)>(r: Ring<T>, x: T, inv: T, n: nat)
    requires IsRing(r)
    requires r.Mul(x, inv) == r.one
    ensures r.Mul(Pow(r, x, n), Pow(r, inv, n)) == r.one
  {
    PowOfProduct(r, x, inv, n);
    PowOfOne(r, n);
  }

  lemma {:induction false} PowNonZero<T(!new)>(f: Field<T>, x: T, n: nat)
    requires IsField(f)
    requires x != f.ring.zero
    ensures Pow(f.ring, x, n) != f.ring.zero
  {
    if n != 0 {
      PowNonZero(f, x, n - 1);
      if Pow(f.ring, x, n) == f.ring.zero {
        NoZeroDivisors(f, x, Pow(f.ring, x, n - 1));
      }
    }
  }

  lemma {:induction false} HomPow<A(!new), B>(f: Ring<A>, g: Ring<B>, h: A -> B, x: A, n: nat)
    requires IsHomomorphism(f, g, h)
    ensures h(Pow(f, x, n)) == Pow(g, h(x), n)
  {
    if n != 0 {
      HomPow(f, g, h, x, n - 1);
      HomMul(f, g, h, x, Pow(f, x, n - 1));
    }
  }

  /** The image of a natural number in the ring. */
  function NatElem<T>(r: Ring<T>, n: nat): T {
    if n == 0 then r.zero else r.Add(r.one, NatElem(r, n - 1))
  }

  lemma {:induction false} NatElemAdd<T(!new)>(r: Ring<T>, m: nat, n: nat)
    requires IsRing(r)
    ensures NatElem(r, m + n) == r.Add(NatElem(r, m), NatElem(r, n))
  {
    if m == 0 {
      AddZero(r, NatElem(r, n));
    } else {
      NatElemAdd(r, m - 1, n);
      AddAssociates(r, r.one, NatElem(r, m - 1), NatElem(r, n));
    }
  }

  lemma {:induction false} NatElemMul<T(!new)>(r: Ring<T>, m: nat, n: nat)
    requires IsRing(r)
    ensures NatElem(r, m * n) == r.Mul(NatElem(r, m), NatElem(r, n))
  {
    if m == 0 {
      MulZero(r, NatElem(r, n));
    } else {
      NatElemMul(r, m - 1, n);
      NatElemAdd(r, n, (m - 1) * n);
      assert n + (m - 1) * n == m * n;
      Distributes(r, NatElem(r, n), r.one, NatElem(r, m - 1));
      MulOne(r, NatElem(r, n));
    }
  }
}
