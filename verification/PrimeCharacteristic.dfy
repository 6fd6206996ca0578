/** Rings in which a prime vanishes: raising to that power preserves sums. */
module PrimeCharacteristic {
  import opened Rings
  import opened Polynomials
  import opened Primes

  ghost predicate HasCharacteristic<T>(r: Ring<T>, p: nat) { IsPrime(p) && NatElem(r, p) == r.zero }

  /** Coefficients of (y + X)^n, lowest first: multiply by y, and shift. */
  function BinomialRow<T>(r: Ring<T>, y: T, n: nat): (row: seq<T>)
    ensures |row| == n + 1
  {
    if n == 0 then [r.one]
    else
      var row := BinomialRow(r, y, n - 1);
      AddSeq(r, ScaleSeq(r, y, row) + [r.zero], [r.zero] + row)
  }

  lemma {:induction false} RowEval<T(!new)>(r: Ring<T>, y: T, n: nat, x: T)
    requires IsRing(r)
    ensures Eval(r, BinomialRow(r, y, n), x) == Pow(r, r.Add(y, x), n)
  {
    if n == 0 {
      EvalSingleton(r, r.one, x);
    } else {
      var row, s := BinomialRow(r, y, n - 1), Pow(r, r.Add(y, x), n - 1);
      RowEval(r, y, n - 1, x);
      EvalAdd(r, ScaleSeq(r, y, row) + [r.zero], [r.zero] + row, x);
      assert Eval(r, ScaleSeq(r, y, row) + [r.zero], x) == r.Mul(y, s) by {
        assert [r.zero] == Zeros(r, 1);
        EvalPad(r, ScaleSeq(r, y, row), 1, x);
        EvalScale(r, y, row, x);
      }
      assert Eval(r, [r.zero] + row, x) == r.Mul(x, s) by {
        assert ([r.zero] + row)[1..] == row;
        AddCommutes(r, r.zero, r.Mul(x, s));
        AddZero(r, r.Mul(x, s));
      }
      MulCommutes(r, r.Add(y, x), s);
      Distributes(r, s, y, x);
      MulCommutes(r, s, y);
      MulCommutes(r, s, x);
    }
  }

  ghost predicate EntryIs<T>(r: Ring<T>, y: T, n: nat, i: nat, entry: T)
    requires i <= n
  {
    entry == r.Mul(NatElem(r, Choose(n, i)), Pow(r, y, n - i))
  }

  /** Entry i is C(n, i) y^(n - i). */
  lemma {:induction false} RowEntry<T(!new)>(r: Ring<T>, y: T, n: nat, i: nat)
    requires IsRing(r) && i <= n
    ensures EntryIs(r, y, n, i, BinomialRow(r, y, n)[i])
  {
    if n == 0 {
      AddZero(r, r.one);
      MulOne(r, r.one);
    } else {
      var row := BinomialRow(r, y, n - 1);
      if i < n {
        RowEntry(r, y, n - 1, i);
      }
      if i > 0 {
        RowEntry(r, y, n - 1, i - 1);
      }
      var above, left := if i < n then row[i] else r.zero, if i > 0 then row[i - 1] else r.zero;
      RowStep(r, y, n, i, above, left);
      RowIndex(r, y, n, i, row, above, left);
    }
  }

  lemma RowIndex<T>(r: Ring<T>, y: T, n: nat, i: nat, row: seq<T>, above: T, left: T)
    requires n > 0 && i <= n && row == BinomialRow(r, y, n - 1)
    requires above == (if i < n then row[i] else r.zero) && left == if i > 0 then row[i - 1] else r.zero
    ensures BinomialRow(r, y, n)[i] == r.Add(if i < n then r.Mul(y, above) else r.zero, left)
  {
  }

  /** Pascal's rule: the entry above times y, plus the entry to its left. */
  lemma RowStep<T(!new)>(r: Ring<T>, y: T, n: nat, i: nat, above: T, left: T)
    requires IsRing(r) && n > 0 && i <= n
    requires if i < n then EntryIs(r, y, n - 1, i, above) else above == r.zero
    requires if i > 0 then EntryIs(r, y, n - 1, i - 1, left) else left == r.zero
    ensures i < n ==> EntryIs(r, y, n, i, r.Add(r.Mul(y, above), left))
    ensures i == n ==> EntryIs(r, y, n, i, r.Add(r.zero, left))
  {
    if i < n {
      var c, t := NatElem(r, Choose(n - 1, i)), Pow(r, y, n - 1 - i);
      assert r.Mul(y, above) == r.Mul(c, Pow(r, y, n - i)) by {
        MulLeftSwap(r, y, c, t);
      }
      if i > 0 {
        SumOfMultiples(r, Choose(n - 1, i - 1), Choose(n - 1, i), Pow(r, y, n - i));
        AddCommutes(r, r.Mul(y, above), left);
      } else {
        AddZero(r, r.Mul(y, above));
      }
    } else {
      ChooseEnds(n - 1, i - 1);
      ChooseEnds(n, i);
      AddCommutes(r, r.zero, left);
      AddZero(r, left);
    }
  }

  lemma SumOfMultiples<T(!new)>(r: Ring<T>, a: nat, b: nat, t: T)
    requires IsRing(r)
    ensures r.Mul(NatElem(r, a + b), t) == r.Add(r.Mul(NatElem(r, a), t), r.Mul(NatElem(r, b), t))
  {
    NatElemAdd(r, a, b);
    MulCommutes(r, NatElem(r, a + b), t);
    Distributes(r, t, NatElem(r, a), NatElem(r, b));
    MulCommutes(r, t, NatElem(r, a));
    MulCommutes(r, t, NatElem(r, b));
  }

  /** Between the ends every entry of row p vanishes. */
  lemma InnerEntryVanishes<T(!new)>(r: Ring<T>, p: nat, y: T, i: nat)
    requires IsRing(r) && HasCharacteristic(r, p) && 0 < i < p
    ensures BinomialRow(r, y, p)[i] == r.zero
  {
    RowEntry(r, y, p, i);
    PrimeDividesChoose(p, i);
    var c, t := Choose(p, i) / p, Pow(r, y, p - i);
    assert Choose(p, i) == c * p;
    NatElemMul(r, c, p);
    MulZero(r, NatElem(r, c));
    MulCommutes(r, r.zero, t);
    MulZero(r, t);
  }

  lemma RowEnds<T(!new)>(r: Ring<T>, y: T, p: nat)
    requires IsRing(r)
    ensures BinomialRow(r, y, p)[0] == Pow(r, y, p) && BinomialRow(r, y, p)[p] == r.one
  {
    assert NatElem(r, 1) == r.one by {
      assert NatElem(r, 1) == r.Add(r.one, NatElem(r, 0));
      AddZero(r, r.one);
    }
    RowEntry(r, y, p, 0);
    MulOne(r, Pow(r, y, p));
    MulCommutes(r, r.one, Pow(r, y, p));
    RowEntry(r, y, p, p);
    ChooseEnds(p, p);
    MulOne(r, r.one);
  }

  /** (y + x)^p = y^p + x^p */
  lemma PowerOfSum<T(!new)>(r: Ring<T>, p: nat, y: T, x: T)
    requires IsRing(r) && HasCharacteristic(r, p)
    ensures Pow(r, r.Add(y, x), p) == r.Add(Pow(r, y, p), Pow(r, x, p))
  {
    var row, ends := BinomialRow(r, y, p), [Pow(r, y, p)] + Zeros(r, p - 1);
    assert row == ends + [r.one] by {
      RowEnds(r, y, p);
      forall i | 0 <= i <= p
        ensures row[i] == (ends + [r.one])[i]
      {
        if 0 < i < p {
          InnerEntryVanishes(r, p, y, i);
        }
      }
    }
    RowEval(r, y, p, x);
    EvalAppend(r, ends, [r.one], x);
    EvalPad(r, [Pow(r, y, p)], p - 1, x);
    EvalSingleton(r, Pow(r, y, p), x);
    EvalSingleton(r, r.one, x);
    MulOne(r, Pow(r, x, p));
  }

  function PowerMap<T>(r: Ring<T>, p: nat): T -> T { x => Pow(r, x, p) }

  /** Raising to the power p is a ring homomorphism. */
  lemma PowerIsHom<T(!new)>(r: Ring<T>, p: nat)
    requires IsRing(r) && HasCharacteristic(r, p)
    ensures IsHomomorphism(r, r, PowerMap(r, p))
  {
    var h := PowerMap(r, p);
    PowOfOne(r, p);
    MulCommutes(r, r.zero, Pow(r, r.zero, p - 1));
    MulZero(r, Pow(r, r.zero, p - 1));
    forall x, y
      ensures Preserves(r, r, h, x, y)
    {
      PowerOfSum(r, p, x, y);
      PowOfProduct(r, x, y, p);
    }
  }

  /** Fermat's little theorem for the multiples of one. */
  lemma {:induction false} FermatForNat<T(!new)>(r: Ring<T>, p: nat, n: nat)
    requires IsRing(r) && HasCharacteristic(r, p)
    ensures Pow(r, NatElem(r, n), p) == NatElem(r, n)
  {
    if n == 0 {
      MulCommutes(r, r.zero, Pow(r, r.zero, p - 1));
      MulZero(r, Pow(r, r.zero, p - 1));
    } else {
      FermatForNat(r, p, n - 1);
      PowerOfSum(r, p, r.one, NatElem(r, n - 1));
      PowOfOne(r, p);
    }
  }

  lemma CancelPower<T(!new)>(f: Field<T>, x: T, p: nat)
    requires IsField(f) && p > 0 && x != f.ring.zero && Pow(f.ring, x, p) == x
    ensures Pow(f.ring, x, p - 1) == f.ring.one
  {
    InvertDefined(f, x);
    InvertWorks(f, x);
    MulOne(f.ring, x);
    MulCancels(f.ring, x, f.Invert(x).value, Pow(f.ring, x, p - 1), f.ring.one);
  }

  /** Fermat's little theorem for a multiple of one in a field. */
  lemma FermatForMultiple<T(!new)>(f: Field<T>, p: nat, n: nat, x: T)
    requires IsField(f) && HasCharacteristic(f.ring, p) && x == NatElem(f.ring, n)
    ensures Pow(f.ring, x, p) == x
    ensures x != f.ring.zero ==> Pow(f.ring, x, p - 1) == f.ring.one
  {
    FermatForNat(f.ring, p, n);
    if x != f.ring.zero {
      CancelPower(f, x, p);
    }
  }
}
