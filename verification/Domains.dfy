/** Evaluation domains of the polynomial library: codewords, the inverse transform, and words of low degree. */
module Domains {
  import opened Rings
  import opened Polynomials
  import opened Folding

  /** A radix-2 domain of the polynomial library: the generator and the two scalars its inverse
      transform divides by. */
  datatype Domain<T> = Domain(size: nat, gen: T, genInv: T, sizeInv: T)

  ghost predicate ValidDomain<T(!new)>(r: Ring<T>, d: Domain<T>) {
    && IsRoot(r, d.gen, d.size)
    && r.Mul(d.gen, d.genInv) == r.one
    && r.Mul(NatElem(r, d.size), d.sizeInv) == r.one
  }

  /** The values of a polynomial on the first n powers of w. */
  function Codeword<T>(r: Ring<T>, a: seq<T>, w: T, n: nat): seq<T> {
    seq(n, i requires 0 <= i < n => Eval(r, a, Pow(r, w, i)))
  }

  /** The inverse transform of the polynomial library. */
  function Ifft<T>(r: Ring<T>, d: Domain<T>, values: seq<T>): seq<T> {
    Interpolant(r, values, CosetInverses(d.sizeInv, d.genInv, r.one))
  }

  lemma CodewordIsUnshifted<T(!new)>(r: Ring<T>, a: seq<T>, w: T, n: nat)
    requires IsRing(r)
    ensures Codeword(r, a, w, n) == CosetValues(r, a, r.one, w, n)
  {
    forall i | 0 <= i < n
      ensures Eval(r, a, Pow(r, w, i)) == Eval(r, a, r.Mul(r.one, Pow(r, w, i)))
    {
      MulOne(r, Pow(r, w, i));
    }
  }

  lemma CodewordOfIfft<T(!new)>(r: Ring<T>, d: Domain<T>, values: seq<T>)
    requires IsRing(r) && ValidDomain(r, d)
    requires |values| == d.size
    ensures Codeword(r, Ifft(r, d, values), d.gen, d.size) == values
  {
    MulOne(r, r.one);
    InterpolantInverts(r, values, CosetInverses(d.sizeInv, d.genInv, r.one), d.gen, r.one);
    CodewordIsUnshifted(r, Ifft(r, d, values), d.gen, d.size);
  }

  lemma CodewordOfPadded<T(!new)>(r: Ring<T>, a: seq<T>, k: nat, w: T, n: nat)
    requires IsRing(r)
    ensures Codeword(r, a + Zeros(r, k), w, n) == Codeword(r, a, w, n)
  {
    forall i | 0 <= i < n
      ensures Eval(r, a + Zeros(r, k), Pow(r, w, i)) == Eval(r, a, Pow(r, w, i))
    {
      EvalPad(r, a, k, Pow(r, w, i));
    }
  }

  lemma IfftOfCodeword<T(!new)>(r: Ring<T>, d: Domain<T>, a: seq<T>)
    requires IsRing(r) && ValidDomain(r, d)
    requires |a| <= d.size
    ensures Ifft(r, d, Codeword(r, a, d.gen, d.size)) == a + Zeros(r, d.size - |a|)
  {
    var padded := a + Zeros(r, d.size - |a|);
    var inv := CosetInverses(d.sizeInv, d.genInv, r.one);
    assert Inverts(r, inv, |padded|, d.gen, r.one) by {
      MulOne(r, r.one);
    }
    InterpolantRecovers(r, padded, inv, d.gen, r.one);
    assert Codeword(r, a, d.gen, d.size) == CosetValues(r, padded, r.one, d.gen, d.size) by {
      CodewordOfPadded(r, a, d.size - |a|, d.gen, d.size);
      CodewordIsUnshifted(r, padded, d.gen, d.size);
    }
  }

  /** A word comes from at most D coefficients exactly when its inverse transform vanishes from D on. */
  ghost predicate LowDegree<T(!new)>(r: Ring<T>, d: Domain<T>, values: seq<T>, D: nat) {
    exists a: seq<T> :: |a| <= D && |a| <= d.size && values == Codeword(r, a, d.gen, d.size)
  }

  lemma LowDegreeIff<T(!new)>(r: Ring<T>, d: Domain<T>, values: seq<T>, D: nat)
    requires IsRing(r) && ValidDomain(r, d)
    requires |values| == d.size
    ensures LowDegree(r, d, values, D)
       <==> forall k :: D <= k < d.size ==> Ifft(r, d, values)[k] == r.zero
  {
    var c := Ifft(r, d, values);
    if LowDegree(r, d, values, D) {
      var a :| |a| <= D && |a| <= d.size && values == Codeword(r, a, d.gen, d.size);
      assert c == a + Zeros(r, d.size - |a|) by {
        IfftOfCodeword(r, d, a);
      }
    }
    if forall k :: D <= k < d.size ==> c[k] == r.zero {
      TailVanishes(r, d, values, D);
    }
  }

  lemma TailVanishes<T(!new)>(r: Ring<T>, d: Domain<T>, values: seq<T>, D: nat)
    requires IsRing(r) && ValidDomain(r, d)
    requires |values| == d.size && forall k :: D <= k < d.size ==> Ifft(r, d, values)[k] == r.zero
    ensures LowDegree(r, d, values, D)
  {
    var c := Ifft(r, d, values);
    var cut := if D < d.size then D else d.size;
    SplitTail(r, c, cut);
    CodewordOfIfft(r, d, values);
    CodewordOfPadded(r, c[..cut], d.size - cut, d.gen, d.size);
    WitnessDegree(r, d, values, D, c[..cut]);
  }

  lemma SplitTail<T>(r: Ring<T>, c: seq<T>, cut: nat)
    requires cut <= |c| && forall k :: cut <= k < |c| ==> c[k] == r.zero
    ensures c == c[..cut] + Zeros(r, |c| - cut)
  {
  }

  lemma WitnessDegree<T(!new)>(r: Ring<T>, d: Domain<T>, values: seq<T>, D: nat, a: seq<T>)
    requires |a| <= D && |a| <= d.size && values == Codeword(r, a, d.gen, d.size)
    ensures LowDegree(r, d, values, D)
  {
  }

  // ---------- the degree check ----------

  /** What the degree check looks at: the coefficients from D on, below the word's own length, of the word padded
      with zeros to its domain. */
  ghost predicate DegreeOk<T>(r: Ring<T>, d: Domain<T>, word: seq<T>, D: nat) {
    ZeroFrom(r, Ifft(r, d, PadWord(r, word, d.size)), D, |word|)
  }

  ghost predicate ZeroFrom<T>(r: Ring<T>, c: seq<T>, D: nat, n: nat)
    requires n <= |c|
  {
    forall k :: D <= k < n ==> c[k] == r.zero
  }

  lemma ZeroExtends<T>(r: Ring<T>, c: seq<T>, D: nat, k: nat, next: nat)
    requires D <= k && next == k + 1 <= |c| && ZeroFrom(r, c, D, k) && c[k] == r.zero
    ensures ZeroFrom(r, c, D, next)
  {
  }

  function PadWord<T>(r: Ring<T>, word: seq<T>, size: nat): (padded: seq<T>)
    ensures |padded| >= |word|
  {
    if |word| < size then word + Zeros(r, size - |word|) else word
  }

  lemma DegreeOkIff<T(!new)>(r: Ring<T>, d: Domain<T>, word: seq<T>, D: nat)
    requires IsRing(r) && ValidDomain(r, d) && |word| == d.size
    ensures DegreeOk(r, d, word, D) <==> LowDegree(r, d, word, D)
  {
    assert PadWord(r, word, d.size) == word;
    assert ZeroFrom(r, Ifft(r, d, word), D, d.size) <==> LowDegree(r, d, word, D) by {
      LowDegreeIff(r, d, word, D);
    }
  }
}
