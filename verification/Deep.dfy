/** Batch inversion and the helpers every tower field provides, and the DEEP quotient built on them. */
module Deep {
  import opened Rings
  import opened Polynomials
  import opened Fft
  import opened Folding
  import opened Domains
  import opened FriLayers

  // ---------- provided methods of the tower trait ----------

  /** `pow_u64` */
  method PowU64<T(!new)>(r: Ring<T>, x: T, e: nat) returns (result: T)
    requires IsRing(r)
    ensures result == Pow(r, x, e)
  {
    if e == 0 {
      return r.one;
    }
    var base, exp := x, e;
    result := r.one;
    MulOne(r, Pow(r, x, e));
    while exp > 0
      invariant r.Mul(result, Pow(r, base, exp)) == Pow(r, x, e)
    {
      SquareAndMultiply(r, result, base, exp);
      if exp % 2 == 1 {
        result := r.Mul(result, base);
      }
      base := r.Mul(base, base);
      exp := exp / 2;
    }
    MulOne(r, result);
  }

  /** The product of all entries. */
  function Product<T>(r: Ring<T>, s: seq<T>): T {
    if s == [] then r.one else r.Mul(Product(r, s[..|s| - 1]), s[|s| - 1])
  }

  lemma ProductSnoc<T>(r: Ring<T>, s: seq<T>, i: nat)
    requires i < |s|
    ensures Product(r, s[..i + 1]) == r.Mul(Product(r, s[..i]), s[i])
  {
    assert s[..i + 1][..i] == s[..i];
  }

  /** In a field the product is invertible exactly when no entry is zero. */
  lemma {:induction false} ProductInvertible<T(!new)>(k: Field<T>, s: seq<T>)
    requires IsField(k)
    ensures k.Invert(Product(k.ring, s)).Some? <==> forall i :: 0 <= i < |s| ==> s[i] != k.ring.zero
  {
    InvertDefined(k, Product(k.ring, s));
    if s != [] {
      var init, last := s[..|s| - 1], s[|s| - 1];
      ProductInvertible(k, init);
      InvertDefined(k, Product(k.ring, init));
      MulZero(k.ring, last);
      MulZero(k.ring, Product(k.ring, init));
      if k.ring.Mul(Product(k.ring, init), last) == k.ring.zero {
        NoZeroDivisors(k, Product(k.ring, init), last);
      }
      assert forall i :: 0 <= i < |init| ==> init[i] == s[i];
    }
  }

  /** `batch_inverse`: one inversion and a backward pass in place. It fails, leaving the entries
      alone, exactly when the product of the entries has no inverse. */
  method BatchInverse<T(!new)>(k: Field<T>, vals: array<T>) returns (ok: bool)
    requires IsRingWithInverse(k)
    modifies vals
    ensures ok <==> vals.Length == 0 || k.Invert(Product(k.ring, old(vals[..]))).Some?
    ensures ok ==> forall i :: 0 <= i < vals.Length ==> k.ring.Mul(old(vals[i]), vals[i]) == k.ring.one
    ensures !ok ==> vals[..] == old(vals[..])
  {
    var r, n := k.ring, vals.Length;
    if n == 0 {
      return true;
    }
    ghost var was := vals[..];
    var prefix := PrefixProducts(r, vals[..]);
    ProductSnoc(r, was, n - 1);
    assert was[..n] == was;
    var last := k.Invert(prefix[n - 1]);
    if last.None? {
      return false;
    }
    var inv := last.value;
    InvertWorks(k, prefix[n - 1]);
    var i := n - 1;
    while i > 0
      invariant 0 <= i < n
      invariant r.Mul(prefix[i], inv) == r.one
      invariant forall j :: 0 <= j <= i ==> vals[j] == was[j]
      invariant forall j :: i < j < n ==> r.Mul(was[j], vals[j]) == r.one
    {
      var original := vals[i];
      PeelInverse(r, prefix[i - 1], original, inv);
      vals[i] := r.Mul(prefix[i - 1], inv);
      inv := r.Mul(inv, original);
      i := i - 1;
    }
    vals[0] := inv;
    ok := true;
  }

  method PrefixProducts<T(!new)>(r: Ring<T>, vals: seq<T>) returns (prefix: seq<T>)
    requires IsRing(r) && vals != []
    ensures |prefix| == |vals| && prefix[0] == vals[0]
    ensures forall i :: 0 < i < |vals| ==> prefix[i] == r.Mul(prefix[i - 1], vals[i])
    ensures prefix[|vals| - 1] == Product(r, vals)
  {
    prefix := [vals[0]];
    MulOne(r, vals[0]);
    ProductSnoc(r, vals, 0);
    for i := 1 to |vals|
      invariant |prefix| == i && prefix[0] == vals[0]
      invariant forall j :: 0 < j < i ==> prefix[j] == r.Mul(prefix[j - 1], vals[j])
      invariant prefix[i - 1] == Product(r, vals[..i])
    {
      ProductSnoc(r, vals, i);
      prefix := prefix + [r.Mul(prefix[i - 1], vals[i])];
    }
    assert vals[..|vals|] == vals;
  }

  /** From an inverse of p x: p times it inverts x, and it times x inverts p. */
  lemma PeelInverse<T(!new)>(r: Ring<T>, p: T, x: T, inv: T)
    requires IsRing(r)
    requires r.Mul(r.Mul(p, x), inv) == r.one
    ensures r.Mul(x, r.Mul(p, inv)) == r.one
    ensures r.Mul(p, r.Mul(inv, x)) == r.one
  {
    MulCommutes(r, p, x);
    MulAssociates(r, x, p, inv);
    MulAssociates(r, p, x, inv);
    MulCommutes(r, x, p);
    MulCommutes(r, x, inv);
  }

  // ---------- the ground field inside the extension ----------

  /** `eval_base_poly`: Horner's rule from the top coefficient. */
  method EvalBasePoly<A, B(!new)>(e: Ring<B>, emb: A -> B, coeffs: seq<A>, z: B) returns (acc: B)
    requires IsRing(e)
    ensures acc == Eval(e, Image(emb, coeffs), z)
  {
    if coeffs == [] {
      return e.zero;
    }
    ghost var a := Image(emb, coeffs);
    acc := emb(coeffs[|coeffs| - 1]);
    assert a[|coeffs| - 1..] == [acc];
    EvalSingleton(e, acc, z);
    var i := |coeffs| - 1;
    while i > 0
      invariant 0 <= i < |coeffs|
      invariant acc == Eval(e, a[i..], z)
    {
      i := i - 1;
      assert a[i..][1..] == a[i + 1..];
      MulCommutes(e, acc, z);
      AddCommutes(e, e.Mul(acc, z), a[i]);
      acc := e.Add(e.Mul(acc, z), emb(coeffs[i]));
    }
    assert a[0..] == a;
  }

  // ---------- the DEEP quotient ----------

  /** z is none of the domain points. */
  ghost predicate OffDomain<A, B>(emb: A -> B, domain: seq<A>, z: B) {
    forall i :: 0 <= i < |domain| ==> emb(domain[i]) != z
  }

  /** (f - v) / (X - z) at each domain point. */
  function DeepQuotient<A, B>(k: Field<B>, emb: A -> B, codeword: seq<A>, domain: seq<A>, z: B, claim: B): seq<B>
    requires |codeword| == |domain|
  {
    seq(|domain|, i requires 0 <= i < |domain| =>
        k.ring.Mul(k.ring.Sub(emb(codeword[i]), claim), InverseOr(k, k.ring.Sub(emb(domain[i]), z))))
  }

  /** The inverted denominators; fails exactly when z is a domain point. */
  method Denominators<A, B(!new)>(k: Field<B>, emb: A -> B, domain: seq<A>, z: B) returns (ok: bool, inverses: seq<B>)
    requires IsField(k)
    ensures ok <==> OffDomain(emb, domain, z)
    ensures ok ==> |inverses| == |domain|
    ensures ok ==> forall i :: 0 <= i < |domain| ==> inverses[i] == InverseOr(k, k.ring.Sub(emb(domain[i]), z))
  {
    var r, n := k.ring, |domain|;
    var vals := new B[n](i requires 0 <= i < n => r.Sub(emb(domain[i]), z));
    ghost var was := vals[..];
    ProductInvertible(k, was);
    forall i | 0 <= i < n
      ensures was[i] == r.zero <==> emb(domain[i]) == z
    {
      SubSelf(r, emb(domain[i]), z);
    }
    ok := BatchInverse(k, vals);
    inverses := vals[..];
    if ok {
      forall i | 0 <= i < n
        ensures inverses[i] == InverseOr(k, was[i])
      {
        InverseUnique(k, was[i], inverses[i]);
      }
    }
  }

  lemma InverseUnique<T(!new)>(k: Field<T>, x: T, y: T)
    requires IsField(k) && k.ring.Mul(x, y) == k.ring.one
    ensures y == InverseOr(k, x)
  {
    MulZero(k.ring, y);
    InvertDefined(k, x);
    InvertWorks(k, x);
    MulCancels(k.ring, x, y, y, k.Invert(x).value);
  }

  /** `compute_deep_quotient` */
  method ComputeDeepQuotient<A, B(!new)>(k: Field<B>, emb: A -> B, codeword: seq<A>, domain: seq<A>, z: B, claim: B)
    returns (ok: bool, quotient: seq<B>)
    requires IsField(k) && |codeword| == |domain|
    ensures ok <==> OffDomain(emb, domain, z)
    ensures ok ==> quotient == DeepQuotient(k, emb, codeword, domain, z, claim)
  {
    var inverses;
    ok, inverses := Denominators(k, emb, domain, z);
    quotient := [];
    if ok {
      for i := 0 to |codeword|
        invariant quotient == DeepQuotient(k, emb, codeword, domain, z, claim)[..i]
      {
        var numerator := k.ring.Sub(emb(codeword[i]), claim);
        quotient := quotient + [k.ring.Mul(numerator, inverses[i])];
      }
    }
  }

  /** The sum over the first j columns of lambda times the column's quotient at point i. */
  function Combined<A, B>(k: Field<B>, emb: A -> B, codewords: seq<seq<A>>, domain: seq<A>, z: B, claims: seq<B>,
                          lambdas: seq<B>, j: nat, i: nat): B
    requires j <= |codewords| && |claims| >= |codewords| && |lambdas| >= |codewords| && i < |domain|
    requires forall c :: 0 <= c < |codewords| ==> |codewords[c]| == |domain|
  {
    if j == 0 then k.ring.zero
    else
      var single := DeepQuotient(k, emb, codewords[j - 1], domain, z, claims[j - 1])[i];
      k.ring.Add(Combined(k, emb, codewords, domain, z, claims, lambdas, j - 1, i), k.ring.Mul(lambdas[j - 1], single))
  }

  /** The lambda-combination of the differences between the first j columns and their claims. */
  function Differences<A, B>(r: Ring<B>, emb: A -> B, codewords: seq<seq<A>>, claims: seq<B>, lambdas: seq<B>, j: nat,
                             i: nat): B
    requires j <= |codewords| && |claims| >= |codewords| && |lambdas| >= |codewords|
    requires forall c :: 0 <= c < |codewords| ==> i < |codewords[c]|
  {
    if j == 0 then r.zero
    else r.Add(Differences(r, emb, codewords, claims, lambdas, j - 1, i),
               r.Mul(lambdas[j - 1], r.Sub(emb(codewords[j - 1][i]), claims[j - 1])))
  }

  /** The combination times x - z is the combination of the differences at x. */
  lemma {:induction false} CombinedTimes<A, B(!new)>(k: Field<B>, emb: A -> B, codewords: seq<seq<A>>, domain: seq<A>,
                                                     z: B, claims: seq<B>, lambdas: seq<B>, j: nat, i: nat)
    requires IsField(k) && j <= |codewords| && |claims| >= |codewords| && |lambdas| >= |codewords| && i < |domain|
    requires (forall c :: 0 <= c < |codewords| ==> |codewords[c]| == |domain|) && emb(domain[i]) != z
    ensures k.ring.Mul(Combined(k, emb, codewords, domain, z, claims, lambdas, j, i), k.ring.Sub(emb(domain[i]), z))
         == Differences(k.ring, emb, codewords, claims, lambdas, j, i)
  {
    var (r, denom) := (k.ring, k.ring.Sub(emb(domain[i]), z));
    if j == 0 {
      MulZero(r, denom);
    } else {
      var (last, column) := (j - 1, codewords[j - 1]);
      CombinedTimes(k, emb, codewords, domain, z, claims, lambdas, last, i);
      var single := DeepQuotient(k, emb, column, domain, z, claims[last])[i];
      QuotientTimesDenominator(k, r.Sub(emb(column[i]), claims[last]), emb(domain[i]), z);
      Distributes(r, denom, Combined(k, emb, codewords, domain, z, claims, lambdas, last, i),
                  r.Mul(lambdas[last], single));
      MulAssociates(r, lambdas[last], single, denom);
    }
  }

  lemma QuotientTimesDenominator<T(!new)>(k: Field<T>, numer: T, x: T, z: T)
    requires IsField(k) && x != z
    ensures k.ring.Mul(k.ring.Mul(numer, InverseOr(k, k.ring.Sub(x, z))), k.ring.Sub(x, z)) == numer
  {
    var (r, denom) := (k.ring, k.ring.Sub(x, z));
    SubSelf(r, x, z);
    InvertDefined(k, denom);
    assert InvertSound(k, denom);
    MulCommutes(r, denom, InverseOr(k, denom));
    MulAssociates(r, numer, InverseOr(k, denom), denom);
    MulOne(r, numer);
  }

  /** `compute_deep_quotient_multi`: the lambda-combination of the single-column quotients. */
  method ComputeDeepQuotientMulti<A, B(!new)>(k: Field<B>, emb: A -> B, codewords: seq<seq<A>>, domain: seq<A>, z: B,
                                              claims: seq<B>, lambdas: seq<B>)
    returns (ok: bool, quotient: seq<B>)
    requires IsField(k) && |claims| >= |codewords| && |lambdas| >= |codewords|
    requires forall c :: 0 <= c < |codewords| ==> |codewords[c]| == |domain|
    ensures ok <==> OffDomain(emb, domain, z)
    ensures ok ==> |quotient| == |domain|
    ensures ok ==> forall i :: 0 <= i < |domain| ==>
      quotient[i] == Combined(k, emb, codewords, domain, z, claims, lambdas, |codewords|, i)
    ensures ok ==> forall i :: 0 <= i < |domain| ==>
      k.ring.Mul(quotient[i], k.ring.Sub(emb(domain[i]), z))
          == Differences(k.ring, emb, codewords, claims, lambdas, |codewords|, i)
  {
    var r, n := k.ring, |domain|;
    var inverses;
    ok, inverses := Denominators(k, emb, domain, z);
    if !ok {
      return false, [];
    }
    var sums := new B[n](_ => r.zero);
    for j := 0 to |codewords|
      invariant forall i :: 0 <= i < n ==> sums[i] == Combined(k, emb, codewords, domain, z, claims, lambdas, j, i)
    {
      AddColumn(r, emb, sums, codewords[j], claims[j], lambdas[j], inverses);
    }
    quotient := sums[..];
    forall i | 0 <= i < n
      ensures r.Mul(quotient[i], r.Sub(emb(domain[i]), z))
           == Differences(r, emb, codewords, claims, lambdas, |codewords|, i)
    {
      CombinedTimes(k, emb, codewords, domain, z, claims, lambdas, |codewords|, i);
    }
  }

  /** The inner loop: add one weighted column in place. */
  method AddColumn<A, B(!new)>(r: Ring<B>, emb: A -> B, sums: array<B>, column: seq<A>, claim: B, lambda: B,
                               inverses: seq<B>)
    requires IsRing(r) && |column| == |inverses| == sums.Length
    modifies sums
    ensures forall i :: 0 <= i < sums.Length ==>
      sums[i] == r.Add(old(sums[i]), r.Mul(lambda, r.Mul(r.Sub(emb(column[i]), claim), inverses[i])))
  {
    for i := 0 to sums.Length
      invariant forall p :: i <= p < sums.Length ==> sums[p] == old(sums[p])
      invariant forall p :: 0 <= p < i ==>
        sums[p] == r.Add(old(sums[p]), r.Mul(lambda, r.Mul(r.Sub(emb(column[p]), claim), inverses[p])))
    {
      var numer := r.Sub(emb(column[i]), claim);
      MulAssociates(r, lambda, numer, inverses[i]);
      sums[i] := r.Add(sums[i], r.Mul(r.Mul(lambda, numer), inverses[i]));
    }
  }

  // ---------- what the quotient means ----------

  /** Synthetic division by X - z. */
  function DivideAt<T>(r: Ring<T>, a: seq<T>, z: T): seq<T> { BinomialQuotient(r, a, 1, z) }

  /** One coefficient fewer, and a = (X - z) q + a(z). */
  lemma DivideAtWorks<T(!new)>(r: Ring<T>, a: seq<T>, z: T, x: T)
    requires IsRing(r)
    ensures |DivideAt(r, a, z)| == if a == [] then 0 else |a| - 1
    ensures Eval(r, a, x) == r.Add(r.Mul(r.Sub(x, z), Eval(r, DivideAt(r, a, z), x)), Eval(r, a, z))
  {
    ReducedModuloBinomial(r, a, 1, z, x);
    DivideAtLength(r, a, z);
    PowSmall(r, x);
    StrideOne(a, 0);
    assert Parts(r, a, 1, z) == [Eval(r, a, z)];
    EvalSingleton(r, Eval(r, a, z), x);
  }

  lemma {:induction false} DivideAtLength<T>(r: Ring<T>, a: seq<T>, z: T)
    ensures |BinomialQuotient(r, a, 1, z)| == if a == [] then 0 else |a| - 1
    decreases |a|
  {
    if |a| > 1 {
      DivideAtLength(r, a[1..], z);
    }
  }

  /** With the true value claimed, the quotient evaluates a polynomial with one coefficient fewer. */
  lemma TrueClaimQuotient<A(!new), B(!new)>(f: Ring<A>, k: Field<B>, emb: A -> B, a: seq<A>, codeword: seq<A>,
                                            domain: seq<A>, z: B, i: nat)
    requires IsField(k) && IsHomomorphism(f, k.ring, emb)
    requires |codeword| == |domain| && i < |domain| && codeword[i] == Eval(f, a, domain[i])
    requires OffDomain(emb, domain, z)
    ensures DeepQuotient(k, emb, codeword, domain, z, Eval(k.ring, Image(emb, a), z))[i]
         == Eval(k.ring, DivideAt(k.ring, Image(emb, a), z), emb(domain[i]))
  {
    var r, b, x := k.ring, Image(emb, a), emb(domain[i]);
    EvalImage(f, r, emb, a, domain[i]);
    DivideAtWorks(r, b, z, x);
    var q := Eval(r, DivideAt(r, b, z), x);
    SubAdd(r, r.Mul(r.Sub(x, z), q), Eval(r, b, z));
    SubSelf(r, x, z);
    InvertDefined(k, r.Sub(x, z));
    InvertWorks(k, r.Sub(x, z));
    ScaleBack(r, r.Sub(x, z), InverseOr(k, r.Sub(x, z)), q);
  }

  /** Coefficients of (X - z) p + v. */
  function TimesLinear<T>(r: Ring<T>, p: seq<T>, z: T, v: T): (g: seq<T>)
    ensures |g| == |p| + 1
  {
    AddSeq(r, [v] + p, ScaleSeq(r, r.Neg(z), p) + [r.zero])
  }

  lemma EvalTimesLinear<T(!new)>(r: Ring<T>, p: seq<T>, z: T, v: T, x: T)
    requires IsRing(r)
    ensures Eval(r, TimesLinear(r, p, z, v), x) == r.Add(r.Mul(r.Sub(x, z), Eval(r, p, x)), v)
  {
    var e, s := Eval(r, p, x), ScaleSeq(r, r.Neg(z), p);
    EvalAdd(r, [v] + p, s + [r.zero], x);
    assert ([v] + p)[1..] == p;
    assert [r.zero] == Zeros(r, 1);
    EvalPad(r, s, 1, x);
    EvalScale(r, r.Neg(z), p, x);
    Distributes(r, e, x, r.Neg(z));
    var xe, ze := r.Mul(x, e), r.Mul(r.Neg(z), e);
    AddAssociates(r, v, xe, ze);
    AddCommutes(r, v, r.Add(xe, ze));
  }

  /** Words of polynomials with at most n coefficients over n domain points determine every value. */
  lemma SameWordSameValue<T(!new)>(r: Ring<T>, d: Domain<T>, a: seq<T>, b: seq<T>, x: T)
    requires IsRing(r) && ValidDomain(r, d) && |a| <= d.size && |b| <= d.size
    requires Codeword(r, a, d.gen, d.size) == Codeword(r, b, d.gen, d.size)
    ensures Eval(r, a, x) == Eval(r, b, x)
  {
    var c := Ifft(r, d, Codeword(r, a, d.gen, d.size));
    assert Eval(r, c, x) == Eval(r, a, x) by {
      IfftOfCodeword(r, d, a);
      EvalPad(r, a, d.size - |a|, x);
    }
    assert Eval(r, c, x) == Eval(r, b, x) by {
      IfftOfCodeword(r, d, b);
      EvalPad(r, b, d.size - |b|, x);
    }
  }

  /** The points of a power-of-two domain, as ground-field elements. */
  ghost predicate ListsDomain<A, B>(r: Ring<B>, emb: A -> B, domain: seq<A>, d: Domain<B>) {
    |domain| == d.size && forall i :: 0 <= i < d.size ==> emb(domain[i]) == Pow(r, d.gen, i)
  }

  ghost predicate Evaluates<A>(f: Ring<A>, a: seq<A>, domain: seq<A>, codeword: seq<A>) {
    |codeword| == |domain| && forall i :: 0 <= i < |domain| ==> codeword[i] == Eval(f, a, domain[i])
  }

  /** The claim test behind DEEP: for a word of a polynomial of degree at most D below the domain's size and a
      point off the domain, the quotient has degree below D if and only if the claimed value is the true one. */
  lemma ClaimIff<A(!new), B(!new)>(f: Ring<A>, k: Field<B>, emb: A -> B, a: seq<A>, codeword: seq<A>, domain: seq<A>,
                                   d: Domain<B>, D: nat, z: B, claim: B)
    requires IsField(k) && IsHomomorphism(f, k.ring, emb) && ValidDomain(k.ring, d)
    requires ListsDomain(k.ring, emb, domain, d) && Evaluates(f, a, domain, codeword)
    requires |a| - 1 <= D < d.size && OffDomain(emb, domain, z)
    ensures LowDegree(k.ring, d, DeepQuotient(k, emb, codeword, domain, z, claim), D)
       <==> claim == Eval(k.ring, Image(emb, a), z)
  {
    var r, b := k.ring, Image(emb, a);
    var word := DeepQuotient(k, emb, codeword, domain, z, claim);
    if claim == Eval(r, b, z) {
      var q := DivideAt(r, b, z);
      DivideAtWorks(r, b, z, z);
      forall i | 0 <= i < d.size
        ensures word[i] == Eval(r, q, Pow(r, d.gen, i))
      {
        TrueClaimQuotient(f, k, emb, a, codeword, domain, z, i);
      }
      assert word == Codeword(r, q, d.gen, d.size);
    }
    if LowDegree(r, d, word, D) {
      var p :| |p| <= D && |p| <= d.size && word == Codeword(r, p, d.gen, d.size);
      LowQuotientMeansTrueClaim(f, k, emb, a, codeword, domain, d, z, claim, p);
    }
  }

  lemma LowQuotientMeansTrueClaim<A(!new), B(!new)>(f: Ring<A>, k: Field<B>, emb: A -> B, a: seq<A>, codeword: seq<A>,
                                                    domain: seq<A>, d: Domain<B>, z: B, claim: B, p: seq<B>)
    requires IsField(k) && IsHomomorphism(f, k.ring, emb) && ValidDomain(k.ring, d)
    requires ListsDomain(k.ring, emb, domain, d) && Evaluates(f, a, domain, codeword)
    requires |a| <= d.size && OffDomain(emb, domain, z)
    requires |p| < d.size && DeepQuotient(k, emb, codeword, domain, z, claim) == Codeword(k.ring, p, d.gen, d.size)
    ensures claim == Eval(k.ring, Image(emb, a), z)
  {
    var r, b := k.ring, Image(emb, a);
    var g := TimesLinear(r, p, z, claim);
    forall i | 0 <= i < d.size
      ensures Eval(r, g, Pow(r, d.gen, i)) == Eval(r, b, Pow(r, d.gen, i))
    {
      var x := Pow(r, d.gen, i);
      assert emb(domain[i]) == x;
      assert DeepQuotient(k, emb, codeword, domain, z, claim)[i] == Eval(r, p, x);
      EvalImage(f, r, emb, a, domain[i]);
      EvalTimesLinear(r, p, z, claim, x);
      QuotientTimesLinear(k, Eval(r, b, x), claim, x, z);
    }
    assert Codeword(r, g, d.gen, d.size) == Codeword(r, b, d.gen, d.size);
    SameWordSameValue(r, d, g, b, z);
    EvalTimesLinear(r, p, z, claim, z);
    SubSelf(r, z, z);
    MulZero(r, Eval(r, p, z));
    AddZero(r, claim);
  }

  lemma QuotientTimesLinear<T(!new)>(k: Field<T>, y: T, v: T, x: T, z: T)
    requires IsField(k) && x != z
    ensures k.ring.Add(k.ring.Mul(k.ring.Sub(x, z), k.ring.Mul(k.ring.Sub(y, v), InverseOr(k, k.ring.Sub(x, z)))), v)
        == y
  {
    var r, den := k.ring, k.ring.Sub(x, z);
    SubSelf(r, x, z);
    InvertDefined(k, den);
    InvertWorks(k, den);
    var inv := InverseOr(k, den);
    MulLeftSwap(r, den, r.Sub(y, v), inv);
    MulOne(r, r.Sub(y, v));
    SubAdd(r, y, v);
  }
}
