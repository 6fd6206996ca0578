/** The in-place radix-2 transform of `fri.rs`: bit-reversal swaps followed by butterfly stages. */
module Fft {
  import opened Arith
  import opened Rings
  import opened Polynomials

  // ---------- bit reversal ----------

  /** The lowest `bits` bits of x in reverse order. */
  function BitReverse(x: nat, bits: nat): nat {
    if bits == 0 then 0 else (x % 2) * Pow2(bits - 1) + BitReverse(x / 2, bits - 1)
  }

  lemma {:induction false} BitReverseInRange(x: nat, bits: nat)
    ensures BitReverse(x, bits) < Pow2(bits)
  {
    if bits > 0 {
      BitReverseInRange(x / 2, bits - 1);
      if x % 2 == 1 {
        assert (x % 2) * Pow2(bits - 1) == Pow2(bits - 1);
      }
    }
  }

  /** A bit put on top comes out at the bottom. */
  lemma {:induction false} BitReverseTop(c: nat, y: nat, m: nat, x: nat)
    requires c < 2 && y < Pow2(m) && x == (if c == 0 then 0 else Pow2(m)) + y
    ensures BitReverse(x, m + 1) == 2 * BitReverse(y, m) + c
  {
    if m > 0 {
      assert x % 2 == y % 2 && x / 2 == (if c == 0 then 0 else Pow2(m - 1)) + y / 2;
      BitReverseTop(c, y / 2, m - 1, x / 2);
      ReverseStep(x % 2, m, BitReverse(y / 2, m - 1), c);
    } else {
      assert BitReverse(x, 1) == (x % 2) * Pow2(0) + BitReverse(x / 2, 0);
    }
  }

  lemma ReverseStep(low: nat, m: nat, rest: nat, c: nat)
    requires m > 0
    ensures low * Pow2(m) + (2 * rest + c) == 2 * (low * Pow2(m - 1) + rest) + c
  {
    TwiceProduct(Pow2(m - 1), low);
    assert low * Pow2(m) == Pow2(m) * low && low * Pow2(m - 1) == Pow2(m - 1) * low;
  }

  lemma TopBit(c: nat, top: nat)
    requires c < 2
    ensures c * top == if c == 0 then 0 else top
  {
  }

  /** Reversing twice gives the number back, so the swap loop applies an involution. */
  lemma {:induction false} BitReverseInvolution(x: nat, bits: nat)
    requires x < Pow2(bits)
    ensures BitReverse(BitReverse(x, bits), bits) == x
  {
    if bits > 0 {
      var low, half, m := x % 2, x / 2, bits - 1;
      var y := BitReverse(half, m);
      assert BitReverse(x, bits) == low * Pow2(m) + y;
      TopBit(low, Pow2(m));
      BitReverseInRange(half, m);
      BitReverseTop(low, y, m, BitReverse(x, bits));
      BitReverseInvolution(half, m);
    }
  }

  // ---------- even and odd parts ----------

  function Evens<T>(v: seq<T>): seq<T> {
    if v == [] then [] else [v[0]] + Odds(v[1..])
  }

  function Odds<T>(v: seq<T>): seq<T> {
    if v == [] then [] else Evens(v[1..])
  }

  /** The entries of x at start, start + step, start + 2 step, ... */
  function Stride<T>(x: seq<T>, start: nat, step: nat): seq<T>
    requires step > 0
    decreases |x| - start
  {
    if start >= |x| then [] else [x[start]] + Stride(x, start + step, step)
  }

  /** p(y) = even(y^2) + y odd(y^2) */
  lemma {:induction false} EvalEvenOdd<T(!new)>(r: Ring<T>, v: seq<T>, y: T)
    requires IsRing(r)
    ensures Eval(r, v, y)
         == r.Add(Eval(r, Evens(v), r.Mul(y, y)), r.Mul(y, Eval(r, Odds(v), r.Mul(y, y))))
  {
    var z := r.Mul(y, y);
    if v == [] {
      MulZero(r, y);
      AddZero(r, r.zero);
    } else {
      var rest := v[1..];
      EvalEvenOdd(r, rest, y);
      var e, o := Eval(r, Evens(rest), z), Eval(r, Odds(rest), z);
      assert Evens(v)[1..] == Odds(rest);
      Distributes(r, y, e, r.Mul(y, o));
      MulAssociates(r, y, y, o);
      AddCommutes(r, r.Mul(y, e), r.Mul(z, o));
      AddAssociates(r, v[0], r.Mul(z, o), r.Mul(y, e));
    }
  }

  lemma {:induction false} StridePartsOf<T>(x: seq<T>, start: nat, step: nat, twice: nat)
    requires step > 0 && twice == 2 * step
    ensures Evens(Stride(x, start, step)) == Stride(x, start, twice)
    ensures Odds(Stride(x, start, step)) == Stride(x, start + step, twice)
    decreases |x| - start
  {
    if start < |x| {
      StridePartsOf(x, start + step, step, twice);
      assert start + step + step == start + twice;
      var s := Stride(x, start, step);
      assert s == [x[start]] + Stride(x, start + step, step) && s[1..] == Stride(x, start + step, step);
    }
  }

  lemma {:induction false} StrideOne<T>(x: seq<T>, start: nat)
    requires start <= |x|
    ensures Stride(x, start, 1) == x[start..]
    decreases |x| - start
  {
    if start < |x| {
      StrideOne(x, start + 1);
    }
  }

  // ---------- butterfly stages ----------

  /** What one stage with half-blocks of length h leaves at position p. */
  function ButterflyAt<T>(r: Ring<T>, x: seq<T>, h: nat, w: T, p: nat): T
    requires h > 0 && p < |x| && |x| % (2 * h) == 0
  {
    var j := Rem(p, 2 * h);
    BlockInRange(|x|, h, p);
    if j < h then r.Add(x[p], r.Mul(x[p + h], Pow(r, w, j)))
    else r.Sub(x[p - h], r.Mul(x[p], Pow(r, w, j - h)))
  }

  lemma BlockInRange(n: nat, h: nat, p: nat)
    requires h > 0 && p < n && n % (2 * h) == 0
    ensures Rem(p, 2 * h) < h ==> p + h < n
    ensures Rem(p, 2 * h) >= h ==> p >= h
    ensures p - Rem(p, 2 * h) + 2 * h <= n
  {
    var q, m := p / (2 * h), n / (2 * h);
    assert p == q * (2 * h) + p % (2 * h);
    assert n == m * (2 * h);
    BlocksBelow(q, m, 2 * h, p % (2 * h));
  }

  lemma BlocksBelow(q: nat, m: nat, b: nat, i: nat)
    requires i < b && q * b + i < m * b
    ensures (q + 1) * b <= m * b
  {
    assert q < m by {
      if q >= m {
        BlocksMonotone(m, q, b);
      }
    }
    BlocksMonotone(q + 1, m, b);
  }

  function ButterflyStage<T>(r: Ring<T>, x: seq<T>, h: nat, w: T): seq<T>
    requires h > 0 && |x| % (2 * h) == 0
  {
    seq(|x|, p requires 0 <= p < |x| => ButterflyAt(r, x, h, w, p))
  }

  /** After the stages up to length h = 2^k, block b holds the transform of the entries of x
      whose index ends in the reversed bits of b. */
  ghost predicate StageDone<T>(r: Ring<T>, x: seq<T>, root: T, l: nat, k: nat, y: seq<T>)
    requires k <= l
  {
    && |x| == |y| == Pow2(l)
    && forall p :: 0 <= p < |y| ==> EntryDone(r, x, root, l, k, p, y[p])
  }

  ghost predicate EntryDone<T>(r: Ring<T>, x: seq<T>, root: T, l: nat, k: nat, p: nat, v: T)
    requires k <= l
  {
    v == BlockValue(r, x, root, l - k, Quot(p, Pow2(k)), Rem(p, Pow2(k)))
  }

  /** Entry j of the transform of the entries at BitReverse(b, s), then every 2^s-th. */
  ghost function BlockValue<T>(r: Ring<T>, x: seq<T>, root: T, s: nat, b: nat, j: nat): T {
    Eval(r, Stride(x, BitReverse(b, s), Pow2(s)), Pow(r, Pow(r, root, Pow2(s)), j))
  }

  /** p(-y) = even(y^2) - y odd(y^2) */
  lemma EvalAtNegated<T(!new)>(r: Ring<T>, v: seq<T>, y: T)
    requires IsRing(r)
    ensures Eval(r, v, r.Neg(y))
         == r.Sub(Eval(r, Evens(v), r.Mul(y, y)), r.Mul(y, Eval(r, Odds(v), r.Mul(y, y))))
  {
    EvalEvenOdd(r, v, r.Neg(y));
    NegMul(r, y, r.Neg(y));
    NegMul(r, y, y);
    NegNeg(r, r.Mul(y, y));
    NegMul(r, y, Eval(r, Odds(v), r.Mul(y, y)));
  }

  /** The two blocks that make one are the transforms of its even and odd entries. */
  lemma BlockHalf<T(!new)>(r: Ring<T>, x: seq<T>, root: T, m: nat, s: nat, b: nat, half: nat, j: nat, c: nat)
    requires IsRing(r)
    requires s == m + 1 && half == 2 * b + c && c < 2
    ensures
      var y := Pow(r, Pow(r, root, Pow2(m)), j);
      var v := Stride(x, BitReverse(b, m), Pow2(m));
      BlockValue(r, x, root, s, half, j) == Eval(r, if c == 0 then Evens(v) else Odds(v), r.Mul(y, y))
  {
    HalfStride(x, m, s, b, half, c);
    SquareOfStep(r, root, m, j);
  }

  lemma HalfStride<T>(x: seq<T>, m: nat, s: nat, b: nat, half: nat, c: nat)
    requires s == m + 1 && half == 2 * b + c && c < 2
    ensures
      var v := Stride(x, BitReverse(b, m), Pow2(m));
      Stride(x, BitReverse(half, s), Pow2(s)) == if c == 0 then Evens(v) else Odds(v)
  {
    var start, step := BitReverse(b, m), Pow2(m);
    assert BitReverse(half, s) == (if c == 0 then 0 else step) + start by {
      ReverseDouble(b, m, c);
    }
    StridePartsOf(x, start, step, Pow2(s));
  }

  lemma ReverseDouble(b: nat, m: nat, c: nat)
    requires c < 2
    ensures BitReverse(2 * b + c, m + 1) == (if c == 0 then 0 else Pow2(m)) + BitReverse(b, m)
  {
    assert (2 * b + c) % 2 == c && (2 * b + c) / 2 == b;
    TopBit(c, Pow2(m));
  }

  /** Two half-size transforms make one of twice the size: its first half. */
  lemma BlockJoin<T(!new)>(r: Ring<T>, x: seq<T>, root: T, m: nat, s: nat, b: nat, j: nat)
    requires IsRing(r)
    requires s == m + 1
    ensures
      var t := r.Mul(BlockValue(r, x, root, s, 2 * b + 1, j), Pow(r, Pow(r, root, Pow2(m)), j));
      BlockValue(r, x, root, m, b, j) == r.Add(BlockValue(r, x, root, s, 2 * b, j), t)
  {
    var y := Pow(r, Pow(r, root, Pow2(m)), j);
    var v := Stride(x, BitReverse(b, m), Pow2(m));
    BlockHalf(r, x, root, m, s, b, 2 * b, j, 0);
    BlockHalf(r, x, root, m, s, b, 2 * b + 1, j, 1);
    MulCommutes(r, y, Eval(r, Odds(v), r.Mul(y, y)));
    EvalEvenOdd(r, v, y);
  }

  /** Its second half, where the twiddle factor has changed sign. */
  lemma BlockJoinTurned<T(!new)>(r: Ring<T>, x: seq<T>, root: T, l: nat, k: nat, m: nat, s: nat, b: nat, h: nat, j: nat)
    requires IsRing(r)
    requires s == m + 1 && l == k + s && h == Pow2(k) && IsRoot(r, root, Pow2(l))
    ensures
      var t := r.Mul(BlockValue(r, x, root, s, 2 * b + 1, j), Pow(r, Pow(r, root, Pow2(m)), j));
      BlockValue(r, x, root, m, b, h + j) == r.Sub(BlockValue(r, x, root, s, 2 * b, j), t)
  {
    var y := Pow(r, Pow(r, root, Pow2(m)), j);
    var v := Stride(x, BitReverse(b, m), Pow2(m));
    BlockHalf(r, x, root, m, s, b, 2 * b, j, 0);
    BlockHalf(r, x, root, m, s, b, 2 * b + 1, j, 1);
    MulCommutes(r, y, Eval(r, Odds(v), r.Mul(y, y)));
    assert Pow(r, Pow(r, root, Pow2(m)), h + j) == r.Neg(y) by {
      HalfTurn(r, root, l, k, m, j);
    }
    EvalAtNegated(r, v, y);
  }

  lemma SquareOfStep<T(!new)>(r: Ring<T>, root: T, m: nat, j: nat)
    requires IsRing(r)
    ensures
      var y := Pow(r, Pow(r, root, Pow2(m)), j);
      r.Mul(y, y) == Pow(r, Pow(r, root, Pow2(m + 1)), j)
  {
    var w := Pow(r, root, Pow2(m));
    PowOfProduct(r, w, w, j);
    PowAdd(r, root, Pow2(m), Pow2(m));
  }

  /** Half a block further on, the twiddle factor changes sign. */
  lemma HalfTurn<T(!new)>(r: Ring<T>, root: T, l: nat, k: nat, m: nat, j: nat)
    requires IsRing(r)
    requires l == k + m + 1 && IsRoot(r, root, Pow2(l))
    ensures
      var w := Pow(r, root, Pow2(m));
      Pow(r, w, j + Pow2(k)) == r.Neg(Pow(r, w, j))
  {
    var w := Pow(r, root, Pow2(m));
    assert Pow(r, w, Pow2(k)) == r.Neg(r.one) by {
      PowOfPower(r, root, Pow2(m), Pow2(k));
      Pow2Add(m, k);
      assert Pow2(l) / 2 == Pow2(m + k);
    }
    PowAdd(r, w, j, Pow2(k));
    NegMul(r, Pow(r, w, j), r.one);
    MulOne(r, Pow(r, w, j));
  }

  lemma StageAdvances<T(!new)>(r: Ring<T>, x: seq<T>, root: T, l: nat, k: nat, y: seq<T>)
    requires IsRing(r)
    requires k < l && |x| == Pow2(l) && IsRoot(r, root, |x|)
    requires StageDone(r, x, root, l, k, y)
    ensures |y| % (2 * Pow2(k)) == 0
    ensures StageDone(r, x, root, l, k + 1, ButterflyStage(r, y, Pow2(k), Pow(r, root, Pow2(l - k - 1))))
  {
    var h, w := Pow2(k), Pow(r, root, Pow2(l - k - 1));
    Pow2Quotient(l, k + 1);
    var z := ButterflyStage(r, y, h, w);
    forall p | 0 <= p < |z|
      ensures EntryDone(r, x, root, l, k + 1, p, z[p])
    {
      StageAdvancesAt(r, x, root, l, k, y, p);
    }
  }

  lemma StageAdvancesAt<T(!new)>(r: Ring<T>, x: seq<T>, root: T, l: nat, k: nat, y: seq<T>, p: nat)
    requires IsRing(r)
    requires k < l && |x| == Pow2(l) && IsRoot(r, root, |x|)
    requires StageDone(r, x, root, l, k, y)
    requires p < |y| && |y| % (2 * Pow2(k)) == 0
    ensures EntryDone(r, x, root, l, k + 1, p, ButterflyAt(r, y, Pow2(k), Pow(r, root, Pow2(l - k - 1)), p))
  {
    var h, m, s := Pow2(k), l - k - 1, l - k;
    var w := Pow(r, root, Pow2(m));
    if Quot(p, h) % 2 == 0 {
      var b, i := LowerEntries(r, x, root, l, k, y, p, h, m, s, w);
      BlockJoin(r, x, root, m, s, b, i);
    } else {
      var b, i := UpperEntries(r, x, root, l, k, y, p, h, m, s, w);
      BlockJoinTurned(r, x, root, l, k, m, s, b, h, i);
    }
  }

  /** In the lower half of a block the butterfly adds the twisted entry above. */
  lemma LowerEntries<T(!new)>(r: Ring<T>, x: seq<T>, root: T, l: nat, k: nat, y: seq<T>, p: nat, h: nat, m: nat,
                              s: nat, w: T)
    returns (b: nat, i: nat)
    requires l == k + s && s == m + 1 && h == Pow2(k) && StageDone(r, x, root, l, k, y)
    requires p < |y| && |y| % (2 * h) == 0 && Quot(p, h) % 2 == 0
    ensures ButterflyAt(r, y, h, w, p)
         == r.Add(BlockValue(r, x, root, s, 2 * b, i), r.Mul(BlockValue(r, x, root, s, 2 * b + 1, i), Pow(r, w, i)))
    ensures EntryDone(r, x, root, l, k + 1, p, BlockValue(r, x, root, m, b, i))
  {
    b, i := Quot(p, h) / 2, Rem(p, h);
    ButterflyCases(r, y, h, w, p);
    EntryIs(r, x, root, l, k, y, p, h, s, 2 * b, i);
    EntryIs(r, x, root, l, k, y, p + h, h, s, 2 * b + 1, i);
    EntryAtDouble(r, x, root, l, k, m, p, h, BlockValue(r, x, root, m, b, i));
  }

  /** In the upper half it subtracts its own from the entry below. */
  lemma UpperEntries<T(!new)>(r: Ring<T>, x: seq<T>, root: T, l: nat, k: nat, y: seq<T>, p: nat, h: nat, m: nat,
                              s: nat, w: T)
    returns (b: nat, i: nat)
    requires l == k + s && s == m + 1 && h == Pow2(k) && StageDone(r, x, root, l, k, y)
    requires p < |y| && |y| % (2 * h) == 0 && Quot(p, h) % 2 == 1
    ensures ButterflyAt(r, y, h, w, p)
         == r.Sub(BlockValue(r, x, root, s, 2 * b, i), r.Mul(BlockValue(r, x, root, s, 2 * b + 1, i), Pow(r, w, i)))
    ensures EntryDone(r, x, root, l, k + 1, p, BlockValue(r, x, root, m, b, h + i))
  {
    b, i := Quot(p, h) / 2, Rem(p, h);
    ButterflyCases(r, y, h, w, p);
    EntryIs(r, x, root, l, k, y, p - h, h, s, 2 * b, i);
    EntryIs(r, x, root, l, k, y, p, h, s, 2 * b + 1, i);
    EntryAtDouble(r, x, root, l, k, m, p, h, BlockValue(r, x, root, m, b, h + i));
  }

  /** Entry p after k stages, at its place in its block. */
  lemma EntryIs<T>(r: Ring<T>, x: seq<T>, root: T, l: nat, k: nat, y: seq<T>, p: nat, h: nat, s: nat, q: nat, i: nat)
    requires k <= l && StageDone(r, x, root, l, k, y) && p < |y|
    requires h == Pow2(k) && s == l - k && q == Quot(p, h) && i == Rem(p, h)
    ensures y[p] == BlockValue(r, x, root, s, q, i)
  {
    assert EntryDone(r, x, root, l, k, p, y[p]);
  }

  /** The butterfly at p in terms of the quotient and remainder by the half-block length. */
  lemma ButterflyCases<T>(r: Ring<T>, x: seq<T>, h: nat, w: T, p: nat)
    requires h > 0 && p < |x| && |x| % (2 * h) == 0
    ensures Quot(p, h) % 2 == 0 ==>
      && p + h < |x| && Quot(p + h, h) == 2 * (Quot(p, h) / 2) + 1 && Rem(p + h, h) == Rem(p, h)
      && ButterflyAt(r, x, h, w, p) == r.Add(x[p], r.Mul(x[p + h], Pow(r, w, Rem(p, h))))
    ensures Quot(p, h) % 2 == 1 ==>
      && p >= h && Quot(p - h, h) == 2 * (Quot(p, h) / 2) && Rem(p - h, h) == Rem(p, h)
      && ButterflyAt(r, x, h, w, p) == r.Sub(x[p - h], r.Mul(x[p], Pow(r, w, Rem(p, h))))
  {
    DivModDouble(p, h);
    BlockInRange(|x|, h, p);
    Neighbour(p, h);
  }

  lemma EntryAtDouble<T>(r: Ring<T>, x: seq<T>, root: T, l: nat, k: nat, m: nat, p: nat, h: nat, v: T)
    requires l == k + m + 1 && h == Pow2(k)
    requires v == BlockValue(r, x, root, m, Quot(p, h) / 2, (if Quot(p, h) % 2 == 0 then 0 else h) + Rem(p, h))
    ensures EntryDone(r, x, root, l, k + 1, p, v)
  {
    DivModDouble(p, h);
    assert Pow2(k + 1) == 2 * h;
  }

  /** Where the butterfly partner of p lies. */
  lemma Neighbour(p: nat, h: nat)
    requires h > 0
    ensures Quot(p, h) % 2 == 0 ==> Quot(p + h, h) == 2 * (Quot(p, h) / 2) + 1 && Rem(p + h, h) == Rem(p, h)
    ensures Quot(p, h) % 2 == 1 ==> p >= h && Quot(p - h, h) == 2 * (Quot(p, h) / 2) && Rem(p - h, h) == Rem(p, h)
  {
    DivModShift(p, h);
    if Quot(p, h) % 2 == 1 {
      assert p == (p / h) * h + p % h;
      assert (p / h) * h >= h;
      DivModShift(p - h, h);
    }
  }

  lemma SingletonDft<T(!new)>(r: Ring<T>, x: seq<T>, root: T)
    requires IsRing(r)
    requires |x| == 1
    ensures Dft(r, x, root) == x
  {
    MulZero(r, r.one);
    AddZero(r, x[0]);
    assert Eval(r, x, r.one) == r.Add(x[0], r.Mul(r.one, Eval(r, x[1..], r.one)));
  }

  /** After the permutation every block of length one is in place. */
  lemma FirstStage<T(!new)>(r: Ring<T>, x: seq<T>, root: T, l: nat, y: seq<T>)
    requires IsRing(r)
    requires |x| == |y| == Pow2(l)
    requires forall k :: 0 <= k < |y| ==> BitReverse(k, l) < |x| && y[k] == x[BitReverse(k, l)]
    ensures StageDone(r, x, root, l, 0, y)
  {
    forall p | 0 <= p < |y|
      ensures EntryDone(r, x, root, l, 0, p, y[p])
    {
      var s := BitReverse(p, l);
      assert Stride(x, s, Pow2(l)) == [x[s]];
      var w := Pow(r, Pow(r, root, Pow2(l)), 0);
      assert Eval(r, [x[s]], w) == r.Add(x[s], r.Mul(w, Eval(r, [], w)));
      MulZero(r, w);
      AddZero(r, x[s]);
    }
  }

  /** A single block of full length is the whole transform. */
  lemma LastStage<T(!new)>(r: Ring<T>, x: seq<T>, root: T, l: nat, k: nat, y: seq<T>)
    requires IsRing(r)
    requires k == l && StageDone(r, x, root, l, k, y)
    ensures y == Dft(r, x, root)
  {
    StrideOne(x, 0);
    PowSmall(r, root);
    forall p | 0 <= p < |y|
      ensures y[p] == Eval(r, x, Pow(r, root, p))
    {
      assert EntryDone(r, x, root, l, k, p, y[p]);
      DivModUnique(p, Pow2(k), 0, p);
    }
  }

  // ---------- the loops ----------

  /** Swap every index with its bit reversal once. */
  method BitReversePermute<T>(a: array<T>, bits: nat)
    requires a.Length == Pow2(bits)
    modifies a
    ensures forall k :: 0 <= k < a.Length ==> BitReverse(k, bits) < a.Length && a[k] == old(a[BitReverse(k, bits)])
  {
    var n := a.Length;
    forall k | 0 <= k < n
      ensures BitReverse(k, bits) < n && BitReverse(BitReverse(k, bits), bits) == k
    {
      BitReverseInRange(k, bits);
      BitReverseInvolution(k, bits);
    }
    ghost var x := a[..];
    for i := 0 to n
      invariant forall k :: 0 <= k < n ==>
        a[k] == if k < i || BitReverse(k, bits) < i then x[BitReverse(k, bits)] else x[k]
    {
      var j := BitReverse(i, bits);
      if i < j {
        a[i], a[j] := a[j], a[i];
      }
    }
  }

  /** What the first j butterflies of the block at `base` leave at position p. */
  function BlockAt<T>(r: Ring<T>, x: seq<T>, base: nat, half: nat, w: T, j: nat, p: nat): T
    requires j <= half && base + 2 * half <= |x| && p < |x|
  {
    if base <= p < base + j then r.Add(x[p], r.Mul(x[p + half], Pow(r, w, p - base)))
    else if base + half <= p < base + half + j
    then r.Sub(x[p - half], r.Mul(x[p], Pow(r, w, p - half - base)))
    else x[p]
  }

  method ButterflyBlock<T(!new)>(r: Ring<T>, a: array<T>, base: nat, half: nat, wStep: T)
    requires IsRing(r)
    requires half > 0 && base + 2 * half <= a.Length
    modifies a
    ensures forall p :: 0 <= p < a.Length ==> a[p] == BlockAt(r, old(a[..]), base, half, wStep, half, p)
  {
    ghost var x := a[..];
    var w := r.one;
    for j := 0 to half
      invariant w == Pow(r, wStep, j)
      invariant forall p :: 0 <= p < a.Length ==> a[p] == BlockAt(r, x, base, half, wStep, j, p)
    {
      var lo := base + j;
      var hi := lo + half;
      var u := a[lo];
      var t := r.Mul(a[hi], w);
      a[lo] := r.Add(u, t);
      a[hi] := r.Sub(u, t);
      MulCommutes(r, w, wStep);
      w := r.Mul(w, wStep);
    }
  }

  method RunStage<T(!new)>(r: Ring<T>, a: array<T>, half: nat, wStep: T)
    requires IsRing(r)
    requires half > 0 && a.Length % (2 * half) == 0
    modifies a
    ensures a[..] == ButterflyStage(r, old(a[..]), half, wStep)
  {
    ghost var x := a[..];
    var n, block := a.Length, 2 * half;
    var base := 0;
    ghost var q := 0;
    while base < n
      invariant base == q * block && base <= n
      invariant forall p :: 0 <= p < n ==> a[p] == if p < base then ButterflyAt(r, x, half, wStep, p) else x[p]
      decreases n - base
    {
      BlockStart(n, block, q);
      ghost var y := a[..];
      ButterflyBlock(r, a, base, half, wStep);
      forall p | 0 <= p < n
        ensures a[p] == if p < base + block then ButterflyAt(r, x, half, wStep, p) else x[p]
      {
        if base <= p < base + block {
          DivModUnique(p, block, q, p - base);
        }
      }
      base := base + block;
      q := q + 1;
    }
  }

  lemma BlockStart(n: nat, block: nat, q: nat)
    requires block > 0 && n % block == 0 && q * block < n
    ensures q * block + block <= n && (q + 1) * block == q * block + block
  {
    assert n == (n / block) * block;
    BlocksBelow(q, n / block, block, 0);
  }

  // ---------- the network ----------

  /** The contents after the permutation and the first k of l stages, whatever the root is. */
  function Stages<T>(r: Ring<T>, x: seq<T>, root: T, l: nat, k: nat): (y: seq<T>)
    requires k <= l && |x| == Pow2(l)
    ensures |y| == |x|
  {
    if k == 0 then seq(|x|, p requires 0 <= p < |x| => BitReverseInRange(p, l); x[BitReverse(p, l)])
    else
      Pow2Quotient(l, k);
      ButterflyStage(r, Stages(r, x, root, l, k - 1), Pow2(k - 1), Pow(r, root, Pow2(l - k)))
  }

  /** What the loops compute for any root: the transform when the root has the order it should. */
  function Network<T>(r: Ring<T>, x: seq<T>, root: T): (y: seq<T>)
    requires |x| <= 1 || IsPowerOfTwo(|x|)
    ensures |y| == |x|
  {
    if |x| <= 1 then x else Stages(r, x, root, Log2(|x|), Log2(|x|))
  }

  lemma {:induction false} StagesNext<T>(r: Ring<T>, x: seq<T>, root: T, l: nat, k: nat, next: nat, h: nat)
    requires next == k + 1 && next <= l && |x| == Pow2(l) && h == Pow2(k)
    ensures |x| % (2 * h) == 0
    ensures Stages(r, x, root, l, next) == ButterflyStage(r, Stages(r, x, root, l, k), h, Pow(r, root, Pow2(l - next)))
  {
    Pow2Quotient(l, next);
  }

  lemma PermutedStage<T(!new)>(r: Ring<T>, x: seq<T>, root: T, l: nat)
    requires IsRing(r)
    requires |x| == Pow2(l)
    ensures StageDone(r, x, root, l, 0, Stages(r, x, root, l, 0))
  {
    forall p | 0 <= p < |x|
      ensures BitReverse(p, l) < |x|
    {
      BitReverseInRange(p, l);
    }
    FirstStage(r, x, root, l, Stages(r, x, root, l, 0));
  }

  lemma {:induction false} StagesDone<T(!new)>(r: Ring<T>, x: seq<T>, root: T, l: nat, k: nat)
    requires IsRing(r)
    requires k <= l && |x| == Pow2(l) && IsRoot(r, root, |x|)
    ensures StageDone(r, x, root, l, k, Stages(r, x, root, l, k))
  {
    if k == 0 {
      PermutedStage(r, x, root, l);
    } else {
      var before := k - 1;
      StagesDone(r, x, root, l, before);
      StageAdvances(r, x, root, l, before, Stages(r, x, root, l, before));
      StagesNext(r, x, root, l, before, k, Pow2(before));
    }
  }

  lemma NetworkIsDft<T(!new)>(r: Ring<T>, x: seq<T>, root: T)
    requires IsRing(r)
    requires IsRoot(r, root, |x|)
    ensures Network(r, x, root) == Dft(r, x, root)
  {
    if |x| == 1 {
      SingletonDft(r, x, root);
    } else {
      var l := Log2(|x|);
      StagesDone(r, x, root, l, l);
      LastStage(r, x, root, l, l, Stages(r, x, root, l, l));
    }
  }

  /** The transform in place: position k ends up holding the sum of x[j] root^(jk). */
  method FftInPlace<T(!new)>(r: Ring<T>, vals: array<T>, root: T)
    requires IsRing(r)
    requires vals.Length <= 1 || IsPowerOfTwo(vals.Length)
    modifies vals
    ensures vals[..] == Network(r, old(vals[..]), root)
    ensures IsRoot(r, root, vals.Length) ==> vals[..] == Dft(r, old(vals[..]), root)
  {
    var n := vals.Length;
    ghost var x := vals[..];
    if n > 1 {
      var logN := Log2(n);
      BitReversePermute(vals, logN);
      assert vals[..] == Stages(r, x, root, logN, 0);
      RunStages(r, vals, root, x, logN);
    }
    if IsRoot(r, root, n) {
      NetworkIsDft(r, x, root);
    }
  }

  method RunStages<T(!new)>(r: Ring<T>, vals: array<T>, root: T, ghost x: seq<T>, ghost logN: nat)
    requires IsRing(r)
    requires |x| == vals.Length == Pow2(logN) && vals[..] == Stages(r, x, root, logN, 0)
    modifies vals
    ensures vals[..] == Stages(r, x, root, logN, logN)
  {
    var n := vals.Length;
    var half := 1;
    ghost var k := 0;
    while half < n
      invariant k <= logN && half == Pow2(k)
      invariant vals[..] == Stages(r, x, root, logN, k)
      decreases n - half
    {
      half := RunNext(r, vals, root, half, x, logN, k, k + 1);
      k := k + 1;
    }
    if k < logN {
      Pow2Below(k, logN);
    }
  }

  method RunNext<T(!new)>(r: Ring<T>, vals: array<T>, root: T, half: nat, ghost x: seq<T>, ghost logN: nat,
                          ghost k: nat, ghost next: nat) returns (block: nat)
    requires IsRing(r)
    requires next == k + 1 && half == Pow2(k) && k <= logN && half < vals.Length
    requires |x| == vals.Length == Pow2(logN) && vals[..] == Stages(r, x, root, logN, k)
    modifies vals
    ensures block == 2 * half && next <= logN && vals[..] == Stages(r, x, root, logN, next)
  {
    var n := vals.Length;
    block := 2 * half;
    StageSize(n, logN, half, k);
    var exp := n / block;
    var wStep := Pow(r, root, exp);
    StagesNext(r, x, root, logN, k, next, half);
    RunStage(r, vals, half, wStep);
  }

  lemma StageSize(n: nat, l: nat, half: nat, k: nat)
    requires n == Pow2(l) && half == Pow2(k) && k <= l && half < n
    ensures k < l && n % (2 * half) == 0 && n / (2 * half) == Pow2(l - k - 1)
  {
    Pow2Quotient(l, k + 1);
  }
}
