/** Domain-separated hashing with an uninterpreted hash function. */
module Hashing {
  import opened Arith

  type Byte = x: int | 0 <= x < 256

  type Digest = seq<Byte>

  const WORD32: nat := 0x1_0000_0000

  // ---------- domain separation labels ----------

  datatype DsLabel = DsLabel(arity: nat, level: nat, position: nat, treeLabel: nat) {
    function ToBytes(): (b: seq<Byte>)
      ensures |b| == 32
    {
      LittleEndian(arity, 8) + LittleEndian(level, 8) + LittleEndian(position, 8) + LittleEndian(treeLabel, 8)
    }

    /** Every field fits the 64-bit word it is written to. */
    predicate Fits() {
      arity < Power256(8) && level < Power256(8) && position < Power256(8) && treeLabel < Power256(8)
    }
  }

  function LittleEndian(x: nat, k: nat): (b: seq<Byte>)
    ensures |b| == k
  {
    if k == 0 then [] else [x % 256] + LittleEndian(x / 256, k - 1)
  }

  function Power256(k: nat): nat {
    if k == 0 then 1 else 256 * Power256(k - 1)
  }

  /** Byte j is the j-th digit in base 256. */
  lemma {:induction false} ByteAt(x: nat, k: nat, j: nat)
    requires j < k
    ensures Power256(j) > 0 && LittleEndian(x, k)[j] == x / Power256(j) % 256
  {
    if j > 0 {
      ByteAt(x / 256, k - 1, j - 1);
      DivideTwice(x, Power256(j - 1));
    }
  }

  lemma DivideTwice(x: nat, p: nat)
    requires p > 0
    ensures x / 256 / p == x / (256 * p)
  {
    var (q, m) := (x / 256 / p, x / 256 % p);
    assert x == 256 * (x / 256) + x % 256 && x / 256 == q * p + m;
    assert 256 * (q * p) == q * (256 * p);
    DivModUnique(x, 256 * p, q, 256 * m + x % 256);
  }

  /** Where each field of a label is written: arity, level, position, tree label, eight bytes each, lowest first. */
  lemma LabelByte(l: DsLabel, j: nat)
    requires j < 8
    ensures Power256(j) > 0
    ensures l.ToBytes()[j] == l.arity / Power256(j) % 256 && l.ToBytes()[8 + j] == l.level / Power256(j) % 256
    ensures l.ToBytes()[16 + j] == l.position / Power256(j) % 256
    ensures l.ToBytes()[24 + j] == l.treeLabel / Power256(j) % 256
  {
    ByteAt(l.arity, 8, j);
    ByteAt(l.level, 8, j);
    ByteAt(l.position, 8, j);
    ByteAt(l.treeLabel, 8, j);
  }

  lemma {:induction false} LittleEndianInjective(x: nat, y: nat, k: nat)
    requires LittleEndian(x, k) == LittleEndian(y, k)
    requires x < Power256(k) && y < Power256(k)
    ensures x == y
  {
    if k > 0 {
      assert LittleEndian(x, k)[1..] == LittleEndian(x / 256, k - 1);
      assert LittleEndian(y, k)[1..] == LittleEndian(y / 256, k - 1);
      assert LittleEndian(x, k)[0] == x % 256 && LittleEndian(y, k)[0] == y % 256;
      LittleEndianInjective(x / 256, y / 256, k - 1);
    }
  }

  /** A label can be read back from the 32 bytes hashed in front of every leaf and node, so a pair of
      label and body stands for the hashed byte string. */
  lemma LabelBytesInjective(a: DsLabel, b: DsLabel, x: seq<Byte>, y: seq<Byte>)
    requires a.Fits() && b.Fits()
    ensures a.ToBytes() + x == b.ToBytes() + y <==> a == b && x == y
  {
    if a.ToBytes() + x == b.ToBytes() + y {
      PrefixesAgree(a.ToBytes(), x, b.ToBytes(), y);
      var (a1, a2, a3, a4) := (LittleEndian(a.arity, 8), LittleEndian(a.level, 8), LittleEndian(a.position, 8),
                               LittleEndian(a.treeLabel, 8));
      var (b1, b2, b3, b4) := (LittleEndian(b.arity, 8), LittleEndian(b.level, 8), LittleEndian(b.position, 8),
                               LittleEndian(b.treeLabel, 8));
      PrefixesAgree(a1 + a2 + a3, a4, b1 + b2 + b3, b4);
      PrefixesAgree(a1 + a2, a3, b1 + b2, b3);
      PrefixesAgree(a1, a2, b1, b2);
      LittleEndianInjective(a.arity, b.arity, 8);
      LittleEndianInjective(a.level, b.level, 8);
      LittleEndianInjective(a.position, b.position, 8);
      LittleEndianInjective(a.treeLabel, b.treeLabel, 8);
    }
  }

  lemma PrefixesAgree<T>(a: seq<T>, x: seq<T>, b: seq<T>, y: seq<T>)
    requires |a| == |b| && a + x == b + y
    ensures a == b && x == y
  {
    assert a == (a + x)[..|a|] && b == (b + y)[..|b|];
    assert x == (a + x)[|a|..] && y == (b + y)[|b|..];
  }

  // ---------- hashing ----------

  /** What one hash call consumes: the label's bytes, then the body. */
  datatype HashInput = HashInput(tag: DsLabel, body: seq<Byte>)

  /** A hash function with digests of a fixed length. */
  datatype Hasher = Hasher(run: HashInput -> Digest, len: nat) {
    function Hash(input: HashInput): Digest { run(input) }
  }

  /** The bytes of one hash call. */
  function BytesOf(input: HashInput): seq<Byte> { input.tag.ToBytes() + input.body }

  /** A hash of byte strings. */
  function ByteHasher(f: seq<Byte> -> Digest, len: nat): Hasher { Hasher((input: HashInput) => f(BytesOf(input)), len) }

  ghost predicate FixedLength(h: Hasher) {
    forall input: HashInput :: |h.Hash(input)| == h.len
  }

  /** Two different inputs with the same digest. */
  ghost predicate Collision(h: Hasher, x: HashInput, y: HashInput) {
    x != y && h.Hash(x) == h.Hash(y)
  }

  function Concat(parts: seq<Digest>): seq<Byte> {
    if parts == [] then [] else parts[0] + Concat(parts[1..])
  }

  /** Equal concatenations of equally many pieces of one length have equal pieces. */
  lemma {:induction false} ConcatInjective(a: seq<Digest>, b: seq<Digest>, n: nat)
    requires |a| == |b| && Concat(a) == Concat(b)
    requires forall i :: 0 <= i < |a| ==> |a[i]| == n && |b[i]| == n
    ensures a == b
  {
    if a != [] {
      PrefixesAgree(a[0], Concat(a[1..]), b[0], Concat(b[1..]));
      ConcatInjective(a[1..], b[1..], n);
      assert a == [a[0]] + a[1..] && b == [b[0]] + b[1..];
    }
  }
}
