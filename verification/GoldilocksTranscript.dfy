/** How transcript and leaves take up Goldilocks elements: what the theorems on binding and on committed words ask of
    serialization, met by the sextic tower. */
module GoldilocksTranscript {
  import opened Hashing
  import opened SexticBasis
  import opened Towers
  import opened Goldilocks
  import opened GoldilocksSetup
  import opened FriSetup
  import opened FriBinding
  import opened FriLeaves
  import opened FriSoundness

  /** `field_to_le_bytes` */
  function FpBytes(x: Fp): seq<Byte> { LittleEndian(x, 8) }

  lemma FpBytesApart(x: Fp, y: Fp)
    ensures FpBytes(x) == FpBytes(y) <==> x == y
  {
    assert GOLDILOCKS <= Power256(8);
    if FpBytes(x) == FpBytes(y) {
      LittleEndianInjective(x, y, 8);
    }
  }

  lemma ReduceSmall(x: nat)
    ensures x < GOLDILOCKS ==> Reduce(x) == x
    ensures Reduce(GOLDILOCKS) == Reduce(0)
  {
  }

  ghost predicate AbsorbsReduced(S: Setup<Fp, Sextic<Fp>>, x: nat) { NumberItem(S, x) == FpBytes(Reduce(x)) }

  /** Numbers are absorbed alike exactly when their residues are equal. */
  lemma NumbersAlikeIff(S: Setup<Fp, Sextic<Fp>>, x: nat, y: nat)
    requires AbsorbsReduced(S, x) && AbsorbsReduced(S, y)
    ensures NumberItem(S, x) == NumberItem(S, y) <==> Reduce(x) == Reduce(y)
  {
    FpBytesApart(Reduce(x), Reduce(y));
  }

  /** Residues below p are told apart, and p is absorbed as zero is. */
  lemma NumbersApartBelow(S: Setup<Fp, Sextic<Fp>>, bound: nat)
    requires forall x: nat :: AbsorbsReduced(S, x)
    ensures NumbersApart(S, bound) <==> bound <= GOLDILOCKS
  {
    if bound <= GOLDILOCKS {
      forall x: nat, y: nat | x < bound && y < bound && NumberItem(S, x) == NumberItem(S, y)
        ensures x == y
      {
        NumbersAlikeIff(S, x, y);
        ReduceSmall(x);
        ReduceSmall(y);
      }
    } else {
      NumbersAlikeIff(S, 0, GOLDILOCKS);
      ReduceSmall(0);
    }
  }

  /** Elements are told apart in the transcript, numbers exactly up to multiples of p. */
  lemma NumbersApartIff(hasher: Hasher, squeeze: (Log, string) -> Fp, index: (Fp, nat) -> nat, bound: nat)
    ensures BytesApart(SexticSetup(FpBytes, hasher, squeeze, index))
    ensures NumbersApart(SexticSetup(FpBytes, hasher, squeeze, index), bound) <==> bound <= GOLDILOCKS
  {
    var S := SexticSetup(FpBytes, hasher, squeeze, index);
    assert forall x: nat :: AbsorbsReduced(S, x);
    NumbersApartBelow(S, bound);
    ElementsApart(S);
  }

  lemma ElementsApart(S: Setup<Fp, Sextic<Fp>>)
    requires forall a :: S.fieldBytes(a) == FpBytes(a)
    ensures BytesApart(S)
  {
    forall a: Fp, b: Fp | S.fieldBytes(a) == S.fieldBytes(b)
      ensures a == b
    {
      FpBytesApart(a, b);
    }
  }

  /** Elements are eight bytes each. */
  lemma SexticSerializes(hasher: Hasher, squeeze: (Log, string) -> Fp, index: (Fp, nat) -> nat)
    ensures Serializes(SexticSetup(FpBytes, hasher, squeeze, index), 8)
  {
    var S := SexticSetup(FpBytes, hasher, squeeze, index);
    ElementsApart(S);
    assert forall a: Fp :: |S.fieldBytes(a)| == 8;
  }

  /** So with any hash of fixed digest length the hypotheses of the theorems on committed words hold. */
  lemma SexticSound(hasher: Hasher, squeeze: (Log, string) -> Fp, index: (Fp, nat) -> nat)
    requires FixedLength(hasher)
    ensures SoundSetup(SexticSetup(FpBytes, hasher, squeeze, index), 8)
  {
    SexticSetupValid(FpBytes, hasher, squeeze, index);
    SexticSerializes(hasher, squeeze, index);
  }

  /** So two seeds give one statement exactly when they agree modulo p: the 64-bit seed is absorbed as a field
      element. */
  lemma SeedsAlikeIff(hasher: Hasher, squeeze: (Log, string) -> Fp, index: (Fp, nat) -> nat, params: Params,
                      seedZ: nat, n0: nat)
    ensures
      var S := SexticSetup(FpBytes, hasher, squeeze, index);
      Reduce(seedZ) == Reduce(params.seedZ) <==>
        StatementItems(S, params.(seedZ := seedZ), n0) == StatementItems(S, params, n0)
  {
    var S := SexticSetup(FpBytes, hasher, squeeze, index);
    var other := params.(seedZ := seedZ);
    FpBytesApart(Reduce(seedZ), Reduce(params.seedZ));
    var (a, b) := (ModeItems(S, other), ModeItems(S, params));
    assert a[0] == FpBytes(Reduce(seedZ)) && b[0] == FpBytes(Reduce(params.seedZ));
    var front := PublicItems(params) + SizeItems(S, n0, |params.schedule|) + ScheduleItems(S, params.schedule);
    assert StatementItems(S, other, n0) == front + a && StatementItems(S, params, n0) == front + b;
    if front + a == front + b {
      PrefixesAgree(front, a, front, b);
    }
    if a[0] == b[0] {
      assert a == b;
    }
  }
}
