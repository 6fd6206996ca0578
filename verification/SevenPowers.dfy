/** Powers of 7 modulo p by repeated squaring: 7^((p - 1) / 2) = -1, and 7^((p - 1) / 3) is not 1. */
module SevenPowers {
  import opened Rings
  import opened Towers
  import opened Goldilocks

  /** Whether step k multiplies by 7 after squaring, on the way to (p - 1) / 3 = 2^32 0x55555555 or to
      (p - 1) / 2 = 2^31 (2^32 - 1). */
  predicate Bit(third: bool, k: nat) { if third then k < 31 && k % 2 == 0 else k < 32 }

  function Exponent(third: bool, k: nat): nat {
    if k == 0 then 0 else 2 * Exponent(third, k - 1) + if Bit(third, k - 1) then 1 else 0
  }

  /** x(k) is the power, e(k) its exponent. */
  ghost predicate StepAt(third: bool, x: nat -> Fp, e: nat -> nat, k: nat) {
    && x(k + 1) == (if Bit(third, k) then FpMul(7, FpMul(x(k), x(k))) else FpMul(x(k), x(k)))
    && e(k + 1) == 2 * e(k) + if Bit(third, k) then 1 else 0
  }

  ghost predicate IsChain(third: bool, x: nat -> Fp, e: nat -> nat) {
    x(0) == 1 && e(0) == 0 && forall k :: StepAt(third, x, e, k)
  }

  /** s is v squared; w is s, times 7 where the exponent has a one. */
  lemma Step(third: bool, x: nat -> Fp, e: nat -> nat, k: nat, n: nat, v: Fp, s: Fp, w: Fp)
    requires IsChain(third, x, e) && x(k) == v && e(k) == n
    requires s == v * v % GOLDILOCKS && w == if Bit(third, k) then 7 * s % GOLDILOCKS else s
    ensures x(k + 1) == w
    ensures e(k + 1) == 2 * n + if Bit(third, k) then 1 else 0
  {
    assert StepAt(third, x, e, k);
  }

  lemma HalfSteps0To8(x: nat -> Fp, e: nat -> nat)
    requires IsChain(false, x, e)
    ensures x(8) == 8125271997680889877 && e(8) == 255
  {
    Step(false, x, e, 0, 0, 1, 1, 7);
    Step(false, x, e, 1, 1, 7, 49, 343);
    Step(false, x, e, 2, 3, 343, 117649, 823543);
    Step(false, x, e, 3, 7, 823543, 678223072849, 4747561509943);
    Step(false, x, e, 4, 15, 4747561509943, 1582037354089406189, 11074261478625843323);
    Step(false, x, e, 5, 31, 11074261478625843323, 14911712358349047125, 12148266161370408270);
    Step(false, x, e, 6, 63, 12148266161370408270, 14177331716484271384, 7007601668316978083);
    Step(false, x, e, 7, 127, 7007601668316978083, 1160753142525841411, 8125271997680889877);
  }

  lemma HalfSteps8To16(x: nat -> Fp, e: nat -> nat)
    requires IsChain(false, x, e) && x(8) == 8125271997680889877 && e(8) == 255
    ensures x(16) == 12134830135347446949 && e(16) == 65535
  {
    Step(false, x, e, 8, 255, 8125271997680889877, 10915923311382173605, 2624486902016877951);
    Step(false, x, e, 9, 511, 2624486902016877951, 1179017105118043277, 8253119735826302939);
    Step(false, x, e, 10, 1023, 8253119735826302939, 13682469552810377440, 3543566522599720475);
    Step(false, x, e, 11, 2047, 3543566522599720475, 12252646851770615269, 11981551684735969599);
    Step(false, x, e, 12, 4095, 11981551684735969599, 9343193256669382154, 10062120588441922115);
    Step(false, x, e, 13, 8191, 10062120588441922115, 4133221502128927102, 10485806445487905393);
    Step(false, x, e, 14, 16383, 10485806445487905393, 5861853314594190514, 4139485063330164956);
    Step(false, x, e, 15, 32767, 4139485063330164956, 7004045467739516513, 12134830135347446949);
  }

  lemma HalfSteps16To24(x: nat -> Fp, e: nat -> nat)
    requires IsChain(false, x, e) && x(16) == 12134830135347446949 && e(16) == 65535
    ensures x(24) == 8935258787870022506 && e(24) == 16777215
  {
    Step(false, x, e, 16, 65535, 12134830135347446949, 618113109518621269, 4326791766630348883);
    Step(false, x, e, 17, 131071, 4326791766630348883, 13205783127219969319, 206761543466863628);
    Step(false, x, e, 18, 262143, 206761543466863628, 14617186517222294718, 10086585273483141421);
    Step(false, x, e, 19, 524287, 10086585273483141421, 5535602650859329748, 1855730417186139594);
    Step(false, x, e, 20, 1048575, 1855730417186139594, 3724741596018185032, 7626447102712710903);
    Step(false, x, e, 21, 2097151, 7626447102712710903, 11653985196031332500, 7790920094560990216);
    Step(false, x, e, 22, 4194303, 7790920094560990216, 16654626667483233145, 5901922255895126089);
    Step(false, x, e, 23, 8388607, 5901922255895126089, 9182212999444825067, 8935258787870022506);
  }

  lemma HalfSteps24To32(x: nat -> Fp, e: nat -> nat)
    requires IsChain(false, x, e) && x(24) == 8935258787870022506 && e(24) == 16777215
    ensures x(32) == 1753635133440165772 && e(32) == 4294967295
  {
    Step(false, x, e, 24, 16777215, 8935258787870022506, 17682034324931514088, 13093775858033092690);
    Step(false, x, e, 25, 33554431, 13093775858033092690, 9511995656157268947, 11243737384857129666);
    Step(false, x, e, 26, 67108863, 11243737384857129666, 16106297366990222687, 2063617152444052883);
    Step(false, x, e, 27, 134217727, 2063617152444052883, 4501656151559876649, 13064848991504552222);
    Step(false, x, e, 28, 268435455, 13064848991504552222, 2370486178716065012, 16593403251012455084);
    Step(false, x, e, 29, 536870911, 16593403251012455084, 14013264900002007546, 5859133952941131217);
    Step(false, x, e, 30, 1073741823, 5859133952941131217, 10142762553374040318, 15659105665374529263);
    Step(false, x, e, 31, 2147483647, 15659105665374529263, 16062014221418238814, 1753635133440165772);
  }

  lemma HalfSteps32To40(x: nat -> Fp, e: nat -> nat)
    requires IsChain(false, x, e) && x(32) == 1753635133440165772 && e(32) == 4294967295
    ensures x(40) == 9713644485405565297 && e(40) == 1099511627520
  {
    Step(false, x, e, 32, 4294967295, 1753635133440165772, 4614640910117430873, 4614640910117430873);
    Step(false, x, e, 33, 8589934590, 4614640910117430873, 9123114210336311365, 9123114210336311365);
    Step(false, x, e, 34, 17179869180, 9123114210336311365, 16116352524544190054, 16116352524544190054);
    Step(false, x, e, 35, 34359738360, 16116352524544190054, 6414415596519834757, 6414415596519834757);
    Step(false, x, e, 36, 68719476720, 6414415596519834757, 1213594585890690845, 1213594585890690845);
    Step(false, x, e, 37, 137438953440, 1213594585890690845, 17096174751763063430, 17096174751763063430);
    Step(false, x, e, 38, 274877906880, 17096174751763063430, 5456943929260765144, 5456943929260765144);
    Step(false, x, e, 39, 549755813760, 5456943929260765144, 9713644485405565297, 9713644485405565297);
  }

  lemma HalfSteps40To48(x: nat -> Fp, e: nat -> nat)
    requires IsChain(false, x, e) && x(40) == 9713644485405565297 && e(40) == 1099511627520
    ensures x(48) == 6115771955107415310 && e(48) == 281474976645120
  {
    Step(false, x, e, 40, 1099511627520, 9713644485405565297, 16905767614792059275, 16905767614792059275);
    Step(false, x, e, 41, 2199023255040, 16905767614792059275, 5416168637041100469, 5416168637041100469);
    Step(false, x, e, 42, 4398046510080, 5416168637041100469, 17654865857378133588, 17654865857378133588);
    Step(false, x, e, 43, 8796093020160, 17654865857378133588, 3511170319078647661, 3511170319078647661);
    Step(false, x, e, 44, 17592186040320, 3511170319078647661, 18146160046829613826, 18146160046829613826);
    Step(false, x, e, 45, 35184372080640, 18146160046829613826, 9306717745644682924, 9306717745644682924);
    Step(false, x, e, 46, 70368744161280, 9306717745644682924, 12380578893860276750, 12380578893860276750);
    Step(false, x, e, 47, 140737488322560, 12380578893860276750, 6115771955107415310, 6115771955107415310);
  }

  lemma HalfSteps48To56(x: nat -> Fp, e: nat -> nat)
    requires IsChain(false, x, e) && x(48) == 6115771955107415310 && e(48) == 281474976645120
    ensures x(56) == 13797081185216407910 && e(56) == 72057594021150720
  {
    Step(false, x, e, 48, 281474976645120, 6115771955107415310, 17776499369601055404, 17776499369601055404);
    Step(false, x, e, 49, 562949953290240, 17776499369601055404, 16207902636198568418, 16207902636198568418);
    Step(false, x, e, 50, 1125899906580480, 16207902636198568418, 1532612707718625687, 1532612707718625687);
    Step(false, x, e, 51, 2251799813160960, 1532612707718625687, 17492915097719143606, 17492915097719143606);
    Step(false, x, e, 52, 4503599626321920, 17492915097719143606, 455906449640507599, 455906449640507599);
    Step(false, x, e, 53, 9007199252643840, 455906449640507599, 11353340290879379826, 11353340290879379826);
    Step(false, x, e, 54, 18014398505287680, 11353340290879379826, 1803076106186727246, 1803076106186727246);
    Step(false, x, e, 55, 36028797010575360, 1803076106186727246, 13797081185216407910, 13797081185216407910);
  }

  lemma HalfSteps56To63(x: nat -> Fp, e: nat -> nat)
    requires IsChain(false, x, e) && x(56) == 13797081185216407910 && e(56) == 72057594021150720
    ensures x(63) == 18446744069414584320 && e(63) == 9223372034707292160
  {
    Step(false, x, e, 56, 72057594021150720, 13797081185216407910, 17870292113338400769, 17870292113338400769);
    Step(false, x, e, 57, 144115188042301440, 17870292113338400769, 549755813888, 549755813888);
    Step(false, x, e, 58, 288230376084602880, 549755813888, 70368744161280, 70368744161280);
    Step(false, x, e, 59, 576460752169205760, 70368744161280, 17293822564807737345, 17293822564807737345);
    Step(false, x, e, 60, 1152921504338411520, 17293822564807737345, 18446744069397807105, 18446744069397807105);
    Step(false, x, e, 61, 2305843008676823040, 18446744069397807105, 281474976710656, 281474976710656);
    Step(false, x, e, 62, 4611686017353646080, 281474976710656, 18446744069414584320, 18446744069414584320);
  }

  lemma ThirdSteps0To8(x: nat -> Fp, e: nat -> nat)
    requires IsChain(true, x, e)
    ensures x(8) == 14271156885488964304 && e(8) == 170
  {
    Step(true, x, e, 0, 0, 1, 1, 7);
    Step(true, x, e, 1, 1, 7, 49, 49);
    Step(true, x, e, 2, 2, 49, 2401, 16807);
    Step(true, x, e, 3, 5, 16807, 282475249, 282475249);
    Step(true, x, e, 4, 10, 282475249, 79792266297612001, 558545864083284007);
    Step(true, x, e, 5, 21, 558545864083284007, 8022122801911579307, 8022122801911579307);
    Step(true, x, e, 6, 42, 8022122801911579307, 4463956420510902100, 12800950874161730379);
    Step(true, x, e, 7, 85, 12800950874161730379, 14271156885488964304, 14271156885488964304);
  }

  lemma ThirdSteps8To16(x: nat -> Fp, e: nat -> nat)
    requires IsChain(true, x, e) && x(8) == 14271156885488964304 && e(8) == 170
    ensures x(16) == 15486580570079272365 && e(16) == 43690
  {
    Step(true, x, e, 8, 170, 14271156885488964304, 6640181542876171230, 9587782661304029968);
    Step(true, x, e, 9, 341, 9587782661304029968, 10276868313419320864, 10276868313419320864);
    Step(true, x, e, 10, 682, 10276868313419320864, 12692611838971331761, 15061306595140985043);
    Step(true, x, e, 11, 1365, 15061306595140985043, 10087193495066827832, 10087193495066827832);
    Step(true, x, e, 12, 2730, 10087193495066827832, 17666492521142301186, 12984983231508602376);
    Step(true, x, e, 13, 5461, 12984983231508602376, 1362657970957379548, 1362657970957379548);
    Step(true, x, e, 14, 10922, 1362657970957379548, 14866894507972756995, 11834541208736377360);
    Step(true, x, e, 15, 21845, 11834541208736377360, 15486580570079272365, 15486580570079272365);
  }

  lemma ThirdSteps16To24(x: nat -> Fp, e: nat -> nat)
    requires IsChain(true, x, e) && x(16) == 15486580570079272365 && e(16) == 43690
    ensures x(24) == 7499557959359525151 && e(24) == 11184810
  {
    Step(true, x, e, 16, 43690, 15486580570079272365, 8219357140934485557, 2195267778297645936);
    Step(true, x, e, 17, 87381, 2195267778297645936, 12545318111885672966, 12545318111885672966);
    Step(true, x, e, 18, 174762, 12545318111885672966, 16274283408395477026, 3239519442280833256);
    Step(true, x, e, 19, 349525, 3239519442280833256, 11109814195885452171, 11109814195885452171);
    Step(true, x, e, 20, 699050, 11109814195885452171, 8592128779201082244, 4804669246163822745);
    Step(true, x, e, 21, 1398101, 4804669246163822745, 438903447396483212, 438903447396483212);
    Step(true, x, e, 22, 2796202, 438903447396483212, 16528309341332431468, 5017700972839514350);
    Step(true, x, e, 23, 5592405, 5017700972839514350, 7499557959359525151, 7499557959359525151);
  }

  lemma ThirdSteps24To32(x: nat -> Fp, e: nat -> nat)
    requires IsChain(true, x, e) && x(24) == 7499557959359525151 && e(24) == 11184810
    ensures x(32) == 998724450546658713 && e(32) == 2863311530
  {
    Step(true, x, e, 24, 11184810, 7499557959359525151, 6501481669499740747, 8616883547669016587);
    Step(true, x, e, 25, 22369621, 8616883547669016587, 458110968676413213, 458110968676413213);
    Step(true, x, e, 26, 44739242, 458110968676413213, 1678842135369159008, 11751894947584113056);
    Step(true, x, e, 27, 89478485, 11751894947584113056, 525895266577965633, 525895266577965633);
    Step(true, x, e, 28, 178956970, 525895266577965633, 8359630718448719682, 3177182820897284811);
    Step(true, x, e, 29, 357913941, 3177182820897284811, 7964267603545906836, 7964267603545906836);
    Step(true, x, e, 30, 715827882, 7964267603545906836, 17834245605091780246, 14159254819154955796);
    Step(true, x, e, 31, 1431655765, 14159254819154955796, 998724450546658713, 998724450546658713);
  }

  lemma ThirdSteps32To40(x: nat -> Fp, e: nat -> nat)
    requires IsChain(true, x, e) && x(32) == 998724450546658713 && e(32) == 2863311530
    ensures x(40) == 3056692624244734627 && e(40) == 733007751680
  {
    Step(true, x, e, 32, 2863311530, 998724450546658713, 1811047956385014016, 1811047956385014016);
    Step(true, x, e, 33, 5726623060, 1811047956385014016, 2957134717709447844, 2957134717709447844);
    Step(true, x, e, 34, 11453246120, 2957134717709447844, 8418656202527058970, 8418656202527058970);
    Step(true, x, e, 35, 22906492240, 8418656202527058970, 9344165103595421707, 9344165103595421707);
    Step(true, x, e, 36, 45812984480, 9344165103595421707, 12398472707942400981, 12398472707942400981);
    Step(true, x, e, 37, 91625968960, 12398472707942400981, 10977358340789161543, 10977358340789161543);
    Step(true, x, e, 38, 183251937920, 10977358340789161543, 14519574879452399500, 14519574879452399500);
    Step(true, x, e, 39, 366503875840, 14519574879452399500, 3056692624244734627, 3056692624244734627);
  }

  lemma ThirdSteps40To48(x: nat -> Fp, e: nat -> nat)
    requires IsChain(true, x, e) && x(40) == 3056692624244734627 && e(40) == 733007751680
    ensures x(48) == 6905479200839918232 && e(48) == 187649984430080
  {
    Step(true, x, e, 40, 733007751680, 3056692624244734627, 17973258314804772181, 17973258314804772181);
    Step(true, x, e, 41, 1466015503360, 17973258314804772181, 15462695660743809749, 15462695660743809749);
    Step(true, x, e, 42, 2932031006720, 15462695660743809749, 18046908317468628738, 18046908317468628738);
    Step(true, x, e, 43, 5864062013440, 18046908317468628738, 9144605907772536802, 9144605907772536802);
    Step(true, x, e, 44, 11728124026880, 9144605907772536802, 8796482344486648840, 8796482344486648840);
    Step(true, x, e, 45, 23456248053760, 8796482344486648840, 3596945015050375886, 3596945015050375886);
    Step(true, x, e, 46, 46912496107520, 3596945015050375886, 4201997653601256896, 4201997653601256896);
    Step(true, x, e, 47, 93824992215040, 4201997653601256896, 6905479200839918232, 6905479200839918232);
  }

  lemma ThirdSteps48To56(x: nat -> Fp, e: nat -> nat)
    requires IsChain(true, x, e) && x(48) == 6905479200839918232 && e(48) == 187649984430080
    ensures x(56) == 13835058050987180033 && e(56) == 48038396014100480
  {
    Step(true, x, e, 48, 187649984430080, 6905479200839918232, 1725491680989254570, 1725491680989254570);
    Step(true, x, e, 49, 375299968860160, 1725491680989254570, 12370230134295797906, 12370230134295797906);
    Step(true, x, e, 50, 750599937720320, 12370230134295797906, 3734230229149707555, 3734230229149707555);
    Step(true, x, e, 51, 1501199875440640, 3734230229149707555, 16496341184493220914, 16496341184493220914);
    Step(true, x, e, 52, 3002399750881280, 16496341184493220914, 15331777707844533717, 15331777707844533717);
    Step(true, x, e, 53, 6004799501762560, 15331777707844533717, 11895029263313522992, 11895029263313522992);
    Step(true, x, e, 54, 12009599003525120, 11895029263313522992, 11373273867503537004, 11373273867503537004);
    Step(true, x, e, 55, 24019198007050240, 11373273867503537004, 13835058050987180033, 13835058050987180033);
  }

  lemma ThirdSteps56To63(x: nat -> Fp, e: nat -> nat)
    requires IsChain(true, x, e) && x(56) == 13835058050987180033 && e(56) == 48038396014100480
    ensures x(63) == 18446744065119617025 && e(63) == 6148914689804861440
  {
    Step(true, x, e, 56, 48038396014100480, 13835058050987180033, 35184372080640, 35184372080640);
    Step(true, x, e, 57, 96076792028200960, 35184372080640, 18158513693262872577, 18158513693262872577);
    Step(true, x, e, 58, 192153584056401920, 18158513693262872577, 18446744069413535745, 18446744069413535745);
    Step(true, x, e, 59, 384307168112803840, 18446744069413535745, 1099511627776, 1099511627776);
    Step(true, x, e, 60, 768614336225607680, 1099511627776, 281474976645120, 281474976645120);
    Step(true, x, e, 61, 1537228672451215360, 281474976645120, 18446744065119617026, 18446744065119617026);
    Step(true, x, e, 62, 3074457344902430720, 18446744065119617026, 18446744065119617025, 18446744065119617025);
  }

  ghost predicate IsPower(seven: Fp, x: nat -> Fp, e: nat -> nat, k: nat) { x(k) == Pow(FpRing(), seven, e(k)) }

  lemma PowersChain(third: bool, seven: Fp) returns (x: nat -> Fp, e: nat -> nat)
    requires seven == 7
    ensures IsChain(third, x, e) && forall k :: IsPower(seven, x, e, k)
  {
    e := (k: nat) => Exponent(third, k);
    x := (k: nat) => Pow(FpRing(), seven, Exponent(third, k));
    forall k: nat
      ensures StepAt(third, x, e, k)
    {
      ChainStep(third, seven, x, e, k);
    }
  }

  lemma ChainStep(third: bool, seven: Fp, x: nat -> Fp, e: nat -> nat, k: nat)
    requires seven == 7 && e(k) == Exponent(third, k) && e(k + 1) == Exponent(third, k + 1)
    requires IsPower(seven, x, e, k) && IsPower(seven, x, e, k + 1)
    ensures StepAt(third, x, e, k)
  {
    PowerStep(seven, e(k));
  }

  lemma PowerStep(seven: Fp, n: nat)
    ensures
      var v := Pow(FpRing(), seven, n);
      && Pow(FpRing(), seven, 2 * n) == FpMul(v, v)
      && Pow(FpRing(), seven, 2 * n + 1) == FpMul(seven, FpMul(v, v))
  {
    FpIsRing();
    PowAdd(FpRing(), seven, n, n);
    assert n + n == 2 * n;
  }

  /** 7^((p - 1) / 2) = -1 */
  lemma HalfOrderPower(seven: Fp)
    requires seven == 7
    ensures Pow(FpRing(), seven, HALF_ORDER) == FpRing().Neg(FpRing().one)
  {
    var x, e := PowersChain(false, seven);
    HalfSteps0To8(x, e);
    HalfSteps8To16(x, e);
    HalfSteps16To24(x, e);
    HalfSteps24To32(x, e);
    HalfSteps32To40(x, e);
    HalfSteps40To48(x, e);
    HalfSteps48To56(x, e);
    HalfSteps56To63(x, e);
    assert IsPower(seven, x, e, 63);
  }

  /** 7^((p - 1) / 3) is a cube root of unity other than 1. */
  lemma ThirdOrderPower(seven: Fp)
    requires seven == 7
    ensures Pow(FpRing(), seven, THIRD_ORDER) == 18446744065119617025 != FpRing().one
  {
    var x, e := PowersChain(true, seven);
    ThirdSteps0To8(x, e);
    ThirdSteps8To16(x, e);
    ThirdSteps16To24(x, e);
    ThirdSteps24To32(x, e);
    ThirdSteps32To40(x, e);
    ThirdSteps40To48(x, e);
    ThirdSteps48To56(x, e);
    ThirdSteps56To63(x, e);
    assert IsPower(seven, x, e, 63);
  }
}
