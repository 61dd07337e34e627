/** mkbns.c at known blocks: the samples they decode to. */
module BnsKnown {
  import opened Numbers
  import opened BnsAdpcm

  lemma NybblesOf(data: seq<byte>)
    requires |data| == 8
    ensures Nybbles(data, BLOCK) == [
      Signed(data[1] / 16), Signed(data[1] % 16), Signed(data[2] / 16), Signed(data[2] % 16),
      Signed(data[3] / 16), Signed(data[3] % 16), Signed(data[4] / 16), Signed(data[4] % 16),
      Signed(data[5] / 16), Signed(data[5] % 16), Signed(data[6] / 16), Signed(data[6] % 16),
      Signed(data[7] / 16), Signed(data[7] % 16)]
  {
  }

  /** Where the decoder stands: the nybbles so far, their samples, and the two latest samples. */
  datatype At = At(nybbles: seq<int>, samples: seq<sample>, h: Hist)

  ghost predicate Reached(factor1: int, factor2: int, exp: nat, h: Hist, a: At) {
    a.samples == Samples(factor1, factor2, exp, a.nybbles, h) && a.h == Latest(h, a.samples)
  }

  lemma Begins(factor1: int, factor2: int, exp: nat, h: Hist)
    ensures Reached(factor1, factor2, exp, h, At([], [], h))
  {
  }

  lemma Gives(factor1: int, factor2: int, exp: nat, h: Hist, a: At)
    requires Reached(factor1, factor2, exp, h, a)
    ensures a.samples == Samples(factor1, factor2, exp, a.nybbles, h)
  {
  }

  lemma Next(factor1: int, factor2: int, exp: nat, h: Hist, a: At, step: nat, n: int, s: sample) returns (a': At)
    requires Reached(factor1, factor2, exp, h, a) && step == Pow2(exp)
    requires s == Clamp((a.h.newer * factor1 + a.h.older * factor2) / 2048 + n * step)
    ensures a' == At(a.nybbles + [n], a.samples + [s], Hist(a.h.newer, s)) && Reached(factor1, factor2, exp, h, a')
  {
    hide Clamp, Latest, Pow2;
    a' := At(a.nybbles + [n], a.samples + [s], Hist(a.h.newer, s));
    assert a'.nybbles[..|a.nybbles|] == a.nybbles;
    LatestNext(h, a.samples, s);
  }

  lemma Steps()
    ensures Pow2(0) == 1 && Pow2(11) == 2048
  {
    Pow2Values();
    Pow2Add(8, 3);
  }

  lemma ZeroBlockFirst() returns (a: At)
    ensures a == At([0, 0, 0, 0, 0, 0, 0], [674, 1261, 757, 889, 676, 673, 564], Hist(673, 564))
    ensures Reached(674, 1040, 0, Hist(0, 2048), a)
  {
    hide Reached, Pow2;
    Steps();
    a := At([], [], Hist(0, 2048));
    Begins(674, 1040, 0, Hist(0, 2048));
    a := Next(674, 1040, 0, Hist(0, 2048), a, 1, 0, 674);
    a := Next(674, 1040, 0, Hist(0, 2048), a, 1, 0, 1261);
    a := Next(674, 1040, 0, Hist(0, 2048), a, 1, 0, 757);
    a := Next(674, 1040, 0, Hist(0, 2048), a, 1, 0, 889);
    a := Next(674, 1040, 0, Hist(0, 2048), a, 1, 0, 676);
    a := Next(674, 1040, 0, Hist(0, 2048), a, 1, 0, 673);
    a := Next(674, 1040, 0, Hist(0, 2048), a, 1, 0, 564);
  }

  lemma ZeroBlockSamples()
    ensures Samples(674, 1040, 0, [0, 0, 0, 0, 0, 0, 0, 0, 0, 0, 0, 0, 0, 0], Hist(0, 2048))
            == [674, 1261, 757, 889, 676, 673, 564, 527, 459, 418, 370, 334, 297, 267]
  {
    hide Reached, Pow2, Samples;
    Steps();
    var a := ZeroBlockFirst();
    a := Next(674, 1040, 0, Hist(0, 2048), a, 1, 0, 527);
    a := Next(674, 1040, 0, Hist(0, 2048), a, 1, 0, 459);
    a := Next(674, 1040, 0, Hist(0, 2048), a, 1, 0, 418);
    a := Next(674, 1040, 0, Hist(0, 2048), a, 1, 0, 370);
    a := Next(674, 1040, 0, Hist(0, 2048), a, 1, 0, 334);
    a := Next(674, 1040, 0, Hist(0, 2048), a, 1, 0, 297);
    a := Next(674, 1040, 0, Hist(0, 2048), a, 1, 0, 267);
    assert a.nybbles == [0, 0, 0, 0, 0, 0, 0, 0, 0, 0, 0, 0, 0, 0];
    assert a.samples
        == [674, 1261, 757, 889, 676, 673, 564, 527, 459, 418, 370, 334, 297, 267];
    Gives(674, 1040, 0, Hist(0, 2048), a);
  }

  /** Nothing but the prediction with the factors 674 and 1040, from 0 and 2048. */
  lemma ZeroBlock()
    ensures BlockSamples(DEFTBL, [0x00, 0x00, 0x00, 0x00, 0x00, 0x00, 0x00, 0x00], Hist(0, 2048))
            == [674, 1261, 757, 889, 676, 673, 564, 527, 459, 418, 370, 334, 297, 267]
  {
    hide Samples, Nybbles;
    NybblesOf([0x00, 0x00, 0x00, 0x00, 0x00, 0x00, 0x00, 0x00]);
    ZeroBlockSamples();
  }

  lemma LoudBlockFirst() returns (a: At)
    ensures a == At([1, 7, 2, -1, -8, -2, -7], [-693, 14027, 28242, 32767, 18618, 3807, -21263], Hist(3807, -21263))
    ensures Reached(3453, -1468, 11, Hist(1000, -1200), a)
  {
    hide Reached, Pow2;
    Steps();
    a := At([], [], Hist(1000, -1200));
    Begins(3453, -1468, 11, Hist(1000, -1200));
    a := Next(3453, -1468, 11, Hist(1000, -1200), a, 2048, 1, -693);
    a := Next(3453, -1468, 11, Hist(1000, -1200), a, 2048, 7, 14027);
    a := Next(3453, -1468, 11, Hist(1000, -1200), a, 2048, 2, 28242);
    a := Next(3453, -1468, 11, Hist(1000, -1200), a, 2048, -1, 32767);
    a := Next(3453, -1468, 11, Hist(1000, -1200), a, 2048, -8, 18618);
    a := Next(3453, -1468, 11, Hist(1000, -1200), a, 2048, -2, 3807);
    a := Next(3453, -1468, 11, Hist(1000, -1200), a, 2048, -7, -21263);
  }

  lemma LoudBlockSamples()
    ensures Samples(3453, -1468, 11, [1, 7, 2, -1, -8, -2, -7, 0, 3, -4, 7, 1, -3, 4], Hist(1000, -1200))
            == [-693, 14027, 28242, 32767, 18618, 3807, -21263, -32768, -32768, -32768, -17424, -3842, -133, 10721]
  {
    hide Reached, Pow2, Samples;
    Steps();
    var a := LoudBlockFirst();
    a := Next(3453, -1468, 11, Hist(1000, -1200), a, 2048, 0, -32768);
    a := Next(3453, -1468, 11, Hist(1000, -1200), a, 2048, 3, -32768);
    a := Next(3453, -1468, 11, Hist(1000, -1200), a, 2048, -4, -32768);
    a := Next(3453, -1468, 11, Hist(1000, -1200), a, 2048, 7, -17424);
    a := Next(3453, -1468, 11, Hist(1000, -1200), a, 2048, 1, -3842);
    a := Next(3453, -1468, 11, Hist(1000, -1200), a, 2048, -3, -133);
    a := Next(3453, -1468, 11, Hist(1000, -1200), a, 2048, 4, 10721);
    assert a.nybbles == [1, 7, 2, -1, -8, -2, -7, 0, 3, -4, 7, 1, -3, 4];
    assert a.samples
        == [-693, 14027, 28242, 32767, 18618, 3807, -21263, -32768, -32768, -32768, -17424, -3842, -133, 10721];
    Gives(3453, -1468, 11, Hist(1000, -1200), a);
  }

  /** Steps of 2048, cut off at both ends; the highest bit of the block is ignored. */
  lemma LoudBlock()
    ensures BlockSamples(DEFTBL, [0xDB, 0x17, 0x2F, 0x8E, 0x90, 0x3C, 0x71, 0xD4], Hist(1000, -1200))
            == [-693, 14027, 28242, 32767, 18618, 3807, -21263, -32768, -32768, -32768, -17424, -3842, -133, 10721]
  {
    hide Samples, Nybbles;
    NybblesOf([0xDB, 0x17, 0x2F, 0x8E, 0x90, 0x3C, 0x71, 0xD4]);
    LoudBlockSamples();
  }

  /** A block of zero nybbles with table i. */
  function Silent(i: nat): seq<byte>
    requires i < 8
  {
    [16 * i, 0, 0, 0, 0, 0, 0, 0]
  }

  /** What each table makes of a sample of 2048 just before the block, and of one before that. */
  lemma Impulses(i: nat)
    requires i < 8
    ensures BlockSamples(DEFTBL, Silent(i), Hist(0, 2048))[0] == [674, 3598, 2270, 3967, 1516, 3453, 2606, 3795][i]
    ensures BlockSamples(DEFTBL, Silent(i), Hist(2048, 0))[0] == [1040, -1738, -583, -1969, 381, -1468, -617, -1759][i]
  {
    hide BlockSamples, DEFTBL;
    Factors(i);
    FirstSample(DEFTBL, Silent(i), Hist(0, 2048));
    FirstSample(DEFTBL, Silent(i), Hist(2048, 0));
  }

  lemma Factors(i: nat)
    requires i < 8
    ensures |DEFTBL| == 16 && DEFTBL[2 * i] == [674, 3598, 2270, 3967, 1516, 3453, 2606, 3795][i]
    ensures DEFTBL[2 * i + 1] == [1040, -1738, -583, -1969, 381, -1468, -617, -1759][i]
  {
  }

  lemma {:induction false} FirstSample(table: seq<int>, data: seq<byte>, h: Hist)
    requires TableOk(table) && |data| == 8 && data[1] == 0
    ensures BlockSamples(table, data, h)[0] == Clamp(Predict(table[2 * TableOf(data)], table[2 * TableOf(data) + 1], h))
  {
    hide Clamp, Predict, Pow2;
    var f1, f2, exp, ns := table[2 * TableOf(data)], table[2 * TableOf(data) + 1], ExpOf(data), Nybbles(data, BLOCK);
    SamplesStart(f1, f2, exp, h);
    SamplesNext(f1, f2, exp, data, 0, h);
    assert Nybbles(data, 0) == [];
    FirstOfSamples(f1, f2, exp, ns, h);
    assert ns[..1] == Nybbles(data, 1);
    assert NybbleAt(data, 0) == 0;
  }

  lemma {:induction false} FirstOfSamples(f1: int, f2: int, exp: nat, nybbles: seq<int>, h: Hist)
    requires nybbles != []
    ensures Samples(f1, f2, exp, nybbles, h)[0] == Samples(f1, f2, exp, nybbles[..1], h)[0]
    decreases |nybbles|
  {
    hide Sample;
    var n := |nybbles| - 1;
    if n == 0 {
      assert nybbles[..1] == nybbles;
    } else {
      FirstOfSamples(f1, f2, exp, nybbles[..n], h);
      assert nybbles[..n][..1] == nybbles[..1];
    }
  }
}
