/** channel/banner/tools/mkbns.c: the ADPCM encoder and its decoder. A block is one byte of table
    index and exponent, and fourteen signed nybbles that scale the error of a linear prediction
    from the two samples before. */
module BnsAdpcm {
  import opened Numbers

  type sample = x: int | -0x8000 <= x < 0x8000

  const BLOCK: int := 14

  const DEFTBL: seq<int> :=
    [674, 1040, 3598, -1738, 2270, -583, 3967, -1969, 1516, 381, 3453, -1468, 2606, -617, 3795, -1759]

  /** The two latest samples: lsamps[0] is the older. */
  datatype Hist = Hist(older: sample, newer: sample)

  function Clamp(x: int): (r: sample) {
    if x > 0x7FFF then 0x7FFF else if x < -0x8000 then -0x8000 else x
  }

  /** `(newer * factor1 + older * factor2) >> 11`, rounding down. */
  function Predict(factor1: int, factor2: int, h: Hist): int {
    (h.newer * factor1 + h.older * factor2) / 2048
  }

  /** The prediction in whole numbers: 2048 stands for 1, and what is left over is dropped. */
  lemma PredictBetween(factor1: int, factor2: int, h: Hist)
    ensures var p := Predict(factor1, factor2, h);
      2048 * p <= factor1 * h.newer + factor2 * h.older < 2048 * (p + 1)
  {
    var x := h.newer * factor1 + h.older * factor2;
    assert x == 2048 * (x / 2048) + x % 2048;
  }

  /** `x >> n` of a signed number rounds down. */
  function Sar(x: int, n: nat): int {
    x / Pow2(n)
  }

  /** One decoded sample. */
  function Sample(factor1: int, factor2: int, exp: nat, nybble: int, h: Hist): sample {
    Clamp(Predict(factor1, factor2, h) + nybble * Pow2(exp))
  }

  /** The samples that nybbles stand for, one after the other. */
  function Samples(factor1: int, factor2: int, exp: nat, nybbles: seq<int>, h: Hist): (r: seq<sample>)
    ensures |r| == |nybbles|
  {
    if nybbles == [] then []
    else
      var n := |nybbles| - 1;
      var before := Samples(factor1, factor2, exp, nybbles[..n], h);
      before + [Sample(factor1, factor2, exp, nybbles[n], Latest(h, before))]
  }

  /** The two latest samples after more samples. */
  function Latest(h: Hist, s: seq<sample>): Hist {
    if s == [] then h
    else if |s| == 1 then Hist(h.newer, s[0])
    else Hist(s[|s| - 2], s[|s| - 1])
  }

  lemma LatestNext(h: Hist, s: seq<sample>, x: sample)
    ensures Latest(h, s + [x]) == Hist(Latest(h, s).newer, x)
  {
  }

  /** Sample k of the straight line through the two latest samples. */
  function Line(h: Hist, k: nat): int {
    h.newer + (k + 1) * (h.newer - h.older)
  }

  /** The line is inside the range before it leaves it. */
  lemma LineInside(h: Hist, j: nat, k: nat)
    requires j <= k && -0x8000 <= Line(h, k) < 0x8000
    ensures -0x8000 <= Line(h, j) < 0x8000
  {
    var d := h.newer - h.older;
    if d >= 0 { Between(d, j + 1, k + 1); } else { Between(-d, j + 1, k + 1); }
  }

  lemma Between(a: nat, x: nat, y: nat)
    requires x <= y
    ensures 0 <= x * a <= y * a
  {
    MulMonotone(a, x, y);
  }

  function Zeroes(n: nat): (r: seq<int>)
    ensures |r| == n
  {
    seq(n, _ => 0)
  }

  /** With the factors 2 and -1, nothing but the prediction draws a straight line, until it is
      clamped. */
  lemma {:induction false} StraightLine(exp: nat, n: nat, h: Hist, k: nat)
    requires k < n && -0x8000 <= Line(h, k) < 0x8000
    ensures Samples(4096, -2048, exp, Zeroes(n), h)[k] == Line(h, k)
    decreases n, k
  {
    hide Line, Predict;
    assert Zeroes(n)[..n - 1] == Zeroes(n - 1);
    if k < n - 1 {
      StraightLine(exp, n - 1, h, k);
    } else {
      var before := Samples(4096, -2048, exp, Zeroes(k), h);
      if k > 0 {
        LineInside(h, k - 1, k);
        StraightLine(exp, k, h, k - 1);
      }
      if k > 1 {
        LineInside(h, k - 2, k);
        StraightLine(exp, k, h, k - 2);
      }
      LineNext(h, k);
      PredictsLine(Latest(h, before));
    }
  }

  lemma PredictsLine(h: Hist)
    ensures Predict(4096, -2048, h) == 2 * h.newer - h.older
  {
    PredictBetween(4096, -2048, h);
  }

  lemma LineNext(h: Hist, k: nat)
    ensures k == 0 ==> Line(h, k) == 2 * h.newer - h.older
    ensures k == 1 ==> Line(h, k) == 2 * Line(h, 0) - h.newer
    ensures k > 1 ==> Line(h, k) == 2 * Line(h, k - 1) - Line(h, k - 2)
  {
  }

  // ----- The block -----

  function Signed(u: nat): int {
    if u >= 8 then u - 16 else u
  }

  function NybbleAt(data: seq<byte>, k: nat): int
    requires |data| == 8 && k < BLOCK
  {
    var b: nat := data[1 + k / 2];
    Signed(if k % 2 == 0 then b / 16 else b % 16)
  }

  function Nybbles(data: seq<byte>, n: nat): (r: seq<int>)
    requires |data| == 8 && n <= BLOCK
    ensures |r| == n
  {
    seq(n, k requires 0 <= k < n => NybbleAt(data, k))
  }

  function TableOf(data: seq<byte>): nat
    requires |data| == 8
  {
    data[0] / 16 % 8
  }

  function ExpOf(data: seq<byte>): nat
    requires |data| == 8
  {
    data[0] % 16
  }

  predicate TableOk(table: seq<int>) {
    |table| == 16
  }

  /** What a block decodes to. */
  function BlockSamples(table: seq<int>, data: seq<byte>, h: Hist): (r: seq<sample>)
    requires TableOk(table) && |data| == 8
    ensures |r| == BLOCK
  {
    var i := TableOf(data);
    Samples(table[2 * i], table[2 * i + 1], ExpOf(data), Nybbles(data, BLOCK), h)
  }

  /** A block of zero nybbles with the factors 2 and -1 continues a straight line. */
  lemma LineBlock(table: seq<int>, data: seq<byte>, h: Hist, k: nat)
    requires TableOk(table) && |data| == 8 && k < BLOCK && forall j | 1 <= j < 8 :: data[j] == 0
    requires table[2 * TableOf(data)] == 4096 && table[2 * TableOf(data) + 1] == -2048
    requires -0x8000 <= Line(h, k) < 0x8000
    ensures BlockSamples(table, data, h)[k] == Line(h, k)
  {
    hide Samples, Line;
    forall j: nat | j < BLOCK ensures NybbleAt(data, j) == 0 {
      assert data[1 + j / 2] == 0;
    }
    assert Nybbles(data, BLOCK) == Zeroes(BLOCK);
    StraightLine(ExpOf(data), BLOCK, h, k);
  }

  /** `x << k` as an int32_t. */
  function Int32(x: int): int {
    (x + 0x8000_0000) % WORD - 0x8000_0000
  }

  /** The decoder's shifts recover the nybble times 2^exp. */
  lemma ShiftsRecover(b: byte, odd: bool, exp: nat)
    requires exp <= 15
    ensures Sar(Int32(if odd then b * 0x1000_0000 else b / 16 * 16 * 0x100_0000), 28 - exp)
      == Signed(if odd then b % 16 else b / 16) * Pow2(exp)
  {
    hide Sar, Int32, Pow2, Signed;
    WordNybble(b, odd);
    SarExact(Signed(if odd then b % 16 else b / 16), exp);
  }

  lemma WordNybble(b: byte, odd: bool)
    ensures Int32(if odd then b * 0x1000_0000 else b / 16 * 16 * 0x100_0000)
      == Signed(if odd then b % 16 else b / 16) * 0x1000_0000
  {
    var u := if odd then b % 16 else b / 16;
    var x := if odd then b * 0x1000_0000 else b / 16 * 16 * 0x100_0000;
    var q := if odd then b / 16 else 0;
    assert x == u * 0x1000_0000 + q * WORD;
    QuotientPlus(x + 0x8000_0000, u * 0x1000_0000 + 0x8000_0000, WORD, q);
    SmallNybble(u);
  }

  lemma SarExact(s: int, exp: nat)
    requires exp <= 15
    ensures Sar(s * 0x1000_0000, 28 - exp) == s * Pow2(exp)
  {
    Pow2Add(28 - exp, exp);
    Pow2Add(26, 2);
    Pow2Values();
    hide Pow2;
    var w, e := Pow2(28 - exp), Pow2(exp);
    Reorder(s, w, e);
    QuotientUnique(s * 0x1000_0000, w, s * e, 0);
  }

  lemma Reorder(s: int, w: int, e: int)
    ensures s * (w * e) == w * (s * e)
  {
  }

  lemma SmallNybble(u: nat)
    requires u < 16
    ensures (u * 0x1000_0000 + 0x8000_0000) % WORD - 0x8000_0000 == Signed(u) * 0x1000_0000
  {
  }

  /** unpack_adpcm */
  method UnpackAdpcm(lsamps: array<sample>, table: seq<int>, data: seq<byte>) returns (outbuf: seq<sample>)
    requires lsamps.Length == 2 && TableOk(table) && |data| == 8
    modifies lsamps
    ensures outbuf == BlockSamples(table, data, old(Hist(lsamps[0], lsamps[1])))
    ensures Hist(lsamps[0], lsamps[1]) == Latest(old(Hist(lsamps[0], lsamps[1])), outbuf)
  {
    hide Sar, Int32, Pow2, Predict, Samples;
    var index := data[0] / 16 % 8;         // the highest bit is ignored
    var exp: nat := data[0] % 16;
    var factor1, factor2 := table[2 * index], table[2 * index + 1];
    ghost var h := Hist(lsamps[0], lsamps[1]);
    var i: nat := 0;
    outbuf := [];
    SamplesStart(factor1, factor2, exp, h);
    while i < BLOCK
      invariant i <= BLOCK && outbuf == Samples(factor1, factor2, exp, Nybbles(data, i), h)
      invariant Hist(lsamps[0], lsamps[1]) == Latest(h, outbuf)
    {
      var b: byte := data[1 + i / 2];
      var raw: int := if i % 2 == 0 then b / 16 * 16 * 0x100_0000 else b * 0x1000_0000;
      ShiftsRecover(b, i % 2 == 1, exp);
      var x := Predict(factor1, factor2, Hist(lsamps[0], lsamps[1])) + Sar(Int32(raw), 28 - exp);
      var s: sample := Clamp(x);
      SamplesNext(factor1, factor2, exp, data, i, h);
      LatestNext(h, outbuf, s);
      outbuf := outbuf + [s];
      lsamps[0] := lsamps[1];
      lsamps[1] := s;
      i := i + 1;
    }
  }

  lemma SamplesStart(factor1: int, factor2: int, exp: nat, h: Hist)
    ensures Samples(factor1, factor2, exp, [], h) == []
  {
  }

  lemma SamplesNext(factor1: int, factor2: int, exp: nat, data: seq<byte>, i: nat, h: Hist)
    requires |data| == 8 && i < BLOCK
    ensures var before := Samples(factor1, factor2, exp, Nybbles(data, i), h);
      Samples(factor1, factor2, exp, Nybbles(data, i + 1), h)
      == before + [Sample(factor1, factor2, exp, NybbleAt(data, i), Latest(h, before))]
  {
    hide Sample;
    assert Nybbles(data, i + 1)[..i] == Nybbles(data, i);
  }

  // ----- The encoder -----

  /** findexp on a whole number: halve until the residual fits a nybble, rounded. */
  method FindExp(residual: nat) returns (exp: nat)
    ensures 2 * residual <= 15 * Pow2(exp) && (exp > 0 ==> 2 * residual > 15 * Pow2(exp - 1))
  {
    exp := 0;
    var scale: nat := 1;
    while 2 * residual > 15 * scale      // residual / scale > 7.5
      invariant scale == Pow2(exp) && (exp > 0 ==> 2 * residual > 15 * Pow2(exp - 1))
      decreases 2 * residual - 15 * scale
    {
      exp := exp + 1;
      scale := scale * 2;
    }
  }

  /** C's division by 2048, towards zero. */
  function Trunc2048(x: int): int {
    if x < 0 then -(-x / 2048) else x / 2048
  }

  /** The quotient of the absolute value, with the number's sign. */
  lemma TruncSign(x: int)
    ensures Trunc2048(-x) == -Trunc2048(x)
    ensures x >= 0 ==> 2048 * Trunc2048(x) <= x < 2048 * (Trunc2048(x) + 1)
  {
  }

  predicate Gentle(factor1: int, factor2: int) {
    -4000 <= factor1 <= 4000 && -2000 <= factor2 <= 2000
  }

  lemma TableGentle(i: nat)
    requires i < 8
    ensures |DEFTBL| == 16 && Gentle(DEFTBL[2 * i], DEFTBL[2 * i + 1])
  {
  }

  lemma Product(x: int, f: int, b: int, c: int)
    requires -b <= x <= b && -c <= f <= c
    ensures -(b * c) <= x * f <= b * c
  {
    if f >= 0 {
      MulMonotone(f, x, b);
      MulMonotone(f, -b, x);
      MulMonotone(b, f, c);
    } else {
      MulMonotone(-f, x, b);
      MulMonotone(-f, -b, x);
      MulMonotone(b, -f, c);
    }
  }

  /** The sum of products stays far inside an int32_t, and the prediction is a moderate number. */
  lemma SumBounded(factor1: int, factor2: int, newer: sample, older: sample)
    requires Gentle(factor1, factor2)
    ensures -196_608_000 <= newer * factor1 + older * factor2 <= 196_608_000
  {
    Product(newer, factor1, 0x8000, 4000);
    Product(older, factor2, 0x8000, 2000);
  }

  /** What the prediction from the two original samples before sample i leaves over. */
  function OpenResidual(factor1: int, factor2: int, h: Hist, inbuf: seq<sample>, i: nat): int
    requires i < |inbuf|
  {
    var before := Latest(h, inbuf[..i]);
    inbuf[i] - Trunc2048(before.newer * factor1 + before.older * factor2)
  }

  /** The least exponent that brings the largest residual, over the original samples, into a nybble,
      negative ones not regarded. */
  ghost predicate IsStdExponent(rlsamps: Hist, factor1: int, factor2: int, inbuf: seq<sample>, exp: nat)
    requires |inbuf| == BLOCK
  {
    && (forall i: nat | i < BLOCK :: 2 * OpenResidual(factor1, factor2, rlsamps, inbuf, i) <= 15 * Pow2(exp))
    && (exp > 0 ==> exists i: nat ::
          i < BLOCK && 2 * OpenResidual(factor1, factor2, rlsamps, inbuf, i) > 15 * Pow2(exp - 1))
  }

  /** determine_std_exponent: never more than 15. */
  method DetermineStdExponent(rlsamps: Hist, factor1: int, factor2: int, inbuf: seq<sample>) returns (exp: nat)
    requires |inbuf| == BLOCK && Gentle(factor1, factor2)
    ensures exp <= 15 && IsStdExponent(rlsamps, factor1, factor2, inbuf, exp)
  {
    hide Latest, Pow2;
    var maxres: nat := 0;
    var h := rlsamps;
    var i: nat := 0;
    ghost var at: nat := 0;
    LatestNone(rlsamps);
    assert inbuf[..0] == [];
    while i < BLOCK
      invariant i <= BLOCK && maxres <= 128_768 && h == Latest(rlsamps, inbuf[..i])
      invariant forall k: nat | k < i :: OpenResidual(factor1, factor2, rlsamps, inbuf, k) <= maxres
      invariant maxres == 0 || (at < i && maxres == OpenResidual(factor1, factor2, rlsamps, inbuf, at))
    {
      SumBounded(factor1, factor2, h.newer, h.older);
      var residual := inbuf[i] - Trunc2048(h.newer * factor1 + h.older * factor2);
      assert residual == OpenResidual(factor1, factor2, rlsamps, inbuf, i);
      if residual > maxres { maxres, at := residual, i; }
      assert inbuf[..i + 1] == inbuf[..i] + [inbuf[i]];
      LatestNext(rlsamps, inbuf[..i], inbuf[i]);
      h := Hist(h.newer, inbuf[i]);
      i := i + 1;
    }
    exp := FindExp(maxres);
    ExpSmall(maxres, exp);
  }

  lemma LatestNone(h: Hist)
    ensures Latest(h, []) == h
  {
  }

  lemma ExpSmall(residual: nat, exp: nat)
    requires residual <= 128_768 && (exp > 0 ==> 2 * residual > 15 * Pow2(exp - 1))
    ensures exp <= 15
  {
    Pow2Add(8, 7);
    Pow2Values();
    assert Pow2(15) == 0x8000;
    if exp > 15 { Pow2Monotone(15, exp - 1); }
  }

  /** Every sample comes out at most 2^exp too small, and never too large. */
  predicate Close(input: seq<sample>, output: seq<sample>, exp: nat) {
    |input| == |output| && forall i | 0 <= i < |input| :: 0 <= input[i] - output[i] < Pow2(exp)
  }

  lemma SampleClose(factor1: int, factor2: int, exp: nat, h: Hist, x: sample, nybble: int)
    requires nybble == Sar(x - Predict(factor1, factor2, h), exp)
    ensures 0 <= x - Sample(factor1, factor2, exp, nybble, h) < Pow2(exp)
  {
    hide Predict, Pow2;
    var residual, p := x - Predict(factor1, factor2, h), Pow2(exp);
    assert residual == p * (residual / p) + residual % p;
    assert nybble * p == p * (residual / p);
  }

  /** With exponent 15 every residual fits a nybble. */
  lemma FitsAt15(factor1: int, factor2: int, h: Hist, x: sample)
    requires Gentle(factor1, factor2)
    ensures -8 <= Sar(x - Predict(factor1, factor2, h), 15) <= 7
  {
    SumBounded(factor1, factor2, h.newer, h.older);
    Pow2Add(8, 7);
    Pow2Values();
    assert Pow2(15) == 0x8000;
  }

  /** What is left over of the first n samples, in steps of 2^exp, when each is predicted from what a
      decoder has for the two before. */
  function Residuals(factor1: int, factor2: int, exp: nat, h: Hist, inbuf: seq<sample>, n: nat): (r: seq<int>)
    requires n <= |inbuf|
    ensures |r| == n
  {
    if n == 0 then []
    else
      var before := Residuals(factor1, factor2, exp, h, inbuf, n - 1);
      var decoded := Latest(h, Samples(factor1, factor2, exp, before, h));
      before + [Sar(inbuf[n - 1] - Predict(factor1, factor2, decoded), exp)]
  }

  predicate AllNybbles(s: seq<int>) {
    forall k | 0 <= k < |s| :: -8 <= s[k] <= 7
  }

  lemma {:induction false} ResidualsBegin(factor1: int, factor2: int, exp: nat, h: Hist, inbuf: seq<sample>, i: nat,
                                          n: nat)
    requires i <= n <= |inbuf|
    ensures Residuals(factor1, factor2, exp, h, inbuf, n)[..i] == Residuals(factor1, factor2, exp, h, inbuf, i)
  {
    hide Sar, Predict, Samples, Latest;
    var r := Residuals(factor1, factor2, exp, h, inbuf, n);
    if i == n {
      assert r[..i] == r;
    } else {
      ResidualsBegin(factor1, factor2, exp, h, inbuf, i, n - 1);
      assert r[..i] == r[..n - 1][..i];
    }
  }

  lemma TooLarge(factor1: int, factor2: int, exp: nat, h: Hist, inbuf: seq<sample>, i: nat)
    requires i < |inbuf|
    requires !(-8 <= Residuals(factor1, factor2, exp, h, inbuf, i + 1)[i] <= 7)
    ensures !AllNybbles(Residuals(factor1, factor2, exp, h, inbuf, |inbuf|))
  {
    ResidualsBegin(factor1, factor2, exp, h, inbuf, i + 1, |inbuf|);
    var r := Residuals(factor1, factor2, exp, h, inbuf, |inbuf|);
    assert r[i] == r[..i + 1][i];
  }

  function Unsigned(n: int): nat
    requires -8 <= n <= 7
  {
    if n < 0 then n + 16 else n
  }

  /** Storing nybble `i`; the nybbles before it stay. */
  lemma Stored(data: seq<byte>, data': seq<byte>, i: nat, n: int)
    requires |data| == 8 == |data'| && i < BLOCK && -8 <= n <= 7
    requires forall k | 0 <= k < 8 && k != 1 + i / 2 :: data'[k] == data[k]
    requires i % 2 == 0 ==> data'[1 + i / 2] == Unsigned(n) * 16
    requires i % 2 == 1 ==> data[1 + i / 2] % 16 == 0 && data'[1 + i / 2] == data[1 + i / 2] + Unsigned(n)
    ensures Nybbles(data', i + 1) == Nybbles(data, i) + [n]
    ensures i % 2 == 0 ==> data'[1 + i / 2] % 16 == 0
  {
    forall k | 0 <= k < i ensures NybbleAt(data', k) == NybbleAt(data, k) {
    }
    assert NybbleAt(data', i) == n;
  }

  /** One attempt of compress_adpcm with a fixed exponent. */
  method TryExponent(data: array<byte>, rlsamps: Hist, factor1: int, factor2: int, tblidx: nat, exp: nat,
                     inbuf: seq<sample>) returns (ok: bool, lsamps: Hist, ghost output: seq<sample>)
    requires data.Length == 8 && |inbuf| == BLOCK && tblidx < 8 && exp <= 15 && Gentle(factor1, factor2)
    modifies data
    ensures exp == 15 ==> ok
    ensures ok <==> AllNybbles(Residuals(factor1, factor2, exp, rlsamps, inbuf, BLOCK))
    ensures ok ==> Nybbles(data[..], BLOCK) == Residuals(factor1, factor2, exp, rlsamps, inbuf, BLOCK)
    ensures ok ==> data[0] == exp + 16 * tblidx && lsamps == Latest(rlsamps, output)
    ensures ok ==>
      output == Samples(factor1, factor2, exp, Nybbles(data[..], BLOCK), rlsamps) && Close(inbuf, output, exp)
  {
    hide Sar, Predict, Samples, Pow2, NybbleAt, Sample, Residuals;
    lsamps := rlsamps;
    data[0] := exp + tblidx * 16;
    output := [];
    var i: nat := 0;
    SamplesStart(factor1, factor2, exp, rlsamps);
    NoResiduals(factor1, factor2, exp, rlsamps, inbuf);
    while i < BLOCK
      invariant i <= BLOCK && data[0] == exp + tblidx * 16 && lsamps == Latest(rlsamps, output)
      invariant output == Samples(factor1, factor2, exp, Nybbles(data[..], i), rlsamps)
      invariant Close(inbuf[..i], output, exp) && (i % 2 == 1 ==> data[1 + i / 2] % 16 == 0)
      invariant Nybbles(data[..], i) == Residuals(factor1, factor2, exp, rlsamps, inbuf, i)
      invariant AllNybbles(Residuals(factor1, factor2, exp, rlsamps, inbuf, i))
    {
      NextResidual(factor1, factor2, exp, rlsamps, inbuf, i, output);
      var predictor := Predict(factor1, factor2, lsamps);
      var residual := Sar(inbuf[i] - predictor, exp);
      FitsAt15(factor1, factor2, lsamps, inbuf[i]);
      if residual > 7 || residual < -8 {
        TooLarge(factor1, factor2, exp, rlsamps, inbuf, i);
        return false, lsamps, output;
      }
      ghost var before := data[..];
      StoreNybble(data, i, residual);
      Stored(before, data[..], i, residual);
      NextSample(factor1, factor2, exp, before, data[..], i, rlsamps, output, inbuf, residual);
      var s := Sample(factor1, factor2, exp, residual, lsamps);
      LatestNext(rlsamps, output, s);
      output := output + [s];
      lsamps := Hist(lsamps.newer, s);
      i := i + 1;
    }
    ok := true;
    assert inbuf[..BLOCK] == inbuf;
  }

  lemma NoResiduals(factor1: int, factor2: int, exp: nat, h: Hist, inbuf: seq<sample>)
    ensures Residuals(factor1, factor2, exp, h, inbuf, 0) == []
  {
  }

  lemma NextResidual(factor1: int, factor2: int, exp: nat, h: Hist, inbuf: seq<sample>, i: nat, output: seq<sample>)
    requires i < |inbuf|
    requires output == Samples(factor1, factor2, exp, Residuals(factor1, factor2, exp, h, inbuf, i), h)
    ensures Residuals(factor1, factor2, exp, h, inbuf, i + 1)
      == Residuals(factor1, factor2, exp, h, inbuf, i)
         + [Sar(inbuf[i] - Predict(factor1, factor2, Latest(h, output)), exp)]
  {
    hide Sar, Predict, Samples, Latest;
  }

  method StoreNybble(data: array<byte>, i: nat, nybble: int)
    requires data.Length == 8 && i < BLOCK && -8 <= nybble <= 7 && (i % 2 == 1 ==> data[1 + i / 2] % 16 == 0)
    modifies data
    ensures forall k | 0 <= k < 8 && k != 1 + i / 2 :: data[k] == old(data[k])
    ensures i % 2 == 0 ==> data[1 + i / 2] == Unsigned(nybble) * 16
    ensures i % 2 == 1 ==> data[1 + i / 2] == old(data[1 + i / 2]) + Unsigned(nybble)
  {
    if i % 2 == 1 {
      data[i / 2 + 1] := data[i / 2 + 1] + Unsigned(nybble);    // |= nybble & 0xf, onto clear bits
    } else {
      data[i / 2 + 1] := Unsigned(nybble) * 16;                 // nybble << 4
    }
  }

  lemma NextSample(factor1: int, factor2: int, exp: nat, before: seq<byte>, data: seq<byte>, i: nat, h: Hist,
                   output: seq<sample>, inbuf: seq<sample>, n: int)
    requires |before| == 8 == |data| && i < BLOCK == |inbuf| && Nybbles(data, i + 1) == Nybbles(before, i) + [n]
    requires output == Samples(factor1, factor2, exp, Nybbles(before, i), h) && Close(inbuf[..i], output, exp)
    requires n == Sar(inbuf[i] - Predict(factor1, factor2, Latest(h, output)), exp)
    ensures var s := Sample(factor1, factor2, exp, n, Latest(h, output));
      output + [s] == Samples(factor1, factor2, exp, Nybbles(data, i + 1), h)
      && Close(inbuf[..i + 1], output + [s], exp)
  {
    hide Sar, Predict, Pow2, NybbleAt, Sample;
    var next := Nybbles(before, i) + [n];
    assert next[..i] == Nybbles(before, i) && next[i] == n;
    SampleClose(factor1, factor2, exp, Latest(h, output), inbuf[i], n);
    assert inbuf[..i + 1] == inbuf[..i] + [inbuf[i]];
  }

  /** The least exponent, from the standard one on, with which all residuals fit into nybbles. */
  ghost predicate LeastFitting(factor1: int, factor2: int, exp: nat, h: Hist, inbuf: seq<sample>)
    requires |inbuf| == BLOCK
  {
    && AllNybbles(Residuals(factor1, factor2, exp, h, inbuf, BLOCK))
    && exists std: nat | std <= exp :: IsStdExponent(h, factor1, factor2, inbuf, std)
         && forall e: nat | std <= e < exp :: !AllNybbles(Residuals(factor1, factor2, e, h, inbuf, BLOCK))
  }

  /** The block that compress_adpcm makes of the samples. */
  ghost predicate Compressed(data: seq<byte>, rlsamps: Hist, tblidx: nat, inbuf: seq<sample>)
    requires |data| == 8 && |inbuf| == BLOCK && tblidx < 8
  {
    var factor1, factor2, exp := DEFTBL[2 * tblidx], DEFTBL[2 * tblidx + 1], ExpOf(data);
    && data[0] == exp + 16 * tblidx && LeastFitting(factor1, factor2, exp, rlsamps, inbuf)
    && Nybbles(data, BLOCK) == Residuals(factor1, factor2, exp, rlsamps, inbuf, BLOCK)
    && Close(inbuf, BlockSamples(DEFTBL, data, rlsamps), exp)
  }

  /** compress_adpcm with one of the tables of `deftbl`: it always finds an exponent, stores the
      residuals, and what it keeps as the latest samples is what a decoder will have. */
  method CompressAdpcm(data: array<byte>, rlsamps: Hist, tblidx: nat, inbuf: seq<sample>) returns (lsamps: Hist)
    requires data.Length == 8 && |inbuf| == BLOCK && tblidx < 8
    modifies data
    ensures Compressed(data[..], rlsamps, tblidx, inbuf)
    ensures lsamps == Latest(rlsamps, BlockSamples(DEFTBL, data[..], rlsamps))
  {
    hide IsStdExponent, Residuals, AllNybbles, Samples, Nybbles, Close, Latest, BlockSamples, Compressed, LeastFitting,
      DEFTBL;
    TableGentle(tblidx);
    var factor1, factor2 := DEFTBL[2 * tblidx], DEFTBL[2 * tblidx + 1];
    var exp := DetermineStdExponent(rlsamps, factor1, factor2, inbuf);
    ghost var std := exp;
    var ok: bool;
    ghost var output: seq<sample>;
    ok, lsamps, output := TryExponent(data, rlsamps, factor1, factor2, tblidx, exp, inbuf);
    while !ok
      invariant std <= exp <= 15 && (exp == 15 ==> ok)
      invariant ok <==> AllNybbles(Residuals(factor1, factor2, exp, rlsamps, inbuf, BLOCK))
      invariant forall e: nat | std <= e < exp :: !AllNybbles(Residuals(factor1, factor2, e, rlsamps, inbuf, BLOCK))
      invariant ok ==> Nybbles(data[..], BLOCK) == Residuals(factor1, factor2, exp, rlsamps, inbuf, BLOCK)
      invariant ok ==> data[0] == exp + 16 * tblidx && lsamps == Latest(rlsamps, output)
      invariant ok ==>
        output == Samples(factor1, factor2, exp, Nybbles(data[..], BLOCK), rlsamps) && Close(inbuf, output, exp)
      decreases 15 - exp
    {
      exp := exp + 1;
      ok, lsamps, output := TryExponent(data, rlsamps, factor1, factor2, tblidx, exp, inbuf);
    }
    MakesBlock(data[..], rlsamps, tblidx, inbuf, std, exp, output);
  }

  lemma MakesBlock(data: seq<byte>, rlsamps: Hist, tblidx: nat, inbuf: seq<sample>, std: nat, exp: nat,
                   output: seq<sample>)
    requires |data| == 8 && |inbuf| == BLOCK && tblidx < 8 && std <= exp <= 15 && data[0] == exp + 16 * tblidx
    requires var factor1, factor2 := DEFTBL[2 * tblidx], DEFTBL[2 * tblidx + 1];
      && IsStdExponent(rlsamps, factor1, factor2, inbuf, std)
      && (forall e: nat | std <= e < exp :: !AllNybbles(Residuals(factor1, factor2, e, rlsamps, inbuf, BLOCK)))
      && AllNybbles(Residuals(factor1, factor2, exp, rlsamps, inbuf, BLOCK))
      && Nybbles(data, BLOCK) == Residuals(factor1, factor2, exp, rlsamps, inbuf, BLOCK)
      && output == Samples(factor1, factor2, exp, Nybbles(data, BLOCK), rlsamps) && Close(inbuf, output, exp)
    ensures Compressed(data, rlsamps, tblidx, inbuf) && output == BlockSamples(DEFTBL, data, rlsamps)
  {
    hide IsStdExponent, Residuals, AllNybbles, Samples, Nybbles, Close, Latest, DEFTBL;
    assert TableOf(data) == tblidx && ExpOf(data) == exp by { HeaderByte(data, exp, tblidx); }
  }

  lemma HeaderByte(data: seq<byte>, exp: nat, tblidx: nat)
    requires |data| == 8 && exp <= 15 && tblidx < 8 && data[0] == exp + 16 * tblidx
    ensures TableOf(data) == tblidx && ExpOf(data) == exp
  {
    QuotientUnique(data[0], 16, tblidx, exp);
  }

  // ----- A whole channel -----

  /** The latest samples after the blocks. */
  function StreamHist(blocks: seq<seq<byte>>, h: Hist): Hist
    requires forall b | b in blocks :: |b| == 8
  {
    if blocks == [] then h
    else
      var n := |blocks| - 1;
      var before := StreamHist(blocks[..n], h);
      Latest(before, BlockSamples(DEFTBL, blocks[n], before))
  }

  /** The samples of the k-th block, decoded after all before it. */
  function StreamBlock(blocks: seq<seq<byte>>, k: nat, h: Hist): seq<sample>
    requires k < |blocks| && forall b | b in blocks :: |b| == 8
  {
    BlockSamples(DEFTBL, blocks[k], StreamHist(blocks[..k], h))
  }

  lemma StreamNext(blocks: seq<seq<byte>>, data: seq<byte>, h: Hist)
    requires |data| == 8 && forall b | b in blocks :: |b| == 8
    ensures StreamHist(blocks + [data], h)
      == Latest(StreamHist(blocks, h), BlockSamples(DEFTBL, data, StreamHist(blocks, h)))
    ensures StreamBlock(blocks + [data], |blocks|, h) == BlockSamples(DEFTBL, data, StreamHist(blocks, h))
    ensures forall k | 0 <= k < |blocks| :: StreamBlock(blocks + [data], k, h) == StreamBlock(blocks, k, h)
  {
    var all := blocks + [data];
    assert all[..|blocks|] == blocks;
    forall k | 0 <= k < |blocks| ensures StreamBlock(all, k, h) == StreamBlock(blocks, k, h) {
      assert all[..k] == blocks[..k];
    }
  }

  lemma NoBlocks(h: Hist)
    ensures StreamHist([], h) == h
  {
  }

  ghost predicate CompressedAt(blocks: seq<seq<byte>>, k: nat, tblidx: nat, inbuf: seq<sample>, h: Hist)
    requires k < |blocks| && (forall b | b in blocks :: |b| == 8) && |inbuf| == BLOCK && tblidx < 8
  {
    Compressed(blocks[k], StreamHist(blocks[..k], h), tblidx, inbuf)
  }

  lemma StillCompressed(blocks: seq<seq<byte>>, data: seq<byte>, k: nat, tblidx: nat, inbuf: seq<sample>, h: Hist)
    requires k < |blocks| && (forall b | b in blocks :: |b| == 8) && |inbuf| == BLOCK && tblidx < 8 && |data| == 8
    requires CompressedAt(blocks, k, tblidx, inbuf, h)
    ensures CompressedAt(blocks + [data], k, tblidx, inbuf, h)
  {
    hide Compressed;
    assert (blocks + [data])[..k] == blocks[..k];
  }

  const SILENCE: Hist := Hist(0, 0)

  /** repack_adpcm over a channel: whatever table is chosen for each block, decoding the whole
      stream gives every sample back to within the block's step, and each block is the one that
      compress_adpcm makes with its table. */
  method PackChannel(input: seq<seq<sample>>, choice: seq<nat>) returns (blocks: seq<seq<byte>>)
    requires |choice| == |input| && forall k | 0 <= k < |input| :: |input[k]| == BLOCK && choice[k] < 8
    ensures |blocks| == |input| && (forall b | b in blocks :: |b| == 8)
    ensures forall k | 0 <= k < |input| :: Close(input[k], StreamBlock(blocks, k, SILENCE), ExpOf(blocks[k]))
    ensures forall k | 0 <= k < |input| :: CompressedAt(blocks, k, choice[k], input[k], SILENCE)
  {
    hide Close, BlockSamples, Samples, Latest, LeastFitting, Residuals, StreamHist, CompressedAt;
    blocks := [];
    var rlsamps := SILENCE;
    NoBlocks(SILENCE);
    var i := 0;
    while i < |input|
      invariant 0 <= i <= |input| && |blocks| == i && (forall b | b in blocks :: |b| == 8)
      invariant rlsamps == StreamHist(blocks, SILENCE)
      invariant forall k | 0 <= k < i :: Close(input[k], StreamBlock(blocks, k, SILENCE), ExpOf(blocks[k]))
      invariant forall k | 0 <= k < i :: CompressedAt(blocks, k, choice[k], input[k], SILENCE)
    {
      var data := new byte[8];
      var next := CompressAdpcm(data, rlsamps, choice[i], input[i]);
      StreamNext(blocks, data[..], SILENCE);
      forall k | 0 <= k < i ensures CompressedAt(blocks + [data[..]], k, choice[k], input[k], SILENCE) {
        StillCompressed(blocks, data[..], k, choice[k], input[k], SILENCE);
      }
      NowCompressed(blocks, data[..], choice[i], input[i], SILENCE);
      blocks := blocks + [data[..]];
      rlsamps := next;
      i := i + 1;
    }
  }

  lemma NowCompressed(blocks: seq<seq<byte>>, data: seq<byte>, tblidx: nat, inbuf: seq<sample>, h: Hist)
    requires |data| == 8 && (forall b | b in blocks :: |b| == 8) && |inbuf| == BLOCK && tblidx < 8
    requires Compressed(data, StreamHist(blocks, h), tblidx, inbuf)
    ensures CompressedAt(blocks + [data], |blocks|, tblidx, inbuf, h)
  {
    hide Compressed;
    assert (blocks + [data])[..|blocks|] == blocks;
  }

  /** The decoder over a channel. */
  method UnpackChannel(blocks: seq<seq<byte>>) returns (output: seq<seq<sample>>)
    requires forall b | b in blocks :: |b| == 8
    ensures |output| == |blocks| && forall k | 0 <= k < |blocks| :: output[k] == StreamBlock(blocks, k, SILENCE)
  {
    hide BlockSamples, Latest;
    output := [];
    var lsamps := new sample[2] [0, 0];
    var i := 0;
    while i < |blocks|
      invariant 0 <= i <= |blocks| && |output| == i
      invariant Hist(lsamps[0], lsamps[1]) == StreamHist(blocks[..i], SILENCE)
      invariant forall k | 0 <= k < i :: output[k] == StreamBlock(blocks, k, SILENCE)
    {
      var outbuf := UnpackAdpcm(lsamps, DEFTBL, blocks[i]);
      assert blocks[..i + 1] == blocks[..i] + [blocks[i]];
      StreamNext(blocks[..i], blocks[i], SILENCE);
      output := output + [outbuf];
      i := i + 1;
    }
  }
}
