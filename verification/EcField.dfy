/** pywii/ecmodule/_ecmodule.c: elements of GF(2^233) as 30 bytes, the highest coefficient first,
    in the field of FIPS 186-4 appendix D.1.3.2. */
module EcField {
  import opened Numbers
  import opened Gf2Poly
  import opened EcFermat

  const ELT_BYTES: int := 30

  function ByteXor(a: byte, b: byte): (r: byte)
    ensures r == Xor(a, b)
  {
    XorSplit(8, 0, 0, a, b);
    Pow2Values();
    Xor(a, b)
  }

  ghost predicate Reduced(s: seq<byte>) {
    |s| == ELT_BYTES && s[0] < 2
  }

  // ----- Bytes and bits -----

  lemma {:induction false} BeAppend(s: seq<byte>, t: seq<byte>)
    ensures BigEndian(s + t) == BigEndian(s) * Pow2(8 * |t|) + BigEndian(t) && BigEndian(t) < Pow2(8 * |t|)
    decreases |t|
  {
    if t == [] {
      assert s + t == s;
    } else {
      var t0, b := t[..|t| - 1], t[|t| - 1];
      BeAppend(s, t0);
      assert s + t == (s + t0) + [b] && t == t0 + [b];
      BigEndianSnoc(s + t0, b);
      BigEndianSnoc(t0, b);
      Pow2Add(8 * |t0|, 8);
      Pow2Values();
      hide Pow2, BigEndian;
      AppendSum(BigEndian(s), Pow2(8 * |t0|), BigEndian(t0), b);
    }
  }

  lemma AppendSum(p: nat, w: nat, q: nat, b: byte)
    requires q < w
    ensures (p * w + q) * 0x100 + b == p * (w * 0x100) + (q * 0x100 + b) && q * 0x100 + b < w * 0x100
  {
  }

  lemma ReducedBelow(s: seq<byte>)
    requires |s| == ELT_BYTES
    ensures Reduced(s) <==> BigEndian(s) < Pow2(FIELD_BITS)
  {
    hide Pow2, BigEndian;
    assert s == [s[0]] + s[1..];
    BeAppend([s[0]], s[1..]);
    BeOne(s[0]);
    Pow2Add(1, 232);
    Pow2Values();
    TopByte(s[0], Pow2(232), BigEndian(s[1..]));
  }

  lemma TopByte(b: byte, w: nat, r: nat)
    requires r < w
    ensures b < 2 <==> b * w + r < 2 * w
  {
    if b >= 2 { MulMonotone(w, 2, b); }
  }

  lemma BeOne(b: byte)
    ensures BigEndian([b]) == b
  {
    assert [b][..0] == [];
  }

  /** Changing one byte by exclusive or. */
  lemma {:induction false} BeXorAt(s: seq<byte>, j: nat, v: byte)
    requires j < |s|
    ensures BigEndian(s[j := ByteXor(s[j], v)]) == Xor(BigEndian(s), v * Pow2(8 * (|s| - 1 - j)))
    decreases |s|
  {
    hide BigEndian, Xor, Pow2;
    var n := |s| - 1;
    var s0, b := s[..n], s[n];
    assert s == s0 + [b];
    BigEndianSnoc(s0, b);
    if j == n {
      assert s[j := ByteXor(b, v)] == s0 + [ByteXor(b, v)];
      BigEndianSnoc(s0, ByteXor(b, v));
      XorLastByte(BigEndian(s0), b, v);
    } else {
      assert s[j := ByteXor(s[j], v)] == s0[j := ByteXor(s[j], v)] + [b];
      BigEndianSnoc(s0[j := ByteXor(s[j], v)], b);
      BeXorAt(s0, j, v);
      XorHigher(BigEndian(s0), b, v, 8 * (n - 1 - j));
      assert 8 * (n - 1 - j) + 8 == 8 * (n - j);
    }
  }

  lemma XorLastByte(p: nat, b: byte, v: byte)
    ensures Xor(p * 0x100 + b, v * Pow2(0)) == p * 0x100 + Xor(b, v)
  {
    Pow2Values();
    hide Xor, Pow2;
    XorSplit(8, p, 0, b, v);
    XorZero(p);
  }

  lemma XorHigher(p: nat, b: byte, v: byte, k: nat)
    ensures Xor(p * 0x100 + b, v * Pow2(k + 8)) == Xor(p, v * Pow2(k)) * 0x100 + b
  {
    Pow2Values();
    Pow2Add(k, 8);
    hide Xor, Pow2;
    var u := v * Pow2(k);
    Regroup(v, Pow2(k));
    XorBytes(p, u, b);
  }

  lemma XorBytes(p: nat, u: nat, b: byte)
    ensures Xor(p * 0x100 + b, u * 0x100) == Xor(p, u) * 0x100 + b
  {
    Pow2Values();
    hide Xor, Pow2;
    XorSplit(8, p, u, b, 0);
    XorZero(b);
  }

  lemma Regroup(v: nat, w: nat)
    ensures v * (w * 0x100) == (v * w) * 0x100
  {
  }

  /** A byte shifted left by `t` goes into two bytes. */
  lemma BeXorShifted(s: seq<byte>, j: nat, x: byte, t: nat)
    requires 1 <= j < |s| && t <= 8
    ensures x * Pow2(t) / 0x100 < 0x100
    ensures var s1 := s[j - 1 := ByteXor(s[j - 1], x * Pow2(t) / 0x100)];
      BigEndian(s1[j := ByteXor(s1[j], x * Pow2(t) % 0x100)]) == Xor(BigEndian(s), x * Pow2(t + 8 * (|s| - 1 - j)))
  {
    hide BigEndian, Xor, Pow2;
    var y := x * Pow2(t);
    ShiftedByte(x, t);
    var hi, lo := y / 0x100, y % 0x100;
    var k := 8 * (|s| - 1 - j);
    var s1 := s[j - 1 := ByteXor(s[j - 1], hi)];
    BeXorAt(s, j - 1, hi);
    BeXorAt(s1, j, lo);
    XorAssoc(BigEndian(s), hi * Pow2(k + 8), lo * Pow2(k));
    TwoParts(hi, lo, k);
    Pow2Add(t, k);
    assert x * (Pow2(t) * Pow2(k)) == y * Pow2(k);
  }

  lemma ShiftedByte(x: byte, t: nat)
    requires t <= 8
    ensures x * Pow2(t) / 0x100 < 0x100
  {
    Pow2Monotone(t, 8);
    Pow2Values();
    hide Pow2;
    MulMonotone(x, Pow2(t), 0x100);
  }

  lemma TwoParts(hi: nat, lo: nat, k: nat)
    requires lo < 0x100
    ensures Xor(hi * Pow2(k + 8), lo * Pow2(k)) == (0x100 * hi + lo) * Pow2(k)
  {
    hide Xor, Pow2;
    Pow2Add(8, k);
    Pow2Values();
    assert hi * (0x100 * Pow2(k)) == (hi * 0x100) * Pow2(k);
    XorShift(k, hi * 0x100, lo);
    XorJoin(8, hi, lo);
  }

  // ----- elt_add -----

  method EltAdd(d: array<byte>, a: array<byte>, b: array<byte>)
    requires d.Length == a.Length == b.Length == ELT_BYTES
    modifies d
    ensures BigEndian(d[..]) == Xor(old(BigEndian(a[..])), old(BigEndian(b[..])))
    ensures forall i | 0 <= i < ELT_BYTES :: d[i] == ByteXor(old(a[i]), old(b[i]))
  {
    hide Xor, BigEndian;
    ghost var x, y := a[..], b[..];
    var i := 0;
    XorOfNothing();
    while i < ELT_BYTES
      invariant 0 <= i <= ELT_BYTES
      invariant forall j | i <= j < ELT_BYTES :: a[j] == x[j] && b[j] == y[j]
      invariant forall j | 0 <= j < i :: d[j] == ByteXor(x[j], y[j])
      invariant BigEndian(d[..i]) == Xor(BigEndian(x[..i]), BigEndian(y[..i]))
    {
      ghost var before := d[..i];
      d[i] := ByteXor(a[i], b[i]);
      assert d[..i + 1] == before + [d[i]];
      XorNext(x, y, i, before);
      i := i + 1;
    }
    assert d[..i] == d[..] && x[..i] == x && y[..i] == y;
  }

  lemma XorOfNothing()
    ensures BigEndian([]) == 0 && Xor(0, 0) == 0
  {
  }

  lemma XorNext(x: seq<byte>, y: seq<byte>, i: nat, d: seq<byte>)
    requires i < |x| && i < |y| && BigEndian(d) == Xor(BigEndian(x[..i]), BigEndian(y[..i]))
    ensures BigEndian(d + [ByteXor(x[i], y[i])]) == Xor(BigEndian(x[..i + 1]), BigEndian(y[..i + 1]))
  {
    hide Xor, BigEndian;
    BigEndianPrefix(x, i);
    BigEndianPrefix(y, i);
    BigEndianSnoc(d, ByteXor(x[i], y[i]));
    Pow2Values();
    XorSplit(8, BigEndian(x[..i]), BigEndian(y[..i]), x[i], y[i]);
  }

  // ----- elt_mul_x -----

  /** Times x, reduced; `d` may be `a`. */
  method EltMulX(d: array<byte>, a: array<byte>)
    requires d.Length == a.Length == ELT_BYTES && Reduced(a[..])
    modifies d
    ensures Reduced(d[..])
    ensures BigEndian(d[..]) == Xor(2 * old(BigEndian(a[..])), Mul(old(a[0]), Modulus()))
  {
    hide Xor, BigEndian, Mul, Modulus;
    ghost var s := a[..];
    var carry: byte := a[0] % 2;
    var x: byte := 0;
    var i := 0;
    ShiftStart(s);
    while i < ELT_BYTES - 1
      invariant 0 <= i <= ELT_BYTES - 1 && x % 2 == 0
      invariant forall j | i <= j < ELT_BYTES && j > 0 :: a[j] == s[j]
      invariant BigEndian(s[1..i + 1]) == 128 * BigEndian(d[..i]) + x / 2
      invariant if i == 0 then x == 0 else d[0] < 2
    {
      var y: nat := a[i + 1];
      ghost var before := d[..i];
      ShiftNext(s, i, before, x, y);
      d[i] := ByteXor(x, y / 128);         // x ^ (y >> 7)
      assert d[..i + 1] == before + [d[i]];
      x := 2 * y % 0x100;                  // y << 1
      i := i + 1;
    }
    ghost var before := d[..29];
    d[29] := ByteXor(x, carry);
    ghost var t := d[..];
    assert t == before + [ByteXor(x, carry)];
    assert s[1..30] == s[1..];
    ShiftEnd(s, before, x, carry);
    MulXEnd(s, t, carry);
    d[20] := ByteXor(d[20], 4 * carry);    // carry << 2
    assert d[..] == t[20 := ByteXor(t[20], 4 * carry)];
  }

  lemma ShiftEnd(s: seq<byte>, d: seq<byte>, x: byte, carry: byte)
    requires Reduced(s) && x % 2 == 0 && carry < 2 && BigEndian(s[1..]) == 128 * BigEndian(d) + x / 2
    ensures BigEndian(d + [ByteXor(x, carry)]) == 2 * BigEndian(s[1..]) + carry
  {
    hide Xor;
    XorEven(carry, x / 2);
    XorComm(x, carry);
    BigEndianSnoc(d, ByteXor(x, carry));
    hide BigEndian;
  }

  lemma MulXEnd(s: seq<byte>, t: seq<byte>, carry: byte)
    requires Reduced(s) && carry == s[0] && |t| == ELT_BYTES && BigEndian(t) == 2 * BigEndian(s[1..]) + carry
    ensures BigEndian(t[20 := ByteXor(t[20], 4 * carry)]) == Xor(2 * BigEndian(s), Mul(carry, Modulus()))
  {
    hide BigEndian, Xor, Mul, Pow2, Modulus;
    var r := BigEndian(s[1..]);
    var high, mid := carry * Pow2(FIELD_BITS), carry * Pow2(74);
    TopSplit(s);
    MulModulus(carry);
    BeXorAt(t, 20, 4 * carry);
    MidTerm(carry);
    XorEven(carry, r);
    XorFold(high, mid, carry, 2 * r);
  }

  /** The top byte of a reduced element is the coefficient of x^232. */
  lemma TopSplit(s: seq<byte>)
    requires Reduced(s)
    ensures 2 * BigEndian(s) == Xor(s[0] * Pow2(FIELD_BITS), 2 * BigEndian(s[1..]))
  {
    hide BigEndian, Xor, Pow2;
    assert s == [s[0]] + s[1..];
    BeAppend([s[0]], s[1..]);
    BeOne(s[0]);
    DoublePow(232);
    TwiceTop(s[0], Pow2(232), BigEndian(s[1..]));
    XorJoin(FIELD_BITS, s[0], 2 * BigEndian(s[1..]));
  }

  lemma TwiceTop(b: nat, w: nat, r: nat)
    ensures 2 * (b * w + r) == b * (2 * w) + 2 * r
  {
  }

  lemma DoublePow(k: nat)
    ensures Pow2(k + 1) == 2 * Pow2(k) && Pow2(k + 2) == 4 * Pow2(k)
  {
    assert Pow2(k + 2) == 2 * Pow2(k + 1);
  }

  lemma MidTerm(c: nat)
    requires c < 2
    ensures (4 * c) * Pow2(8 * (ELT_BYTES - 1 - 20)) == c * Pow2(74)
  {
    hide Pow2;
    DoublePow(72);
  }

  lemma XorFold(a: nat, b: nat, c: nat, r: nat)
    ensures Xor(Xor(a, r), Xor(Xor(a, b), c)) == Xor(Xor(c, r), b)
  {
    hide Xor;
    XorSwap(a, r, Xor(a, b), c);
    XorAssoc(a, a, b);
    XorSelf(a);
    XorZero(b);
    XorComm(r, c);
    XorComm(b, Xor(c, r));
  }

  lemma ShiftStart(s: seq<byte>)
    requires |s| == ELT_BYTES
    ensures s[1..1] == [] && BigEndian([]) == 0
  {
  }

  lemma ShiftNext(s: seq<byte>, i: nat, d: seq<byte>, x: byte, y: nat)
    requires |s| == ELT_BYTES && i < 29 && y == s[i + 1] && x % 2 == 0
    requires BigEndian(s[1..i + 1]) == 128 * BigEndian(d) + x / 2
    ensures Xor(x, y / 128) == x + y / 128
    ensures BigEndian(s[1..i + 2]) == 128 * BigEndian(d + [ByteXor(x, y / 128)]) + (2 * y % 0x100) / 2
  {
    hide Xor, BigEndian;
    assert s[1..i + 2] == s[1..i + 1] + [s[i + 1]];
    BigEndianSnoc(s[1..i + 1], s[i + 1]);
    XorEven(y / 128, x / 2);
    XorComm(x, y / 128);
    BigEndianSnoc(d, ByteXor(x, y / 128));
    ShiftedPair(BigEndian(s[1..i + 1]), BigEndian(d), x / 2, y);
  }

  lemma ShiftedPair(t: nat, d: nat, h: nat, y: nat)
    requires t == 128 * d + h && y < 0x100
    ensures t * 0x100 + y == 128 * (d * 0x100 + (2 * h + y / 128)) + (2 * y % 0x100) / 2
  {
    QuotientUnique(2 * y, 0x100, y / 128, 2 * (y % 128));
  }

  // ----- elt_mul -----

  method EltZero(d: array<byte>)
    requires d.Length == ELT_BYTES
    modifies d
    ensures Reduced(d[..]) && BigEndian(d[..]) == 0
  {
    hide BigEndian;
    var i := 0;
    ShiftStart(d[..]);
    while i < ELT_BYTES
      invariant 0 <= i <= ELT_BYTES && BigEndian(d[..i]) == 0 && (i > 0 ==> d[0] == 0)
    {
      ghost var before := d[..i];
      d[i] := 0;
      assert d[..i + 1] == before + [0];
      BigEndianSnoc(before, 0);
      i := i + 1;
    }
    assert d[..] == d[..i];
  }

  lemma {:induction false} BeBit(s: seq<byte>, k: nat)
    requires k < 8 * |s|
    ensures BitOf(BigEndian(s), k) == BitOf(s[|s| - 1 - k / 8], k % 8)
    decreases |s|
  {
    hide BigEndian, BitOf;
    var n := |s| - 1;
    assert s == s[..n] + [s[n]];
    BigEndianSnoc(s[..n], s[n]);
    if k < 8 {
      BitLow(BigEndian(s[..n]), s[n], k);
    } else {
      BitHigh(BigEndian(s[..n]), s[n], k - 8);
      BeBit(s[..n], k - 8);
      assert (k - 8) / 8 == k / 8 - 1 && (k - 8) % 8 == k % 8;
    }
  }

  lemma BitLow(p: nat, b: byte, k: nat)
    requires k < 8
    ensures BitOf(p * 0x100 + b, k) == BitOf(b, k)
  {
    ShiftedSum(p, b, k, 8 - k);
    Pow2Values();
    hide Shr;
    assert Pow2(8 - k) == 2 * Pow2(7 - k);
    TwiceOut(p, Pow2(7 - k), Shr(b, k));
  }

  lemma TwiceOut(p: nat, h: nat, r: nat)
    ensures (p * (2 * h) + r) % 2 == r % 2
  {
    assert p * (2 * h) == 2 * (p * h);
    QuotientPlus(p * (2 * h) + r, r, 2, p * h);
  }

  lemma {:induction false} ShiftedSum(p: nat, b: nat, k: nat, r: nat)
    ensures Shr(p * Pow2(k + r) + b, k) == p * Pow2(r) + Shr(b, k)
    decreases k
  {
    if k > 0 {
      ShiftedSum(p, b, k - 1, r + 1);
      assert k - 1 + (r + 1) == k + r;
      Halves(p, Pow2(r), Shr(b, k - 1));
    }
  }

  lemma BitHigh(p: nat, b: byte, k: nat)
    ensures BitOf(p * 0x100 + b, k + 8) == BitOf(p, k)
  {
    ShiftedSum(p, b, 8, 0);
    Pow2Values();
    ShiftBySmall(b, 8);
    hide Pow2;
    ShrShr(p * 0x100 + b, 8, k);
    assert p * 1 == p;
  }

  lemma {:induction false} ShrShr(x: nat, a: nat, b: nat)
    ensures Shr(x, b + a) == Shr(Shr(x, a), b)
    decreases b
  {
    if b > 0 { ShrShr(x, a, b - 1); }
  }

  /** `a[i] & mask` looks at the bits of the element from the highest down. */
  lemma BitAt(s: seq<byte>, n: nat, i: nat, mask: nat)
    requires |s| == ELT_BYTES && n < 233 && i == (n + 7) / 8 && mask == Pow2((232 - n) % 8)
    ensures i < ELT_BYTES && mask > 0 && s[i] / mask % 2 == BitOf(BigEndian(s), 232 - n)
  {
    hide BigEndian, Pow2, Shr;
    BeBit(s, 232 - n);
    assert ELT_BYTES - 1 - (232 - n) / 8 == i;
    ShrIsQuotient(s[i], (232 - n) % 8);
  }

  lemma NextMask(n: nat, mask: nat)
    requires n < 233 && mask == Pow2((232 - n) % 8)
    ensures if mask / 2 == 0 then n % 8 == 0 && 0x80 == Pow2((232 - (n + 1)) % 8)
            else n % 8 != 0 && mask / 2 == Pow2((232 - (n + 1)) % 8)
  {
    hide Pow2;
    var k := (232 - n) % 8;
    HalfPower(k);
    Turns(n, k);
  }

  lemma HalfPower(k: nat)
    ensures Pow2(7) == 0x80 && if k == 0 then Pow2(k) / 2 == 0 else Pow2(k) / 2 == Pow2(k - 1) > 0
  {
    Pow2Values();
    assert Pow2(7) == 2 * Pow2(6);
  }

  lemma Turns(n: nat, k: nat)
    requires n < 233 && k == (232 - n) % 8
    ensures if k == 0 then n % 8 == 0 && (232 - (n + 1)) % 8 == 7 else n % 8 != 0 && (232 - (n + 1)) % 8 == k - 1
  {
  }

  lemma MulRound(d0: nat, d1: nat, d2: nat, t: nat, bit: nat, b: nat, c: nat)
    requires Cong(d0, Mul(t, b)) && d1 == Xor(2 * d0, Mul(c, Modulus())) && bit < 2
    requires d2 == if bit == 1 then Xor(d1, b) else d1
    ensures Cong(d2, Mul(2 * t + bit, b))
  {
    hide Xor, Mul, Cong, Modulus;
    CongAdd(2 * d0, c);
    CongDouble(d0, Mul(t, b));
    CongTrans(d1, 2 * d0, 2 * Mul(t, b));
    HalfOf(t, bit);
    MulStep(2 * t + bit, b);
    if bit == 1 {
      CongRefl(b);
      CongXor(d1, 2 * Mul(t, b), b, b);
      XorComm(b, 2 * Mul(t, b));
    } else {
      XorZero(2 * Mul(t, b));
    }
  }

  /** elt_mul: the product modulo x^233 + x^74 + 1. */
  method EltMul(d: array<byte>, a: array<byte>, b: array<byte>)
    requires d.Length == a.Length == b.Length == ELT_BYTES && d != a && d != b
    requires Reduced(a[..]) && Reduced(b[..])
    modifies d
    ensures Reduced(d[..]) && Cong(BigEndian(d[..]), Mul(BigEndian(a[..]), BigEndian(b[..])))
  {
    hide Xor, BigEndian, Mul, Modulus, Shr, Pow2, Cong, BitOf, Reduced;
    ghost var x, y := BigEndian(a[..]), BigEndian(b[..]);
    EltZero(d);
    var i: nat, n: nat, mask: nat := 0, 0, 1;
    MulBegins(a[..], y);
    while n < 233
      invariant n <= 233 && i == (n + 7) / 8 && mask == Pow2((232 - n) % 8)
      invariant Reduced(d[..]) && Cong(BigEndian(d[..]), Mul(Shr(x, 233 - n), y))
    {
      BitAt(a[..], n, i, mask);
      ghost var d0, c := BigEndian(d[..]), d[0];
      EltMulX(d, d);
      ghost var d1 := BigEndian(d[..]);
      if a[i] / mask % 2 != 0 {
        ReducedXor(d[..], b[..]);
        EltAdd(d, d, b);
        ReducedBelow(d[..]);
      }
      ShiftStep(x, 233 - n);
      MulRound(d0, d1, BigEndian(d[..]), Shr(x, 233 - n), a[i] / mask % 2, y, c);
      NextMask(n, mask);
      mask := mask / 2;
      if mask == 0 {
        mask := 0x80;
        i := i + 1;
      }
      n := n + 1;
    }
    ShrNone(x);
  }

  lemma ShrNone(x: nat)
    ensures Shr(x, 0) == x
  {
  }

  lemma MulBegins(a: seq<byte>, y: nat)
    requires Reduced(a)
    ensures Pow2(232 % 8) == 1 && Cong(0, Mul(Shr(BigEndian(a), 233), y))
  {
    hide BigEndian, Shr, Mul, Cong, Pow2;
    Pow2Values();
    ReducedBelow(a);
    ShiftBySmall(BigEndian(a), 233);
    MulZeroLeft(y);
    CongRefl(0);
  }

  lemma ReducedXor(s: seq<byte>, t: seq<byte>)
    requires Reduced(s) && Reduced(t)
    ensures Xor(BigEndian(s), BigEndian(t)) < Pow2(FIELD_BITS)
  {
    hide BigEndian, Xor, Pow2;
    ReducedBelow(s);
    ReducedBelow(t);
    XorSplit(FIELD_BITS, 0, 0, BigEndian(s), BigEndian(t));
  }

  // ----- elt_square -----

  const SQUARE: seq<byte> :=
    [0x00, 0x01, 0x04, 0x05, 0x10, 0x11, 0x14, 0x15, 0x40, 0x41, 0x44, 0x45, 0x50, 0x51, 0x54, 0x55]

  lemma SquareTable(n: nat)
    requires n < 16
    ensures SQUARE[n] == Spread(n)
  {
    hide Spread;
    SpreadSmall();
    SpreadStep(n);
    SpreadStep(n / 2);
  }

  lemma SpreadSmall()
    ensures Spread(0) == 0 && Spread(1) == 1 && Spread(2) == 4 && Spread(3) == 5
  {
    SpreadStep(1);
    SpreadStep(2);
    SpreadStep(3);
  }

  lemma SpreadByte(s: seq<byte>, i: nat)
    requires i < |s|
    ensures Spread(BigEndian(s[..i + 1]))
      == (Spread(BigEndian(s[..i])) * 0x100 + SQUARE[s[i] / 16]) * 0x100 + SQUARE[s[i] % 16]
  {
    hide BigEndian, Spread, Pow2;
    var p, b := BigEndian(s[..i]), s[i];
    BigEndianPrefix(s, i);
    Pow2Values();
    SpreadSplit(4, b / 16, b % 16);
    SpreadSplit(8, p, b);
    SquareTable(b / 16);
    SquareTable(b % 16);
  }

  /** elt_square_to_wide: every bit goes to twice its place. */
  method EltSquareToWide(d: array<byte>, a: array<byte>)
    requires d.Length == 2 * ELT_BYTES && a.Length == ELT_BYTES && d != a
    modifies d
    ensures BigEndian(d[..]) == Spread(BigEndian(a[..]))
  {
    hide BigEndian, Spread;
    SpreadNothing();
    var i := 0;
    while i < ELT_BYTES
      invariant 0 <= i <= ELT_BYTES && BigEndian(d[..2 * i]) == Spread(BigEndian(a[..i]))
    {
      ghost var before := d[..2 * i];
      d[2 * i] := SQUARE[a[i] / 16];
      d[2 * i + 1] := SQUARE[a[i] % 16];
      assert d[..2 * (i + 1)] == (before + [d[2 * i]]) + [d[2 * i + 1]];
      BigEndianSnoc(before, d[2 * i]);
      BigEndianSnoc(before + [d[2 * i]], d[2 * i + 1]);
      SpreadByte(a[..], i);
      assert a[..][..i] == a[..i] && a[..][..i + 1] == a[..i + 1];
      i := i + 1;
    }
    assert d[..2 * i] == d[..] && a[..i] == a[..];
  }

  lemma SpreadNothing()
    ensures BigEndian([]) == 0 && Spread(0) == 0
  {
  }

  /** `d[j - 1] ^= x >> (8 - t); d[j] ^= x << t`, as seen from byte `lo` on. */
  method XorShifted(d: array<byte>, j: nat, x: byte, t: nat, ghost lo: nat)
    requires lo < j < d.Length && t <= 8
    modifies d
    ensures d[..lo] == old(d[..lo])
    ensures BigEndian(d[lo..]) == Xor(old(BigEndian(d[lo..])), Raise(x, t + 8 * (d.Length - 1 - j)))
  {
    hide BigEndian, Xor, Pow2;
    ghost var s := d[lo..];
    ShiftedByte(x, t);
    BeXorShifted(s, j - lo, x, t);
    d[j - 1] := ByteXor(d[j - 1], x * Pow2(t) / 0x100);
    ghost var s1 := d[lo..];
    assert s1 == s[j - lo - 1 := ByteXor(s[j - lo - 1], x * Pow2(t) / 0x100)];
    d[j] := ByteXor(d[j], x * Pow2(t) % 0x100);
    assert d[lo..] == s1[j - lo := ByteXor(s1[j - lo], x * Pow2(t) % 0x100)];
  }

  /** `h` times x^k. */
  function Raise(h: nat, k: nat): nat {
    h * Pow2(k)
  }

  lemma ScalePow(x: nat, m: nat, n: nat)
    ensures Raise(Raise(x, m), n) == Raise(x, m + n)
  {
    hide Pow2;
    Pow2Add(m, n);
    assert (x * Pow2(m)) * Pow2(n) == x * (Pow2(m) * Pow2(n));
  }

  /** Eliminating `h` x^233 from `r`: x^233 is x^74 + 1. */
  lemma Eliminate(h: nat, r: nat)
    ensures Cong(Xor(Xor(r, Raise(h, 74)), h), Xor(Raise(h, FIELD_BITS), r))
  {
    hide Xor, Mul, Pow2, Cong, Modulus;
    var a, b := Raise(h, FIELD_BITS), Raise(h, 74);
    MulModulus(h);
    XorFold(a, b, h, r);
    XorComm(h, r);
    XorAssoc(r, h, b);
    XorComm(h, b);
    XorAssoc(r, b, h);
    CongAdd(Xor(a, r), h);
  }

  lemma ReduceRound(x: byte, r: nat, i: nat)
    requires i < ELT_BYTES && r < Pow2(8 * (59 - i))
    ensures Cong(Xor(Xor(r, Raise(x, 1 + 8 * (39 - i))), Raise(x, 7 + 8 * (29 - i))), Raise(x, 8 * (59 - i)) + r)
  {
    hide Xor, Mul, Pow2, Cong, Modulus;
    var h := Raise(x, 7 + 8 * (29 - i));
    ScalePow(x, 7 + 8 * (29 - i), 74);
    ScalePow(x, 7 + 8 * (29 - i), FIELD_BITS);
    assert 7 + 8 * (29 - i) + 74 == 1 + 8 * (39 - i) && 7 + 8 * (29 - i) + FIELD_BITS == 8 * (59 - i);
    Eliminate(h, r);
    XorJoin(8 * (59 - i), x, r);
  }

  lemma LastRound(h: nat, c: nat, r: nat, r': nat, k: nat)
    requires k + 1 == FIELD_BITS && c < 2 && r < Pow2(k) && r' < Pow2(k)
    requires r' == Xor(Xor(r, Raise(h, 74)), h)
    ensures Cong(Raise(c, k) + r', Raise(2 * h + c, k) + r)
  {
    hide Xor, Mul, Pow2, Cong, Modulus;
    DoublePow(k);
    var s0 := Raise(c, k) + r;
    XorJoin(k, c, r);
    XorJoin(k, c, r');
    HalfTop(h, c, Pow2(k), r);
    XorJoin(FIELD_BITS, h, s0);
    Eliminate(h, s0);
    XorAssoc(Raise(c, k), Xor(r, Raise(h, 74)), h);
    XorAssoc(Raise(c, k), r, Raise(h, 74));
  }

  lemma HalfTop(h: nat, c: nat, w: nat, r: nat)
    requires c < 2
    ensures (2 * h + c) * w + r == h * (2 * w) + (c * w + r)
    ensures r < w ==> c * w + r < 2 * w
  {
    assert (2 * h + c) * w == h * (2 * w) + c * w;
  }

  lemma HeadTail(s: seq<byte>)
    requires s != []
    ensures BigEndian(s) == Raise(s[0], 8 * (|s| - 1)) + BigEndian(s[1..]) && BigEndian(s[1..]) < Pow2(8 * (|s| - 1))
  {
    hide BigEndian, Pow2;
    assert s == [s[0]] + s[1..];
    BeAppend([s[0]], s[1..]);
    BeOne(s[0]);
  }

  /** wide_reduce: the lower half is congruent to the whole. */
  method WideReduce(d: array<byte>)
    requires d.Length == 2 * ELT_BYTES
    modifies d
    ensures Reduced(d[30..]) && Cong(BigEndian(d[30..]), old(BigEndian(d[..])))
  {
    hide BigEndian, Pow2, Xor, Cong, Raise;
    ghost var whole := BigEndian(d[..]);
    CongRefl(whole);
    var i := 0;
    assert d[0..] == d[..];
    while i < ELT_BYTES
      invariant 0 <= i <= ELT_BYTES && Cong(BigEndian(d[i..]), whole)
    {
      ghost var s := BigEndian(d[i..]);
      var x := d[i];
      HeadTail(d[i..]);
      assert d[i..][1..] == d[i + 1..];
      ReduceRound(x, BigEndian(d[i + 1..]), i);
      XorShifted(d, i + 20, x, 1, i + 1);      // d[i + 19] ^= x >> 7, d[i + 20] ^= x << 1
      XorShifted(d, i + 30, x, 7, i + 1);      // d[i + 29] ^= x >> 1, d[i + 30] ^= x << 7
      CongTrans(BigEndian(d[i + 1..]), s, whole);
      i := i + 1;
    }
    ReduceTop(d, whole);
  }

  method ReduceTop(d: array<byte>, ghost whole: nat)
    requires d.Length == 2 * ELT_BYTES && Cong(BigEndian(d[30..]), whole)
    modifies d
    ensures Reduced(d[30..]) && Cong(BigEndian(d[30..]), whole)
  {
    hide BigEndian, Pow2, Xor, Cong, Raise;
    ghost var s := BigEndian(d[30..]);
    ghost var b, r := d[30], BigEndian(d[31..]);
    HeadTail(d[30..]);
    assert d[30..][1..] == d[31..];
    var x: byte := d[30] - d[30] % 2;          // d[30] & ~1
    XorShifted(d, 50, x, 1, 31);               // d[49] ^= x >> 7, d[50] ^= x << 1
    ghost var u := d[31..];
    assert d[..31][30] == b;
    d[59] := ByteXor(d[59], x / 2);            // x >> 1
    assert d[31..] == u[28 := ByteXor(u[28], x / 2)];
    BeXorAt(u, 28, x / 2);
    d[30] := d[30] % 2;
    HeadTail(d[30..]);
    assert d[30..][1..] == d[31..];
    ShiftedEven(x / 2);
    LastRound(x / 2, b % 2, r, BigEndian(d[31..]), 232);
    CongTrans(BigEndian(d[30..]), s, whole);
  }

  lemma ShiftedEven(h: nat)
    ensures h * Pow2(0) == h && Raise(2 * h, 73) == Raise(h, 74)
  {
    hide Pow2;
    DoublePow(73);
    ScalePow(h, 1, 73);
    Pow2Values();
  }

  method EltCopy(d: array<byte>, a: array<byte>)
    requires d.Length == a.Length == ELT_BYTES
    modifies d
    ensures d[..] == old(a[..])
  {
    forall i | 0 <= i < ELT_BYTES { d[i] := a[i]; }    // memcpy
  }

  /** elt_square: the same element as elt_mul(a, a), see `ProductUnique`. */
  method EltSquare(d: array<byte>, a: array<byte>)
    requires d.Length == a.Length == ELT_BYTES && Reduced(a[..])
    modifies d
    ensures Reduced(d[..]) && Cong(BigEndian(d[..]), old(Mul(BigEndian(a[..]), BigEndian(a[..]))))
  {
    hide BigEndian, Mul, Cong, Reduced, Spread;
    var wide := new byte[2 * ELT_BYTES];
    EltSquareToWide(wide, a);
    SquareSpreads(BigEndian(a[..]));
    WideReduce(wide);
    ghost var low := wide[30..];
    forall i | 0 <= i < ELT_BYTES { d[i] := wide[30 + i]; }    // memcpy
    assert d[..] == low;
  }

  /** A reduced element congruent to a product is the product: multiplying and squaring agree. */
  lemma ProductUnique(d: seq<byte>, e: seq<byte>, a: nat, b: nat)
    requires Reduced(d) && Reduced(e) && Cong(BigEndian(d), Mul(a, b)) && Cong(BigEndian(e), Mul(a, b))
    ensures d == e
  {
    hide BigEndian, Cong, Mul;
    ReducedBelow(d);
    ReducedBelow(e);
    CongSym(BigEndian(e), Mul(a, b));
    CongTrans(BigEndian(d), Mul(a, b), BigEndian(e));
    CongUnique(BigEndian(d), BigEndian(e));
    BeInjective(d, e);
  }

  // ----- elt_inv -----

  /** itoh_tsujii: a to the power 2^j, times b. */
  method ItohTsujii(d: array<byte>, a: array<byte>, b: array<byte>, j: nat)
    requires d.Length == a.Length == b.Length == ELT_BYTES && d != b && Reduced(a[..]) && Reduced(b[..])
    modifies d
    ensures Reduced(d[..])
    ensures Cong(BigEndian(d[..]), Mul(Power(old(BigEndian(a[..])), Pow2(j)), BigEndian(b[..])))
  {
    hide BigEndian, Mul, Cong, Reduced, Pow2, Power;
    ghost var x := BigEndian(a[..]);
    var t := new byte[ELT_BYTES];
    EltCopy(t, a);
    PowerOnce(x);
    ghost var k: nat := 0;
    var left := j;
    while left != 0
      invariant 0 <= left && k + left == j && Reduced(t[..]) && Cong(BigEndian(t[..]), Power(x, Pow2(k)))
      invariant b[..] == old(b[..])
      decreases left
    {
      PowerTwice(x, k, BigEndian(t[..]));
      ghost var sq := Mul(BigEndian(t[..]), BigEndian(t[..]));
      EltSquare(d, t);
      CongTrans(BigEndian(d[..]), sq, Power(x, Pow2(k + 1)));
      EltCopy(t, d);
      k := k + 1;
      left := left - 1;
    }
    ghost var y := BigEndian(b[..]);
    EltMul(d, t, b);
    CongRefl(y);
    CongMul(BigEndian(t[..]), Power(x, Pow2(j)), y, y);
    CongTrans(BigEndian(d[..]), Mul(BigEndian(t[..]), y), Mul(Power(x, Pow2(j)), y));
  }

  lemma PowerOnce(x: nat)
    ensures Cong(x, Power(x, Pow2(0)))
  {
    hide Cong, Mul;
    assert Pow2(0) == 1;
    assert Power(x, 1) == Mul(x, Power(x, 0));
    MulOne(x);
    CongRefl(x);
  }

  lemma PowerTwice(x: nat, k: nat, t: nat)
    requires Cong(t, Power(x, Pow2(k)))
    ensures Cong(Mul(t, t), Power(x, Pow2(k + 1)))
  {
    hide Cong, Mul, Power;
    CongMul(t, Power(x, Pow2(k)), t, Power(x, Pow2(k)));
    PowerAdd(x, Pow2(k), Pow2(k));
    assert Pow2(k + 1) == Pow2(k) + Pow2(k);
  }

  /** `t` is a to the power 2^m - 1. */
  ghost predicate Chain(t: nat, a: nat, m: nat) {
    Cong(t, Power(a, Pow2(m) - 1))
  }

  lemma ChainStart(a: nat)
    ensures Chain(a, a, 1)
  {
    assert Pow2(1) == 2 && Pow2(0) == 1;
    PowerOnce(a);
  }

  /** From 2^m - 1 and 2^n - 1 to 2^(m + n) - 1. */
  lemma ChainStep(d: nat, t: nat, u: nat, a: nat, m: nat, n: nat)
    requires Chain(t, a, m) && Chain(u, a, n) && Cong(d, Mul(Power(t, Pow2(n)), u))
    ensures Chain(d, a, m + n)
  {
    hide Cong, Mul, Power, Pow2;
    var p, q := Pow2(m) - 1, Pow2(n) - 1;
    CongPower(t, Power(a, p), Pow2(n));
    PowerMul(a, p, Pow2(n));
    CongMul(Power(t, Pow2(n)), Power(a, p * Pow2(n)), u, Power(a, q));
    PowerAdd(a, p * Pow2(n), q);
    Pow2Add(m, n);
    ChainSum(Pow2(m), Pow2(n));
    CongTrans(d, Mul(Power(t, Pow2(n)), u), Power(a, Pow2(m + n) - 1));
  }

  lemma ChainSum(x: nat, y: nat)
    requires x >= 1 && y >= 1
    ensures (x - 1) * y + (y - 1) == x * y - 1
  {
  }

  method Link(d: array<byte>, t: array<byte>, u: array<byte>, ghost m: nat, j: nat, ghost a: nat)
    requires d.Length == t.Length == u.Length == ELT_BYTES && d != u && d != t && Reduced(t[..]) && Reduced(u[..])
    requires Chain(BigEndian(t[..]), a, m) && Chain(BigEndian(u[..]), a, j)
    modifies d
    ensures Reduced(d[..]) && Chain(BigEndian(d[..]), a, m + j)
  {
    hide BigEndian, Mul, Cong, Reduced, Pow2, Power, Chain;
    ghost var x, y := BigEndian(t[..]), BigEndian(u[..]);
    ItohTsujii(d, t, u, j);
    ChainStep(BigEndian(d[..]), x, y, a, m, j);
  }

  /** elt_inv: a to the power 2^233 - 2. */
  method EltInv(d: array<byte>, a: array<byte>)
    requires d.Length == a.Length == ELT_BYTES && Reduced(a[..])
    modifies d
    ensures Reduced(d[..])
    ensures Cong(BigEndian(d[..]), Power(old(BigEndian(a[..])), Pow2(FIELD_BITS) - 2))
  {
    hide BigEndian, Mul, Cong, Reduced, Pow2, Power, Chain;
    ghost var x := BigEndian(a[..]);
    var t := new byte[ELT_BYTES];
    var s := new byte[ELT_BYTES];
    ChainStart(x);
    Link(t, a, a, 1, 1, x);
    Link(s, t, a, 2, 1, x);
    Link(t, s, s, 3, 3, x);
    Link(s, t, a, 6, 1, x);
    Link(t, s, s, 7, 7, x);
    Link(s, t, t, 14, 14, x);
    Link(t, s, a, 28, 1, x);
    Link(s, t, t, 29, 29, x);
    Link(t, s, s, 58, 58, x);
    Link(s, t, t, 116, 116, x);
    LastSquare(BigEndian(s[..]), x, 232);
    ghost var sq := Mul(BigEndian(s[..]), BigEndian(s[..]));
    EltSquare(d, s);
    CongTrans(BigEndian(d[..]), sq, Power(x, Pow2(FIELD_BITS) - 2));
  }

  lemma LastSquare(t: nat, a: nat, m: nat)
    requires Chain(t, a, m) && m + 1 == FIELD_BITS
    ensures Pow2(FIELD_BITS) >= 2 && Cong(Mul(t, t), Power(a, Pow2(FIELD_BITS) - 2))
  {
    hide Cong, Mul, Power, Pow2;
    DoublePow(m);
    var p := Pow2(m) - 1;
    CongMul(t, Power(a, p), t, Power(a, p));
    PowerAdd(a, p, p);
  }

  /** A number times its power 2^233 - 2 is its power 2^233 - 1. */
  lemma InverseIff(a: nat, inv: nat, one: nat)
    requires Pow2(FIELD_BITS) >= 2 && Cong(inv, Power(a, Pow2(FIELD_BITS) - 2)) && Cong(one, Mul(a, inv))
    ensures Cong(one, 1) <==> Cong(Power(a, Pow2(FIELD_BITS) - 1), 1)
  {
    hide Cong, Mul, Pow2;
    var n := Pow2(FIELD_BITS) - 2;
    CongRefl(a);
    CongMul(a, a, inv, Power(a, n));
    assert Power(a, n + 1) == Mul(a, Power(a, n));
    hide Power;
    CongTrans(one, Mul(a, inv), Power(a, n + 1));
    CongSym(one, Power(a, n + 1));
    if Cong(one, 1) { CongTrans(Power(a, n + 1), one, 1); }
    if Cong(Power(a, n + 1), 1) { CongTrans(one, Power(a, n + 1), 1); }
  }

  /** Over a field elt_inv inverts exactly the elements that are not zero. */
  lemma InvertsNonZero(a: nat, inv: nat)
    requires Irreducible() && Pow2(FIELD_BITS) >= 2 && Cong(inv, Power(a, Pow2(FIELD_BITS) - 2))
    ensures Cong(Mul(a, inv), 1) <==> !Cong(a, 0)
  {
    hide Cong, Mul, Power, Pow2, Irreducible;
    var one := Mul(a, inv);
    CongRefl(one);
    InverseIff(a, inv, one);
    if Cong(a, 0) {
      CongRefl(inv);
      CongMul(a, 0, inv, inv);
      MulZeroLeft(inv);
      if Cong(one, 1) {
        CongSym(one, 1);
        CongTrans(1, one, 0);
        BoundAboveOne();
        ZeroCong(1);
      }
    } else {
      FermatPower(a);
    }
  }
}
