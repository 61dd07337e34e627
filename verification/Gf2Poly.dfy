/** Polynomials over the field with two elements, as natural numbers: bit k is the coefficient
    of x^k. Addition is exclusive or, multiplication is long multiplication without carries. */
module Gf2Poly {
  import opened Numbers

  function Xor(a: nat, b: nat): nat {
    if a == 0 then b else if b == 0 then a else 2 * Xor(a / 2, b / 2) + BitXor(a % 2, b % 2)
  }

  function BitXor(c: nat, d: nat): nat {
    if c == d then 0 else 1
  }

  /** `c` times `b` for a single coefficient `c`. */
  function Times(c: nat, b: nat): nat {
    if c == 0 then 0 else b
  }

  function Mul(a: nat, b: nat): nat {
    if a == 0 then 0 else Xor(Times(a % 2, b), 2 * Mul(a / 2, b))
  }

  // ----- Addition -----

  lemma XorStep(a: nat, b: nat)
    ensures Xor(a, b) == 2 * Xor(a / 2, b / 2) + BitXor(a % 2, b % 2)
    ensures Xor(a, b) / 2 == Xor(a / 2, b / 2) && Xor(a, b) % 2 == BitXor(a % 2, b % 2)
  {
    XorZero(a / 2);
    XorZero(b / 2);
    HalfOf(Xor(a / 2, b / 2), BitXor(a % 2, b % 2));
  }

  lemma XorZero(a: nat)
    ensures Xor(a, 0) == a && Xor(0, a) == a
  {
  }

  lemma HalfOf(h: nat, c: nat)
    requires c < 2
    ensures (2 * h + c) / 2 == h && (2 * h + c) % 2 == c
  {
  }

  lemma {:induction false} XorComm(a: nat, b: nat)
    ensures Xor(a, b) == Xor(b, a)
  {
    if a != 0 && b != 0 { XorComm(a / 2, b / 2); }
  }

  lemma {:induction false} XorSelf(a: nat)
    ensures Xor(a, a) == 0
  {
    if a != 0 { XorSelf(a / 2); }
  }

  lemma {:induction false} XorAssoc(a: nat, b: nat, c: nat)
    ensures Xor(Xor(a, b), c) == Xor(a, Xor(b, c))
    decreases a + b + c
  {
    XorZero(a);
    XorZero(b);
    XorZero(c);
    XorZero(Xor(a, b));
    XorZero(Xor(b, c));
    if a != 0 && b != 0 && c != 0 {
      hide Xor;
      XorStep(a, b);
      XorStep(b, c);
      XorStep(Xor(a, b), c);
      XorStep(a, Xor(b, c));
      XorAssoc(a / 2, b / 2, c / 2);
    }
  }

  lemma XorSwap(a: nat, b: nat, c: nat, d: nat)
    ensures Xor(Xor(a, b), Xor(c, d)) == Xor(Xor(a, c), Xor(b, d))
  {
    hide Xor;
    XorAssoc(a, b, Xor(c, d));
    XorAssoc(b, c, d);
    XorComm(b, c);
    XorAssoc(c, b, d);
    XorAssoc(a, c, Xor(b, d));
  }

  lemma XorCancel(a: nat, b: nat)
    ensures Xor(Xor(a, b), b) == a
  {
    XorAssoc(a, b, b);
    XorSelf(b);
    XorComm(a, 0);
  }

  lemma XorDouble(a: nat, b: nat)
    ensures Xor(2 * a, 2 * b) == 2 * Xor(a, b)
  {
    HalfOf(a, 0);
    HalfOf(b, 0);
    XorStep(2 * a, 2 * b);
  }

  lemma XorEven(c: nat, b: nat)
    requires c < 2
    ensures Xor(c, 2 * b) == 2 * b + c
  {
    HalfOf(b, 0);
    XorZero(b);
    XorStep(c, 2 * b);
  }

  /** The low `k` bits and the rest do not meet. */
  lemma {:induction false} XorSplit(k: nat, p: nat, q: nat, a: nat, b: nat)
    requires a < Pow2(k) && b < Pow2(k)
    ensures Xor(p * Pow2(k) + a, q * Pow2(k) + b) == Xor(p, q) * Pow2(k) + Xor(a, b)
    ensures Xor(a, b) < Pow2(k)
    decreases k
  {
    if k == 0 {
      XorZero(0);
    } else {
      var h := Pow2(k - 1);
      assert Pow2(k) == 2 * h;
      hide Xor, Pow2;
      Halves(p, h, a);
      Halves(q, h, b);
      XorStep(p * Pow2(k) + a, q * Pow2(k) + b);
      XorStep(a, b);
      XorSplit(k - 1, p, q, a / 2, b / 2);
      Doubles(Xor(p, q), h, Xor(a / 2, b / 2));
    }
  }

  lemma Halves(p: nat, h: nat, a: nat)
    ensures (p * (2 * h) + a) / 2 == p * h + a / 2 && (p * (2 * h) + a) % 2 == a % 2
  {
    var x := p * h;
    assert p * (2 * h) == 2 * x;
  }

  lemma Doubles(p: nat, h: nat, a: nat)
    ensures 2 * (p * h + a) == p * (2 * h) + 2 * a
  {
  }

  lemma XorShift(k: nat, p: nat, q: nat)
    ensures Xor(p * Pow2(k), q * Pow2(k)) == Xor(p, q) * Pow2(k)
  {
    XorZero(0);
    hide Xor, Pow2;
    XorSplit(k, p, q, 0, 0);
  }

  lemma XorJoin(k: nat, p: nat, a: nat)
    requires a < Pow2(k)
    ensures Xor(p * Pow2(k), a) == p * Pow2(k) + a
  {
    XorZero(p);
    XorZero(a);
    hide Xor, Pow2;
    XorSplit(k, p, 0, 0, a);
  }

  // ----- Multiplication -----

  lemma MulStep(a: nat, b: nat)
    ensures Mul(a, b) == Xor(Times(a % 2, b), 2 * Mul(a / 2, b))
  {
  }

  lemma TimesXor(c: nat, a: nat, b: nat)
    ensures Times(c, Xor(a, b)) == Xor(Times(c, a), Times(c, b))
  {
  }

  lemma TimesSum(c: nat, d: nat, b: nat)
    requires c < 2 && d < 2
    ensures Times(BitXor(c, d), b) == Xor(Times(c, b), Times(d, b))
  {
    XorSelf(b);
    XorComm(b, 0);
  }

  lemma {:induction false} MulXorRight(a: nat, b: nat, c: nat)
    ensures Mul(a, Xor(b, c)) == Xor(Mul(a, b), Mul(a, c))
    decreases a
  {
    if a != 0 {
      hide Xor, Times;
      MulXorRight(a / 2, b, c);
      TimesXor(a % 2, b, c);
      XorDouble(Mul(a / 2, b), Mul(a / 2, c));
      XorSwap(Times(a % 2, b), Times(a % 2, c), 2 * Mul(a / 2, b), 2 * Mul(a / 2, c));
    }
  }

  lemma {:induction false} MulXorLeft(a: nat, b: nat, c: nat)
    ensures Mul(Xor(a, b), c) == Xor(Mul(a, c), Mul(b, c))
    decreases a + b
  {
    if a == 0 || b == 0 {
      XorComm(a, b);
      XorComm(Mul(a, c), Mul(b, c));
    } else {
      hide Xor, Times;
      XorStep(a, b);
      MulStep(Xor(a, b), c);
      MulXorLeft(a / 2, b / 2, c);
      TimesSum(a % 2, b % 2, c);
      XorDouble(Mul(a / 2, c), Mul(b / 2, c));
      XorSwap(Times(a % 2, c), Times(b % 2, c), 2 * Mul(a / 2, c), 2 * Mul(b / 2, c));
    }
  }

  lemma MulZero(a: nat)
    ensures Mul(a, 0) == 0
  {
  }

  lemma {:induction false} MulDoubleRight(a: nat, b: nat)
    ensures Mul(a, 2 * b) == 2 * Mul(a, b)
    decreases a
  {
    if a != 0 {
      MulDoubleRight(a / 2, b);
      XorDouble(Times(a % 2, b), 2 * Mul(a / 2, b));
    }
  }

  lemma MulDoubleLeft(a: nat, b: nat)
    ensures Mul(2 * a, b) == 2 * Mul(a, b)
  {
    hide Mul, Xor;
    HalfOf(a, 0);
    MulStep(2 * a, b);
    XorZero(2 * Mul(a, b));
  }

  lemma MulBit(a: nat, c: nat)
    requires c < 2
    ensures Mul(a, c) == Times(c, a) && Mul(c, a) == Times(c, a)
  {
    if c == 0 {
      MulZero(a);
    } else {
      MulOne(a);
      MulStep(1, a);
      XorComm(a, 0);
    }
  }

  lemma {:induction false} MulOne(a: nat)
    ensures Mul(a, 1) == a
  {
    if a != 0 {
      MulOne(a / 2);
      XorEven(a % 2, a / 2);
    }
  }

  lemma {:induction false} MulComm(a: nat, b: nat)
    ensures Mul(a, b) == Mul(b, a)
    decreases a
  {
    if a == 0 {
      MulZero(b);
    } else {
      hide Xor, Times, Mul;
      MulStep(a, b);
      MulComm(a / 2, b);
      XorEven(a % 2, a / 2);
      assert a == Xor(a % 2, 2 * (a / 2));
      MulXorRight(b, a % 2, 2 * (a / 2));
      MulBit(b, a % 2);
      MulDoubleRight(b, a / 2);
    }
  }

  lemma {:induction false} MulAssoc(a: nat, b: nat, c: nat)
    ensures Mul(Mul(a, b), c) == Mul(a, Mul(b, c))
    decreases a
  {
    if a != 0 {
      hide Xor, Mul;
      MulStep(a, b);
      MulStep(a, Mul(b, c));
      MulXorLeft(Times(a % 2, b), 2 * Mul(a / 2, b), c);
      MulDoubleLeft(Mul(a / 2, b), c);
      MulAssoc(a / 2, b, c);
      MulZeroLeft(c);
    } else {
      MulZeroLeft(c);
    }
  }

  lemma MulZeroLeft(c: nat)
    ensures Mul(0, c) == 0
  {
  }

  lemma {:induction false} MulPower(k: nat, a: nat)
    ensures Mul(Pow2(k), a) == a * Pow2(k)
    decreases k
  {
    if k == 0 {
      MulBit(a, 1);
    } else {
      hide Mul;
      MulPower(k - 1, a);
      MulDoubleLeft(Pow2(k - 1), a);
      Quadruple(a, Pow2(k - 1));
    }
  }

  /** Squaring spreads the bits. */
  function Spread(a: nat): nat {
    if a == 0 then 0 else 4 * Spread(a / 2) + a % 2
  }

  lemma {:induction false} SquareSpreads(a: nat)
    ensures Mul(a, a) == Spread(a)
  {
    if a != 0 {
      hide Mul;
      SquareStep(a % 2, a / 2);
      SquareSpreads(a / 2);
    }
  }

  lemma SquareStep(c: nat, h: nat)
    requires c < 2
    ensures Mul(2 * h + c, 2 * h + c) == 4 * Mul(h, h) + c
  {
    hide Xor, Mul, Times;
    var a := 2 * h + c;
    XorEven(c, h);
    MulXorLeft(c, 2 * h, a);
    MulXorRight(2 * h, c, 2 * h);
    MulDoubleLeft(h, 2 * h);
    MulDoubleRight(h, h);
    MulBit(a, c);
    MulBit(2 * h, c);
    SquareSum(c, h, Mul(h, h));
  }

  lemma SquareSum(c: nat, h: nat, s: nat)
    requires c < 2
    ensures Xor(Times(c, 2 * h + c), Xor(Times(c, 2 * h), 4 * s)) == 4 * s + c
  {
    if c == 1 {
      XorEven(1, h);
      XorAssoc(2 * h + 1, 2 * h, 4 * s);
      XorCancel(1, 2 * h);
      XorEven(1, 2 * s);
    }
  }

  lemma {:induction false} SpreadSplit(k: nat, p: nat, a: nat)
    requires a < Pow2(k)
    ensures Spread(p * Pow2(k) + a) == Spread(p) * Pow2(2 * k) + Spread(a) && Spread(a) < Pow2(2 * k)
    decreases k
  {
    hide Pow2, Spread;
    if k == 0 {
      SpreadBase(p, a);
    } else {
      var h := Pow2(k - 1);
      FourTimes(2 * (k - 1));
      Doubled(k);
      Halves(p, h, a);
      SpreadSplit(k - 1, p, a / 2);
      SpreadStep(p * (2 * h) + a);
      SpreadStep(a);
      SpreadGlue(Spread(p), Pow2(2 * (k - 1)), Spread(a / 2), a % 2);
    }
  }

  lemma SpreadBase(p: nat, a: nat)
    requires a < Pow2(0)
    ensures Spread(p * Pow2(0) + a) == Spread(p) * Pow2(0) + Spread(a) && Spread(a) < Pow2(0)
  {
    SpreadNone();
    hide Spread;
    assert Pow2(0) == 1 && a == 0;
  }

  lemma SpreadNone()
    ensures Spread(0) == 0
  {
  }

  lemma Doubled(k: nat)
    requires k > 0
    ensures Pow2(k) == 2 * Pow2(k - 1)
  {
  }

  lemma SpreadGlue(p: nat, h: nat, s: nat, c: nat)
    requires s < h && c < 2
    ensures 4 * (p * h + s) + c == p * (4 * h) + (4 * s + c) && 4 * s + c < 4 * h
  {
    Quadruple(p, h);
  }

  lemma FourTimes(k: nat)
    ensures Pow2(k + 2) == 4 * Pow2(k)
  {
    assert Pow2(k + 2) == 2 * Pow2(k + 1);
  }

  lemma SpreadStep(a: nat)
    ensures Spread(a) == 4 * Spread(a / 2) + a % 2
  {
  }

  lemma Quadruple(p: nat, h: nat)
    ensures 4 * (p * h) == p * (4 * h) && 2 * (p * h) == p * (2 * h)
  {
  }

  // ----- Degree -----

  /** The number of bits: one more than the degree. */
  function Len(n: nat): nat {
    if n == 0 then 0 else 1 + Len(n / 2)
  }

  lemma {:induction false} LenBelow(n: nat, k: nat)
    ensures n < Pow2(k) <==> Len(n) <= k
    decreases k
  {
    if k > 0 && n > 0 { LenBelow(n / 2, k - 1); }
  }

  lemma {:induction false} XorLen(a: nat, b: nat)
    requires Len(a) < Len(b)
    ensures Len(Xor(a, b)) == Len(b)
  {
    if a != 0 {
      XorStep(a, b);
      XorLen(a / 2, b / 2);
    }
  }

  lemma LenDouble(n: nat)
    requires Len(n) > 0
    ensures Len(2 * n) == Len(n) + 1
  {
  }

  lemma {:induction false} MulLen(a: nat, b: nat)
    requires a > 0 && b > 0
    ensures Len(Mul(a, b)) == Len(a) + Len(b) - 1
    decreases a
  {
    hide Mul, Xor;
    if a == 1 {
      MulBit(b, 1);
    } else {
      MulLen(a / 2, b);
      MulStep(a, b);
      LenDouble(Mul(a / 2, b));
      XorLen(Times(a % 2, b), 2 * Mul(a / 2, b));
    }
  }

  // ----- Modulo x^233 + x^74 + 1 -----

  const FIELD_BITS: nat := 233

  function Modulus(): nat { Pow2(FIELD_BITS) + Pow2(74) + 1 }

  ghost predicate Multiple(x: nat) {
    exists h: nat :: x == Mul(h, Modulus())
  }

  ghost predicate Cong(p: nat, q: nat) {
    Multiple(Xor(p, q))
  }

  lemma MultipleOf(h: nat)
    ensures Multiple(Mul(h, Modulus()))
  {
  }

  lemma MultipleXor(x: nat, y: nat)
    requires Multiple(x) && Multiple(y)
    ensures Multiple(Xor(x, y))
  {
    hide Mul, Xor, Modulus;
    var h: nat :| x == Mul(h, Modulus());
    var i: nat :| y == Mul(i, Modulus());
    MulXorLeft(h, i, Modulus());
    MultipleOf(Xor(h, i));
  }

  lemma MultipleMul(c: nat, x: nat)
    requires Multiple(x)
    ensures Multiple(Mul(c, x))
  {
    hide Mul, Xor, Modulus;
    var h: nat :| x == Mul(h, Modulus());
    MulAssoc(c, h, Modulus());
    MultipleOf(Mul(c, h));
  }

  lemma CongRefl(p: nat)
    ensures Cong(p, p)
  {
    XorSelf(p);
    MulZeroLeft(Modulus());
    MultipleOf(0);
  }

  lemma CongSym(p: nat, q: nat)
    requires Cong(p, q)
    ensures Cong(q, p)
  {
    XorComm(p, q);
  }

  lemma CongTrans(p: nat, q: nat, r: nat)
    requires Cong(p, q) && Cong(q, r)
    ensures Cong(p, r)
  {
    hide Xor, Mul, Multiple;
    MultipleXor(Xor(p, q), Xor(q, r));
    XorAssoc(Xor(p, q), q, r);
    XorCancel(p, q);
  }

  lemma CongXor(p: nat, p': nat, q: nat, q': nat)
    requires Cong(p, p') && Cong(q, q')
    ensures Cong(Xor(p, q), Xor(p', q'))
  {
    hide Xor, Mul, Multiple;
    MultipleXor(Xor(p, p'), Xor(q, q'));
    XorSwap(p, p', q, q');
  }

  lemma CongMul(p: nat, p': nat, q: nat, q': nat)
    requires Cong(p, p') && Cong(q, q')
    ensures Cong(Mul(p, q), Mul(p', q'))
  {
    hide Xor, Mul, Multiple;
    MultipleMul(q, Xor(p, p'));
    MulComm(q, Xor(p, p'));
    MulXorLeft(p, p', q);
    MultipleMul(p', Xor(q, q'));
    MulXorRight(p', q, q');
    CongTrans(Mul(p, q), Mul(p', q), Mul(p', q'));
  }

  lemma CongDouble(p: nat, q: nat)
    requires Cong(p, q)
    ensures Cong(2 * p, 2 * q)
  {
    hide Xor, Mul, Modulus;
    var h: nat :| Xor(p, q) == Mul(h, Modulus());
    XorDouble(p, q);
    MulDoubleLeft(h, Modulus());
    MultipleOf(2 * h);
  }

  /** Adding a multiple of the modulus. */
  lemma CongAdd(p: nat, h: nat)
    ensures Cong(Xor(p, Mul(h, Modulus())), p)
  {
    hide Xor, Mul, Multiple;
    var m := Mul(h, Modulus());
    XorComm(p, m);
    XorCancel(m, p);
    MultipleOf(h);
  }

  /** The modulus, multiplied out. */
  lemma MulModulus(h: nat)
    ensures Mul(h, Modulus()) == Xor(Xor(h * Pow2(FIELD_BITS), h * Pow2(74)), h)
  {
    hide Xor, Mul, Pow2;
    var a, b := Pow2(FIELD_BITS), Pow2(74);
    XorTop(FIELD_BITS, 74);
    MulComm(h, Modulus());
    MulPower(FIELD_BITS, h);
    MulPower(74, h);
    MulXorLeft(Xor(a, b), 1, h);
    MulXorLeft(a, b, h);
    MulBit(h, 1);
  }

  lemma XorTop(n: nat, k: nat)
    requires 1 <= k < n
    ensures Xor(Xor(Pow2(n), Pow2(k)), 1) == Pow2(n) + Pow2(k) + 1
  {
    hide Xor, Pow2;
    XorApart(n, k);
    Grouped(n, k);
    TwoBelow(k);
    XorJoin(k, Pow2(n - k) + 1, 1);
  }

  lemma XorApart(n: nat, k: nat)
    requires k < n
    ensures Xor(Pow2(n), Pow2(k)) == Pow2(n) + Pow2(k)
  {
    Pow2Monotone(k + 1, n);
    assert Pow2(k + 1) == 2 * Pow2(k);
    hide Xor, Pow2;
    XorJoin(n, 1, Pow2(k));
  }

  lemma Grouped(n: nat, k: nat)
    requires k < n
    ensures (Pow2(n - k) + 1) * Pow2(k) == Pow2(n) + Pow2(k)
  {
    hide Pow2;
    Pow2Add(n - k, k);
  }

  lemma TwoBelow(k: nat)
    requires 1 <= k
    ensures 1 < Pow2(k)
  {
  }

  /** Two reduced polynomials that are congruent are equal. */
  lemma CongUnique(p: nat, q: nat)
    requires p < Pow2(FIELD_BITS) && q < Pow2(FIELD_BITS) && Cong(p, q)
    ensures p == q
  {
    hide Xor, Mul, Modulus, Pow2;
    var h: nat :| Xor(p, q) == Mul(h, Modulus());
    XorSplit(FIELD_BITS, 0, 0, p, q);
    if h > 0 {
      ModulusLen();
      MulLen(h, Modulus());
      LenBelow(Xor(p, q), FIELD_BITS);
    } else {
      MulZeroLeft(Modulus());
      XorCancel(p, q);
      XorZero(q);
    }
  }

  lemma ModulusLen()
    ensures Modulus() > 0 && Len(Modulus()) > FIELD_BITS
  {
    hide Pow2;
    LenBelow(Modulus(), FIELD_BITS);
  }

  // ----- Powers -----

  function Power(a: nat, n: nat): nat {
    if n == 0 then 1 else Mul(a, Power(a, n - 1))
  }

  lemma {:induction false} PowerAdd(a: nat, m: nat, n: nat)
    ensures Power(a, m + n) == Mul(Power(a, m), Power(a, n))
    decreases m
  {
    hide Mul;
    if m == 0 {
      MulBit(Power(a, n), 1);
    } else {
      PowerAdd(a, m - 1, n);
      MulAssoc(a, Power(a, m - 1), Power(a, n));
    }
  }

  lemma {:induction false} PowerMul(a: nat, m: nat, n: nat)
    ensures Power(Power(a, m), n) == Power(a, m * n)
    decreases n
  {
    hide Mul;
    if n > 0 {
      PowerMul(a, m, n - 1);
      PowerAdd(a, m, m * (n - 1));
      assert m + m * (n - 1) == m * n;
    }
  }

  lemma {:induction false} CongPower(p: nat, q: nat, n: nat)
    requires Cong(p, q)
    ensures Cong(Power(p, n), Power(q, n))
    decreases n
  {
    hide Mul, Cong;
    if n == 0 {
      CongRefl(1);
    } else {
      CongPower(p, q, n - 1);
      CongMul(p, q, Power(p, n - 1), Power(q, n - 1));
    }
  }
}
