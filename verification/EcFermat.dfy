/** Elements below 2^233 under multiplication modulo the trinomial: if it has no zero divisors,
    then every element but zero satisfies Fermat's little theorem, and elt_inv inverts it. */
module EcFermat {
  import opened Numbers
  import opened Gf2Poly

  /** The trinomial divides a product only if it divides a factor: it is irreducible. */
  ghost predicate Irreducible() {
    forall x, y :: Cong(Mul(x, y), 0) ==> Cong(x, 0) || Cong(y, 0)
  }

  // ----- Reduced elements -----

  function Bound(): nat { Pow2(FIELD_BITS) }

  /** The remainder of x, one bit at a time. */
  function Remainder(x: nat): nat {
    if x < Bound() then x
    else
      var r := 2 * Remainder(x / 2) + x % 2;
      if r < Bound() then r else Xor(r, Modulus())
  }

  lemma {:induction false} RemainderOk(x: nat)
    ensures Remainder(x) < Bound() && Cong(Remainder(x), x)
  {
    hide Cong, Xor, Bound, Modulus;
    if x < Bound() {
      CongRefl(x);
    } else {
      BoundPositive();
      RemainderOk(x / 2);
      var h, c := Remainder(x / 2), x % 2;
      CongDouble(h, x / 2);
      CongRefl(c);
      CongXor(2 * h, 2 * (x / 2), c, c);
      AppendBit(h, c);
      AppendBit(x / 2, c);
      Folded(2 * h + c, x);
    }
  }

  lemma Folded(r: nat, x: nat)
    requires r < 2 * Bound() && Cong(r, x)
    ensures var r' := if r < Bound() then r else Xor(r, Modulus()); r' < Bound() && Cong(r', x)
  {
    hide Cong, Xor, Bound, Modulus;
    if r >= Bound() {
      TopGone(r);
      CongTrans(Xor(r, Modulus()), r, x);
    }
  }

  lemma BoundPositive()
    ensures Bound() >= 1
  {
  }

  lemma AppendBit(h: nat, c: nat)
    requires c < 2
    ensures Xor(2 * h, c) == 2 * h + c
  {
    XorComm(2 * h, c);
    XorEven(c, h);
  }

  /** Subtracting the trinomial from a number one bit too long. */
  lemma TopGone(r: nat)
    requires Bound() <= r < 2 * Bound()
    ensures Xor(r, Modulus()) < Bound() && Cong(Xor(r, Modulus()), r)
  {
    hide Cong, Xor, Pow2, Mul;
    var p := Pow2(FIELD_BITS);
    LowPart();
    XorSplit(FIELD_BITS, 1, 1, r - p, Pow2(74) + 1);
    XorSelf(1);
    assert 1 * p == p && 0 * p == 0;
    MulComm(1, Modulus());
    MulOne(Modulus());
    CongAdd(r, 1);
  }

  lemma LowPart()
    ensures Pow2(74) + 1 < Pow2(FIELD_BITS)
  {
    hide Pow2;
    PowGap(74, FIELD_BITS);
  }

  lemma PowGap(a: nat, b: nat)
    requires 1 <= a < b
    ensures Pow2(a) + 1 < Pow2(b)
  {
    Pow2Monotone(a + 1, b);
    assert Pow2(a + 1) == 2 * Pow2(a);
    assert Pow2(a) == 2 * Pow2(a - 1);
  }

  // ----- The multiplicative monoid -----

  function Product(a: nat, b: nat): nat {
    Remainder(Mul(a, b))
  }

  lemma ProductOk(a: nat, b: nat)
    ensures Product(a, b) < Bound() && Cong(Product(a, b), Mul(a, b))
  {
    hide Cong, Mul, Remainder, Bound;
    RemainderOk(Mul(a, b));
  }

  lemma SameElement(a: nat, b: nat, x: nat)
    requires a < Bound() && b < Bound() && Cong(a, x) && Cong(b, x)
    ensures a == b
  {
    hide Cong, Pow2;
    CongSym(b, x);
    CongTrans(a, x, b);
    CongUnique(a, b);
  }

  lemma ProductComm(a: nat, b: nat)
    ensures Product(a, b) == Product(b, a)
  {
    MulComm(a, b);
  }

  lemma ProductAssoc(a: nat, b: nat, c: nat)
    ensures Product(Product(a, b), c) == Product(a, Product(b, c))
  {
    hide Cong, Mul, Product, Bound;
    var l, r := Product(a, b), Product(b, c);
    ProductOk(a, b);
    ProductOk(b, c);
    ProductOk(l, c);
    ProductOk(a, r);
    CongRefl(a);
    CongRefl(c);
    CongMul(l, Mul(a, b), c, c);
    CongMul(a, a, r, Mul(b, c));
    MulAssoc(a, b, c);
    CongTrans(Product(l, c), Mul(l, c), Mul(Mul(a, b), c));
    CongTrans(Product(a, r), Mul(a, r), Mul(a, Mul(b, c)));
    SameElement(Product(l, c), Product(a, r), Mul(Mul(a, b), c));
  }

  lemma ProductOne(a: nat)
    requires a < Bound()
    ensures Product(a, 1) == a && Product(1, a) == a
  {
    hide Mul, Bound;
    MulOne(a);
    MulComm(1, a);
    assert Remainder(a) == a;
  }

  lemma ProductSwap(x: nat, y: nat, z: nat)
    ensures Product(x, Product(y, z)) == Product(y, Product(x, z))
  {
    hide Product;
    ProductAssoc(x, y, z);
    ProductComm(x, y);
    ProductAssoc(y, x, z);
  }

  // ----- No zero divisors -----

  lemma ZeroCong(x: nat)
    requires x < Bound() && Cong(x, 0)
    ensures x == 0
  {
    hide Cong, Pow2;
    BoundPositive();
    CongUnique(x, 0);
  }

  lemma NonZeroProduct(a: nat, b: nat)
    requires Irreducible() && 0 < a < Bound() && 0 < b < Bound()
    ensures 0 < Product(a, b) < Bound()
  {
    hide Cong, Mul, Product, Bound;
    ProductOk(a, b);
    if Product(a, b) == 0 {
      CongSym(0, Mul(a, b));
      assert Cong(a, 0) || Cong(b, 0);
      if Cong(a, 0) { ZeroCong(a); } else { ZeroCong(b); }
    }
  }

  /** A factor other than zero can be cancelled. */
  lemma Cancels(a: nat, x: nat, y: nat)
    requires Irreducible() && 0 < a < Bound() && x < Bound() && y < Bound() && Product(a, x) == Product(a, y)
    ensures x == y
  {
    hide Cong, Mul, Product, Bound, Xor;
    ProductOk(a, x);
    ProductOk(a, y);
    CongSym(Product(a, x), Mul(a, x));
    CongTrans(Mul(a, x), Product(a, x), Mul(a, y));
    MulXorRight(a, x, y);
    Difference(Mul(a, x), Mul(a, y));
    assert Cong(a, 0) || Cong(Xor(x, y), 0);
    if Cong(a, 0) {
      ZeroCong(a);
    } else {
      Difference(x, y);
      SameReduced(x, y);
    }
  }

  /** Congruent is: the difference is congruent to zero. */
  lemma Difference(x: nat, y: nat)
    ensures Cong(x, y) <==> Cong(Xor(x, y), 0)
  {
    hide Multiple, Xor;
    XorZero(Xor(x, y));
  }

  lemma SameReduced(x: nat, y: nat)
    requires x < Bound() && y < Bound() && Cong(x, y)
    ensures x == y
  {
    hide Cong, Pow2;
    CongUnique(x, y);
  }

  // ----- Products over sets -----

  /** The product of all elements of a set, in an order the definition leaves open. */
  ghost function All(s: set<nat>): nat
    decreases |s|
  {
    if s == {} then 1 else
      var x :| x in s;
      Product(x, All(s - {x}))
  }

  lemma {:induction false} AllRemove(s: set<nat>, x: nat)
    requires x in s
    ensures All(s) == Product(x, All(s - {x}))
    decreases |s|
  {
    hide Product;
    var y :| y in s && All(s) == Product(y, All(s - {y}));
    if y != x {
      AllRemove(s - {y}, x);
      AllRemove(s - {x}, y);
      assert s - {y} - {x} == s - {x} - {y};
      ProductSwap(y, x, All(s - {x} - {y}));
    }
  }

  ghost function Image(a: nat, s: set<nat>): set<nat> {
    set x | x in s :: Product(a, x)
  }

  /** a to the power n. */
  function Raised(a: nat, n: nat): nat {
    if n == 0 then 1 else Product(a, Raised(a, n - 1))
  }

  ghost predicate Elements(s: set<nat>) {
    forall x <- s :: 0 < x < Bound()
  }

  /** Multiplying every element by a multiplies the product by a power of a. */
  lemma {:induction false} AllImage(a: nat, s: set<nat>)
    requires Irreducible() && 0 < a < Bound() && Elements(s)
    ensures |Image(a, s)| == |s| && All(Image(a, s)) == Product(Raised(a, |s|), All(s))
    decreases |s|
  {
    hide Product, Bound, Irreducible;
    if s == {} {
      assert Image(a, s) == {};
      OneOne();
    } else {
      var x :| x in s;
      var rest := s - {x};
      AllImage(a, rest);
      ImageAdds(a, s, x);
      AllRemove(Image(a, s), Product(a, x));
      AllRemove(s, x);
      Interchange(a, x, Raised(a, |rest|), All(rest));
    }
  }

  lemma OneOne()
    ensures Product(1, 1) == 1
  {
    BoundAboveOne();
    ProductOne(1);
  }

  lemma BoundAboveOne()
    ensures 1 < Bound()
  {
    TwoBelow(FIELD_BITS);
  }

  lemma ImageAdds(a: nat, s: set<nat>, x: nat)
    requires Irreducible() && 0 < a < Bound() && Elements(s) && x in s
    ensures Product(a, x) in Image(a, s) && Image(a, s) - {Product(a, x)} == Image(a, s - {x})
    ensures |Image(a, s)| == |Image(a, s - {x})| + 1
  {
    hide Product, Bound, Irreducible;
    forall y | y in s && Product(a, y) == Product(a, x) ensures y == x { Cancels(a, x, y); }
    assert Image(a, s) == Image(a, s - {x}) + {Product(a, x)};
  }

  lemma Interchange(a: nat, x: nat, p: nat, q: nat)
    ensures Product(Product(a, x), Product(p, q)) == Product(Product(a, p), Product(x, q))
  {
    hide Product;
    ProductAssoc(a, x, Product(p, q));
    ProductSwap(x, p, q);
    ProductAssoc(a, p, Product(x, q));
  }

  // ----- Fermat's little theorem -----

  ghost function Units(n: nat): (r: set<nat>)
    ensures forall x: nat :: x in r <==> 0 < x < n
  {
    if n <= 1 then {} else Units(n - 1) + {n - 1}
  }

  lemma {:induction false} UnitsSize(n: nat)
    requires n >= 1
    ensures |Units(n)| == n - 1
    decreases n
  {
    if n > 1 { UnitsSize(n - 1); }
  }

  lemma SubsetSameSize(s: set<nat>, t: set<nat>)
    requires s <= t && |s| == |t|
    ensures s == t
  {
    assert t == s + (t - s);
  }

  lemma {:induction false} AllNonZero(s: set<nat>)
    requires Irreducible() && Elements(s)
    ensures 0 < All(s) < Bound()
    decreases |s|
  {
    hide Product, Bound, Irreducible;
    if s == {} {
      BoundAboveOne();
    } else {
      var x :| x in s;
      AllNonZero(s - {x});
      AllRemove(s, x);
      NonZeroProduct(x, All(s - {x}));
    }
  }

  lemma RaisedBelow(a: nat, n: nat)
    ensures Raised(a, n) < Bound()
  {
    hide Product, Bound;
    BoundAboveOne();
    if n > 0 { ProductOk(a, Raised(a, n - 1)); }
  }

  /** Every element but zero, raised to the number of such elements, is one. */
  lemma Fermat(a: nat)
    requires Irreducible() && 0 < a < Bound()
    ensures Raised(a, Bound() - 1) == 1
  {
    hide Product, Bound, Irreducible, Raised, All, Units;
    var u := Units(Bound());
    UnitsSize(Bound());
    AllImage(a, u);
    forall y | y in Image(a, u) ensures y in u {
      var x :| x in u && y == Product(a, x);
      NonZeroProduct(a, x);
    }
    SubsetSameSize(Image(a, u), u);
    AllNonZero(u);
    var p, q := All(u), Raised(a, Bound() - 1);
    RaisedBelow(a, Bound() - 1);
    BoundAboveOne();
    ProductComm(q, p);
    ProductOne(p);
    Cancels(p, q, 1);
  }

  /** A power computed modulo the trinomial is the power. */
  lemma {:induction false} RaisedPower(a: nat, n: nat)
    ensures Cong(Raised(a, n), Power(a, n))
    decreases n
  {
    hide Cong, Product, Mul;
    if n == 0 {
      CongRefl(1);
    } else {
      RaisedPower(a, n - 1);
      ProductOk(a, Raised(a, n - 1));
      CongRefl(a);
      CongMul(a, a, Raised(a, n - 1), Power(a, n - 1));
      CongTrans(Raised(a, n), Mul(a, Raised(a, n - 1)), Power(a, n));
    }
  }

  /** Fermat's little theorem for every polynomial that the trinomial does not divide. */
  lemma FermatPower(a: nat)
    requires Irreducible() && !Cong(a, 0)
    ensures Bound() >= 1 && Cong(Power(a, Bound() - 1), 1)
  {
    hide Cong, Power, Bound, Irreducible, Remainder, Raised;
    BoundPositive();
    RemainderOk(a);
    var r, n := Remainder(a), Bound() - 1;
    CongSym(r, a);
    if r == 0 { assert false; }
    Fermat(r);
    RaisedPower(r, n);
    CongSym(Raised(r, n), Power(r, n));
    CongPower(a, r, n);
    CongTrans(Power(a, n), Power(r, n), 1);
  }
}
