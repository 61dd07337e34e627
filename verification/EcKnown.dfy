/** pywii/ecmodule/_ecmodule.c at a known product: x times x^232 is x^74 + 1. */
module EcKnown {
  import opened Numbers
  import opened Gf2Poly
  import opened EcField

  function Nulls(n: nat): (r: seq<byte>)
    ensures |r| == n
  {
    seq(n, _ => 0)
  }

  lemma {:induction false} NullsRead(n: nat)
    ensures BigEndian(Nulls(n)) == 0
  {
    if n > 0 {
      assert Nulls(n)[..n - 1] == Nulls(n - 1);
      NullsRead(n - 1);
    }
  }

  lemma OneRead(b: byte)
    ensures BigEndian([b]) == b
  {
    assert [b][..0] == [];
    assert BigEndian([]) == 0;
  }

  /** The element x. */
  const X: seq<byte> := Nulls(29) + [2]

  /** x^232, the highest power that is not reduced. */
  const TOP_POWER: seq<byte> := [1] + Nulls(29)

  /** x^74 + 1 */
  const WRAPPED: seq<byte> := Nulls(20) + [4] + Nulls(8) + [1]

  lemma KnownNumbers()
    ensures BigEndian(X) == 2 && BigEndian(TOP_POWER) == Pow2(232) && BigEndian(WRAPPED) == Pow2(74) + 1
  {
    hide BigEndian, Pow2;
    NullsRead(29);
    NullsRead(20);
    NullsRead(8);
    OneRead(1);
    OneRead(2);
    OneRead(4);
    BeAppend(Nulls(29), [2]);
    BeAppend([1], Nulls(29));
    BeAppend(Nulls(20), [4]);
    BeAppend(Nulls(20) + [4], Nulls(8));
    BeAppend(Nulls(20) + [4] + Nulls(8), [1]);
    Pow2Values();
    Pow2Add(64, 8);
    Pow2Add(72, 2);
    FourTimes(64);
  }

  lemma FourTimes(k: nat)
    ensures 4 * Pow2(k) * 0x100 == Pow2(k + 10)
  {
    Pow2Values();
    Pow2Add(8, 2);
    Pow2Add(k, 10);
  }

  lemma WrapsAround()
    ensures Cong(Pow2(74) + 1, Mul(2, Pow2(232)))
  {
    hide Xor, Mul, Cong, Pow2;
    var p, q := Pow2(FIELD_BITS), Pow2(74);
    MulDoubleLeft(1, Pow2(232));
    MulBit(Pow2(232), 1);
    Pow2Add(232, 1);
    Pow2Values();
    MulBit(Modulus(), 1);
    XorTop(FIELD_BITS, 74);
    XorAssoc(p, q, 1);
    XorComm(p, Xor(q, 1));
    XorComm(p, Xor(Xor(q, 1), p));
    XorCancel(Xor(q, 1), p);
    XorApart(74, 0);
    CongAdd(p, 1);
  }

  /** Whatever elt_mul returns for these two, it is x^74 + 1. */
  lemma KnownProduct(d: seq<byte>)
    requires Reduced(d) && Cong(BigEndian(d), Mul(BigEndian(X), BigEndian(TOP_POWER)))
    ensures d == WRAPPED
  {
    hide BigEndian, Cong, Mul, Pow2;
    KnownNumbers();
    WrapsAround();
    assert Reduced(WRAPPED);
    ProductUnique(d, WRAPPED, BigEndian(X), BigEndian(TOP_POWER));
  }
}
