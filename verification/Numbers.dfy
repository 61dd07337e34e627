/** Integer facts shared by the codecs: powers of two, bits of a number, and the
    big-endian value of a byte string. */
module Numbers {

  type byte = b: int | 0 <= b < 0x100
  type bit = b: int | 0 <= b < 2

  const WORD: int := 0x1_0000_0000  // the wrap-around of a UInt32

  function Pow2(n: nat): (r: nat)
    ensures r >= 1
  {
    if n == 0 then 1 else 2 * Pow2(n - 1)
  }

  lemma Pow2Values()
    ensures Pow2(0) == 1 && Pow2(1) == 2 && Pow2(2) == 4 && Pow2(3) == 8 && Pow2(4) == 16
    ensures Pow2(6) == 64 && Pow2(8) == 0x100 && Pow2(16) == 0x1_0000 && Pow2(26) == 0x400_0000
    ensures Pow2(31) == 0x8000_0000 && Pow2(32) == WORD
  {
    Pow2Add(8, 8);
    Pow2Add(16, 8);
    Pow2Add(24, 2);
    Pow2Add(26, 4);
  }

  /** `x >> n` */
  function Shr(x: nat, n: nat): nat {
    if n == 0 then x else Shr(x, n - 1) / 2
  }

  /** `x & ((1 << n) - 1)` */
  function Low(x: nat, n: nat): nat {
    x % Pow2(n)
  }

  /** `(x >> i) & 1` */
  function BitOf(x: nat, i: nat): bit {
    Shr(x, i) % 2
  }

  /** `b << i` */
  function Shifted(b: bit, i: nat): nat {
    if b == 0 then 0 else Pow2(i)
  }

  lemma DivDiv(x: nat, a: nat, b: nat)
    requires a > 0 && b > 0
    ensures a * b > 0 && x / a / b == x / (a * b)
  {
    var q, r := x / a, x % a;
    var q', r' := q / b, q % b;
    NestedRemainder(a, b, q', r', r);
    assert x == a * q + r && q == b * q' + r';
    QuotientUnique(x, a * b, q', a * r' + r);
  }

  lemma NestedRemainder(a: nat, b: nat, q: int, r': nat, r: nat)
    requires r' < b && r < a
    ensures a * b > 0 && a * r' + r < a * b
    ensures a * (b * q + r') + r == (a * b) * q + (a * r' + r)
  {
    MulMonotone(a, r' + 1, b);
    assert a * (b * q) == (a * b) * q;
  }

  lemma QuotientUnique(x: int, d: int, q: int, r: int)
    requires d > 0 && x == d * q + r && 0 <= r < d
    ensures x / d == q && x % d == r
  {
    var q0 := x / d;
    assert x == d * q0 + x % d;
    MultipleGap(d, q, q0);
    MultipleGap(d, q0, q);
  }

  /** Adding a multiple of the divisor. */
  lemma QuotientPlus(y: int, x: int, d: int, k: int)
    requires d > 0 && y == d * k + x
    ensures y / d == k + x / d && y % d == x % d
  {
    assert y == d * (k + x / d) + x % d;
    QuotientUnique(y, d, k + x / d, x % d);
  }

  lemma MultipleGap(d: int, a: int, b: int)
    requires d > 0
    ensures a < b ==> d * a + d <= d * b
  {
    if a < b {
      var k := b - a - 1;
      assert d * k >= 0;
      assert d * b == d * (a + 1 + k) == d * a + d + d * k;
    }
  }

  lemma {:induction false} ShrIsQuotient(x: nat, n: nat)
    ensures Shr(x, n) == x / Pow2(n)
  {
    if n > 0 {
      ShrIsQuotient(x, n - 1);
      DivDiv(x, Pow2(n - 1), 2);
    }
  }

  /** Shifting right by one bit less exposes one more bit. */
  lemma ShiftStep(x: nat, n: nat)
    requires n > 0
    ensures Shr(x, n - 1) == 2 * Shr(x, n) + BitOf(x, n - 1)
  {
  }

  lemma ShiftBySmall(x: nat, n: nat)
    requires x < Pow2(n)
    ensures Shr(x, n) == 0 && Low(x, n) == x
  {
    ShrIsQuotient(x, n);
    QuotientUnique(x, Pow2(n), 0, x);
  }

  lemma Pow2Monotone(a: nat, b: nat)
    requires a <= b
    ensures Pow2(a) <= Pow2(b)
  {
    if a < b { Pow2Monotone(a, b - 1); }
  }

  lemma Pow2Add(a: nat, b: nat)
    ensures Pow2(a + b) == Pow2(a) * Pow2(b)
  {
    if a != 0 {
      Pow2Add(a - 1, b);
      assert 2 * (Pow2(a - 1) * Pow2(b)) == (2 * Pow2(a - 1)) * Pow2(b);
    }
  }

  /** The low `n + 1` bits are the low `n` bits and bit `n`. */
  lemma ModStep(x: nat, n: nat)
    ensures Low(x, n + 1) == Low(x, n) + Shifted(BitOf(x, n), n)
  {
    ShrIsQuotient(x, n);
    var p := Pow2(n);
    var q := x / p;
    assert x == p * (2 * (q / 2) + q % 2) + x % p;
    assert p * (2 * (q / 2)) == Pow2(n + 1) * (q / 2);
    assert p * (q % 2) == Shifted(BitOf(x, n), n);
    QuotientUnique(x, Pow2(n + 1), q / 2, p * (q % 2) + x % p);
  }

  lemma MulMonotone(a: nat, x: int, y: int)
    requires x <= y
    ensures a * x <= a * y
  {
    assert a * (y - x) >= 0;
  }

  function BigEndian(s: seq<byte>): nat {
    if s == [] then 0 else BigEndian(s[..|s| - 1]) * 0x100 + s[|s| - 1]
  }

  lemma BigEndianSnoc(s: seq<byte>, b: byte)
    ensures BigEndian(s + [b]) == BigEndian(s) * 0x100 + b
  {
    assert (s + [b])[..|s|] == s;
  }

  /** Reading one more byte of a stream. */
  lemma BigEndianPrefix(s: seq<byte>, k: nat)
    requires k < |s|
    ensures BigEndian(s[..k + 1]) == BigEndian(s[..k]) * 0x100 + s[k]
  {
    assert s[..k + 1][..k] == s[..k];
  }

  lemma {:induction false} BeInjective(s: seq<byte>, t: seq<byte>)
    requires |s| == |t| && BigEndian(s) == BigEndian(t)
    ensures s == t
  {
    if s != [] {
      var n := |s| - 1;
      BeInjective(s[..n], t[..n]);
      assert s == s[..n] + [s[n]] && t == t[..n] + [t[n]];
    }
  }
}
