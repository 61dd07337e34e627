/** wiipax/client/LzHash.h: the hashes of the first two, three and four bytes at a position. The
    table `crc` may hold any words. */
module LzHash {
  import opened Numbers
  import opened Gf2Poly

  const HASH2_BITS: nat := 10
  const HASH3_BITS: nat := 16

  predicate CrcOk(crc: seq<nat>) {
    |crc| == 256 && forall i | 0 <= i < 256 :: crc[i] < WORD
  }

  /** HASH4_CALC: `hash2Value`, `hash3Value` and `hashValue`. */
  function Hash2(crc: seq<nat>, b0: byte, b1: byte): nat
    requires CrcOk(crc)
  {
    Low(Xor(crc[b0], b1), HASH2_BITS)
  }

  function Hash3(crc: seq<nat>, b0: byte, b1: byte, b2: byte): nat
    requires CrcOk(crc)
  {
    Low(Xor(Xor(crc[b0], b1), b2 * 0x100), HASH3_BITS)
  }

  function Hash4(crc: seq<nat>, bits: nat, b0: byte, b1: byte, b2: byte, b3: byte): nat
    requires CrcOk(crc)
  {
    Low(Xor(Xor(Xor(crc[b0], b1), b2 * 0x100), crc[b3] * 32 % WORD), bits)
  }

  // ----- The hashes bit by bit -----

  lemma {:induction false} ShrXor(a: nat, b: nat, i: nat)
    ensures Shr(Xor(a, b), i) == Xor(Shr(a, i), Shr(b, i))
  {
    hide Xor;
    if i > 0 {
      ShrXor(a, b, i - 1);
      XorStep(Shr(a, i - 1), Shr(b, i - 1));
    }
  }

  lemma XorBit(a: nat, b: nat, i: nat)
    ensures BitOf(Xor(a, b), i) == (BitOf(a, i) + BitOf(b, i)) % 2
  {
    hide Xor, Shr;
    ShrXor(a, b, i);
    XorStep(Shr(a, i), Shr(b, i));
  }

  lemma {:induction false} ShrHalf(x: nat, i: nat)
    requires i > 0
    ensures Shr(x, i) == Shr(x / 2, i - 1)
  {
    if i > 1 { ShrHalf(x, i - 1); }
  }

  lemma LowHalf(x: nat, k: nat)
    requires k > 0
    ensures Low(x, k) / 2 == Low(x / 2, k - 1) && Low(x, k) % 2 == x % 2
  {
    var p := Pow2(k - 1);
    var q, r := x / 2 / p, x / 2 % p;
    QuotientUnique(x, 2 * p, q, 2 * r + x % 2);
  }

  lemma {:induction false} LowBit(x: nat, k: nat, i: nat)
    requires i < k
    ensures BitOf(Low(x, k), i) == BitOf(x, i)
  {
    hide Low, Pow2;
    LowHalf(x, k);
    if i > 0 {
      ShrHalf(x, i);
      ShrHalf(Low(x, k), i);
      LowBit(x / 2, k - 1, i - 1);
    }
  }

  lemma {:induction false} ShrDouble(x: nat, i: nat)
    requires i > 0
    ensures Shr(2 * x, i) == Shr(x, i - 1)
  {
    if i > 1 { ShrDouble(x, i - 1); }
  }

  lemma {:induction false} ShiftedBit(x: nat, n: nat, i: nat)
    ensures BitOf(x * Pow2(n), i) == if i < n then 0 else BitOf(x, i - n)
  {
    if n > 0 {
      var y := x * Pow2(n - 1);
      assert x * Pow2(n) == 2 * y;
      if i > 0 {
        ShrDouble(y, i);
        ShiftedBit(x, n - 1, i - 1);
      }
    }
  }

  /** Each bit of the hash of four bytes is the parity of one bit of each: of the table's entry for
      the first, of the second, of the third one byte up, and of the entry for the fourth five bits up. */
  lemma HashBits(crc: seq<nat>, bits: nat, b0: byte, b1: byte, b2: byte, b3: byte, i: nat)
    requires CrcOk(crc) && i < bits && i < 32
    ensures BitOf(Hash4(crc, bits, b0, b1, b2, b3), i) == (BitOf(crc[b0], i) + BitOf(b1, i)
      + (if i < 8 then 0 else BitOf(b2, i - 8)) + (if i < 5 then 0 else BitOf(crc[b3], i - 5))) % 2
  {
    hide Xor, BitOf, Low, Pow2;
    MixBits(crc[b0], b1, b2, i);
    var mix := Xor(Xor(crc[b0], b1), b2 * 0x100);
    Pow2Values();
    Pow2Add(4, 1);
    assert Low(crc[b3] * 32, 32) == crc[b3] * 32 % WORD by { Remainder(crc[b3] * 32); }
    LowBit(crc[b3] * 32, 32, i);
    ShiftedBit(crc[b3], 5, i);
    XorBit(mix, crc[b3] * 32 % WORD, i);
    LowBit(Xor(mix, crc[b3] * 32 % WORD), bits, i);
  }

  lemma Remainder(x: nat)
    ensures Low(x, 32) == x % WORD
  {
    Pow2Values();
  }

  /** The shorter hashes are the low bits of the mixture of the first bytes. */
  lemma MixBits(c: nat, b1: byte, b2: byte, i: nat)
    ensures BitOf(Xor(c, b1), i) == (BitOf(c, i) + BitOf(b1, i)) % 2
    ensures BitOf(Xor(Xor(c, b1), b2 * 0x100), i)
         == (BitOf(c, i) + BitOf(b1, i) + (if i < 8 then 0 else BitOf(b2, i - 8))) % 2
  {
    hide Xor, BitOf, Pow2;
    Pow2Values();
    XorBit(c, b1, i);
    XorBit(Xor(c, b1), b2 * 0x100, i);
    ShiftedBit(b2, 8, i);
  }

  lemma ShortHashBits(crc: seq<nat>, b0: byte, b1: byte, b2: byte, i: nat)
    requires CrcOk(crc)
    ensures i < 10 ==> BitOf(Hash2(crc, b0, b1), i) == (BitOf(crc[b0], i) + BitOf(b1, i)) % 2
    ensures i < 16 ==>
      BitOf(Hash3(crc, b0, b1, b2), i)
      == (BitOf(crc[b0], i) + BitOf(b1, i) + (if i < 8 then 0 else BitOf(b2, i - 8))) % 2
  {
    hide Xor, BitOf, Low, Pow2;
    MixBits(crc[b0], b1, b2, i);
    if i < 10 { LowBit(Xor(crc[b0], b1), 10, i); }
    if i < 16 { LowBit(Xor(Xor(crc[b0], b1), b2 * 0x100), 16, i); }
  }

  lemma HashBounds(crc: seq<nat>, bits: nat, b0: byte, b1: byte, b2: byte, b3: byte)
    requires CrcOk(crc)
    ensures Hash2(crc, b0, b1) < 1024 && Hash3(crc, b0, b1, b2) < 0x1_0000
    ensures Hash4(crc, bits, b0, b1, b2, b3) < Pow2(bits)
  {
    Pow2Values();
    Pow2Add(8, 2);
  }

  /** The low bits of a word decide what was mixed into them. */
  lemma MixedBack(c: nat, x: nat, y: nat, k: nat)
    requires x < Pow2(k) && y < Pow2(k) && Low(Xor(c, x), k) == Low(Xor(c, y), k)
    ensures x == y
  {
    hide Xor, Pow2, Low;
    var h, l := c / Pow2(k), Low(c, k);
    SplitAt(c, k);
    LowOfMix(c, x, k);
    LowOfMix(c, y, k);
    XorComm(l, x);
    XorComm(l, y);
    XorCancel(x, l);
    XorCancel(y, l);
  }

  lemma SplitAt(c: nat, k: nat)
    ensures c == c / Pow2(k) * Pow2(k) + Low(c, k) && Low(c, k) < Pow2(k)
  {
  }

  lemma LowOfMix(c: nat, x: nat, k: nat)
    requires x < Pow2(k)
    ensures Low(Xor(c, x), k) == Xor(Low(c, k), x)
  {
    hide Xor, Pow2;
    var h, l := c / Pow2(k), c % Pow2(k);
    SplitAt(c, k);
    XorSplit(k, h, 0, l, x);
    XorZero(h);
    LowOfSum(h, Pow2(k), Xor(l, x));
  }

  lemma LowOfSum(h: nat, w: nat, r: nat)
    requires r < w
    ensures (h * w + r) % w == r
  {
    QuotientUnique(h * w + r, w, h, r);
  }

  /** Equal first bytes and equal hashes: the next bytes are equal. */
  lemma Hash2Match(crc: seq<nat>, b0: byte, b1: byte, c1: byte)
    requires CrcOk(crc) && Hash2(crc, b0, b1) == Hash2(crc, b0, c1)
    ensures b1 == c1
  {
    Pow2Values();
    Pow2Monotone(8, HASH2_BITS);
    MixedBack(crc[b0], b1, c1, HASH2_BITS);
  }

  lemma Hash3Match(crc: seq<nat>, b0: byte, b1: byte, b2: byte, c1: byte, c2: byte)
    requires CrcOk(crc) && Hash3(crc, b0, b1, b2) == Hash3(crc, b0, c1, c2)
    ensures b1 == c1 && b2 == c2
  {
    hide Xor, Low, Pow2;
    TwoBytes(crc[b0], b1, b2);
    TwoBytes(crc[b0], c1, c2);
    MixedBack(crc[b0], b2 * 0x100 + b1, c2 * 0x100 + c1, HASH3_BITS);
  }

  lemma TwoBytes(c: nat, x: byte, y: byte)
    ensures Xor(Xor(c, x), y * 0x100) == Xor(c, y * 0x100 + x) && y * 0x100 + x < Pow2(HASH3_BITS)
  {
    Pow2Values();
    hide Xor, Pow2;
    XorAssoc(c, x, y * 0x100);
    XorJoin(8, y, x);
    XorComm(x, y * 0x100);
  }
}
