/** channel/channelapp/source/sha1.c: SHA-1, with a schedule kept in sixteen words and five registers
    that trade places, against the form of FIPS 180-4. */
module Sha1 {
  import opened BitWords
  import opened Numbers

  // FIPS 180-4.

  /** The five working variables, or the five words of a hash value. */
  datatype Regs = Regs(a: bv32, b: bv32, c: bv32, d: bv32, e: bv32)

  /** Section 5.3.1. */
  const INITIAL: Regs := Regs(0x67452301, 0xEFCDAB89, 0x98BADCFE, 0x10325476, 0xC3D2E1F0)

  /** Section 4.1.1. */
  function F(t: nat, x: bv32, y: bv32, z: bv32): bv32 {
    if t < 20 then Ch(x, y, z) else if 40 <= t < 60 then Maj(x, y, z) else Parity(x, y, z)
  }

  /** Section 4.2.1. */
  function K(t: nat): bv32 {
    if t < 20 then 0x5A827999 else if t < 40 then 0x6ED9EBA1 else if t < 60 then 0x8F1BBCDC else 0xCA62C1D6
  }

  /** The message schedule, section 6.1.2 step 1. */
  function W(m: seq<bv32>, t: nat): bv32
    requires |m| == 16
  {
    if t < 16 then m[t] else Rol1(Parity4(W(m, t - 3), W(m, t - 8), W(m, t - 14), W(m, t - 16)))
  }

  /** One turn of section 6.1.2 step 3. */
  function Turn(r: Regs, t: nat, w: bv32): Regs {
    Regs(Sum(Rol5(r.a), F(t, r.b, r.c, r.d), r.e, K(t), w), r.a, Rol30(r.b), r.c, r.d)
  }

  function Working(h: Regs, m: seq<bv32>, t: nat): Regs
    requires |m| == 16
  {
    if t == 0 then h else Turn(Working(h, m, t - 1), t - 1, W(m, t - 1))
  }

  function Words(block: seq<bv8>): (m: seq<bv32>)
    requires |block| == 64
    ensures |m| == 16
  {
    seq(16, j requires 0 <= j < 16 => BeWord(block[4 * j..4 * j + 4]))
  }

  function Plus(h: Regs, r: Regs): Regs {
    Regs(Add(h.a, r.a), Add(h.b, r.b), Add(h.c, r.c), Add(h.d, r.d), Add(h.e, r.e))
  }

  /** The hash value after one more block, section 6.1.2. */
  function Compress(h: Regs, block: seq<bv8>): Regs
    requires |block| == 64
  {
    Plus(h, Working(h, Words(block), 80))
  }

  function HashFrom(h: Regs, s: seq<bv8>): Regs
    requires |s| % 64 == 0
    decreases |s|
  {
    if s == [] then h else HashFrom(Compress(h, s[..64]), s[64..])
  }

  /** Section 5.1.1: as few zeros as reach 56 modulo 64. */
  function PadZeros(len: nat): (k: nat)
    ensures (len + 1 + k) % 64 == 56 && k < 64
  {
    (119 - len % 64) % 64
  }

  /** The length in bits, 64 bits wide, its most significant byte first. */
  function LengthBytes(len: nat): (r: seq<bv8>)
    ensures |r| == 8
  {
    var bits := 8 * len % (WORD * WORD);
    CountBytes(bits / WORD) + CountBytes(bits % WORD)
  }

  /** `(x >> (3 - i) * 8) & 255` */
  function Octet(x: nat, i: nat): (r: nat)
    ensures r < 0x100
  {
    x / (if i == 0 then 0x100_0000 else if i == 1 then 0x1_0000 else if i == 2 then 0x100 else 1) % 0x100
  }

  function CountByte(x: nat, i: nat): bv8 {
    Octet(x, i) as bv8
  }

  function CountBytes(x: nat): (r: seq<bv8>)
    requires x < WORD
    ensures |r| == 4
  {
    [CountByte(x, 0), CountByte(x, 1), CountByte(x, 2), CountByte(x, 3)]
  }

  /** The four bytes are the number's, the most significant first. */
  lemma CountReads(x: nat)
    requires x < WORD
    ensures x == CountByte(x, 0) as nat * 0x100_0000 + CountByte(x, 1) as nat * 0x1_0000
                 + CountByte(x, 2) as nat * 0x100 + CountByte(x, 3) as nat
  {
    hide CountByte, Octet;
    CountByteIs(x, 0);
    CountByteIs(x, 1);
    CountByteIs(x, 2);
    CountByteIs(x, 3);
    OctetsRead(x);
  }

  lemma OctetsRead(x: nat)
    requires x < WORD
    ensures x == Octet(x, 0) * 0x100_0000 + Octet(x, 1) * 0x1_0000 + Octet(x, 2) * 0x100 + Octet(x, 3)
  {
    DivDiv(x, 0x100, 0x100);
    DivDiv(x, 0x1_0000, 0x100);
  }

  lemma CountByteIs(x: nat, i: nat)
    ensures CountByte(x, i) as nat == Octet(x, i)
  {
    hide Octet;
  }

  function Zeros(n: nat): (r: seq<bv8>)
    ensures |r| == n
  {
    seq(n, _ => 0)
  }

  lemma PadTotal(len: nat, k: nat)
    requires (len + 1 + k) % 64 == 56
    ensures (len + 1 + k + 8) % 64 == 0
  {
  }

  function Padded(msg: seq<bv8>): (r: seq<bv8>)
    ensures |r| % 64 == 0
  {
    hide PadZeros, LengthBytes, Zeros;
    var k := PadZeros(|msg|);
    PadTotal(|msg|, k);
    msg + [0x80] + Zeros(k) + LengthBytes(|msg|)
  }

  function Reg(h: Regs, k: nat): bv32 {
    if k == 0 then h.a else if k == 1 then h.b else if k == 2 then h.c else if k == 3 then h.d else h.e
  }

  /** The bytes of the five words. */
  function Bytes(h: Regs): (r: seq<bv8>)
    ensures |r| == 20
  {
    seq(20, i requires 0 <= i < 20 => ByteOf(Reg(h, i / 4), i % 4))
  }

  lemma BytesAreWords(h: Regs, k: nat)
    requires k < 5
    ensures BeWord(Bytes(h)[4 * k..4 * k + 4]) == Reg(h, k)
  {
    hide ByteOf, BeWord, Reg;
    var x := Reg(h, k);
    assert Bytes(h)[4 * k..4 * k + 4] == [ByteOf(x, 0), ByteOf(x, 1), ByteOf(x, 2), ByteOf(x, 3)];
    WordBack(x);
  }

  /** The message digest. */
  function Digest(msg: seq<bv8>): (r: seq<bv8>)
    ensures |r| == 20
  {
    Bytes(HashFrom(INITIAL, Padded(msg)))
  }

  // The transform of sha1.c.

  /** The round functions in their cheaper forms. */
  function Mix(i: nat, w: bv32, x: bv32, y: bv32): bv32 {
    if i < 20 then FastCh(w, x, y) else if 40 <= i < 60 then FastMaj(w, x, y) else Parity(w, x, y)
  }

  /** The sixteen words hold the latest sixteen of the schedule. */
  predicate Ring(g: seq<bv32>, m: seq<bv32>, i: nat) {
    && |g| == |m| == 16
    && forall t: nat | (if i < 16 then 0 else i - 16) <= t < (if i < 16 then 16 else i) :: g[t % 16] == W(m, t)
  }

  lemma Back(i: nat)
    requires i >= 16
    ensures (i + 13) % 16 == (i - 3) % 16 && (i + 8) % 16 == (i - 8) % 16
    ensures (i + 2) % 16 == (i - 14) % 16 && i % 16 == (i - 16) % 16
  {
    QuotientPlus(i + 13, i - 3, 16, 1);
    QuotientPlus(i + 8, i - 8, 16, 1);
    QuotientPlus(i + 2, i - 14, 16, 1);
    QuotientPlus(i, i - 16, 16, 1);
  }

  lemma Apart(t: nat, i: nat)
    requires i - 16 < t < i
    ensures t % 16 != i % 16
  {
  }

  lemma NextWord(g: seq<bv32>, m: seq<bv32>, i: nat)
    requires Ring(g, m, i) && i >= 16
    ensures W(m, i) == Rol1(Parity4(g[(i + 13) % 16], g[(i + 8) % 16], g[(i + 2) % 16], g[i % 16]))
  {
    hide Rol1, Parity4;
    Back(i);
    assert g[(i - 3) % 16] == W(m, i - 3) && g[(i - 8) % 16] == W(m, i - 8);
    assert g[(i - 14) % 16] == W(m, i - 14) && g[(i - 16) % 16] == W(m, i - 16);
  }

  /** blk */
  lemma RingNext(g: seq<bv32>, g': seq<bv32>, m: seq<bv32>, i: nat)
    requires Ring(g, m, i) && i >= 16
    requires g' == g[i % 16 := Rol1(Parity4(g[(i + 13) % 16], g[(i + 8) % 16], g[(i + 2) % 16], g[i % 16]))]
    ensures Ring(g', m, i + 1) && g'[i % 16] == W(m, i)
  {
    hide Rol1, Parity4, W;
    NextWord(g, m, i);
    forall t: nat | i - 15 <= t < i ensures g'[t % 16] == W(m, t) {
      Apart(t, i);
    }
  }

  /** R0 to R4: w and z are changed, and the five registers trade places. */
  method Round(block: array<bv32>, ghost m: seq<bv32>, v: bv32, w: bv32, x: bv32, y: bv32, z: bv32, i: nat)
    returns (w': bv32, z': bv32)
    requires block.Length == 16 && Ring(block[..], m, i) && i < 80
    modifies block
    ensures Ring(block[..], m, i + 1)
    ensures Regs(z', v, w', x, y) == Turn(Regs(v, w, x, y, z), i, W(m, i))
  {
    hide Rol1, Rol5, Rol30, Sum, Added, K, Parity, Parity4, FastCh, FastMaj, Ch, Maj, W;
    ghost var g := block[..];
    if i >= 16 {
      block[i % 16] :=
        Rol1(Parity4(block[(i + 13) % 16], block[(i + 8) % 16], block[(i + 2) % 16], block[i % 16]));
      RingNext(g, block[..], m, i);
    }
    var b := block[i % 16];
    assert b == W(m, i);
    FastForms(w, x, y);
    AddedIsSum(z, Mix(i, w, x, y), b, K(i), Rol5(v));
    z' := Added(z, Mix(i, w, x, y), b, K(i), Rol5(v));
    w' := Rol30(w);
  }

  function Value(state: array<bv32>): Regs
    requires state.Length == 5
    reads state
  {
    Regs(state[0], state[1], state[2], state[3], state[4])
  }

  /** Five rounds, after which the registers are back in their places. */
  method Rounds(block: array<bv32>, ghost h: Regs, ghost m: seq<bv32>, a0: bv32, b0: bv32, c0: bv32, d0: bv32,
                e0: bv32, i: nat)
    returns (a: bv32, b: bv32, c: bv32, d: bv32, e: bv32)
    requires block.Length == 16 && Ring(block[..], m, i) && i <= 75
    requires Regs(a0, b0, c0, d0, e0) == Working(h, m, i)
    modifies block
    ensures Ring(block[..], m, i + 5) && Regs(a, b, c, d, e) == Working(h, m, i + 5)
  {
    hide Turn, W, Working;
    a, b, c, d, e := a0, b0, c0, d0, e0;
    b, e := Round(block, m, a, b, c, d, e, i);
    WorkingNext(h, m, i);
    a, d := Round(block, m, e, a, b, c, d, i + 1);
    WorkingNext(h, m, i + 1);
    e, c := Round(block, m, d, e, a, b, c, i + 2);
    WorkingNext(h, m, i + 2);
    d, b := Round(block, m, c, d, e, a, b, i + 3);
    WorkingNext(h, m, i + 3);
    c, a := Round(block, m, b, c, d, e, a, i + 4);
    WorkingNext(h, m, i + 4);
  }

  lemma {:induction false} WorkingNext(h: Regs, m: seq<bv32>, t: nat)
    requires |m| == 16
    ensures Working(h, m, t + 1) == Turn(Working(h, m, t), t, W(m, t))
  {
    hide Turn, W;
  }

  /** The block's words. */
  method Load(buffer: seq<bv8>) returns (block: array<bv32>)
    requires |buffer| == 64
    ensures fresh(block) && block.Length == 16 && block[..] == Words(buffer)
  {
    hide BeWord;
    block := new bv32[16](j requires 0 <= j < 16 => BeWord(buffer[4 * j..4 * j + 4]));
  }

  /** SHA1Transform. */
  method Transform(state: array<bv32>, buffer: seq<bv8>)
    requires state.Length == 5 && |buffer| == 64
    modifies state
    ensures Value(state) == Compress(old(Value(state)), buffer)
  {
    hide Turn, W, Words, Ring, Working;
    ghost var h, m := Value(state), Words(buffer);
    var block := Load(buffer);
    RingStart(h, block[..], m);
    var a, b, c, d, e := state[0], state[1], state[2], state[3], state[4];
    var i := 0;
    while i < 80
      invariant 0 <= i <= 80 && i % 5 == 0 && Ring(block[..], m, i)
      invariant Regs(a, b, c, d, e) == Working(h, m, i) && Value(state) == h
    {
      a, b, c, d, e := Rounds(block, h, m, a, b, c, d, e, i);
      i := i + 5;
    }
    AddTo(state, h, Regs(a, b, c, d, e));
  }

  method AddTo(state: array<bv32>, ghost h: Regs, r: Regs)
    requires state.Length == 5 && Value(state) == h
    modifies state
    ensures Value(state) == Plus(h, r)
  {
    hide Add;
    state[0], state[1] := Add(state[0], r.a), Add(state[1], r.b);
    state[2], state[3], state[4] := Add(state[2], r.c), Add(state[3], r.d), Add(state[4], r.e);
  }

  lemma RingStart(h: Regs, g: seq<bv32>, m: seq<bv32>)
    requires |m| == 16 && g == m
    ensures Ring(g, m, 0) && Working(h, m, 0) == h
  {
  }
}
