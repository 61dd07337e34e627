/** The adaptive binary range coder of LzmaEnc.c and its mirror in LzmaDec.c, as functions on
    values. The classes that update these fields in place are proved against them. */
module RangeCoder {
  import opened Numbers

  const TOP: int := 0x100_0000    // kTopValue
  const BIT_TOTAL: int := 2048    // kBitModelTotal
  const PROB_INIT: prob := 1024   // kProbInitValue

  /** Every probability cell stays in this interval, whatever bits are coded with it. */
  type prob = p: int | 31 <= p <= 2017 witness 1024

  /** A probability cell, named by its table in the encoder and its index there. `rep` tells
      the repLenEnc copy of the length coder from lenEnc. */
  datatype Cell =
    | IsMatch(state: nat, posState: nat)
    | IsRep(state: nat)
    | IsRepG0(state: nat)
    | IsRepG1(state: nat)
    | IsRepG2(state: nat)
    | IsRep0Long(state: nat, posState: nat)
    | PosSlot(lenState: nat, m: nat)
    | SpecPos(i: nat)
    | Align(m: nat)
    | LenChoice(rep: bool)
    | LenChoice2(rep: bool)
    | LenLow(rep: bool, posState: nat, m: nat)
    | LenMid(rep: bool, posState: nat, m: nat)
    | LenHigh(rep: bool, m: nat)
    | LitProb(ctx: nat, m: nat)

  /** Cells that were never coded hold PROB_INIT. */
  type Probs = map<Cell, prob>

  function Prob(ps: Probs, c: Cell): prob {
    if c in ps then ps[c] else PROB_INIT
  }

  /** The adaptation step: one 32nd of the way towards the bit that was coded. */
  function Adapt(p: prob, b: bit): prob {
    if b == 0 then p + (BIT_TOTAL - p) / 32 else p - p / 32
  }

  /** A cell's step after bit b goes a 32nd of the way to the end of its scale that stands for b, but
      for a remainder: to 2048 after a 0, to 0 after a 1. */
  predicate Approaches(p: int, p': int, b: bit) {
    if b == 0 then BIT_TOTAL - p - 32 < 32 * (p' - p) <= BIT_TOTAL - p else p - 32 < 32 * (p - p') <= p
  }

  /** Cells do adapt; only at the ends of their interval they stay. */
  lemma AdaptApproaches(p: prob, b: bit)
    ensures Approaches(p, Adapt(p, b), b)
    ensures Adapt(p, b) == p <==> p == if b == 0 then 2017 else 31
    ensures forall p': prob :: Approaches(p, p', b) ==> p' == Adapt(p, b)
  {
  }

  /** One binary decision: with a probability cell, or with even odds. */
  datatype Query = Adaptive(cell: Cell) | Direct

  // ----- Encoder -----

  /** CRangeEnc. `low` has 33 significant bits; `cache` and then `cacheSize - 1` bytes 0xFF are
      held back until it is known whether a carry reaches them. `out` is everything written. */
  datatype Enc = Enc(low: nat, range: nat, cache: byte, cacheSize: nat, out: seq<byte>, probs: Probs)

  const ENC_INIT: Enc := Enc(0, 0xFFFF_FFFF, 0, 1, [], map[])

  function Repeat(b: byte, n: nat): (s: seq<byte>)
    ensures |s| == n
  {
    seq(n, _ => b)
  }

  /** `(UInt32)x << 8`: the top byte of the 32-bit word is lost. */
  function Shl8(x: nat): nat {
    x % TOP * 0x100
  }

  function ShiftLow(e: Enc): (e': Enc)
    requires e.cacheSize >= 1
    ensures e'.cacheSize >= 1
  {
    var carry := e.low / WORD;
    var e1 :=
      if e.low % WORD < 0xFF00_0000 || carry % WORD != 0 then
        e.(out := e.out + [(e.cache + carry) % 0x100] + Repeat((0xFF + carry) % 0x100, e.cacheSize - 1),
           cacheSize := 0,
           cache := e.low % WORD / TOP)
      else e;
    e1.(cacheSize := e1.cacheSize + 1, low := Shl8(e.low))
  }

  /** The renormalization that ends EncodeBit and each step of EncodeDirectBits. */
  function Renorm(e: Enc): (e': Enc)
    requires e.cacheSize >= 1
    ensures e'.cacheSize >= 1
  {
    if e.range < TOP then ShiftLow(e.(range := Shl8(e.range))) else e
  }

  lemma BoundBelow(range: nat, p: prob)
    ensures 0 <= range / BIT_TOTAL * p <= range
  {
    MulMonotone(range / BIT_TOTAL, p, BIT_TOTAL);
  }

  /** The interval update before renormalization. */
  function Narrow(e: Enc, q: Query, b: bit): Enc {
    match q
    case Adaptive(c) =>
      var p := Prob(e.probs, c);
      var bound := e.range / BIT_TOTAL * p;
      BoundBelow(e.range, p);
      var e1 := e.(probs := e.probs[c := Adapt(p, b)]);
      if b == 0 then e1.(range := bound) else e1.(low := e.low + bound, range := e.range - bound)
    case Direct =>
      e.(range := e.range / 2, low := e.low + e.range / 2 * b)
  }

  function Put(e: Enc, q: Query, b: bit): (e': Enc)
    requires e.cacheSize >= 1
    ensures e'.cacheSize >= 1
  {
    Renorm(Narrow(e, q, b))
  }

  /** What one adaptive decision leaves in the cells. */
  ghost predicate CellMoved(ps: Probs, ps': Probs, c: Cell, b: bit) {
    Approaches(Prob(ps, c), Prob(ps', c), b) && forall d | d != c :: Prob(ps', d) == Prob(ps, d)
  }

  lemma PutApproaches(e: Enc, c: Cell, b: bit)
    requires e.cacheSize >= 1
    ensures CellMoved(e.probs, Put(e, Adaptive(c), b).probs, c, b)
  {
    var p := Prob(e.probs, c);
    BoundBelow(e.range, p);
    AdaptApproaches(p, b);
    ShiftKeepsProbs(Narrow(e, Adaptive(c), b));
  }

  lemma ShiftKeepsProbs(e: Enc)
    requires e.cacheSize >= 1
    ensures Renorm(e).probs == e.probs
  {
  }

  function Flush(e: Enc): Enc
    requires e.cacheSize >= 1
  {
    ShiftLow(ShiftLow(ShiftLow(ShiftLow(ShiftLow(e)))))
  }

  // ----- The value of the stream -----

  /** Written bytes followed by the ones held back. */
  function Pending(e: Enc): seq<byte>
    requires e.cacheSize >= 1
  {
    e.out + [e.cache] + Repeat(0xFF, e.cacheSize - 1)
  }

  function Count(e: Enc): nat {
    |e.out| + e.cacheSize
  }

  /** The exact lower end of the current interval as one unbounded number. */
  function Val(e: Enc): nat
    requires e.cacheSize >= 1
  {
    BigEndian(Pending(e)) * WORD + e.low
  }

  /** No carry will run past the cached byte: either it has room, or no later value of `low`
      can reach 2^32 before the next shift. */
  predicate CarryFits(e: Enc) {
    e.cacheSize >= 1 && e.low + e.range <= 2 * WORD && (e.cache == 0xFF ==> e.low + e.range <= WORD)
  }

  predicate EncInv(e: Enc) {
    CarryFits(e) && TOP <= e.range < WORD
  }

  lemma {:induction false} CarryThroughFill(p: seq<byte>, q: seq<byte>, n: nat)
    requires BigEndian(q) == BigEndian(p) + 1
    ensures BigEndian(q + Repeat(0, n)) == BigEndian(p + Repeat(0xFF, n)) + 1
  {
    if n == 0 {
      assert p + Repeat(0xFF, 0) == p && q + Repeat(0, 0) == q;
    } else {
      CarryThroughFill(p, q, n - 1);
      assert p + Repeat(0xFF, n) == p + Repeat(0xFF, n - 1) + [0xFF];
      assert q + Repeat(0, n) == q + Repeat(0, n - 1) + [0];
      BigEndianSnoc(p + Repeat(0xFF, n - 1), 0xFF);
      BigEndianSnoc(q + Repeat(0, n - 1), 0);
    }
  }

  /** The bytes that ShiftLow writes are the held-back ones plus the carry. */
  lemma WrittenBytes(e: Enc)
    requires e.cacheSize >= 1 && e.low < 2 * WORD
    requires e.low >= WORD ==> e.cache < 0xFF
    ensures var carry := e.low / WORD;
      BigEndian(e.out + [(e.cache + carry) % 0x100] + Repeat((0xFF + carry) % 0x100, e.cacheSize - 1))
      == BigEndian(Pending(e)) + carry
  {
    hide BigEndian;
    if e.low >= WORD {
      BigEndianSnoc(e.out, e.cache);
      BigEndianSnoc(e.out, e.cache + 1);
      CarryThroughFill(e.out + [e.cache], e.out + [e.cache + 1], e.cacheSize - 1);
    }
  }

  lemma LowParts(low: nat)
    ensures low == low / WORD * WORD + low % WORD / TOP * TOP + low % TOP
  {
    assert low % WORD % TOP == low % TOP;
  }

  lemma ShiftWrites(e: Enc)
    requires e.cacheSize >= 1 && e.low < 2 * WORD
    requires e.low >= WORD ==> e.cache < 0xFF
    requires e.low % WORD < 0xFF00_0000 || e.low >= WORD
    ensures BigEndian(Pending(ShiftLow(e)))
      == 0x100 * (BigEndian(Pending(e)) + e.low / WORD) + e.low % WORD / TOP
  {
    var e' := ShiftLow(e);
    WrittenBytes(e);
    assert Pending(e') == e'.out + [e'.cache];
    BigEndianSnoc(e'.out, e'.cache);
  }

  lemma ShiftHolds(e: Enc)
    requires e.cacheSize >= 1 && 0xFF00_0000 <= e.low < WORD
    ensures BigEndian(Pending(ShiftLow(e))) == 0x100 * BigEndian(Pending(e)) + e.low / TOP
  {
    assert Pending(ShiftLow(e)) == Pending(e) + [0xFF];
    BigEndianSnoc(Pending(e), 0xFF);
  }

  /** ShiftLow multiplies the value by 256 exactly, although bytes are written before
      the carry that may still change them is known. */
  lemma ShiftLowExact(e: Enc)
    requires e.cacheSize >= 1 && e.low < 2 * WORD
    requires e.low >= WORD ==> e.cache < 0xFF
    ensures Val(ShiftLow(e)) == 0x100 * Val(e)
    ensures Count(ShiftLow(e)) == Count(e) + 1
    ensures ShiftLow(e).cacheSize >= 1 && ShiftLow(e).low < WORD
  {
    LowParts(e.low);
    if e.low % WORD < 0xFF00_0000 || e.low >= WORD {
      ShiftWrites(e);
    } else {
      ShiftHolds(e);
    }
  }

  lemma SplitBound(range: nat, p: prob)
    requires TOP <= range < WORD
    ensures var bound := range / BIT_TOTAL * p;
      0x1_0000 <= bound <= range - 0x1_0000
  {
    var q := range / BIT_TOTAL;
    assert q >= 8192;
    MulMonotone(q, 31, p);
    MulMonotone(q, p, 2017);
  }

  /** The interval after a decision lies inside the one before it and does not get too
      short for a single byte shift. */
  lemma NarrowInside(e: Enc, q: Query, b: bit)
    requires EncInv(e)
    ensures var n := Narrow(e, q, b);
      CarryFits(n) && 0x1_0000 <= n.range < e.range
      && e.low <= n.low && n.low + n.range <= e.low + e.range
  {
    if q.Adaptive? { SplitBound(e.range, Prob(e.probs, q.cell)); }
  }

  lemma ShiftKeepsCarryFits(e: Enc)
    requires CarryFits(e) && 0x1_0000 <= e.range < TOP
    ensures EncInv(ShiftLow(e.(range := Shl8(e.range))))
  {
    var low32 := e.low % WORD;
    assert low32 == low32 / TOP * TOP + e.low % TOP;
  }

  /** Coding a bit keeps the carry invariant, and one byte shift is enough. */
  lemma PutKeepsInv(e: Enc, q: Query, b: bit)
    requires EncInv(e)
    ensures EncInv(Put(e, q, b))
  {
    NarrowInside(e, q, b);
    if Narrow(e, q, b).range < TOP {
      ShiftKeepsCarryFits(Narrow(e, q, b));
    }
  }

  // ----- Decoder -----

  /** The decoder's `range`, `code`, read position and cells. */
  datatype Dec = Dec(range: nat, code: nat, pos: nat, probs: Probs)

  /** The stream continued with zeros, so that the decoder is a total function; an actual
      run never depends on a byte at or after the end (see the `pos` results). */
  function ByteAt(s: seq<byte>, i: nat): byte {
    if i < |s| then s[i] else 0
  }

  /** NORMALIZE */
  function Normalize(s: seq<byte>, d: Dec): Dec {
    if d.range < TOP then
      d.(range := Shl8(d.range),
         code := Shl8(d.code) + ByteAt(s, d.pos),
         pos := d.pos + 1)
    else d
  }

  function Sub32(x: nat, y: nat): nat {
    (x - y) % WORD
  }

  /** The branch-free step that decodes one direct bit on UInt32 `code` and `range`. */
  function DirectStep(range: nat, code: nat): (bit, nat) {
    var c := Sub32(code, range);
    var t := (0 - c / 0x8000_0000) % WORD;   // 0 or 0xFFFFFFFF
    ((t + 1) % WORD % 2, (c + (if t == 0 then 0 else range)) % WORD)
  }

  /** Decode one decision. With `adapt` false no cell is changed, as in TryDummy. */
  function Ask(s: seq<byte>, d: Dec, q: Query, adapt: bool): (bit, Dec) {
    var d1 := Normalize(s, d);
    match q
    case Adaptive(c) =>
      var p := Prob(d1.probs, c);
      var bound := d1.range / BIT_TOTAL * p;
      var b: bit := if d1.code < bound then 0 else 1;
      var ps := if adapt then d1.probs[c := Adapt(p, b)] else d1.probs;
      BoundBelow(d1.range, p);
      (b, if b == 0 then d1.(range := bound, probs := ps)
          else d1.(range := d1.range - bound, code := d1.code - bound, probs := ps))
    case Direct =>
      var range := d1.range / 2;
      var (b, code) := DirectStep(range, d1.code);
      (b, d1.(range := range, code := code))
  }

  lemma DirectStepMeaning(range: nat, code: nat)
    requires range < 0x8000_0000 && code < 2 * range
    ensures DirectStep(range, code) == if code < range then (0, code) else (1, code - range)
  {
  }

  // ----- Agreement -----

  /** The bytes read so far lie in the encoder's interval. */
  predicate Fits(s: seq<byte>, e: Enc)
    requires e.cacheSize >= 1
  {
    var k := Count(e) + 4;
    k <= |s| && Val(e) <= BigEndian(s[..k]) < Val(e) + e.range
  }

  /** Encoder and decoder are in step: up to the pending normalization the decoder has the
      encoder's range and cells, and its code is the distance of the stream from the
      encoder's exact value. */
  predicate InStep(s: seq<byte>, e: Enc, d: Dec)
    requires e.cacheSize >= 1
  {
    var n := Normalize(s, d);
    Fits(s, e) && n.pos == Count(e) + 4 && n.range == e.range && n.probs == e.probs
    && n.code == BigEndian(s[..n.pos]) - Val(e)
  }

  lemma NarrowVal(e: Enc, q: Query, b: bit)
    requires EncInv(e)
    ensures var n := Narrow(e, q, b);
      Count(n) == Count(e) && Val(n) - n.low == Val(e) - e.low
  {
    assert Pending(Narrow(e, q, b)) == Pending(e);
  }

  /** The value and the interval grow by a factor of 256 together. */
  lemma RenormVal(n: Enc)
    requires CarryFits(n) && 0x1_0000 <= n.range < TOP
    ensures Val(Renorm(n)) == 0x100 * Val(n) && Renorm(n).range == 0x100 * n.range
    ensures Count(Renorm(n)) == Count(n) + 1
  {
    var m := n.(range := Shl8(n.range));
    assert Pending(m) == Pending(n);
    ShiftLowExact(m);
  }

  /** Renormalizing changes nothing about which streams fit. */
  lemma FitsBeforeRenorm(s: seq<byte>, n: Enc)
    requires CarryFits(n) && 0x1_0000 <= n.range && Fits(s, Renorm(n))
    ensures Fits(s, n)
  {
    if n.range < TOP {
      RenormVal(n);
      BigEndianPrefix(s, Count(n) + 4);
    }
  }

  /** Every stream inside the interval after a bit is inside the interval before it. */
  lemma FitsBack(s: seq<byte>, e: Enc, q: Query, b: bit)
    requires EncInv(e) && EncInv(Put(e, q, b)) && Fits(s, Put(e, q, b))
    ensures Fits(s, e)
  {
    NarrowInside(e, q, b);
    FitsBeforeRenorm(s, Narrow(e, q, b));
    NarrowVal(e, q, b);
  }

  /** The same relation where the encoder is still to be renormalized. */
  predicate InStepRaw(s: seq<byte>, n: Enc, d: Dec)
    requires n.cacheSize >= 1
  {
    Fits(s, n) && d.pos == Count(n) + 4 && d.range == n.range && d.probs == n.probs
    && d.code == BigEndian(s[..d.pos]) - Val(n)
  }

  lemma StepThroughRenorm(s: seq<byte>, n: Enc, d: Dec)
    requires CarryFits(n) && 0x1_0000 <= n.range < WORD && Fits(s, Renorm(n)) && InStepRaw(s, n, d)
    ensures InStep(s, Renorm(n), d)
  {
    hide Val, BigEndian;
    if n.range < TOP {
      RenormVal(n);
      BigEndianPrefix(s, Count(n) + 4);
    }
  }

  lemma AskRaw(s: seq<byte>, e: Enc, d: Dec, q: Query, b: bit)
    requires EncInv(e) && InStep(s, e, d) && Fits(s, Narrow(e, q, b))
    ensures Ask(s, d, q, true).0 == b
    ensures InStepRaw(s, Narrow(e, q, b), Ask(s, d, q, true).1)
  {
    hide BigEndian, Val;
    NarrowInside(e, q, b);
    NarrowVal(e, q, b);
    if q.Direct? {
      DirectStepMeaning(e.range / 2, Normalize(s, d).code);
    }
  }

  /** One decision: the decoder gets the bit the encoder put, and they stay in step. */
  lemma PutAsk(s: seq<byte>, e: Enc, d: Dec, q: Query, b: bit)
    requires EncInv(e) && InStep(s, e, d)
    requires Fits(s, Put(e, q, b))
    ensures Ask(s, d, q, true).0 == b
    ensures InStep(s, Put(e, q, b), Ask(s, d, q, true).1)
  {
    NarrowInside(e, q, b);
    var n := Narrow(e, q, b);
    FitsBeforeRenorm(s, n);
    AskRaw(s, e, d, q, b);
    StepThroughRenorm(s, n, Ask(s, d, q, true).1);
  }

  /** A shifted word keeps only its three low bytes; each further shift drops one more. */
  lemma FourShiftsClear(x: nat)
    ensures Shl8(Shl8(Shl8(Shl8(x)))) == 0
  {
    var a := x % TOP;
    var r := a % 0x1_0000;
    ShiftDrops(a, r, a / 0x1_0000, 0x1_0000);
    var t := r % 0x100;
    ShiftDrops(0x100 * r, 0x100 * t, r / 0x100, 0x1_0000);
  }

  lemma ShiftDrops(y: nat, r: nat, q: nat, k: nat)
    requires k == 0x1_0000 && y == q * k + r && r < k
    ensures Shl8(0x100 * y) == 0x1_0000 * r
  {
    QuotientUnique(0x100 * y, TOP, q, 0x100 * r);
  }

  /** After five shifts every pending byte is written and the stream's value is exact. */
  lemma FlushExact(e: Enc)
    requires EncInv(e)
    ensures var f := Flush(e);
      BigEndian(f.out) == Val(e) && |f.out| == Count(e) + 4 && Fits(f.out, e)
  {
    var e1 := ShiftLow(e); ShiftLowExact(e);
    var e2 := ShiftLow(e1); ShiftLowExact(e1);
    var e3 := ShiftLow(e2); ShiftLowExact(e2);
    var e4 := ShiftLow(e3); ShiftLowExact(e3);
    FourShiftsClear(e.low);
    LastShift(e4);
    assert Flush(e).out[..Count(e) + 4] == Flush(e).out;
  }

  lemma LastShift(e: Enc)
    requires e.cacheSize >= 1 && e.low == 0
    ensures var f := ShiftLow(e);
      BigEndian(f.out) * 0x100 * WORD == 0x100 * Val(e) && |f.out| == Count(e)
  {
    ShiftLowExact(e);
    var f := ShiftLow(e);
    assert Pending(f) == f.out + [0];
    BigEndianSnoc(f.out, 0);
  }
}
