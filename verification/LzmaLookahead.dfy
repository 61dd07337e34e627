/** What decoding one symbol may depend on: it always makes progress, it reads at most twenty
    bytes, it never looks past the bytes it consumes, and it can be simulated without
    adapting the probabilities. */
module LzmaLookahead {
  import opened Numbers
  import opened RangeCoder
  import opened LzmaSymbols

  predicate DecOk(d: Dec) {
    0x1_0000 <= d.range < WORD
  }

  lemma AskKeepsOk(s: seq<byte>, d: Dec, q: Query, adapt: bool)
    requires DecOk(d)
    ensures DecOk(Ask(s, d, q, adapt).1)
    ensures DecOk(Normalize(s, d)) && TOP <= Normalize(s, d).range
    ensures Ask(s, d, q, adapt).1.pos == Normalize(s, d).pos
    ensures Ask(s, d, q, adapt).1.range < Normalize(s, d).range
  {
    var n := Normalize(s, d);
    assert TOP <= n.range < WORD;
    if q.Adaptive? { SplitBound(n.range, Prob(d.probs, q.cell)); }
  }

  // ----- Progress -----

  /** `d'` comes strictly after `d`: it has read more, or narrowed the interval. */
  predicate After(d: Dec, d': Dec) {
    d'.pos > d.pos || (d'.pos == d.pos && d'.range < d.range)
  }

  lemma {:induction false} RunProgress(s: seq<byte>, d0: Dec, d: Dec, ctx: Ctx, p: Phase, adapt: bool)
    requires DecOk(d) && Wf(p) && (After(d0, d) || (d == d0 && TOP <= d.range && !p.Done?))
    ensures DecOk(Run(s, d, ctx, p, adapt).1)
    ensures After(d0, Run(s, d, ctx, p, adapt).1)
    ensures After(d0, Normalize(s, Run(s, d, ctx, p, adapt).1))
    decreases Left(p)
  {
    if !p.Done? {
      var q := QueryOf(ctx, p);
      AskKeepsOk(s, d, q, adapt);
      var (b, d') := Ask(s, d, q, adapt);
      StepWf(ctx, p, b);
      RunProgress(s, d0, d', ctx, Next(ctx, p, b), adapt);
    }
  }

  lemma {:induction false} RunForward(s: seq<byte>, d: Dec, ctx: Ctx, p: Phase, adapt: bool)
    requires Wf(p)
    ensures d.pos <= Run(s, d, ctx, p, adapt).1.pos
    decreases Left(p)
  {
    if !p.Done? {
      var (b, d') := Ask(s, d, QueryOf(ctx, p), adapt);
      StepWf(ctx, p, b);
      RunForward(s, d', ctx, Next(ctx, p, b), adapt);
    }
  }

  // ----- Locality -----

  predicate SamePrefix(s: seq<byte>, t: seq<byte>, k: nat) {
    k <= |s| && k <= |t| && s[..k] == t[..k]
  }

  lemma ByteInPrefix(s: seq<byte>, t: seq<byte>, k: nat, i: nat)
    requires SamePrefix(s, t, k) && i < k
    ensures ByteAt(s, i) == ByteAt(t, i)
  {
    assert s[..k][i] == t[..k][i];
  }

  lemma NormalizeLocal(s: seq<byte>, t: seq<byte>, d: Dec, k: nat)
    requires SamePrefix(s, t, k) && Normalize(s, d).pos <= k
    ensures Normalize(t, d) == Normalize(s, d)
  {
    if d.range < TOP { ByteInPrefix(s, t, k, d.pos); }
  }

  lemma AskLocal(s: seq<byte>, t: seq<byte>, d: Dec, q: Query, adapt: bool, k: nat)
    requires SamePrefix(s, t, k) && Ask(s, d, q, adapt).1.pos <= k
    ensures Ask(t, d, q, adapt) == Ask(s, d, q, adapt)
  {
    NormalizeLocal(s, t, d, k);
  }

  /** A run that ends within the first `k` bytes is the same run on every stream that
      starts with these `k` bytes. */
  lemma {:induction false} RunLocal(s: seq<byte>, t: seq<byte>, d: Dec, ctx: Ctx, p: Phase, adapt: bool, k: nat)
    requires Wf(p) && SamePrefix(s, t, k) && Run(s, d, ctx, p, adapt).1.pos <= k
    ensures Run(t, d, ctx, p, adapt) == Run(s, d, ctx, p, adapt)
    decreases Left(p)
  {
    hide Ask;
    hide Next;
    hide QueryOf;
    if !p.Done? {
      var q := QueryOf(ctx, p);
      var (b, d') := Ask(s, d, q, adapt);
      StepWf(ctx, p, b);
      RunForward(s, d', ctx, Next(ctx, p, b), adapt);
      AskLocal(s, t, d, q, adapt, k);
      RunLocal(s, t, d', ctx, Next(ctx, p, b), adapt, k);
    }
  }

  // ----- Simulation without adaptation -----

  /** The order in which one symbol visits cells. */
  function Rank(c: Cell): nat {
    match c
    case IsMatch(_, _) => 0
    case IsRep(_) => 1
    case IsRepG0(_) => 2
    case IsRepG1(_) => 3
    case IsRepG2(_) => 4
    case IsRep0Long(_, _) => 5
    case LenChoice(_) => 10
    case LenChoice2(_) => 11
    case LenLow(_, _, m) => 100 + m
    case LenMid(_, _, m) => 100 + m
    case LenHigh(_, m) => 100 + m
    case LitProb(_, m) => 100 + m % 0x100
    case PosSlot(_, m) => 1000 + m
    case SpecPos(i) => 2000 + i
    case Align(m) => 3000 + m
  }

  function PhaseRank(ctx: Ctx, p: Phase): nat
    requires Wf(p)
  {
    match p
    case Even(_, _, _, _) => 2500
    case Done(_) => 5000
    case _ => Rank(QueryOf(ctx, p).cell)
  }

  lemma TreeIndexBound(total: nat, n: nat, m: nat)
    requires TreeWf(total, n, m) && total <= 8
    ensures 1 <= m < Pow2(total) <= 0x100
  {
    Pow2Monotone(total - n + 1, total);
    Pow2Monotone(total, 8);
    Pow2Values();
  }

  lemma SlotBaseSmall(slot: nat)
    requires 4 <= slot < 14
    ensures SlotBase(slot) + Pow2(Footer(slot)) <= 128
  {
    if slot < 8 {
    } else if slot < 12 {
    } else {
    }
    Pow2Values();
    assert Pow2(5) == 32;
  }

  lemma SpecIndexBound(p: Phase)
    requires Wf(p) && p.Spec?
    ensures SlotBase(p.slot) - p.slot - 1 + p.m < 114
  {
    assert Pow2(p.i + 1) == 2 * Pow2(p.i);
    hide Pow2, SlotBase;
    SlotBaseSmall(p.slot);
    Pow2Monotone(p.i + 1, Footer(p.slot));
  }

  lemma LitRankGrows(ctx: Ctx, n: nat, m: nat, offs: bool, b: bit)
    requires Wf(Lit(n, m, offs)) && Wf(Next(ctx, Lit(n, m, offs), b))
    ensures PhaseRank(ctx, Next(ctx, Lit(n, m, offs), b)) > PhaseRank(ctx, Lit(n, m, offs))
  {
    hide Pow2, MatchBit, LitIndex;
    TreeIndexBound(8, n, m);
    LitRank(ctx, n, m, offs);
    if n > 1 {
      TreeIndexBound(8, n - 1, 2 * m + b);
      LitRank(ctx, n - 1, 2 * m + b, offs && b == MatchBit(ctx, n));
    }
  }

  lemma SlotRankGrows(ctx: Ctx, len: nat, n: nat, m: nat, b: bit)
    requires Wf(Slot(len, n, m)) && Wf(Next(ctx, Slot(len, n, m), b))
    ensures PhaseRank(ctx, Next(ctx, Slot(len, n, m), b)) > PhaseRank(ctx, Slot(len, n, m))
  {
    hide Pow2;
    TreeIndexBound(6, n, m);
    Pow2Values();
    if n == 1 {
      TreeStep(6, n, m, b);
      EndSlotRank(ctx, len, 2 * m + b - 64);
    }
  }

  lemma LenRankGrows(ctx: Ctx, k: Kind, part: nat, n: nat, m: nat, b: bit)
    requires Wf(Len(k, part, n, m)) && Wf(Next(ctx, Len(k, part, n, m), b))
    ensures PhaseRank(ctx, Next(ctx, Len(k, part, n, m), b)) > PhaseRank(ctx, Len(k, part, n, m))
  {
    TreeIndexBound(PartBits(part), n, m);
  }

  lemma SpecRankGrows(ctx: Ctx, len: nat, slot: nat, i: nat, m: nat, dist: nat, b: bit)
    requires Wf(Spec(len, slot, i, m, dist)) && Wf(Next(ctx, Spec(len, slot, i, m, dist), b))
    ensures PhaseRank(ctx, Next(ctx, Spec(len, slot, i, m, dist), b)) > PhaseRank(ctx, Spec(len, slot, i, m, dist))
  {
    hide SlotBase, Pow2;
    SpecIndexBound(Spec(len, slot, i, m, dist));
  }

  /** Within one symbol the cells are visited in strictly increasing rank, so none twice. */
  lemma RankGrows(ctx: Ctx, p: Phase, b: bit)
    requires Wf(p) && !p.Done? && Wf(Next(ctx, p, b))
    ensures PhaseRank(ctx, Next(ctx, p, b)) >= PhaseRank(ctx, p)
    ensures !p.Even? ==> PhaseRank(ctx, Next(ctx, p, b)) > PhaseRank(ctx, p)
  {
    match p
    case Lit(n, m, offs) => LitRankGrows(ctx, n, m, offs, b);
    case Len(k, part, n, m) => LenRankGrows(ctx, k, part, n, m, b);
    case Slot(len, n, m) => SlotRankGrows(ctx, len, n, m, b);
    case Spec(len, slot, i, m, dist) => SpecRankGrows(ctx, len, slot, i, m, dist, b);
    case _ =>
  }

  lemma LitRank(ctx: Ctx, n: nat, m: nat, offs: bool)
    requires 1 <= n <= 8 && m < 0x100
    ensures LitIndex(ctx, n, m, offs) % 0x100 == m
  {
  }

  lemma EndSlotRank(ctx: Ctx, len: nat, slot: nat)
    requires ValidLen(len) && Wf(EndSlot(len, slot))
    ensures PhaseRank(ctx, EndSlot(len, slot)) >= 2000
  {
    if 4 <= slot < 14 { SlotBaseAboveSlot(slot); }
  }

  ghost predicate SameFrom(a: Probs, b: Probs, rank: nat) {
    forall c :: Rank(c) >= rank ==> Prob(a, c) == Prob(b, c)
  }

  predicate SameCoder(d: Dec, d': Dec) {
    d.range == d'.range && d.code == d'.code && d.pos == d'.pos
  }

  lemma AskAgrees(s: seq<byte>, d: Dec, d': Dec, q: Query, r: nat, r': nat)
    requires SameCoder(d, d') && SameFrom(d.probs, d'.probs, r) && r <= r'
    requires q.Adaptive? ==> r <= Rank(q.cell) < r'
    ensures Ask(s, d, q, true).0 == Ask(s, d', q, false).0
    ensures SameCoder(Ask(s, d, q, true).1, Ask(s, d', q, false).1)
    ensures SameFrom(Ask(s, d, q, true).1.probs, Ask(s, d', q, false).1.probs, r')
  {
  }

  /** Decoding a symbol without adapting any cell takes the same branches and reads the same
      bytes as decoding it for real. */
  lemma {:induction false} DummyAgrees(s: seq<byte>, d: Dec, d': Dec, ctx: Ctx, p: Phase)
    requires Wf(p) && SameCoder(d, d') && SameFrom(d.probs, d'.probs, PhaseRank(ctx, p))
    ensures Run(s, d, ctx, p, true).0 == Run(s, d', ctx, p, false).0
    ensures SameCoder(Run(s, d, ctx, p, true).1, Run(s, d', ctx, p, false).1)
    decreases Left(p)
  {
    if !p.Done? {
      var q := QueryOf(ctx, p);
      var (b, e) := Ask(s, d, q, true);
      StepWf(ctx, p, b);
      RankGrows(ctx, p, b);
      AskAgrees(s, d, d', q, PhaseRank(ctx, p), PhaseRank(ctx, Next(ctx, p, b)));
      DummyAgrees(s, e, Ask(s, d', q, false).1, ctx, Next(ctx, p, b));
    }
  }

  // ----- The kind of symbol that lies ahead -----

  predicate KindAhead(p: Phase, sym: Symbol) {
    match p
    case Lit(_, _, _) => sym.Literal?
    case AskG0 => sym.Rep? || sym.ShortRep?
    case AskG0Long => sym.Rep? || sym.ShortRep?
    case AskG1 => sym.Rep?
    case AskG2 => sym.Rep?
    case Choice(k) => if k.KMatch? then sym.Match? else sym.Rep?
    case Choice2(k) => if k.KMatch? then sym.Match? else sym.Rep?
    case Len(k, _, _, _) => if k.KMatch? then sym.Match? else sym.Rep?
    case Slot(_, _, _) => sym.Match?
    case Spec(_, _, _, _, _) => sym.Match?
    case Even(_, _, _, _) => sym.Match?
    case Aligned(_, _, _, _) => sym.Match?
    case Done(done) => sym == done
    case _ => true
  }

  lemma KindStep(ctx: Ctx, p: Phase, b: bit, sym: Symbol)
    requires Wf(p) && !p.Done? && KindAhead(Next(ctx, p, b), sym)
    ensures KindAhead(p, sym)
  {
    hide Pow2, SlotBase;
  }

  lemma {:induction false} RunKind(s: seq<byte>, d: Dec, ctx: Ctx, p: Phase, adapt: bool)
    requires Wf(p)
    ensures KindAhead(p, Run(s, d, ctx, p, adapt).0)
    decreases Left(p)
  {
    hide Ask, Next, QueryOf, KindAhead, Wf;
    if !p.Done? {
      var (b, d') := Ask(s, d, QueryOf(ctx, p), adapt);
      StepWf(ctx, p, b);
      RunKind(s, d', ctx, Next(ctx, p, b), adapt);
      KindStep(ctx, p, b, Run(s, d, ctx, p, adapt).0);
    } else {
      KindDone(p);
    }
  }

  lemma KindDone(p: Phase)
    requires p.Done?
    ensures KindAhead(p, p.sym)
  {
  }

  /** A run may start before or after the normalization that its first decision begins with. */
  lemma RunNormalized(s: seq<byte>, d: Dec, ctx: Ctx, p: Phase, adapt: bool)
    requires Wf(p) && !p.Done? && DecOk(d)
    ensures Run(s, Normalize(s, d), ctx, p, adapt) == Run(s, d, ctx, p, adapt)
  {
    hide Next, QueryOf, Wf, Ask, Normalize, DecOk;
    var q := QueryOf(ctx, p);
    NormalizedAsk(s, d, q, adapt);
    RunStep(s, d, ctx, p, adapt);
    RunStep(s, Normalize(s, d), ctx, p, adapt);
  }

  // ----- The twenty-byte bound -----

  function Power(base: nat, n: nat): (r: nat)
    ensures base >= 1 ==> r >= 1
  {
    if n == 0 then 1 else base * Power(base, n - 1)
  }

  function Scale(n: nat, x: nat): nat {
    if n == 0 then x else 67 * Scale(n - 1, x)
  }

  const FINE: int := 0x10_0000_0000_0000   // 64^26 is its third power
  const UNIT: int := TOP * FINE * FINE * FINE

  /** Interval needed for `n` direct bits and then the four align bits. */
  function EvenNeed(n: nat): nat
    requires n <= 26
  {
    Power(129, n) * (Power(64, 26 - n) * Scale(4, TOP))
  }

  function KindNeed(k: Kind): nat {
    if k.KMatch? then Scale(6, EvenNeed(26)) else UNIT
  }

  /** An interval of this size (in units of 2^-156) at phase `p` cannot shrink below kTopValue
      before the symbol ends: an adaptive bit divides it by less than 67, a direct bit by less
      than 129/64. */
  function Need(p: Phase): nat
    requires Wf(p)
  {
    match p
    case Start => Scale(18, EvenNeed(26))
    case Lit(n, _, _) => Scale(n, UNIT)
    case AskRep => Scale(17, EvenNeed(26))
    case AskG0 => Scale(13, UNIT)
    case AskG0Long => Scale(12, UNIT)
    case AskG1 => Scale(12, UNIT)
    case AskG2 => Scale(11, UNIT)
    case Choice(k) => Scale(10, KindNeed(k))
    case Choice2(k) => Scale(9, KindNeed(k))
    case Len(k, _, n, _) => Scale(n, KindNeed(k))
    case Slot(_, n, _) => Scale(n, EvenNeed(26))
    case Spec(_, slot, i, _, _) => Scale(Footer(slot) - i, UNIT)
    case Even(_, _, n, _) => EvenNeed(n)
    case Aligned(_, i, _, _) => Scale(4 - i, UNIT)
    case Done(_) => UNIT
  }

  lemma {:induction false} ScaleLinear(n: nat, x: nat)
    ensures Scale(n, x) == Scale(n, 1) * x
  {
    if n > 0 { ScaleLinear(n - 1, x); }
  }

  lemma ScaleValues()
    ensures Scale(4, 1) == 20151121 && Scale(18, 1) == 740195513856780056217081017732809
    ensures Scale(17, 1) == 11047694236668359048016134593027
    ensures Scale(14, 1) == 36732225162896895721934329 && Scale(9, 1) == 27206534396294947 && Scale(5, 1) == 1350125107
  {
    assert Scale(9, 1) == 27206534396294947;
    assert Scale(14, 1) == 36732225162896895721934329;
  }

  lemma Power129Value()
    ensures Power(129, 26) == 7504684996540991815987284118757645557124789336378789121
  {
    assert Power(129, 13) == 2739468013418114691600975489;
  }

  lemma {:induction false} ScaleGrows(a: nat, b: nat, x: nat)
    requires a <= b
    ensures Scale(a, x) <= Scale(b, x)
    decreases b
  {
    if a < b { ScaleGrows(a, b - 1, x); }
  }

  lemma EvenNeedValue()
    ensures EvenNeed(26) == 2537181724713852569600405744192500756379331117470249283823415335059456
    ensures Scale(8, UNIT) <= EvenNeed(26)
  {
    Power129Value();
    ScaleValues();
    ScaleLinear(4, TOP);
    assert Power(64, 0) == 1;
    ScaleLinear(8, UNIT);
  }

  /** The budget of twenty bytes covers the longest symbol: 2^(8*20) exceeds
      (2048/31)^22 * 2^26. */
  lemma StartNeed()
    ensures Need(Start) <= TOP * (Power(0x100, 20) * (FINE * FINE * FINE))
  {
    EvenNeedValue();
    ScaleValues();
    ScaleLinear(18, EvenNeed(26));
    assert Power(0x100, 10) == 0x100_0000_0000_0000_0000_00;
    assert Power(0x100, 20) == 0x1_0000_0000_0000_0000_0000_0000_0000_0000_0000_0000;
  }

  lemma EvenNeedStep(n: nat)
    requires 0 < n <= 26
    ensures EvenNeed(n) * 64 == 129 * EvenNeed(n - 1)
  {
    var x, y, z := Power(129, n - 1), Power(64, 26 - n), Scale(4, TOP);
    assert Power(64, 26 - (n - 1)) == 64 * y;
    Regroup(x, y, z);
  }

  lemma Regroup(x: nat, y: nat, z: nat)
    ensures (129 * x) * (y * z) * 64 == 129 * (x * ((64 * y) * z))
  {
    var w := y * z;
    assert (64 * y) * z == 64 * w;
    assert x * (64 * w) == 64 * (x * w);
  }

  lemma EvenNeedZero()
    ensures EvenNeed(0) == Scale(4, UNIT)
  {
    ScaleLinear(4, TOP);
    ScaleLinear(4, UNIT);
    assert Power(64, 13) == 0x4000_0000_0000_0000_0000;
    assert Power(64, 26) == FINE * FINE * FINE;
  }

  lemma {:induction false} EvenNeedGrows(n: nat)
    requires n <= 26
    ensures EvenNeed(n) <= EvenNeed(26)
    decreases 26 - n
  {
    if n < 26 {
      EvenNeedStep(n + 1);
      EvenNeedGrows(n + 1);
    }
  }

  lemma EndSlotNeed(len: nat, slot: nat)
    requires ValidLen(len) && slot < 64 && Wf(EndSlot(len, slot))
    ensures Need(EndSlot(len, slot)) <= EvenNeed(26)
  {
    EvenNeedValue();
    ScaleGrows(0, 8, UNIT);
    if 4 <= slot < 14 {
      ScaleGrows(Footer(slot), 8, UNIT);
    } else if slot >= 14 {
      EvenNeedGrows(Footer(slot) - 4);
    }
  }

  lemma TreesNeedStep(ctx: Ctx, p: Phase, b: bit)
    requires Wf(p) && (p.Choice? || p.Choice2? || p.Slot?) && Wf(Next(ctx, p, b))
    ensures 67 * Need(Next(ctx, p, b)) <= Need(p)
  {
    hide EvenNeed;
    match p
    case Choice(k) => ScaleGrows(3, 9, KindNeed(k));
    case Choice2(k) => ScaleGrows(3, 8, KindNeed(k));
    case Slot(len, n, m) =>
      if n == 1 {
        TreeStep(6, n, m, b);
        Pow2Values();
        EndSlotNeed(len, 2 * m + b - Pow2(6));
      }
  }

  lemma LenNeedStep(ctx: Ctx, k: Kind, part: nat, n: nat, m: nat, b: bit)
    requires Wf(Len(k, part, n, m)) && Wf(Next(ctx, Len(k, part, n, m), b))
    ensures 67 * Need(Next(ctx, Len(k, part, n, m), b)) <= Need(Len(k, part, n, m))
  {
    ScaleOne(KindNeed(k));
  }

  lemma ScaleOne(x: nat)
    ensures Scale(0, x) == x && Scale(1, x) == 67 * x
  {
  }

  lemma StartNeedStep(ctx: Ctx, p: Phase, b: bit)
    requires Wf(p) && (p.Start? || p.AskRep?) && Wf(Next(ctx, p, b))
    ensures 67 * Need(Next(ctx, p, b)) <= Need(p)
  {
    hide EvenNeed;
    var e := EvenNeed(26);
    EvenNeedValue();
    ScaleGrows(1, 18, e);
    ScaleAdd(6, 8, UNIT);
    ScaleMonotone(6, Scale(8, UNIT), e);
    ScaleGrows(6, 17, e);
    ScaleAdd(10, 6, e);
  }

  lemma {:induction false} ScaleAdd(a: nat, b: nat, x: nat)
    ensures Scale(a + b, x) == Scale(a, Scale(b, x))
  {
    if a > 0 { ScaleAdd(a - 1, b, x); }
  }

  lemma {:induction false} ScaleMonotone(n: nat, x: nat, y: nat)
    requires x <= y
    ensures Scale(n, x) <= Scale(n, y)
  {
    if n > 0 { ScaleMonotone(n - 1, x, y); }
  }

  lemma FootersNeedStep(ctx: Ctx, p: Phase, b: bit)
    requires Wf(p) && (p.Lit? || p.Spec? || p.Aligned?) && Wf(Next(ctx, p, b))
    ensures 67 * Need(Next(ctx, p, b)) <= Need(p)
  {
    ScaleOne(UNIT);
  }

  lemma RepNeedStep(ctx: Ctx, p: Phase, b: bit)
    requires p.AskG0? || p.AskG0Long? || p.AskG1? || p.AskG2?
    ensures 67 * Need(Next(ctx, p, b)) <= Need(p)
  {
    ScaleGrows(0, 11, UNIT);
  }

  lemma NeedStep(ctx: Ctx, p: Phase, b: bit)
    requires Wf(p) && !p.Done? && Wf(Next(ctx, p, b))
    ensures !p.Even? ==> 67 * Need(Next(ctx, p, b)) <= Need(p)
    ensures p.Even? ==> 129 * Need(Next(ctx, p, b)) <= 64 * Need(p)
  {
    match p
    case Start => StartNeedStep(ctx, p, b);
    case AskRep => StartNeedStep(ctx, p, b);
    case Choice(_) => TreesNeedStep(ctx, p, b);
    case Choice2(_) => TreesNeedStep(ctx, p, b);
    case Len(k, part, n, m) => LenNeedStep(ctx, k, part, n, m, b);
    case Slot(_, _, _) => TreesNeedStep(ctx, p, b);
    case Even(_, _, n, _) =>
      EvenNeedStep(n);
      EvenNeedZero();
    case Lit(_, _, _) => FootersNeedStep(ctx, p, b);
    case Spec(_, _, _, _, _) => FootersNeedStep(ctx, p, b);
    case Aligned(_, _, _, _) => FootersNeedStep(ctx, p, b);
    case _ => RepNeedStep(ctx, p, b);
  }

  // ----- Reading -----

  /** The interval in units that do not change when a byte is shifted in; `j` bytes have been
      read out of twenty. */
  predicate Enough(range: nat, j: nat, need: nat) {
    j <= 20 && need <= range * (Power(0x100, 20 - j) * (FINE * FINE * FINE))
  }

  lemma NormalizeEnough(s: seq<byte>, d: Dec, j: nat, need: nat)
    requires DecOk(d) && Enough(d.range, j, need) && need >= UNIT
    ensures var n := Normalize(s, d);
      var j' := j + n.pos - d.pos;
      Enough(n.range, j', need) && TOP <= n.range < WORD && d.pos <= n.pos
  {
    if d.range < TOP {
      assert j < 20;
      var w := Power(0x100, 20 - (j + 1));
      assert Power(0x100, 20 - j) == 0x100 * w;
      hide Power;
      RegroupFine(d.range, w, FINE * FINE * FINE);
    }
  }

  lemma RegroupFine(r: nat, w: nat, f: nat)
    ensures r * (0x100 * w * f) == (0x100 * r) * (w * f)
  {
    assert 0x100 * w * f == 0x100 * (w * f);
    assert r * (0x100 * (w * f)) == (0x100 * r) * (w * f);
  }

  lemma ShrinkEnough(range: nat, range': nat, j: nat, need: nat, need': nat)
    requires Enough(range, j, need)
    requires (range <= 67 * range' && 67 * need' <= need) || (64 * range <= 129 * range' && 129 * need' <= 64 * need)
    ensures Enough(range', j, need')
  {
    var w := Power(0x100, 20 - j) * (FINE * FINE * FINE);
    hide Power;
    if range <= 67 * range' && 67 * need' <= need {
      ScaledLess(w, range, range', 1, 67);
    } else {
      ScaledLess(w, range, range', 64, 129);
    }
  }

  lemma ScaledLess(w: nat, x: nat, y: nat, a: nat, b: nat)
    requires a * x <= b * y
    ensures a * (x * w) <= b * (y * w)
  {
    MulMonotone(w, a * x, b * y);
  }

  /** A decision divides the interval by less than 67, or 129/64 with even odds. */
  lemma AskShrinks(s: seq<byte>, d: Dec, q: Query, adapt: bool)
    requires TOP <= d.range < WORD
    ensures q.Adaptive? ==> d.range <= 67 * Ask(s, d, q, adapt).1.range
    ensures q.Direct? ==> 64 * d.range <= 129 * Ask(s, d, q, adapt).1.range
  {
    if q.Adaptive? {
      var p := Prob(d.probs, q.cell);
      var h := d.range / BIT_TOTAL;
      SplitBound(d.range, p);
      MulMonotone(h, 31, p);
      MulMonotone(h, p, 2017);
    }
  }

  lemma AskEnough(s: seq<byte>, d: Dec, ctx: Ctx, p: Phase, adapt: bool, j: nat)
    requires DecOk(d) && Wf(p) && !p.Done? && Enough(d.range, j, Need(p))
    ensures var (b, d') := Ask(s, d, QueryOf(ctx, p), adapt);
      Wf(Next(ctx, p, b)) && DecOk(d') && d'.pos >= d.pos
      && Enough(d'.range, j + d'.pos - d.pos, Need(Next(ctx, p, b)))
  {
    hide Enough, Need, Wf, Next, Ask, Normalize;
    var q := QueryOf(ctx, p);
    var n := Normalize(s, d);
    var (b, d') := Ask(s, d, q, adapt);
    NeedAtLeastUnit(p);
    NormalizeEnough(s, d, j, Need(p));
    AskKeepsOk(s, d, q, adapt);
    StepWf(ctx, p, b);
    NeedStep(ctx, p, b);
    NormalizedAsk(s, d, q, adapt);
    AskShrinks(s, n, q, adapt);
    ShrinkEnough(n.range, d'.range, j + n.pos - d.pos, Need(p), Need(Next(ctx, p, b)));
  }

  lemma NormalizedAsk(s: seq<byte>, d: Dec, q: Query, adapt: bool)
    requires DecOk(d)
    ensures Ask(s, Normalize(s, d), q, adapt) == Ask(s, d, q, adapt)
  {
    hide Prob, Adapt;
    NormalizeTwice(s, d);
    hide Normalize;
  }

  lemma NormalizeTwice(s: seq<byte>, d: Dec)
    requires DecOk(d)
    ensures Normalize(s, Normalize(s, d)) == Normalize(s, d)
  {
  }

  lemma {:induction false} RunBytes(s: seq<byte>, d: Dec, ctx: Ctx, p: Phase, adapt: bool, j: nat)
    requires DecOk(d) && Wf(p) && Enough(d.range, j, Need(p))
    ensures Normalize(s, Run(s, d, ctx, p, adapt).1).pos <= d.pos + 20 - j
    decreases Left(p)
  {
    hide Enough, Need, Wf, Next, QueryOf, Ask, Normalize, DecOk;
    if p.Done? {
      NeedAtLeastUnit(p);
      NormalizeEnough(s, d, j, Need(p));
      EnoughBound(Normalize(s, d).range, j + Normalize(s, d).pos - d.pos, Need(p));
    } else {
      var (b, d') := Ask(s, d, QueryOf(ctx, p), adapt);
      AskEnough(s, d, ctx, p, adapt, j);
      StepWf(ctx, p, b);
      EnoughBound(d'.range, j + d'.pos - d.pos, Need(Next(ctx, p, b)));
      RunBytes(s, d', ctx, Next(ctx, p, b), adapt, j + d'.pos - d.pos);
    }
  }

  lemma EnoughBound(range: nat, j: nat, need: nat)
    requires Enough(range, j, need)
    ensures j <= 20
  {
  }

  lemma {:induction false} EvenNeedMin(n: nat)
    requires n <= 26
    ensures EvenNeed(n) >= UNIT
  {
    if n == 0 {
      EvenNeedZero();
      ScaleGrows(0, 4, UNIT);
    } else {
      EvenNeedStep(n);
      EvenNeedMin(n - 1);
    }
  }

  lemma NeedAtLeastUnit(p: Phase)
    requires Wf(p)
    ensures Need(p) >= UNIT
  {
    hide EvenNeed;
    EvenNeedMin(26);
    ScaleGrows(0, 6, EvenNeed(26));
    match p
    case Start => ScaleGrows(0, 18, EvenNeed(26));
    case AskRep => ScaleGrows(0, 17, EvenNeed(26));
    case Even(_, _, n, _) => EvenNeedMin(n);
    case Slot(_, n, _) => ScaleGrows(0, n, EvenNeed(26));
    case Choice(k) => ScaleGrows(0, 10, KindNeed(k));
    case Choice2(k) => ScaleGrows(0, 9, KindNeed(k));
    case Len(k, _, n, _) => ScaleGrows(0, n, KindNeed(k));
    case Lit(n, _, _) => ScaleGrows(0, n, UNIT);
    case Spec(_, slot, i, _, _) => ScaleGrows(0, Footer(slot) - i, UNIT);
    case Aligned(_, i, _, _) => ScaleGrows(0, 4 - i, UNIT);
    case Done(_) =>
    case AskG0 => ScaleGrows(0, 13, UNIT);
    case AskG2 => ScaleGrows(0, 11, UNIT);
    case _ => ScaleGrows(0, 12, UNIT);
  }

  /** LZMA_REQUIRED_INPUT_MAX: from any normalized state one symbol reads at most twenty
      bytes, the normalization after it included. */
  lemma TwentyBytes(s: seq<byte>, d: Dec, ctx: Ctx, adapt: bool)
    requires TOP <= d.range < WORD
    ensures Normalize(s, Run(s, d, ctx, Start, adapt).1).pos <= d.pos + 20
  {
    StartNeed();
    MulMonotone(Power(0x100, 20) * (FINE * FINE * FINE), TOP, d.range);
    RunBytes(s, d, ctx, Start, adapt, 0);
  }
}
