/** The decision tree of one LZMA symbol, as a small-step machine: at each step it asks one
    binary decision and moves on with the answer. The encoder's emission code, the decoder and
    the decoder's look-ahead walk this same tree; each is proved against it. */
module LzmaSymbols {
  import opened Numbers
  import opened RangeCoder

  const END_DIST: int := 0xFFFF_FFFF   // the distance that stands for the end mark

  /** A literal, a match at distance `dist + 1`, a match at the i-th recent distance, or one
      byte at the most recent distance. */
  datatype Symbol =
    | Literal(b: byte)
    | Match(len: nat, dist: nat)
    | Rep(i: nat, len: nat)
    | ShortRep

  predicate ValidLen(len: nat) { 2 <= len <= 273 }

  predicate ValidSymbol(sym: Symbol) {
    match sym
    case Literal(_) => true
    case Match(len, dist) => ValidLen(len) && dist < WORD
    case Rep(i, len) => i < 4 && ValidLen(len)
    case ShortRep => true
  }

  const END_MARK: Symbol := Match(2, END_DIST)

  /** What selects the cells of a symbol: the 12-state machine, the position bits, the literal
      context, and the byte at the most recent distance. */
  datatype Ctx = Ctx(state: nat, posState: nat, litCtx: nat, matchByte: byte)

  datatype Kind = KMatch | KRep(i: nat)

  /** Where in the tree the coder is. `n` counts bits still to come, `i` bits already there,
      `m` is the index into the bit tree. */
  datatype Phase =
    | Start
    | Lit(n: nat, m: nat, offs: bool)
    | AskRep | AskG0 | AskG0Long | AskG1 | AskG2
    | Choice(k: Kind)
    | Choice2(k: Kind)
    | Len(k: Kind, part: nat, n: nat, m: nat)
    | Slot(len: nat, n: nat, m: nat)
    | Spec(len: nat, slot: nat, i: nat, m: nat, dist: nat)
    | Even(len: nat, slot: nat, n: nat, dist: nat)
    | Aligned(len: nat, i: nat, m: nat, dist: nat)
    | Done(sym: Symbol)

  // Bits, symbols and first symbol of the three parts of the length coder.
  function PartBits(part: nat): nat { if part == 2 then 8 else 3 }
  function PartBase(part: nat): nat { if part == 0 then 0 else if part == 1 then 8 else 16 }
  function PartOf(raw: nat): nat { if raw < 8 then 0 else if raw < 16 then 1 else 2 }

  function LenState(len: nat): nat
    requires len >= 2
  {
    if len < 5 then len - 2 else 3
  }

  function Footer(slot: nat): nat
    requires slot >= 2
  {
    slot / 2 - 1
  }

  /** The smallest distance of a slot. */
  function SlotBase(slot: nat): nat
    requires slot >= 2
  {
    (2 + slot % 2) * Pow2(Footer(slot))
  }

  predicate TreeWf(total: nat, n: nat, m: nat) {
    1 <= n <= total && Pow2(total - n) <= m < 2 * Pow2(total - n)
  }

  predicate Wf(p: Phase) {
    match p
    case Lit(n, m, _) => TreeWf(8, n, m)
    case Len(k, part, n, m) => part < 3 && TreeWf(PartBits(part), n, m)
    case Slot(len, n, m) => ValidLen(len) && TreeWf(6, n, m)
    case Spec(len, slot, i, m, dist) =>
      ValidLen(len) && 4 <= slot < 14 && i < Footer(slot) && Pow2(i) <= m < 2 * Pow2(i)
      && SlotBase(slot) <= dist < SlotBase(slot) + Pow2(i)
    case Even(len, slot, n, dist) =>
      ValidLen(len) && 14 <= slot < 64 && 1 <= n <= Footer(slot) - 4
      && dist < 4 * Pow2(Footer(slot) - 4 - n)
    case Aligned(len, i, m, dist) =>
      ValidLen(len) && i < 4 && Pow2(i) <= m < 2 * Pow2(i) && dist % 16 < Pow2(i) && dist < WORD
    case Done(sym) => true
    case _ => true
  }

  function MatchBit(ctx: Ctx, n: nat): bit
    requires 1 <= n <= 8
  {
    BitOf(ctx.matchByte, n - 1)
  }

  function LitIndex(ctx: Ctx, n: nat, m: nat, offs: bool): nat
    requires 1 <= n <= 8
  {
    if offs then 0x100 + 0x100 * MatchBit(ctx, n) + m else m
  }

  function QueryOf(ctx: Ctx, p: Phase): Query
    requires Wf(p) && !p.Done?
  {
    match p
    case Start => Adaptive(IsMatch(ctx.state, ctx.posState))
    case Lit(n, m, offs) => Adaptive(LitProb(ctx.litCtx, LitIndex(ctx, n, m, offs)))
    case AskRep => Adaptive(IsRep(ctx.state))
    case AskG0 => Adaptive(IsRepG0(ctx.state))
    case AskG0Long => Adaptive(IsRep0Long(ctx.state, ctx.posState))
    case AskG1 => Adaptive(IsRepG1(ctx.state))
    case AskG2 => Adaptive(IsRepG2(ctx.state))
    case Choice(k) => Adaptive(LenChoice(k.KRep?))
    case Choice2(k) => Adaptive(LenChoice2(k.KRep?))
    case Len(k, part, n, m) =>
      Adaptive(if part == 0 then LenLow(k.KRep?, ctx.posState, m)
               else if part == 1 then LenMid(k.KRep?, ctx.posState, m)
               else LenHigh(k.KRep?, m))
    case Slot(len, n, m) => Adaptive(PosSlot(LenState(len), m))
    case Spec(len, slot, i, m, dist) => SpecQuery(slot, m)
    case Even(_, _, _, _) => Direct
    case Aligned(_, _, m, _) => Adaptive(Align(m))
  }

  /** The cells of the short footers of all slots are packed into one table. */
  function SpecQuery(slot: nat, m: nat): Query
    requires 4 <= slot < 14 && m >= 1
  {
    SlotBaseAboveSlot(slot);
    Adaptive(SpecPos(SlotBase(slot) - slot - 1 + m))
  }

  lemma BaseDoubles(slot: nat)
    requires slot >= 6
    ensures SlotBase(slot) == 2 * SlotBase(slot - 2)
  {
    assert slot % 2 == (slot - 2) % 2 && Footer(slot) == Footer(slot - 2) + 1;
  }

  lemma {:induction false} SlotBaseAboveSlot(slot: nat)
    requires slot >= 4
    ensures SlotBase(slot) >= slot
    decreases slot
  {
    if slot >= 6 {
      SlotBaseAboveSlot(slot - 2);
      BaseDoubles(slot);
    } else {
      assert Pow2(1) == 2;
    }
  }

  function EndLen(k: Kind, raw: nat): Phase {
    match k
    case KMatch => Slot(raw + 2, 6, 1)
    case KRep(i) => Done(Rep(i, raw + 2))
  }

  function EndSlot(len: nat, slot: nat): Phase {
    if slot < 4 then Done(Match(len, slot))
    else if slot < 14 then Spec(len, slot, 0, 1, SlotBase(slot))
    else Even(len, slot, Footer(slot) - 4, 2 + slot % 2)
  }

  function Next(ctx: Ctx, p: Phase, b: bit): Phase
    requires Wf(p) && !p.Done?
  {
    match p
    case Start => if b == 0 then Lit(8, 1, ctx.state >= 7) else AskRep
    case Lit(n, m, offs) =>
      if n == 1 then Done(Literal((2 * m + b) % 0x100))
      else Lit(n - 1, 2 * m + b, offs && b == MatchBit(ctx, n))
    case AskRep => if b == 0 then Choice(KMatch) else AskG0
    case AskG0 => if b == 0 then AskG0Long else AskG1
    case AskG0Long => if b == 0 then Done(ShortRep) else Choice(KRep(0))
    case AskG1 => if b == 0 then Choice(KRep(1)) else AskG2
    case AskG2 => Choice(KRep(2 + b))
    case Choice(k) => if b == 0 then Len(k, 0, 3, 1) else Choice2(k)
    case Choice2(k) => if b == 0 then Len(k, 1, 3, 1) else Len(k, 2, 8, 1)
    case Len(k, part, n, m) =>
      if n == 1 then EndLen(k, 2 * m + b - Pow2(PartBits(part)) + PartBase(part))
      else Len(k, part, n - 1, 2 * m + b)
    case Slot(len, n, m) =>
      if n == 1 then EndSlot(len, 2 * m + b - Pow2(6)) else Slot(len, n - 1, 2 * m + b)
    case Spec(len, slot, i, m, dist) =>
      var dist' := dist + Shifted(b, i);
      if i + 1 == Footer(slot) then Done(Match(len, dist')) else Spec(len, slot, i + 1, 2 * m + b, dist')
    case Even(len, slot, n, dist) =>
      if n == 1 then Aligned(len, 0, 1, (2 * dist + b) * 16) else Even(len, slot, n - 1, 2 * dist + b)
    case Aligned(len, i, m, dist) =>
      var dist' := dist + Shifted(b, i);
      if i == 3 then Done(Match(len, dist')) else Aligned(len, i + 1, 2 * m + b, dist')
  }

  /** Decisions still to come, at most. */
  function Left(p: Phase): nat
    requires Wf(p)
  {
    match p
    case Start => 60
    case Lit(n, _, _) => n
    case AskRep => 59
    case AskG0 => 58
    case AskG0Long => 57
    case AskG1 => 57
    case AskG2 => 56
    case Choice(_) => 55
    case Choice2(_) => 54
    case Len(_, _, n, _) => 44 + n
    case Slot(_, n, _) => 34 + n
    case Spec(_, slot, i, _, _) => Footer(slot) - i
    case Even(_, _, n, _) => 5 + n
    case Aligned(_, i, _, _) => 4 - i
    case Done(_) => 0
  }

  lemma DoubleIndex(k: nat, m: nat, b: bit)
    requires Pow2(k) <= m < 2 * Pow2(k)
    ensures Pow2(k + 1) <= 2 * m + b < 2 * Pow2(k + 1)
  {
  }

  lemma TreeStep(total: nat, n: nat, m: nat, b: bit)
    requires TreeWf(total, n, m)
    ensures n == 1 ==> Pow2(total) <= 2 * m + b < 2 * Pow2(total)
    ensures n > 1 ==> TreeWf(total, n - 1, 2 * m + b)
  {
    hide Pow2;
    DoubleIndex(total - n, m, b);
    assert total - n + 1 == total - (n - 1);
  }

  lemma EndSlotWf(len: nat, slot: nat)
    requires ValidLen(len) && slot < 64
    ensures Wf(EndSlot(len, slot))
  {
    assert Pow2(0) == 1;
  }

  lemma SpecStepWf(ctx: Ctx, p: Phase, b: bit)
    requires Wf(p) && p.Spec?
    ensures Wf(Next(ctx, p, b)) && Left(Next(ctx, p, b)) < Left(p)
  {
    assert Pow2(p.i + 1) == 2 * Pow2(p.i);
  }

  lemma EvenStepWf(ctx: Ctx, p: Phase, b: bit)
    requires Wf(p) && p.Even?
    ensures Wf(Next(ctx, p, b)) && Left(Next(ctx, p, b)) < Left(p)
  {
    hide Pow2;
    var bits := Footer(p.slot) - 4;
    EvenGrows(bits - p.n, p.dist, b);
    if p.n > 1 {
      assert bits - p.n + 1 == bits - (p.n - 1);
    } else {
      EvenEnds(bits, p.slot, 2 * p.dist + b);
    }
  }

  lemma EvenEnds(bits: nat, slot: nat, dist: nat)
    requires 14 <= slot < 64 && bits == Footer(slot) - 4 && dist < 4 * Pow2(bits)
    ensures Wf(Aligned(2, 0, 1, dist * 16))
  {
    Pow2Monotone(bits, 26);
    Pow2Values();
  }

  lemma EvenGrows(k: nat, dist: nat, b: bit)
    requires dist < 4 * Pow2(k)
    ensures 2 * dist + b < 4 * Pow2(k + 1)
  {
  }

  lemma AlignBitFits(dist: nat, i: nat, b: bit)
    requires i < 4 && dist % 16 < Pow2(i) && dist < WORD
    ensures (dist + Shifted(b, i)) % 16 < Pow2(i + 1) && dist + Shifted(b, i) < WORD
  {
    Pow2Values();
    var p, q, lo := Pow2(i), dist / 16, dist % 16;
    assert p <= 8 && Pow2(i + 1) == 2 * p;
    var add := Shifted(b, i);
    QuotientUnique(16 * q + lo + add, 16, q, lo + add);
  }

  lemma AlignedStepWf(ctx: Ctx, p: Phase, b: bit)
    requires Wf(p) && p.Aligned?
    ensures Wf(Next(ctx, p, b)) && Left(Next(ctx, p, b)) < Left(p)
  {
    AlignBitFits(p.dist, p.i, b);
    DoubleIndex(p.i, p.m, b);
  }

  lemma LenStepWf(ctx: Ctx, p: Phase, b: bit)
    requires Wf(p) && p.Len?
    ensures Wf(Next(ctx, p, b)) && Left(Next(ctx, p, b)) < Left(p)
  {
    TreeStep(PartBits(p.part), p.n, p.m, b);
    Pow2Values();
  }

  lemma SlotStepWf(ctx: Ctx, p: Phase, b: bit)
    requires Wf(p) && p.Slot?
    ensures Wf(Next(ctx, p, b)) && Left(Next(ctx, p, b)) < Left(p)
  {
    TreeStep(6, p.n, p.m, b);
    Pow2Values();
    if p.n == 1 { EndSlotWf(p.len, 2 * p.m + b - 64); }
  }

  lemma StepWf(ctx: Ctx, p: Phase, b: bit)
    requires Wf(p) && !p.Done?
    ensures Wf(Next(ctx, p, b)) && Left(Next(ctx, p, b)) < Left(p)
  {
    hide Pow2, BitOf, SlotBase;
    match p
    case Start => Pow2Values();
    case Choice(_) => Pow2Values();
    case Choice2(_) => Pow2Values();
    case Lit(n, m, offs) => TreeStep(8, n, m, b);
    case Len(_, _, _, _) => LenStepWf(ctx, p, b);
    case Slot(_, _, _) => SlotStepWf(ctx, p, b);
    case Spec(_, _, _, _, _) => SpecStepWf(ctx, p, b);
    case Even(_, _, _, _) => EvenStepWf(ctx, p, b);
    case Aligned(_, _, _, _) => AlignedStepWf(ctx, p, b);
    case _ =>
  }

  // ----- Decoding and encoding one symbol -----

  /** Decode from phase `p` to the end of the symbol. */
  function Run(s: seq<byte>, d: Dec, ctx: Ctx, p: Phase, adapt: bool): (Symbol, Dec)
    requires Wf(p)
    decreases Left(p)
  {
    match p
    case Done(sym) => (sym, d)
    case _ =>
      var (b, d') := Ask(s, d, QueryOf(ctx, p), adapt);
      StepWf(ctx, p, b);
      Run(s, d', ctx, Next(ctx, p, b), adapt)
  }

  /** The slot of a distance: its two leading bits and its length in bits. */
  function SlotOf(dist: nat): (slot: nat)
    ensures dist < WORD ==> slot < 64
    ensures 2 <= dist < WORD ==>
      slot >= 2 && SlotBase(slot) <= dist < SlotBase(slot) + Pow2(Footer(slot))
    ensures dist < 4 ==> slot == dist
    ensures dist >= 4 ==> slot >= 4
  {
    hide SlotBase, Footer, Pow2;
    FirstSlots();
    if dist < 4 then dist else SlotSearch(dist, 4)
  }

  lemma FirstSlots()
    ensures SlotBase(2) == 2 && SlotBase(3) == 3 && SlotBase(4) == 4
    ensures Pow2(Footer(2)) == 1 && Pow2(Footer(3)) == 1
  {
    Pow2Values();
  }

  lemma SlotEnd(slot: nat)
    requires slot >= 2
    ensures SlotBase(slot) + Pow2(Footer(slot)) == SlotBase(slot + 1)
  {
    if slot % 2 == 1 {
      assert Footer(slot + 1) == Footer(slot) + 1;
    }
  }

  lemma LastSlotEnd()
    ensures SlotBase(64) == WORD
  {
    Pow2Values();
  }

  /** The first slot from `slot` on that does not end before `dist`. */
  function SlotSearch(dist: nat, slot: nat): (r: nat)
    requires 4 <= slot <= 64 && SlotBase(slot) <= dist
    ensures slot <= r <= 64
    ensures dist < WORD ==> r < 64 && SlotBase(r) <= dist < SlotBase(r) + Pow2(Footer(r))
    decreases 64 - slot
  {
    SlotEnd(slot);
    LastSlotEnd();
    if slot == 64 || dist < SlotBase(slot + 1) then slot else SlotSearch(dist, slot + 1)
  }

  /** The bit the encoder codes at phase `p` on its way to `sym`. */
  function Choose(p: Phase, sym: Symbol): bit {
    match p
    case Start => if sym.Literal? then 0 else 1
    case Lit(n, _, _) => if sym.Literal? && n >= 1 then BitOf(sym.b, n - 1) else 0
    case AskRep => if sym.Match? then 0 else 1
    case AskG0 => if sym.ShortRep? || (sym.Rep? && sym.i == 0) then 0 else 1
    case AskG0Long => if sym.ShortRep? then 0 else 1
    case AskG1 => if sym.Rep? && sym.i == 1 then 0 else 1
    case AskG2 => if sym.Rep? && sym.i == 2 then 0 else 1
    case Choice(_) => if RawLen(sym) < 8 then 0 else 1
    case Choice2(_) => if RawLen(sym) < 16 then 0 else 1
    case Len(_, part, n, _) =>
      if RawLen(sym) >= PartBase(part) && n >= 1 then BitOf(RawLen(sym) - PartBase(part), n - 1) else 0
    case Slot(_, n, _) => if sym.Match? && n >= 1 then BitOf(SlotOf(sym.dist), n - 1) else 0
    case Spec(_, slot, i, _, _) =>
      if sym.Match? && slot >= 4 && sym.dist >= SlotBase(slot) then BitOf(sym.dist - SlotBase(slot), i) else 0
    case Even(_, _, n, _) => if sym.Match? && n >= 1 then BitOf(sym.dist / 16, n - 1) else 0
    case Aligned(_, i, _, _) => if sym.Match? then BitOf(sym.dist, i) else 0
    case Done(_) => 0
  }

  function RawLen(sym: Symbol): nat {
    match sym
    case Match(len, _) => if len >= 2 then len - 2 else 0
    case Rep(_, len) => if len >= 2 then len - 2 else 0
    case _ => 0
  }

  function Emit(e: Enc, ctx: Ctx, p: Phase, sym: Symbol): (e': Enc)
    requires Wf(p) && e.cacheSize >= 1
    ensures e'.cacheSize >= 1
    decreases Left(p)
  {
    match p
    case Done(_) => e
    case _ =>
      var b := Choose(p, sym);
      StepWf(ctx, p, b);
      Emit(Put(e, QueryOf(ctx, p), b), ctx, Next(ctx, p, b), sym)
  }

  lemma EmitStep(e: Enc, ctx: Ctx, p: Phase, sym: Symbol)
    requires Wf(p) && !p.Done? && e.cacheSize >= 1
    ensures var b := Choose(p, sym);
      Wf(Next(ctx, p, b)) && Emit(e, ctx, p, sym) == Emit(Put(e, QueryOf(ctx, p), b), ctx, Next(ctx, p, b), sym)
  {
    hide Put, Choose, Next, QueryOf, Wf;
    StepWf(ctx, p, Choose(p, sym));
  }

  lemma EmitDone(e: Enc, ctx: Ctx, p: Phase, sym: Symbol)
    requires e.cacheSize >= 1 && p.Done?
    ensures Emit(e, ctx, p, sym) == e
  {
  }

  lemma RunStep(s: seq<byte>, d: Dec, ctx: Ctx, p: Phase, adapt: bool)
    requires Wf(p) && !p.Done?
    ensures var (b, d') := Ask(s, d, QueryOf(ctx, p), adapt);
      Wf(Next(ctx, p, b)) && Run(s, d, ctx, p, adapt) == Run(s, d', ctx, Next(ctx, p, b), adapt)
  {
    hide Ask, Next, QueryOf, Wf;
    StepWf(ctx, p, Ask(s, d, QueryOf(ctx, p), adapt).0);
  }

  // ----- The encoder's path leads to its symbol -----

  function KindOf(sym: Symbol): Kind
    requires sym.Match? || sym.Rep?
  {
    if sym.Match? then KMatch else KRep(sym.i)
  }

  predicate OnPath(p: Phase, sym: Symbol) {
    match p
    case Start => true
    case Lit(n, m, _) => sym.Literal? && m == Shr(0x100 + sym.b, n)
    case AskRep => !sym.Literal?
    case AskG0 => sym.Rep? || sym.ShortRep?
    case AskG0Long => sym.ShortRep? || (sym.Rep? && sym.i == 0)
    case AskG1 => sym.Rep? && sym.i >= 1
    case AskG2 => sym.Rep? && sym.i >= 2
    case Choice(k) => (sym.Match? || sym.Rep?) && k == KindOf(sym)
    case Choice2(k) => (sym.Match? || sym.Rep?) && k == KindOf(sym) && RawLen(sym) >= 8
    case Len(k, part, n, m) =>
      (sym.Match? || sym.Rep?) && k == KindOf(sym) && part == PartOf(RawLen(sym))
      && RawLen(sym) >= PartBase(part)
      && m == Shr(Pow2(PartBits(part)) + RawLen(sym) - PartBase(part), n)
    case Slot(len, n, m) => sym.Match? && sym.len == len && m == Shr(Pow2(6) + SlotOf(sym.dist), n)
    case Spec(len, slot, i, m, dist) =>
      sym.Match? && sym.len == len && sym.dist >= 4 && slot == SlotOf(sym.dist) && slot >= 4
      && sym.dist >= SlotBase(slot) && dist == SlotBase(slot) + Low(sym.dist - SlotBase(slot), i)
    case Even(len, slot, n, dist) =>
      sym.Match? && sym.len == len && sym.dist >= 4 && slot == SlotOf(sym.dist)
      && dist == Shr(sym.dist / 16, n)
    case Aligned(len, i, m, dist) =>
      sym.Match? && sym.len == len && dist == sym.dist / 16 * 16 + Low(sym.dist, i)
    case Done(sym') => sym' == sym
  }

  /** The top bits of a tree index keep the leading one out of the coded bits. */
  lemma LeadingOne(total: nat, x: nat, n: nat)
    requires x < Pow2(total) && n < total
    ensures BitOf(Pow2(total) + x, n) == BitOf(x, n)
  {
    Pow2Split(total, n);
    ShrIsQuotient(x, n);
    ShrIsQuotient(Pow2(total) + x, n);
    hide Pow2;
    hide Shr;
    BitPlusEven(Pow2(total), x, Pow2(n), Pow2(total - n - 1));
  }

  lemma BitPlusEven(t: int, x: int, d: int, h: int)
    requires d > 0 && t == d * (2 * h)
    ensures (t + x) / d % 2 == x / d % 2
  {
    QuotientPlus(t + x, x, d, 2 * h);
    EvenPlus(h, x / d);
  }

  lemma Pow2Split(total: nat, n: nat)
    requires n < total
    ensures Pow2(total) == Pow2(n) * (2 * Pow2(total - n - 1))
  {
    Pow2Add(n, total - n);
    assert Pow2(total - n) == 2 * Pow2(total - n - 1);
  }

  lemma EvenPlus(h: int, y: int)
    ensures (2 * h + y) % 2 == y % 2
  {
  }

  lemma TreePath(total: nat, x: nat, n: nat, m: nat)
    requires 1 <= n <= total && x < Pow2(total) && m == Shr(Pow2(total) + x, n)
    ensures 2 * m + BitOf(x, n - 1) == Shr(Pow2(total) + x, n - 1)
    ensures n == 1 ==> 2 * m + BitOf(x, 0) == Pow2(total) + x
  {
    LeadingOne(total, x, n - 1);
    ShiftStep(Pow2(total) + x, n);
  }

  lemma TreeRoot(total: nat, x: nat)
    requires x < Pow2(total)
    ensures Shr(Pow2(total) + x, total) == 1
  {
    ShrIsQuotient(Pow2(total) + x, total);
    QuotientUnique(Pow2(total) + x, Pow2(total), 1, x);
  }

  /** Entering the distance bits: the slot gives the two leading bits. */
  lemma SlotLeads(dist: nat)
    requires 4 <= dist < WORD && SlotOf(dist) >= 14
    ensures Shr(dist / 16, Footer(SlotOf(dist)) - 4) == 2 + SlotOf(dist) % 2
  {
    hide SlotOf, Shr, Pow2;
    var slot := SlotOf(dist);
    var f := Footer(slot);
    Pow2Values();
    Pow2Add(4, f - 4);
    ShrIsQuotient(dist / 16, f - 4);
    DivDiv(dist, 16, Pow2(f - 4));
    LeadingBits(dist, Pow2(f), 2 + slot % 2);
  }

  lemma LeadingBits(dist: nat, p: nat, lead: nat)
    requires p > 0 && lead * p <= dist < lead * p + p
    ensures dist / p == lead
  {
    QuotientUnique(dist, p, lead, dist - lead * p);
  }

  lemma ShrZero(x: nat)
    ensures Shr(x, 0) == x
  {
  }

  lemma LowFour(x: nat)
    ensures x / 16 * 16 + Low(x, 4) == x
  {
    Pow2Values();
  }

  lemma LowZero(x: nat)
    ensures Low(x, 0) == 0
  {
  }

  lemma SpecPath(ctx: Ctx, len: nat, slot: nat, i: nat, m: nat, dist: nat, sym: Symbol)
    requires Wf(Spec(len, slot, i, m, dist)) && OnPath(Spec(len, slot, i, m, dist), sym) && ValidSymbol(sym)
    ensures var p := Spec(len, slot, i, m, dist); OnPath(Next(ctx, p, Choose(p, sym)), sym)
  {
    hide Pow2, SlotBase, BitOf, Low, Shifted, SlotOf, Shr;
    var x := sym.dist - SlotBase(slot);
    ModStep(x, i);
    if x < Pow2(i + 1) { ShiftBySmall(x, i + 1); }
  }

  lemma EvenPath(ctx: Ctx, p: Phase, sym: Symbol)
    requires Wf(p) && OnPath(p, sym) && ValidSymbol(sym) && p.Even?
    ensures OnPath(Next(ctx, p, Choose(p, sym)), sym)
  {
    hide Pow2, SlotBase, BitOf, Low, Shifted, SlotOf, Shr;
    ShiftStep(sym.dist / 16, p.n);
    ShrZero(sym.dist / 16);
    LowZero(sym.dist);
  }

  lemma AlignedPath(ctx: Ctx, p: Phase, sym: Symbol)
    requires Wf(p) && OnPath(p, sym) && ValidSymbol(sym) && p.Aligned?
    ensures OnPath(Next(ctx, p, Choose(p, sym)), sym)
  {
    hide Pow2, BitOf, Low, Shifted;
    ModStep(sym.dist, p.i);
    LowFour(sym.dist);
  }

  lemma EndSlotPath(sym: Symbol)
    requires ValidSymbol(sym) && sym.Match?
    ensures OnPath(EndSlot(sym.len, SlotOf(sym.dist)), sym)
  {
    var slot := SlotOf(sym.dist);
    assert Pow2(0) == 1;
    if slot >= 14 { SlotLeads(sym.dist); }
  }

  lemma LitPath(ctx: Ctx, p: Phase, sym: Symbol)
    requires Wf(p) && OnPath(p, sym) && p.Lit?
    ensures OnPath(Next(ctx, p, Choose(p, sym)), sym)
  {
    Pow2Values();
    TreePath(8, sym.b, p.n, p.m);
  }

  lemma LenPath(ctx: Ctx, p: Phase, sym: Symbol)
    requires Wf(p) && OnPath(p, sym) && ValidSymbol(sym) && p.Len?
    ensures OnPath(Next(ctx, p, Choose(p, sym)), sym)
  {
    hide Pow2, BitOf, Shr, SlotOf;
    var raw := RawLen(sym);
    PartRange(raw);
    TreePath(PartBits(p.part), raw - PartBase(p.part), p.n, p.m);
    if p.n == 1 {
      EndLenPath(sym);
    }
  }

  lemma PartRange(raw: nat)
    requires raw <= 271
    ensures PartBase(PartOf(raw)) <= raw < PartBase(PartOf(raw)) + Pow2(PartBits(PartOf(raw)))
  {
    Pow2Values();
  }

  lemma EndLenPath(sym: Symbol)
    requires ValidSymbol(sym) && (sym.Match? || sym.Rep?)
    ensures OnPath(EndLen(KindOf(sym), RawLen(sym)), sym)
  {
    Pow2Values();
    if sym.Match? { TreeRoot(6, SlotOf(sym.dist)); }
  }

  lemma SlotPath(ctx: Ctx, p: Phase, sym: Symbol)
    requires Wf(p) && OnPath(p, sym) && ValidSymbol(sym) && p.Slot?
    ensures OnPath(Next(ctx, p, Choose(p, sym)), sym)
  {
    hide SlotOf, Pow2;
    Pow2Values();
    TreePath(6, SlotOf(sym.dist), p.n, p.m);
    EndSlotPath(sym);
  }

  lemma PathStep(ctx: Ctx, p: Phase, sym: Symbol)
    requires Wf(p) && !p.Done? && OnPath(p, sym) && ValidSymbol(sym)
    ensures OnPath(Next(ctx, p, Choose(p, sym)), sym)
  {
    Pow2Values();
    match p
    case Start => if sym.Literal? { TreeRoot(8, sym.b); }
    case Choice(k) => if RawLen(sym) < 8 { TreeRoot(3, RawLen(sym)); }
    case Choice2(k) =>
      if RawLen(sym) < 16 { TreeRoot(3, RawLen(sym) - 8); } else { TreeRoot(8, RawLen(sym) - 16); }
    case Lit(_, _, _) => LitPath(ctx, p, sym);
    case Len(_, _, _, _) => LenPath(ctx, p, sym);
    case Slot(_, _, _) => SlotPath(ctx, p, sym);
    case Spec(len, slot, i, m, dist) => SpecPath(ctx, len, slot, i, m, dist, sym);
    case Even(_, _, _, _) => EvenPath(ctx, p, sym);
    case Aligned(_, _, _, _) => AlignedPath(ctx, p, sym);
    case _ =>
  }

  // ----- One symbol round trip -----

  lemma {:induction false} EmitKeepsInv(e: Enc, ctx: Ctx, p: Phase, sym: Symbol)
    requires EncInv(e) && Wf(p)
    ensures EncInv(Emit(e, ctx, p, sym))
    decreases Left(p)
  {
    if !p.Done? {
      var b := Choose(p, sym);
      StepWf(ctx, p, b);
      PutKeepsInv(e, QueryOf(ctx, p), b);
      EmitKeepsInv(Put(e, QueryOf(ctx, p), b), ctx, Next(ctx, p, b), sym);
    }
  }

  /** A stream inside the interval after the symbol is inside the interval before it. */
  lemma {:induction false} EmitFitsBack(s: seq<byte>, e: Enc, ctx: Ctx, p: Phase, sym: Symbol)
    requires EncInv(e) && Wf(p) && Fits(s, Emit(e, ctx, p, sym))
    ensures Fits(s, e)
    decreases Left(p)
  {
    if !p.Done? {
      var b := Choose(p, sym);
      StepWf(ctx, p, b);
      var q := QueryOf(ctx, p);
      PutKeepsInv(e, q, b);
      EmitFitsBack(s, Put(e, q, b), ctx, Next(ctx, p, b), sym);
      FitsBack(s, e, q, b);
    }
  }

  /** Whatever is coded afterwards, the decoder reads back the symbol the encoder emitted
      and both coders are in step again. */
  lemma {:induction false} SymbolRoundTrip(s: seq<byte>, e: Enc, d: Dec, ctx: Ctx, p: Phase, sym: Symbol)
    requires EncInv(e) && InStep(s, e, d) && Wf(p) && OnPath(p, sym) && ValidSymbol(sym)
    requires Fits(s, Emit(e, ctx, p, sym))
    ensures Run(s, d, ctx, p, true).0 == sym
    ensures InStep(s, Emit(e, ctx, p, sym), Run(s, d, ctx, p, true).1)
    decreases Left(p)
  {
    if !p.Done? {
      var b := Choose(p, sym);
      StepWf(ctx, p, b);
      PathStep(ctx, p, sym);
      var q := QueryOf(ctx, p);
      PutKeepsInv(e, q, b);
      EmitFitsBack(s, Put(e, q, b), ctx, Next(ctx, p, b), sym);
      PutAsk(s, e, d, q, b);
      SymbolRoundTrip(s, Put(e, q, b), Ask(s, d, q, true).1, ctx, Next(ctx, p, b), sym);
    }
  }
}
