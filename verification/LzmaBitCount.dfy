/** How many decisions a symbol takes, which is what the bound on its input counts
    (wiipax/client/LzmaDec.h:41-44): adaptive bits, and direct bits at even odds. */
module LzmaBitCount {
  import opened Numbers
  import opened RangeCoder
  import opened LzmaSymbols
  import opened PosSlots

  datatype Bits = Bits(adaptive: nat, direct: nat)

  function Counted(q: Query, rest: Bits): Bits {
    if q.Direct? then rest.(direct := rest.direct + 1) else rest.(adaptive := rest.adaptive + 1)
  }

  function More(n: nat, rest: Bits): Bits {
    Bits(n + rest.adaptive, rest.direct)
  }

  // ----- A symbol on its way -----

  /** The decisions from p on that lead to the symbol. */
  function BitsOf(ctx: Ctx, p: Phase, sym: Symbol): Bits
    requires Wf(p)
    decreases Left(p)
  {
    if p.Done? then Bits(0, 0)
    else
      StepWf(ctx, p, Choose(p, sym));
      Counted(QueryOf(ctx, p), BitsOf(ctx, Next(ctx, p, Choose(p, sym)), sym))
  }

  /** A slot's footer. */
  function FooterBits(slot: nat): Bits {
    if slot < 4 then Bits(0, 0) else if slot < 14 then Bits(Footer(slot), 0) else Bits(4, Footer(slot) - 4)
  }

  function DistanceBits(sym: Symbol): Bits {
    if sym.Match? then More(6, FooterBits(SlotOf(sym.dist))) else Bits(0, 0)
  }

  /** A length and what follows it: the two choices count. */
  function LenBits(sym: Symbol): Bits {
    More(if RawLen(sym) < 8 then 4 else if RawLen(sym) < 16 then 5 else 10, DistanceBits(sym))
  }

  function SymbolBits(sym: Symbol): Bits {
    match sym
    case Literal(_) => Bits(9, 0)
    case Match(_, _) => More(2, LenBits(sym))
    case ShortRep => Bits(4, 0)
    case Rep(i, _) => More(if i < 2 then 4 else 5, LenBits(sym))
  }

  /** The decisions to come at each phase. */
  function ToCome(p: Phase, sym: Symbol): Bits
    requires Wf(p)
  {
    match p
    case Start => SymbolBits(sym)
    case Lit(n, _, _) => Bits(n, 0)
    case AskRep => if sym.Match? then More(1, LenBits(sym)) else RepBits(sym, 3)
    case AskG0 => RepBits(sym, 2)
    case AskG0Long => if sym.ShortRep? then Bits(1, 0) else More(1, LenBits(sym))
    case AskG1 => More(if sym.Rep? && sym.i == 1 then 1 else 2, LenBits(sym))
    case AskG2 => More(1, LenBits(sym))
    case Choice(_) => LenBits(sym)
    case Choice2(_) => More(if RawLen(sym) < 16 then 4 else 9, DistanceBits(sym))
    case Len(_, _, n, _) => More(n, DistanceBits(sym))
    case Slot(_, n, _) => More(n, FooterBits(if sym.Match? then SlotOf(sym.dist) else 0))
    case Spec(_, slot, i, _, _) => Bits(Footer(slot) - i, 0)
    case Even(_, _, n, _) => Bits(4, n)
    case Aligned(_, i, _, _) => Bits(4 - i, 0)
    case Done(_) => Bits(0, 0)
  }

  function RepBits(sym: Symbol, n: nat): Bits {
    if sym.ShortRep? then Bits(n, 0)
    else More(if sym.Rep? && sym.i < 2 then n else n + 1, LenBits(sym))
  }

  /** One decision less is to come after each. */
  ghost predicate Steps(ctx: Ctx, p: Phase, sym: Symbol)
    requires Wf(p) && !p.Done? && Wf(Next(ctx, p, Choose(p, sym)))
  {
    ToCome(p, sym) == Counted(QueryOf(ctx, p), ToCome(Next(ctx, p, Choose(p, sym)), sym))
  }

  lemma LenSteps(ctx: Ctx, p: Phase, sym: Symbol)
    requires Wf(p) && p.Len? && OnPath(p, sym) && Wf(Next(ctx, p, Choose(p, sym)))
    ensures Steps(ctx, p, sym)
  {
    hide Pow2, Shr, BitOf, SlotBase, SlotOf, FooterBits;
  }

  lemma SlotSteps(ctx: Ctx, p: Phase, sym: Symbol)
    requires Wf(p) && p.Slot? && OnPath(p, sym)
    requires var p' := Next(ctx, p, Choose(p, sym)); Wf(p') && OnPath(p', sym)
    ensures Steps(ctx, p, sym)
  {
    hide Pow2, Shr, BitOf, SlotBase, SlotOf, Low;
    SmallSlot(sym);
  }

  lemma FooterSteps(ctx: Ctx, p: Phase, sym: Symbol)
    requires Wf(p) && (p.Spec? || p.Even? || p.Aligned?) && Wf(Next(ctx, p, Choose(p, sym)))
    ensures Steps(ctx, p, sym)
  {
    hide Pow2, Shr, BitOf, SlotBase, SlotOf, Low, Shifted;
  }

  lemma RepSteps(ctx: Ctx, p: Phase, sym: Symbol)
    requires Wf(p) && (p.AskG0? || p.AskG0Long? || p.AskG1? || p.AskG2?) && OnPath(p, sym) && ValidSymbol(sym)
    requires Wf(Next(ctx, p, Choose(p, sym)))
    ensures Steps(ctx, p, sym)
  {
    hide Pow2, LenBits;
  }

  lemma OtherSteps(ctx: Ctx, p: Phase, sym: Symbol)
    requires Wf(p) && (p.Start? || p.AskRep? || p.Choice? || p.Choice2? || p.Lit?) && OnPath(p, sym)
    requires ValidSymbol(sym) && Wf(Next(ctx, p, Choose(p, sym)))
    ensures Steps(ctx, p, sym)
  {
    hide Pow2, DistanceBits, Shr, BitOf;
  }

  lemma ToComeStep(ctx: Ctx, p: Phase, sym: Symbol)
    requires Wf(p) && !p.Done? && OnPath(p, sym) && ValidSymbol(sym)
    requires var p' := Next(ctx, p, Choose(p, sym)); Wf(p') && OnPath(p', sym)
    ensures Steps(ctx, p, sym)
  {
    hide OnPath, Next, Choose, Steps, Wf;
    match p
    case Len(_, _, _, _) => LenSteps(ctx, p, sym);
    case Slot(_, _, _) => SlotSteps(ctx, p, sym);
    case Spec(_, _, _, _, _) => FooterSteps(ctx, p, sym);
    case Even(_, _, _, _) => FooterSteps(ctx, p, sym);
    case Aligned(_, _, _, _) => FooterSteps(ctx, p, sym);
    case AskG0 => RepSteps(ctx, p, sym);
    case AskG0Long => RepSteps(ctx, p, sym);
    case AskG1 => RepSteps(ctx, p, sym);
    case AskG2 => RepSteps(ctx, p, sym);
    case _ => OtherSteps(ctx, p, sym);
  }

  lemma SmallSlot(sym: Symbol)
    ensures sym.Match? && sym.dist < 4 ==> SlotOf(sym.dist) == sym.dist
  {
  }

  lemma {:induction false} BitsToCome(ctx: Ctx, p: Phase, sym: Symbol)
    requires Wf(p) && OnPath(p, sym) && ValidSymbol(sym)
    ensures BitsOf(ctx, p, sym) == ToCome(p, sym)
    decreases Left(p)
  {
    hide OnPath, Next, Choose, ToCome, QueryOf;
    if p.Done? {
      NoneToCome(p, sym);
    } else {
      var b := Choose(p, sym);
      StepWf(ctx, p, b);
      PathStep(ctx, p, sym);
      BitsToCome(ctx, Next(ctx, p, b), sym);
      ToComeStep(ctx, p, sym);
    }
  }

  lemma NoneToCome(p: Phase, sym: Symbol)
    requires p.Done?
    ensures Wf(p) && ToCome(p, sym) == Bits(0, 0)
  {
  }

  /** The decisions of every symbol, counted exactly; a match in a slot below 14 has up to 23
      adaptive ones and none at even odds, any other up to 22 adaptive ones and 26 at even odds. */
  lemma SymbolTakes(ctx: Ctx, sym: Symbol)
    requires ValidSymbol(sym)
    ensures BitsOf(ctx, Start, sym) == SymbolBits(sym)
    ensures sym.Match? && SlotOf(sym.dist) < 14 ==>
      SymbolBits(sym).adaptive <= 23 && SymbolBits(sym).direct == 0
    ensures sym.Match? && SlotOf(sym.dist) >= 14 ==>
      SymbolBits(sym).adaptive <= 22 && SymbolBits(sym).direct <= 26
    ensures !sym.Match? ==> SymbolBits(sym).adaptive <= 15 && SymbolBits(sym).direct == 0
  {
    hide SlotOf, BitsOf;
    BitsToCome(ctx, Start, sym);
    SlotInRange(sym);
  }

  lemma SlotInRange(sym: Symbol)
    requires ValidSymbol(sym)
    ensures sym.Match? ==> SlotOf(sym.dist) < 64
  {
  }

  /** Both bounds are met: 23 adaptive bits at distance 65, 22 and 26 at the end mark's length 18. */
  lemma BoundsMet()
    ensures SymbolBits(Match(18, 64)) == Bits(23, 0)
    ensures SymbolBits(Match(18, END_DIST)) == Bits(22, 26)
  {
    hide SlotOf;
    Pow2Values();
    Pow2Add(26, 4);
    assert SlotBase(12) == 64 && SlotBase(63) == 3 * Pow2(30);
    SlotUnique(64, 12);
    SlotUnique(END_DIST, 63);
  }
}
