/** What the bit-tree loops of the encoder send, as functions, and that these are the branches of
    the decision tree of the symbol being sent. */
module LzmaTrees {
  import opened Numbers
  import opened RangeCoder
  import opened LzmaSymbols

  // ----- What the coding loops send, as functions -----

  /** The tables of bit-tree cells; `m` runs from 1. The short-footer tables start at
      `base - slot - 1` inside posEncoders, which is -1 for the first. */
  datatype Tree =
    | LowTree(rep: bool, posState: nat)
    | MidTree(rep: bool, posState: nat)
    | HighTree(rep: bool)
    | SlotTree(lenState: nat)
    | SpecTree(slot: nat)
    | AlignTree

  predicate TreeOk(t: Tree) {
    t.SpecTree? ==> 4 <= t.slot < 14
  }

  function TreeCell(t: Tree, m: nat): Cell
    requires TreeOk(t) && m >= 1
  {
    match t
    case LowTree(rep, posState) => LenLow(rep, posState, m)
    case MidTree(rep, posState) => LenMid(rep, posState, m)
    case HighTree(rep) => LenHigh(rep, m)
    case SlotTree(lenState) => PosSlot(lenState, m)
    case SpecTree(slot) => SpecQuery(slot, m).cell
    case AlignTree => Align(m)
  }

  /** `n` bits of `x` from the top, each coded with the cell its predecessors select. */
  function TreePut(e: Enc, t: Tree, n: nat, m: nat, x: nat): (e': Enc)
    requires TreeOk(t) && m >= 1 && e.cacheSize >= 1
    ensures e'.cacheSize >= 1
    decreases n
  {
    if n == 0 then e
    else
      var b := BitOf(x, n - 1);
      TreePut(Put(e, Adaptive(TreeCell(t, m)), b), t, n - 1, 2 * m + b, x)
  }

  /** Bits `i` to `n - 1` of `x` from the bottom. */
  function ReversePut(e: Enc, t: Tree, i: nat, n: nat, m: nat, x: nat): (e': Enc)
    requires TreeOk(t) && m >= 1 && e.cacheSize >= 1 && i <= n
    ensures e'.cacheSize >= 1
    decreases n - i
  {
    if i == n then e
    else
      var b := BitOf(x, i);
      ReversePut(Put(e, Adaptive(TreeCell(t, m)), b), t, i + 1, n, 2 * m + b, x)
  }

  /** `n` bits of `x` from the top with even odds. */
  function EvenPut(e: Enc, n: nat, x: nat): (e': Enc)
    requires e.cacheSize >= 1
    ensures e'.cacheSize >= 1
    decreases n
  {
    if n == 0 then e else EvenPut(Put(e, Direct, BitOf(x, n - 1)), n - 1, x)
  }

  /** The low `n` bits of a literal; while `offs` holds, the cells depend on the match byte. */
  function LitPut(e: Enc, ctx: Ctx, n: nat, m: nat, offs: bool, x: byte): (e': Enc)
    requires e.cacheSize >= 1 && n <= 8
    ensures e'.cacheSize >= 1
    decreases n
  {
    if n == 0 then e
    else
      var b := BitOf(x, n - 1);
      LitPut(Put(e, Adaptive(LitProb(ctx.litCtx, LitIndex(ctx, n, m, offs))), b),
             ctx, n - 1, 2 * m + b, offs && b == MatchBit(ctx, n), x)
  }

  // ----- They are the decision tree of the symbol -----

  function LenTree(k: Kind, part: nat, posState: nat): Tree {
    if part == 0 then LowTree(k.KRep?, posState)
    else if part == 1 then MidTree(k.KRep?, posState)
    else HighTree(k.KRep?)
  }

  lemma {:induction false} EmitLit(e: Enc, ctx: Ctx, n: nat, m: nat, offs: bool, x: byte)
    requires e.cacheSize >= 1 && Wf(Lit(n, m, offs)) && OnPath(Lit(n, m, offs), Literal(x))
    ensures Emit(e, ctx, Lit(n, m, offs), Literal(x)) == LitPut(e, ctx, n, m, offs, x)
    decreases n
  {
    hide Emit, Put, BitOf, LitIndex, MatchBit, Shr, Pow2;
    var p := Lit(n, m, offs);
    EmitStep(e, ctx, p, Literal(x));
    PathStep(ctx, p, Literal(x));
    var b := Choose(p, Literal(x));
    var e' := Put(e, QueryOf(ctx, p), b);
    if n > 1 {
      EmitLit(e', ctx, n - 1, 2 * m + b, offs && b == MatchBit(ctx, n), x);
    } else {
      EmitDone(e', ctx, Next(ctx, p, b), Literal(x));
    }
  }

  lemma {:induction false} EmitLen(e: Enc, ctx: Ctx, k: Kind, part: nat, n: nat, m: nat, sym: Symbol)
    requires e.cacheSize >= 1 && Wf(Len(k, part, n, m)) && OnPath(Len(k, part, n, m), sym) && ValidSymbol(sym)
    ensures Wf(EndLen(k, RawLen(sym)))
    ensures Emit(e, ctx, Len(k, part, n, m), sym)
      == Emit(TreePut(e, LenTree(k, part, ctx.posState), n, m, RawLen(sym) - PartBase(part)),
              ctx, EndLen(k, RawLen(sym)), sym)
    decreases n
  {
    hide Emit, Put, BitOf, Shr, Pow2;
    var p := Len(k, part, n, m);
    EmitStep(e, ctx, p, sym);
    PathStep(ctx, p, sym);
    var b := Choose(p, sym);
    var e' := Put(e, QueryOf(ctx, p), b);
    if n > 1 {
      EmitLen(e', ctx, k, part, n - 1, 2 * m + b, sym);
    } else {
      PartRange(RawLen(sym));
      TreePath(PartBits(part), RawLen(sym) - PartBase(part), n, m);
    }
  }

  lemma {:induction false} EmitSlot(e: Enc, ctx: Ctx, len: nat, n: nat, m: nat, sym: Symbol)
    requires e.cacheSize >= 1 && Wf(Slot(len, n, m)) && OnPath(Slot(len, n, m), sym) && ValidSymbol(sym)
    ensures Wf(EndSlot(len, SlotOf(sym.dist)))
    ensures Emit(e, ctx, Slot(len, n, m), sym)
      == Emit(TreePut(e, SlotTree(LenState(len)), n, m, SlotOf(sym.dist)), ctx, EndSlot(len, SlotOf(sym.dist)), sym)
    decreases n
  {
    hide Emit, Put, BitOf, Shr, Pow2, SlotOf, EndSlot;
    var p := Slot(len, n, m);
    EmitStep(e, ctx, p, sym);
    PathStep(ctx, p, sym);
    var b := Choose(p, sym);
    var e' := Put(e, QueryOf(ctx, p), b);
    if n > 1 {
      EmitSlot(e', ctx, len, n - 1, 2 * m + b, sym);
    } else {
      Pow2Values();
      TreePath(6, SlotOf(sym.dist), n, m);
    }
  }

  lemma {:induction false} EmitSpec(e: Enc, ctx: Ctx, len: nat, slot: nat, i: nat, m: nat, dist: nat, sym: Symbol)
    requires e.cacheSize >= 1 && Wf(Spec(len, slot, i, m, dist)) && OnPath(Spec(len, slot, i, m, dist), sym)
    requires ValidSymbol(sym)
    ensures Emit(e, ctx, Spec(len, slot, i, m, dist), sym)
      == ReversePut(e, SpecTree(slot), i, Footer(slot), m, sym.dist - SlotBase(slot))
    decreases Footer(slot) - i
  {
    hide Emit, Put, BitOf, Shr, Low, Pow2, SlotOf, SlotBase, Shifted;
    var p := Spec(len, slot, i, m, dist);
    EmitStep(e, ctx, p, sym);
    PathStep(ctx, p, sym);
    var b := Choose(p, sym);
    var e' := Put(e, QueryOf(ctx, p), b);
    if i + 1 < Footer(slot) {
      EmitSpec(e', ctx, len, slot, i + 1, 2 * m + b, dist + Shifted(b, i), sym);
    } else {
      EmitDone(e', ctx, Next(ctx, p, b), sym);
    }
  }

  lemma {:induction false} EmitAligned(e: Enc, ctx: Ctx, len: nat, i: nat, m: nat, dist: nat, sym: Symbol)
    requires e.cacheSize >= 1 && Wf(Aligned(len, i, m, dist)) && OnPath(Aligned(len, i, m, dist), sym)
    requires ValidSymbol(sym)
    ensures Emit(e, ctx, Aligned(len, i, m, dist), sym) == ReversePut(e, AlignTree, i, 4, m, sym.dist)
    decreases 4 - i
  {
    hide Emit, Put, BitOf, Shr, Low, Pow2, Shifted;
    var p := Aligned(len, i, m, dist);
    EmitStep(e, ctx, p, sym);
    PathStep(ctx, p, sym);
    var b := Choose(p, sym);
    var e' := Put(e, QueryOf(ctx, p), b);
    if i < 3 {
      EmitAligned(e', ctx, len, i + 1, 2 * m + b, dist + Shifted(b, i), sym);
    } else {
      EmitDone(e', ctx, Next(ctx, p, b), sym);
    }
  }

  lemma {:induction false} EmitEven(e: Enc, ctx: Ctx, len: nat, slot: nat, n: nat, dist: nat, sym: Symbol)
    requires e.cacheSize >= 1 && Wf(Even(len, slot, n, dist)) && OnPath(Even(len, slot, n, dist), sym)
    requires ValidSymbol(sym)
    ensures Wf(Aligned(len, 0, 1, sym.dist / 16 * 16))
    ensures OnPath(Aligned(len, 0, 1, sym.dist / 16 * 16), sym)
    ensures Emit(e, ctx, Even(len, slot, n, dist), sym)
      == Emit(EvenPut(e, n, sym.dist / 16), ctx, Aligned(len, 0, 1, sym.dist / 16 * 16), sym)
    decreases n
  {
    hide Emit, Put, BitOf, Shr, Low, Pow2, SlotOf;
    var p := Even(len, slot, n, dist);
    EmitStep(e, ctx, p, sym);
    PathStep(ctx, p, sym);
    var b := Choose(p, sym);
    var e' := Put(e, QueryOf(ctx, p), b);
    if n > 1 {
      EmitEven(e', ctx, len, slot, n - 1, 2 * dist + b, sym);
    } else {
      LowZero(sym.dist);
    }
  }

  // ----- Bits above a footer do not show in it -----

  lemma {:induction false} ShrPlus(k: nat, n: nat, x: nat, j: nat)
    requires j <= n
    ensures Shr(k * Pow2(n) + x, j) == k * Pow2(n - j) + Shr(x, j)
  {
    if j > 0 {
      ShrPlus(k, n, x, j - 1);
      Twice(k, n - j);
    }
  }

  lemma Twice(k: nat, n: nat)
    ensures k * Pow2(n + 1) == 2 * (k * Pow2(n))
  {
  }

  lemma BitBelow(k: nat, n: nat, x: nat, j: nat)
    requires j < n
    ensures BitOf(k * Pow2(n) + x, j) == BitOf(x, j)
  {
    hide Shr, Pow2;
    ShrPlus(k, n, x, j);
    Twice(k, n - j - 1);
    EvenPlus(k * Pow2(n - j - 1), Shr(x, j));
  }

  lemma {:induction false} ReversePutSame(e: Enc, t: Tree, i: nat, n: nat, m: nat, x: nat, y: nat)
    requires TreeOk(t) && m >= 1 && e.cacheSize >= 1 && i <= n
    requires forall j | i <= j < n :: BitOf(x, j) == BitOf(y, j)
    ensures ReversePut(e, t, i, n, m, x) == ReversePut(e, t, i, n, m, y)
    decreases n - i
  {
    hide Put, BitOf;
    if i < n {
      var b := BitOf(x, i);
      ReversePutSame(Put(e, Adaptive(TreeCell(t, m)), b), t, i + 1, n, 2 * m + b, x, y);
    }
  }

  lemma {:induction false} EvenPutSame(e: Enc, n: nat, x: nat, y: nat)
    requires e.cacheSize >= 1 && forall j | 0 <= j < n :: BitOf(x, j) == BitOf(y, j)
    ensures EvenPut(e, n, x) == EvenPut(e, n, y)
    decreases n
  {
    hide Put, BitOf;
    if n > 0 {
      EvenPutSame(Put(e, Direct, BitOf(x, n - 1)), n - 1, x, y);
    }
  }
}
