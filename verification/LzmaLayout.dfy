/** The decoder keeps all probabilities in one array. */
module LzmaLayout {
  import opened Numbers
  import opened RangeCoder
  import opened LzmaSymbols
  import opened LzmaLookahead
  import opened LzmaMachine

  const IS_MATCH: int := 0
  const IS_REP: int := IS_MATCH + 12 * 16
  const IS_REP_G0: int := IS_REP + 12
  const IS_REP_G1: int := IS_REP_G0 + 12
  const IS_REP_G2: int := IS_REP_G1 + 12
  const IS_REP0_LONG: int := IS_REP_G2 + 12
  const POS_SLOT: int := IS_REP0_LONG + 12 * 16
  const SPEC_POS: int := POS_SLOT + 4 * 64
  const ALIGN: int := SPEC_POS + 128 - 14
  const LEN_CODER: int := ALIGN + 16
  const LEN_CHOICE: int := 0
  const LEN_CHOICE2: int := LEN_CHOICE + 1
  const LEN_LOW: int := LEN_CHOICE2 + 1
  const LEN_MID: int := LEN_LOW + 16 * 8
  const LEN_HIGH: int := LEN_MID + 16 * 8
  const NUM_LEN_PROBS: int := LEN_HIGH + 256
  const REP_LEN_CODER: int := LEN_CODER + NUM_LEN_PROBS
  const LITERAL: int := REP_LEN_CODER + NUM_LEN_PROBS
  const LIT_SIZE: int := 768

  function NumProbs(pr: Props): nat {
    LITERAL + LIT_SIZE * Pow2(pr.lc + pr.lp)
  }

  function LenCoderBase(rep: bool): nat {
    if rep then REP_LEN_CODER else LEN_CODER
  }

  /** The cells that exist. */
  predicate CellOk(pr: Props, c: Cell) {
    match c
    case IsMatch(state, posState) => state < 12 && posState < 16
    case IsRep(state) => state < 12
    case IsRepG0(state) => state < 12
    case IsRepG1(state) => state < 12
    case IsRepG2(state) => state < 12
    case IsRep0Long(state, posState) => state < 12 && posState < 16
    case PosSlot(lenState, m) => lenState < 4 && m < 64
    case SpecPos(i) => i < 128 - 14
    case Align(m) => m < 16
    case LenChoice(_) => true
    case LenChoice2(_) => true
    case LenLow(_, posState, m) => posState < 16 && m < 8
    case LenMid(_, posState, m) => posState < 16 && m < 8
    case LenHigh(_, m) => m < 256
    case LitProb(ctx, m) => ctx < Pow2(pr.lc + pr.lp) && m < LIT_SIZE
  }

  /** Where a cell lies in the array. */
  function Off(c: Cell): nat {
    match c
    case IsMatch(state, posState) => IS_MATCH + state * 16 + posState
    case IsRep(state) => IS_REP + state
    case IsRepG0(state) => IS_REP_G0 + state
    case IsRepG1(state) => IS_REP_G1 + state
    case IsRepG2(state) => IS_REP_G2 + state
    case IsRep0Long(state, posState) => IS_REP0_LONG + state * 16 + posState
    case PosSlot(lenState, m) => POS_SLOT + lenState * 64 + m
    case SpecPos(i) => SPEC_POS + i
    case Align(m) => ALIGN + m
    case LenChoice(rep) => LenCoderBase(rep) + LEN_CHOICE
    case LenChoice2(rep) => LenCoderBase(rep) + LEN_CHOICE2
    case LenLow(rep, posState, m) => LenCoderBase(rep) + LEN_LOW + posState * 8 + m
    case LenMid(rep, posState, m) => LenCoderBase(rep) + LEN_MID + posState * 8 + m
    case LenHigh(rep, m) => LenCoderBase(rep) + LEN_HIGH + m
    case LitProb(ctx, m) => LITERAL + LIT_SIZE * ctx + m
  }

  /** The regions of the array in order; the two length coders have five each. */
  function Region(c: Cell): nat {
    match c
    case IsMatch(_, _) => 0
    case IsRep(_) => 1
    case IsRepG0(_) => 2
    case IsRepG1(_) => 3
    case IsRepG2(_) => 4
    case IsRep0Long(_, _) => 5
    case PosSlot(_, _) => 6
    case SpecPos(_) => 7
    case Align(_) => 8
    case LenChoice(rep) => if rep then 14 else 9
    case LenChoice2(rep) => if rep then 15 else 10
    case LenLow(rep, _, _) => if rep then 16 else 11
    case LenMid(rep, _, _) => if rep then 17 else 12
    case LenHigh(rep, _) => if rep then 18 else 13
    case LitProb(_, _) => 19
  }

  function RegionStart(r: nat): nat {
    if r < 10 then
      [IS_MATCH, IS_REP, IS_REP_G0, IS_REP_G1, IS_REP_G2, IS_REP0_LONG, POS_SLOT, SPEC_POS, ALIGN, LEN_CODER][r]
    else if r < 14 then LEN_CODER + [LEN_CHOICE2, LEN_LOW, LEN_MID, LEN_HIGH][r - 10]
    else if r < 19 then REP_LEN_CODER + [LEN_CHOICE, LEN_CHOICE2, LEN_LOW, LEN_MID, LEN_HIGH][r - 14]
    else LITERAL
  }

  lemma OffInRegion(pr: Props, c: Cell)
    requires CellOk(pr, c)
    ensures RegionStart(Region(c)) <= Off(c) < NumProbs(pr)
    ensures Region(c) < 19 ==> Off(c) < RegionStart(Region(c) + 1)
  {
    if c.LitProb? {
      MulMonotone(LIT_SIZE, c.ctx + 1, Pow2(pr.lc + pr.lp));
    }
  }

  lemma RegionsAscend(a: nat, b: nat)
    requires a < b <= 19
    ensures RegionStart(a + 1) <= RegionStart(b)
    decreases b
  {
    if a + 1 < b { RegionsAscend(a, b - 1); }
  }

  lemma SameRegion(pr: Props, c: Cell, c': Cell)
    requires CellOk(pr, c) && CellOk(pr, c') && Off(c) == Off(c')
    ensures Region(c) == Region(c')
  {
    hide Off, Region, RegionStart, CellOk;
    OffInRegion(pr, c);
    OffInRegion(pr, c');
    RegionBound(c);
    RegionBound(c');
    if Region(c) < Region(c') {
      RegionsAscend(Region(c), Region(c'));
    } else if Region(c') < Region(c) {
      RegionsAscend(Region(c'), Region(c));
    }
  }

  lemma RegionBound(c: Cell)
    ensures Region(c) <= 19
  {
  }

  lemma Grid(w: nat, a: nat, b: nat, a': nat, b': nat)
    requires w > 0 && b < w && b' < w && w * a + b == w * a' + b'
    ensures a == a' && b == b'
  {
    QuotientUnique(w * a + b, w, a, b);
    QuotientUnique(w * a' + b', w, a', b');
  }

  lemma InjectiveInRegion(pr: Props, c: Cell, c': Cell)
    requires CellOk(pr, c) && CellOk(pr, c') && Off(c) == Off(c') && Region(c) == Region(c')
    ensures c == c'
  {
    hide Pow2;
    match c
    case IsMatch(a, b) => Grid(16, a, b, c'.state, c'.posState);
    case IsRep0Long(a, b) => Grid(16, a, b, c'.state, c'.posState);
    case PosSlot(a, b) => Grid(64, a, b, c'.lenState, c'.m);
    case LitProb(a, b) => Grid(LIT_SIZE, a, b, c'.ctx, c'.m);
    case LenLow(_, _, _) => InjectiveLens(pr, c, c');
    case LenMid(_, _, _) => InjectiveLens(pr, c, c');
    case _ =>
  }

  lemma InjectiveLens(pr: Props, c: Cell, c': Cell)
    requires CellOk(pr, c) && CellOk(pr, c') && Off(c) == Off(c') && Region(c) == Region(c') && (c.LenLow? || c.LenMid?)
    ensures c == c'
  {
    hide Pow2;
    assert (c.LenLow? <==> c'.LenLow?) && (c.LenMid? <==> c'.LenMid?) && c'.rep == c.rep;
    Grid(8, c.posState, c.m, c'.posState, c'.m);
  }

  /** No two cells share a place. */
  lemma OffInjective(pr: Props, c: Cell, c': Cell)
    requires CellOk(pr, c) && CellOk(pr, c') && Off(c) == Off(c')
    ensures c == c'
  {
    SameRegion(pr, c, c');
    InjectiveInRegion(pr, c, c');
  }

  predicate CtxOk(pr: Props, ctx: Ctx) {
    ctx.state < 12 && ctx.posState < 16 && ctx.litCtx < Pow2(pr.lc + pr.lp)
  }

  lemma QueryCellOk(pr: Props, ctx: Ctx, p: Phase)
    requires CtxOk(pr, ctx) && Wf(p) && !p.Done? && !p.Even?
    ensures CellOk(pr, QueryOf(ctx, p).cell)
  {
    hide Pow2, SlotBase;
    match p
    case Lit(n, m, offs) => TreeIndexBound(8, n, m);
    case Len(k, part, n, m) => TreeIndexBound(PartBits(part), n, m); Pow2Values();
    case Slot(len, n, m) => TreeIndexBound(6, n, m); Pow2Values();
    case Spec(_, _, _, _, _) => SpecIndexBound(p);
    case Aligned(_, i, m, _) => Pow2Monotone(i + 1, 4); Pow2Values();
    case _ =>
  }

  lemma LowBound(x: nat, n: nat)
    ensures Low(x, n) < Pow2(n)
  {
  }

  lemma ByteTopBits(b: byte, n: nat)
    requires n <= 8
    ensures Shr(b, 8 - n) < Pow2(n)
  {
    ShrIsQuotient(b, 8 - n);
    Pow2Add(8 - n, n);
    Pow2Values();
    if b / Pow2(8 - n) >= Pow2(n) {
      MulMonotone(Pow2(8 - n), Pow2(n), b / Pow2(8 - n));
    }
  }

  lemma CtxOfOk(pr: Props, state: nat, rep0: nat, out: seq<byte>)
    requires PropsOk(pr) && state < 12
    ensures CtxOk(pr, CtxOf(pr, state, rep0, out))
  {
    hide Low, Shr;
    LowBound(|out|, pr.pb);
    Pow2Monotone(pr.pb, 4);
    Pow2Values();
    if |out| > 0 { LitCtxBound(pr, |out|, out[|out| - 1]); }
  }

  lemma LitCtxBound(pr: Props, pos: nat, prev: byte)
    requires PropsOk(pr)
    ensures LitCtx(pr, pos, prev) < Pow2(pr.lc + pr.lp)
  {
    hide Low, Shr, Pow2;
    LowBound(pos, pr.lp);
    ByteTopBits(prev, pr.lc);
    Pow2Add(pr.lp, pr.lc);
    assert pr.lp + pr.lc == pr.lc + pr.lp;
    GridBound(Pow2(pr.lp), Pow2(pr.lc), Low(pos, pr.lp), Shr(prev, 8 - pr.lc));
  }

  lemma GridBound(a: nat, b: nat, x: nat, y: nat)
    requires x < a && y < b
    ensures x * b + y < a * b
  {
    MulMonotone(b, x + 1, a);
  }

  /** The array holds these cells. */
  ghost predicate Holds(pr: Props, probs: seq<nat>, ps: Probs) {
    |probs| == NumProbs(pr)
    && forall c | CellOk(pr, c) :: OffInRange(pr, c) && probs[Off(c)] == Prob(ps, c)
  }

  predicate OffInRange(pr: Props, c: Cell) {
    Off(c) < NumProbs(pr)
  }

  lemma HoldsAt(pr: Props, probs: seq<nat>, ps: Probs, c: Cell)
    requires Holds(pr, probs, ps) && CellOk(pr, c)
    ensures Off(c) < |probs| && probs[Off(c)] == Prob(ps, c)
  {
    assert OffInRange(pr, c);
  }

  /** Storing one cell changes no other. */
  lemma HoldsUpdate(pr: Props, probs: seq<nat>, ps: Probs, c: Cell, v: prob)
    requires Holds(pr, probs, ps) && CellOk(pr, c) && Off(c) < |probs|
    ensures Holds(pr, probs[Off(c) := v], ps[c := v])
  {
    forall c' | CellOk(pr, c')
      ensures OffInRange(pr, c') && probs[Off(c) := v][Off(c')] == Prob(ps[c := v], c')
    {
      assert OffInRange(pr, c');
      if Off(c') == Off(c) { OffInjective(pr, c, c'); }
    }
  }

  lemma HoldsInit(pr: Props, probs: seq<nat>)
    requires |probs| == NumProbs(pr) && forall i | 0 <= i < |probs| :: probs[i] == PROB_INIT
    ensures Holds(pr, probs, map[])
  {
    forall c | CellOk(pr, c) ensures OffInRange(pr, c) && probs[Off(c)] == Prob(map[], c) {
      OffInRegion(pr, c);
    }
  }
}
