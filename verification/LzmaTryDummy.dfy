/** LzmaDec.c, LzmaDec_TryDummy: does the input at hand hold a whole symbol, and of which kind?
    A second walk over the decision tree, on local copies of `range`, `code` and `buf`, that
    changes no probability. */
module LzmaTryDummy {
  import opened Numbers
  import opened RangeCoder
  import opened LzmaSymbols
  import opened LzmaLookahead
  import opened LzmaMachine
  import opened LzmaStreaming
  import opened LzmaLayout
  import opened LzmaDictionary
  import opened RangeEncoder
  import opened LzmaDecoder

  datatype Dummy = DUMMY_ERROR | DUMMY_LIT | DUMMY_MATCH | DUMMY_REP

  datatype Locals = Locals(range: nat, code: nat, buf: nat)

  /** The stream, where the input at hand starts in it, and the symbol that lies there. */
  datatype View = View(t: seq<byte>, base: nat, ctx: Ctx, goal: (Symbol, Dec))

  ghost function LocalDec(p: LzmaDec, loc: Locals, v: View): Dec
    reads p`cells
  {
    Dec(loc.range, loc.code, v.base + loc.buf, p.cells)
  }

  ghost predicate Peeking(p: LzmaDec, src: seq<byte>, v: View)
    reads p`cells, p.probs
  {
    p.Sized() && Holds(p.pr, p.probs[..], p.cells) && v.base + |src| == |v.t| && v.t[v.base..] == src &&
      CtxOk(p.pr, v.ctx)
  }

  /** The walk has come to `ph`. */
  ghost predicate At(p: LzmaDec, src: seq<byte>, loc: Locals, v: View, ph: Phase)
    reads p`cells, p.probs
  {
    Peeking(p, src, v) && loc.buf <= |src| && Wf(ph) && Run(v.t, LocalDec(p, loc, v), v.ctx, ph, false) == v.goal
  }

  /** The walk is over: the bits of the symbol are all there. */
  ghost predicate Landed(p: LzmaDec, src: seq<byte>, loc: Locals, v: View)
    reads p`cells, p.probs
  {
    Peeking(p, src, v) && loc.buf <= |src| && LocalDec(p, loc, v) == v.goal.1
  }

  /** The input ends inside the symbol. */
  ghost predicate Short(v: View) {
    v.goal.1.pos > |v.t|
  }

  lemma AtDone(p: LzmaDec, src: seq<byte>, loc: Locals, v: View, ph: Phase)
    requires At(p, src, loc, v, ph)
    ensures ph.Done? ==> Landed(p, src, loc, v)
  {
    hide Holds;
  }

  /** NORMALIZE_CHECK */
  method NormalizeCheck(p: LzmaDec, src: seq<byte>, loc: Locals, ghost v: View) returns (ok: bool, next: Locals)
    requires Peeking(p, src, v) && loc.buf <= |src|
    ensures ok ==> LocalDec(p, next, v) == Normalize(v.t, LocalDec(p, loc, v)) && next.buf <= |src|
    ensures !ok ==> Normalize(v.t, LocalDec(p, loc, v)).pos > |v.t|
  {
    hide Holds;
    ok, next := true, loc;
    if loc.range < TOP {
      if loc.buf >= |src| { return false, loc; }
      assert v.t[v.base..][loc.buf] == v.t[v.base + loc.buf];
      next := Locals(Shl8(loc.range), Shl8(loc.code) + src[loc.buf], loc.buf + 1);
    }
  }

  /** GET_BIT_CHECK: `idx` is the place of the cell that the next decision uses. */
  method DummyBit(p: LzmaDec, src: seq<byte>, idx: nat, loc: Locals, ghost v: View, ghost ph: Phase)
    returns (ok: bool, b: bit, next: Locals)
    requires At(p, src, loc, v, ph) && !ph.Done? && !ph.Even? && idx == Off(QueryOf(v.ctx, ph).cell)
    ensures if ok then Wf(Next(v.ctx, ph, b)) && At(p, src, next, v, Next(v.ctx, ph, b)) else Short(v)
  {
    hide Run, Holds, CellOk, Next, Wf, Off, Normalize, CtxOk;
    ghost var c := QueryOf(v.ctx, ph).cell;
    ghost var d := LocalDec(p, loc, v);
    RunStep(v.t, d, v.ctx, ph, false);
    AskedInside(v.t, d, v.ctx, ph, false, v.goal);
    QueryCellOk(p.pr, v.ctx, ph);
    HoldsAt(p.pr, p.probs[..], p.cells, c);
    var ttt := p.probs[idx];
    ok, next := NormalizeCheck(p, src, loc, v);
    b := 0;
    if !ok { return; }
    BoundBelow(next.range, ttt);
    var bound := next.range / BIT_TOTAL * ttt;
    if next.code < bound {
      next := next.(range := bound);
    } else {
      next := next.(range := next.range - bound, code := next.code - bound);
      b := 1;
    }
  }

  /** One direct bit: `code -= range & (((code - range) >> 31) - 1)`. */
  method DummyEven(p: LzmaDec, src: seq<byte>, loc: Locals, ghost v: View, ghost ph: Phase)
    returns (ok: bool, ghost b: bit, next: Locals)
    requires At(p, src, loc, v, ph) && ph.Even?
    ensures if ok then Wf(Next(v.ctx, ph, b)) && At(p, src, next, v, Next(v.ctx, ph, b)) else Short(v)
  {
    hide Run, Holds, Next, Wf, Normalize, CtxOk;
    ghost var d := LocalDec(p, loc, v);
    RunStep(v.t, d, v.ctx, ph, false);
    AskedInside(v.t, d, v.ctx, ph, false, v.goal);
    ok, next := NormalizeCheck(p, src, loc, v);
    b := 0;
    if !ok { return; }
    var range := next.range / 2;
    var mask := Sub32(Sub32(next.code, range) / 0x8000_0000, 1);
    SameStep(range, next.code);
    b := DirectStep(range, next.code).0;
    next := next.(range := range, code := Sub32(next.code, if mask == 0 then 0 else range));
  }

  lemma SameStep(range: nat, code: nat)
    ensures DirectStep(range, code).1
      == Sub32(code, if Sub32(Sub32(code, range) / 0x8000_0000, 1) == 0 then 0 else range)
  {
  }

  /** TREE_DECODE_CHECK */
  method DummyTree(p: LzmaDec, src: seq<byte>, prob: nat, limit: nat, loc: Locals, ghost v: View, ghost tt: TopTree)
    returns (ok: bool, x: nat, next: Locals)
    requires prob == TreeBase(v.ctx, tt) && limit == Pow2(TreeBits(tt)) && Wf(TreePhase(tt, TreeBits(tt), 1))
    requires At(p, src, loc, v, TreePhase(tt, TreeBits(tt), 1))
    ensures if ok then x < limit && Wf(TreeEnd(tt, x)) && At(p, src, next, v, TreeEnd(tt, x)) else Short(v)
  {
    hide At, Next, Wf, Pow2, QueryOf, Off, TreeEnd, TreeBase;
    ghost var n: nat := TreeBits(tt);
    var i: nat := 1;
    var b: bit;
    x := 0;
    TreeOff(v.ctx, tt, n, i);
    ok, b, next := DummyBit(p, src, prob + i, loc, v, TreePhase(tt, n, i));
    if !ok { return; }
    TreeNext(v.ctx, tt, n, i, b);
    i := 2 * i + b;
    n := n - 1;
    while i < limit
      invariant ok && (n > 0 <==> i < limit) && i < 2 * limit
      invariant n > 0 ==> Wf(TreePhase(tt, n, i)) && At(p, src, next, v, TreePhase(tt, n, i))
      invariant n == 0 ==> Wf(TreeEnd(tt, i - limit)) && At(p, src, next, v, TreeEnd(tt, i - limit))
      decreases n
    {
      TreeOff(v.ctx, tt, n, i);
      ok, b, next := DummyBit(p, src, prob + i, next, v, TreePhase(tt, n, i));
      if !ok { return; }
      TreeNext(v.ctx, tt, n, i, b);
      i := 2 * i + b;
      n := n - 1;
    }
    x := i - limit;
  }

  method DummyLiteral(p: LzmaDec, src: seq<byte>, prob: nat, loc: Locals, ghost v: View)
    returns (ok: bool, next: Locals)
    requires prob == LITERAL + LIT_SIZE * v.ctx.litCtx && At(p, src, loc, v, Lit(8, 1, false))
    ensures if ok then Landed(p, src, next, v) else Short(v)
  {
    hide At, Next, Wf, Pow2, QueryOf, Off, Landed;
    ghost var n: nat := 8;
    var symbol: nat := 1;
    var b: bit;
    ok, next := true, loc;
    LitStart(v.ctx);
    while symbol < 0x100
      invariant ok && (n > 0 <==> symbol < 0x100) && symbol < 0x200
      invariant n > 0 ==> Wf(Lit(n, symbol, false)) && At(p, src, next, v, Lit(n, symbol, false))
      invariant n == 0 ==> Landed(p, src, next, v)
      decreases n
    {
      LitOff(v.ctx, n, symbol, false);
      ok, b, next := DummyBit(p, src, prob + symbol, next, v, Lit(n, symbol, false));
      if !ok { return; }
      LitNext(v.ctx, n, symbol, false, b);
      AtDone(p, src, next, v, Next(v.ctx, Lit(n, symbol, false), b));
      symbol := 2 * symbol + b;
      n := n - 1;
    }
  }

  lemma LitStart(ctx: Ctx)
    ensures Wf(Lit(8, 1, false)) && Wf(Lit(8, 1, true))
  {
    Pow2Values();
  }

  method DummyMatched(p: LzmaDec, src: seq<byte>, prob: nat, matchByte: byte, loc: Locals, ghost v: View)
    returns (ok: bool, next: Locals)
    requires prob == LITERAL + LIT_SIZE * v.ctx.litCtx && At(p, src, loc, v, Lit(8, 1, true))
    requires matchByte == v.ctx.matchByte
    ensures if ok then Landed(p, src, next, v) else Short(v)
  {
    hide At, Next, Wf, Pow2, QueryOf, Off, Landed, BitOf, Window;
    ghost var n: nat := 8;
    var symbol: nat, mb: nat, offs: nat := 1, matchByte, 0x100;
    var b: bit;
    ok, next := true, loc;
    LitStart(v.ctx);
    MatchStart(matchByte);
    while symbol < 0x100
      invariant ok && (n > 0 <==> symbol < 0x100) && symbol < 0x200
      invariant n <= 8 && mb == Window(matchByte, n) && (offs == 0 || offs == 0x100)
      invariant n > 0 ==>
        Wf(Lit(n, symbol, offs == 0x100)) && At(p, src, next, v, Lit(n, symbol, offs == 0x100))
      invariant n == 0 ==> Landed(p, src, next, v)
      decreases n
    {
      ghost var ph := Lit(n, symbol, offs == 0x100);
      LitOff(v.ctx, n, symbol, offs == 0x100);
      MatchStep(matchByte, n, mb);
      mb := mb * 2;
      var bit := AndOffs(mb, offs);
      ok, b, next := DummyBit(p, src, prob + offs + bit + symbol, next, v, ph);
      if !ok { return; }
      LitNext(v.ctx, n, symbol, offs == 0x100, b);
      AtDone(p, src, next, v, Next(v.ctx, ph, b));
      if b == 0 {
        offs := if bit == 0 then offs else 0;        // offs &= ~bit
      } else {
        offs := if bit == 0 then 0 else offs;        // offs &= bit
      }
      symbol := 2 * symbol + b;
      n := n - 1;
    }
  }

  method DummyLen(p: LzmaDec, src: seq<byte>, prob: nat, posState: nat, loc: Locals, ghost v: View, ghost kind: Kind)
    returns (ok: bool, len: nat, next: Locals)
    requires At(p, src, loc, v, Choice(kind)) && prob == LenCoderBase(kind.KRep?) && posState == v.ctx.posState
    ensures if ok then len < 272 && At(p, src, next, v, EndLen(kind, len)) else Short(v)
  {
    hide At, Wf, Pow2;
    Pow2Values();
    ChoiceWf(kind);
    var offset: nat, limit: nat, probLen: nat;
    var b: bit;
    ghost var part: nat;
    len := 0;
    ok, b, next := DummyBit(p, src, prob + LEN_CHOICE, loc, v, Choice(kind));
    if !ok { return; }
    if b == 0 {
      probLen, offset, limit := prob + LEN_LOW + posState * 8, 0, 8;
      part := 0;
    } else {
      ok, b, next := DummyBit(p, src, prob + LEN_CHOICE2, next, v, Choice2(kind));
      if !ok { return; }
      if b == 0 {
        probLen, offset, limit := prob + LEN_MID + posState * 8, 8, 8;
        part := 1;
      } else {
        probLen, offset, limit := prob + LEN_HIGH, 8 + 8, 256;
        part := 2;
      }
    }
    TreeStart(LenBits(kind, part));
    ok, len, next := DummyTree(p, src, probLen, limit, next, v, LenBits(kind, part));
    len := len + offset;
  }

  method DummyDistance(p: LzmaDec, src: seq<byte>, len: nat, loc: Locals, ghost v: View)
    returns (ok: bool, next: Locals)
    requires At(p, src, loc, v, Slot(len + 2, 6, 1)) && len < 272 && Wf(Slot(len + 2, 6, 1))
    ensures if ok then Landed(p, src, next, v) else Short(v)
  {
    hide At, Wf, Pow2, Next, SlotBase, Landed;
    Pow2Values();
    var posSlot: nat;
    ok, posSlot, next :=
      DummyTree(p, src, POS_SLOT + (if len < 4 then len else 3) * 64, 64, loc, v, SlotBits(len + 2));
    if !ok { return; }
    AtDone(p, src, next, v, EndSlot(len + 2, posSlot));
    if posSlot >= 4 {
      if posSlot < 14 {
        ok, next := DummySpec(p, src, posSlot, len, next, v);
      } else {
        ghost var dist: nat;
        ok, dist, next := DummyDirect(p, src, posSlot, len, next, v);
        if ok { ok, next := DummyAlign(p, src, dist, len, next, v); }
      }
    }
  }

  method DummySpec(p: LzmaDec, src: seq<byte>, posSlot: nat, ghost len: nat, loc: Locals, ghost v: View)
    returns (ok: bool, next: Locals)
    requires ValidLen(len + 2) && 4 <= posSlot < 14 && At(p, src, loc, v, EndSlot(len + 2, posSlot))
    ensures if ok then Landed(p, src, next, v) else Short(v)
  {
    hide At, Wf, Pow2, Next, SlotBase, Off, QueryOf, Landed;
    var numDirectBits: nat := posSlot / 2 - 1;
    var prob: int := SPEC_POS + SlotBase(posSlot) - posSlot - 1;
    var i: nat := 1;
    ghost var j: nat, dist: nat := 0, SlotBase(posSlot);
    var b: bit;
    ok, next := true, loc;
    EndSlotWf(len + 2, posSlot);
    while numDirectBits != 0
      invariant ok && j + numDirectBits == Footer(posSlot)
      invariant numDirectBits > 0 ==>
        Wf(Spec(len + 2, posSlot, j, i, dist)) && At(p, src, next, v, Spec(len + 2, posSlot, j, i, dist))
      invariant numDirectBits == 0 ==> Landed(p, src, next, v)
      decreases numDirectBits
    {
      ghost var ph := Spec(len + 2, posSlot, j, i, dist);
      SpecOff(v.ctx, len + 2, posSlot, j, i, dist);
      ok, b, next := DummyBit(p, src, prob + i, next, v, ph);
      if !ok { return; }
      SpecNext(v.ctx, len + 2, posSlot, j, i, dist, b);
      AtDone(p, src, next, v, Next(v.ctx, ph, b));
      if b == 1 { dist := dist + Pow2(j); }
      i := 2 * i + b;
      j := j + 1;
      numDirectBits := numDirectBits - 1;
    }
  }

  method DummyDirect(p: LzmaDec, src: seq<byte>, posSlot: nat, ghost len: nat, loc: Locals, ghost v: View)
    returns (ok: bool, ghost dist: nat, next: Locals)
    requires ValidLen(len + 2) && 14 <= posSlot < 64 && At(p, src, loc, v, EndSlot(len + 2, posSlot))
    ensures if ok then At(p, src, next, v, Aligned(len + 2, 0, 1, dist * 16)) else Short(v)
  {
    hide At, Wf, Pow2, Next;
    var numDirectBits: nat := posSlot / 2 - 1 - 4;
    dist := 2 + posSlot % 2;
    ok, next := true, loc;
    EndSlotWf(len + 2, posSlot);
    while numDirectBits != 0
      invariant ok
      invariant numDirectBits > 0 ==> var ph := Even(len + 2, posSlot, numDirectBits, dist);
        Wf(ph) && At(p, src, next, v, ph)
      invariant numDirectBits == 0 ==> At(p, src, next, v, Aligned(len + 2, 0, 1, dist * 16))
      decreases numDirectBits
    {
      ghost var b: bit;
      ok, b, next := DummyEven(p, src, next, v, Even(len + 2, posSlot, numDirectBits, dist));
      if !ok { return; }
      EvenNext(v.ctx, len + 2, posSlot, numDirectBits, dist, b);
      dist := 2 * dist + b;
      numDirectBits := numDirectBits - 1;
    }
  }

  method DummyAlign(p: LzmaDec, src: seq<byte>, ghost high: nat, ghost len: nat, loc: Locals, ghost v: View)
    returns (ok: bool, next: Locals)
    requires ValidLen(len + 2) && At(p, src, loc, v, Aligned(len + 2, 0, 1, high * 16))
    ensures if ok then Landed(p, src, next, v) else Short(v)
  {
    hide Run, Holds, Pow2, Next, Landed, Off, QueryOf, Peeking;
    var numDirectBits: nat, i: nat := 4, 1;
    ghost var j: nat, dist: nat := 0, high * 16;
    var b: bit;
    ok, next := true, loc;
    while numDirectBits != 0
      invariant ok && j + numDirectBits == 4
      invariant numDirectBits > 0 ==>
        Wf(Aligned(len + 2, j, i, dist)) && At(p, src, next, v, Aligned(len + 2, j, i, dist))
      invariant numDirectBits == 0 ==> Landed(p, src, next, v)
      decreases numDirectBits
    {
      ghost var ph := Aligned(len + 2, j, i, dist);
      AlignNext(v.ctx, len + 2, j, i, dist);
      ok, b, next := DummyBit(p, src, ALIGN + i, next, v, ph);
      if !ok { return; }
      AtDone(p, src, next, v, Next(v.ctx, ph, b));
      dist := dist + b * Pow2(j);
      i := 2 * i + b;
      j := j + 1;
      numDirectBits := numDirectBits - 1;
    }
  }

  // ----- The whole symbol -----

  /** The decoder stands between two symbols of the stream `t`, at `base`, with nothing left to
      write, and `src` is the rest of the stream. */
  ghost predicate Between(p: LzmaDec, src: seq<byte>, t: seq<byte>, base: nat)
    reads p, p.probs, p.reps, p.dic
  {
    p.Sized() && Holds(p.pr, p.probs[..], p.cells) && p.Written() && p.Checked() && MachOk(p.pr, p.m)
    && p.state == p.m.state && p.RepsAre(p.m.reps) && p.w == p.m.out
    && p.m.d == Dec(p.range, p.code, base, p.cells) && base + |src| == |t| && t[base..] == src
  }

  ghost function ViewOf(pr: Props, t: seq<byte>, m: Mach): View
    requires PropsOk(pr)
  {
    var ctx := CtxOf(pr, m.state, m.reps.r0, m.out);
    View(t, m.d.pos, ctx, Run(t, m.d, ctx, Start, false))
  }

  /** The walk ends where decoding would end, with the same symbol. */
  lemma ViewAgrees(pr: Props, t: seq<byte>, m: Mach)
    requires MachOk(pr, m)
    ensures var goal := ViewOf(pr, t, m).goal;
      goal.0 == Decoded(pr, t, m).0 && Normalize(t, goal.1).pos >= goal.1.pos
      && (StepFits(pr, t, m) <==> Normalize(t, goal.1).pos <= |t|)
  {
    hide Run, CtxOf;
    var ctx := CtxOf(pr, m.state, m.reps.r0, m.out);
    assert SameFrom(m.d.probs, m.d.probs, PhaseRank(ctx, Start));
    DummyAgrees(t, m.d, m.d, ctx, Start);
    SameNormalize(t, Run(t, m.d, ctx, Start, true).1, Run(t, m.d, ctx, Start, false).1);
  }

  lemma SameNormalize(t: seq<byte>, d: Dec, d': Dec)
    requires SameCoder(d, d')
    ensures d'.pos <= Normalize(t, d').pos == Normalize(t, d).pos
  {
  }

  predicate KindMatches(res: Dummy, sym: Symbol) {
    match res
    case DUMMY_ERROR => false
    case DUMMY_LIT => sym.Literal?
    case DUMMY_MATCH => sym.Match?
    case DUMMY_REP => sym.Rep? || sym.ShortRep?
  }

  lemma ViewStart(p: LzmaDec, src: seq<byte>, t: seq<byte>, base: nat, v: View)
    requires Between(p, src, t, base) && v == ViewOf(p.pr, t, p.m) && CtxOk(p.pr, v.ctx)
    ensures At(p, src, Locals(p.range, p.code, 0), v, Start) && v.ctx.state == p.state
    ensures v.ctx.posState == Low(|p.w|, p.pr.pb)
  {
    hide Run, Holds, CtxOk, MachOk, Low, Shr, DicHolds;
  }

  method DummyLit(p: LzmaDec, src: seq<byte>, ghost t: seq<byte>, ghost base: nat, loc: Locals, ghost v: View)
    returns (ok: bool, next: Locals)
    requires Between(p, src, t, base) && v == ViewOf(p.pr, t, p.m) && At(p, src, loc, v, Lit(8, 1, p.state >= 7))
    ensures if ok then Landed(p, src, next, v) else Short(v)
  {
    hide Run, Holds, CtxOk, Low, LitCtx, DicHolds, At, Landed;
    var prob := p.LiteralProb(v.ctx);
    if p.state < 7 {
      ok, next := DummyLiteral(p, src, prob, loc, v);
    } else {
      RepZero(p.pr, p.m);
      DicAt(p.pr, p.dic[..], p.dicPos, p.w, p.reps[0]);
      var matchByte := p.dic[DicIndex(p.dicPos, p.reps[0], p.dic.Length)];
      ok, next := DummyMatched(p, src, prob, matchByte, loc, v);
    }
  }

  method DummyMatch(p: LzmaDec, src: seq<byte>, posState: nat, loc: Locals, ghost v: View)
    returns (ok: bool, next: Locals)
    requires At(p, src, loc, v, Choice(KMatch)) && posState == v.ctx.posState
    ensures if ok then Landed(p, src, next, v) else Short(v)
  {
    hide Run, Peeking, Landed;
    var len: nat;
    ok, len, next := DummyLen(p, src, LEN_CODER, posState, loc, v, KMatch);
    if ok { ok, next := DummyDistance(p, src, len, next, v); }
  }

  method DummyRep(p: LzmaDec, src: seq<byte>, posState: nat, loc: Locals, ghost v: View)
    returns (ok: bool, next: Locals)
    requires At(p, src, loc, v, AskG0) && posState == v.ctx.posState && p.state == v.ctx.state
    ensures if ok then Landed(p, src, next, v) else Short(v)
  {
    hide At, Landed;
    var b: bit;
    var len: nat;
    ghost var i: nat := 0;
    ok, b, next := DummyBit(p, src, IS_REP_G0 + p.state, loc, v, AskG0);
    if !ok { return; }
    if b == 0 {
      ok, b, next := DummyBit(p, src, IS_REP0_LONG + p.state * 16 + posState, next, v, AskG0Long);
      if !ok { return; }
      if b == 0 {
        AtDone(p, src, next, v, Done(ShortRep));
        return;
      }
    } else {
      ok, b, next := DummyBit(p, src, IS_REP_G1 + p.state, next, v, AskG1);
      if !ok { return; }
      i := 1;
      if b == 1 {
        ok, b, next := DummyBit(p, src, IS_REP_G2 + p.state, next, v, AskG2);
        if !ok { return; }
        i := 2 + b;
      }
    }
    ok, len, next := DummyLen(p, src, REP_LEN_CODER, posState, next, v, KRep(i));
    if ok { AtDone(p, src, next, v, EndLen(KRep(i), len)); }
  }

  method DummyBody(p: LzmaDec, src: seq<byte>, ghost t: seq<byte>, ghost base: nat, ghost v: View)
    returns (ok: bool, res: Dummy, loc: Locals)
    requires Between(p, src, t, base) && v == ViewOf(p.pr, t, p.m)
    ensures if ok then Landed(p, src, loc, v) && KindMatches(res, v.goal.0) else Short(v)
  {
    hide Run, Holds, CtxOk, Landed, MachOk, Low, CtxOf, Normalize, Shr;
    StateBound(p.pr, p.m);
    CtxOfOk(p.pr, p.m.state, p.m.reps.r0, p.m.out);
    ViewStart(p, src, t, base, v);
    var posState := p.PosState();
    var b: bit;
    res := DUMMY_LIT;
    ok, b, loc := DummyBit(p, src, IS_MATCH + p.state * 16 + posState, Locals(p.range, p.code, 0), v, Start);
    if !ok { return; }
    RunKind(t, LocalDec(p, loc, v), v.ctx, Next(v.ctx, Start, b), false);
    if b == 0 {
      ok, loc := DummyLit(p, src, t, base, loc, v);
      return;
    }
    ok, b, loc := DummyBit(p, src, IS_REP + p.state, loc, v, AskRep);
    if !ok { return; }
    RunKind(t, LocalDec(p, loc, v), v.ctx, Next(v.ctx, AskRep, b), false);
    if b == 0 {
      res := DUMMY_MATCH;
      ok, loc := DummyMatch(p, src, posState, loc, v);
    } else {
      res := DUMMY_REP;
      ok, loc := DummyRep(p, src, posState, loc, v);
    }
  }

  /** LzmaDec_TryDummy reports an error exactly when the input ends before the next symbol and
      the normalization after it, and otherwise the kind of that symbol. */
  method TryDummy(p: LzmaDec, src: seq<byte>, ghost t: seq<byte>, ghost base: nat) returns (res: Dummy)
    requires Between(p, src, t, base)
    ensures res.DUMMY_ERROR? <==> !StepFits(p.pr, t, p.m)
    ensures !res.DUMMY_ERROR? ==> KindMatches(res, Decoded(p.pr, t, p.m).0)
  {
    hide Run, Holds, MachOk, CtxOf, CtxOk, StepFits, Decoded;
    ghost var v := ViewOf(p.pr, t, p.m);
    var ok, kind, loc := DummyBody(p, src, t, base, v);
    ViewAgrees(p.pr, t, p.m);
    if !ok { return DUMMY_ERROR; }
    ghost var d := LocalDec(p, loc, v);
    ok, loc := NormalizeCheck(p, src, loc, v);
    return if ok then kind else DUMMY_ERROR;
  }
}
