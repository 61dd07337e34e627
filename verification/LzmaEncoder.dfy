/** CLzmaEnc: turning a parse of the input into a stream. Which symbols are sent is the caller's
    choice, as the matches come from the match finder and the parser. */
module LzmaEncoder {
  import opened Numbers
  import opened RangeCoder
  import opened LzmaSymbols
  import opened LzmaMachine
  import opened LzmaRoundTrip
  import opened LzmaTrees
  import opened RangeEncoder
  import opened PosSlots

  const LITERAL_POS: nat := 0xFFFF_FFFF   // the `pos` with which the parser announces a literal
  const NUM_REPS: nat := 4

  const MATCH_NEXT: seq<nat> := [7, 7, 7, 7, 7, 7, 7, 10, 10, 10, 10, 10]
  const REP_NEXT: seq<nat> := [8, 8, 8, 8, 8, 8, 8, 11, 11, 11, 11, 11]
  const SHORT_REP_NEXT: seq<nat> := [9, 9, 9, 9, 9, 9, 9, 11, 11, 11, 11, 11]

  /** The parser's decision as a symbol. */
  function SymbolOf(data: seq<byte>, nowPos: nat, len: nat, pos: nat): Symbol
    requires nowPos < |data|
  {
    if len == 1 && pos == LITERAL_POS then Literal(data[nowPos])
    else if pos < NUM_REPS then if pos == 0 && len == 1 then ShortRep else Rep(pos, len)
    else Match(len, pos - NUM_REPS)
  }

  function SymbolsOf(data: seq<byte>, nowPos: nat, parse: seq<(nat, nat)>): seq<Symbol>
    decreases parse
  {
    if parse == [] || nowPos >= |data| then []
    else
      var sym := SymbolOf(data, nowPos, parse[0].0, parse[0].1);
      [sym] + SymbolsOf(data, nowPos + SymLen(sym), parse[1..])
  }

  class LzmaEnc {
    const rc: RangeEnc
    const reps: array<nat>      // distances, where the decoder keeps distance + 1
    const fastPos: array<nat>
    const pr: Props             // lc, lp, pb and the encoder's dictSize
    var state: nat
    var nowPos: nat

    ghost predicate Valid()
      reads this, rc, reps, fastPos
    {
      rc.Valid() && reps.Length == 4 && reps != fastPos && TableOk(fastPos[..])
      && PropsOk(pr) && pr.dicSize <= 0x4000_0000 && state < 12
    }

    ghost function At(): Sender
      reads this, rc, reps
      requires reps.Length == 4
    {
      Sender(rc.Coder(), state, Reps(reps[0] + 1, reps[1] + 1, reps[2] + 1, reps[3] + 1), nowPos)
    }

    constructor (pr: Props)
      requires PropsOk(pr) && pr.dicSize <= 0x4000_0000
      ensures Valid() && At() == SENDER_INIT && this.pr == pr && fresh(rc) && fresh(reps) && fresh(fastPos)
    {
      this.pr := pr;
      rc := new RangeEnc();
      reps := new nat[4](_ => 0);
      fastPos := new nat[TABLE_SIZE];
      state, nowPos := 0, 0;
      new;
      FastPosInit(fastPos);
    }

    /** LenEnc_Encode with lenEnc (KMatch) or repLenEnc (KRep). */
    method LenEncode(k: Kind, symbol: nat, posState: nat, ghost ctx: Ctx, ghost sym: Symbol)
      requires rc.Valid() && ctx.posState == posState && ValidSymbol(sym)
      requires OnPath(Choice(k), sym) && symbol == RawLen(sym)
      modifies rc
      ensures rc.Valid() && Wf(EndLen(k, symbol))
      ensures Emit(old(rc.Coder()), ctx, Choice(k), sym) == Emit(rc.Coder(), ctx, EndLen(k, symbol), sym)
    {
      hide Emit, Put, CellMoved, Pow2, TreePut, Shr;
      ghost var e := rc.Coder();
      EmitStep(e, ctx, Choice(k), sym);
      PathStep(ctx, Choice(k), sym);
      if symbol < 8 {
        rc.EncodeBit(LenChoice(k.KRep?), 0);
        EmitLen(rc.Coder(), ctx, k, 0, 3, 1, sym);
        rc.TreeEncode(LowTree(k.KRep?, posState), 3, symbol);
      } else {
        rc.EncodeBit(LenChoice(k.KRep?), 1);
        EmitStep(rc.Coder(), ctx, Choice2(k), sym);
        PathStep(ctx, Choice2(k), sym);
        if symbol < 8 + 8 {
          rc.EncodeBit(LenChoice2(k.KRep?), 0);
          EmitLen(rc.Coder(), ctx, k, 1, 3, 1, sym);
          rc.TreeEncode(MidTree(k.KRep?, posState), 3, symbol - 8);
        } else {
          rc.EncodeBit(LenChoice2(k.KRep?), 1);
          EmitLen(rc.Coder(), ctx, k, 2, 8, 1, sym);
          rc.TreeEncode(HighTree(k.KRep?), 8, symbol - 8 - 8);
        }
      }
    }

    /** The distance of a match: slot, then the footer bits that the slot calls for. */
    method DistanceEncode(pos: nat, len: nat, ghost ctx: Ctx)
      requires Valid() && ValidLen(len) && pos < 0x8000_0000
      modifies rc
      ensures rc.Valid() && Wf(Slot(len, 6, 1))
      ensures Emit(old(rc.Coder()), ctx, Slot(len, 6, 1), Match(len, pos)) == rc.Coder()
    {
      hide Emit, Put, Pow2, TreePut, SlotOf, Shr, SlotBase, Low, EndSlot, BitOf, TableOk;
      ghost var sym := Match(len, pos);
      var posSlot := GetPosSlot(fastPos, pos);
      SlotRoot(len, sym);
      EmitSlot(rc.Coder(), ctx, len, 6, 1, sym);
      EndSlotPath(sym);
      rc.TreeEncode(SlotTree(LenState(len)), 6, posSlot);
      if posSlot >= 4 {
        FooterEncode(pos, posSlot, len, ctx);
      } else {
        SmallSlot(rc.Coder(), ctx, sym);
      }
    }

    method FooterEncode(pos: nat, posSlot: nat, len: nat, ghost ctx: Ctx)
      requires rc.Valid() && ValidLen(len) && pos < 0x8000_0000 && posSlot == SlotOf(pos) && posSlot >= 4
      modifies rc
      ensures rc.Valid() && Wf(EndSlot(len, posSlot))
      ensures Emit(old(rc.Coder()), ctx, EndSlot(len, posSlot), Match(len, pos)) == rc.Coder()
    {
      hide Emit, Put, Pow2, ReversePut, EvenPut, SlotOf, Shr, SlotBase, Low, BitOf;
      ghost var sym := Match(len, pos);
      EndSlotPath(sym);
      EndSlotWf(len, posSlot);
      var footerBits := Footer(posSlot);
      var base := SlotBase(posSlot);
      var posReduced := pos - base;
      if posSlot < 14 {
        EmitSpec(rc.Coder(), ctx, len, posSlot, 0, 1, base, sym);
        rc.TreeReverseEncode(SpecTree(posSlot), footerBits, posReduced);
      } else {
        AlignedEncode(pos, posSlot, posReduced, len, ctx);
      }
    }

    method AlignedEncode(pos: nat, posSlot: nat, posReduced: nat, len: nat, ghost ctx: Ctx)
      requires rc.Valid() && ValidLen(len) && pos < 0x8000_0000 && posSlot == SlotOf(pos) && posSlot >= 14
      requires pos == SlotBase(posSlot) + posReduced && Wf(EndSlot(len, posSlot))
      modifies rc
      ensures rc.Valid()
      ensures Emit(old(rc.Coder()), ctx, EndSlot(len, posSlot), Match(len, pos)) == rc.Coder()
    {
      hide Emit, Put, Pow2, ReversePut, EvenPut, SlotOf, Shr, SlotBase, Low, BitOf;
      ghost var sym := Match(len, pos);
      EndSlotPath(sym);
      ReducedBits(pos, posSlot);
      var directBits := Footer(posSlot) - 4;
      EmitEven(rc.Coder(), ctx, len, posSlot, directBits, 2 + posSlot % 2, sym);
      EvenPutSame(rc.Coder(), directBits, posReduced / 16, pos / 16);
      rc.EncodeDirectBits(posReduced / 16, directBits);
      EmitAligned(rc.Coder(), ctx, len, 0, 1, pos / 16 * 16, sym);
      ReversePutSame(rc.Coder(), AlignTree, 0, 4, 1, posReduced % 16, pos);
      rc.TreeReverseEncode(AlignTree, 4, posReduced % 16);
    }

    /** isRep 1 and the bits that name the recent distance; it moves to the front. */
    method RepEncode(pos: nat, len: nat, posState: nat, ghost ctx: Ctx, ghost sym: Symbol)
      requires Valid() && pos < 4 && ctx.state == state && ctx.posState == posState && ValidSymbol(sym)
      requires sym == if pos == 0 && len == 1 then ShortRep else Rep(pos, len)
      modifies rc, reps
      ensures Valid() && At().reps == NextReps(old(At()).reps, sym)
      ensures Emit(old(rc.Coder()), ctx, AskRep, sym)
        == Emit(rc.Coder(), ctx, if sym.ShortRep? then Done(ShortRep) else Choice(KRep(pos)), sym)
    {
      hide Emit, Put, CellMoved, TableOk;
      EmitStep(rc.Coder(), ctx, AskRep, sym);
      rc.EncodeBit(IsRep(state), 1);
      EmitStep(rc.Coder(), ctx, AskG0, sym);
      if pos == 0 {
        rc.EncodeBit(IsRepG0(state), 0);
        EmitStep(rc.Coder(), ctx, AskG0Long, sym);
        rc.EncodeBit(IsRep0Long(state, posState), if len == 1 then 0 else 1);
      } else {
        rc.EncodeBit(IsRepG0(state), 1);
        OlderRepEncode(pos, ctx, sym);
      }
    }

    /** The same for all distances but the most recent. */
    method OlderRepEncode(pos: nat, ghost ctx: Ctx, ghost sym: Symbol)
      requires Valid() && 1 <= pos < 4 && ctx.state == state && sym.Rep? && sym.i == pos && ValidSymbol(sym)
      modifies rc, reps
      ensures Valid() && At().reps == NextReps(old(At()).reps, sym)
      ensures Emit(old(rc.Coder()), ctx, AskG1, sym) == Emit(rc.Coder(), ctx, Choice(KRep(pos)), sym)
    {
      hide Emit, Put, CellMoved, TableOk;
      var distance := reps[pos];
      EmitStep(rc.Coder(), ctx, AskG1, sym);
      if pos == 1 {
        rc.EncodeBit(IsRepG1(state), 0);
      } else {
        rc.EncodeBit(IsRepG1(state), 1);
        EmitStep(rc.Coder(), ctx, AskG2, sym);
        rc.EncodeBit(IsRepG2(state), pos - 2);
        if pos == 3 {
          reps[3] := reps[2];
        }
        reps[2] := reps[1];
      }
      reps[1] := reps[0];
      reps[0] := distance;
    }

    /** A literal after the first: with the byte before it as context, and against the byte at
        the most recent distance if the last symbol was a match. */
    method LiteralEncode(data: seq<byte>, posState: nat, ghost ctx: Ctx)
      requires Valid() && 1 <= nowPos < |data| && reps[0] + 1 <= nowPos
      requires ctx == CtxOf(pr, state, reps[0] + 1, data[..nowPos]) && posState == ctx.posState
      modifies rc, this`state
      ensures Valid() && state == NextState(old(state), Literal(data[nowPos]))
      ensures rc.Coder() == Emit(old(rc.Coder()), ctx, Start, Literal(data[nowPos]))
    {
      hide Emit, Put, CellMoved, TableOk, LitCtx, Low, Shr, Pow2;
      var curByte := data[nowPos];
      ghost var sym := Literal(curByte);
      EmitStep(rc.Coder(), ctx, Start, sym);
      PathStep(ctx, Start, sym);
      rc.EncodeBit(IsMatch(state, posState), 0);
      var probs := LitCtx(pr, nowPos, data[nowPos - 1]);
      EmitLit(rc.Coder(), ctx, 8, 1, state >= 7, curByte);
      if state < 7 {
        rc.EncodeLiteral(ctx, probs, curByte);
      } else {
        rc.EncodeMatched(ctx, probs, curByte, data[nowPos - reps[0] - 1]);
      }
      state := LIT_NEXT[state];
    }

    method MatchEncode(pos: nat, len: nat, posState: nat, ghost ctx: Ctx)
      requires Valid() && ValidLen(len) && pos < pr.dicSize && ctx.state == state && ctx.posState == posState
      modifies rc, reps, this`state
      ensures Valid() && state == NextState(old(state), Match(len, pos))
      ensures At().reps == NextReps(old(At()).reps, Match(len, pos))
      ensures rc.Coder() == Emit(old(rc.Coder()), ctx, Start, Match(len, pos))
    {
      hide Emit, Put, CellMoved, TableOk, SlotOf;
      ghost var sym := Match(len, pos);
      EmitStep(rc.Coder(), ctx, Start, sym);
      rc.EncodeBit(IsMatch(state, posState), 1);
      EmitStep(rc.Coder(), ctx, AskRep, sym);
      rc.EncodeBit(IsRep(state), 0);
      state := MATCH_NEXT[state];
      LenEncode(KMatch, len - 2, posState, ctx, sym);
      DistanceEncode(pos, len, ctx);
      reps[3] := reps[2];
      reps[2] := reps[1];
      reps[1] := reps[0];
      reps[0] := pos;
    }

    method RepMatchEncode(pos: nat, len: nat, posState: nat, ghost ctx: Ctx, ghost sym: Symbol)
      requires Valid() && pos < 4 && ctx.state == state && ctx.posState == posState && ValidSymbol(sym)
      requires sym == if pos == 0 && len == 1 then ShortRep else Rep(pos, len)
      modifies rc, reps, this`state
      ensures Valid() && state == NextState(old(state), sym)
      ensures At().reps == NextReps(old(At()).reps, sym)
      ensures rc.Coder() == Emit(old(rc.Coder()), ctx, Start, sym)
    {
      hide Emit, Put, CellMoved, TableOk;
      EmitStep(rc.Coder(), ctx, Start, sym);
      rc.EncodeBit(IsMatch(state, posState), 1);
      RepEncode(pos, len, posState, ctx, sym);
      if len == 1 {
        EmitDone(rc.Coder(), ctx, Done(ShortRep), sym);
        state := SHORT_REP_NEXT[state];
      } else {
        LenEncode(KRep(pos), len - 2, posState, ctx, sym);
        EmitDone(rc.Coder(), ctx, EndLen(KRep(pos), len - 2), sym);
        state := REP_NEXT[state];
      }
    }

    /** One round of the loop of LzmaEnc_CodeOneBlock, for the parser's decision (`len`, `pos`). */
    method CodeSymbol(data: seq<byte>, len: nat, pos: nat)
      requires Valid() && 1 <= nowPos < |data| && RepsOk(At().reps, nowPos)
      requires Admissible(pr, data, nowPos, At().reps, SymbolOf(data, nowPos, len, pos))
      modifies rc, reps, this
      ensures Valid() && SenderOk(pr, data, old(At()))
      ensures At() == Send(pr, data, old(At()), SymbolOf(data, old(nowPos), len, pos))
      ensures RepsOk(At().reps, nowPos)
    {
      hide Emit, TableOk, CtxOf;
      ghost var x := At();
      ghost var ctx := SendCtx(pr, data, x);
      ghost var sym := SymbolOf(data, nowPos, len, pos);
      AdmissibleExtends(pr, data, nowPos, x.reps, sym);
      NextRepsOk(x.reps, nowPos, sym, nowPos + SymLen(sym));
      assert 1 <= RepAt(x.reps, 0) <= nowPos;
      var posState := Low(nowPos, pr.pb);
      CtxParts(pr, state, x.reps.r0, data[..nowPos]);
      if len == 1 && pos == LITERAL_POS {
        LiteralEncode(data, posState, ctx);
      } else if pos < NUM_REPS {
        RepMatchEncode(pos, len, posState, ctx, sym);
      } else {
        MatchEncode(pos - NUM_REPS, len, posState, ctx);
      }
      nowPos := nowPos + len;
    }

    /** The block's first byte is a literal without context. */
    method CodeFirst(data: seq<byte>)
      requires Valid() && At() == SENDER_INIT && |data| > 0
      modifies rc, this
      ensures Valid() && SenderOk(pr, data, old(At())) && At() == Send(pr, data, SENDER_INIT, Literal(data[0]))
      ensures RepsOk(At().reps, 1)
    {
      hide Emit, Put, CellMoved, TableOk;
      ghost var ctx := SendCtx(pr, data, At());
      ghost var sym := Literal(data[0]);
      EmitStep(rc.Coder(), ctx, Start, sym);
      PathStep(ctx, Start, sym);
      FirstCtx(pr, data);
      rc.EncodeBit(IsMatch(state, 0), 0);
      state := LIT_NEXT[state];
      EmitLit(rc.Coder(), ctx, 8, 1, false, data[0]);
      rc.EncodeLiteral(ctx, 0, data[0]);
      nowPos := nowPos + 1;
    }

    /** WriteEndMarker */
    method WriteEndMarker(data: seq<byte>)
      requires Valid() && SenderOk(pr, data, At())
      modifies rc, this`state
      ensures rc.Valid() && rc.Coder() == SendEnd(pr, data, old(At()), true)
    {
      hide Emit, Put, CellMoved, TableOk, SlotOf, CtxOf;
      ghost var ctx := SendCtx(pr, data, At());
      CtxParts(pr, state, reps[0] + 1, data[..nowPos]);
      assert |data[..nowPos]| == nowPos;
      var posState := Low(nowPos, pr.pb);
      EmitStep(rc.Coder(), ctx, Start, END_MARK);
      rc.EncodeBit(IsMatch(state, posState), 1);
      EmitStep(rc.Coder(), ctx, AskRep, END_MARK);
      rc.EncodeBit(IsRep(state), 0);
      state := MATCH_NEXT[state];
      LenEncode(KMatch, 0, posState, ctx, END_MARK);
      EndMarkSlot();
      SlotRoot(2, END_MARK);
      EmitSlot(rc.Coder(), ctx, 2, 6, 1, END_MARK);
      EndSlotPath(END_MARK);
      rc.TreeEncode(SlotTree(LenState(2)), 6, 63);
      EndMarkTail(ctx);
    }

    method EndMarkTail(ghost ctx: Ctx)
      requires rc.Valid() && SlotOf(END_DIST) == 63 && Wf(EndSlot(2, 63))
      modifies rc
      ensures rc.Valid() && Emit(old(rc.Coder()), ctx, EndSlot(2, 63), END_MARK) == rc.Coder()
    {
      hide Emit, Put, SlotOf, ReversePut, EvenPut, BitOf, Shr, Low, Pow2;
      EndSlotPath(END_MARK);
      ReducedBits(END_DIST, 63);
      EmitEven(rc.Coder(), ctx, 2, 63, 26, 3, END_MARK);
      EndMarkBits();
      EvenPutSame(rc.Coder(), 26, 0x3FF_FFFF, END_DIST / 16);
      rc.EncodeDirectBits(0x3FFF_FFFF / 16, 30 - 4);
      EmitAligned(rc.Coder(), ctx, 2, 0, 1, END_DIST / 16 * 16, END_MARK);
      ReversePutSame(rc.Coder(), AlignTree, 0, 4, 1, 15, END_DIST);
      rc.TreeReverseEncode(AlignTree, 4, 15);
    }

    /** LzmaEnc_CodeOneBlock and Flush over a whole input, for the parser's decisions in order. */
    method Encode(data: seq<byte>, parse: seq<(nat, nat)>, writeEndMark: bool)
      requires Valid() && At() == SENDER_INIT
      requires Parses(pr, data, 0, SENDER_INIT.reps, WholeParse(data, parse))
      modifies rc, reps, this
      ensures rc.Valid() && rc.out == EncodeStream(pr, data, WholeParse(data, parse), writeEndMark)
    {
      hide Emit, Put, TableOk, RepsOk, Send, Flush;
      ghost var syms := WholeParse(data, parse);
      if |data| != 0 {
        CodeFirst(data);
        ghost var rest := SymbolsOf(data, 1, parse);
        assert syms[1..] == rest;
        FirstSent(pr, data, syms);
        var k := 0;
        assert parse[k..] == parse && At().pos == nowPos;
        while nowPos != |data|
          invariant Valid() && k <= |parse| && 1 <= nowPos && SenderOk(pr, data, At())
          invariant RepsOk(At().reps, nowPos) && rest == SymbolsOf(data, nowPos, parse[k..])
          invariant Parses(pr, data, nowPos, At().reps, rest)
          invariant SendAll(pr, data, At(), rest) == SendAll(pr, data, SENDER_INIT, syms)
          decreases |parse| - k
        {
          NextDecision(pr, data, nowPos, At().reps, parse[k..]);
          var (len, pos) := parse[k];
          SentStep(pr, data, At(), rest);
          CodeSymbol(data, len, pos);
          rest := rest[1..];
          k := k + 1;
        }
        AllSent(pr, data, At(), rest);
      }
      ghost var x := At();
      if writeEndMark {
        WriteEndMarker(data);
      }
      rc.FlushData();
    }
  }

  function WholeParse(data: seq<byte>, parse: seq<(nat, nat)>): seq<Symbol> {
    if data == [] then [] else [Literal(data[0])] + SymbolsOf(data, 1, parse)
  }

  lemma FirstCtx(pr: Props, data: seq<byte>)
    requires PropsOk(pr)
    ensures SendCtx(pr, data, SENDER_INIT).litCtx == 0 && SendCtx(pr, data, SENDER_INIT).posState == 0
  {
    ShiftBySmall(0, pr.pb);
  }

  lemma FirstSent(pr: Props, data: seq<byte>, syms: seq<Symbol>)
    requires PropsOk(pr) && syms != [] && Parses(pr, data, 0, SENDER_INIT.reps, syms)
    ensures SenderOk(pr, data, SENDER_INIT) && SenderOk(pr, data, Send(pr, data, SENDER_INIT, syms[0]))
    ensures var x := Send(pr, data, SENDER_INIT, syms[0]);
      Parses(pr, data, x.pos, x.reps, syms[1..])
      && SendAll(pr, data, x, syms[1..]) == SendAll(pr, data, SENDER_INIT, syms)
      && x.pos == SymLen(syms[0])
  {
    hide Emit;
  }

  lemma SentStep(pr: Props, data: seq<byte>, x: Sender, syms: seq<Symbol>)
    requires SenderOk(pr, data, x) && syms != [] && Parses(pr, data, x.pos, x.reps, syms)
    ensures var y := Send(pr, data, x, syms[0]);
      SenderOk(pr, data, y) && Parses(pr, data, y.pos, y.reps, syms[1..])
      && SendAll(pr, data, y, syms[1..]) == SendAll(pr, data, x, syms)
      && y.pos == x.pos + SymLen(syms[0])
  {
    hide Emit;
  }

  lemma AllSent(pr: Props, data: seq<byte>, x: Sender, syms: seq<Symbol>)
    requires SenderOk(pr, data, x) && Parses(pr, data, x.pos, x.reps, syms) && x.pos == |data|
    ensures syms == []
  {
  }

  lemma NextDecision(pr: Props, data: seq<byte>, nowPos: nat, r: Reps, parse: seq<(nat, nat)>)
    requires nowPos < |data| && Parses(pr, data, nowPos, r, SymbolsOf(data, nowPos, parse))
    ensures parse != []
    ensures var sym := SymbolOf(data, nowPos, parse[0].0, parse[0].1);
      SymbolsOf(data, nowPos, parse)[0] == sym && Admissible(pr, data, nowPos, r, sym)
      && SymbolsOf(data, nowPos, parse)[1..] == SymbolsOf(data, nowPos + SymLen(sym), parse[1..])
  {
  }

  /** The end mark's slot, and its footer bits, are all ones. */
  lemma EndMarkSlot()
    ensures SlotOf(END_DIST) == 63
  {
    Pow2Add(26, 4);
    Pow2Values();
    SlotUnique(END_DIST, 63);
  }

  lemma EndMarkBits()
    ensures forall j | 0 <= j < 26 :: BitOf(0x3FF_FFFF, j) == BitOf(END_DIST / 16, j)
    ensures forall j | 0 <= j < 4 :: BitOf(15, j) == BitOf(END_DIST, j)
  {
    hide BitOf;
    Pow2Values();
    forall j | 0 <= j < 26 ensures BitOf(0x3FF_FFFF, j) == BitOf(END_DIST / 16, j) {
      BitBelow(3, 26, 0x3FF_FFFF, j);
    }
    forall j | 0 <= j < 4 ensures BitOf(15, j) == BitOf(END_DIST, j) {
      BitBelow(END_DIST / 16, 4, 15, j);
    }
  }

  lemma CtxParts(pr: Props, state: nat, rep0: nat, out: seq<byte>)
    requires PropsOk(pr)
    ensures CtxOf(pr, state, rep0, out).state == state
    ensures CtxOf(pr, state, rep0, out).posState == Low(|out|, pr.pb)
  {
  }

  lemma SmallSlot(e: Enc, ctx: Ctx, sym: Symbol)
    requires e.cacheSize >= 1 && sym.Match? && sym.dist < WORD && SlotOf(sym.dist) < 4
    ensures Emit(e, ctx, EndSlot(sym.len, SlotOf(sym.dist)), sym) == e
  {
  }

  lemma SlotRoot(len: nat, sym: Symbol)
    requires ValidSymbol(sym) && sym.Match? && sym.len == len
    ensures Wf(Slot(len, 6, 1)) && OnPath(Slot(len, 6, 1), sym)
  {
    hide SlotOf;
    Pow2Values();
    TreeRoot(6, SlotOf(sym.dist));
  }

  /** A slot's base is a multiple of 16 once there are direct bits. */
  lemma ReducedParts(pos: nat, slot: nat)
    requires pos < WORD && slot == SlotOf(pos) && slot >= 14
    ensures var high := (2 + slot % 2) * Pow2(Footer(slot) - 4);
      var x := pos - SlotBase(slot);
      x >= 0 && pos / 16 == high + x / 16 && pos % 16 == x % 16
  {
    hide SlotOf, Pow2;
    var f, lead := Footer(slot), 2 + slot % 2;
    Pow2Add(4, f - 4);
    Pow2Values();
    var y := Pow2(f - 4);
    assert lead * (16 * y) == 16 * (lead * y);
    var x := pos - SlotBase(slot);
    QuotientPlus(pos, x, 16, lead * y);
  }

  /** The bits of the reduced distance below the slot's base are those of the distance. */
  lemma ReducedBits(pos: nat, slot: nat)
    requires pos < WORD && slot == SlotOf(pos) && slot >= 14
    ensures pos >= SlotBase(slot)
    ensures forall j | 0 <= j < Footer(slot) - 4 :: BitOf((pos - SlotBase(slot)) / 16, j) == BitOf(pos / 16, j)
    ensures forall j | 0 <= j < 4 :: BitOf((pos - SlotBase(slot)) % 16, j) == BitOf(pos, j)
  {
    hide SlotOf, BitOf, SlotBase, Pow2;
    ReducedParts(pos, slot);
    var f := Footer(slot);
    var x := pos - SlotBase(slot);
    forall j | 0 <= j < f - 4 ensures BitOf(x / 16, j) == BitOf(pos / 16, j) {
      BitBelow(2 + slot % 2, f - 4, x / 16, j);
    }
    forall j | 0 <= j < 4 ensures BitOf(x % 16, j) == BitOf(pos, j) {
      Pow2Values();
      BitBelow(pos / 16, 4, pos % 16, j);
    }
  }
}
