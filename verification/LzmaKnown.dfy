/** What any LZMA encoder or decoder has to agree on, at known inputs: the bytes of a stream in which
    every cell is used again, and the decisions and cells of each kind of symbol. */
module LzmaKnown {
  import opened Numbers
  import opened RangeCoder
  import opened LzmaSymbols
  import opened LzmaMachine
  import opened LzmaRoundTrip
  import opened PosSlots

  /** Where the encoder stands: the phase, the exact lower end of the interval and its length, and
      the bytes so far, those held back included. */
  datatype At = At(p: Phase, lo: nat, range: nat, count: nat)

  ghost predicate Coded(goal: Enc, e: Enc, ctx: Ctx, sym: Symbol, a: At) {
    && EncInv(e) && Val(e) == a.lo && e.range == a.range && Count(e) == a.count && Wf(a.p)
    && Emit(e, ctx, a.p, sym) == goal
  }

  const A: Symbol := Literal(0x61)

  predicate Plain(ctx: Ctx) {
    ctx.state == ctx.posState == ctx.litCtx == 0
  }

  /** The cells of this literal, in the order of their use. */
  function CellOf(j: nat): Cell {
    match j
    case 0 => IsMatch(0, 0)
    case 1 => LitProb(0, 1)
    case 2 => LitProb(0, 2)
    case 3 => LitProb(0, 5)
    case 4 => LitProb(0, 11)
    case 5 => LitProb(0, 22)
    case 6 => LitProb(0, 44)
    case 7 => LitProb(0, 88)
    case _ => LitProb(0, 176)
  }

  ghost predicate Nine(e: Enc, ps: seq<prob>) {
    |ps| == 9 && forall j: nat | j < 9 :: Prob(e.probs, CellOf(j)) == ps[j]
  }

  predicate Leads(ctx: Ctx, sym: Symbol, p: Phase, q: Query, b: bit, p': Phase) {
    Wf(p) && !p.Done? && QueryOf(ctx, p) == q && Choose(p, sym) == b && Next(ctx, p, b) == p'
  }

  /** kNumBitModelTotalBits is 11. */
  function Below(range: nat, p: prob): nat {
    range / 2048 * p
  }

  /** The part of the interval for the bit, 256 times as long if a byte goes out. */
  function Taken(a: At, bound: nat, b: bit, p: Phase): At {
    var lo, range := if b == 0 then a.lo else a.lo + bound, if b == 0 then bound else a.range as int - bound;
    if range < 0 then a
    else if range < 0x100_0000 then At(p, 0x100 * lo, 0x100 * range, a.count + 1)
    else At(p, lo, range, a.count)
  }

  lemma RenormExact(n: Enc, e': Enc)
    requires CarryFits(n) && 0x1_0000 <= n.range && n.range < WORD && e' == Renorm(n)
    ensures Val(e') == (if n.range < TOP then 0x100 * Val(n) else Val(n))
    ensures e'.range == (if n.range < TOP then 0x100 * n.range else n.range) && e'.probs == n.probs
    ensures Count(e') == (if n.range < TOP then Count(n) + 1 else Count(n))
  {
    hide BigEndian;
    if n.range < TOP {
      var m := n.(range := Shl8(n.range));
      assert Pending(m) == Pending(n);
      ShiftLowExact(m);
    }
  }

  /** One decision with the cell j. */
  lemma Bit(goal: Enc, e: Enc, ctx: Ctx, sym: Symbol, a: At, j: nat, ps: seq<prob>, b: bit, a1: At)
    returns (e': Enc, a': At, ps': seq<prob>)
    requires j < 9 && Nine(e, ps) && |ps| == 9
    requires Coded(goal, e, ctx, sym, a) && Leads(ctx, sym, a.p, Adaptive(CellOf(j)), b, a1.p)
    requires a1 == Taken(a, Below(a.range, ps[j]), b, a1.p)
    ensures a' == a1 && Coded(goal, e', ctx, sym, a') && ps' == ps[j := Adapt(ps[j], b)] && Nine(e', ps')
  {
    hide Choose, Next, QueryOf, Wf, BigEndian, ShiftLow, CellOf;
    var c := CellOf(j);
    assert Prob(e.probs, c) == ps[j];
    var n := Narrow(e, Adaptive(c), b);
    assert Pending(n) == Pending(e);
    e', a', ps' := Put(e, Adaptive(c), b), a1, ps[j := Adapt(ps[j], b)];
    Went(goal, e, ctx, sym, a, Adaptive(c), b, a1, n, e');
    forall i: nat | i < 9 ensures Prob(e'.probs, CellOf(i)) == ps'[i] {
      assert Prob(e.probs, CellOf(i)) == ps[i];
      if i != j { CellsDiffer(i, j); }
    }
  }

  lemma CellsDiffer(i: nat, j: nat)
    requires i < 9 && j < 9 && i != j
    ensures CellOf(i) != CellOf(j)
  {
  }

  lemma Went(goal: Enc, e: Enc, ctx: Ctx, sym: Symbol, a: At, q: Query, b: bit, a1: At, n: Enc, e': Enc)
    requires Coded(goal, e, ctx, sym, a) && Leads(ctx, sym, a.p, q, b, a1.p)
    requires n == Narrow(e, q, b) && Pending(n) == Pending(e) && e' == Put(e, q, b)
    requires a1.lo == (if n.range < TOP then 0x100 else 1) * (a.lo - e.low + n.low)
    requires a1.range == (if n.range < TOP then 0x100 else 1) * n.range
    requires a1.count == a.count + if n.range < TOP then 1 else 0
    ensures Coded(goal, e', ctx, sym, a1) && e'.probs == n.probs
  {
    hide Choose, Next, QueryOf, Wf, BigEndian, ShiftLow, Narrow;
    EmitStep(e, ctx, a.p, sym);
    StepWf(ctx, a.p, b);
    NarrowInside(e, q, b);
    PutKeepsInv(e, q, b);
    RenormExact(n, e');
  }

  lemma Adapted()
    ensures Adapt(1024, 0) == 1056 && Adapt(1024, 1) == 992 && Adapt(1056, 0) == 1087 && Adapt(992, 1) == 961
  {
  }

  lemma LiteralTop(ctx: Ctx)
    requires Plain(ctx)
    ensures Leads(ctx, A, Start, Adaptive(CellOf(0)), 0, Lit(8, 1, false))
    ensures Leads(ctx, A, Lit(8, 1, false), Adaptive(CellOf(1)), 0, Lit(7, 2, false))
    ensures Leads(ctx, A, Lit(7, 2, false), Adaptive(CellOf(2)), 1, Lit(6, 5, false))
  {
  }

  lemma LiteralMiddle(ctx: Ctx)
    requires Plain(ctx)
    ensures Leads(ctx, A, Lit(6, 5, false), Adaptive(CellOf(3)), 1, Lit(5, 11, false))
    ensures Leads(ctx, A, Lit(5, 11, false), Adaptive(CellOf(4)), 0, Lit(4, 22, false))
    ensures Leads(ctx, A, Lit(4, 22, false), Adaptive(CellOf(5)), 0, Lit(3, 44, false))
  {
  }

  lemma LiteralBottom(ctx: Ctx)
    requires Plain(ctx)
    ensures Leads(ctx, A, Lit(3, 44, false), Adaptive(CellOf(6)), 0, Lit(2, 88, false))
    ensures Leads(ctx, A, Lit(2, 88, false), Adaptive(CellOf(7)), 0, Lit(1, 176, false))
    ensures Leads(ctx, A, Lit(1, 176, false), Adaptive(CellOf(8)), 1, Done(A))
  {
  }

  lemma FirstTopNumbers()
    ensures Taken(At(Start, 0x0, 0xFFFFFFFF, 1), Below(0xFFFFFFFF, 1024), 0, Lit(8, 1, false)) ==
            At(Lit(8, 1, false), 0x0, 0x7FFFFC00, 1)
    ensures Taken(At(Lit(8, 1, false), 0x0, 0x7FFFFC00, 1), Below(0x7FFFFC00, 1024), 0, Lit(7, 2, false)) ==
            At(Lit(7, 2, false), 0x0, 0x3FFFFC00, 1)
    ensures Taken(At(Lit(7, 2, false), 0x0, 0x3FFFFC00, 1), Below(0x3FFFFC00, 1024), 1, Lit(6, 5, false)) ==
            At(Lit(6, 5, false), 0x1FFFFC00, 0x20000000, 1)
  {
  }

  lemma FirstTop(goal: Enc, e0: Enc, ctx: Ctx) returns (e: Enc)
    requires Coded(goal, e0, ctx, A, At(Start, 0x0, 0xFFFFFFFF, 1))
    requires Nine(e0, [1024, 1024, 1024, 1024, 1024, 1024, 1024, 1024, 1024])
    requires Plain(ctx)
    ensures Coded(goal, e, ctx, A, At(Lit(6, 5, false), 0x1FFFFC00, 0x20000000, 1))
    ensures Nine(e, [1056, 1056, 992, 1024, 1024, 1024, 1024, 1024, 1024])
  {
    hide Coded, Leads, Nine, Plain, Taken, Below, Adapt;
    var a, ps := At(Start, 0x0, 0xFFFFFFFF, 1), [1024, 1024, 1024, 1024, 1024, 1024, 1024, 1024, 1024];
    LiteralTop(ctx);
    FirstTopNumbers();
    Adapted();
    e := e0;
    e, a, ps := Bit(goal, e, ctx, A, a, 0, ps, 0, At(Lit(8, 1, false), 0x0, 0x7FFFFC00, 1));
    e, a, ps := Bit(goal, e, ctx, A, a, 1, ps, 0, At(Lit(7, 2, false), 0x0, 0x3FFFFC00, 1));
    e, a, ps := Bit(goal, e, ctx, A, a, 2, ps, 1, At(Lit(6, 5, false), 0x1FFFFC00, 0x20000000, 1));
    assert ps == [1056, 1056, 992, 1024, 1024, 1024, 1024, 1024, 1024];
  }

  lemma FirstMiddleNumbers()
    ensures Taken(At(Lit(6, 5, false), 0x1FFFFC00, 0x20000000, 1), Below(0x20000000, 1024), 1, Lit(5, 11, false)) ==
            At(Lit(5, 11, false), 0x2FFFFC00, 0x10000000, 1)
    ensures Taken(At(Lit(5, 11, false), 0x2FFFFC00, 0x10000000, 1), Below(0x10000000, 1024), 0, Lit(4, 22, false)) ==
            At(Lit(4, 22, false), 0x2FFFFC00, 0x8000000, 1)
    ensures Taken(At(Lit(4, 22, false), 0x2FFFFC00, 0x8000000, 1), Below(0x8000000, 1024), 0, Lit(3, 44, false)) ==
            At(Lit(3, 44, false), 0x2FFFFC00, 0x4000000, 1)
  {
  }

  lemma FirstMiddle(goal: Enc, e0: Enc, ctx: Ctx) returns (e: Enc)
    requires Coded(goal, e0, ctx, A, At(Lit(6, 5, false), 0x1FFFFC00, 0x20000000, 1))
    requires Nine(e0, [1056, 1056, 992, 1024, 1024, 1024, 1024, 1024, 1024])
    requires Plain(ctx)
    ensures Coded(goal, e, ctx, A, At(Lit(3, 44, false), 0x2FFFFC00, 0x4000000, 1))
    ensures Nine(e, [1056, 1056, 992, 992, 1056, 1056, 1024, 1024, 1024])
  {
    hide Coded, Leads, Nine, Plain, Taken, Below, Adapt;
    var a, ps := At(Lit(6, 5, false), 0x1FFFFC00, 0x20000000, 1), [1056, 1056, 992, 1024, 1024, 1024, 1024, 1024, 1024];
    LiteralMiddle(ctx);
    FirstMiddleNumbers();
    Adapted();
    e := e0;
    e, a, ps := Bit(goal, e, ctx, A, a, 3, ps, 1, At(Lit(5, 11, false), 0x2FFFFC00, 0x10000000, 1));
    e, a, ps := Bit(goal, e, ctx, A, a, 4, ps, 0, At(Lit(4, 22, false), 0x2FFFFC00, 0x8000000, 1));
    e, a, ps := Bit(goal, e, ctx, A, a, 5, ps, 0, At(Lit(3, 44, false), 0x2FFFFC00, 0x4000000, 1));
    assert ps == [1056, 1056, 992, 992, 1056, 1056, 1024, 1024, 1024];
  }

  lemma FirstBottomNumbers()
    ensures Taken(At(Lit(3, 44, false), 0x2FFFFC00, 0x4000000, 1), Below(0x4000000, 1024), 0, Lit(2, 88, false)) ==
            At(Lit(2, 88, false), 0x2FFFFC00, 0x2000000, 1)
    ensures Taken(At(Lit(2, 88, false), 0x2FFFFC00, 0x2000000, 1), Below(0x2000000, 1024), 0, Lit(1, 176, false)) ==
            At(Lit(1, 176, false), 0x2FFFFC00, 0x1000000, 1)
    ensures Taken(At(Lit(1, 176, false), 0x2FFFFC00, 0x1000000, 1), Below(0x1000000, 1024), 1, Done(A)) ==
            At(Done(A), 0x307FFC0000, 0x80000000, 2)
  {
  }

  lemma FirstBottom(goal: Enc, e0: Enc, ctx: Ctx) returns (e: Enc)
    requires Coded(goal, e0, ctx, A, At(Lit(3, 44, false), 0x2FFFFC00, 0x4000000, 1))
    requires Nine(e0, [1056, 1056, 992, 992, 1056, 1056, 1024, 1024, 1024])
    requires Plain(ctx)
    ensures Coded(goal, e, ctx, A, At(Done(A), 0x307FFC0000, 0x80000000, 2))
    ensures Nine(e, [1056, 1056, 992, 992, 1056, 1056, 1056, 1056, 992])
  {
    hide Coded, Leads, Nine, Plain, Taken, Below, Adapt;
    var a, ps := At(Lit(3, 44, false), 0x2FFFFC00, 0x4000000, 1), [1056, 1056, 992, 992, 1056, 1056, 1024, 1024, 1024];
    LiteralBottom(ctx);
    FirstBottomNumbers();
    Adapted();
    e := e0;
    e, a, ps := Bit(goal, e, ctx, A, a, 6, ps, 0, At(Lit(2, 88, false), 0x2FFFFC00, 0x2000000, 1));
    e, a, ps := Bit(goal, e, ctx, A, a, 7, ps, 0, At(Lit(1, 176, false), 0x2FFFFC00, 0x1000000, 1));
    e, a, ps := Bit(goal, e, ctx, A, a, 8, ps, 1, At(Done(A), 0x307FFC0000, 0x80000000, 2));
    assert ps == [1056, 1056, 992, 992, 1056, 1056, 1056, 1056, 992];
  }

  lemma SecondTopNumbers()
    ensures Taken(At(Start, 0x307FFC0000, 0x80000000, 2), Below(0x80000000, 1056), 0, Lit(8, 1, false)) ==
            At(Lit(8, 1, false), 0x307FFC0000, 0x42000000, 2)
    ensures Taken(At(Lit(8, 1, false), 0x307FFC0000, 0x42000000, 2), Below(0x42000000, 1056), 0, Lit(7, 2, false)) ==
            At(Lit(7, 2, false), 0x307FFC0000, 0x22080000, 2)
    ensures Taken(At(Lit(7, 2, false), 0x307FFC0000, 0x22080000, 2), Below(0x22080000, 992), 1, Lit(6, 5, false)) ==
            At(Lit(6, 5, false), 0x309077E000, 0x118C2000, 2)
  {
  }

  lemma SecondTop(goal: Enc, e0: Enc, ctx: Ctx) returns (e: Enc)
    requires Coded(goal, e0, ctx, A, At(Start, 0x307FFC0000, 0x80000000, 2))
    requires Nine(e0, [1056, 1056, 992, 992, 1056, 1056, 1056, 1056, 992])
    requires Plain(ctx)
    ensures Coded(goal, e, ctx, A, At(Lit(6, 5, false), 0x309077E000, 0x118C2000, 2))
    ensures Nine(e, [1087, 1087, 961, 992, 1056, 1056, 1056, 1056, 992])
  {
    hide Coded, Leads, Nine, Plain, Taken, Below, Adapt;
    var a, ps := At(Start, 0x307FFC0000, 0x80000000, 2), [1056, 1056, 992, 992, 1056, 1056, 1056, 1056, 992];
    LiteralTop(ctx);
    SecondTopNumbers();
    Adapted();
    e := e0;
    e, a, ps := Bit(goal, e, ctx, A, a, 0, ps, 0, At(Lit(8, 1, false), 0x307FFC0000, 0x42000000, 2));
    e, a, ps := Bit(goal, e, ctx, A, a, 1, ps, 0, At(Lit(7, 2, false), 0x307FFC0000, 0x22080000, 2));
    e, a, ps := Bit(goal, e, ctx, A, a, 2, ps, 1, At(Lit(6, 5, false), 0x309077E000, 0x118C2000, 2));
    assert ps == [1087, 1087, 961, 992, 1056, 1056, 1056, 1056, 992];
  }

  lemma SecondMiddleNumbers()
    ensures Taken(At(Lit(6, 5, false), 0x309077E000, 0x118C2000, 2), Below(0x118C2000, 992), 1, Lit(5, 11, false)) ==
            At(Lit(5, 11, false), 0x3098F7BF80, 0x90C4080, 2)
    ensures Taken(At(Lit(5, 11, false), 0x3098F7BF80, 0x90C4080, 2), Below(0x90C4080, 1056), 0, Lit(4, 22, false)) ==
            At(Lit(4, 22, false), 0x3098F7BF80, 0x4AA5100, 2)
    ensures Taken(At(Lit(4, 22, false), 0x3098F7BF80, 0x4AA5100, 2), Below(0x4AA5100, 1056), 0, Lit(3, 44, false)) ==
            At(Lit(3, 44, false), 0x3098F7BF80, 0x267D140, 2)
  {
  }

  lemma SecondMiddle(goal: Enc, e0: Enc, ctx: Ctx) returns (e: Enc)
    requires Coded(goal, e0, ctx, A, At(Lit(6, 5, false), 0x309077E000, 0x118C2000, 2))
    requires Nine(e0, [1087, 1087, 961, 992, 1056, 1056, 1056, 1056, 992])
    requires Plain(ctx)
    ensures Coded(goal, e, ctx, A, At(Lit(3, 44, false), 0x3098F7BF80, 0x267D140, 2))
    ensures Nine(e, [1087, 1087, 961, 961, 1087, 1087, 1056, 1056, 992])
  {
    hide Coded, Leads, Nine, Plain, Taken, Below, Adapt;
    var a, ps := At(Lit(6, 5, false), 0x309077E000, 0x118C2000, 2), [1087, 1087, 961, 992, 1056, 1056, 1056, 1056, 992];
    LiteralMiddle(ctx);
    SecondMiddleNumbers();
    Adapted();
    e := e0;
    e, a, ps := Bit(goal, e, ctx, A, a, 3, ps, 1, At(Lit(5, 11, false), 0x3098F7BF80, 0x90C4080, 2));
    e, a, ps := Bit(goal, e, ctx, A, a, 4, ps, 0, At(Lit(4, 22, false), 0x3098F7BF80, 0x4AA5100, 2));
    e, a, ps := Bit(goal, e, ctx, A, a, 5, ps, 0, At(Lit(3, 44, false), 0x3098F7BF80, 0x267D140, 2));
    assert ps == [1087, 1087, 961, 961, 1087, 1087, 1056, 1056, 992];
  }

  lemma SecondBottomNumbers()
    ensures Taken(At(Lit(3, 44, false), 0x3098F7BF80, 0x267D140, 2), Below(0x267D140, 1056), 0, Lit(2, 88, false)) ==
            At(Lit(2, 88, false), 0x3098F7BF80, 0x13D8740, 2)
    ensures Taken(At(Lit(2, 88, false), 0x3098F7BF80, 0x13D8740, 2), Below(0x13D8740, 1056), 0, Lit(1, 176, false)) ==
            At(Lit(1, 176, false), 0x3098F7BF8000, 0xA3B60000, 3)
    ensures Taken(At(Lit(1, 176, false), 0x3098F7BF8000, 0xA3B60000, 3), Below(0xA3B60000, 992), 1, Done(A)) ==
            At(Done(A), 0x3099470BA800, 0x5469D800, 3)
  {
  }

  lemma SecondBottom(goal: Enc, e0: Enc, ctx: Ctx) returns (e: Enc)
    requires Coded(goal, e0, ctx, A, At(Lit(3, 44, false), 0x3098F7BF80, 0x267D140, 2))
    requires Nine(e0, [1087, 1087, 961, 961, 1087, 1087, 1056, 1056, 992])
    requires Plain(ctx)
    ensures Coded(goal, e, ctx, A, At(Done(A), 0x3099470BA800, 0x5469D800, 3))
    ensures Nine(e, [1087, 1087, 961, 961, 1087, 1087, 1087, 1087, 961])
  {
    hide Coded, Leads, Nine, Plain, Taken, Below, Adapt;
    var a, ps := At(Lit(3, 44, false), 0x3098F7BF80, 0x267D140, 2), [1087, 1087, 961, 961, 1087, 1087, 1056, 1056, 992];
    LiteralBottom(ctx);
    SecondBottomNumbers();
    Adapted();
    e := e0;
    e, a, ps := Bit(goal, e, ctx, A, a, 6, ps, 0, At(Lit(2, 88, false), 0x3098F7BF80, 0x13D8740, 2));
    e, a, ps := Bit(goal, e, ctx, A, a, 7, ps, 0, At(Lit(1, 176, false), 0x3098F7BF8000, 0xA3B60000, 3));
    e, a, ps := Bit(goal, e, ctx, A, a, 8, ps, 1, At(Done(A), 0x3099470BA800, 0x5469D800, 3));
    assert ps == [1087, 1087, 961, 961, 1087, 1087, 1087, 1087, 961];
  }

  // ----- The stream of the two literals -----

  const STREAM: seq<byte> := [0x00, 0x30, 0x99, 0x47, 0x0B, 0xA8, 0x00]

  lemma Starts(e: Enc, ctx: Ctx, lo: nat, range: nat, count: nat)
    requires EncInv(e) && Val(e) == lo && e.range == range && Count(e) == count
    ensures Coded(Emit(e, ctx, Start, A), e, ctx, A, At(Start, lo, range, count))
  {
    hide Emit, Val, EncInv;
  }

  lemma Ends(goal: Enc, e: Enc, ctx: Ctx, a: At)
    requires Coded(goal, e, ctx, A, a) && a.p.Done?
    ensures goal == e && EncInv(e) && Val(e) == a.lo && e.range == a.range && Count(e) == a.count
  {
    hide Val, EncInv;
    EmitDone(e, ctx, a.p, A);
  }

  lemma AllNew()
    ensures Nine(ENC_INIT, [1024, 1024, 1024, 1024, 1024, 1024, 1024, 1024, 1024])
    ensures EncInv(ENC_INIT) && Val(ENC_INIT) == 0 && Count(ENC_INIT) == 1
  {
    assert Pending(ENC_INIT) == [0];
  }

  lemma Sized(e: Enc)
    requires EncInv(e)
    ensures e.cacheSize >= 1
  {
  }

  lemma FirstLiteral(ctx: Ctx) returns (e: Enc)
    requires Plain(ctx)
    ensures e == Emit(ENC_INIT, ctx, Start, A)
    ensures EncInv(e) && Val(e) == 0x307FFC0000 && e.range == 0x80000000 && Count(e) == 2
    ensures Nine(e, [1056, 1056, 992, 992, 1056, 1056, 1056, 1056, 992])
  {
    hide Emit, Val, EncInv, Nine, Coded, Plain;
    AllNew();
    var goal := Emit(ENC_INIT, ctx, Start, A);
    Starts(ENC_INIT, ctx, 0, 0xFFFF_FFFF, 1);
    e := FirstTop(goal, ENC_INIT, ctx);
    e := FirstMiddle(goal, e, ctx);
    e := FirstBottom(goal, e, ctx);
    Ends(goal, e, ctx, At(Done(A), 0x307FFC0000, 0x80000000, 2));
  }

  lemma SecondLiteral(e0: Enc, ctx: Ctx) returns (e: Enc)
    requires Plain(ctx) && EncInv(e0) && Val(e0) == 0x307FFC0000 && e0.range == 0x80000000 && Count(e0) == 2
    requires Nine(e0, [1056, 1056, 992, 992, 1056, 1056, 1056, 1056, 992])
    ensures e == Emit(e0, ctx, Start, A) && EncInv(e) && Val(e) == 0x3099470BA800 && Count(e) == 3
  {
    hide Emit, Val, EncInv, Nine, Coded, Plain;
    Sized(e0);
    var goal := Emit(e0, ctx, Start, A);
    Starts(e0, ctx, 0x307FFC0000, 0x80000000, 2);
    e := SecondTop(goal, e0, ctx);
    e := SecondMiddle(goal, e, ctx);
    e := SecondBottom(goal, e, ctx);
    Ends(goal, e, ctx, At(Done(A), 0x3099470BA800, 0x5469D800, 3));
  }

  lemma StreamValue()
    ensures BigEndian(STREAM) == 0x3099470BA800
  {
    hide BigEndian;
    BigEndianNone();
    assert STREAM[..0] == [] && STREAM[..|STREAM|] == STREAM;
    BigEndianPrefix(STREAM, 0);
    BigEndianPrefix(STREAM, 1);
    BigEndianPrefix(STREAM, 2);
    BigEndianPrefix(STREAM, 3);
    BigEndianPrefix(STREAM, 4);
    BigEndianPrefix(STREAM, 5);
    BigEndianPrefix(STREAM, 6);
  }

  lemma BigEndianNone()
    ensures BigEndian([]) == 0
  {
  }

  /** Two literals of the byte 0x61, without context bits and without an end mark, are these seven
      bytes. */
  lemma {:induction false} KnownStream(pr: Props)
    requires PropsOk(pr) && pr.lc == pr.lp == pr.pb == 0
    ensures Parses(pr, [0x61, 0x61], 0, SENDER_INIT.reps, [A, A])
    ensures EncodeStream(pr, [0x61, 0x61], [A, A], false) == STREAM
  {
    hide Emit, Val, EncInv, Nine, Flush;
    var d: seq<byte>, x0 := [0x61, 0x61], SENDER_INIT;
    Parsed(pr, d);
    PlainHere(pr, d, x0);
    var e1 := FirstLiteral(SendCtx(pr, d, x0));
    var x1 := Send(pr, d, x0, A);
    PlainHere(pr, d, x1);
    var e2 := SecondLiteral(e1, SendCtx(pr, d, x1));
    SentBoth(pr, d, x0, x1, Send(pr, d, x1, A));
    FlushExact(e2);
    StreamValue();
    BeInjective(Flush(e2).out, STREAM);
  }

  lemma Parsed(pr: Props, d: seq<byte>)
    requires PropsOk(pr) && d == [0x61, 0x61]
    ensures Parses(pr, d, 0, SENDER_INIT.reps, [A, A]) && Parses(pr, d, 1, SENDER_INIT.reps, [A])
    ensures Parses(pr, d, 2, SENDER_INIT.reps, [])
    ensures Admissible(pr, d, 0, SENDER_INIT.reps, A) && Admissible(pr, d, 1, SENDER_INIT.reps, A)
  {
    assert [A, A][1..] == [A] && [A][1..] == [];
  }

  lemma PlainHere(pr: Props, d: seq<byte>, x: Sender)
    requires PropsOk(pr) && pr.lc == pr.lp == pr.pb == 0 && SenderOk(pr, d, x) && x.state == 0
    ensures Plain(SendCtx(pr, d, x))
  {
    Pow2Values();
    if x.pos > 0 { ShrSmall(d[x.pos - 1]); }
  }

  lemma ShrSmall(b: byte)
    ensures Shr(b, 8) == 0
  {
    ShrIsQuotient(b, 8);
    Pow2Values();
  }

  lemma {:induction false} SentBoth(pr: Props, d: seq<byte>, x0: Sender, x1: Sender, x2: Sender)
    requires PropsOk(pr) && d == [0x61, 0x61] && x0 == SENDER_INIT && Parses(pr, d, 0, x0.reps, [A, A])
    requires SenderOk(pr, d, x0) && x1 == Send(pr, d, x0, A) && SenderOk(pr, d, x1) && x2 == Send(pr, d, x1, A)
    ensures SendAll(pr, d, x0, [A, A]) == x2
  {
    hide Emit;
    Parsed(pr, d);
    assert [A, A][1..] == [A] && [A][1..] == [];
    SentNone(pr, d, x2);
  }

  lemma SentNone(pr: Props, d: seq<byte>, x: Sender)
    requires SenderOk(pr, d, x) && Parses(pr, d, x.pos, x.reps, [])
    ensures SendAll(pr, d, x, []) == x
  {
  }

  // ----- The decisions of the other symbols -----

  /** The decisions of the longest match, with two direct and four align bits. */
  lemma HighLength(ctx: Ctx, sym: Symbol)
    requires sym == Match(273, 212)
    ensures Leads(ctx, sym, Start, Adaptive(IsMatch(ctx.state, ctx.posState)), 1, AskRep)
    ensures Leads(ctx, sym, AskRep, Adaptive(IsRep(ctx.state)), 0, Choice(KMatch))
    ensures Leads(ctx, sym, Choice(KMatch), Adaptive(LenChoice(false)), 1, Choice2(KMatch))
    ensures Leads(ctx, sym, Choice2(KMatch), Adaptive(LenChoice2(false)), 1, Len(KMatch, 2, 8, 1))
  {
    hide SlotOf;
    KnownSlots();
  }

  lemma HighLengthBits(ctx: Ctx, sym: Symbol)
    requires sym == Match(273, 212)
    ensures Leads(ctx, sym, Len(KMatch, 2, 8, 1), Adaptive(LenHigh(false, 1)), 1, Len(KMatch, 2, 7, 3))
    ensures Leads(ctx, sym, Len(KMatch, 2, 7, 3), Adaptive(LenHigh(false, 3)), 1, Len(KMatch, 2, 6, 7))
  {
    hide SlotOf;
    KnownSlots();
  }

  lemma HighLengthMore(ctx: Ctx, sym: Symbol)
    requires sym == Match(273, 212)
    ensures Leads(ctx, sym, Len(KMatch, 2, 6, 7), Adaptive(LenHigh(false, 7)), 1, Len(KMatch, 2, 5, 15))
    ensures Leads(ctx, sym, Len(KMatch, 2, 5, 15), Adaptive(LenHigh(false, 15)), 1, Len(KMatch, 2, 4, 31))
  {
    hide SlotOf;
    KnownSlots();
  }

  lemma HighLengthRest(ctx: Ctx, sym: Symbol)
    requires sym == Match(273, 212)
    ensures Leads(ctx, sym, Len(KMatch, 2, 4, 31), Adaptive(LenHigh(false, 31)), 1, Len(KMatch, 2, 3, 63))
    ensures Leads(ctx, sym, Len(KMatch, 2, 3, 63), Adaptive(LenHigh(false, 63)), 1, Len(KMatch, 2, 2, 127))
  {
    hide SlotOf;
    KnownSlots();
  }

  lemma HighLengthEnd(ctx: Ctx, sym: Symbol)
    requires sym == Match(273, 212)
    ensures Leads(ctx, sym, Len(KMatch, 2, 2, 127), Adaptive(LenHigh(false, 127)), 1, Len(KMatch, 2, 1, 255))
    ensures Leads(ctx, sym, Len(KMatch, 2, 1, 255), Adaptive(LenHigh(false, 255)), 1, Slot(273, 6, 1))
  {
    hide SlotOf;
    KnownSlots();
  }

  lemma FarSlot(ctx: Ctx, sym: Symbol)
    requires sym == Match(273, 212)
    ensures Leads(ctx, sym, Slot(273, 6, 1), Adaptive(PosSlot(3, 1)), 0, Slot(273, 5, 2))
    ensures Leads(ctx, sym, Slot(273, 5, 2), Adaptive(PosSlot(3, 2)), 0, Slot(273, 4, 4))
    ensures Leads(ctx, sym, Slot(273, 4, 4), Adaptive(PosSlot(3, 4)), 1, Slot(273, 3, 9))
    ensures Leads(ctx, sym, Slot(273, 3, 9), Adaptive(PosSlot(3, 9)), 1, Slot(273, 2, 19))
    ensures Leads(ctx, sym, Slot(273, 2, 19), Adaptive(PosSlot(3, 19)), 1, Slot(273, 1, 39))
    ensures Leads(ctx, sym, Slot(273, 1, 39), Adaptive(PosSlot(3, 39)), 1, Even(273, 15, 2, 0x3))
  {
    hide SlotOf;
    KnownSlots();
  }

  lemma DirectBits(ctx: Ctx, sym: Symbol)
    requires sym == Match(273, 212)
    ensures Leads(ctx, sym, Even(273, 15, 2, 0x3), Direct, 0, Even(273, 15, 1, 0x6))
    ensures Leads(ctx, sym, Even(273, 15, 1, 0x6), Direct, 1, Aligned(273, 0, 1, 0xD0))
  {
    hide SlotOf;
    KnownSlots();
  }

  lemma AlignBits(ctx: Ctx, sym: Symbol)
    requires sym == Match(273, 212)
    ensures Leads(ctx, sym, Aligned(273, 0, 1, 0xD0), Adaptive(Align(1)), 0, Aligned(273, 1, 2, 0xD0))
    ensures Leads(ctx, sym, Aligned(273, 1, 2, 0xD0), Adaptive(Align(2)), 0, Aligned(273, 2, 4, 0xD0))
    ensures Leads(ctx, sym, Aligned(273, 2, 4, 0xD0), Adaptive(Align(4)), 1, Aligned(273, 3, 9, 0xD4))
    ensures Leads(ctx, sym, Aligned(273, 3, 9, 0xD4), Adaptive(Align(9)), 0, Done(Match(273, 212)))
  {
    hide SlotOf;
    KnownSlots();
  }

  /** A length of the middle part, and a distance with a footer of three bits. */
  lemma MidLength(ctx: Ctx, sym: Symbol)
    requires sym == Match(12, 20)
    ensures Leads(ctx, sym, Start, Adaptive(IsMatch(ctx.state, ctx.posState)), 1, AskRep)
    ensures Leads(ctx, sym, AskRep, Adaptive(IsRep(ctx.state)), 0, Choice(KMatch))
    ensures Leads(ctx, sym, Choice(KMatch), Adaptive(LenChoice(false)), 1, Choice2(KMatch))
    ensures Leads(ctx, sym, Choice2(KMatch), Adaptive(LenChoice2(false)), 0, Len(KMatch, 1, 3, 1))
    ensures Leads(ctx, sym, Len(KMatch, 1, 3, 1), Adaptive(LenMid(false, ctx.posState, 1)), 0, Len(KMatch, 1, 2, 2))
    ensures Leads(ctx, sym, Len(KMatch, 1, 2, 2), Adaptive(LenMid(false, ctx.posState, 2)), 1, Len(KMatch, 1, 1, 5))
    ensures Leads(ctx, sym, Len(KMatch, 1, 1, 5), Adaptive(LenMid(false, ctx.posState, 5)), 0, Slot(12, 6, 1))
  {
    hide SlotOf;
    KnownSlots();
  }

  lemma NearSlot(ctx: Ctx, sym: Symbol)
    requires sym == Match(12, 20)
    ensures Leads(ctx, sym, Slot(12, 6, 1), Adaptive(PosSlot(3, 1)), 0, Slot(12, 5, 2))
    ensures Leads(ctx, sym, Slot(12, 5, 2), Adaptive(PosSlot(3, 2)), 0, Slot(12, 4, 4))
    ensures Leads(ctx, sym, Slot(12, 4, 4), Adaptive(PosSlot(3, 4)), 1, Slot(12, 3, 9))
    ensures Leads(ctx, sym, Slot(12, 3, 9), Adaptive(PosSlot(3, 9)), 0, Slot(12, 2, 18))
    ensures Leads(ctx, sym, Slot(12, 2, 18), Adaptive(PosSlot(3, 18)), 0, Slot(12, 1, 36))
    ensures Leads(ctx, sym, Slot(12, 1, 36), Adaptive(PosSlot(3, 36)), 0, Spec(12, 8, 0, 1, 16))
  {
    hide SlotOf;
    KnownSlots();
  }

  lemma FooterBits(ctx: Ctx, sym: Symbol)
    requires sym == Match(12, 20)
    ensures Leads(ctx, sym, Spec(12, 8, 0, 1, 16), Adaptive(SpecPos(8)), 0, Spec(12, 8, 1, 2, 16))
    ensures Leads(ctx, sym, Spec(12, 8, 1, 2, 16), Adaptive(SpecPos(9)), 0, Spec(12, 8, 2, 4, 16))
  {
    hide SlotOf;
    KnownSlots();
  }

  lemma FooterEnd(ctx: Ctx, sym: Symbol)
    requires sym == Match(12, 20)
    ensures Leads(ctx, sym, Spec(12, 8, 2, 4, 16), Adaptive(SpecPos(11)), 1, Done(Match(12, 20)))
  {
    hide SlotOf;
    KnownSlots();
  }

  /** A literal after a match: while its bits are those of the byte at the recent distance, the
      cells are those of this byte. */
  lemma Matched(ctx: Ctx, sym: Symbol)
    requires sym == Literal(0x62) && ctx.state >= 7 && ctx.matchByte == 0x61
    ensures Leads(ctx, sym, Start, Adaptive(IsMatch(ctx.state, ctx.posState)), 0, Lit(8, 1, true))
    ensures Leads(ctx, sym, Lit(8, 1, true), Adaptive(LitProb(ctx.litCtx, 257)), 0, Lit(7, 2, true))
    ensures Leads(ctx, sym, Lit(7, 2, true), Adaptive(LitProb(ctx.litCtx, 514)), 1, Lit(6, 5, true))
    ensures Leads(ctx, sym, Lit(6, 5, true), Adaptive(LitProb(ctx.litCtx, 517)), 1, Lit(5, 11, true))
    ensures Leads(ctx, sym, Lit(5, 11, true), Adaptive(LitProb(ctx.litCtx, 267)), 0, Lit(4, 22, true))
  {
  }

  lemma MatchedRest(ctx: Ctx, sym: Symbol)
    requires sym == Literal(0x62) && ctx.state >= 7 && ctx.matchByte == 0x61
    ensures Leads(ctx, sym, Lit(4, 22, true), Adaptive(LitProb(ctx.litCtx, 278)), 0, Lit(3, 44, true))
    ensures Leads(ctx, sym, Lit(3, 44, true), Adaptive(LitProb(ctx.litCtx, 300)), 0, Lit(2, 88, true))
    ensures Leads(ctx, sym, Lit(2, 88, true), Adaptive(LitProb(ctx.litCtx, 344)), 1, Lit(1, 177, false))
    ensures Leads(ctx, sym, Lit(1, 177, false), Adaptive(LitProb(ctx.litCtx, 177)), 0, Done(Literal(0x62)))
  {
  }

  /** The choice of a recent distance. */
  lemma Recent0(ctx: Ctx, sym: Symbol)
    requires sym == Rep(0, 3)
    ensures Leads(ctx, sym, Start, Adaptive(IsMatch(ctx.state, ctx.posState)), 1, AskRep)
    ensures Leads(ctx, sym, AskRep, Adaptive(IsRep(ctx.state)), 1, AskG0)
    ensures Leads(ctx, sym, AskG0, Adaptive(IsRepG0(ctx.state)), 0, AskG0Long)
    ensures Leads(ctx, sym, AskG0Long, Adaptive(IsRep0Long(ctx.state, ctx.posState)), 1, Choice(KRep(0)))
  {
  }

  lemma Recent1(ctx: Ctx, sym: Symbol)
    requires sym == Rep(1, 3)
    ensures Leads(ctx, sym, Start, Adaptive(IsMatch(ctx.state, ctx.posState)), 1, AskRep)
    ensures Leads(ctx, sym, AskRep, Adaptive(IsRep(ctx.state)), 1, AskG0)
    ensures Leads(ctx, sym, AskG0, Adaptive(IsRepG0(ctx.state)), 1, AskG1)
    ensures Leads(ctx, sym, AskG1, Adaptive(IsRepG1(ctx.state)), 0, Choice(KRep(1)))
  {
  }

  lemma Recent2(ctx: Ctx, sym: Symbol)
    requires sym == Rep(2, 3)
    ensures Leads(ctx, sym, Start, Adaptive(IsMatch(ctx.state, ctx.posState)), 1, AskRep)
    ensures Leads(ctx, sym, AskRep, Adaptive(IsRep(ctx.state)), 1, AskG0)
    ensures Leads(ctx, sym, AskG0, Adaptive(IsRepG0(ctx.state)), 1, AskG1)
    ensures Leads(ctx, sym, AskG1, Adaptive(IsRepG1(ctx.state)), 1, AskG2)
    ensures Leads(ctx, sym, AskG2, Adaptive(IsRepG2(ctx.state)), 0, Choice(KRep(2)))
  {
  }

  lemma Recent3(ctx: Ctx, sym: Symbol)
    requires sym == Rep(3, 3)
    ensures Leads(ctx, sym, Start, Adaptive(IsMatch(ctx.state, ctx.posState)), 1, AskRep)
    ensures Leads(ctx, sym, AskRep, Adaptive(IsRep(ctx.state)), 1, AskG0)
    ensures Leads(ctx, sym, AskG0, Adaptive(IsRepG0(ctx.state)), 1, AskG1)
    ensures Leads(ctx, sym, AskG1, Adaptive(IsRepG1(ctx.state)), 1, AskG2)
    ensures Leads(ctx, sym, AskG2, Adaptive(IsRepG2(ctx.state)), 1, Choice(KRep(3)))
  {
  }

  lemma RecentByte(ctx: Ctx, sym: Symbol)
    requires sym == ShortRep
    ensures Leads(ctx, sym, Start, Adaptive(IsMatch(ctx.state, ctx.posState)), 1, AskRep)
    ensures Leads(ctx, sym, AskRep, Adaptive(IsRep(ctx.state)), 1, AskG0)
    ensures Leads(ctx, sym, AskG0, Adaptive(IsRepG0(ctx.state)), 0, AskG0Long)
    ensures Leads(ctx, sym, AskG0Long, Adaptive(IsRep0Long(ctx.state, ctx.posState)), 0, Done(ShortRep))
  {
  }

  lemma RecentLength(ctx: Ctx, i: nat, sym: Symbol)
    requires i < 4 && sym == Rep(i, 3)
    ensures Leads(ctx, sym, Choice(KRep(i)), Adaptive(LenChoice(true)), 0, Len(KRep(i), 0, 3, 1))
    ensures Leads(ctx, sym, Len(KRep(i), 0, 3, 1), Adaptive(LenLow(true, ctx.posState, 1)), 0, Len(KRep(i), 0, 2, 2))
    ensures Leads(ctx, sym, Len(KRep(i), 0, 2, 2), Adaptive(LenLow(true, ctx.posState, 2)), 0, Len(KRep(i), 0, 1, 4))
    ensures Leads(ctx, sym, Len(KRep(i), 0, 1, 4), Adaptive(LenLow(true, ctx.posState, 4)), 1, Done(sym))
  {
  }

  /** The end mark has all bits of its distance set. */
  lemma EndMarkBits(ctx: Ctx, n: nat)
    requires 1 <= n <= 26
    ensures END_MARK == Match(2, 0xFFFF_FFFF)
    ensures Leads(ctx, END_MARK, Even(2, 63, n, 4 * Pow2(26 - n) - 1), Direct, 1,
                  if n == 1 then Aligned(2, 0, 1, 0xFFFF_FFF0) else Even(2, 63, n - 1, 4 * Pow2(27 - n) - 1))
  {
    hide SlotOf, BitOf, Pow2;
    AllOnes(n);
    Doubled(26 - n);
  }

  lemma Doubled(n: nat)
    ensures Pow2(n + 1) == 2 * Pow2(n) && (n == 25 ==> Pow2(n) == 0x200_0000)
  {
    Pow2Values();
  }

  lemma AllOnes(n: nat)
    requires 1 <= n <= 26
    ensures BitOf(0xFFF_FFFF, n - 1) == 1
  {
    hide Shr, Pow2;
    ShrOnes(n - 1);
    Doubled(28 - n);
    assert (2 * Pow2(28 - n) - 1) % 2 == 1;
  }

  lemma {:induction false} ShrOnes(n: nat)
    requires n <= 27
    ensures Shr(0xFFF_FFFF, n) == Pow2(28 - n) - 1
  {
    if n == 0 {
      Pow2Values();
      Pow2Add(26, 2);
    } else {
      ShrOnes(n - 1);
      Doubled(28 - n);
    }
  }

  lemma KnownSlots()
    ensures SlotOf(0) == 0 && SlotOf(20) == 8 && SlotOf(212) == 15
  {
    Pow2Values();
    SlotUnique(20, 8);
    SlotUnique(212, 15);
  }

  // ----- Contexts -----

  /** The state after each kind of symbol, as the decoder computes it. */
  lemma NextStates(state: nat, sym: Symbol)
    requires state < 12
    ensures NextState(state, sym) == match sym
      case Literal(_) => if state < 4 then 0 else if state < 10 then state - 3 else state - 6
      case Match(_, _) => if state < 7 then 7 else 10
      case Rep(_, _) => if state < 7 then 8 else 11
      case ShortRep => if state < 7 then 9 else 11
  {
  }

  /** Slots of the lengths 2, 3 and 4 have cells of their own. */
  lemma LengthContexts(len: nat)
    requires 5 <= len <= 273
    ensures LenState(2) == 0 && LenState(3) == 1 && LenState(4) == 2 && LenState(len) == 3
  {
  }

  lemma NextDistances(len: nat)
    ensures NextReps(Reps(1, 2, 3, 4), Match(len, 8)) == Reps(9, 1, 2, 3)
    ensures NextReps(Reps(1, 2, 3, 4), Rep(0, len)) == Reps(1, 2, 3, 4)
    ensures NextReps(Reps(1, 2, 3, 4), Rep(1, len)) == Reps(2, 1, 3, 4)
    ensures NextReps(Reps(1, 2, 3, 4), Rep(2, len)) == Reps(3, 1, 2, 4)
    ensures NextReps(Reps(1, 2, 3, 4), Rep(3, len)) == Reps(4, 1, 2, 3)
  {
  }

  /** Two literal context bits, two bits of the position for literals, and one for the rest. */
  lemma Contexts(pr: Props, out: seq<byte>)
    requires PropsOk(pr) && pr.lc == 2 && pr.lp == 2 && pr.pb == 1
    requires out == [0x61, 0xF2, 0x83, 0x64, 0x65, 0xA6, 0x67]
    ensures CtxOf(pr, 0, 1, []) == Ctx(0, 0, 0, 0)
    ensures CtxOf(pr, 4, 1, out[..2]) == Ctx(4, 0, 11, 0xF2)
    ensures CtxOf(pr, 5, 2, out[..3]) == Ctx(5, 1, 14, 0xF2)
    ensures CtxOf(pr, 8, 6, out[..6]) == Ctx(8, 0, 10, 0x61)
    ensures CtxOf(pr, 9, 3, out) == Ctx(9, 1, 13, 0x65)
  {
    Pow2Values();
  }
}
