/** The LZMA decoder as a machine that takes one whole symbol at a time, and the encoder's
    stream for any admissible parse of the data. */
module LzmaMachine {
  import opened Numbers
  import opened RangeCoder
  import opened LzmaSymbols
  import opened LzmaLookahead

  datatype Props = Props(lc: nat, lp: nat, pb: nat, dicSize: nat)

  predicate PropsOk(pr: Props) {
    pr.lc <= 8 && pr.lp <= 4 && pr.pb <= 4 && 0 < pr.dicSize < WORD
  }

  /** The four recent distances, counted as the decoder does: 1 is the previous byte. */
  datatype Reps = Reps(r0: nat, r1: nat, r2: nat, r3: nat)

  function RepAt(r: Reps, i: nat): nat {
    if i == 0 then r.r0 else if i == 1 then r.r1 else if i == 2 then r.r2 else r.r3
  }

  /** Move distance `i` to the front. */
  function Recall(r: Reps, i: nat): Reps {
    if i == 0 then r
    else if i == 1 then Reps(r.r1, r.r0, r.r2, r.r3)
    else if i == 2 then Reps(r.r2, r.r0, r.r1, r.r3)
    else Reps(r.r3, r.r0, r.r1, r.r2)
  }

  const LIT_NEXT: seq<nat> := [0, 0, 0, 0, 1, 2, 3, 4, 5, 6, 4, 5]

  function NextState(state: nat, sym: Symbol): nat
    requires state < 12
  {
    match sym
    case Literal(_) => LIT_NEXT[state]
    case Match(_, _) => if state < 7 then 7 else 10
    case Rep(_, _) => if state < 7 then 8 else 11
    case ShortRep => if state < 7 then 9 else 11
  }

  function NextReps(r: Reps, sym: Symbol): Reps {
    match sym
    case Match(_, dist) => Reps(dist + 1, r.r0, r.r1, r.r2)
    case Rep(i, _) => Recall(r, i)
    case _ => r
  }

  /** Append `len` bytes, each copied from `dist` back; source and copy may overlap. */
  function Copy(out: seq<byte>, dist: nat, len: nat): (r: seq<byte>)
    requires 1 <= dist <= |out|
    ensures |r| == |out| + len && r[..|out|] == out
    decreases len
  {
    if len == 0 then out
    else
      var next := out + [out[|out| - dist]];
      var r := Copy(next, dist, len - 1);
      assert r[..|out|] == next[..|out|];
      r
  }

  function LitCtx(pr: Props, pos: nat, prev: byte): nat
    requires PropsOk(pr)
  {
    Low(pos, pr.lp) * Pow2(pr.lc) + Shr(prev, 8 - pr.lc)
  }

  /** The context of the next symbol, from what has been decoded so far. */
  function CtxOf(pr: Props, state: nat, rep0: nat, out: seq<byte>): Ctx
    requires PropsOk(pr)
  {
    Ctx(state, Low(|out|, pr.pb),
        if |out| == 0 then 0 else LitCtx(pr, |out|, out[|out| - 1]),
        if 1 <= rep0 <= |out| then out[|out| - rep0] else 0)
  }

  datatype Mach = Mach(d: Dec, state: nat, reps: Reps, out: seq<byte>)

  predicate RepsOk(r: Reps, n: nat) {
    forall i | 0 <= i < 4 :: 1 <= RepAt(r, i) <= (if n == 0 then 1 else n)
  }

  predicate MachOk(pr: Props, m: Mach) {
    PropsOk(pr) && TOP <= m.d.range < WORD && m.state < 12
    && RepsOk(m.reps, |m.out|) && RepsOk(m.reps, pr.dicSize) && (m.out == [] ==> m.state < 7)
  }

  datatype Outcome = Going(m: Mach) | Ended(m: Mach) | Bad

  function Decoded(pr: Props, s: seq<byte>, m: Mach): (Symbol, Dec)
    requires PropsOk(pr)
  {
    Run(s, m.d, CtxOf(pr, m.state, m.reps.r0, m.out), Start, true)
  }

  /** Where the input stands after the next symbol and the normalization that follows it. */
  function After1(pr: Props, s: seq<byte>, m: Mach): Dec
    requires PropsOk(pr)
  {
    Normalize(s, Decoded(pr, s, m).1)
  }

  /** The bytes a symbol stands for, or nothing if it points before the start of the data or
      outside the dictionary. */
  predicate Reaches(pr: Props, n: nat, sym: Symbol) {
    match sym
    case Literal(_) => true
    case Match(_, dist) => dist < n && dist < pr.dicSize
    case _ => n > 0
  }

  function Extend(out: seq<byte>, r: Reps, sym: Symbol): seq<byte>
    requires RepsOk(r, |out|) && (sym.Literal? || |out| > 0) && (sym.Match? ==> sym.dist < |out|)
  {
    match sym
    case Literal(b) => out + [b]
    case Match(len, dist) => Copy(out, dist + 1, len)
    case Rep(i, len) =>
      RepInRange(r, i, |out|);
      Copy(out, RepAt(r, i), len)
    case ShortRep => Copy(out, RepAt(r, 0), 1)
  }

  lemma RepInRange(r: Reps, i: nat, n: nat)
    requires RepsOk(r, n) && n > 0
    ensures 1 <= RepAt(r, i) <= n
  {
    assert RepAt(r, i) == RepAt(r, if i < 4 then i else 3);
  }

  function Step(pr: Props, s: seq<byte>, m: Mach): Outcome
    requires MachOk(pr, m)
  {
    var sym := Decoded(pr, s, m).0;
    var d := After1(pr, s, m);
    if sym.Match? && sym.dist == END_DIST then Ended(m.(d := d))
    else if !Reaches(pr, |m.out|, sym) then Bad
    else Going(Mach(d, NextState(m.state, sym), NextReps(m.reps, sym), Extend(m.out, m.reps, sym)))
  }

  lemma RunSymbolOk(s: seq<byte>, d: Dec, ctx: Ctx, p: Phase, adapt: bool)
    requires Wf(p) && SymbolAhead(p)
    ensures ValidSymbol(Run(s, d, ctx, p, adapt).0)
    decreases Left(p)
  {
    if !p.Done? {
      var (b, d') := Ask(s, d, QueryOf(ctx, p), adapt);
      StepWf(ctx, p, b);
      AheadStep(ctx, p, b);
      RunSymbolOk(s, d', ctx, Next(ctx, p, b), adapt);
    }
  }

  predicate SymbolAhead(p: Phase) {
    match p
    case Done(sym) => ValidSymbol(sym)
    case Choice(k) => k.KRep? ==> k.i < 4
    case Choice2(k) => k.KRep? ==> k.i < 4
    case Len(k, _, _, _) => k.KRep? ==> k.i < 4
    case _ => true
  }

  lemma DistAheadStep(ctx: Ctx, p: Phase, b: bit)
    requires Wf(p) && (p.Slot? || p.Spec? || p.Aligned?) && Wf(Next(ctx, p, b))
    ensures SymbolAhead(Next(ctx, p, b))
  {
    hide SlotBase;
    match p
    case Slot(len, n, m) =>
      TreeStep(6, n, m, b);
    case Spec(len, slot, i, m, dist) =>
      SlotBaseSmall(slot);
      Pow2Monotone(i + 1, Footer(slot));
    case Aligned(len, i, m, dist) => AlignBitFits(dist, i, b);
  }

  lemma AheadStep(ctx: Ctx, p: Phase, b: bit)
    requires Wf(p) && !p.Done? && SymbolAhead(p) && Wf(Next(ctx, p, b))
    ensures SymbolAhead(Next(ctx, p, b))
  {
    match p
    case Len(k, part, n, m) =>
      TreeStep(PartBits(part), n, m, b);
      Pow2Values();
    case Slot(_, _, _) => DistAheadStep(ctx, p, b);
    case Spec(_, _, _, _, _) => DistAheadStep(ctx, p, b);
    case Aligned(_, _, _, _) => DistAheadStep(ctx, p, b);
    case _ =>
  }

  /** Every symbol leaves a well-formed machine that has made progress. */
  lemma StepAhead(pr: Props, s: seq<byte>, m: Mach)
    requires MachOk(pr, m)
    ensures After(m.d, After1(pr, s, m)) && TOP <= After1(pr, s, m).range < WORD
    ensures ValidSymbol(Decoded(pr, s, m).0)
  {
    hide Run, CtxOf;
    var ctx := CtxOf(pr, m.state, m.reps.r0, m.out);
    RunProgress(s, m.d, m.d, ctx, Start, true);
    RunSymbolOk(s, m.d, ctx, Start, true);
  }

  lemma StepOk(pr: Props, s: seq<byte>, m: Mach)
    requires MachOk(pr, m)
    ensures After(m.d, After1(pr, s, m)) && TOP <= After1(pr, s, m).range < WORD
    ensures Step(pr, s, m).Going? ==> MachOk(pr, Step(pr, s, m).m) && |Step(pr, s, m).m.out| > |m.out|
  {
    hide Run, CtxOf, Decoded, After1, After;
    StepAhead(pr, s, m);
    if Step(pr, s, m).Going? {
      NextRepsOk(m.reps, |m.out|, Decoded(pr, s, m).0, |Step(pr, s, m).m.out|);
      NextRepsOk(m.reps, pr.dicSize, Decoded(pr, s, m).0, pr.dicSize);
    }
  }

  lemma NextRepsOk(r: Reps, n: nat, sym: Symbol, n': nat)
    requires RepsOk(r, n) && n' >= n && n' > 0 && (sym.Match? ==> sym.dist < n)
    ensures RepsOk(NextReps(r, sym), n')
  {
    assert RepAt(r, 0) == r.r0 && RepAt(r, 1) == r.r1 && RepAt(r, 2) == r.r2 && RepAt(r, 3) == r.r3;
  }
}
