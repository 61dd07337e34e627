/** Encoding any admissible parse of any data and decoding the stream gives the data back. */
module LzmaRoundTrip {
  import opened Numbers
  import opened RangeCoder
  import opened LzmaSymbols
  import opened LzmaMachine

  /** `len` bytes at `pos` repeat the bytes `d` before them. */
  predicate Repeats(data: seq<byte>, pos: nat, d: nat, len: nat) {
    1 <= d <= pos && pos + len <= |data| && forall k | pos <= k < pos + len :: data[k] == data[k - d]
  }

  function SymLen(sym: Symbol): nat {
    match sym
    case Match(len, _) => len
    case Rep(_, len) => len
    case _ => 1
  }

  /** What the parser may propose at `pos`: a symbol that describes the next bytes of the data
      with a distance inside the dictionary. How it chooses is not restricted. */
  predicate Admissible(pr: Props, data: seq<byte>, pos: nat, r: Reps, sym: Symbol) {
    match sym
    case Literal(b) => pos < |data| && data[pos] == b
    case Match(len, dist) => ValidLen(len) && dist < pr.dicSize && Repeats(data, pos, dist + 1, len)
    case Rep(i, len) => i < 4 && ValidLen(len) && Repeats(data, pos, RepAt(r, i), len)
    case ShortRep => Repeats(data, pos, r.r0, 1)
  }

  /** `syms` is an admissible parse of the data from `pos` to its end. */
  predicate Parses(pr: Props, data: seq<byte>, pos: nat, r: Reps, syms: seq<Symbol>)
    decreases syms
  {
    if syms == [] then pos == |data|
    else
      && Admissible(pr, data, pos, r, syms[0])
      && Parses(pr, data, pos + SymLen(syms[0]), NextReps(r, syms[0]), syms[1..])
  }

  /** Where the encoder stands: everything that decides what it emits next. */
  datatype Sender = Sender(e: Enc, state: nat, reps: Reps, pos: nat)

  const SENDER_INIT: Sender := Sender(ENC_INIT, 0, Reps(1, 1, 1, 1), 0)

  predicate SenderOk(pr: Props, data: seq<byte>, x: Sender) {
    PropsOk(pr) && x.e.cacheSize >= 1 && x.state < 12 && x.pos <= |data|
  }

  function SendCtx(pr: Props, data: seq<byte>, x: Sender): Ctx
    requires SenderOk(pr, data, x)
  {
    CtxOf(pr, x.state, x.reps.r0, data[..x.pos])
  }

  function Send(pr: Props, data: seq<byte>, x: Sender, sym: Symbol): (x': Sender)
    requires SenderOk(pr, data, x)
    ensures Admissible(pr, data, x.pos, x.reps, sym) ==> SenderOk(pr, data, x')
  {
    Sender(Emit(x.e, SendCtx(pr, data, x), Start, sym), NextState(x.state, sym), NextReps(x.reps, sym),
           x.pos + SymLen(sym))
  }

  function SendAll(pr: Props, data: seq<byte>, x: Sender, syms: seq<Symbol>): (x': Sender)
    requires SenderOk(pr, data, x) && Parses(pr, data, x.pos, x.reps, syms)
    ensures SenderOk(pr, data, x') && x'.pos == |data|
    decreases syms
  {
    hide Emit;
    if syms == [] then x else SendAll(pr, data, Send(pr, data, x, syms[0]), syms[1..])
  }

  /** The end mark is a match that no data can contain. */
  function SendEnd(pr: Props, data: seq<byte>, x: Sender, mark: bool): (e': Enc)
    requires SenderOk(pr, data, x)
    ensures e'.cacheSize >= 1
  {
    if mark then Emit(x.e, SendCtx(pr, data, x), Start, END_MARK) else x.e
  }

  function EncodeStream(pr: Props, data: seq<byte>, syms: seq<Symbol>, mark: bool): seq<byte>
    requires PropsOk(pr) && Parses(pr, data, 0, SENDER_INIT.reps, syms)
  {
    Flush(SendEnd(pr, data, SendAll(pr, data, SENDER_INIT, syms), mark)).out
  }

  // ----- The decoder's start -----

  function InitCode(s: seq<byte>): nat {
    ((ByteAt(s, 1) * 0x100 + ByteAt(s, 2)) * 0x100 + ByteAt(s, 3)) * 0x100 + ByteAt(s, 4)
  }

  /** The machine after LzmaDec_InitRc and LzmaDec_InitStateReal. */
  function InitMach(s: seq<byte>): Mach {
    Mach(Dec(0xFFFF_FFFF, InitCode(s), 5, map[]), 0, Reps(1, 1, 1, 1), [])
  }

  lemma InitMachOk(pr: Props, s: seq<byte>)
    requires PropsOk(pr)
    ensures MachOk(pr, InitMach(s))
  {
  }

  /** Any stream inside the whole interval starts with a zero byte, and the decoder starts in
      step with the encoder. */
  lemma InitInStep(s: seq<byte>)
    requires Fits(s, ENC_INIT)
    ensures |s| >= 5 && s[0] == 0 && InStep(s, ENC_INIT, InitMach(s).d)
  {
    BigEndianPrefix(s, 0);
    BigEndianPrefix(s, 1);
    BigEndianPrefix(s, 2);
    BigEndianPrefix(s, 3);
    BigEndianPrefix(s, 4);
    assert Pending(ENC_INIT) == [0];
  }

  // ----- One symbol -----

  lemma {:induction false} CopyRepeats(data: seq<byte>, pos: nat, d: nat, len: nat)
    requires Repeats(data, pos, d, len)
    ensures Copy(data[..pos], d, len) == data[..pos + len]
    decreases len
  {
    if len > 0 {
      assert data[..pos] + [data[..pos][pos - d]] == data[..pos + 1];
      CopyRepeats(data, pos + 1, d, len - 1);
    }
  }

  lemma AdmissibleExtends(pr: Props, data: seq<byte>, pos: nat, r: Reps, sym: Symbol)
    requires PropsOk(pr) && Admissible(pr, data, pos, r, sym) && RepsOk(r, pos)
    ensures pos + SymLen(sym) <= |data| && ValidSymbol(sym) && Reaches(pr, pos, sym)
    ensures sym.Match? ==> sym.dist != END_DIST && sym.dist < pos
    ensures Extend(data[..pos], r, sym) == data[..pos + SymLen(sym)]
  {
    match sym
    case Literal(b) => assert data[..pos] + [b] == data[..pos + 1];
    case Match(len, dist) => CopyRepeats(data, pos, dist + 1, len);
    case Rep(i, len) => CopyRepeats(data, pos, RepAt(r, i), len);
    case ShortRep => CopyRepeats(data, pos, r.r0, 1);
  }

  /** Encoder and decoder are in step between two symbols: same cells, states and distances,
      and the decoder has exactly the data the encoder has passed. */
  predicate Together(pr: Props, data: seq<byte>, s: seq<byte>, x: Sender, m: Mach) {
    SenderOk(pr, data, x) && EncInv(x.e) && MachOk(pr, m) && InStep(s, x.e, m.d)
    && m.state == x.state && m.reps == x.reps && m.out == data[..x.pos]
  }

  lemma SendStep(pr: Props, data: seq<byte>, s: seq<byte>, x: Sender, m: Mach, sym: Symbol)
    requires Together(pr, data, s, x, m) && Admissible(pr, data, x.pos, x.reps, sym)
    requires Fits(s, Send(pr, data, x, sym).e)
    ensures Step(pr, s, m).Going?
    ensures Together(pr, data, s, Send(pr, data, x, sym), Step(pr, s, m).m)
    ensures Step(pr, s, m).m.d.pos <= |s|
  {
    hide Emit, Run, CtxOf;
    var ctx := SendCtx(pr, data, x);
    AdmissibleExtends(pr, data, x.pos, x.reps, sym);
    EmitKeepsInv(x.e, ctx, Start, sym);
    SymbolRoundTrip(s, x.e, m.d, ctx, Start, sym);
    StepOk(pr, s, m);
  }

  lemma SendFitsBack(pr: Props, data: seq<byte>, s: seq<byte>, x: Sender, sym: Symbol)
    requires SenderOk(pr, data, x) && EncInv(x.e)
    ensures EncInv(Send(pr, data, x, sym).e)
    ensures Fits(s, Send(pr, data, x, sym).e) ==> Fits(s, x.e)
  {
    var ctx := SendCtx(pr, data, x);
    EmitKeepsInv(x.e, ctx, Start, sym);
    if Fits(s, Send(pr, data, x, sym).e) {
      EmitFitsBack(s, x.e, ctx, Start, sym);
    }
  }

  lemma {:induction false} SendAllFitsBack(pr: Props, data: seq<byte>, s: seq<byte>, x: Sender, syms: seq<Symbol>)
    requires SenderOk(pr, data, x) && EncInv(x.e) && Parses(pr, data, x.pos, x.reps, syms)
    requires Fits(s, SendAll(pr, data, x, syms).e)
    ensures Fits(s, x.e) && EncInv(SendAll(pr, data, x, syms).e)
    decreases syms
  {
    hide Emit;
    if syms != [] {
      SendFitsBack(pr, data, s, x, syms[0]);
      SendAllFitsBack(pr, data, s, Send(pr, data, x, syms[0]), syms[1..]);
    }
  }

  // ----- Whole streams -----

  /** `n` symbols further; stops early only at a bad symbol or the end mark. */
  function StepN(pr: Props, s: seq<byte>, m: Mach, n: nat): Outcome
    requires MachOk(pr, m)
    decreases n
  {
    if n == 0 then Going(m)
    else
      StepOk(pr, s, m);
      var o := Step(pr, s, m);
      if o.Going? then StepN(pr, s, o.m, n - 1) else o
  }

  /** A decoder in step with the encoder stays in step through the whole parse. */
  lemma {:induction false} SendAllStep(pr: Props, data: seq<byte>, s: seq<byte>, x: Sender, m: Mach, syms: seq<Symbol>)
    requires Together(pr, data, s, x, m) && Parses(pr, data, x.pos, x.reps, syms)
    requires Fits(s, SendAll(pr, data, x, syms).e)
    ensures StepN(pr, s, m, |syms|).Going?
    ensures Together(pr, data, s, SendAll(pr, data, x, syms), StepN(pr, s, m, |syms|).m)
    decreases syms
  {
    hide Emit;
    hide Step;
    if syms != [] {
      SendFitsBack(pr, data, s, x, syms[0]);
      SendAllFitsBack(pr, data, s, Send(pr, data, x, syms[0]), syms[1..]);
      SendStep(pr, data, s, x, m, syms[0]);
      SendAllStep(pr, data, s, Send(pr, data, x, syms[0]), Step(pr, s, m).m, syms[1..]);
    }
  }

  lemma SendEndFits(pr: Props, data: seq<byte>, x: Sender, mark: bool)
    requires SenderOk(pr, data, x) && EncInv(x.e)
    ensures EncInv(SendEnd(pr, data, x, mark))
    ensures Fits(Flush(SendEnd(pr, data, x, mark)).out, SendEnd(pr, data, x, mark))
    ensures Fits(Flush(SendEnd(pr, data, x, mark)).out, x.e)
  {
    var ctx := SendCtx(pr, data, x);
    var e := SendEnd(pr, data, x, mark);
    if mark { EmitKeepsInv(x.e, ctx, Start, END_MARK); }
    FlushExact(e);
    if mark { EmitFitsBack(Flush(e).out, x.e, ctx, Start, END_MARK); }
  }

  /** Encoding, flushing with five shifts and decoding: after as many symbols as the parse has,
      the decoder holds exactly the data. With an end mark the next symbol is the end of the
      stream, without one the decoder is already there; in both cases every byte of the stream
      has been consumed and `code` is zero. */
  lemma {:induction false} StreamRoundTrip(pr: Props, data: seq<byte>, syms: seq<Symbol>, mark: bool)
    requires PropsOk(pr) && Parses(pr, data, 0, SENDER_INIT.reps, syms)
    ensures var s := EncodeStream(pr, data, syms, mark);
      && |s| >= 5 && s[0] == 0 && MachOk(pr, InitMach(s))
      && var o := StepN(pr, s, InitMach(s), |syms|);
      && o.Going? && o.m.out == data && o.m.d.pos <= |s| && MachOk(pr, o.m)
      && (!mark ==> o.m.d.pos == |s| && o.m.d.code == 0)
      && (mark ==> var f := Step(pr, s, o.m);
           f.Ended? && f.m.out == data && f.m.d.pos == |s| && f.m.d.code == 0)
  {
    hide Emit, Step, StepN, Flush, SendAll, Val;
    var x := SendAll(pr, data, SENDER_INIT, syms);
    var e := SendEnd(pr, data, x, mark);
    var s := EncodeStream(pr, data, syms, mark);
    AllKeepsInv(pr, data, SENDER_INIT, syms);
    SendEndFits(pr, data, x, mark);
    SendAllFitsBack(pr, data, s, SENDER_INIT, syms);
    InitInStep(s);
    SendAllStep(pr, data, s, SENDER_INIT, InitMach(s), syms);
    var m := StepN(pr, s, InitMach(s), |syms|).m;
    InStepAtEnd(s, x.e, m.d);
    FlushExact(e);
    assert data[..|data|] == data;
    if mark {
      MarkStep(pr, data, s, x, m);
      InStepAtEnd(s, e, Step(pr, s, m).m.d);
    }
  }

  lemma InStepAtEnd(s: seq<byte>, e: Enc, d: Dec)
    requires e.cacheSize >= 1 && InStep(s, e, d) && TOP <= d.range
    ensures d.pos <= |s|
    ensures BigEndian(s) == Val(e) && |s| == Count(e) + 4 ==> d.pos == |s| && d.code == 0
  {
    if d.pos == |s| { assert s[..d.pos] == s; }
  }

  lemma {:induction false} AllKeepsInv(pr: Props, data: seq<byte>, x: Sender, syms: seq<Symbol>)
    requires SenderOk(pr, data, x) && EncInv(x.e) && Parses(pr, data, x.pos, x.reps, syms)
    ensures EncInv(SendAll(pr, data, x, syms).e)
    decreases syms
  {
    hide Emit;
    if syms != [] {
      SendFitsBack(pr, data, [], x, syms[0]);
      AllKeepsInv(pr, data, Send(pr, data, x, syms[0]), syms[1..]);
    }
  }

  lemma MarkStep(pr: Props, data: seq<byte>, s: seq<byte>, x: Sender, m: Mach)
    requires Together(pr, data, s, x, m) && x.pos == |data|
    requires Fits(s, SendEnd(pr, data, x, true))
    ensures Step(pr, s, m).Ended? && Step(pr, s, m).m.out == m.out
    ensures InStep(s, SendEnd(pr, data, x, true), Step(pr, s, m).m.d)
    ensures TOP <= Step(pr, s, m).m.d.range
  {
    SymbolRoundTrip(s, x.e, m.d, SendCtx(pr, data, x), Start, END_MARK);
    StepOk(pr, s, m);
  }
}
