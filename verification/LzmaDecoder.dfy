/** LzmaDec.c: the decoder and its streaming front end, in place. LzmaDec_DecodeReal keeps copies
    of some fields in locals and writes them back on success; here the fields themselves are
    updated, which differs only after SZ_ERROR_DATA. */
module LzmaDecoder {
  import opened Numbers
  import opened RangeCoder
  import opened LzmaSymbols
  import opened LzmaLookahead
  import opened LzmaMachine
  import opened LzmaStreaming
  import opened LzmaLayout
  import opened LzmaDictionary
  import opened RangeEncoder

  const REQUIRED_INPUT_MAX: int := 20   // LZMA_REQUIRED_INPUT_MAX
  const MATCH_SPEC_LEN_START: int := 2 + 8 + 8 + 256
  const RC_INIT_SIZE: int := 5

  datatype SRes = OK | ERROR_DATA
  datatype FinishMode = FINISH_ANY | FINISH_END
  datatype Status =
    | NOT_SPECIFIED | FINISHED_WITH_MARK | NOT_FINISHED | NEEDS_MORE_INPUT | MAYBE_FINISHED_WITHOUT_MARK

  /** The bit trees the decoder reads from the top, as phases. */
  datatype TopTree = LenBits(k: Kind, part: nat) | SlotBits(len: nat)

  ghost function TreePhase(tt: TopTree, n: nat, m: nat): Phase {
    match tt
    case LenBits(k, part) => Len(k, part, n, m)
    case SlotBits(len) => Slot(len, n, m)
  }

  ghost function TreeBits(tt: TopTree): nat {
    match tt
    case LenBits(_, part) => PartBits(part)
    case SlotBits(_) => 6
  }

  ghost function TreeEnd(tt: TopTree, x: nat): Phase {
    match tt
    case LenBits(k, part) => EndLen(k, x + PartBase(part))
    case SlotBits(len) => EndSlot(len, x)
  }

  /** Where the tree's cells start, minus nothing: index `m` of the tree is `m` further. */
  ghost function TreeBase(ctx: Ctx, tt: TopTree): nat {
    match tt
    case LenBits(k, part) =>
      LenCoderBase(k.KRep?)
      + (if part == 0 then LEN_LOW + ctx.posState * 8 else if part == 1 then LEN_MID + ctx.posState * 8 else LEN_HIGH)
    case SlotBits(len) => POS_SLOT + (if len < 5 then if len >= 2 then len - 2 else 0 else 3) * 64
  }

  lemma TreeOff(ctx: Ctx, tt: TopTree, n: nat, m: nat)
    requires Wf(TreePhase(tt, n, m))
    ensures Off(QueryOf(ctx, TreePhase(tt, n, m)).cell) == TreeBase(ctx, tt) + m
  {
  }

  lemma TreeNext(ctx: Ctx, tt: TopTree, n: nat, m: nat, b: bit)
    requires Wf(TreePhase(tt, n, m))
    ensures n > 1 ==> Next(ctx, TreePhase(tt, n, m), b) == TreePhase(tt, n - 1, 2 * m + b)
    ensures n > 1 ==> 2 * m + b < Pow2(TreeBits(tt))
    ensures n == 1 ==> Pow2(TreeBits(tt)) <= 2 * m + b < 2 * Pow2(TreeBits(tt))
    ensures n == 1 ==> Next(ctx, TreePhase(tt, n, m), b) == TreeEnd(tt, 2 * m + b - Pow2(TreeBits(tt)))
  {
    hide Pow2;
    var total := TreeBits(tt);
    TreeStep(total, n, m, b);
    if n > 1 { TreeIndexBound(total, n - 1, 2 * m + b); }
  }

  lemma TreeStart(tt: TopTree)
    requires tt.LenBits? ==> tt.part < 3
    requires tt.SlotBits? ==> ValidLen(tt.len)
    ensures Wf(TreePhase(tt, TreeBits(tt), 1))
  {
    Pow2Values();
  }

  class LzmaDec {
    const pr: Props
    const probs: array<nat>
    const dic: array<byte>
    const reps: array<nat>
    const tempBuf: array<byte>
    var dicPos: nat
    var input: seq<byte>        // the bytes `buf` points into
    var buf: nat
    var range: nat
    var code: nat
    var state: nat
    var processedPos: nat       // UInt32, wraps around
    var checkDicSize: nat
    var remainLen: nat
    var needFlush: bool
    var needInitState: bool
    var tempBufSize: nat

    ghost var cells: Probs      // what probs holds
    ghost var text: seq<byte>   // the whole stream up to the end of input
    ghost var base: nat         // where input starts in it
    ghost var w: seq<byte>      // all bytes written to dic since Init
    ghost var origin: nat       // of these, how many before dicPos was last 0
    ghost var stream: seq<byte> // all bytes taken from the caller since Init
    ghost var m: Mach           // the decoder's place: after k symbols of the stream
    ghost var k: nat

    /** LzmaDec_AllocateProbs, and a dictionary given by the caller. */
    constructor (pr: Props, dic: array<byte>)
      requires PropsOk(pr)
      ensures Sized() && this.pr == pr && this.dic == dic
      ensures fresh(probs) && fresh(reps) && fresh(tempBuf)
    {
      this.pr, this.dic := pr, dic;
      probs := new nat[NumProbs(pr)];
      reps := new nat[4];
      tempBuf := new byte[REQUIRED_INPUT_MAX];
    }

    /** LzmaDec_Init */
    method Init()
      requires Sized()
      modifies this
      ensures Written() && Checked() && w == [] && stream == [] && dicPos == 0 && origin == 0
      ensures needFlush && needInitState && remainLen == 0 && tempBufSize == 0
    {
      dicPos := 0;
      needFlush, remainLen, tempBufSize := true, 0, 0;
      processedPos, checkDicSize, needInitState := 0, 0, true;
      w, stream, origin := [], [], 0;
    }

    ghost predicate Sized()
    {
      PropsOk(pr) && probs.Length == NumProbs(pr) && reps.Length == 4 && tempBuf.Length == 20
      && probs != reps && dic != tempBuf
    }

    ghost predicate Reading()
      reads this`cells, this`base, this`input, this`text, probs
    {
      Sized() && Holds(pr, probs[..], cells) && base + |input| == |text| && text[base..] == input
    }

    ghost function Abs(): Dec
      reads this`range, this`code, this`base, this`buf, this`cells
    {
      Dec(range, code, base + buf, cells)
    }

    // ----- Bits -----

    /** NORMALIZE */
    method NormalizeInput()
      requires Reading() && Normalize(text, Abs()).pos <= |text|
      modifies this`range, this`code, this`buf
      ensures Reading() && Abs() == Normalize(text, old(Abs()))
    {
      if range < TOP {
        range := Shl8(range);
        assert text[base..][buf] == text[base + buf];
        code := Shl8(code) + input[buf];
        buf := buf + 1;
      }
    }

    /** GET_BIT: `idx` is the place of the cell that the next decision uses. */
    method GetBit(idx: nat, ghost ctx: Ctx, ghost p: Phase, ghost goal: (Symbol, Dec)) returns (b: bit)
      requires Reading() && CtxOk(pr, ctx) && Wf(p) && !p.Done? && !p.Even?
      requires idx == Off(QueryOf(ctx, p).cell)
      requires Run(text, Abs(), ctx, p, true) == goal && goal.1.pos <= |text|
      modifies probs, this`range, this`code, this`buf, this`cells
      ensures Reading() && Wf(Next(ctx, p, b))
      ensures Run(text, Abs(), ctx, Next(ctx, p, b), true) == goal
      ensures idx < probs.Length && Approaches(old(probs[idx]), probs[idx], b)
      ensures forall k | 0 <= k < probs.Length && k != idx :: probs[k] == old(probs[k])
    {
      hide Run, Holds, CellOk, Next, Wf, Off, Normalize, CtxOk;
      ghost var c := QueryOf(ctx, p).cell;
      ghost var d := Abs();
      RunStep(text, d, ctx, p, true);
      AskedInside(text, d, ctx, p, true, goal);
      QueryCellOk(pr, ctx, p);
      HoldsAt(pr, probs[..], cells, c);
      var ttt := probs[idx];
      NormalizeInput();
      BoundBelow(range, ttt);
      var bound := range / BIT_TOTAL * ttt;
      ghost var v: prob := Adapt(ttt, if code < bound then 0 else 1);
      HoldsUpdate(pr, probs[..], cells, c, v);
      if code < bound {
        range := bound;
        probs[idx] := ttt + (BIT_TOTAL - ttt) / 32;
        b := 0;
      } else {
        range := range - bound;
        code := code - bound;
        probs[idx] := ttt - ttt / 32;
        b := 1;
      }
      cells := cells[c := v];
    }

    /** One direct bit, without a branch: `t` is 0 or 0xFFFFFFFF. */
    method GetEven(ghost ctx: Ctx, ghost p: Phase, ghost goal: (Symbol, Dec)) returns (b: bit)
      requires Reading() && Wf(p) && p.Even?
      requires Run(text, Abs(), ctx, p, true) == goal && goal.1.pos <= |text|
      modifies this`range, this`code, this`buf
      ensures Reading() && Wf(Next(ctx, p, b))
      ensures Run(text, Abs(), ctx, Next(ctx, p, b), true) == goal
    {
      hide Run, Holds, Next, Wf, Normalize;
      RunStep(text, Abs(), ctx, p, true);
      AskedInside(text, Abs(), ctx, p, true, goal);
      NormalizeInput();
      range := range / 2;
      code := Sub32(code, range);
      var t := (0 - code / 0x8000_0000) % WORD;
      b := (t + 1) % WORD % 2;
      code := (code + if t == 0 then 0 else range) % WORD;
    }

    /** TREE_DECODE: `prob` is the place of the tree, `limit` two to the number of its bits. */
    method TreeDecode(prob: nat, limit: nat, ghost ctx: Ctx, ghost tt: TopTree, ghost goal: (Symbol, Dec))
      returns (x: nat)
      requires Reading() && CtxOk(pr, ctx) && prob == TreeBase(ctx, tt) && limit == Pow2(TreeBits(tt))
      requires Wf(TreePhase(tt, TreeBits(tt), 1))
      requires Run(text, Abs(), ctx, TreePhase(tt, TreeBits(tt), 1), true) == goal && goal.1.pos <= |text|
      modifies probs, this`range, this`code, this`buf, this`cells
      ensures Reading() && x < limit && Wf(TreeEnd(tt, x))
      ensures Run(text, Abs(), ctx, TreeEnd(tt, x), true) == goal
    {
      hide Run, Holds, Next, Wf, Pow2, QueryOf, Off, CtxOk, TreeEnd, TreeBase;
      ghost var n: nat := TreeBits(tt);
      var i: nat := 1;
      TreeOff(ctx, tt, n, i);
      var b := GetBit(prob + i, ctx, TreePhase(tt, n, i), goal);
      TreeNext(ctx, tt, n, i, b);
      i := 2 * i + b;
      n := n - 1;
      while i < limit
        invariant Reading() && (n > 0 <==> i < limit) && i < 2 * limit
        invariant n > 0 ==> Wf(TreePhase(tt, n, i)) && Run(text, Abs(), ctx, TreePhase(tt, n, i), true) == goal
        invariant n == 0 ==> Wf(TreeEnd(tt, i - limit)) && Run(text, Abs(), ctx, TreeEnd(tt, i - limit), true) == goal
        decreases n
      {
        TreeOff(ctx, tt, n, i);
        b := GetBit(prob + i, ctx, TreePhase(tt, n, i), goal);
        TreeNext(ctx, tt, n, i, b);
        i := 2 * i + b;
        n := n - 1;
      }
      x := i - limit;
    }

    /** A literal whose cells do not depend on a match byte. */
    method LiteralDecode(prob: nat, ghost ctx: Ctx, ghost goal: (Symbol, Dec)) returns (symbol: nat)
      requires Reading() && CtxOk(pr, ctx) && prob == LITERAL + LIT_SIZE * ctx.litCtx && Wf(Lit(8, 1, false))
      requires Run(text, Abs(), ctx, Lit(8, 1, false), true) == goal && goal.1.pos <= |text|
      modifies probs, this`range, this`code, this`buf, this`cells
      ensures Reading() && 0x100 <= symbol < 0x200 && goal == (Literal(symbol % 0x100), Abs())
    {
      hide Run, Holds, Next, Wf, Pow2, QueryOf, Off, CtxOk;
      ghost var n: nat := 8;
      symbol := 1;
      while symbol < 0x100
        invariant Reading() && (n > 0 <==> symbol < 0x100) && symbol < 0x200
        invariant n > 0 ==>
          Wf(Lit(n, symbol, false)) && Run(text, Abs(), ctx, Lit(n, symbol, false), true) == goal
        invariant n == 0 ==> goal == (Literal(symbol % 0x100), Abs())
        decreases n
      {
        LitOff(ctx, n, symbol, false);
        var b := GetBit(prob + symbol, ctx, Lit(n, symbol, false), goal);
        LitNext(ctx, n, symbol, false, b);
        RunAtDone(text, Abs(), ctx, Next(ctx, Lit(n, symbol, false), b), true);
        symbol := 2 * symbol + b;
        n := n - 1;
      }
    }

    /** A literal after a match: `offs` stays 0x100 as long as the bits agree with the byte at
        the most recent distance. */
    method MatchedDecode(prob: nat, matchByte: byte, ghost ctx: Ctx, ghost goal: (Symbol, Dec)) returns (symbol: nat)
      requires Reading() && CtxOk(pr, ctx) && prob == LITERAL + LIT_SIZE * ctx.litCtx && Wf(Lit(8, 1, true))
      requires matchByte == ctx.matchByte
      requires Run(text, Abs(), ctx, Lit(8, 1, true), true) == goal && goal.1.pos <= |text|
      modifies probs, this`range, this`code, this`buf, this`cells
      ensures Reading() && 0x100 <= symbol < 0x200 && goal == (Literal(symbol % 0x100), Abs())
    {
      hide Run, Holds, Next, Wf, Pow2, QueryOf, Off, CtxOk, BitOf;
      ghost var n: nat := 8;
      var mb: nat, offs: nat := matchByte, 0x100;
      MatchStart(matchByte);
      symbol := 1;
      while symbol < 0x100
        invariant Reading() && (n > 0 <==> symbol < 0x100) && symbol < 0x200
        invariant n <= 8 && mb == Window(matchByte, n) && (offs == 0 || offs == 0x100)
        invariant n > 0 ==>
          var p := Lit(n, symbol, offs == 0x100); Wf(p) && Run(text, Abs(), ctx, p, true) == goal
        invariant n == 0 ==> goal == (Literal(symbol % 0x100), Abs())
        decreases n
      {
        ghost var p := Lit(n, symbol, offs == 0x100);
        LitOff(ctx, n, symbol, offs == 0x100);
        MatchStep(matchByte, n, mb);
        mb := mb * 2;
        var bit := AndOffs(mb, offs);
        var b := GetBit(prob + offs + bit + symbol, ctx, p, goal);
        LitNext(ctx, n, symbol, offs == 0x100, b);
        RunAtDone(text, Abs(), ctx, Next(ctx, p, b), true);
        if b == 0 {
          offs := if bit == 0 then offs else 0;        // offs &= ~bit
        } else {
          offs := if bit == 0 then 0 else offs;        // offs &= bit
        }
        symbol := 2 * symbol + b;
        n := n - 1;
      }
    }

    /** The length coder at `prob`; the result counts from kMatchMinLen. */
    method LenDecode(prob: nat, posState: nat, ghost ctx: Ctx, ghost kind: Kind, ghost goal: (Symbol, Dec))
      returns (len: nat)
      requires Reading() && CtxOk(pr, ctx) && prob == LenCoderBase(kind.KRep?) && posState == ctx.posState
      requires Run(text, Abs(), ctx, Choice(kind), true) == goal && goal.1.pos <= |text|
      modifies probs, this`range, this`code, this`buf, this`cells
      ensures Reading() && len < 272 && Wf(EndLen(kind, len))
      ensures Run(text, Abs(), ctx, EndLen(kind, len), true) == goal
    {
      hide Run, Holds, Wf, Pow2, CtxOk;
      Pow2Values();
      ChoiceWf(kind);
      var offset: nat, limit: nat, probLen: nat;
      ghost var part: nat;
      var b := GetBit(prob + LEN_CHOICE, ctx, Choice(kind), goal);
      if b == 0 {
        probLen, offset, limit := prob + LEN_LOW + posState * 8, 0, 8;
        part := 0;
      } else {
        b := GetBit(prob + LEN_CHOICE2, ctx, Choice2(kind), goal);
        if b == 0 {
          probLen, offset, limit := prob + LEN_MID + posState * 8, 8, 8;
          part := 1;
        } else {
          probLen, offset, limit := prob + LEN_HIGH, 8 + 8, 256;
          part := 2;
        }
      }
      TreeStart(LenBits(kind, part));
      len := TreeDecode(probLen, limit, ctx, LenBits(kind, part), goal);
      len := len + offset;
    }

    /** The distance of a match whose length, counted from 2, is `len`. */
    method DistanceDecode(len: nat, ghost ctx: Ctx, ghost goal: (Symbol, Dec)) returns (distance: nat)
      requires Reading() && CtxOk(pr, ctx) && len < 272 && Wf(Slot(len + 2, 6, 1))
      requires Run(text, Abs(), ctx, Slot(len + 2, 6, 1), true) == goal && goal.1.pos <= |text|
      modifies probs, this`range, this`code, this`buf, this`cells
      ensures Reading() && distance < WORD && goal == (Match(len + 2, distance), Abs())
    {
      hide Run, Holds, Wf, Pow2, CtxOk, Next, SlotBase;
      Pow2Values();
      var posSlot := TreeDecode(POS_SLOT + (if len < 4 then len else 3) * 64, 64, ctx, SlotBits(len + 2), goal);
      distance := posSlot;
      if posSlot >= 4 {
        EndSlotWf(len + 2, posSlot);
        if posSlot < 14 {
          distance := SpecDecode(posSlot, len, ctx, goal);
        } else {
          distance := EvenDecode(posSlot, len, ctx, goal);
          distance := AlignDecode(distance, len, ctx, goal);
        }
      } else {
        RunAtDone(text, Abs(), ctx, EndSlot(len + 2, posSlot), true);
      }
    }

    method SpecDecode(posSlot: nat, ghost len: nat, ghost ctx: Ctx, ghost goal: (Symbol, Dec)) returns (distance: nat)
      requires Reading() && CtxOk(pr, ctx) && ValidLen(len + 2) && 4 <= posSlot < 14 && Wf(EndSlot(len + 2, posSlot))
      requires Run(text, Abs(), ctx, EndSlot(len + 2, posSlot), true) == goal && goal.1.pos <= |text|
      modifies probs, this`range, this`code, this`buf, this`cells
      ensures Reading() && distance < WORD && goal == (Match(len + 2, distance), Abs())
    {
      hide Run, Holds, Wf, Pow2, CtxOk, Next, SlotBase, Off, QueryOf;
      var numDirectBits: nat := posSlot / 2 - 1;
      distance := SlotBase(posSlot);
      var prob: int := SPEC_POS + distance - posSlot - 1;
      var mask: nat, i: nat := 1, 1;
      ghost var j: nat := 0;
      Pow2Values();
      while numDirectBits != 0
        invariant Reading() && j + numDirectBits == Footer(posSlot) && mask == Pow2(j)
        invariant numDirectBits > 0 ==> var p := Spec(len + 2, posSlot, j, i, distance);
          Wf(p) && Run(text, Abs(), ctx, p, true) == goal
        invariant numDirectBits == 0 ==> distance < WORD && goal == (Match(len + 2, distance), Abs())
        decreases numDirectBits
      {
        ghost var p := Spec(len + 2, posSlot, j, i, distance);
        SpecOff(ctx, len + 2, posSlot, j, i, distance);
        var b := GetBit(prob + i, ctx, p, goal);
        SpecNext(ctx, len + 2, posSlot, j, i, distance, b);
        RunAtDone(text, Abs(), ctx, Next(ctx, p, b), true);
        i := 2 * i + b;
        if b == 1 { distance := distance + mask; }   // distance |= mask, a bit that is clear
        mask := mask * 2;
        j := j + 1;
        numDirectBits := numDirectBits - 1;
      }
    }

    method EvenDecode(posSlot: nat, ghost len: nat, ghost ctx: Ctx, ghost goal: (Symbol, Dec)) returns (distance: nat)
      requires Reading() && CtxOk(pr, ctx) && ValidLen(len + 2) && 14 <= posSlot < 64 && Wf(EndSlot(len + 2, posSlot))
      requires Run(text, Abs(), ctx, EndSlot(len + 2, posSlot), true) == goal && goal.1.pos <= |text|
      modifies this`range, this`code, this`buf
      ensures Reading() && Wf(Aligned(len + 2, 0, 1, distance * 16))
      ensures Run(text, Abs(), ctx, Aligned(len + 2, 0, 1, distance * 16), true) == goal
    {
      hide Run, Holds, Wf, Pow2, CtxOk, Next;
      var numDirectBits: nat := posSlot / 2 - 1 - 4;
      distance := 2 + posSlot % 2;
      while numDirectBits != 0
        invariant Reading()
        invariant numDirectBits > 0 ==> var p := Even(len + 2, posSlot, numDirectBits, distance);
          Wf(p) && Run(text, Abs(), ctx, p, true) == goal
        invariant numDirectBits == 0 ==> var p := Aligned(len + 2, 0, 1, distance * 16);
          Wf(p) && Run(text, Abs(), ctx, p, true) == goal
        decreases numDirectBits
      {
        var b := GetEven(ctx, Even(len + 2, posSlot, numDirectBits, distance), goal);
        EvenNext(ctx, len + 2, posSlot, numDirectBits, distance, b);
        distance := 2 * distance + b;
        numDirectBits := numDirectBits - 1;
      }
    }

    method AlignDecode(high: nat, ghost len: nat, ghost ctx: Ctx, ghost goal: (Symbol, Dec)) returns (distance: nat)
      requires Reading() && CtxOk(pr, ctx) && ValidLen(len + 2) && Wf(Aligned(len + 2, 0, 1, high * 16))
      requires Run(text, Abs(), ctx, Aligned(len + 2, 0, 1, high * 16), true) == goal && goal.1.pos <= |text|
      modifies probs, this`range, this`code, this`buf, this`cells
      ensures Reading() && distance < WORD && goal == (Match(len + 2, distance), Abs())
    {
      hide Run, Holds, Wf, Pow2, CtxOk, Next;
      Pow2Values();
      distance := high * 16;
      var i: nat := 1;
      var b := AlignBit(i, distance, 0, len, ctx, goal);
      i, distance := 2 * i + b, distance + b;
      b := AlignBit(i, distance, 1, len, ctx, goal);
      i, distance := 2 * i + b, distance + 2 * b;
      b := AlignBit(i, distance, 2, len, ctx, goal);
      i, distance := 2 * i + b, distance + 4 * b;
      b := AlignBit(i, distance, 3, len, ctx, goal);
      distance := distance + 8 * b;
    }

    /** GET_BIT2(prob + i, i, ; , distance |= 1 << j) */
    method AlignBit(i: nat, ghost dist: nat, ghost j: nat, ghost len: nat, ghost ctx: Ctx, ghost goal: (Symbol, Dec))
      returns (b: nat)
      requires Reading() && CtxOk(pr, ctx) && Wf(Aligned(len + 2, j, i, dist))
      requires Run(text, Abs(), ctx, Aligned(len + 2, j, i, dist), true) == goal && goal.1.pos <= |text|
      modifies probs, this`range, this`code, this`buf, this`cells
      ensures Reading() && b < 2 && dist + b * Pow2(j) < WORD
      ensures j < 3 ==> var p := Aligned(len + 2, j + 1, 2 * i + b, dist + b * Pow2(j));
        Wf(p) && Run(text, Abs(), ctx, p, true) == goal
      ensures j == 3 ==> goal == (Match(len + 2, dist + b * Pow2(j)), Abs())
    {
      hide Run, Holds, Pow2, CtxOk, Next;
      ghost var p := Aligned(len + 2, j, i, dist);
      AlignNext(ctx, len + 2, j, i, dist);
      b := GetBit(ALIGN + i, ctx, p, goal);
      RunAtDone(text, Abs(), ctx, Next(ctx, p, b), true);
    }

    // ----- Copies inside the dictionary -----

    ghost predicate Written()
      reads this`dicPos, this`w, this`processedPos, this`origin, dic
    {
      DicHolds(pr, dic[..], dicPos, w) && processedPos == |w| % WORD && |w| == dicPos + origin
    }

    method PutByte(b: byte)
      requires DicHolds(pr, dic[..], dicPos, w) && dicPos < dic.Length
      modifies dic, this`dicPos, this`w
      ensures DicHolds(pr, dic[..], dicPos, w) && dicPos == old(dicPos) + 1 && w == old(w) + [b]
    {
      DicAppend(pr, dic[..], dicPos, w, b);
      dic[dicPos] := b;
      assert dic[..] == old(dic[..])[dicPos := b];
      dicPos := dicPos + 1;
      w := w + [b];
    }

    /** Source and destination do not cross the end of the buffer: the source is a fixed
        distance `src` from the destination. */
    method CopyStraight(src: int, curLen: nat, rep0: nat)
      requires DicHolds(pr, dic[..], dicPos, w) && dicPos + curLen <= dic.Length && 1 <= rep0 <= |w|
      requires rep0 <= pr.dicSize
      requires src == DicIndex(dicPos, rep0, dic.Length) - dicPos && dicPos + src + curLen <= dic.Length
      modifies dic, this`dicPos, this`w
      ensures DicHolds(pr, dic[..], dicPos, w) && dicPos == old(dicPos) + curLen && w == Copy(old(w), rep0, curLen)
    {
      hide DicHolds, Copy;
      ghost var n: nat := 0;
      var lim := dicPos + curLen;
      CopyNone(w, rep0);
      while dicPos != lim
        invariant DicHolds(pr, dic[..], dicPos, w) && dicPos == old(dicPos) + n <= lim
        invariant w == Copy(old(w), rep0, n) && |w| >= |old(w)|
        decreases lim - dicPos
      {
        DicAt(pr, dic[..], dicPos, w, rep0);
        CopyOne(old(w), rep0, n);
        PutByte(dic[dicPos + src]);
        n := n + 1;
      }
    }

    /** The source runs over the end of the buffer and goes on at its start. */
    method CopyAround(from: nat, curLen: nat, rep0: nat)
      requires DicHolds(pr, dic[..], dicPos, w) && dicPos + curLen <= dic.Length && 1 <= rep0 <= |w|
      requires rep0 <= pr.dicSize
      requires from == DicIndex(dicPos, rep0, dic.Length) < dic.Length
      modifies dic, this`dicPos, this`w
      ensures DicHolds(pr, dic[..], dicPos, w) && dicPos == old(dicPos) + curLen && w == Copy(old(w), rep0, curLen)
    {
      hide DicHolds, Copy;
      ghost var n: nat := 0;
      var pos, left: nat := from, curLen;
      CopyNone(w, rep0);
      while left != 0
        invariant DicHolds(pr, dic[..], dicPos, w) && dicPos == old(dicPos) + n && n + left == curLen
        invariant w == Copy(old(w), rep0, n) && |w| >= |old(w)|
        invariant left > 0 ==> pos == DicIndex(dicPos, rep0, dic.Length)
        decreases left
      {
        DicAt(pr, dic[..], dicPos, w, rep0);
        CopyOne(old(w), rep0, n);
        PutByte(dic[pos]);
        pos := pos + 1;
        if pos == dic.Length { pos := 0; }
        left := left - 1;
        n := n + 1;
      }
    }

    /** Copy as much of a match as fits before `limit`; the rest of its length is returned. */
    method CopyMatch(limit: nat, len: nat, rep0: nat) returns (rest: nat)
      requires Written() && dicPos < limit <= dic.Length && 1 <= rep0 <= |w| && rep0 <= pr.dicSize
      modifies dic, this`dicPos, this`processedPos, this`w
      ensures rest == if len <= limit - old(dicPos) then 0 else len - (limit - old(dicPos))
      ensures Written() && dicPos == old(dicPos) + (len - rest) <= limit && w == Copy(old(w), rep0, len - rest)
    {
      hide DicHolds, Copy;
      var rem := limit - dicPos;
      var curLen := if rem < len then rem else len;
      DicAt(pr, dic[..], dicPos, w, rep0);
      var pos := DicIndex(dicPos, rep0, dic.Length);
      WrappedSum(|w|, curLen);
      processedPos := (processedPos + curLen) % WORD;
      rest := len - curLen;
      if pos + curLen <= dic.Length {
        CopyStraight(pos - dicPos, curLen, rep0);
      } else {
        CopyAround(pos, curLen, rep0);
      }
    }

    // ----- One symbol -----

    ghost predicate RepsAre(r: Reps)
      reads reps
    {
      reps.Length == 4 && reps[0] == r.r0 && reps[1] == r.r1 && reps[2] == r.r2 && reps[3] == r.r3
    }

    /** The decoder is at the machine's place, its history complete; the range coder's fields may
        be anywhere inside the next symbol. */
    ghost predicate AtPlace()
      reads this, probs, reps, dic
    {
      Sized() && Reading() && Written() && MachOk(pr, m) && state == m.state && RepsAre(m.reps) && w == m.out
      && Located(pr, text, k, Going(m)) && StepFits(pr, text, m)
    }

    /** checkDicSize is the dictionary size once that much has been written, 0 before; `limit` is
        chosen so that this does not change on the way there. */
    ghost predicate CheckMode(limit: nat)
      reads this
    {
      dicPos <= limit
      && ((checkDicSize == 0 && |w| + (limit - dicPos) <= pr.dicSize)
          || (checkDicSize == pr.dicSize && pr.dicSize <= |w|))
    }

    ghost predicate Expecting(ctx: Ctx, goal: (Symbol, Dec))
      reads this
    {
      PropsOk(pr) && ctx == CtxOf(pr, m.state, m.reps.r0, m.out) && goal == Decoded(pr, text, m) && goal.1.pos <= |text|
    }

    /** Between two symbols. */
    ghost predicate Placed()
      reads this, probs, reps, dic
    {
      Sized() && Reading() && Written() && MachOk(pr, m) && state == m.state && RepsAre(m.reps)
      && Located(pr, text, k, Going(m)) && m.d == Normalize(text, Abs()) && DecOk(Abs())
    }

    /** `len` bytes of the machine's history are still to be written. */
    ghost predicate Rest(len: nat)
      reads this
    {
      1 <= m.reps.r0 <= |w| && m.out == Copy(w, m.reps.r0, len)
    }

    ghost method TakeSymbol(ctx: Ctx, goal: (Symbol, Dec), sym: Symbol)
      requires MachOk(pr, m) && Expecting(ctx, goal) && goal == (sym, Abs()) && Reaches(pr, |m.out|, sym)
      requires Located(pr, text, k, Going(m)) && StepFits(pr, text, m) && (sym.Match? ==> sym.dist != END_DIST)
      modifies this`m, this`k
      ensures MachOk(pr, m) && Located(pr, text, k, Going(m)) && m.d == Normalize(text, Abs()) && DecOk(Abs())
      ensures m.state == NextState(old(m).state, sym) && m.reps == NextReps(old(m).reps, sym)
      ensures ExtendOk(old(m).reps, |old(m).out|, sym) && m.out == Extend(old(m).out, old(m).reps, sym)
      ensures Step(pr, text, old(m)) == Going(m)
    {
      hide Run, Normalize, CtxOf, Located, MachOk;
      DecodedOk(pr, text, m, Abs());
      StepTakes(pr, text, m, sym, Abs());
      LocatedStep(pr, text, k, m);
      m := Step(pr, text, m).m;
      k := k + 1;
    }

    /** The literal's cells, selected by the position and the byte before it. */
    method LiteralProb(ghost ctx: Ctx) returns (prob: nat)
      requires Sized() && Written() && m.out == w && (checkDicSize == 0 ==> |w| < pr.dicSize)
      requires checkDicSize != 0 ==> 0 < |w|
      requires ctx == CtxOf(pr, m.state, m.reps.r0, m.out)
      ensures prob == LITERAL + LIT_SIZE * ctx.litCtx
    {
      hide DicHolds, Low, Shr, Pow2;
      prob := LITERAL;
      if checkDicSize != 0 || processedPos != 0 {
        DicAt(pr, dic[..], dicPos, w, 1);
        LowOfWrapped(|w|, pr.lp);
        prob := prob + LIT_SIZE * LitCtx(pr, processedPos, dic[(if dicPos == 0 then dic.Length else dicPos) - 1]);
      }
    }

    method LiteralBits(ghost ctx: Ctx, ghost goal: (Symbol, Dec)) returns (symbol: nat)
      requires AtPlace() && CtxOk(pr, ctx) && Expecting(ctx, goal) && (checkDicSize == 0 ==> |w| < pr.dicSize)
      requires checkDicSize != 0 ==> 0 < |w|
      requires Wf(Lit(8, 1, state >= 7)) && Run(text, Abs(), ctx, Lit(8, 1, state >= 7), true) == goal
      modifies probs, this`range, this`code, this`buf, this`cells
      ensures Reading() && 0x100 <= symbol < 0x200 && goal == (Literal(symbol % 0x100), Abs())
    {
      hide Run, Holds, Located, CtxOk, DicHolds, StepFits, LitCtx, Low, Decoded;
      var prob := LiteralProb(ctx);
      if state < 7 {
        symbol := LiteralDecode(prob, ctx, goal);
      } else {
        RepZero(pr, m);
        DicAt(pr, dic[..], dicPos, w, reps[0]);
        var matchByte := dic[DicIndex(dicPos, reps[0], dic.Length)];
        symbol := MatchedDecode(prob, matchByte, ctx, goal);
      }
    }

    /** The literal's bits, and the machine's step. */
    method TakeLiteral(ghost ctx: Ctx, ghost goal: (Symbol, Dec)) returns (literal: byte)
      requires AtPlace() && CtxOk(pr, ctx) && Expecting(ctx, goal) && (checkDicSize == 0 ==> |w| < pr.dicSize)
      requires checkDicSize != 0 ==> 0 < |w|
      requires Wf(Lit(8, 1, state >= 7)) && Run(text, Abs(), ctx, Lit(8, 1, state >= 7), true) == goal
      modifies probs, this`range, this`code, this`buf, this`cells, this`m, this`k
      ensures Reading() && MachOk(pr, m) && Located(pr, text, k, Going(m))
      ensures m.d == Normalize(text, Abs()) && DecOk(Abs())
      ensures m.state == NextState(old(m).state, Literal(literal)) && m.reps == old(m).reps
      ensures m.out == old(m).out + [literal] && 1 <= m.reps.r0 <= |m.out|
      ensures Step(pr, text, old(m)) == Going(m)
    {
      hide Run, Reading, Located, CtxOk, Step, DicHolds, StepFits, Normalize, CtxOf, MachOk, Copy, Decoded;
      var symbol := LiteralBits(ctx, goal);
      TakeSymbol(ctx, goal, Literal(symbol % 0x100));
      RepZero(pr, m);
      literal := symbol % 0x100;
    }

    method LiteralSymbol(limit: nat, ghost ctx: Ctx, ghost goal: (Symbol, Dec))
      requires AtPlace() && CheckMode(limit) && (checkDicSize == 0 ==> |w| < pr.dicSize)
      requires CtxOk(pr, ctx) && Expecting(ctx, goal) && dicPos < limit <= dic.Length
      requires Wf(Lit(8, 1, state >= 7)) && Run(text, Abs(), ctx, Lit(8, 1, state >= 7), true) == goal
      modifies probs, dic, this`range, this`code, this`buf, this`cells
      modifies this`dicPos, this`w, this`processedPos, this`state, this`m, this`k
      ensures Placed() && Rest(0) && CheckMode(limit) && Step(pr, text, old(m)) == Going(m)
    {
      hide Run, Reading, Located, CtxOk, Step, DicHolds, StepFits, Normalize, CtxOf, MachOk, Copy, Decoded;
      RepZero(pr, m);
      var literal := TakeLiteral(ctx, goal);
      CopyNone(m.out, m.reps.r0);
      state := LIT_NEXT[state];
      WriteLiteral(literal);
    }

    /** The bits that tell a short rep and the four recent distances apart. */
    method RepBits(posState: nat, ghost ctx: Ctx, ghost goal: (Symbol, Dec)) returns (short: bool, i: nat)
      requires Reading() && CtxOk(pr, ctx) && ctx.state == state && ctx.posState == posState
      requires Run(text, Abs(), ctx, AskG0, true) == goal && goal.1.pos <= |text|
      modifies probs, this`range, this`code, this`buf, this`cells
      ensures Reading() && i < 4
      ensures short ==> i == 0 && goal == (ShortRep, Abs())
      ensures !short ==> Run(text, Abs(), ctx, Choice(KRep(i)), true) == goal
    {
      hide Run, Reading, CtxOk;
      short, i := false, 0;
      var b := GetBit(IS_REP_G0 + state, ctx, AskG0, goal);
      if b == 0 {
        b := GetBit(IS_REP0_LONG + state * 16 + posState, ctx, AskG0Long, goal);
        RunAtDone(text, Abs(), ctx, Next(ctx, AskG0Long, b), true);
        short := b == 0;
      } else {
        b := GetBit(IS_REP_G1 + state, ctx, AskG1, goal);
        if b == 0 {
          i := 1;
        } else {
          b := GetBit(IS_REP_G2 + state, ctx, AskG2, goal);
          i := if b == 0 then 2 else 3;
        }
      }
    }

    /** The chosen distance moves to the front. */
    method RecallRep(i: nat)
      requires reps.Length == 4 && i < 4 && RepsAre(m.reps)
      modifies reps
      ensures RepsAre(Recall(m.reps, i))
    {
      if i != 0 {
        var distance := reps[i];
        if i != 1 {
          if i == 3 {
            reps[3] := reps[2];
          }
          reps[2] := reps[1];
        }
        reps[1] := reps[0];
        reps[0] := distance;
      }
    }

    method RepSymbol(limit: nat, posState: nat, ghost ctx: Ctx, ghost goal: (Symbol, Dec)) returns (rest: nat)
      requires AtPlace() && CheckMode(limit) && w != [] && dicPos < limit <= dic.Length
      requires CtxOk(pr, ctx) && Expecting(ctx, goal) && ctx.posState == posState && ctx.state == state
      requires Run(text, Abs(), ctx, AskG0, true) == goal
      modifies probs, dic, reps, this`range, this`code, this`buf, this`cells
      modifies this`dicPos, this`w, this`processedPos, this`state, this`m, this`k
      ensures Placed() && Rest(rest) && CheckMode(limit) && Step(pr, text, old(m)) == Going(m)
      ensures rest < MATCH_SPEC_LEN_START && (rest > 0 ==> dicPos == limit)
    {
      hide Run, Reading, Located, CtxOk, Step, Written, StepFits, Normalize, CtxOf, MachOk, Copy, Decoded;
      var short, i := RepBits(posState, ctx, goal);
      RecallRep(i);
      if short {
        rest := FinishRep(ShortRep, 0, 1, limit, ctx, goal);
      } else {
        var len := LenDecode(REP_LEN_CODER, posState, ctx, KRep(i), goal);
        RunAtDone(text, Abs(), ctx, EndLen(KRep(i), len), true);
        rest := FinishRep(Rep(i, len + 2), i, len + 2, limit, ctx, goal);
      }
    }

    /** All bits are read and the distance is in front: next state, then the copy. */
    method FinishRep(ghost sym: Symbol, ghost i: nat, len: nat, limit: nat, ghost ctx: Ctx, ghost goal: (Symbol, Dec))
      returns (rest: nat)
      requires Sized() && Reading() && Written() && MachOk(pr, m) && state == m.state && RepsAre(Recall(m.reps, i))
      requires w == m.out && Located(pr, text, k, Going(m)) && StepFits(pr, text, m)
      requires CheckMode(limit) && w != [] && dicPos < limit <= dic.Length && Expecting(ctx, goal) && i < 4
      requires goal == (sym, Abs()) && sym == if len == 1 then ShortRep else Rep(i, len)
      requires len == 1 ==> i == 0
      modifies dic, this`dicPos, this`w, this`processedPos, this`state, this`m, this`k
      ensures Placed() && Rest(rest) && CheckMode(limit) && Step(pr, text, old(m)) == Going(m)
      ensures rest <= len && (rest > 0 ==> dicPos == limit)
    {
      hide Run, Reading, Located, Step, Written, StepFits, Normalize, CtxOf, MachOk, Copy, Decoded;
      RepInRangeOk(pr, m, i);
      TakeSymbol(ctx, goal, sym);
      state := if len == 1 then if state < 7 then 9 else 11 else if state < 7 then 8 else 11;
      rest := CopyOut(limit, len);
    }

    /** Write the machine's match of `len` bytes as far as `limit` allows. */
    method CopyOut(limit: nat, len: nat) returns (rest: nat)
      requires Written() && reps.Length == 4 && reps[0] == m.reps.r0 <= pr.dicSize && Rest(len)
      requires CheckMode(limit) && dicPos < limit <= dic.Length
      modifies dic, this`dicPos, this`w, this`processedPos
      ensures Written() && Rest(rest) && CheckMode(limit) && rest <= len && (rest > 0 ==> dicPos == limit)
      ensures |w| >= |old(w)|
    {
      hide Written, Copy;
      rest := CopyMatch(limit, len, reps[0]);
      CopyParts(old(w), m.reps.r0, len, rest);
    }

    /** At the end mark the machine stops; nothing more is written. */
    ghost predicate AtEnd()
      reads this, probs, reps, dic
    {
      Sized() && Reading() && Written() && MachOk(pr, m) && w == m.out
      && Located(pr, text, k, Ended(m)) && m.d == Normalize(text, Abs()) && DecOk(Abs())
    }

    ghost method TakeEnd(ctx: Ctx, goal: (Symbol, Dec), len: nat)
      requires MachOk(pr, m) && Expecting(ctx, goal) && goal == (Match(len, END_DIST), Abs())
      requires Located(pr, text, k, Going(m)) && StepFits(pr, text, m)
      modifies this`m, this`k
      ensures MachOk(pr, m) && Located(pr, text, k, Ended(m)) && m.d == Normalize(text, Abs()) && DecOk(Abs())
      ensures m.out == old(m).out && Step(pr, text, old(m)) == Ended(m)
    {
      hide Run, Normalize, CtxOf, Located, MachOk;
      DecodedOk(pr, text, m, Abs());
      StepEnds(pr, text, m, len, Abs());
      LocatedStep(pr, text, k, m);
      m := Step(pr, text, m).m;
      k := k + 1;
    }

    method PushRep(ghost len: nat, distance: nat)
      requires reps.Length == 4 && RepsAre(m.reps)
      modifies reps
      ensures RepsAre(NextReps(m.reps, Match(len, distance)))
    {
      reps[3] := reps[2];
      reps[2] := reps[1];
      reps[1] := reps[0];
      reps[0] := distance + 1;
    }

    /** A match: its length, its distance, the end mark, the check of the distance, the copy. */
    method MatchSymbol(limit: nat, posState: nat, ghost ctx: Ctx, ghost goal: (Symbol, Dec))
      returns (res: SRes, rest: nat)
      requires AtPlace() && CheckMode(limit) && (checkDicSize == 0 ==> |w| < pr.dicSize) && limit <= dic.Length
      requires CtxOk(pr, ctx) && Expecting(ctx, goal) && ctx.posState == posState
      requires Run(text, Abs(), ctx, Choice(KMatch), true) == goal
      modifies probs, dic, reps, this`range, this`code, this`buf, this`cells
      modifies this`dicPos, this`w, this`processedPos, this`state, this`m, this`k
      ensures res.OK? ==> CheckMode(limit)
      ensures res.OK? && rest < MATCH_SPEC_LEN_START ==>
        Placed() && Rest(rest) && (rest > 0 ==> dicPos == limit) && Step(pr, text, old(m)) == Going(m)
      ensures res.OK? && rest >= MATCH_SPEC_LEN_START ==> AtEnd() && Step(pr, text, old(m)) == Ended(m)
      ensures res.ERROR_DATA? ==> Refused(limit) && m == old(m) && dicPos == old(dicPos)
    {
      hide Run, Reading, Located, CtxOk, Step, Written, StepFits, Normalize, CtxOf, MachOk, Copy, Decoded;
      var len := LenDecode(LEN_CODER, posState, ctx, KMatch, goal);
      var distance := DistanceDecode(len, ctx, goal);
      if distance == END_DIST {
        TakeEnd(ctx, goal, len + 2);
        return OK, len + MATCH_SPEC_LEN_START;
      }
      PushRep(len + 2, distance);
      DistanceCheck(len + 2, distance);
      if (if checkDicSize == 0 then distance >= processedPos else distance >= checkDicSize) {
        return ERROR_DATA, 0;
      }
      if limit == dicPos {
        NotTheEnd(pr, text, m, len + 2, distance);
        return ERROR_DATA, 0;
      }
      res := OK;
      rest := FinishMatch(distance, len + 2, limit, ctx, goal);
    }

    /** The symbol at the machine's place is complete. */
    ghost predicate Stuck()
      reads this`m, this`k, this`text
    {
      MachOk(pr, m) && Located(pr, text, k, Going(m)) && StepFits(pr, text, m)
    }

    /** It cannot be taken, or there is no room for it. */
    ghost predicate Refused(limit: nat)
      reads this
    {
      Stuck() && (Step(pr, text, m) == Bad || (dicPos == limit && !Step(pr, text, m).Ended?))
    }

    lemma DistanceCheck(len: nat, distance: nat)
      requires MachOk(pr, m) && w == m.out && Written() && distance != END_DIST
      requires Decoded(pr, text, m).0 == Match(len, distance) && (checkDicSize == 0 ==> |w| < pr.dicSize)
      requires checkDicSize == 0 || (checkDicSize == pr.dicSize && pr.dicSize <= |w|)
      ensures (if checkDicSize == 0 then distance >= processedPos else distance >= checkDicSize)
        <==> !(distance < |w| && distance < pr.dicSize)
      ensures !(distance < |w| && distance < pr.dicSize) ==> Step(pr, text, m) == Bad
    {
      hide Run, Normalize, CtxOf, Decoded, DicHolds;
    }

    method FinishMatch(distance: nat, len: nat, limit: nat, ghost ctx: Ctx, ghost goal: (Symbol, Dec))
      returns (rest: nat)
      requires Sized() && Reading() && Written() && MachOk(pr, m) && state == m.state
      requires RepsAre(NextReps(m.reps, Match(len, distance)))
      requires w == m.out && Located(pr, text, k, Going(m)) && StepFits(pr, text, m)
      requires CheckMode(limit) && dicPos < limit <= dic.Length && Expecting(ctx, goal)
      requires goal == (Match(len, distance), Abs()) && distance != END_DIST && distance < |w| && distance < pr.dicSize
      modifies dic, this`dicPos, this`w, this`processedPos, this`state, this`m, this`k
      ensures Placed() && Rest(rest) && CheckMode(limit) && Step(pr, text, old(m)) == Going(m)
      ensures rest <= len && (rest > 0 ==> dicPos == limit)
    {
      hide Run, Reading, Located, Step, Written, StepFits, Normalize, CtxOf, MachOk, Copy, Decoded;
      TakeSymbol(ctx, goal, Match(len, distance));
      StateBound(pr, old(m));
      state := if state < 7 then 7 else 7 + 3;
      rest := CopyOut(limit, len);
    }

    /** What a round of the loop of LzmaDec_DecodeReal comes to. */
    ghost predicate Took(res: SRes, rest: nat, limit: nat, m0: Mach, dicPos0: nat)
      requires MachOk(pr, m0)
      reads this, probs, reps, dic
    {
      if res.ERROR_DATA? then Refused(limit) && m == m0 && dicPos == dicPos0
      else if rest < MATCH_SPEC_LEN_START then
        Placed() && Rest(rest) && CheckMode(limit) && (rest > 0 ==> dicPos == limit) && Step(pr, text, m0) == Going(m)
      else AtEnd() && CheckMode(limit) && Step(pr, text, m0) == Ended(m)
    }

    /** One round of that loop. */
    method DecodeSymbol(limit: nat) returns (res: SRes, rest: nat)
      requires Placed() && w == m.out && StepFits(pr, text, m) && CheckMode(limit) && limit <= dic.Length
      requires checkDicSize == 0 ==> |w| < pr.dicSize
      requires dicPos < limit || Decoded(pr, text, m).0.Match?
      modifies probs, dic, reps, this`range, this`code, this`buf, this`cells
      modifies this`dicPos, this`w, this`processedPos, this`state, this`m, this`k
      ensures Took(res, rest, limit, old(m), old(dicPos))
    {
      hide Run, Reading, Located, CtxOk, Step, StepFits, Normalize, CtxOf, MachOk, Copy, Decoded, Written, Low;
      ghost var ctx := CtxOf(pr, m.state, m.reps.r0, m.out);
      ghost var goal := Decoded(pr, text, m);
      EnterSymbol(pr, text, m, Abs(), ctx, goal);
      var posState := PosState();
      var b := GetBit(IS_MATCH + state * 16 + posState, ctx, Start, goal);
      RunKind(text, Abs(), ctx, Next(ctx, Start, b), true);
      if b == 0 {
        LiteralSymbol(limit, ctx, goal);
        return OK, 0;
      }
      b := GetBit(IS_REP + state, ctx, AskRep, goal);
      RunKind(text, Abs(), ctx, Next(ctx, AskRep, b), true);
      if b == 0 {
        res, rest := MatchSymbol(limit, posState, ctx, goal);
      } else {
        var any := AnyWritten(limit);
        if !any {
          RepRefused(pr, text, m);
          return ERROR_DATA, 0;
        }
        rest := RepSymbol(limit, posState, ctx, goal);
        res := OK;
      }
    }

    /** `checkDicSize != 0 || processedPos != 0`, although the counter wraps. */
    method AnyWritten(ghost limit: nat) returns (any: bool)
      requires Sized() && Written() && CheckMode(limit) && (checkDicSize == 0 ==> |w| < pr.dicSize)
      ensures any <==> w != []
    {
      hide DicHolds;
      any := checkDicSize != 0 || processedPos != 0;
    }

    method PosState() returns (posState: nat)
      requires Sized() && Written()
      ensures posState == Low(|w|, pr.pb)
    {
      hide Low, DicHolds;
      LowOfWrapped(|w|, pr.pb);
      posState := Low(processedPos, pr.pb);
    }

    method WriteLiteral(b: byte)
      requires Written() && dicPos < dic.Length
      modifies dic, this`dicPos, this`processedPos, this`w
      ensures Written() && dicPos == old(dicPos) + 1 && w == old(w) + [b]
    {
      hide DicHolds;
      PutByte(b);
      WrappedSum(|old(w)|, 1);
      processedPos := (processedPos + 1) % WORD;
    }

    // ----- Many symbols -----

    /** How much of the machine's history is still to be written. */
    ghost predicate Owed(len: nat)
      reads this`m, this`w
    {
      if len == 0 then m.out == w else 1 <= m.reps.r0 <= |w| && m.out == Copy(w, m.reps.r0, len)
    }

    /** After a round: in the middle of a match that `limit` cut, between two symbols, or at the
        end mark. */
    ghost predicate Paused(rest: nat, limit: nat)
      reads this, probs, reps, dic
    {
      Sized() && CheckMode(limit) && m.d.pos <= |text|
      && (if rest < MATCH_SPEC_LEN_START then Placed() && Owed(rest) && (rest > 0 ==> dicPos == limit) else AtEnd())
    }

    method FirstRound(limit: nat) returns (res: SRes, rest: nat)
      requires Paused(0, limit) && StepFits(pr, text, m) && limit <= dic.Length
      requires checkDicSize == 0 ==> |w| < pr.dicSize
      requires dicPos < limit || Decoded(pr, text, m).0.Match?
      modifies probs, dic, reps, this`range, this`code, this`buf, this`cells
      modifies this`dicPos, this`w, this`processedPos, this`state, this`m, this`k
      ensures res.OK? ==> Paused(rest, limit) && Advanced(pr, text, old(m), m)
      ensures res.ERROR_DATA? ==>
        Stuck() && (Step(pr, text, m) == Bad || (old(dicPos) == limit && m == old(m) && !Step(pr, text, m).Ended?))
    {
      hide Run, Reading, Located, Step, StepFits, Normalize, CtxOf, MachOk, Copy, Decoded, Written, Advanced;
      StepMoves(pr, text, m);
      res, rest := DecodeSymbol(limit);
      if res.OK? && rest == 0 { CopyNone(w, m.reps.r0); }
    }

    /** One more round, when enough input is left for any symbol. */
    method NextRound(limit: nat, ghost bufLimit: nat) returns (res: SRes, rest: nat)
      requires Paused(0, limit) && dicPos < limit <= dic.Length
      requires buf < bufLimit && bufLimit + REQUIRED_INPUT_MAX <= |input|
      modifies probs, dic, reps, this`range, this`code, this`buf, this`cells
      modifies this`dicPos, this`w, this`processedPos, this`state, this`m, this`k
      ensures res.OK? ==> Paused(rest, limit) && Advanced(pr, text, old(m), m)
      ensures res.ERROR_DATA? ==> Stuck() && Step(pr, text, m) == Bad
    {
      hide Run, Located, Step, StepFits, Normalize, CtxOf, MachOk, Copy, Decoded, Written, Advanced, Holds;
      NormalizeForward(text, Abs());
      RoomForSymbol(pr, text, m);
      res, rest := FirstRound(limit);
    }

    /** LzmaDec_DecodeReal: the first symbol always, then more while neither output nor input
        runs short. */
    method DecodeReal(limit: nat, bufLimit: nat) returns (res: SRes)
      requires Paused(0, limit) && StepFits(pr, text, m) && limit <= dic.Length
      requires checkDicSize == 0 ==> |w| < pr.dicSize
      requires dicPos < limit || Decoded(pr, text, m).0.Match?
      requires bufLimit == 0 || bufLimit + REQUIRED_INPUT_MAX <= |input|
      modifies probs, dic, reps, this`range, this`code, this`buf, this`cells
      modifies this`dicPos, this`w, this`processedPos, this`state, this`m, this`k, this`remainLen
      ensures res.OK? ==> Paused(remainLen, limit) && Abs() == m.d && Advanced(pr, text, old(m), m)
      ensures res.ERROR_DATA? ==>
        Stuck() && (Step(pr, text, m) == Bad || (old(dicPos) == limit && m == old(m) && !Step(pr, text, m).Ended?))
    {
      hide Run, Placed, AtEnd, Located, Step, StepFits, Normalize, CtxOf, MachOk, Copy, Decoded, Written;
      var rest: nat;
      res, rest := FirstRound(limit);
      if res.ERROR_DATA? { return; }
      while rest < MATCH_SPEC_LEN_START && dicPos < limit && buf < bufLimit
        invariant PropsOk(pr) && res.OK? && Paused(rest, limit) && Advanced(pr, text, old(m), m)
        decreases |text| - m.d.pos, m.d.range
      {
        ghost var m1 := m;
        res, rest := NextRound(limit, bufLimit);
        if res.ERROR_DATA? { return; }
        AdvanceMore(pr, text, old(m), m1, m);
        AdvanceMeans(pr, text, m1, m);
      }
      EndRounds(rest, limit);
    }

    method EndRounds(rest: nat, ghost limit: nat)
      requires Paused(rest, limit)
      modifies this`range, this`code, this`buf, this`remainLen
      ensures Paused(rest, limit) && Abs() == m.d && remainLen == rest
    {
      hide Run, Reading, Located, Copy, Written;
      NormalizeInput();
      remainLen := rest;
    }

    ghost predicate Checked()
      reads this`checkDicSize, this`w
    {
      checkDicSize == if |w| >= pr.dicSize then pr.dicSize else 0
    }

    method CopyRem(len: nat, rep0: nat)
      requires DicHolds(pr, dic[..], dicPos, w) && dicPos + len <= dic.Length && 1 <= rep0 <= |w| && rep0 <= pr.dicSize
      modifies dic, this`dicPos, this`w
      ensures DicHolds(pr, dic[..], dicPos, w) && dicPos == old(dicPos) + len && w == Copy(old(w), rep0, len)
    {
      hide DicHolds, Copy;
      ghost var n: nat := 0;
      var left := len;
      CopyNone(w, rep0);
      while left != 0
        invariant DicHolds(pr, dic[..], dicPos, w) && dicPos == old(dicPos) + n && n + left == len
        invariant w == Copy(old(w), rep0, n) && |w| >= |old(w)|
        decreases left
      {
        DicAt(pr, dic[..], dicPos, w, rep0);
        CopyOne(old(w), rep0, n);
        PutByte(dic[DicIndex(dicPos, rep0, dic.Length)]);
        left := left - 1;
        n := n + 1;
      }
    }

    lemma DicSizeSmall()
      requires Sized()
      ensures 0 < pr.dicSize <= WORD
    {
    }

    /** Count `len` bytes that are about to be written. */
    method BookRem(len: nat)
      requires Sized() && processedPos == |w| % WORD && Checked()
      modifies this`checkDicSize, this`processedPos
      ensures processedPos == (|w| + len) % WORD && checkDicSize == if |w| + len >= pr.dicSize then pr.dicSize else 0
    {
      hide Sized, WORD;
      DicSizeSmall();
      NotWrapped(|w|, pr.dicSize);
      if checkDicSize == 0 && pr.dicSize - processedPos <= len { checkDicSize := pr.dicSize; }
      WrappedSum(|w|, len);
      processedPos := (processedPos + len) % WORD;
    }

    /** LzmaDec_WriteRem: the part of a match that an earlier limit cut off. */
    method WriteRem(limit: nat)
      requires Sized() && Written() && Checked() && dicPos <= limit <= dic.Length
      requires 0 < remainLen < MATCH_SPEC_LEN_START ==> Owed(remainLen) && reps[0] == m.reps.r0 <= pr.dicSize
      modifies dic, this`dicPos, this`w, this`processedPos, this`checkDicSize, this`remainLen
      ensures Written() && Checked() && old(dicPos) <= dicPos <= limit
      ensures 0 < old(remainLen) < MATCH_SPEC_LEN_START ==>
        Owed(remainLen) && remainLen < MATCH_SPEC_LEN_START && (remainLen == 0 || dicPos == limit)
      ensures !(0 < old(remainLen) < MATCH_SPEC_LEN_START) ==>
        remainLen == old(remainLen) && w == old(w) && dicPos == old(dicPos)
    {
      hide DicHolds, Copy;
      if remainLen != 0 && remainLen < MATCH_SPEC_LEN_START {
        var len, rep0 := remainLen, reps[0];
        if limit - dicPos < len { len := limit - dicPos; }
        BookRem(len);
        CopyParts(w, rep0, remainLen, remainLen - len);
        remainLen := remainLen - len;
        CopyRem(len, rep0);
        CopyNone(w, rep0);
      }
    }

    /** Between two rounds of the loop of LzmaDec_DecodeReal2. */
    ghost predicate Lapped(limit: nat)
      reads this, probs, reps, dic
    {
      Sized() && Reading() && Written() && Checked() && MachOk(pr, m) && Abs() == m.d && m.d.pos <= |text|
      && dicPos <= limit
      && (if remainLen < MATCH_SPEC_LEN_START then
            state == m.state && RepsAre(m.reps) && Located(pr, text, k, Going(m)) && Owed(remainLen)
            && (remainLen == 0 || dicPos == limit)
          else Located(pr, text, k, Ended(m)) && w == m.out)
    }

    /** The end of the output, or where the dictionary is first full. */
    method LimitUntilFull(limit: nat) returns (limit2: nat)
      requires Sized() && Written() && Checked() && dicPos <= limit
      ensures CheckMode(limit2) && limit2 <= limit && (limit2 == dicPos ==> limit == dicPos)
      ensures checkDicSize == 0 ==> |w| < pr.dicSize
    {
      hide DicHolds;
      limit2 := limit;
      if checkDicSize == 0 {
        var rem := pr.dicSize - processedPos;
        if limit - dicPos > rem { limit2 := dicPos + rem; }
      }
    }

    method EndLap(limit: nat, ghost limit2: nat)
      requires Paused(remainLen, limit2) && Abs() == m.d && limit2 <= limit <= dic.Length
      modifies dic, this`checkDicSize, this`dicPos, this`w, this`processedPos, this`remainLen
      ensures Lapped(limit)
    {
      hide Run, Reading, Located, Step, StepFits, CtxOf, Copy, Decoded, DicHolds, Normalize, DecOk;
      if processedPos >= pr.dicSize { checkDicSize := pr.dicSize; }
      RepZero(pr, m);
      WriteRem(limit);
    }

    method Lap(limit: nat, bufLimit: nat) returns (res: SRes)
      requires Lapped(limit) && remainLen == 0 && StepFits(pr, text, m) && limit <= dic.Length
      requires dicPos < limit || Decoded(pr, text, m).0.Match?
      requires bufLimit == 0 || bufLimit + REQUIRED_INPUT_MAX <= |input|
      modifies probs, dic, reps, this`range, this`code, this`buf, this`cells, this`checkDicSize
      modifies this`dicPos, this`w, this`processedPos, this`state, this`m, this`k, this`remainLen
      ensures res.OK? ==> Lapped(limit) && Advanced(pr, text, old(m), m)
      ensures res.ERROR_DATA? ==>
        Stuck() && (Step(pr, text, m) == Bad || (old(dicPos) == limit && m == old(m) && !Step(pr, text, m).Ended?))
    {
      hide Run, Reading, Located, Step, StepFits, CtxOf, Copy, Decoded, Written, Advanced;
      var limit2 := LimitUntilFull(limit);
      res := DecodeReal(limit2, bufLimit);
      if res.OK? { EndLap(limit, limit2); }
    }

    /** LzmaDec_DecodeReal2: rounds of LzmaDec_DecodeReal, stopping where the dictionary is
        first full. */
    method DecodeReal2(limit: nat, bufLimit: nat) returns (res: SRes)
      requires Lapped(limit) && remainLen == 0 && StepFits(pr, text, m) && limit <= dic.Length
      requires dicPos < limit || Decoded(pr, text, m).0.Match?
      requires bufLimit == 0 || bufLimit + REQUIRED_INPUT_MAX <= |input|
      modifies probs, dic, reps, this`range, this`code, this`buf, this`cells, this`checkDicSize
      modifies this`dicPos, this`w, this`processedPos, this`state, this`m, this`k, this`remainLen
      ensures res.OK? ==> Lapped(limit) && Advanced(pr, text, old(m), m) && remainLen <= MATCH_SPEC_LEN_START
      ensures res.ERROR_DATA? ==>
        Stuck() && (Step(pr, text, m) == Bad || (old(dicPos) == limit && m == old(m) && !Step(pr, text, m).Ended?))
    {
      hide Run, Located, Step, StepFits, CtxOf, Copy, Decoded, Written, MachOk;
      res := Lap(limit, bufLimit);
      if res.ERROR_DATA? { return; }
      while dicPos < limit && buf < bufLimit && remainLen < MATCH_SPEC_LEN_START
        invariant res.OK? && Lapped(limit) && Advanced(pr, text, old(m), m)
        decreases |text| - m.d.pos, m.d.range
      {
        ghost var m1 := m;
        RoomForSymbol(pr, text, m);
        res := Lap(limit, bufLimit);
        if res.ERROR_DATA? { return; }
        AdvanceMore(pr, text, old(m), m1, m);
        AdvanceMeans(pr, text, m1, m);
      }
      if remainLen > MATCH_SPEC_LEN_START { remainLen := MATCH_SPEC_LEN_START; }
    }
  }

  /** At least one symbol further. */
  ghost predicate Advanced(pr: Props, t: seq<byte>, m: Mach, m': Mach)
    requires PropsOk(pr)
  {
    After(m.d, m'.d) && After1(pr, t, m).pos <= m'.d.pos
  }

  lemma AdvanceMore(pr: Props, t: seq<byte>, m0: Mach, m1: Mach, m2: Mach)
    requires PropsOk(pr) && Advanced(pr, t, m0, m1) && Advanced(pr, t, m1, m2)
    ensures Advanced(pr, t, m0, m2)
  {
    hide After1;
  }

  lemma AdvanceMeans(pr: Props, t: seq<byte>, m0: Mach, m1: Mach)
    requires PropsOk(pr) && Advanced(pr, t, m0, m1)
    ensures After(m0.d, m1.d) && After1(pr, t, m0).pos <= m1.d.pos
  {
    hide After1;
  }

  lemma RoomForSymbol(pr: Props, t: seq<byte>, m: Mach)
    requires MachOk(pr, m) && m.d.pos + REQUIRED_INPUT_MAX <= |t|
    ensures StepFits(pr, t, m)
  {
    hide Run, CtxOf, Normalize;
    TwentyBytes(t, m.d, CtxOf(pr, m.state, m.reps.r0, m.out), true);
  }

  lemma StepMoves(pr: Props, s: seq<byte>, m: Mach)
    requires MachOk(pr, m) && StepFits(pr, s, m)
    ensures Step(pr, s, m) != Bad ==> Step(pr, s, m).m.d.pos <= |s| && Advanced(pr, s, m, Step(pr, s, m).m)
  {
    hide After1, Decoded, After;
    StepOk(pr, s, m);
    StepPos(pr, s, m);
  }

  lemma DecodedOk(pr: Props, t: seq<byte>, m: Mach, d: Dec)
    requires MachOk(pr, m) && Decoded(pr, t, m).1 == d
    ensures DecOk(d)
  {
    hide Run, CtxOf;
    RunProgress(t, m.d, m.d, CtxOf(pr, m.state, m.reps.r0, m.out), Start, true);
  }

  lemma EnterSymbol(pr: Props, t: seq<byte>, m: Mach, d: Dec, ctx: Ctx, goal: (Symbol, Dec))
    requires MachOk(pr, m) && m.d == Normalize(t, d) && DecOk(d) && StepFits(pr, t, m)
    requires ctx == CtxOf(pr, m.state, m.reps.r0, m.out) && goal == Decoded(pr, t, m)
    ensures CtxOk(pr, ctx) && ctx.state == m.state < 12 && ctx.posState == Low(|m.out|, pr.pb)
    ensures Run(t, d, ctx, Start, true) == goal && goal.1.pos <= |t| && m.d.pos <= |t|
  {
    hide Run, Normalize, CtxOk, Low;
    CtxOfOk(pr, m.state, m.reps.r0, m.out);
    RunNormalized(t, d, ctx, Start, true);
    RunForward(t, m.d, ctx, Start, true);
    NormalizeForward(t, goal.1);
  }

  lemma NormalizeForward(t: seq<byte>, d: Dec)
    ensures d.pos <= Normalize(t, d).pos <= d.pos + 1
  {
  }

  lemma NotTheEnd(pr: Props, t: seq<byte>, m: Mach, len: nat, dist: nat)
    requires MachOk(pr, m) && Decoded(pr, t, m).0 == Match(len, dist) && dist != END_DIST
    ensures !Step(pr, t, m).Ended?
  {
    hide Decoded, After1;
  }

  lemma RepRefused(pr: Props, t: seq<byte>, m: Mach)
    requires MachOk(pr, m) && m.out == [] && (Decoded(pr, t, m).0.Rep? || Decoded(pr, t, m).0.ShortRep?)
    ensures Step(pr, t, m) == Bad
  {
    hide Decoded, After1, CtxOf;
  }

  lemma RepInRangeOk(pr: Props, m: Mach, i: nat)
    requires MachOk(pr, m) && m.out != [] && i < 4
    ensures 1 <= RepAt(m.reps, i) <= |m.out| && RepAt(m.reps, i) <= pr.dicSize
    ensures Recall(m.reps, i).r0 == RepAt(m.reps, i)
  {
  }

  lemma CopyParts(w: seq<byte>, d: nat, len: nat, rest: nat)
    requires 1 <= d <= |w| && rest <= len
    ensures Copy(w, d, len) == Copy(Copy(w, d, len - rest), d, rest)
    ensures |Copy(w, d, len - rest)| >= |w|
  {
    CopyAdd(w, d, len - rest, rest);
  }

  lemma RepZero(pr: Props, m: Mach)
    requires MachOk(pr, m)
    ensures 1 <= m.reps.r0 <= pr.dicSize && (m.out != [] ==> m.reps.r0 <= |m.out|)
    ensures m.state < 12 && (m.state >= 7 ==> m.out != [])
  {
    assert RepAt(m.reps, 0) == m.reps.r0;
  }

  predicate ExtendOk(r: Reps, n: nat, sym: Symbol) {
    RepsOk(r, n) && (sym.Literal? || n > 0) && (sym.Match? ==> sym.dist < n)
  }

  lemma StateBound(pr: Props, m: Mach)
    requires MachOk(pr, m)
    ensures m.state < 12
  {
  }

  lemma StepEnds(pr: Props, s: seq<byte>, m: Mach, len: nat, d: Dec)
    requires MachOk(pr, m) && Decoded(pr, s, m) == (Match(len, END_DIST), d)
    ensures Step(pr, s, m) == Ended(m.(d := Normalize(s, d))) && MachOk(pr, m.(d := Normalize(s, d)))
  {
    hide Run, Normalize, CtxOf;
    StepOk(pr, s, m);
  }

  lemma StepTakes(pr: Props, s: seq<byte>, m: Mach, sym: Symbol, d: Dec)
    requires MachOk(pr, m) && Decoded(pr, s, m) == (sym, d) && Reaches(pr, |m.out|, sym)
    requires sym.Match? ==> sym.dist != END_DIST
    ensures ExtendOk(m.reps, |m.out|, sym)
    ensures Step(pr, s, m) == Going(Mach(Normalize(s, d), NextState(m.state, sym), NextReps(m.reps, sym),
                                         Extend(m.out, m.reps, sym)))
    ensures MachOk(pr, Step(pr, s, m).m)
  {
    hide Run, Normalize, CtxOf;
    StepOk(pr, s, m);
  }

  lemma CopyNone(w: seq<byte>, d: nat)
    requires 1 <= d <= |w|
    ensures Copy(w, d, 0) == w
  {
  }

  lemma NotWrapped(n: nat, size: nat)
    requires size <= WORD
    ensures n < size ==> n % WORD == n
  {
  }

  lemma WrappedSum(a: nat, b: nat)
    ensures (a % WORD + b) % WORD == (a + b) % WORD
  {
    var q := a / WORD;
    QuotientPlus(a + b, a % WORD + b, WORD, q);
  }

  // ----- Lemmas on the bits -----

  lemma ChoiceWf(k: Kind)
    ensures Wf(Choice(k))
  {
  }

  lemma RunAtDone(t: seq<byte>, d: Dec, ctx: Ctx, p: Phase, adapt: bool)
    requires Wf(p)
    ensures p.Done? ==> Run(t, d, ctx, p, adapt) == (p.sym, d)
  {
  }

  lemma LitOff(ctx: Ctx, n: nat, m: nat, offs: bool)
    requires Wf(Lit(n, m, offs))
    ensures Off(QueryOf(ctx, Lit(n, m, offs)).cell)
      == LITERAL + LIT_SIZE * ctx.litCtx + (if offs then 0x100 + 0x100 * MatchBit(ctx, n) else 0) + m
  {
  }

  lemma LitNext(ctx: Ctx, n: nat, m: nat, offs: bool, b: bit)
    requires Wf(Lit(n, m, offs))
    ensures n <= 8
    ensures n > 1 ==> Next(ctx, Lit(n, m, offs), b) == Lit(n - 1, 2 * m + b, offs && b == MatchBit(ctx, n))
    ensures n > 1 ==> 2 * m + b < 0x100
    ensures n == 1 ==> 0x100 <= 2 * m + b < 0x200
    ensures n == 1 ==> Next(ctx, Lit(n, m, offs), b) == Done(Literal((2 * m + b) % 0x100))
  {
    hide Pow2, MatchBit;
    TreeStep(8, n, m, b);
    Pow2Values();
    if n > 1 { TreeIndexBound(8, n - 1, 2 * m + b); }
  }

  lemma SpecOff(ctx: Ctx, len: nat, slot: nat, i: nat, m: nat, dist: nat)
    requires Wf(Spec(len, slot, i, m, dist))
    ensures Off(QueryOf(ctx, Spec(len, slot, i, m, dist)).cell) == SPEC_POS + SlotBase(slot) - slot - 1 + m
  {
    hide SlotBase, Pow2;
    SlotBaseAboveSlot(slot);
  }

  lemma SpecNext(ctx: Ctx, len: nat, slot: nat, i: nat, m: nat, dist: nat, b: bit)
    requires Wf(Spec(len, slot, i, m, dist))
    ensures Pow2(i + 1) == 2 * Pow2(i)
    ensures var d := dist + if b == 1 then Pow2(i) else 0;
      d < WORD && Next(ctx, Spec(len, slot, i, m, dist), b)
        == if i + 1 == Footer(slot) then Done(Match(len, d)) else Spec(len, slot, i + 1, 2 * m + b, d)
  {
    SlotBaseSmall(slot);
    Pow2Monotone(i + 1, Footer(slot));
  }

  lemma EvenNext(ctx: Ctx, len: nat, slot: nat, n: nat, dist: nat, b: bit)
    requires Wf(Even(len, slot, n, dist))
    ensures Next(ctx, Even(len, slot, n, dist), b)
      == if n == 1 then Aligned(len, 0, 1, (2 * dist + b) * 16) else Even(len, slot, n - 1, 2 * dist + b)
  {
  }

  lemma AlignNext(ctx: Ctx, len: nat, i: nat, m: nat, dist: nat)
    requires Wf(Aligned(len, i, m, dist))
    ensures Off(QueryOf(ctx, Aligned(len, i, m, dist)).cell) == ALIGN + m
    ensures forall b: bit :: var d := dist + b * Pow2(i);
      d < WORD && Next(ctx, Aligned(len, i, m, dist), b)
        == if i == 3 then Done(Match(len, d)) else Aligned(len, i + 1, 2 * m + b, d)
  {
    forall b: bit ensures dist + b * Pow2(i) < WORD { AlignBitFits(dist, i, b); }
  }

  lemma AskedInside(t: seq<byte>, d: Dec, ctx: Ctx, p: Phase, adapt: bool, goal: (Symbol, Dec))
    requires Wf(p) && !p.Done? && Run(t, d, ctx, p, adapt) == goal
    ensures Ask(t, d, QueryOf(ctx, p), adapt).1.pos == Normalize(t, d).pos <= goal.1.pos
  {
    hide Ask, Next, QueryOf, Wf;
    var (b, d') := Ask(t, d, QueryOf(ctx, p), adapt);
    StepWf(ctx, p, b);
    RunForward(t, d', ctx, Next(ctx, p, b), adapt);
    AskPos(t, d, QueryOf(ctx, p), adapt);
  }

  lemma AskPos(t: seq<byte>, d: Dec, q: Query, adapt: bool)
    ensures Ask(t, d, q, adapt).1.pos == Normalize(t, d).pos
  {
  }
}
