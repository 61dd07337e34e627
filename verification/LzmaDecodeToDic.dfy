/** LzmaDec.c, the dictionary interface: LzmaDec_DecodeToDic takes the stream in pieces of any
    size and keeps up to twenty bytes of an incomplete symbol in `tempBuf`. */
module LzmaDecodeToDic {
  import opened Numbers
  import opened RangeCoder
  import opened LzmaSymbols
  import opened LzmaLookahead
  import opened LzmaMachine
  import opened LzmaRoundTrip
  import opened LzmaStreaming
  import opened LzmaLayout
  import opened LzmaDictionary
  import opened LzmaDecoder
  import opened LzmaTryDummy

  // ----- What holds between calls -----

  ghost predicate Common(p: LzmaDec)
    reads p, p.dic
  {
    p.Sized() && p.Written() && p.Checked()
  }

  /** The header is not complete. */
  ghost predicate Fresh(p: LzmaDec)
    reads p, p.tempBuf
  {
    p.needInitState && p.remainLen == 0 && p.w == []
    && |p.stream| == p.tempBufSize <= RC_INIT_SIZE <= p.tempBuf.Length && p.stream == p.tempBuf[..p.tempBufSize]
  }

  /** The header is read, the probabilities are not set yet. */
  ghost predicate Primed(p: LzmaDec)
    reads p
  {
    p.remainLen == 0 && p.tempBufSize == 0 && p.w == [] && |p.stream| == RC_INIT_SIZE && p.k == 0
    && Located(p.pr, p.stream, 0, Going(p.m)) && p.m == InitMach(p.stream)
    && p.range == p.m.d.range && p.code == p.m.d.code
  }

  /** The fields show the machine's place in the stream, and `remainLen` how much of its output
      is still to be written. */
  ghost predicate Running(p: LzmaDec)
    reads p, p.probs, p.reps
  {
    PropsOk(p.pr) && MachOk(p.pr, p.m) && Holds(p.pr, p.probs[..], p.cells)
    && p.m.d == Dec(p.range, p.code, p.m.d.pos, p.cells) && RC_INIT_SIZE <= p.m.d.pos <= |p.stream|
    && p.remainLen <= MATCH_SPEC_LEN_START
    && if p.remainLen < MATCH_SPEC_LEN_START then
         p.state == p.m.state && p.RepsAre(p.m.reps) && Located(p.pr, p.stream, p.k, Going(p.m)) && p.Owed(p.remainLen)
       else Located(p.pr, p.stream, p.k, Ended(p.m)) && p.w == p.m.out
  }

  /** tempBuf holds the bytes taken after the last complete symbol. */
  ghost predicate Held(p: LzmaDec)
    reads p, p.tempBuf
  {
    p.tempBufSize <= p.tempBuf.Length && p.m.d.pos + p.tempBufSize == |p.stream|
    && p.stream[p.m.d.pos..] == p.tempBuf[..p.tempBufSize]
  }

  /** All complete symbols are decoded and written, and the next is not complete. */
  ghost predicate Starved(p: LzmaDec)
    requires PropsOk(p.pr)
    reads p
  {
    p.remainLen == 0 && !StepFits(p.pr, p.stream, p.m)
  }

  ghost predicate Valid(p: LzmaDec)
    reads p, p.probs, p.reps, p.dic, p.tempBuf
  {
    Common(p)
    && if p.needFlush then Fresh(p) && p.tempBufSize < RC_INIT_SIZE
       else if p.needInitState then Primed(p)
       else Running(p) && Held(p) && (p.tempBufSize > 0 ==> Starved(p))
  }

  // ----- The header and the initial state -----

  /** Collect the five bytes of the header. */
  method FillHeader(p: LzmaDec, src: seq<byte>) returns (used: nat)
    requires p.Sized() && Fresh(p)
    modifies p.tempBuf, p`tempBufSize, p`stream
    ensures Fresh(p) && used <= |src| && p.stream == old(p.stream) + src[..used]
    ensures p.tempBufSize < RC_INIT_SIZE ==> used == |src|
  {
    used := 0;
    while used < |src| && p.tempBufSize < RC_INIT_SIZE
      invariant Fresh(p) && used <= |src| && p.stream == old(p.stream) + src[..used]
    {
      p.tempBuf[p.tempBufSize] := src[used];
      p.tempBufSize := p.tempBufSize + 1;
      p.stream := p.stream + [src[used]];
      used := used + 1;
    }
  }

  /** LzmaDec_InitRc */
  method InitRc(p: LzmaDec)
    requires p.Sized() && Fresh(p) && p.tempBufSize == RC_INIT_SIZE && p.tempBuf[0] == 0
    modifies p`code, p`range, p`needFlush, p`tempBufSize, p`m, p`k
    ensures Primed(p) && !p.needFlush
  {
    hide MachOk;
    var d1: nat, d2: nat, d3: nat, d4: nat := p.tempBuf[1], p.tempBuf[2], p.tempBuf[3], p.tempBuf[4];
    p.code := ((d1 * 0x100 + d2) * 0x100 + d3) * 0x100 + d4;
    p.range := 0xFFFF_FFFF;
    p.needFlush := false;
    p.tempBufSize := 0;
    p.m := InitMach(p.stream);
    p.k := 0;
    assert forall i | 0 <= i < 5 :: ByteAt(p.stream, i) == p.tempBuf[i];
    InitMachOk(p.pr, p.stream);
    LocatedStart(p.pr, p.stream);
  }

  lemma LocatedStart(pr: Props, s: seq<byte>)
    requires PropsOk(pr) && |s| >= 5 && s[0] == 0
    ensures Located(pr, s, 0, Going(InitMach(s)))
  {
    InitMachOk(pr, s);
    InitMachStart(s);
    hide InitMach;
  }

  /** LzmaDec_InitStateReal */
  method InitStateReal(p: LzmaDec)
    requires p.Sized() && Primed(p)
    modifies p.probs, p.reps, p`state, p`needInitState, p`cells
    ensures Running(p) && Held(p) && !p.needInitState
  {
    hide Located;
    InitProbs(p);
    p.reps[0], p.reps[1], p.reps[2], p.reps[3] := 1, 1, 1, 1;
    p.state := 0;
    p.needInitState := false;
    InitMachOk(p.pr, p.stream);
    InitMachStart(p.stream);
  }

  method InitProbs(p: LzmaDec)
    requires p.Sized()
    modifies p.probs, p`cells
    ensures Holds(p.pr, p.probs[..], map[]) && p.cells == map[]
  {
    hide Pow2, Holds;
    var i := 0;
    while i < p.probs.Length
      invariant 0 <= i <= p.probs.Length && forall j | 0 <= j < i :: p.probs[j] == PROB_INIT
    {
      p.probs[i] := BIT_TOTAL / 2;
      i := i + 1;
    }
    p.cells := map[];
    HoldsInit(p.pr, p.probs[..]);
  }

  // ----- Decoding from a piece of input -----

  /** The place is known, all output is written, and a symbol may be taken: there is room, or
      the end mark is due. */
  ghost predicate Poised(p: LzmaDec, dicLimit: nat)
    reads p, p.probs, p.reps, p.dic
  {
    Common(p) && Running(p) && p.remainLen == 0 && p.dicPos <= dicLimit <= p.dic.Length
  }

  /** Hand the input to LzmaDec_DecodeReal2. */
  method DecodeFrom(p: LzmaDec, input: seq<byte>, dicLimit: nat, bufLimit: nat, ghost text: seq<byte>)
    returns (res: SRes)
    requires Poised(p, dicLimit) && p.stream <= text && p.m.d.pos + |input| == |text| && text[p.m.d.pos..] == input
    requires StepFits(p.pr, text, p.m) && (p.dicPos < dicLimit || Decoded(p.pr, text, p.m).0.Match?)
    requires bufLimit == 0 || bufLimit + REQUIRED_INPUT_MAX <= |input|
    modifies p.probs, p.dic, p.reps, p`range, p`code, p`buf, p`cells, p`checkDicSize, p`input, p`text, p`base
    modifies p`dicPos, p`w, p`processedPos, p`state, p`m, p`k, p`remainLen
    ensures p.text == text && p.base == old(p.m).d.pos && p.input == input
    ensures res.OK? ==>
      p.Lapped(dicLimit) && p.remainLen <= MATCH_SPEC_LEN_START && Advanced(p.pr, text, old(p.m), p.m)
    ensures res.ERROR_DATA? ==>
      p.Stuck() &&
      (Step(p.pr, text, p.m) == Bad || (old(p.dicPos) == dicLimit && p.m == old(p.m) && !Step(p.pr, text, p.m).Ended?))
  {
    hide Run, Located, Step, StepFits, Copy, Decoded, DicHolds, MachOk, Advanced, Holds;
    LocatedExtend(p.pr, p.stream, text, p.k, Going(p.m));
    p.input := input;
    p.text := text;
    p.base := p.m.d.pos;
    p.buf := 0;
    res := p.DecodeReal2(dicLimit, bufLimit);
  }

  /** The bytes up to the machine's place are what has been taken. */
  ghost method Settle(p: LzmaDec, dicLimit: nat)
    requires p.Lapped(dicLimit) && p.remainLen <= MATCH_SPEC_LEN_START && 5 <= p.m.d.pos
    modifies p`stream
    ensures Common(p) && Running(p) && p.stream == p.text[..p.m.d.pos]
  {
    hide Copy, DicHolds, MachOk, Holds, Located;
    p.stream := p.text[..p.m.d.pos];
    LocatedShrink(p.pr, p.stream, p.text, p.k, if p.remainLen < MATCH_SPEC_LEN_START then Going(p.m) else Ended(p.m));
  }

  /** The output was to end at `room` bytes, and the stream goes on with something else than the
      end mark. */
  ghost predicate Overruns(pr: Props, whole: seq<byte>, k: nat, m: Mach, room: int)
    requires PropsOk(pr)
  {
    MachOk(pr, m) && Located(pr, whole, k, Going(m))
    && (|m.out| > room || (|m.out| == room && StepFits(pr, whole, m) && !Step(pr, whole, m).Ended?))
  }

  /** Why a call may fail. `room` is where in the output the limit lies. */
  ghost predicate Failed(pr: Props, whole: seq<byte>, k: nat, m: Mach, room: int, mode: FinishMode)
    requires PropsOk(pr)
  {
    var all := DecodeAll(pr, whole);
    all == BadHeader || all == Body(Corrupt) || (all.Body? && all.d.Finished? && all.d.m.d.code != 0)
    || (mode.FINISH_END? && Overruns(pr, whole, k, m, room))
  }

  lemma StuckFails(pr: Props, text: seq<byte>, whole: seq<byte>, k: nat, m: Mach, room: int, mode: FinishMode)
    requires PropsOk(pr) && MachOk(pr, m) && Located(pr, text, k, Going(m)) && StepFits(pr, text, m) && text <= whole
    requires Step(pr, text, m) == Bad || (mode.FINISH_END? && |m.out| == room && !Step(pr, text, m).Ended?)
    ensures Failed(pr, whole, k, m, room, mode)
  {
    hide Step, StepFits, Located, MachOk, DecodeAll;
    if Step(pr, text, m) == Bad {
      LocatedDecodes(pr, text, k, Going(m));
      BadIsCorrupt(pr, text, k, m);
      DecodedFurther(pr, text, whole);
    } else {
      LocatedExtend(pr, text, whole, k, Going(m));
      StepUnderPrefix(pr, text, whole, m);
    }
  }

  lemma NoEndMark(pr: Props, t: seq<byte>, m: Mach)
    requires MachOk(pr, m) && !Decoded(pr, t, m).0.Match?
    ensures !Step(pr, t, m).Ended?
  {
    hide Decoded, After1;
  }

  lemma BadIsCorrupt(pr: Props, text: seq<byte>, k: nat, m: Mach)
    requires MachOk(pr, m) && Located(pr, text, k, Going(m)) && StepFits(pr, text, m) && Step(pr, text, m) == Bad
    ensures DecodeAll(pr, text) == Body(Corrupt)
  {
    hide Step, StepFits, MachOk, DecodeAll;
    LocatedDecodes(pr, text, k, Going(m));
  }

  /** What is decided stays decided. */
  lemma DecodedFurther(pr: Props, text: seq<byte>, whole: seq<byte>)
    requires PropsOk(pr) && text <= whole
    ensures var r := DecodeAll(pr, text);
      (r == BadHeader || (r.Body? && !r.d.NeedMore?)) ==> DecodeAll(pr, whole) == r
  {
    hide DecodeAll, Drain;
    assert text + whole[|text|..] == whole;
    ChunkIndependence(pr, text, whole[|text|..], DecodeAll(pr, text));
  }

  /** All that there is room for. */
  ghost predicate Written(p: LzmaDec, dicLimit: nat)
    reads p
  {
    p.remainLen == 0 || p.dicPos == dicLimit || p.remainLen == MATCH_SPEC_LEN_START
  }

  /** Decode from the caller's input; what remains of an incomplete symbol goes to tempBuf. */
  method FromInput(p: LzmaDec, src: seq<byte>, dicLimit: nat, checkEndMarkNow: bool, ghost mode: FinishMode)
    returns (res: SRes, status: Status, processed: nat, stop: bool)
    requires Poised(p, dicLimit) && Held(p) && p.tempBufSize == 0
    requires (checkEndMarkNow <==> p.dicPos == dicLimit) && (checkEndMarkNow ==> mode.FINISH_END?)
    modifies p.probs, p.dic, p.reps, p.tempBuf, p`range, p`code, p`buf, p`cells, p`checkDicSize, p`input, p`text, p`base
    modifies p`dicPos, p`w, p`processedPos, p`state, p`m, p`k, p`remainLen, p`tempBufSize, p`stream
    ensures processed <= |src|
    ensures res.OK? ==> Common(p) && Running(p) && Held(p) && p.dicPos <= dicLimit
    ensures res.OK? ==> p.stream == old(p.stream) + src[..processed]
    ensures res.OK? && stop ==> status.NEEDS_MORE_INPUT? && processed == |src| && Starved(p)
    ensures res.OK? && !stop ==> p.tempBufSize == 0 && After(old(p.m).d, p.m.d) && Written(p, dicLimit)
    ensures res.ERROR_DATA? ==> Failed(p.pr, old(p.stream) + src, p.k, p.m, dicLimit + p.origin, mode)
  {
    hide Run, Located, Step, StepFits, Copy, Decoded, DicHolds, MachOk, Advanced, Holds, Failed, After;
    ghost var text := p.stream + src;
    var bufLimit: nat := 0;
    res, status, processed, stop := OK, NOT_SPECIFIED, 0, true;
    if |src| < REQUIRED_INPUT_MAX || checkEndMarkNow {
      assert text[p.m.d.pos..] == src;
      var dummyRes := TryDummy(p, src, text, p.m.d.pos);
      if dummyRes.DUMMY_ERROR? {
        KeepInput(p, src);
        status, processed := NEEDS_MORE_INPUT, |src|;
        return;
      }
      if checkEndMarkNow && !dummyRes.DUMMY_MATCH? {
        NoEndMark(p.pr, text, p.m);
        LocatedExtend(p.pr, p.stream, text, p.k, Going(p.m));
        StuckFails(p.pr, text, text, p.k, p.m, dicLimit + p.origin, mode);
        res, status := ERROR_DATA, NOT_FINISHED;
        return;
      }
    } else {
      RoomForSymbol(p.pr, text, p.m);
      bufLimit := |src| - REQUIRED_INPUT_MAX;
    }
    ghost var m0 := p.m;
    res := DecodeFrom(p, src, dicLimit, bufLimit, text);
    if res.ERROR_DATA? {
      StuckFails(p.pr, text, text, p.k, p.m, dicLimit + p.origin, mode);
      return;
    }
    AdvanceMeans(p.pr, text, m0, p.m);
    Settle(p, dicLimit);
    processed := p.buf;
    stop := false;
  }

  method KeepInput(p: LzmaDec, src: seq<byte>)
    requires Poised(p, 0 + p.dicPos) && Held(p) && p.tempBufSize == 0 && !StepFits(p.pr, p.stream + src, p.m)
    modifies p.tempBuf, p`tempBufSize, p`stream
    ensures Common(p) && Running(p) && Held(p) && Starved(p) && p.stream == old(p.stream) + src
  {
    hide Run, Located, Step, StepFits, Copy, Decoded, DicHolds, MachOk, Holds;
    ghost var text := p.stream + src;
    if |src| >= REQUIRED_INPUT_MAX { RoomForSymbol(p.pr, text, p.m); }
    LocatedExtend(p.pr, p.stream, text, p.k, Going(p.m));
    forall i | 0 <= i < |src| { p.tempBuf[i] := src[i]; }    // memcpy
    p.tempBufSize := |src|;
    p.stream := text;
    assert p.tempBuf[..|src|] == src == text[p.m.d.pos..];
    assert p.probs[..] == old(p.probs[..]);
  }

  /** Complete the bytes of an unfinished symbol in tempBuf. */
  method FillTempBuf(p: LzmaDec, src: seq<byte>) returns (rem: nat, lookAhead: nat)
    requires Common(p) && Running(p) && Held(p)
    modifies p.tempBuf
    ensures Common(p) && Running(p)
    ensures lookAhead <= |src| && rem == p.tempBufSize + lookAhead <= p.tempBuf.Length
    ensures rem < REQUIRED_INPUT_MAX ==> lookAhead == |src|
    ensures p.tempBuf[..rem] == (p.stream + src[..lookAhead])[p.m.d.pos..]
  {
    hide Located, Copy, DicHolds, MachOk, Holds;
    rem, lookAhead := p.tempBufSize, 0;
    while rem < REQUIRED_INPUT_MAX && lookAhead < |src|
      invariant lookAhead <= |src| && rem == p.tempBufSize + lookAhead <= p.tempBuf.Length
      invariant p.tempBuf[..rem] == p.stream[p.m.d.pos..] + src[..lookAhead]
    {
      p.tempBuf[rem] := src[lookAhead];
      rem, lookAhead := rem + 1, lookAhead + 1;
    }
    assert p.probs[..] == old(p.probs[..]);
  }

  /** Decode one symbol from tempBuf, completed with bytes of the caller's input; what was not
      used of these is given back. */
  method FromTempBuf(p: LzmaDec, src: seq<byte>, dicLimit: nat, checkEndMarkNow: bool, ghost mode: FinishMode)
    returns (res: SRes, status: Status, processed: nat, stop: bool)
    requires Poised(p, dicLimit) && Held(p) && p.tempBufSize > 0 && Starved(p)
    requires (checkEndMarkNow <==> p.dicPos == dicLimit) && (checkEndMarkNow ==> mode.FINISH_END?)
    modifies p.probs, p.dic, p.reps, p.tempBuf, p`range, p`code, p`buf, p`cells, p`checkDicSize, p`input, p`text, p`base
    modifies p`dicPos, p`w, p`processedPos, p`state, p`m, p`k, p`remainLen, p`tempBufSize, p`stream
    ensures processed <= |src|
    ensures res.OK? ==> Common(p) && Running(p) && Held(p) && p.dicPos <= dicLimit
    ensures res.OK? ==> p.stream == old(p.stream) + src[..processed]
    ensures res.OK? && stop ==> status.NEEDS_MORE_INPUT? && processed == |src| && Starved(p)
    ensures res.OK? && !stop ==> p.tempBufSize == 0 && After(old(p.m).d, p.m.d) && Written(p, dicLimit)
    ensures res.ERROR_DATA? ==> Failed(p.pr, old(p.stream) + src, p.k, p.m, dicLimit + p.origin, mode)
  {
    hide Run, Located, Step, StepFits, Copy, Decoded, DicHolds, MachOk, Advanced, Holds, Failed, After;
    var rem, lookAhead := FillTempBuf(p, src);
    ghost var text := p.stream + src[..lookAhead];
    ghost var whole := p.stream + src;
    var input := p.tempBuf[..rem];
    res, status, processed, stop := OK, NOT_SPECIFIED, 0, true;
    if rem < REQUIRED_INPUT_MAX || checkEndMarkNow {
      var dummyRes := TryDummy(p, input, text, p.m.d.pos);
      if dummyRes.DUMMY_ERROR? {
        if rem >= REQUIRED_INPUT_MAX { RoomForSymbol(p.pr, text, p.m); }
        LocatedExtend(p.pr, p.stream, text, p.k, Going(p.m));
        p.tempBufSize := rem;
        p.stream := text;
        status, processed := NEEDS_MORE_INPUT, lookAhead;
        return;
      }
      if checkEndMarkNow && !dummyRes.DUMMY_MATCH? {
        NoEndMark(p.pr, text, p.m);
        LocatedExtend(p.pr, p.stream, text, p.k, Going(p.m));
        StuckFails(p.pr, text, whole, p.k, p.m, dicLimit + p.origin, mode);
        res, status := ERROR_DATA, NOT_FINISHED;
        return;
      }
    } else {
      RoomForSymbol(p.pr, text, p.m);
    }
    res, processed := UseTempBuf(p, src, rem, lookAhead, dicLimit, mode);
    stop := res.ERROR_DATA?;
  }

  method UseTempBuf(p: LzmaDec, ghost src: seq<byte>, rem: nat, lookAhead: nat, dicLimit: nat, ghost mode: FinishMode)
    returns (res: SRes, processed: nat)
    requires Poised(p, dicLimit) && Starved(p) && p.m.d.pos + p.tempBufSize == |p.stream|
    requires lookAhead <= |src| && rem == p.tempBufSize + lookAhead <= p.tempBuf.Length
    requires p.tempBuf[..rem] == (p.stream + src[..lookAhead])[p.m.d.pos..]
    requires StepFits(p.pr, p.stream + src[..lookAhead], p.m)
    requires p.dicPos < dicLimit || (mode.FINISH_END? && Decoded(p.pr, p.stream + src[..lookAhead], p.m).0.Match?)
    modifies p.probs, p.dic, p.reps, p`range, p`code, p`buf, p`cells, p`checkDicSize, p`input, p`text, p`base
    modifies p`dicPos, p`w, p`processedPos, p`state, p`m, p`k, p`remainLen, p`tempBufSize, p`stream
    ensures processed <= |src|
    ensures res.OK? ==> Common(p) && Running(p) && Held(p) && p.dicPos <= dicLimit
    ensures res.OK? ==> p.stream == old(p.stream) + src[..processed]
    ensures res.OK? ==> p.tempBufSize == 0 && After(old(p.m).d, p.m.d) && Written(p, dicLimit)
    ensures res.ERROR_DATA? ==> Failed(p.pr, old(p.stream) + src, p.k, p.m, dicLimit + p.origin, mode)
  {
    hide Run, Located, Step, StepFits, Copy, Decoded, DicHolds, MachOk, Advanced, Holds, Failed, After;
    ghost var text := p.stream + src[..lookAhead];
    ghost var m0, s0 := p.m, p.stream;
    processed := 0;
    res := DecodeFrom(p, p.tempBuf[..rem], dicLimit, 0, text);
    if res.ERROR_DATA? {
      StuckFails(p.pr, text, s0 + src, p.k, p.m, dicLimit + p.origin, mode);
      return;
    }
    AdvanceMeans(p.pr, text, m0, p.m);
    PastOld(p.pr, s0, text, m0);
    Settle(p, dicLimit);
    processed := lookAhead - (rem - p.buf);
    p.tempBufSize := 0;
  }

  /** A symbol that did not fit takes more than the bytes there were. */
  lemma PastOld(pr: Props, s: seq<byte>, t: seq<byte>, m: Mach)
    requires MachOk(pr, m) && s <= t && !StepFits(pr, s, m)
    ensures After1(pr, t, m).pos > |s|
  {
    hide Decoded, After1;
    if After1(pr, t, m).pos <= |s| {
      assert SamePrefix(t, s, |s|);
      StepSame(pr, t, s, m, |s|);
      StepPos(pr, s, m);
    }
  }

  // ----- One call -----

  /** What a call that did not fail may report. */
  ghost predicate Reports(p: LzmaDec, status: Status, dicLimit: nat, mode: FinishMode)
    requires PropsOk(p.pr)
    reads p
  {
    match status
    case NEEDS_MORE_INPUT => p.needFlush || (!p.needInitState && Starved(p))
    case FINISHED_WITH_MARK => !p.needFlush && !p.needInitState && p.remainLen == MATCH_SPEC_LEN_START && p.code == 0
    case MAYBE_FINISHED_WITHOUT_MARK => !p.needFlush && p.dicPos == dicLimit && p.remainLen == 0 && p.code == 0
    case NOT_FINISHED =>
      !p.needFlush && p.dicPos == dicLimit && mode.FINISH_ANY? && p.remainLen < MATCH_SPEC_LEN_START
      && (p.remainLen != 0 || p.code != 0)
    case NOT_SPECIFIED => false
  }

  ghost predicate Looping(p: LzmaDec, dicLimit: nat)
    reads p, p.probs, p.reps, p.dic, p.tempBuf
  {
    Valid(p) && p.dicPos <= dicLimit <= p.dic.Length && Written(p, dicLimit)
    && p.remainLen <= MATCH_SPEC_LEN_START && (!p.needFlush ==> p.m.d.pos <= |p.stream|)
  }

  /** First write what an earlier call left over. */
  method Resume(p: LzmaDec, dicLimit: nat)
    requires Valid(p) && p.dicPos <= dicLimit <= p.dic.Length
    modifies p.dic, p`dicPos, p`w, p`processedPos, p`checkDicSize, p`remainLen
    ensures Looping(p, dicLimit)
  {
    hide DicHolds, Copy, Holds, Located, StepFits;
    if !p.needFlush && !p.needInitState { RepZero(p.pr, p.m); }
    hide MachOk;
    p.WriteRem(dicLimit);
  }

  method Header(p: LzmaDec, src: seq<byte>, ghost dicLimit: nat) returns (res: SRes, used: nat, stop: bool)
    requires Looping(p, dicLimit) && p.needFlush
    modifies p.tempBuf, p`code, p`range, p`needFlush, p`tempBufSize, p`m, p`k, p`stream
    ensures used <= |src|
    ensures res.OK? ==> Looping(p, dicLimit) && p.stream == old(p.stream) + src[..used]
    ensures res.OK? ==> (stop <==> p.needFlush) && (stop ==> used == |src|)
    ensures res.ERROR_DATA? ==> DecodeAll(p.pr, old(p.stream) + src) == BadHeader
  {
    hide DicHolds, Located, StepFits, Drain;
    res, stop := OK, true;
    used := FillHeader(p, src);
    if p.tempBufSize < RC_INIT_SIZE { return; }
    if p.tempBuf[0] != 0 {
      assert (old(p.stream) + src)[0] == p.stream[0];
      return ERROR_DATA, used, true;
    }
    InitRc(p);
    stop := false;
  }

  /** The output has reached the limit. */
  method AtLimit(p: LzmaDec, ghost src: seq<byte>, dicLimit: nat, mode: FinishMode)
    returns (res: SRes, status: Status, stop: bool, checkEndMarkNow: bool)
    requires Looping(p, dicLimit) && !p.needFlush && p.remainLen < MATCH_SPEC_LEN_START
    ensures res.OK? && stop ==> Reports(p, status, dicLimit, mode) && !status.NEEDS_MORE_INPUT?
    ensures !stop ==> res.OK? && p.remainLen == 0
    ensures !stop ==> (checkEndMarkNow <==> p.dicPos == dicLimit) && (checkEndMarkNow ==> mode.FINISH_END?)
    ensures res.ERROR_DATA? ==> Failed(p.pr, p.stream + src, p.k, p.m, dicLimit + p.origin, mode)
  {
    hide DicHolds, Located, StepFits, DecodeAll, Copy, MachOk, Holds;
    res, status, stop, checkEndMarkNow := OK, NOT_SPECIFIED, true, false;
    if p.dicPos >= dicLimit {
      if p.remainLen == 0 && p.code == 0 {
        status := MAYBE_FINISHED_WITHOUT_MARK;
        return;
      }
      if mode == FINISH_ANY {
        status := NOT_FINISHED;
        return;
      }
      if p.remainLen != 0 {
        LocatedExtend(p.pr, p.stream, p.stream + src, p.k, Going(p.m));
        res, status := ERROR_DATA, NOT_FINISHED;
        return;
      }
      checkEndMarkNow := true;
    }
    stop := false;
  }

  /** Take symbols from the input, with the initial state set if it was not. */
  method Feed(p: LzmaDec, src: seq<byte>, dicLimit: nat, check: bool, ghost mode: FinishMode)
    returns (res: SRes, status: Status, processed: nat, stop: bool)
    requires Looping(p, dicLimit) && !p.needFlush && p.remainLen == 0
    requires (check <==> p.dicPos == dicLimit) && (check ==> mode.FINISH_END?)
    modifies p.probs, p.dic, p.reps, p.tempBuf, p`range, p`code, p`buf, p`cells, p`checkDicSize, p`input, p`text, p`base
    modifies p`dicPos, p`w, p`processedPos, p`state, p`m, p`k, p`remainLen, p`tempBufSize, p`stream, p`needInitState
    ensures processed <= |src|
    ensures res.OK? ==> Common(p) && Running(p) && Held(p) && p.dicPos <= dicLimit && !p.needInitState
    ensures res.OK? ==> p.stream == old(p.stream) + src[..processed]
    ensures res.OK? && stop ==> status.NEEDS_MORE_INPUT? && processed == |src| && Starved(p)
    ensures res.OK? && !stop ==> p.tempBufSize == 0 && After(old(p.m).d, p.m.d) && Written(p, dicLimit)
    ensures res.ERROR_DATA? ==> Failed(p.pr, old(p.stream) + src, p.k, p.m, dicLimit + p.origin, mode)
  {
    hide DicHolds, Located, StepFits, Failed, Copy, MachOk, Holds, After;
    if p.needInitState { InitStateReal(p); }
    if p.tempBufSize == 0 {
      res, status, processed, stop := FromInput(p, src, dicLimit, check, mode);
    } else {
      res, status, processed, stop := FromTempBuf(p, src, dicLimit, check, mode);
    }
  }

  /** One round of the loop, once the header is there. */
  method Round(p: LzmaDec, src: seq<byte>, dicLimit: nat, mode: FinishMode)
    returns (res: SRes, status: Status, processed: nat, stop: bool)
    requires Looping(p, dicLimit) && !p.needFlush && p.remainLen < MATCH_SPEC_LEN_START
    modifies p.probs, p.dic, p.reps, p.tempBuf, p`range, p`code, p`buf, p`cells, p`checkDicSize, p`input, p`text, p`base
    modifies p`dicPos, p`w, p`processedPos, p`state, p`m, p`k, p`remainLen, p`tempBufSize, p`stream, p`needInitState
    ensures processed <= |src|
    ensures res.OK? ==> Valid(p) && p.dicPos <= dicLimit && p.stream == old(p.stream) + src[..processed]
    ensures res.OK? && !stop ==> Looping(p, dicLimit) && After(old(p.m).d, p.m.d)
    ensures res.OK? && stop ==>
      Reports(p, status, dicLimit, mode) && (status.NEEDS_MORE_INPUT? ==> processed == |src|)
    ensures res.ERROR_DATA? ==> Failed(p.pr, old(p.stream) + src, p.k, p.m, dicLimit + p.origin, mode)
  {
    hide DicHolds, Located, StepFits, Failed, Copy, MachOk, Holds, After, Common, Starved;
    var check: bool;
    processed := 0;
    res, status, stop, check := AtLimit(p, src, dicLimit, mode);
    if !stop {
      res, status, processed, stop := Feed(p, src, dicLimit, check, mode);
    }
  }

  method Turn(p: LzmaDec, src: seq<byte>, dicLimit: nat, mode: FinishMode)
    returns (res: SRes, status: Status, processed: nat, stop: bool)
    requires Looping(p, dicLimit) && p.remainLen < MATCH_SPEC_LEN_START
    modifies p.probs, p.dic, p.reps, p.tempBuf, p`range, p`code, p`buf, p`cells, p`checkDicSize, p`input, p`text, p`base
    modifies p`dicPos, p`w, p`processedPos, p`state, p`m, p`k, p`remainLen, p`tempBufSize, p`stream, p`needInitState,
      p`needFlush
    ensures processed <= |src|
    ensures res.OK? ==> Valid(p) && p.dicPos <= dicLimit && p.stream == old(p.stream) + src[..processed]
    ensures res.OK? && !stop ==>
      Looping(p, dicLimit) && !p.needFlush && (!old(p.needFlush) ==> After(old(p.m).d, p.m.d))
    ensures res.OK? && stop ==>
      Reports(p, status, dicLimit, mode) && (status.NEEDS_MORE_INPUT? ==> processed == |src|)
    ensures res.ERROR_DATA? ==> Failed(p.pr, old(p.stream) + src, p.k, p.m, dicLimit + p.origin, mode)
  {
    hide DicHolds, Located, StepFits, DecodeAll, Copy, MachOk, Holds, Common, Primed, Running, Held, After;
    processed, status := 0, NEEDS_MORE_INPUT;
    if p.needFlush {
      res, processed, stop := Header(p, src, dicLimit);
      if res.ERROR_DATA? || stop { return; }
    }
    var n: nat;
    assert p.stream + src[processed..] == old(p.stream) + src;
    res, status, n, stop := Round(p, src[processed..], dicLimit, mode);
    processed := processed + n;
  }

  lemma AtMark(p: LzmaDec, rest: seq<byte>, room: int, mode: FinishMode)
    requires Valid(p) && p.remainLen == MATCH_SPEC_LEN_START
    ensures !p.needFlush && !p.needInitState
    ensures p.code != 0 ==> Failed(p.pr, p.stream + rest, p.k, p.m, room, mode)
  {
    hide DicHolds, Located, StepFits, DecodeAll, Copy, MachOk, Holds;
    LocatedDecodes(p.pr, p.stream, p.k, Ended(p.m));
    DecodedFurther(p.pr, p.stream, p.stream + rest);
  }

  /** LzmaDec_DecodeToDic. A call that does not fail has taken `srcLen` bytes of the input; they
      and all that were taken before determine what was written, as `Valid` and `Reports` say. */
  method DecodeToDic(p: LzmaDec, dicLimit: nat, src: seq<byte>, mode: FinishMode)
    returns (res: SRes, status: Status, srcLen: nat)
    requires Valid(p) && p.dicPos <= dicLimit <= p.dic.Length
    modifies p, p.probs, p.dic, p.reps, p.tempBuf
    ensures srcLen <= |src| && p.origin == old(p.origin)
    ensures res.OK? ==> Valid(p) && p.dicPos <= dicLimit && p.stream == old(p.stream) + src[..srcLen]
    ensures res.OK? ==> Reports(p, status, dicLimit, mode) && (status.NEEDS_MORE_INPUT? ==> srcLen == |src|)
    ensures res.ERROR_DATA? ==> Failed(p.pr, old(p.stream) + src, p.k, p.m, dicLimit + p.origin, mode)
  {
    hide DicHolds, Located, StepFits, Failed, DecodeAll, Copy, MachOk, Holds, Common, Primed, Running, Held, Valid,
      Starved;
    res, status, srcLen := OK, NOT_SPECIFIED, 0;
    Resume(p, dicLimit);
    ghost var whole := p.stream + src;
    while p.remainLen != MATCH_SPEC_LEN_START
      invariant res.OK? && Looping(p, dicLimit) && srcLen <= |src| && p.origin == old(p.origin)
      invariant p.stream == old(p.stream) + src[..srcLen]
      decreases p.needFlush, |whole| - p.m.d.pos, p.m.d.range
    {
      assert whole == p.stream + src[srcLen..];
      var n: nat, stop: bool;
      res, status, n, stop := Turn(p, src[srcLen..], dicLimit, mode);
      srcLen := srcLen + n;
      if res.ERROR_DATA? || stop { return; }
    }
    AtMark(p, src[srcLen..], dicLimit + p.origin, mode);
    assert p.stream + src[srcLen..] == whole;
    if p.code == 0 {
      status := FINISHED_WITH_MARK;
    } else {
      res := ERROR_DATA;
    }
  }
}
