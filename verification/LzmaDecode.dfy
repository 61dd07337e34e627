/** What a decoder's caller may rely on: however the stream is cut, the result depends only on
    the stream; and what was packed is unpacked. */
module LzmaDecode {
  import opened Numbers
  import opened LzmaMachine
  import opened LzmaStreaming
  import opened LzmaDictionary
  import opened LzmaDecoder
  import opened LzmaDecodeToDic

  // ----- Any cut of the stream -----

  /** No place in the stream has as much as `room` bytes of output. */
  ghost predicate Roomy(pr: Props, s: seq<byte>, room: int) {
    forall k, m :: Located(pr, s, k, Going(m)) ==> |m.out| < room
  }

  /** What decoding `whole` must come to: the result, the status, the bytes taken and the bytes
      written. */
  ghost predicate Expected(pr: Props, whole: seq<byte>, res: SRes, status: Status, taken: seq<byte>, out: seq<byte>)
    requires PropsOk(pr)
  {
    match DecodeAll(pr, whole)
    case NoHeader => res == OK && status == NEEDS_MORE_INPUT && taken == whole && out == []
    case BadHeader => res == ERROR_DATA
    case Body(NeedMore(m)) => res == OK && status == NEEDS_MORE_INPUT && taken == whole && out == m.out
    case Body(Corrupt) => res == ERROR_DATA
    case Body(Finished(m)) =>
      if m.d.code != 0 then res == ERROR_DATA
      else res == OK && status == FINISHED_WITH_MARK && out == m.out && m.d.pos <= |whole| && taken == whole[..m.d.pos]
  }

  /** The places of a stream are those of every longer one. */
  lemma RoomyPrefix(pr: Props, s: seq<byte>, t: seq<byte>, room: int)
    requires Roomy(pr, t, room) && s <= t
    ensures Roomy(pr, s, room)
  {
    hide Located;
    forall k, m | Located(pr, s, k, Going(m)) ensures |m.out| < room {
      LocatedExtend(pr, s, t, k, Going(m));
    }
  }

  lemma FailedExpected(pr: Props, t: seq<byte>, whole: seq<byte>, k: nat, m: Mach, room: int, mode: FinishMode,
                       status: Status, taken: seq<byte>, out: seq<byte>)
    requires PropsOk(pr) && t <= whole && Failed(pr, t, k, m, room, mode) && Roomy(pr, whole, room)
    ensures Expected(pr, whole, ERROR_DATA, status, taken, out)
  {
    hide DecodeAll, Located, StepFits, Step, MachOk;
    RoomyPrefix(pr, t, whole, room);
    DecodedFurther(pr, t, whole);
  }

  /** The status of a call that did not fail. */
  lemma ReportMeans(p: LzmaDec, status: Status, dicLimit: nat, mode: FinishMode)
    requires Valid(p) && Reports(p, status, dicLimit, mode)
    ensures status.NEEDS_MORE_INPUT? ==>
      if p.needFlush then DecodeAll(p.pr, p.stream) == NoHeader && p.w == []
      else DecodeAll(p.pr, p.stream) == Body(NeedMore(p.m)) && p.w == p.m.out
    ensures status.FINISHED_WITH_MARK? ==>
      DecodeAll(p.pr, p.stream) == Body(Finished(p.m)) && p.w == p.m.out && p.m.d.code == 0
      && p.m.d.pos == |p.stream|
    ensures status.MAYBE_FINISHED_WITHOUT_MARK? || status.NOT_FINISHED? ==>
      Located(p.pr, p.stream, p.k, Going(p.m)) && p.w <= p.m.out && |p.w| == dicLimit + p.origin
    ensures status.MAYBE_FINISHED_WITHOUT_MARK? ==> p.w == p.m.out && p.m.d.code == 0
  {
    hide DicHolds, Located, StepFits, MachOk;
    if !p.needFlush {
      var o := if p.remainLen < MATCH_SPEC_LEN_START then Going(p.m) else Ended(p.m);
      LocatedDecodes(p.pr, p.stream, p.k, o);
    }
  }

  function Concat(chunks: seq<seq<byte>>): seq<byte> {
    if chunks == [] then [] else Concat(chunks[..|chunks| - 1]) + chunks[|chunks| - 1]
  }

  lemma ConcatNext(chunks: seq<seq<byte>>, i: nat)
    requires i < |chunks|
    ensures Concat(chunks[..i + 1]) == Concat(chunks[..i]) + chunks[i]
  {
    assert chunks[..i + 1][..i] == chunks[..i];
  }

  lemma {:induction false} ConcatPrefix(chunks: seq<seq<byte>>, i: nat)
    requires i <= |chunks|
    ensures Concat(chunks[..i]) <= Concat(chunks)
    decreases |chunks| - i
  {
    if i == |chunks| {
      assert chunks[..i] == chunks;
    } else {
      ConcatNext(chunks, i);
      ConcatPrefix(chunks, i + 1);
    }
  }

  lemma ValidProps(p: LzmaDec)
    requires Valid(p)
    ensures PropsOk(p.pr)
  {
  }

  /** One more piece: an error, the end mark, or on to the next piece. */
  method OnePiece(p: LzmaDec, dicLimit: nat, src: seq<byte>, mode: FinishMode, ghost whole: seq<byte>)
    returns (res: SRes, status: Status, used: nat)
    requires Valid(p) && p.dicPos <= dicLimit <= p.dic.Length
    requires p.stream + src <= whole && Roomy(p.pr, whole, dicLimit + p.origin)
    modifies p, p.probs, p.dic, p.reps, p.tempBuf
    ensures p.origin == old(p.origin) && used <= |src|
    ensures res.OK? ==> Valid(p) && p.dicPos <= dicLimit && Reports(p, status, dicLimit, mode)
    ensures res.OK? ==> p.stream == old(p.stream) + src[..used]
    ensures res.OK? && status.NEEDS_MORE_INPUT? ==> used == |src|
    ensures res.ERROR_DATA? || !status.NEEDS_MORE_INPUT? ==> Expected(p.pr, whole, res, status, p.stream, p.w)
  {
    hide Valid, Failed, Drain, Located, MachOk;
    ghost var t := p.stream + src;
    ValidProps(p);
    res, status, used := DecodeToDic(p, dicLimit, src, mode);
    if res.ERROR_DATA? {
      FailedExpected(p.pr, t, whole, p.k, p.m, dicLimit + p.origin, mode, status, p.stream, p.w);
      return;
    }
    ReportMeans(p, status, dicLimit, mode);
    assert p.stream <= t;
    if status.FINISHED_WITH_MARK? {
      DecodedFurther(p.pr, p.stream, whole);
    } else if !status.NEEDS_MORE_INPUT? {
      LocatedExtend(p.pr, p.stream, whole, p.k, Going(p.m));
      assert false;
    }
  }

  /** Feeding the stream in pieces until an error or the end mark: with output room to spare the
      result, the bytes taken and the bytes written are those of decoding the whole stream,
      however it is cut. `consumed` counts the bytes taken from all pieces. */
  method DecodeChunks(p: LzmaDec, dicLimit: nat, chunks: seq<seq<byte>>, mode: FinishMode)
    returns (res: SRes, status: Status, consumed: nat)
    requires Valid(p) && p.dicPos <= dicLimit <= p.dic.Length && Reports(p, NEEDS_MORE_INPUT, dicLimit, mode)
    requires Roomy(p.pr, p.stream + Concat(chunks), dicLimit + p.origin)
    modifies p, p.probs, p.dic, p.reps, p.tempBuf
    ensures p.origin == old(p.origin) && consumed <= |Concat(chunks)|
    ensures res.OK? ==> Valid(p) && p.stream == old(p.stream) + Concat(chunks)[..consumed]
    ensures Expected(p.pr, old(p.stream) + Concat(chunks), res, status, p.stream, p.w)
  {
    hide Valid, Drain, Located, MachOk, DecodeAll, Roomy, Expected;
    ghost var s0 := p.stream;
    ghost var whole := s0 + Concat(chunks);
    res, status, consumed := OK, NEEDS_MORE_INPUT, 0;
    ValidProps(p);
    assert s0 == s0 + Concat(chunks[..0]);
    for i := 0 to |chunks|
      invariant PropsOk(p.pr) && res.OK? && status.NEEDS_MORE_INPUT? && Valid(p) && Reports(p, status, dicLimit, mode)
      invariant p.dicPos <= dicLimit && p.origin == old(p.origin) && p.stream == s0 + Concat(chunks[..i])
      invariant consumed == |Concat(chunks[..i])| <= |Concat(chunks)|
    {
      ConcatNext(chunks, i);
      ConcatPrefix(chunks, i + 1);
      ghost var before, after := Concat(chunks[..i]), Concat(chunks[..i + 1]);
      assert p.stream + chunks[i] == s0 + after <= whole;
      var used: nat;
      res, status, used := OnePiece(p, dicLimit, chunks[i], mode, whole);
      assert before + chunks[i][..used] == after[..consumed + used] == Concat(chunks)[..consumed + used];
      consumed := consumed + used;
      if res.ERROR_DATA? || !status.NEEDS_MORE_INPUT? { return; }
      assert chunks[i][..used] == chunks[i];
    }
    assert chunks[..|chunks|] == chunks && Concat(chunks)[..consumed] == Concat(chunks);
    ReportMeans(p, status, dicLimit, mode);
    AllTaken(p, whole, status);
  }

  /** Decoding stops at the end of the input for want of more. */
  lemma AllTaken(p: LzmaDec, whole: seq<byte>, status: Status)
    requires PropsOk(p.pr) && p.stream == whole && status.NEEDS_MORE_INPUT?
    requires if p.needFlush then DecodeAll(p.pr, whole) == NoHeader && p.w == []
             else DecodeAll(p.pr, whole) == Body(NeedMore(p.m)) && p.w == p.m.out
    ensures Expected(p.pr, whole, OK, status, p.stream, p.w)
  {
    hide DecodeAll;
  }

  /** Two decoders that are fed the same stream, cut differently: the same result, and without an
      error the same status, the same number of bytes taken, and the same dictionary bytes at
      every distance. */
  lemma CutsAgree(p: LzmaDec, q: LzmaDec, whole: seq<byte>, resP: SRes, resQ: SRes, statusP: Status, statusQ: Status)
    requires PropsOk(p.pr) && p.pr == q.pr && p.origin == q.origin && p.dic.Length == q.dic.Length
    requires resP.OK? ==> Valid(p)
    requires resQ.OK? ==> Valid(q)
    requires Expected(p.pr, whole, resP, statusP, p.stream, p.w) && Expected(q.pr, whole, resQ, statusQ, q.stream, q.w)
    ensures resP == resQ
    ensures resP.OK? ==> statusP == statusQ && p.stream == q.stream && p.dicPos == q.dicPos <= p.dic.Length
    ensures resP.OK? ==> forall d: nat :: 1 <= d <= |p.w| && d <= p.dic.Length ==>
      0 <= DicIndex(p.dicPos, d, p.dic.Length) < p.dic.Length
      && p.dic[DicIndex(p.dicPos, d, p.dic.Length)] == q.dic[DicIndex(p.dicPos, d, p.dic.Length)]
  {
    hide DecodeAll, Fresh, Primed, Running, Held, Starved;
    if resP.OK? {
      forall d: nat | 1 <= d <= |p.w| && d <= p.dic.Length
        ensures 0 <= DicIndex(p.dicPos, d, p.dic.Length) < p.dic.Length
        ensures p.dic[DicIndex(p.dicPos, d, p.dic.Length)] == q.dic[DicIndex(p.dicPos, d, p.dic.Length)]
      {
        assert InDic(p.dic[..], p.dicPos, p.w, d) && InDic(q.dic[..], q.dicPos, q.w, d);
      }
    }
  }

  // ----- The one-call interface -----

  datatype Result = SZ_OK | SZ_ERROR_DATA | SZ_ERROR_UNSUPPORTED | SZ_ERROR_INPUT_EOF
  datatype PropsResult = Decoded5(pr: Props) | Unsupported

  /** The number whose lowest byte is data[1], but never less than 0x1000. */
  predicate DicSizeIs(data: seq<byte>, dicSize: nat) {
    |data| >= 5
    && var n := BigEndian([data[4], data[3], data[2], data[1]]); dicSize == if n < 0x1000 then 0x1000 else n
  }

  lemma BigEndianFour(data: seq<byte>)
    ensures |data| >= 5 ==>
      BigEndian([data[4], data[3], data[2], data[1]])
      == data[1] as int + 0x100 * data[2] as int + 0x1_0000 * data[3] as int + 0x100_0000 * data[4] as int
  {
    if |data| >= 5 {
      var t := [data[4], data[3], data[2], data[1]];
      assert t[..0] == [] && t[..4] == t && BigEndian([]) == 0;
      BigEndianPrefix(t, 0);
      BigEndianPrefix(t, 1);
      BigEndianPrefix(t, 2);
      BigEndianPrefix(t, 3);
    }
  }

  /** The five bytes before a stream: lc, lp and pb in one, and the dictionary size. */
  function PropsDecode(data: seq<byte>): (r: PropsResult)
    ensures r.Decoded5? ==> PropsOk(r.pr) && r.pr.dicSize >= 0x1000
    ensures r.Decoded5? <==> |data| >= 5 && data[0] < 225
    ensures r.Decoded5? ==> (r.pr.pb * 5 + r.pr.lp) * 9 + r.pr.lc == data[0]
    ensures r.Decoded5? ==> DicSizeIs(data, r.pr.dicSize)
  {
    BigEndianFour(data);
    if |data| < 5 || data[0] >= 9 * 5 * 5 then Unsupported
    else
      var d: nat, d1: nat, d2: nat, d3: nat, d4: nat := data[0], data[1], data[2], data[3], data[4];
      var dicSize := d1 + 0x100 * d2 + 0x1_0000 * d3 + 0x100_0000 * d4;
      Decoded5(Props(d % 9, d / 9 % 5, d / 9 / 5, if dicSize < 0x1000 then 0x1000 else dicSize))
  }

  /** dic[..dicPos] is the whole history while nothing was overwritten. */
  lemma DicIsHistory(pr: Props, dic: seq<byte>, dicPos: nat, w: seq<byte>)
    requires DicHolds(pr, dic, dicPos, w) && |w| == dicPos
    ensures dic[..dicPos] == w
  {
    forall i | 0 <= i < dicPos ensures dic[i] == w[i] {
      assert InDic(dic, dicPos, w, dicPos - i);
    }
  }

  /** A place in the stream whose output starts with `out`. */
  ghost predicate Reached(pr: Props, s: seq<byte>, out: seq<byte>, whole: bool) {
    exists k, m :: Located(pr, s, k, Going(m)) && out <= m.out && (whole ==> out == m.out && m.d.code == 0)
  }

  ghost predicate Fails(pr: Props, s: seq<byte>, room: int, mode: FinishMode)
    requires PropsOk(pr)
  {
    exists k, m :: Failed(pr, s, k, m, room, mode)
  }

  /** What LzmaDecode may return for the stream `src` and `destLen` bytes of output in front of
      a buffer of `room` bytes. */
  ghost predicate OneCall(pr: Props, src: seq<byte>, room: nat, mode: FinishMode,
                          res: Result, status: Status, srcLen: nat, out: seq<byte>)
    requires PropsOk(pr)
  {
    match res
    case SZ_ERROR_UNSUPPORTED => false
    case SZ_ERROR_DATA => Fails(pr, src, room, mode)
    case SZ_ERROR_INPUT_EOF =>
      var all := DecodeAll(pr, src);
      all == NoHeader || (all.Body? && all.d.NeedMore? && all.d.m.out == out)
    case SZ_OK =>
      srcLen <= |src|
      && if status == FINISHED_WITH_MARK then
           var all := DecodeAll(pr, src[..srcLen]);
           all.Body? && all.d.Finished? && all.d.m.out == out && all.d.m.d.pos == srcLen && all.d.m.d.code == 0
         else
           |out| == room && Reached(pr, src[..srcLen], out, status == MAYBE_FINISHED_WITHOUT_MARK)
           && (status == MAYBE_FINISHED_WITHOUT_MARK || (status == NOT_FINISHED && mode == FINISH_ANY))
  }

  /** LzmaDecode */
  method Decode(dest: array<byte>, src: seq<byte>, propData: seq<byte>, mode: FinishMode)
    returns (res: Result, status: Status, srcLen: nat, destLen: nat)
    modifies dest
    ensures destLen <= dest.Length && srcLen <= |src|
    ensures |src| < 5 ==> res == SZ_ERROR_INPUT_EOF && destLen == 0
    ensures |src| >= 5 && PropsDecode(propData).Unsupported? ==> res == SZ_ERROR_UNSUPPORTED && destLen == 0
    ensures |src| >= 5 && PropsDecode(propData).Decoded5? && res != SZ_ERROR_DATA ==>
      OneCall(PropsDecode(propData).pr, src, dest.Length, mode, res, status, srcLen, dest[..destLen])
    ensures |src| >= 5 && PropsDecode(propData).Decoded5? && res == SZ_ERROR_DATA ==>
      Fails(PropsDecode(propData).pr, src, dest.Length, mode)
  {
    hide Valid, Failed, Drain, Located, MachOk, DecodeAll, Reports, OneCall, DicHolds, PropsDecode, DicSizeIs;
    srcLen, destLen, status := 0, 0, NOT_SPECIFIED;
    if |src| < RC_INIT_SIZE { return SZ_ERROR_INPUT_EOF, status, 0, 0; }
    var props := PropsDecode(propData);
    if props.Unsupported? { return SZ_ERROR_UNSUPPORTED, status, 0, 0; }
    var p := new LzmaDec(props.pr, dest);
    p.Init();
    InitValid(p);
    var r: SRes;
    r, status, srcLen := DecodeToDic(p, dest.Length, src, mode);
    res := if r.ERROR_DATA? then SZ_ERROR_DATA else if status.NEEDS_MORE_INPUT? then SZ_ERROR_INPUT_EOF else SZ_OK;
    if r.ERROR_DATA? {
      assert [] + src == src;
      assert Fails(p.pr, src, dest.Length, mode);
      return;
    }
    destLen := p.dicPos;
    assert p.stream == src[..srcLen];
    CallDone(p, src, mode, res, status, srcLen);
  }

  lemma InitValid(p: LzmaDec)
    requires p.Sized() && p.Written() && p.Checked() && p.w == [] && p.stream == [] && p.needFlush && p.needInitState
    requires p.remainLen == 0 && p.tempBufSize == 0
    ensures Valid(p)
  {
  }

  lemma CallDone(p: LzmaDec, src: seq<byte>, mode: FinishMode, res: Result, status: Status, srcLen: nat)
    requires Valid(p) && Reports(p, status, p.dic.Length, mode) && p.origin == 0 && p.dicPos <= p.dic.Length
    requires srcLen <= |src| && p.stream == src[..srcLen] && (status.NEEDS_MORE_INPUT? ==> srcLen == |src|)
    requires res == if status.NEEDS_MORE_INPUT? then SZ_ERROR_INPUT_EOF else SZ_OK
    ensures OneCall(p.pr, src, p.dic.Length, mode, res, status, srcLen, p.dic[..p.dicPos])
  {
    hide Located, MachOk, DecodeAll, DicHolds, Running, Primed, Fresh, Held;
    ReportMeans(p, status, p.dic.Length, mode);
    DicIsHistory(p.pr, p.dic[..], p.dicPos, p.w);
    if status.NEEDS_MORE_INPUT? { assert src[..srcLen] == src; }
  }
}
