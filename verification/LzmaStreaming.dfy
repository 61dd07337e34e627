/** What a decoder makes of the bytes it has so far, and why the way they are cut into pieces
    cannot matter. */
module LzmaStreaming {
  import opened Numbers
  import opened RangeCoder
  import opened LzmaSymbols
  import opened LzmaLookahead
  import opened LzmaMachine
  import opened LzmaRoundTrip

  /** All complete symbols decoded; the last one is incomplete, the end mark, or an error. */
  datatype Drained = NeedMore(m: Mach) | Finished(m: Mach) | Corrupt

  /** The next symbol and the normalization after it lie within the bytes at hand. */
  predicate StepFits(pr: Props, s: seq<byte>, m: Mach)
    requires PropsOk(pr)
  {
    After1(pr, s, m).pos <= |s|
  }

  function Drain(pr: Props, s: seq<byte>, m: Mach): Drained
    requires MachOk(pr, m) && m.d.pos <= |s|
    decreases |s| - m.d.pos, m.d.range
  {
    if !StepFits(pr, s, m) then NeedMore(m)
    else
      StepOk(pr, s, m);
      var o := Step(pr, s, m);
      if o.Going? then Drain(pr, s, o.m) else if o.Ended? then Finished(o.m) else Corrupt
  }

  lemma RunUnderPrefix(pr: Props, s: seq<byte>, t: seq<byte>, m: Mach, n: nat)
    requires MachOk(pr, m) && SamePrefix(s, t, n) && After1(pr, s, m).pos <= n
    ensures Decoded(pr, t, m) == Decoded(pr, s, m) && After1(pr, t, m) == After1(pr, s, m)
  {
    hide Run, CtxOf;
    var ctx := CtxOf(pr, m.state, m.reps.r0, m.out);
    var d := Decoded(pr, s, m).1;
    RunLocal(s, t, m.d, ctx, Start, true, n);
    NormalizeLocal(s, t, d, n);
  }

  /** A symbol is the same in every stream that agrees on its bytes. */
  lemma StepSame(pr: Props, s: seq<byte>, t: seq<byte>, m: Mach, n: nat)
    requires MachOk(pr, m) && SamePrefix(s, t, n) && After1(pr, s, m).pos <= n
    ensures Step(pr, t, m) == Step(pr, s, m) && After1(pr, t, m) == After1(pr, s, m)
  {
    hide Run, Decoded, After1;
    RunUnderPrefix(pr, s, t, m, n);
  }

  /** More input does not change a symbol that was complete. */
  lemma StepUnderPrefix(pr: Props, s: seq<byte>, t: seq<byte>, m: Mach)
    requires MachOk(pr, m) && s <= t && StepFits(pr, s, m)
    ensures StepFits(pr, t, m) && Step(pr, t, m) == Step(pr, s, m)
  {
    hide Run, Decoded, After1;
    assert SamePrefix(s, t, |s|);
    RunUnderPrefix(pr, s, t, m, |s|);
  }

  /** Decoding what is there and then going on with more input is decoding it all at once. */
  lemma {:induction false} DrainExtend(pr: Props, s: seq<byte>, t: seq<byte>, m: Mach)
    requires MachOk(pr, m) && m.d.pos <= |s| && s <= t
    ensures var r := Drain(pr, s, m);
      if r.NeedMore? then MachOk(pr, r.m) && r.m.d.pos <= |s| && Drain(pr, t, m) == Drain(pr, t, r.m)
      else Drain(pr, t, m) == r
    decreases |s| - m.d.pos, m.d.range
  {
    hide Run, After1, Decoded, Step, StepFits;
    if StepFits(pr, s, m) {
      StepUnderPrefix(pr, s, t, m);
      StepMeasure(pr, s, m);
      if Step(pr, s, m).Going? {
        DrainExtend(pr, s, t, Step(pr, s, m).m);
      }
    }
  }

  lemma StepMeasure(pr: Props, s: seq<byte>, m: Mach)
    requires MachOk(pr, m) && StepFits(pr, s, m)
    ensures Step(pr, s, m) != Bad ==> Step(pr, s, m).m.d.pos <= |s|
    ensures Step(pr, s, m).Going? ==> MachOk(pr, Step(pr, s, m).m) && After(m.d, Step(pr, s, m).m.d)
  {
    StepOk(pr, s, m);
  }

  // ----- A decoder's place in a stream -----

  /** The first `k` symbols of the stream, all complete, lead to `o`. */
  predicate Located(pr: Props, s: seq<byte>, k: nat, o: Outcome) {
    PropsOk(pr) && |s| >= 5 && s[0] == 0 && o != Bad && o.m.d.pos <= |s|
    && StepN(pr, s, InitMach(s), k) == o
  }

  lemma {:induction false} StepNForward(pr: Props, s: seq<byte>, m: Mach, k: nat, o: Outcome)
    requires MachOk(pr, m) && o == StepN(pr, s, m, k)
    ensures o != Bad ==> m.d.pos <= o.m.d.pos
    ensures o.Going? ==> MachOk(pr, o.m)
    decreases k
  {
    hide Run, After1, Decoded, Step;
    if k > 0 {
      StepOk(pr, s, m);
      StepPos(pr, s, m);
      if Step(pr, s, m).Going? { StepNForward(pr, s, Step(pr, s, m).m, k - 1, o); }
    }
  }

  lemma {:induction false} StepNSame(pr: Props, s: seq<byte>, t: seq<byte>, m: Mach, k: nat, o: Outcome, n: nat)
    requires MachOk(pr, m) && SamePrefix(s, t, n) && o != Bad && o.m.d.pos <= n && o == StepN(pr, s, m, k)
    ensures StepN(pr, t, m, k) == o
    decreases k
  {
    hide Run, After1, Decoded, Step, MachOk;
    if k > 0 {
      StepOk(pr, s, m);
      StepPos(pr, s, m);
      var o1 := Step(pr, s, m);
      if o1.Going? { StepNForward(pr, s, o1.m, k - 1, o); }
      StepSame(pr, s, t, m, n);
      if o1.Going? { StepNSame(pr, s, t, o1.m, k - 1, o, n); }
    }
  }

  lemma StepPos(pr: Props, s: seq<byte>, m: Mach)
    requires MachOk(pr, m)
    ensures Step(pr, s, m) != Bad ==> Step(pr, s, m).m.d == After1(pr, s, m)
    ensures StepFits(pr, s, m) <==> After1(pr, s, m).pos <= |s|
  {
  }

  lemma SameHeader(s: seq<byte>, t: seq<byte>)
    requires |s| >= 5 && s <= t
    ensures InitMach(t) == InitMach(s)
  {
    assert forall i | 0 <= i < 5 :: ByteAt(s, i) == s[i] == t[i] == ByteAt(t, i);
  }

  lemma LocatedExtend(pr: Props, s: seq<byte>, t: seq<byte>, k: nat, o: Outcome)
    requires Located(pr, s, k, o) && s <= t
    ensures Located(pr, t, k, o)
  {
    hide Run, After1, Decoded, Step, StepN, InitMach;
    InitMachOk(pr, s);
    SameHeader(s, t);
    assert SamePrefix(s, t, |s|);
    StepNSame(pr, s, t, InitMach(s), k, o, |s|);
  }

  /** The bytes after the last complete symbol do not matter. */
  lemma LocatedShrink(pr: Props, s: seq<byte>, t: seq<byte>, k: nat, o: Outcome)
    requires Located(pr, t, k, o) && s <= t && 5 <= |s| && o.m.d.pos <= |s|
    ensures Located(pr, s, k, o)
  {
    hide Run, After1, Decoded, Step, StepN, InitMach;
    InitMachOk(pr, t);
    SameHeader(s, t);
    assert SamePrefix(t, s, |s|);
    StepNSame(pr, t, s, InitMach(t), k, o, |s|);
  }

  lemma LocatedOk(pr: Props, s: seq<byte>, k: nat, m: Mach)
    requires Located(pr, s, k, Going(m))
    ensures MachOk(pr, m)
  {
    hide Run, After1, Decoded, Step, StepN, InitMach;
    InitMachOk(pr, s);
    StepNForward(pr, s, InitMach(s), k, Going(m));
  }

  lemma {:induction false} StepNAppend(pr: Props, s: seq<byte>, m: Mach, k: nat, m': Mach)
    requires MachOk(pr, m) && StepN(pr, s, m, k) == Going(m')
    ensures MachOk(pr, m') && StepN(pr, s, m, k + 1) == Step(pr, s, m')
    decreases k
  {
    hide Run, After1, Decoded, Step, MachOk;
    StepNForward(pr, s, m, k, Going(m'));
    if k > 0 {
      StepOk(pr, s, m);
      StepNAppend(pr, s, Step(pr, s, m).m, k - 1, m');
    } else {
      StepOnce(pr, s, m);
    }
  }

  lemma StepOnce(pr: Props, s: seq<byte>, m: Mach)
    requires MachOk(pr, m)
    ensures StepN(pr, s, m, 1) == Step(pr, s, m)
  {
    hide Run, After1, Decoded, Step, MachOk;
    StepOk(pr, s, m);
    var o := Step(pr, s, m);
    if o.Going? { assert StepN(pr, s, o.m, 0) == Going(o.m); }
  }

  /** Taking the next complete symbol. */
  lemma LocatedStep(pr: Props, s: seq<byte>, k: nat, m: Mach)
    requires Located(pr, s, k, Going(m)) && MachOk(pr, m) && StepFits(pr, s, m) && Step(pr, s, m) != Bad
    ensures Located(pr, s, k + 1, Step(pr, s, m))
  {
    hide Run, After1, Decoded, Step, StepN, InitMach, MachOk, StepFits;
    InitMachOk(pr, s);
    StepNAppend(pr, s, InitMach(s), k, m);
    StepPos(pr, s, m);
  }

  // ----- The place decides what the whole stream decodes to -----

  lemma {:induction false} DrainSteps(pr: Props, s: seq<byte>, m: Mach, k: nat, o: Outcome)
    requires MachOk(pr, m) && o == StepN(pr, s, m, k) && o != Bad && o.m.d.pos <= |s| && m.d.pos <= |s|
    ensures o.Going? ==> MachOk(pr, o.m) && Drain(pr, s, m) == Drain(pr, s, o.m)
    ensures o.Ended? ==> Drain(pr, s, m) == Finished(o.m)
    decreases k
  {
    hide Run, After1, Decoded, Step, MachOk, StepFits;
    StepNForward(pr, s, m, k, o);
    if k > 0 {
      StepOk(pr, s, m);
      StepPos(pr, s, m);
      var o1 := Step(pr, s, m);
      if o1.Going? {
        StepNForward(pr, s, o1.m, k - 1, o);
        DrainSteps(pr, s, o1.m, k - 1, o);
      }
    }
  }

  /** Everything decoded from the bytes `s`, or nothing before the five bytes of the header. */
  datatype Whole = NoHeader | BadHeader | Body(d: Drained)

  function DecodeAll(pr: Props, s: seq<byte>): Whole
    requires PropsOk(pr)
  {
    if |s| < 5 then NoHeader
    else if s[0] != 0 then BadHeader
    else
      InitMachOk(pr, s);
      Body(Drain(pr, s, InitMach(s)))
  }

  lemma LocatedDecodes(pr: Props, s: seq<byte>, k: nat, o: Outcome)
    requires Located(pr, s, k, o)
    ensures o.Ended? ==> DecodeAll(pr, s) == Body(Finished(o.m))
    ensures o.Going? ==> MachOk(pr, o.m) && DecodeAll(pr, s) == Body(Drain(pr, s, o.m))
  {
    hide Run, After1, Decoded, Step, StepN, Drain, MachOk;
    InitMachOk(pr, s);
    DrainSteps(pr, s, InitMach(s), k, o);
  }

  /** The stream of an admissible parse with an end mark decodes to the data, to the last byte. */
  lemma EncodeThenDecode(pr: Props, data: seq<byte>, syms: seq<Symbol>)
    requires PropsOk(pr) && Parses(pr, data, 0, SENDER_INIT.reps, syms)
    ensures var w := DecodeAll(pr, EncodeStream(pr, data, syms, true));
      w.Body? && w.d.Finished? && w.d.m.out == data && w.d.m.d.code == 0
      && w.d.m.d.pos == |EncodeStream(pr, data, syms, true)|
  {
    hide Run, After1, Decoded, Step, StepN, EncodeStream, MachOk, StepFits, Drain;
    var s := EncodeStream(pr, data, syms, true);
    StreamRoundTrip(pr, data, syms, true);
    var m := StepN(pr, s, InitMach(s), |syms|).m;
    StepPos(pr, s, m);
    LocatedStep(pr, s, |syms|, m);
    LocatedDecodes(pr, s, |syms| + 1, Step(pr, s, m));
  }

  /** However a stream is cut in two, decoding the first part and then both together ends in the
      same place as decoding all at once. */
  lemma ChunkIndependence(pr: Props, s: seq<byte>, t: seq<byte>, w: Whole)
    requires PropsOk(pr) && w == DecodeAll(pr, s)
    ensures w.Body? && w.d.NeedMore? ==>
      MachOk(pr, w.d.m) && w.d.m.d.pos <= |s| && DecodeAll(pr, s + t) == Body(Drain(pr, s + t, w.d.m))
    ensures w == BadHeader || (w.Body? && !w.d.NeedMore?) ==> DecodeAll(pr, s + t) == w
  {
    hide Drain, MachOk, InitMach;
    if w.Body? {
      InitMachOk(pr, s);
      SameHeader(s, s + t);
      InitMachStart(s);
      DrainExtend(pr, s, s + t, InitMach(s));
    }
  }

  lemma InitMachStart(s: seq<byte>)
    ensures InitMach(s).d.pos == 5
  {
  }
}
