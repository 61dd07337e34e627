/** The range coder by itself: any finite sequence of decisions, with any choice of probability
    cells and any direct bits among them, comes back from the flushed stream. */
module RangeRoundTrip {
  import opened Numbers
  import opened RangeCoder
  import opened LzmaRoundTrip

  datatype Decision = Decision(query: Query, value: bit)

  function PutAll(e: Enc, ds: seq<Decision>): (e': Enc)
    requires e.cacheSize >= 1
    ensures e'.cacheSize >= 1
    decreases |ds|
  {
    if ds == [] then e else PutAll(Put(e, ds[0].query, ds[0].value), ds[1..])
  }

  /** Decode as many decisions as there are queries. */
  function AskAll(s: seq<byte>, d: Dec, qs: seq<Query>): (r: (seq<bit>, Dec))
    ensures |r.0| == |qs|
    decreases |qs|
  {
    if qs == [] then ([], d)
    else
      var (b, d1) := Ask(s, d, qs[0], true);
      var (bs, d2) := AskAll(s, d1, qs[1..]);
      ([b] + bs, d2)
  }

  function Queries(ds: seq<Decision>): (r: seq<Query>)
    ensures |r| == |ds|
  {
    if ds == [] then [] else [ds[0].query] + Queries(ds[1..])
  }

  function Values(ds: seq<Decision>): (r: seq<bit>)
    ensures |r| == |ds|
  {
    if ds == [] then [] else [ds[0].value] + Values(ds[1..])
  }

  lemma {:induction false} PutAllKeepsInv(e: Enc, ds: seq<Decision>)
    requires EncInv(e)
    ensures EncInv(PutAll(e, ds))
    decreases |ds|
  {
    hide Put;
    if ds != [] {
      PutKeepsInv(e, ds[0].query, ds[0].value);
      PutAllKeepsInv(Put(e, ds[0].query, ds[0].value), ds[1..]);
    }
  }

  /** A stream that fits in the end fits all along. */
  lemma {:induction false} PutAllFitsBack(s: seq<byte>, e: Enc, ds: seq<Decision>)
    requires EncInv(e) && Fits(s, PutAll(e, ds))
    ensures Fits(s, e)
    decreases |ds|
  {
    hide Put, Fits;
    if ds != [] {
      PutKeepsInv(e, ds[0].query, ds[0].value);
      PutAllFitsBack(s, Put(e, ds[0].query, ds[0].value), ds[1..]);
      FitsBack(s, e, ds[0].query, ds[0].value);
    }
  }

  /** The decoder reads the decisions that were put, and is in step at the end. */
  lemma {:induction false} AskAllBack(s: seq<byte>, e: Enc, d: Dec, ds: seq<Decision>)
    requires EncInv(e) && InStep(s, e, d) && Fits(s, PutAll(e, ds))
    ensures AskAll(s, d, Queries(ds)).0 == Values(ds)
    ensures InStep(s, PutAll(e, ds), AskAll(s, d, Queries(ds)).1)
    decreases |ds|
  {
    hide Put, Ask, Fits, InStep;
    if ds != [] {
      var q, b := ds[0].query, ds[0].value;
      PutKeepsInv(e, q, b);
      PutAllFitsBack(s, Put(e, q, b), ds[1..]);
      PutAsk(s, e, d, q, b);
      assert Queries(ds)[0] == q && Queries(ds)[1..] == Queries(ds[1..]);
      AskAllBack(s, Put(e, q, b), Ask(s, d, q, true).1, ds[1..]);
    }
  }

  lemma {:induction false} PutAllSplit(e: Enc, ds: seq<Decision>, i: nat)
    requires e.cacheSize >= 1 && i <= |ds|
    ensures PutAll(e, ds) == PutAll(PutAll(e, ds[..i]), ds[i..])
    decreases i
  {
    hide Put;
    if i == 0 {
      assert ds[..0] == [] && ds[0..] == ds;
    } else {
      assert ds[..i][0] == ds[0] && ds[..i][1..] == ds[1..][..i - 1] && ds[1..][i - 1..] == ds[i..];
      PutAllSplit(Put(e, ds[0].query, ds[0].value), ds[1..], i - 1);
    }
  }

  lemma {:induction false} QueriesPrefix(ds: seq<Decision>, i: nat)
    requires i <= |ds|
    ensures Queries(ds[..i]) == Queries(ds)[..i]
    decreases i
  {
    if i > 0 {
      assert ds[..i][0] == ds[0] && ds[..i][1..] == ds[1..][..i - 1];
      QueriesPrefix(ds[1..], i - 1);
    }
  }

  /** Up to the pending normalization the decoder has the range and the cells of the encoder, and
      `code` is the distance of the bytes read from the encoder's exact value, always below
      `range`. */
  predicate Tracks(s: seq<byte>, e: Enc, d: Dec)
    requires e.cacheSize >= 1
  {
    var n := Normalize(s, d);
    && n.pos == Count(e) + 4 <= |s| && n.probs == e.probs && n.range == e.range
    && n.code == BigEndian(s[..n.pos]) - Val(e) && n.code < n.range
  }

  lemma InStepTracks(s: seq<byte>, e: Enc, d: Dec)
    requires e.cacheSize >= 1 && InStep(s, e, d)
    ensures Tracks(s, e, d)
  {
  }

  /** The decoder after the first i decisions of a stream. */
  function DecoderAfter(s: seq<byte>, ds: seq<Decision>, i: nat): Dec
    requires i <= |ds|
  {
    AskAll(s, InitMach(s).d, Queries(ds)[..i]).1
  }

  /** Encode, flush with five shifts, decode: the same bits and the same final probabilities, a
      first byte of zero, nothing left over, and encoder and decoder together after every
      decision. */
  lemma DecisionsRoundTrip(ds: seq<Decision>)
    ensures var e := PutAll(ENC_INIT, ds); var s := Flush(e).out;
      && |s| >= 5 && s[0] == 0
      && AskAll(s, InitMach(s).d, Queries(ds)).0 == Values(ds)
      && var n := Normalize(s, AskAll(s, InitMach(s).d, Queries(ds)).1);
         n.probs == e.probs && n.range == e.range && n.pos == |s| && n.code == 0
    ensures forall i :: 0 <= i <= |ds| ==>
      Tracks(Flush(PutAll(ENC_INIT, ds)).out, PutAll(ENC_INIT, ds[..i]),
        DecoderAfter(Flush(PutAll(ENC_INIT, ds)).out, ds, i))
  {
    hide PutAll, AskAll, Flush, Fits, InStep, InitMach, Tracks;
    var e := PutAll(ENC_INIT, ds);
    var s := Flush(e).out;
    InitInv();
    PutAllKeepsInv(ENC_INIT, ds);
    FlushExact(e);
    PutAllFitsBack(s, ENC_INIT, ds);
    InitInStep(s);
    AskAllBack(s, ENC_INIT, InitMach(s).d, ds);
    StreamEnd(s, e, AskAll(s, InitMach(s).d, Queries(ds)).1);
    forall i | 0 <= i <= |ds|
      ensures Tracks(s, PutAll(ENC_INIT, ds[..i]), DecoderAfter(s, ds, i))
    {
      PutAllSplit(ENC_INIT, ds, i);
      PutAllKeepsInv(ENC_INIT, ds[..i]);
      PutAllFitsBack(s, PutAll(ENC_INIT, ds[..i]), ds[i..]);
      AskAllBack(s, ENC_INIT, InitMach(s).d, ds[..i]);
      QueriesPrefix(ds, i);
      InStepTracks(s, PutAll(ENC_INIT, ds[..i]), DecoderAfter(s, ds, i));
    }
  }

  lemma InitInv()
    ensures EncInv(ENC_INIT)
  {
  }

  lemma StreamEnd(s: seq<byte>, e: Enc, d: Dec)
    requires e.cacheSize >= 1 && InStep(s, e, d) && BigEndian(s) == Val(e) && |s| == Count(e) + 4
    ensures var n := Normalize(s, d); n.probs == e.probs && n.range == e.range && n.pos == |s| && n.code == 0
  {
    assert s[..|s|] == s;
  }
}
