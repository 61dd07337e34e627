/** wiipax/client/lzma.c: compress with an end mark, decompress into a buffer of the original
    length. */
module LzmaPack {
  import opened Numbers
  import opened RangeCoder
  import opened LzmaSymbols
  import opened LzmaMachine
  import opened LzmaRoundTrip
  import opened LzmaStreaming
  import opened LzmaEncoder
  import opened LzmaDecoder
  import opened LzmaDecodeToDic
  import opened LzmaDecode

  // ----- The dictionary size in the header -----

  /** The dictionary sizes a header can announce: 2 << i and 3 << i. */
  predicate Rounded(r: nat, i: nat) {
    11 <= i <= 30 && (r == 2 * Pow2(i) || r == 3 * Pow2(i))
  }

  /** The least such size from `dictSize` on; a size above all of them stays. */
  method RoundUp(dictSize: nat) returns (r: nat)
    requires dictSize < WORD
    ensures dictSize <= r < WORD && 0x1000 <= r
    ensures r == dictSize || exists i: nat :: Rounded(r, i)
    ensures forall f: nat, i: nat :: Rounded(f, i) && dictSize <= f ==> r <= f
  {
    hide Pow2;
    var i: nat := 11;
    var two: nat, three: nat := 2 * 0x800, 3 * 0x800;     // 2 << i, 3 << i
    PowersUsed(11);
    while i <= 30
      invariant 11 <= i <= 31 && two == 2 * Pow2(i) && three == 3 * Pow2(i) && 0x1000 <= two
      invariant forall f: nat, j: nat :: Rounded(f, j) && j < i ==> f < dictSize
      invariant i == 31 ==> dictSize >= 0x1000
    {
      PowersUsed(i);
      forall f: nat, j: nat | Rounded(f, j) && j > i ensures three < f { Pow2Monotone(i + 1, j); }
      if dictSize <= two { assert Rounded(two, i); return two; }
      if dictSize <= three { assert Rounded(three, i); return three; }
      i, two, three := i + 1, two * 2, three * 2;
    }
    r := dictSize;
  }

  lemma PowersUsed(i: nat)
    requires 11 <= i <= 30
    ensures Pow2(11) == 0x800 && Pow2(i + 1) == 2 * Pow2(i) && 3 * Pow2(i) < WORD
  {
    Pow2Monotone(i, 30);
    Pow2Values();
    assert Pow2(11) == 8 * Pow2(8);
    assert Pow2(30) == 16 * Pow2(26);
  }

  /** The five bytes in front of the stream. */
  function PropsBytes(pr: Props): seq<byte>
    requires PropsOk(pr)
  {
    [(pr.pb * 5 + pr.lp) * 9 + pr.lc,
     pr.dicSize % 0x100, pr.dicSize / 0x100 % 0x100, pr.dicSize / 0x1_0000 % 0x100, pr.dicSize / 0x100_0000 % 0x100]
  }

  lemma PropsRoundTrip(pr: Props)
    requires PropsOk(pr) && pr.dicSize >= 0x1000
    ensures PropsDecode(PropsBytes(pr)) == Decoded5(pr)
  {
    var d, n := (pr.pb * 5 + pr.lp) * 9 + pr.lc, pr.dicSize;
    QuotientUnique(d, 9, pr.pb * 5 + pr.lp, pr.lc);
    DigitsBack(n);
  }

  /** The other way round: the bytes are those of what was read, but for a dictionary size below the
      least one, which is raised to it. */
  lemma PropsReadBack(data: seq<byte>)
    requires |data| == 5 && data[0] < 225
    ensures PropsDecode(data).Decoded5?
    ensures var pr := PropsDecode(data).pr;
      PropsBytes(pr)[0] == data[0] && (pr.dicSize > 0x1000 ==> PropsBytes(pr) == data)
  {
    var pr, d1, d2, d3, d4 := PropsDecode(data).pr, data[1], data[2], data[3], data[4];
    if pr.dicSize > 0x1000 {
      DigitsOf(d1, d2, d3, d4, pr.dicSize);
      assert PropsBytes(pr) == data;
    }
  }

  /** lc = 3, lp = 0, pb = 2, and a dictionary of 64 KB. */
  lemma KnownProps()
    ensures PropsBytes(Props(3, 0, 2, 0x1_0000)) == [0x5D, 0, 0, 1, 0]
    ensures PropsDecode([0x5D, 0, 0, 1, 0]) == Decoded5(Props(3, 0, 2, 0x1_0000))
  {
  }

  lemma DigitsOf(d1: byte, d2: byte, d3: byte, d4: byte, n: nat)
    requires n == d1 + 0x100 * d2 + 0x1_0000 * d3 + 0x100_0000 * d4
    ensures n % 0x100 == d1 && n / 0x100 % 0x100 == d2 && n / 0x1_0000 % 0x100 == d3 && n / 0x100_0000 == d4
  {
    assert n / 0x100 == d2 + 0x100 * d3 + 0x1_0000 * d4;
    assert n / 0x1_0000 == d3 + 0x100 * d4;
  }

  lemma DigitsBack(n: nat)
    requires n < WORD
    ensures n == n % 0x100 + 0x100 * (n / 0x100 % 0x100) + 0x1_0000 * (n / 0x1_0000 % 0x100)
                 + 0x100_0000 * (n / 0x100_0000 % 0x100)
  {
    assert n / 0x1_0000 == n / 0x100 / 0x100 && n / 0x100_0000 == n / 0x1_0000 / 0x100;
  }

  /** LzmaEnc_WriteProperties: a decoder reads the same properties back, with a dictionary at
      least as large. */
  method WriteProperties(pr: Props) returns (props: seq<byte>, ghost read: Props)
    requires PropsOk(pr)
    ensures |props| == 5 && PropsDecode(props) == Decoded5(read) && SameButLarger(pr, read)
    ensures props == PropsBytes(read) && 0x1000 <= read.dicSize
    ensures read.dicSize == pr.dicSize || exists i: nat :: Rounded(read.dicSize, i)
    ensures forall f: nat, i: nat :: Rounded(f, i) && pr.dicSize <= f ==> read.dicSize <= f
  {
    var dictSize := RoundUp(pr.dicSize);
    read := pr.(dicSize := dictSize);
    PropsRoundTrip(read);
    props := PropsBytes(pr.(dicSize := dictSize));
  }

  predicate SameButLarger(pr: Props, read: Props) {
    PropsOk(pr) && PropsOk(read) && pr.lc == read.lc && pr.lp == read.lp && pr.pb == read.pb &&
      pr.dicSize <= read.dicSize
  }

  // ----- A larger dictionary changes nothing -----

  lemma {:induction false} ParsesLarger(pr: Props, read: Props, data: seq<byte>, pos: nat, r: Reps, syms: seq<Symbol>)
    requires SameButLarger(pr, read) && Parses(pr, data, pos, r, syms)
    ensures Parses(read, data, pos, r, syms)
    decreases syms
  {
    if syms != [] {
      ParsesLarger(pr, read, data, pos + SymLen(syms[0]), NextReps(r, syms[0]), syms[1..]);
    }
  }

  lemma {:induction false} SendsSame(pr: Props, read: Props, data: seq<byte>, x: Sender, syms: seq<Symbol>)
    requires SameButLarger(pr, read) && SenderOk(pr, data, x)
    requires Parses(pr, data, x.pos, x.reps, syms) && Parses(read, data, x.pos, x.reps, syms)
    ensures SendAll(read, data, x, syms) == SendAll(pr, data, x, syms)
    decreases syms
  {
    hide Emit, Shr, Low;
    if syms != [] {
      assert SendCtx(read, data, x) == SendCtx(pr, data, x);
      SendsSame(pr, read, data, Send(pr, data, x, syms[0]), syms[1..]);
    }
  }

  lemma EncodesSame(pr: Props, read: Props, data: seq<byte>, syms: seq<Symbol>, mark: bool)
    requires SameButLarger(pr, read) && Parses(pr, data, 0, SENDER_INIT.reps, syms)
    ensures Parses(read, data, 0, SENDER_INIT.reps, syms)
    ensures EncodeStream(read, data, syms, mark) == EncodeStream(pr, data, syms, mark)
  {
    hide Emit, Shr, Low, Flush;
    ParsesLarger(pr, read, data, 0, SENDER_INIT.reps, syms);
    SendsSame(pr, read, data, SENDER_INIT, syms);
    var x := SendAll(pr, data, SENDER_INIT, syms);
    assert SendCtx(read, data, x) == SendCtx(pr, data, x);
  }

  // ----- The places of an encoded stream -----

  lemma FirstOf(pr: Props, s: seq<byte>, m: Mach, k: nat, m': Mach) returns (m1: Mach)
    requires MachOk(pr, m) && k > 0 && StepN(pr, s, m, k) == Going(m')
    ensures MachOk(pr, m1) && Step(pr, s, m) == Going(m1) && |m1.out| > |m.out| && StepN(pr, s, m1, k - 1) == Going(m')
  {
    hide Step, MachOk;
    StepOk(pr, s, m);
    m1 := Step(pr, s, m).m;
  }

  lemma {:induction false} StepNSplit(pr: Props, s: seq<byte>, m: Mach, a: nat, b: nat, ma: Mach)
    requires MachOk(pr, m) && StepN(pr, s, m, a) == Going(ma)
    ensures MachOk(pr, ma) && StepN(pr, s, m, a + b) == StepN(pr, s, ma, b)
    decreases a
  {
    hide Step, MachOk;
    if a > 0 {
      var m1 := FirstOf(pr, s, m, a, ma);
      StepNSplit(pr, s, m1, a - 1, b, ma);
    }
  }

  lemma {:induction false} OutGrows(pr: Props, s: seq<byte>, m: Mach, k: nat, m': Mach)
    requires MachOk(pr, m) && StepN(pr, s, m, k) == Going(m')
    ensures |m.out| + k <= |m'.out|
    decreases k
  {
    hide Step, MachOk;
    if k > 0 {
      var m1 := FirstOf(pr, s, m, k, m');
      OutGrows(pr, s, m1, k - 1, m');
    }
  }

  /** No place of an encoded stream has more output than the data, and the one with all the data
      is followed by the end mark. */
  lemma PackedPlaces(pr: Props, data: seq<byte>, syms: seq<Symbol>, s: seq<byte>, k: nat, m: Mach)
    requires PropsOk(pr) && Parses(pr, data, 0, SENDER_INIT.reps, syms) && s == EncodeStream(pr, data, syms, true)
    requires Located(pr, s, k, Going(m))
    ensures MachOk(pr, m) && |m.out| <= |data|
    ensures |m.out| == |data| ==> m.out == data && Step(pr, s, m).Ended?
  {
    hide Step, MachOk, EncodeStream, InitMach, StepN, Parses;
    var n := |syms|;
    StreamRoundTrip(pr, data, syms, true);
    InitMachOk(pr, s);
    LocatedOk(pr, s, k, m);
    var last := StepN(pr, s, InitMach(s), n).m;
    if k <= n {
      StepNSplit(pr, s, InitMach(s), k, n - k, m);
      OutGrows(pr, s, m, n - k, last);
      if k == n { assert m == last; }
    } else {
      StepNSplit(pr, s, InitMach(s), n, k - n, last);
      NoFurther(pr, s, last, k - n);
    }
  }

  lemma NoFurther(pr: Props, s: seq<byte>, m: Mach, k: nat)
    requires MachOk(pr, m) && k > 0 && Step(pr, s, m).Ended?
    ensures !StepN(pr, s, m, k).Going?
  {
    hide Step, MachOk;
  }

  lemma PackedNotFailed(pr: Props, data: seq<byte>, syms: seq<Symbol>, s: seq<byte>, mode: FinishMode)
    requires PropsOk(pr) && Parses(pr, data, 0, SENDER_INIT.reps, syms) && s == EncodeStream(pr, data, syms, true)
    ensures !Fails(pr, s, |data|, mode)
  {
    hide Step, MachOk, EncodeStream, Parses, Located, DecodeAll, StepFits;
    EncodeThenDecode(pr, data, syms);
    forall k, m | Overruns(pr, s, k, m, |data|) ensures false {
      PackedPlaces(pr, data, syms, s, k, m);
    }
  }

  /** Whatever LzmaDecode may return for an encoded stream and a buffer of the right size, it is
      success, with the data. */
  lemma PackedCall(pr: Props, data: seq<byte>, syms: seq<Symbol>, s: seq<byte>,
                   res: Result, status: Status, srcLen: nat, out: seq<byte>)
    requires PropsOk(pr) && Parses(pr, data, 0, SENDER_INIT.reps, syms) && s == EncodeStream(pr, data, syms, true)
    requires OneCall(pr, s, |data|, FINISH_END, res, status, srcLen, out)
    ensures res == SZ_OK && out == data
    ensures status == FINISHED_WITH_MARK ==> srcLen == |s|
  {
    hide Step, MachOk, EncodeStream, Parses, Located, DecodeAll, StepFits;
    PackedNotFailed(pr, data, syms, s, FINISH_END);
    EncodeThenDecode(pr, data, syms);
    if res == SZ_OK {
      assert s[..srcLen] <= s;
      if status == FINISHED_WITH_MARK {
        DecodedFurther(pr, s[..srcLen], s);
      } else {
        var k, m :| Located(pr, s[..srcLen], k, Going(m)) && out <= m.out && out == m.out;
        LocatedExtend(pr, s[..srcLen], s, k, Going(m));
        PackedPlaces(pr, data, syms, s, k, m);
      }
    }
  }

  /** lzma_compress: any admissible parse the encoder's search may come up with. */
  method Compress(pr: Props, data: seq<byte>, parse: seq<(nat, nat)>)
    returns (props: seq<byte>, stream: seq<byte>, ghost read: Props)
    requires PropsOk(pr) && pr.dicSize <= 0x4000_0000
    requires Parses(pr, data, 0, SENDER_INIT.reps, WholeParse(data, parse))
    ensures |props| == 5 && PropsDecode(props) == Decoded5(read) && SameButLarger(pr, read)
    ensures stream == EncodeStream(pr, data, WholeParse(data, parse), true)
  {
    hide EncodeStream, Parses, WholeParse;
    props, read := WriteProperties(pr);
    var p := new LzmaEnc(pr);
    p.Encode(data, parse, true);
    stream := p.rc.out;
  }

  /** The stub's decode, and the first half of lzma_decode: what was compressed comes back. */
  method Decompress(dest: array<byte>, props: seq<byte>, stream: seq<byte>,
                    ghost pr: Props, ghost read: Props, ghost data: seq<byte>, ghost syms: seq<Symbol>)
    returns (res: Result, lenOut: nat)
    requires PropsDecode(props) == Decoded5(read) && SameButLarger(pr, read) && dest.Length == |data|
    requires Parses(pr, data, 0, SENDER_INIT.reps, syms) && stream == EncodeStream(pr, data, syms, true)
    modifies dest
    ensures res == SZ_OK && lenOut == |data| && dest[..] == data
  {
    hide Fails, OneCall, EncodeStream, Parses, PropsDecode;
    EncodesSame(pr, read, data, syms, true);
    EncodeThenDecode(read, data, syms);
    PackedNotFailed(read, data, syms, stream, FINISH_END);
    HeaderThere(read, data, syms);
    var status: Status, srcLen: nat;
    res, status, srcLen, lenOut := Decode(dest, stream, props, FINISH_END);
    PackedCall(read, data, syms, stream, res, status, srcLen, dest[..lenOut]);
    assert dest[..lenOut] == dest[..];
  }

  lemma HeaderThere(pr: Props, data: seq<byte>, syms: seq<Symbol>)
    requires PropsOk(pr) && Parses(pr, data, 0, SENDER_INIT.reps, syms)
    ensures |EncodeStream(pr, data, syms, true)| >= 5
  {
    hide EncodeStream, Parses, Step, StepN;
    StreamRoundTrip(pr, data, syms, true);
  }

  /** lzma_decode stores the length in the first byte of the output when it is done: the data
      comes back intact exactly when it starts with that byte. */
  method LzmaDecodeClient(dest: array<byte>, props: seq<byte>, stream: seq<byte>,
                          ghost pr: Props, ghost read: Props, ghost data: seq<byte>, ghost syms: seq<Symbol>)
    returns (res: Result)
    requires PropsDecode(props) == Decoded5(read) && SameButLarger(pr, read) && dest.Length == |data| > 0
    requires Parses(pr, data, 0, SENDER_INIT.reps, syms) && stream == EncodeStream(pr, data, syms, true)
    modifies dest
    ensures res == SZ_OK && dest[..] == data[0 := |data| % 0x100]
    ensures dest[..] == data <==> data[0] == |data| % 0x100
  {
    var lenOut: nat;
    res, lenOut := Decompress(dest, props, stream, pr, read, data, syms);
    dest[0] := lenOut % 0x100;      // *dst = len_out
    assert dest[..] == data[0 := |data| % 0x100];
    assert data[0 := |data| % 0x100][0] == |data| % 0x100;
    assert data[0] == |data| % 0x100 ==> data[0 := |data| % 0x100] == data;
  }
}
