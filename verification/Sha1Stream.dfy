/** channel/channelapp/source/sha1.c: SHA1Update, SHA1Final and SHA1. Data may come in any pieces; the
    digest is that of FIPS 180-4 for the whole. */
module Sha1Stream {
  import opened BitWords
  import opened Numbers
  import opened Sha1

  // The part of a message that was hashed, and the part that waits in the buffer.

  function Whole(len: nat): (r: nat)
    ensures r <= len && r % 64 == 0 && len - r == len % 64 < 64
  {
    len - len % 64
  }

  lemma {:induction false} HashMore(h: Regs, s: seq<bv8>, p: nat)
    requires p % 64 == 0 && p + 64 <= |s|
    ensures (p + 64) % 64 == 0
    ensures HashFrom(h, s[..p + 64]) == Compress(HashFrom(h, s[..p]), s[p..p + 64])
    decreases p
  {
    hide Compress;
    var t := s[..p + 64];
    if p == 0 {
      assert t[..64] == s[0..64] && t[64..] == [];
    } else {
      var rest := s[64..];
      HashMore(Compress(h, s[..64]), rest, p - 64);
      assert t[..64] == s[..64] && t[64..] == rest[..p] && s[..p][..64] == s[..64];
      assert s[..p][64..] == rest[..p - 64] && rest[p - 64..p] == s[p..p + 64];
    }
  }

  /** The bits of so many bytes, counted in two words. */
  predicate Counted(count0: nat, count1: nat, len: nat) {
    count0 < WORD && count1 < WORD && count1 * WORD + count0 == 8 * len % (WORD * WORD)
  }

  lemma CountStep(count0: nat, count1: nat, total: nat, len: nat, low: nat, carried: nat)
    requires Counted(count0, count1, total) && len < WORD && low == (count0 + len * 8 % WORD) % WORD
    requires carried == if low < len * 8 % WORD then (count1 + 1) % WORD else count1
    ensures Counted(low, (carried + len / 0x2000_0000) % WORD, total + len)
  {
    var high, carry := len / 0x2000_0000, if low < len * 8 % WORD then 1 else 0;
    CountCarry(count0, len);
    HighWord(count1 * WORD + count0 + 8 * len, low, count1 + carry + high);
    CountTotal(count1 * WORD + count0, total, len);
    CarryInto(count1, carry, high);
  }

  lemma CarryInto(count1: nat, carry: nat, high: nat)
    requires carry <= 1 && count1 < WORD
    ensures (count1 + carry + high) % WORD == ((if carry == 1 then (count1 + 1) % WORD else count1) + high) % WORD
  {
  }

  lemma CountCarry(count0: nat, len: nat)
    requires count0 < WORD
    ensures var bits := len * 8 % WORD;
            var low := (count0 + bits) % WORD;
            count0 + 8 * len == (if low < bits then WORD else 0) + len / 0x2000_0000 * WORD + low
  {
    assert 8 * len == len / 0x2000_0000 * WORD + len * 8 % WORD;
  }

  lemma CountTotal(count: nat, total: nat, len: nat)
    requires count == 8 * total % (WORD * WORD)
    ensures (count + 8 * len) % (WORD * WORD) == 8 * (total + len) % (WORD * WORD)
  {
    QuotientPlus(8 * (total + len), count + 8 * len, WORD * WORD, 8 * total / (WORD * WORD));
  }

  lemma HighWord(sum: nat, low: nat, up: nat)
    requires low < WORD && sum == up * WORD + low
    ensures sum % (WORD * WORD) == (up % WORD) * WORD + low
  {
    QuotientUnique(sum, WORD * WORD, up / WORD, (up % WORD) * WORD + low);
  }

  lemma CountPos(count0: nat, count1: nat, total: nat)
    requires Counted(count0, count1, total)
    ensures count0 / 8 % 64 == total % 64
  {
    var q := 8 * total / (WORD * WORD);
    var k := 0x80_0000 * WORD * q + 0x80_0000 * count1;
    assert total == 64 * k + count0 / 8;
    QuotientPlus(total, count0 / 8, 64, k);
  }

  /** SHA1_CTX */
  class Sha1Ctx {
    const state: array<bv32>
    var count0: nat
    var count1: nat
    const buffer: array<bv8>
    ghost var msg: seq<bv8>     // what came in so far

    ghost predicate Valid()
      reads this, state, buffer
    {
      && Counted(count0, count1, |msg|)
      && Holds(msg)
    }

    /** Whole blocks are hashed and the rest is buffered. */
    ghost predicate Holds(s: seq<bv8>)
      reads state, buffer
    {
      && state.Length == 5 && buffer.Length == 64
      && Value(state) == HashFrom(INITIAL, s[..Whole(|s|)])
      && buffer[..|s| % 64] == s[Whole(|s|)..]
    }

    /** SHA1Init. */
    constructor ()
      ensures Valid() && msg == [] && fresh(state) && fresh(buffer)
    {
      state := new bv32[] [0x67452301, 0xEFCDAB89, 0x98BADCFE, 0x10325476, 0xC3D2E1F0];
      buffer := new bv8[64];
      count0, count1, msg := 0, 0, [];
    }

    /** The counter of bits. */
    method Count(len: nat)
      requires Counted(count0, count1, |msg|) && len < WORD
      modifies `count0, `count1
      ensures Counted(count0, count1, |msg| + len)
    {
      var bits := len * 8 % WORD;
      count0 := (count0 + bits) % WORD;
      if count0 < bits { count1 := (count1 + 1) % WORD; }
      CountStep(old(count0), old(count1), |msg|, len, count0, count1);
      count1 := (count1 + len / 0x2000_0000) % WORD;
    }

    /** memcpy into the buffer. */
    method Fill(j: nat, piece: seq<bv8>)
      requires buffer.Length == 64 && j + |piece| <= 64
      modifies buffer
      ensures buffer[..j + |piece|] == old(buffer[..j]) + piece
    {
      for k := 0 to |piece|
        invariant buffer[..j + k] == old(buffer[..j]) + piece[..k]
      {
        buffer[j + k] := piece[k];
      }
    }

    /** The loop over whole blocks of the data, which ends what was hashed. */
    method Blocks(data: seq<bv8>, start: nat, ghost s: seq<bv8>) returns (i: nat)
      requires state.Length == 5 && start <= |data| <= |s| && s[|s| - |data|..] == data
      requires (|s| - |data|) % 64 + |data| < WORD && (|s| - |data| + start) % 64 == 0
      requires Value(state) == HashFrom(INITIAL, s[..|s| - |data| + start])
      modifies state
      ensures i <= |data| < i + 64 && |s| - |data| + i == Whole(|s|)
      ensures Value(state) == HashFrom(INITIAL, s[..Whole(|s|)])
    {
      hide Compress, HashFrom, Whole, Counted, Value;
      ghost var base := |s| - |data|;
      i := start;
      NoWrap(base, i, |data|);
      while (i + 63) % WORD < |data|
        invariant i <= |data| && (base + i) % 64 == 0 && i + 63 < WORD
        invariant Value(state) == HashFrom(INITIAL, s[..base + i])
      {
        assert data[i..i + 64] == s[base + i..base + i + 64];
        HashMore(INITIAL, s, base + i);
        Transform(state, data[i..i + 64]);
        i := i + 64;
        Next64(base + i - 64);
        NoWrap(base, i, |data|);
      }
      WholeIs(|s|, base + i);
    }

    /** The buffered bytes are made a block, and whole blocks follow. */
    method Drain(data: seq<bv8>, j: nat) returns (i: nat)
      requires Holds(msg) && j == |msg| % 64 && 64 <= j + |data| < WORD
      modifies state, buffer
      ensures i <= |data| && data[i..] == (msg + data)[Whole(|msg| + |data|)..]
      ensures |data| - i == (|msg| + |data|) % 64
      ensures Value(state) == HashFrom(INITIAL, (msg + data)[..Whole(|msg| + |data|)])
    {
      hide Compress, HashFrom, Whole, Counted, Value;
      i := 64 - j;
      Fill(j, data[..i]);
      FirstBlock(msg, data, buffer[..]);
      Transform(state, buffer[..]);
      i := Blocks(data, i, msg + data);
    }

    /** SHA1Update; false stands for a copy that goes beyond the buffer, as it does when `j + len`
        wraps around. */
    method Update(data: seq<bv8>) returns (ok: bool)
      requires Valid() && |data| < WORD
      modifies `count0, `count1, `msg, state, buffer
      ensures ok <==> |old(msg)| % 64 + |data| < WORD
      ensures ok ==> Valid() && msg == old(msg) + data
    {
      hide Compress, HashFrom, Whole, Counted, Value;
      var len := |data|;
      var j := count0 / 8 % 64;
      CountPos(count0, count1, |msg|);
      Count(len);
      var i := 0;
      CopyFits(j, len);
      if (j + len) % WORD > 63 {
        i := Drain(data, j);
        j := 0;
      }
      if j + (len - i) > 64 { return false; }
      if i == 0 {
        NoBlock(msg, data);
        assert data[i..] == data;
      }
      Fill(j, data[i..]);
      msg := msg + data;
      ok := true;
    }

    /** SHA1Final: the padding of FIPS 180-4 goes in, and the context is wiped. */
    method Final(digest: array<bv8>)
      requires Valid() && digest.Length == 20 && digest != buffer
      modifies `count0, `count1, `msg, state, buffer, digest
      ensures digest[..] == Digest(old(msg))
      ensures count0 == count1 == 0 && buffer[..] == Zeros(64)
      ensures Value(state) == Compress(Regs(0, 0, 0, 0, 0), Zeros(64))
    {
      hide Compress, HashFrom, Whole, Value, Bytes, LengthBytes, PadZeros, Counted;
      ghost var m := msg;
      var finalCount := FinalCount();
      PadWith();
      var ok := Update(finalCount);
      assert msg == Padded(m);
      WholeIs(|msg|, |msg|);
      assert msg[..|msg|] == msg;
      WriteDigest(digest);
      Wipe();
    }

    /** The bits counted so far. */
    method FinalCount() returns (r: seq<bv8>)
      requires Valid()
      ensures r == LengthBytes(|msg|)
    {
      hide HashFrom, Whole, Value, CountByte, Counted;
      var a := new bv8[8];
      for i := 0 to 8
        invariant forall k | 0 <= k < i :: a[k] == CountByte(if k >= 4 then count0 else count1, k % 4)
      {
        a[i] := CountByte(if i >= 4 then count0 else count1, i % 4);
      }
      Halves(count0, count1, |msg|);
      r := a[..];
      assert r == CountBytes(count1) + CountBytes(count0);
    }

    lemma Buffered()
      requires Valid()
      ensures count0 / 8 % 64 == |msg| % 64
    {
      hide HashFrom, Whole, Value, Counted;
      CountPos(count0, count1, |msg|);
    }

    /** One byte with the top bit, then zeros until 56 bytes are buffered. */
    method PadWith()
      requires Valid()
      modifies `count0, `count1, `msg, state, buffer
      ensures Valid() && count0 / 8 % 64 == 56
      ensures msg == old(msg) + [0x80] + Zeros(PadZeros(|old(msg)|))
    {
      hide HashFrom, Whole, Value, PadZeros, Counted, Zeros, Valid;
      ghost var m, k := msg, 0;
      ZerosNone();
      ghost var zeros := PadZeros(|m|);
      var ok := Update([0x80]);
      Buffered();
      while count0 / 8 % 64 * 8 != 448
        invariant Valid() && k <= zeros && msg == m + [0x80] + Zeros(k)
        invariant count0 / 8 % 64 == (|m| + 1 + k) % 64
        decreases zeros - k
      {
        ok := Update([0]);
        Buffered();
        ZerosNext(k);
        k := k + 1;
      }
      PadLeast(|m|, k);
    }

    method WriteDigest(digest: array<bv8>)
      requires state.Length == 5 && digest.Length == 20
      modifies digest
      ensures digest[..] == Bytes(Value(state))
    {
      hide ByteOf;
      for i := 0 to 20
        invariant forall k | 0 <= k < i :: digest[k] == ByteOf(Reg(Value(state), k / 4), k % 4)
      {
        digest[i] := ByteOf(state[i / 4], i % 4);
      }
    }

    /** The transform is run once more on the wiped context, to overwrite its workspace. */
    method Wipe()
      requires state.Length == 5 && buffer.Length == 64
      modifies `count0, `count1, state, buffer
      ensures count0 == count1 == 0 && buffer[..] == Zeros(64)
      ensures Value(state) == Compress(Regs(0, 0, 0, 0, 0), Zeros(64))
    {
      hide Compress;
      forall k | 0 <= k < 64 { buffer[k] := 0; }
      forall k | 0 <= k < 5 { state[k] := 0; }
      count0, count1 := 0, 0;
      assert buffer[..] == Zeros(64);
      Transform(state, buffer[..]);
    }
  }

  lemma ZerosNone()
    ensures Zeros(0) == []
  {
  }

  lemma ZerosNext(k: nat)
    ensures Zeros(k) + [0] == Zeros(k + 1)
  {
  }

  lemma PadLeast(len: nat, k: nat)
    requires k <= PadZeros(len) && (len + 1 + k) % 64 == 56
    ensures k == PadZeros(len)
  {
    assert (PadZeros(len) - k) % 64 == 0;
  }

  lemma Halves(count0: nat, count1: nat, len: nat)
    requires Counted(count0, count1, len)
    ensures var bits := 8 * len % (WORD * WORD);
            bits / WORD == count1 && bits % WORD == count0
  {
    QuotientUnique(8 * len % (WORD * WORD), WORD, count1, count0);
  }

  /** SHA1. */
  method Sha1Of(data: seq<bv8>, outbuf: array<bv8>)
    requires |data| < WORD && outbuf.Length == 20
    modifies outbuf
    ensures outbuf[..] == Digest(data)
  {
    hide *;
    var ctx := new Sha1Ctx();
    var ok := ctx.Update(data);
    assert ctx.msg == data;
    ctx.Final(outbuf);
  }

  function Joined(pieces: seq<seq<bv8>>): seq<bv8> {
    if pieces == [] then [] else Joined(pieces[..|pieces| - 1]) + pieces[|pieces| - 1]
  }

  lemma JoinedNone()
    ensures Joined([]) == []
  {
  }

  lemma {:induction false} JoinedNext(pieces: seq<seq<bv8>>, i: nat)
    requires i < |pieces|
    ensures Joined(pieces[..i + 1]) == Joined(pieces[..i]) + pieces[i]
  {
    assert pieces[..i + 1][..i] == pieces[..i];
  }

  /** Piece i goes in without a wrap-around. */
  predicate GoesIn(pieces: seq<seq<bv8>>, i: nat)
    requires i < |pieces|
  {
    |Joined(pieces[..i])| % 64 + |pieces[i]| < WORD
  }

  /** Data in pieces of any sizes. */
  method Sha1OfPieces(pieces: seq<seq<bv8>>, outbuf: array<bv8>) returns (ok: bool)
    requires outbuf.Length == 20 && forall i: nat | i < |pieces| :: |pieces[i]| < WORD
    modifies outbuf
    ensures ok <==> forall i: nat | i < |pieces| :: GoesIn(pieces, i)
    ensures ok ==> outbuf[..] == Digest(Joined(pieces))
  {
    hide *;
    var ctx := new Sha1Ctx();
    assert pieces[..0] == [];
    JoinedNone();
    for i := 0 to |pieces|
      invariant ctx.Valid() && fresh(ctx.state) && fresh(ctx.buffer) && ctx.msg == Joined(pieces[..i])
      invariant forall k: nat | k < i :: GoesIn(pieces, k)
    {
      ok := ctx.Update(pieces[i]);
      WhenGoesIn(pieces, i);
      if !ok { return; }
      JoinedNext(pieces, i);
    }
    assert pieces[..|pieces|] == pieces;
    ctx.Final(outbuf);
    ok := true;
  }

  lemma WhenGoesIn(pieces: seq<seq<bv8>>, i: nat)
    requires i < |pieces|
    ensures GoesIn(pieces, i) <==> |Joined(pieces[..i])| % 64 + |pieces[i]| < WORD
  {
  }

  /** The last copy of SHA1Update stays inside the buffer just if `j + len` does not wrap around; after
      a wrap-around the whole data is taken for the rest of a block. */
  lemma CopyFits(j: nat, len: nat)
    requires j < 64 && len < WORD
    ensures j + len < WORD <==> (j + len) % WORD > 63 || j + len <= 64
  {
  }

  lemma CopyOverruns()
    ensures (63 + 0xFFFF_FFFF) % WORD <= 63 && 63 + 0xFFFF_FFFF > 64
  {
  }

  lemma WholeIs(len: nat, p: nat)
    requires p % 64 == 0 && p <= len < p + 64
    ensures Whole(len) == p && len % 64 == len - p
  {
  }

  lemma Next64(p: nat)
    requires p % 64 == 0
    ensures (p + 64) % 64 == 0
  {
  }

  lemma NoWrap(base: nat, i: nat, len: nat)
    requires base % 64 + len < WORD && i <= len && (base + i) % 64 == 0
    ensures i + 63 < WORD
  {
    assert (base % 64 + i) % 64 == 0;
  }

  /** What was buffered and the start of the data make a block. */
  lemma FirstBlock(msg: seq<bv8>, data: seq<bv8>, block: seq<bv8>)
    requires |msg| % 64 + |data| >= 64
    requires block == msg[Whole(|msg|)..] + data[..64 - |msg| % 64]
    ensures Whole(|msg|) + 64 == |msg| + 64 - |msg| % 64 && (Whole(|msg|) + 64) % 64 == 0 && |block| == 64
    ensures HashFrom(INITIAL, (msg + data)[..Whole(|msg|) + 64])
            == Compress(HashFrom(INITIAL, msg[..Whole(|msg|)]), block)
  {
    hide Compress, HashFrom;
    var p, s := Whole(|msg|), msg + data;
    HashMore(INITIAL, s, p);
    assert s[..p] == msg[..p] && s[p..p + 64] == block;
  }

  /** All the data goes behind what was buffered. */
  lemma NoBlock(msg: seq<bv8>, data: seq<bv8>)
    requires |msg| % 64 + |data| < 64
    ensures var s, p := msg + data, Whole(|msg|);
            Whole(|s|) == p && |s| % 64 == |msg| % 64 + |data| && s[..p] == msg[..p] && s[p..] == msg[p..] + data
  {
    hide Compress, HashFrom;
    WholeIs(|msg| + |data|, Whole(|msg|));
  }
}
