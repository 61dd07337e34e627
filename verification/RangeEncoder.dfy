/** CRangeEnc and its coding procedures, in place. `probs` stands for the probability tables of
    CLzmaEnc, which the procedures receive by pointer. */
module RangeEncoder {
  import opened Numbers
  import opened RangeCoder
  import opened LzmaSymbols
  import opened LzmaTrees

  class RangeEnc {
    var low: nat
    var range: nat
    var cache: byte
    var cacheSize: nat
    var out: seq<byte>   // buf, and what FlushStream has passed to the output stream before it
    var probs: Probs

    ghost predicate Valid()
      reads this
    {
      cacheSize >= 1
    }

    ghost function Coder(): Enc
      reads this
    {
      Enc(low, range, cache, cacheSize, out, probs)
    }

    constructor ()
      ensures Valid() && Coder() == ENC_INIT
    {
      low, range, cacheSize, cache := 0, 0xFFFF_FFFF, 1, 0;
      out, probs := [], map[];
    }

    method ShiftLow()
      requires Valid()
      modifies this
      ensures Valid() && Coder() == RangeCoder.ShiftLow(old(Coder()))
    {
      if low % WORD < 0xFF00_0000 || low / WORD % WORD != 0 {
        var temp := cache;
        ghost var head := out + [(cache + low / WORD) % 0x100];
        ghost var fill: byte := (0xFF + low / WORD) % 0x100;
        ghost var n := 0;
        out := out + [(temp + low / WORD) % 0x100];
        temp := 0xFF;
        cacheSize := cacheSize - 1;
        while cacheSize != 0
          invariant cacheSize + n + 1 == old(cacheSize)
          invariant temp == 0xFF && low == old(low) && range == old(range) && probs == old(probs)
          invariant out == head + Repeat(fill, n)
          decreases cacheSize
        {
          out := out + [(temp + low / WORD) % 0x100];
          cacheSize := cacheSize - 1;
          n := n + 1;
          assert Repeat(fill, n) == Repeat(fill, n - 1) + [fill];
        }
        cache := low % WORD / TOP;
      }
      cacheSize := cacheSize + 1;
      low := Shl8(low);
    }

    method FlushData()
      requires Valid()
      modifies this
      ensures Valid() && Coder() == Flush(old(Coder()))
    {
      hide RangeCoder.ShiftLow;
      ghost var e := Coder();
      ShiftLow();
      ShiftLow();
      ShiftLow();
      ShiftLow();
      ShiftLow();
    }

    method EncodeDirectBits(value: nat, numBits: nat)
      requires Valid() && numBits >= 1
      modifies this
      ensures Valid() && Coder() == EvenPut(old(Coder()), numBits, value)
    {
      hide RangeCoder.ShiftLow, Put, BitOf;
      ghost var e := Coder();
      var n := numBits;
      while n != 0
        invariant Valid() && n <= numBits
        invariant EvenPut(Coder(), n, value) == EvenPut(e, numBits, value)
        decreases n
      {
        n := n - 1;
        EncodeEven(BitOf(value, n));
      }
    }

    method EncodeEven(b: bit)
      requires Valid()
      modifies this
      ensures Valid() && Coder() == Put(old(Coder()), Direct, b)
    {
      hide RangeCoder.ShiftLow;
      range := range / 2;
      low := low + (if b == 1 then range else 0);
      if range < TOP {
        range := Shl8(range);
        ShiftLow();
      }
    }

    method EncodeBit(c: Cell, b: bit)
      requires Valid()
      modifies this
      ensures Valid() && Coder() == Put(old(Coder()), Adaptive(c), b)
      ensures CellMoved(old(probs), probs, c, b)
    {
      hide RangeCoder.ShiftLow, CellMoved;
      PutApproaches(Coder(), c, b);
      var ttt := Prob(probs, c);
      BoundBelow(range, ttt);
      var newBound := range / BIT_TOTAL * ttt;
      if b == 0 {
        range := newBound;
        ttt := ttt + (BIT_TOTAL - ttt) / 32;
      } else {
        low := low + newBound;
        range := range - newBound;
        ttt := ttt - ttt / 32;
      }
      probs := probs[c := ttt];
      if range < TOP {
        range := Shl8(range);
        ShiftLow();
      }
    }

    /** RcTree_Encode */
    method TreeEncode(t: Tree, numBitLevels: nat, symbol: nat)
      requires Valid() && TreeOk(t)
      modifies this
      ensures Valid() && Coder() == TreePut(old(Coder()), t, numBitLevels, 1, symbol)
    {
      hide Put, CellMoved, BitOf;
      ghost var e := Coder();
      var m: nat, i: nat := 1, numBitLevels;
      while i != 0
        invariant Valid() && m >= 1 && i <= numBitLevels
        invariant TreePut(Coder(), t, i, m, symbol) == TreePut(e, t, numBitLevels, 1, symbol)
        decreases i
      {
        i := i - 1;
        var b := BitOf(symbol, i);
        EncodeBit(TreeCell(t, m), b);
        m := 2 * m + b;
      }
    }

    /** RcTree_ReverseEncode */
    method TreeReverseEncode(t: Tree, numBitLevels: nat, symbol: nat)
      requires Valid() && TreeOk(t)
      modifies this
      ensures Valid() && Coder() == ReversePut(old(Coder()), t, 0, numBitLevels, 1, symbol)
    {
      hide Put, CellMoved;
      ghost var e := Coder();
      var m: nat, i, rest := 1, 0, symbol;
      while i < numBitLevels
        invariant Valid() && m >= 1 && i <= numBitLevels && rest == Shr(symbol, i)
        invariant ReversePut(Coder(), t, i, numBitLevels, m, symbol) == ReversePut(e, t, 0, numBitLevels, 1, symbol)
      {
        var b := rest % 2;
        EncodeBit(TreeCell(t, m), b);
        m := 2 * m + b;
        rest := rest / 2;
        i := i + 1;
      }
    }

    /** LitEnc_Encode: `x` is 0x100 | symbol moving to the left; the bits from position 8 up
        are the tree index. */
    method EncodeLiteral(ghost ctx: Ctx, litCtx: nat, symbol: byte)
      requires Valid() && ctx.litCtx == litCtx
      modifies this
      ensures Valid() && Coder() == LitPut(old(Coder()), ctx, 8, 1, false, symbol)
    {
      hide Put, CellMoved, Pow2, MatchBit, Shr, BitOf;
      ghost var e := Coder();
      ghost var w: nat, n: nat := 0x100 + symbol, 8;
      var x: nat := 0x100 + symbol;
      LiteralStart(symbol);
      while x < 0x1_0000
        invariant Valid() && n <= 8 && x == Window(w, n) && (x < 0x1_0000 <==> n > 0)
        invariant x / 0x100 == Shr(w, n) && Shr(w, n) >= 1
        invariant LitPut(Coder(), ctx, n, Shr(w, n), false, symbol) == LitPut(e, ctx, 8, 1, false, symbol)
        decreases n
      {
        LiteralStep(symbol, n, x);
        EncodeBit(LitProb(litCtx, x / 0x100), x / 0x80 % 2);
        x := x * 2;
        n := n - 1;
      }
    }

    /** LitEnc_EncodeMatched: `offs` is 0x100 as long as all coded bits agree with the
        match byte, which moves to the left in step with `x`. */
    method EncodeMatched(ghost ctx: Ctx, litCtx: nat, symbol: byte, matchByte: byte)
      requires Valid() && ctx.litCtx == litCtx && ctx.matchByte == matchByte
      modifies this
      ensures Valid() && Coder() == LitPut(old(Coder()), ctx, 8, 1, true, symbol)
    {
      hide Put, Pow2, Shr, BitOf, AndOffs, LitIndex, MatchBit, Window, LitPut;
      ghost var e := Coder();
      ghost var w: nat, n: nat := 0x100 + symbol, 8;
      var x: nat, mb: nat, offs := 0x100 + symbol, matchByte, 0x100;
      LiteralStart(symbol);
      MatchStart(w);
      MatchStart(matchByte);
      while x < 0x1_0000
        invariant Valid() && n <= 8 && x == Window(w, n) && (x < 0x1_0000 <==> n > 0)
        invariant x / 0x100 == Shr(w, n) && Shr(w, n) >= 1
        invariant mb == Window(matchByte, n) && (offs == 0 || offs == 0x100)
        invariant LitPut(Coder(), ctx, n, Shr(w, n), offs == 0x100, symbol) == LitPut(e, ctx, 8, 1, true, symbol)
        decreases n
      {
        LiteralStep(symbol, n, x);
        x, mb, offs := MatchedRound(ctx, litCtx, symbol, n, x, mb, offs);
        n := n - 1;
      }
      LitPutNone(Coder(), ctx, Shr(w, n), offs == 0x100, symbol);
    }

    /** One bit, its cell chosen by the match byte's bit while `offs` is 0x100. */
    method MatchedRound(ghost ctx: Ctx, litCtx: nat, ghost symbol: byte, ghost n: nat, x0: nat, mb0: nat, offs0: nat)
      returns (x: nat, mb: nat, offs: nat)
      requires Valid() && ctx.litCtx == litCtx && 1 <= n <= 8 && (offs0 == 0 || offs0 == 0x100)
      requires x0 == Window(0x100 + symbol, n) && mb0 == Window(ctx.matchByte, n) && x0 / 0x100 >= 1
      modifies this
      ensures Valid() && x == x0 * 2 && mb == Window(ctx.matchByte, n - 1) && (offs == 0 || offs == 0x100)
      ensures LitPut(old(Coder()), ctx, n, x0 / 0x100, offs0 == 0x100, symbol)
        == LitPut(Coder(), ctx, n - 1, x / 0x100, offs == 0x100, symbol)
    {
      hide Put, CellMoved, Pow2, Shr, BitOf, AndOffs, LitIndex, MatchBit, Window, LitPut;
      LiteralStep(symbol, n, x0);
      MatchedStep(ctx, symbol, n, x0, mb0, offs0);
      LitPutOne(Coder(), ctx, n, x0 / 0x100, offs0 == 0x100, symbol);
      mb := mb0 * 2;
      var b := x0 / 0x80 % 2;
      EncodeBit(LitProb(litCtx, offs0 + AndOffs(mb, offs0) + x0 / 0x100), b);
      x := x0 * 2;
      offs := if AndOffs(mb, offs0) == AndOffs(x, offs0) then offs0 else 0;   // offs & ~(mb ^ x)
    }
  }

  /** `x << (8 - n)`: what is left to code lies above bit 8 - n. */
  function Window(x: nat, n: nat): nat
    requires n <= 8
  {
    x * Pow2(8 - n)
  }

  /** `x & offs` for `offs` 0 or 0x100. */
  function AndOffs(x: nat, offs: nat): nat {
    if offs == 0 then 0 else x / 0x100 % 2 * 0x100
  }

  lemma LitPutNone(e: Enc, ctx: Ctx, m: nat, offs: bool, x: byte)
    requires e.cacheSize >= 1
    ensures LitPut(e, ctx, 0, m, offs, x) == e
  {
  }

  lemma LitPutOne(e: Enc, ctx: Ctx, n: nat, m: nat, offs: bool, x: byte)
    requires e.cacheSize >= 1 && 1 <= n <= 8
    ensures var b := BitOf(x, n - 1);
      var e1 := Put(e, Adaptive(LitProb(ctx.litCtx, LitIndex(ctx, n, m, offs))), b);
      LitPut(e, ctx, n, m, offs, x) == LitPut(e1, ctx, n - 1, 2 * m + b, offs && b == MatchBit(ctx, n), x)
  {
    hide Put, BitOf, LitIndex, MatchBit;
  }

  lemma MatchedStep(ctx: Ctx, symbol: byte, n: nat, x: nat, mb: nat, offs: nat)
    requires 1 <= n <= 8 && x == Window(0x100 + symbol, n) && mb == Window(ctx.matchByte, n)
    requires offs == 0 || offs == 0x100
    ensures mb * 2 == Window(ctx.matchByte, n - 1)
    ensures offs + AndOffs(mb * 2, offs) + x / 0x100 == LitIndex(ctx, n, x / 0x100, offs == 0x100)
    ensures offs == 0x100 ==>
      (AndOffs(mb * 2, offs) == AndOffs(x * 2, offs) <==> x / 0x80 % 2 == MatchBit(ctx, n))
  {
    hide Pow2, Shr, BitOf, Window;
    LiteralStep(symbol, n, x);
    MatchStep(ctx.matchByte, n, mb);
  }

  // ----- The sliding window over a literal -----

  lemma WindowQuotient(w: nat, n: nat)
    requires n <= 8
    ensures w * Pow2(8 - n) / 0x100 == Shr(w, n)
  {
    var a, b := Pow2(8 - n), Pow2(n);
    Pow2Add(8 - n, n);
    Pow2Values();
    ShrIsQuotient(w, n);
    ScaleQuotient(w, a, b);
  }

  lemma ScaleQuotient(w: nat, a: nat, b: nat)
    requires a > 0 && b > 0
    ensures a * b > 0 && w * a / (a * b) == w / b
  {
    var q, r := w / b, w % b;
    NestedRemainder(a, b, q, r, 0);
    QuotientUnique(w * a, a * b, q, a * r);
  }

  lemma LiteralStart(symbol: byte)
    ensures Pow2(0) == 1 && Shr(0x100 + symbol, 8) == 1
  {
    Pow2Values();
    TreeRoot(8, symbol);
  }

  lemma MatchStart(b: nat)
    ensures Window(b, 8) == b
  {
    Pow2Values();
  }

  lemma LiteralStep(symbol: byte, n: nat, x: nat)
    requires 1 <= n <= 8 && x == Window(0x100 + symbol, n)
    ensures x / 0x80 % 2 == BitOf(symbol, n - 1)
    ensures x * 2 == Window(0x100 + symbol, n - 1) && (x * 2 < 0x1_0000 <==> n > 1)
    ensures x * 2 / 0x100 == Shr(0x100 + symbol, n - 1) == 2 * Shr(0x100 + symbol, n) + BitOf(symbol, n - 1)
    ensures x * 2 / 0x100 % 2 == BitOf(symbol, n - 1)
  {
    hide Pow2, Shr, BitOf;
    var w := 0x100 + symbol;
    WindowQuotient(w, n - 1);
    Twice(w, 8 - n);
    LiteralBit(symbol, n);
    WindowEnd(w, n - 1);
    HalfQuotient(x, Shr(w, n), BitOf(symbol, n - 1));
  }

  lemma HalfQuotient(x: nat, q: nat, b: bit)
    requires x * 2 / 0x100 == 2 * q + b
    ensures x / 0x80 % 2 == b && x * 2 / 0x100 % 2 == b
  {
    QuotientUnique(2 * q + b, 2, q, b);
  }

  lemma LiteralBit(symbol: byte, n: nat)
    requires 1 <= n <= 8
    ensures Shr(0x100 + symbol, n - 1) == 2 * Shr(0x100 + symbol, n) + BitOf(symbol, n - 1)
  {
    Pow2Values();
    LeadingOne(8, symbol, n - 1);
  }

  lemma WindowEnd(w: nat, n: nat)
    requires n < 8 && 0x100 <= w < 0x200
    ensures w * Pow2(8 - n) < 0x1_0000 <==> n > 0
  {
    if n == 0 {
      Pow2Values();
    } else {
      Pow2Monotone(8 - n, 7);
      assert Pow2(7) == 0x80;
      MulMonotone(w, Pow2(8 - n), 0x80);
    }
  }

  lemma MatchStep(matchByte: byte, n: nat, mb: nat)
    requires 1 <= n <= 8 && mb == Window(matchByte, n)
    ensures mb * 2 == Window(matchByte, n - 1)
    ensures mb * 2 / 0x100 % 2 == BitOf(matchByte, n - 1)
  {
    WindowQuotient(matchByte, n - 1);
    Twice(matchByte, 8 - n);
  }
}
