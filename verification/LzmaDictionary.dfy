/** The circular output buffer of the decoder and the history it keeps. */
module LzmaDictionary {
  import opened Numbers
  import opened LzmaMachine

  /** Where the byte `d` back from `dicPos` lies. */
  function DicIndex(dicPos: nat, d: nat, size: nat): int {
    dicPos - d + if dicPos < d then size else 0
  }

  /** The buffer holds the latest bytes of the history `w`, and is large enough for every
      distance a stream may use. */
  ghost predicate DicHolds(pr: Props, dic: seq<byte>, dicPos: nat, w: seq<byte>) {
    dicPos <= |dic| && (pr.dicSize <= |dic| || |w| == dicPos)
    && forall d | 1 <= d <= |w| && d <= |dic| :: InDic(dic, dicPos, w, d)
  }

  predicate InDic(dic: seq<byte>, dicPos: nat, w: seq<byte>, d: nat)
    requires 1 <= d <= |w| && d <= |dic| && dicPos <= |dic|
  {
    dic[DicIndex(dicPos, d, |dic|)] == w[|w| - d]
  }

  lemma DicAt(pr: Props, dic: seq<byte>, dicPos: nat, w: seq<byte>, d: nat)
    requires DicHolds(pr, dic, dicPos, w) && 1 <= d <= |w| && d <= pr.dicSize
    ensures 0 <= DicIndex(dicPos, d, |dic|) < |dic| && dic[DicIndex(dicPos, d, |dic|)] == w[|w| - d]
  {
    assert InDic(dic, dicPos, w, d);
  }

  lemma DicAppend(pr: Props, dic: seq<byte>, dicPos: nat, w: seq<byte>, b: byte)
    requires DicHolds(pr, dic, dicPos, w) && dicPos < |dic|
    ensures DicHolds(pr, dic[dicPos := b], dicPos + 1, w + [b])
  {
    var dic', w', pos' := dic[dicPos := b], w + [b], dicPos + 1;
    forall d | 1 <= d <= |w'| && d <= |dic'| ensures InDic(dic', pos', w', d) {
      if d > 1 { assert InDic(dic, dicPos, w, d - 1); }
    }
  }

  lemma CopyFirst(w: seq<byte>, d: nat, n: nat)
    requires 1 <= d <= |w| && n > 0
    ensures Copy(w, d, n) == Copy(w + [w[|w| - d]], d, n - 1)
  {
  }

  lemma CopyNothing(w: seq<byte>, d: nat)
    requires 1 <= d <= |w|
    ensures Copy(w, d, 0) == w
  {
  }

  /** A copy may be made in two parts. */
  lemma {:induction false} CopyAdd(w: seq<byte>, d: nat, a: nat, b: nat)
    requires 1 <= d <= |w|
    ensures Copy(w, d, a + b) == Copy(Copy(w, d, a), d, b)
    decreases a
  {
    hide Copy;
    if a == 0 {
      CopyNothing(w, d);
    } else {
      CopyFirst(w, d, a);
      CopyFirst(w, d, a + b);
      CopyAdd(w + [w[|w| - d]], d, a - 1, b);
    }
  }

  lemma CopyOne(w: seq<byte>, d: nat, n: nat)
    requires 1 <= d <= |w|
    ensures var c := Copy(w, d, n); Copy(w, d, n + 1) == c + [c[|c| - d]]
  {
    CopyAdd(w, d, n, 1);
    var c := Copy(w, d, n);
    assert Copy(c + [c[|c| - d]], d, 0) == c + [c[|c| - d]];
  }

  /** Masks narrower than a word see the position although the counter wraps. */
  lemma LowOfWrapped(n: nat, k: nat)
    requires k <= 32
    ensures Low(n % WORD, k) == Low(n, k)
  {
    Pow2Add(k, 32 - k);
    Pow2Values();
    hide Pow2;
    Wrapped(n, Pow2(k), Pow2(32 - k));
  }

  lemma Wrapped(n: nat, d: nat, p: nat)
    requires d * p == WORD && d > 0
    ensures n % WORD % d == n % d
  {
    var q := n / WORD;
    assert n == WORD * q + n % WORD;
    assert d * (p * q) == (d * p) * q;
    QuotientPlus(n, n % WORD, d, p * q);
  }
}
