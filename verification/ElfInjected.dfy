/** What loading a file with injected data comes to: the stub as it was, and the data behind its
    last segment, at the address that inject_elf returns - exactly when bit 30 of the segment's
    physical address is clear. */
module ElfInjected {
  import opened Numbers
  import opened Elf32
  import opened ElfStrip
  import opened ElfStripped
  import opened ElfLoad
  import opened ElfMeaning
  import opened ElfInject

  ghost predicate Injectable(f: seq<byte>, src: seq<byte>) {
    LastEnds(f) && |Stripped(f)| + Pad(End(LastPhdr(f))) + Ceil(|src|) < WORD
  }

  ghost function Packed(f: seq<byte>, src: seq<byte>): seq<byte>
    requires Injectable(f, src)
  {
    Injected(Stripped(f), 32 + 32 * |Kept(f, PhNum(f))|, LastPhdr(f), src)
  }

  ghost function Extra(f: seq<byte>, src: seq<byte>): nat
    requires Injectable(f, src)
  {
    Pad(End(LastPhdr(f))) + Ceil(|src|)
  }

  // ----- The bytes of the packed file -----

  /** Before the data, only the last header has changed. */
  lemma PackedBytes(f: seq<byte>, src: seq<byte>, i: nat, j: nat)
    requires Injectable(f, src) && i <= j
    ensures var o, e := 32 + 32 * |Kept(f, PhNum(f))|, LastPhdr(f).offset + LastPhdr(f).filesz;
            && o + 32 <= e <= |Stripped(f)| <= |Packed(f, src)|
            && ((j <= o || (o + 32 <= i && j <= e)) ==> Packed(f, src)[i..j] == Stripped(f)[i..j])
  {
    hide Stripped, Kept, LastPhdr, Blit, PhdrBytes, Pad, End, Ceil, Zeros, Grown;
    var s, o, h := Stripped(f), 32 + 32 * |Kept(f, PhNum(f))|, LastPhdr(f);
    LastThere(f, s);
    var e, size := h.offset + h.filesz, Extra(f, src);
    if j <= o || (o + 32 <= i && j <= e) {
      NotWritten(s, size, e + Pad(End(h)), src, o, PhdrBytes(Grown(h, size)), i, j);
    }
  }

  lemma NotWritten(s: seq<byte>, size: nat, at: nat, x: seq<byte>, o: nat, p: seq<byte>, i: nat, j: nat)
    requires at + |x| <= |s| + size && o + |p| <= |s| && i <= j <= |s|
    requires j <= at && (j <= o || o + |p| <= i)
    ensures Blit(Blit(s + Zeros(size), at, x), o, p)[i..j] == s[i..j]
  {
    hide Blit, Zeros;
    var t := s + Zeros(size);
    BlitApart(t, at, x, i, j);
    BlitApart(Blit(t, at, x), o, p, i, j);
    assert t[i..j] == s[i..j];
  }

  lemma PackedData(f: seq<byte>, src: seq<byte>)
    requires Injectable(f, src)
    ensures var p := LastPhdr(f).offset + LastPhdr(f).filesz + Pad(End(LastPhdr(f)));
            p + |src| <= |Packed(f, src)| && Packed(f, src)[p..p + |src|] == src
    ensures var o := 32 + 32 * |Kept(f, PhNum(f))|;
            o + 32 <= |Packed(f, src)| && Packed(f, src)[o..o + 32] == PhdrBytes(Grown(LastPhdr(f), Extra(f, src)))
  {
    hide Stripped, Kept, LastPhdr, Blit, PhdrBytes, Pad, End, Ceil, Zeros, Grown;
    var s, o, h := Stripped(f), 32 + 32 * |Kept(f, PhNum(f))|, LastPhdr(f);
    LastThere(f, s);
    var p, size := h.offset + h.filesz + Pad(End(h)), Extra(f, src);
    var u := Blit(s + Zeros(size), p, src);
    BlitApart(u, o, PhdrBytes(Grown(h, size)), p, p + |src|);
  }

  // ----- Its headers -----

  lemma PackedHeader(f: seq<byte>, src: seq<byte>)
    requires Injectable(f, src)
    ensures HasPhdrs(Packed(f, src)) && HasPhdrs(Stripped(f))
    ensures PhNum(Packed(f, src)) == PhNum(Stripped(f)) == |Kept(f, PhNum(f))|
    ensures Word(Packed(f, src), 28) == Word(Stripped(f), 28) == 64
    ensures Entry(Packed(f, src)) == Entry(Stripped(f)) == Entry(f)
  {
    hide Stripped, Kept, EhdrBytes, Packed, LastPhdr, Half, Word;
    var s, t, n := Stripped(f), Packed(f, src), |Kept(f, PhNum(f))|;
    LastThere(f, s);
    StrippedHeader(f);
    PackedBytes(f, src, 0, 64);
    assert s[..64] == s[0..64] && t[..64] == t[0..64];
    EhdrBack(s, Entry(f), n);
    EhdrBack(t, Entry(f), n);
  }

  lemma PackedPhdr(f: seq<byte>, src: seq<byte>, k: nat)
    requires Injectable(f, src) && k < |Kept(f, PhNum(f))|
    requires HasPhdrs(Packed(f, src)) && PhNum(Packed(f, src)) == |Kept(f, PhNum(f))| && Word(Packed(f, src), 28) == 64
    requires HasPhdrs(Stripped(f)) && PhNum(Stripped(f)) == |Kept(f, PhNum(f))| && Word(Stripped(f), 28) == 64
    ensures PhdrOf(Packed(f, src), k)
         == if k < |Kept(f, PhNum(f))| - 1 then PhdrOf(Stripped(f), k) else Grown(LastPhdr(f), Extra(f, src))
    ensures k == |Kept(f, PhNum(f))| - 1 ==> PhdrOf(Stripped(f), k) == LastPhdr(f)
  {
    hide Stripped, Kept, Packed, LastPhdr, Half, Word, PhdrAt, PhdrBytes, Grown, Pad, Ceil, End;
    var s, t, o := Stripped(f), Packed(f, src), 64 + 32 * k;
    LastThere(f, s);
    if k < |Kept(f, PhNum(f))| - 1 {
      PackedBytes(f, src, o, o + 32);
      SamePhdr(t, o, s, o);
    } else {
      PackedData(f, src);
      PhdrBack(t, o, Grown(LastPhdr(f), Extra(f, src)));
    }
  }

  // ----- Loading it -----

  /** The last of the headers works on what the ones before it leave. */
  lemma {:induction false} IdealLast(f: seq<byte>, hs: seq<Phdr>, h: Phdr, m: seq<byte>)
    requires |f| >= EHDR_SIZE && Ideal(f, hs + [h], m).Done? && Ideal(f, hs + [h], m).entry != 0
    ensures Ideal(f, hs, m).Done? && Ideal(f, hs, m).entry == Entry(f) == Ideal(f, hs + [h], m).entry
    ensures |Ideal(f, hs, m).mem| == |m|
    ensures IdealOne(f, h, Ideal(f, hs, m).mem) == Next(Ideal(f, hs + [h], m).mem)
    decreases |hs|
  {
    hide IdealOne, Entry;
    var t := hs + [h];
    if hs == [] {
      assert t[0] == h && t[1..] == [];
      NothingKept(f, m);
      var r := IdealOne(f, h, m);
      if r.Next? { NothingKept(f, r.mem); }
    } else {
      assert t[0] == hs[0] && t[1..] == hs[1..] + [h];
      IdealLast(f, hs[1..], h, IdealOne(f, hs[0], m).mem);
    }
  }

  /** A header and its segment are the same in two files. */
  ghost predicate SameSegment(s: seq<byte>, t: seq<byte>, h: Phdr) {
    && h.offset + h.filesz <= |s| && h.offset + h.filesz <= |t|
    && s[h.offset..h.offset + h.filesz] == t[h.offset..h.offset + h.filesz]
  }

  lemma {:induction false} IdealSame(s: seq<byte>, t: seq<byte>, hs: seq<Phdr>, m: seq<byte>)
    requires |s| >= EHDR_SIZE && |t| >= EHDR_SIZE && Entry(s) == Entry(t)
    requires forall k :: 0 <= k < |hs| ==> SameSegment(s, t, hs[k])
    ensures Ideal(s, hs, m) == Ideal(t, hs, m)
    decreases |hs|
  {
    hide Translate, Blit, Entry;
    if hs != [] {
      assert SameSegment(s, t, hs[0]);
      assert forall k :: 0 <= k < |hs| - 1 ==> hs[1..][k] == hs[k + 1];
      var step := IdealOne(s, hs[0], m);
      if step.Next? { IdealSame(s, t, hs[1..], step.mem); }
    }
  }

  lemma {:induction false} AllAt(f: seq<byte>, n: nat, k: nat)
    requires HasPhdrs(f) && k < n <= PhNum(f)
    ensures AllPhdrs(f, n)[k] == PhdrOf(f, k)
    decreases n
  {
    hide PhdrOf;
    if k < n - 1 { AllAt(f, n - 1, k); }
  }

  lemma {:induction false} AllSame(s: seq<byte>, t: seq<byte>, n: nat)
    requires HasPhdrs(s) && HasPhdrs(t) && n <= PhNum(s) && n <= PhNum(t)
    requires forall k: nat :: k < n ==> PhdrOf(s, k) == PhdrOf(t, k)
    ensures AllPhdrs(s, n) == AllPhdrs(t, n)
    decreases n
  {
    hide PhdrOf;
    if n > 0 { AllSame(s, t, n - 1); }
  }

  /** All headers but the last are loaded from the packed file as from the stub. */
  lemma StubPart(f: seq<byte>, src: seq<byte>, m: seq<byte>)
    requires Injectable(f, src)
    ensures HasPhdrs(Packed(f, src)) && HasPhdrs(Stripped(f))
    ensures var s, t, n := Stripped(f), Packed(f, src), |Kept(f, PhNum(f))|;
            && PhNum(s) == PhNum(t) == n > 0
            && Entry(s) == Entry(t) && AllPhdrs(s, n - 1) == AllPhdrs(t, n - 1)
            && Ideal(s, AllPhdrs(s, n - 1), m) == Ideal(t, AllPhdrs(t, n - 1), m)
  {
    hide Stripped, Kept, Packed, LastPhdr, Half, Word, PhdrAt, PhdrOf, Ideal, Extra, Entry, SameSegment;
    var s, t, n := Stripped(f), Packed(f, src), |Kept(f, PhNum(f))|;
    PackedHeader(f, src);
    forall k: nat | k < n - 1 ensures PhdrOf(s, k) == PhdrOf(t, k) { PackedPhdr(f, src, k); }
    AllSame(s, t, n - 1);
    var hs := AllPhdrs(s, n - 1);
    forall k | 0 <= k < |hs| ensures SameSegment(s, t, hs[k]) {
      AllAt(s, n - 1, k);
      EarlierSegment(f, src, k, PhdrOf(s, k));
    }
    IdealSame(s, t, hs, m);
  }

  lemma EarlierSegment(f: seq<byte>, src: seq<byte>, k: nat, h: Phdr)
    requires Injectable(f, src) && k < |Kept(f, PhNum(f))| - 1
    requires HasPhdrs(Stripped(f)) && PhNum(Stripped(f)) == |Kept(f, PhNum(f))| && Word(Stripped(f), 28) == 64
    requires h == PhdrOf(Stripped(f), k)
    ensures SameSegment(Stripped(f), Packed(f, src), h)
  {
    hide Stripped, Kept, Packed, Place, PhdrAt, Extra, Half, Word;
    var ks := Kept(f, PhNum(f));
    StrippedPhdr(f, k);
    PlacesApart(f, k, |ks| - 1);
    RoomUpTo(k, |ks|);
    PackedBytes(f, src, h.offset, h.offset + h.filesz);
  }

  lemma {:induction false} IdealThen(f: seq<byte>, hs: seq<Phdr>, h: Phdr, m: seq<byte>, m1: seq<byte>, m2: seq<byte>)
    requires |f| >= EHDR_SIZE && Entry(f) != 0 && Ideal(f, hs, m) == Done(m1, Entry(f))
    requires IdealOne(f, h, m1) == Next(m2)
    ensures Ideal(f, hs + [h], m) == Done(m2, Entry(f))
    decreases |hs|
  {
    hide IdealOne, Entry;
    var t := hs + [h];
    if hs == [] {
      assert t[0] == h && t[1..] == [];
      NothingKept(f, m);
      NothingKept(f, m2);
    } else {
      assert t[0] == hs[0] && t[1..] == hs[1..] + [h];
      IdealThen(f, hs[1..], h, IdealOne(f, hs[0], m).mem, m1, m2);
    }
  }

  /** The last segment, in the stub and in the packed file. */
  lemma LastSegment(f: seq<byte>, src: seq<byte>, m: seq<byte>, m': seq<byte>, tail: seq<byte>)
    requires Injectable(f, src) && IdealOne(Packed(f, src), Grown(LastPhdr(f), Extra(f, src)), m) == Next(m')
    requires var e := LastPhdr(f).offset + LastPhdr(f).filesz;
             e + Extra(f, src) <= |Packed(f, src)| && tail == Packed(f, src)[e..e + Extra(f, src)]
    ensures var h, at := LastPhdr(f), Translate(LastPhdr(f).paddr) + LastPhdr(f).filesz;
            && at + |tail| <= |m| == |m'|
            && IdealOne(Stripped(f), h, m).Next? && m' == Blit(IdealOne(Stripped(f), h, m).mem, at, tail)
  {
    hide Stripped, Kept, Packed, LastPhdr, Blit, Translate, Extra;
    var s, t, h, size := Stripped(f), Packed(f, src), LastPhdr(f), Extra(f, src);
    var e, x := h.offset + h.filesz, s[h.offset..h.offset + h.filesz];
    LastLoads(f);
    PackedBytes(f, src, h.offset, e);
    Joined(t, h.offset, e, e + size);
    BlitTwice(m, Translate(h.paddr), x, tail);
  }

  lemma Joined(t: seq<byte>, a: nat, b: nat, c: nat)
    requires a <= b <= c <= |t|
    ensures t[a..c] == t[a..b] + t[b..c]
  {
  }

  lemma LastLoads(f: seq<byte>)
    requires LastEnds(f)
    ensures LastPhdr(f).kind == PT_LOAD && LastPhdr(f).filesz >= 1
    ensures LastPhdr(f).offset >= 32 + 32 * |Kept(f, PhNum(f))| + 32
  {
    hide Kept, Stripped, Place;
    KeptLoads(f, |Kept(f, PhNum(f))| - 1);
    LastThere(f, Stripped(f));
  }

  /** Memory r is memory q with the end of the packed file behind the last segment, and src in it. */
  ghost predicate DataBehind(f: seq<byte>, src: seq<byte>, q: seq<byte>, r: seq<byte>)
    requires Injectable(f, src)
  {
    var t, h, size := Packed(f, src), LastPhdr(f), Extra(f, src);
    var e, at := h.offset + h.filesz, Translate(h.paddr) + h.filesz;
    && e + size <= |t| && at + size <= |q| && Pad(End(h)) + |src| <= size
    && r == Blit(q, at, t[e..e + size])
    && r[at + Pad(End(h))..at + Pad(End(h)) + |src|] == src
  }

  /** The packed file loads as the stub does, with the padding and the data behind the last
      segment; the data is where the padding ends. */
  lemma InjectedLoads(f: seq<byte>, src: seq<byte>, m: seq<byte>)
    requires Injectable(f, src)
    requires HasPhdrs(Packed(f, src)) && HasPhdrs(Stripped(f))
    requires var t := Packed(f, src); var r := Ideal(t, AllPhdrs(t, PhNum(t)), m); r.Done? && r.entry != 0
    ensures var s, t := Stripped(f), Packed(f, src);
            var q, r := Ideal(s, AllPhdrs(s, PhNum(s)), m), Ideal(t, AllPhdrs(t, PhNum(t)), m);
            q.Done? && q.entry == r.entry && |q.mem| == |m| && DataBehind(f, src, q.mem, r.mem)
  {
    hide Stripped, Kept, Packed, LastPhdr, Blit, Translate, Ideal, IdealOne, PhdrOf, Grown, Entry, Pad, End, Ceil,
      HasPhdrs, Half, Word;
    var s, t, h, n, size := Stripped(f), Packed(f, src), LastPhdr(f), |Kept(f, PhNum(f))|, Extra(f, src);
    var e, at := h.offset + h.filesz, Translate(h.paddr) + h.filesz;
    PackedHeader(f, src);
    StubPart(f, src, m);
    PackedPhdr(f, src, n - 1);
    PackedData(f, src);
    PackedBytes(f, src, 0, 0);
    PackedSize(f, src);
    var hs := AllPhdrs(t, n - 1);
    var g := Grown(h, size);
    assert AllPhdrs(t, n) == hs + [g] && AllPhdrs(s, n) == hs + [h];
    IdealLast(t, hs, g, m);
    var m1, m2, tail := Ideal(t, hs, m).mem, Ideal(t, hs + [g], m).mem, t[e..e + size];
    LastSegment(f, src, m1, m2, tail);
    IdealThen(s, hs, h, m, m1, IdealOne(s, h, m1).mem);
    SliceOfSlice(t, e, e + size, Pad(End(h)), Pad(End(h)) + |src|);
    DataIn(IdealOne(s, h, m1).mem, at, tail, Pad(End(h)), src);
  }

  lemma PackedSize(f: seq<byte>, src: seq<byte>)
    requires Injectable(f, src)
    ensures |Packed(f, src)| == |Stripped(f)| + Extra(f, src)
    ensures Pad(End(LastPhdr(f))) + |src| <= Extra(f, src)
  {
    hide Stripped, Kept, LastPhdr, Blit, Zeros, Pad, End, PhdrBytes, Grown;
  }

  lemma DataIn(m: seq<byte>, at: nat, tail: seq<byte>, pad: nat, src: seq<byte>)
    requires at + |tail| <= |m| && pad + |src| <= |tail| && tail[pad..pad + |src|] == src
    ensures Blit(m, at, tail)[at + pad..at + pad + |src|] == src
  {
    hide Blit;
    var b := Blit(m, at, tail);
    SliceOfSlice(b, at, at + |tail|, pad, pad + |src|);
  }

  /** Bit 30 of the segment's physical address is clear, and its end, as the loader translates it,
      still has an address. */
  predicate Addressed(h: Phdr) {
    h.paddr / 0x4000_0000 % 2 == 0 && h.paddr % 0x4000_0000 + h.filesz + Pad(End(h)) < 0x8000_0000
  }

  /** Exactly then the returned address is where the data is at run time. */
  lemma DataAddrExact(h: Phdr)
    requires h.filesz + Pad(End(h)) < WORD
    ensures OrTop((h.paddr + h.filesz + Pad(End(h))) % WORD) == Translate(h.paddr) + h.filesz + Pad(End(h))
        <==> Addressed(h)
  {
    hide Pad, End;
  }

  lemma LastIsSmall(f: seq<byte>, src: seq<byte>)
    requires Injectable(f, src)
    ensures LastPhdr(f).filesz + Pad(End(LastPhdr(f))) < WORD
  {
    hide Stripped, Kept, LastPhdr, Pad, End, Strippable;
  }

  /** The data is at the address that inject_elf returns. */
  lemma DataAtReturned(f: seq<byte>, src: seq<byte>, m: seq<byte>, dataaddr: word)
    requires Injectable(f, src)
    requires HasPhdrs(Packed(f, src)) && HasPhdrs(Stripped(f))
    requires var t := Packed(f, src); var r := Ideal(t, AllPhdrs(t, PhNum(t)), m); r.Done? && r.entry != 0
    requires var h := LastPhdr(f); dataaddr == OrTop((h.paddr + h.filesz + Pad(End(h))) % WORD)
    requires Addressed(LastPhdr(f))
    ensures var t := Packed(f, src); var r := Ideal(t, AllPhdrs(t, PhNum(t)), m).mem;
            dataaddr + |src| <= |r| && r[dataaddr..dataaddr + |src|] == src
  {
    hide Stripped, Kept, Packed, LastPhdr, Ideal, AllPhdrs, Translate, OrTop, Pad, End, Ceil, HasPhdrs, PhNum,
      Addressed;
    InjectedLoads(f, src, m);
    LastIsSmall(f, src);
    DataAddrExact(LastPhdr(f));
  }
}
