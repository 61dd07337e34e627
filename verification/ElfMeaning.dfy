/** Stripping an ELF file does not change what the stub makes of it: although the loader clears
    each segment behind the copy, memory outside of the image ends as an in-order load of the
    original file leaves it. */
module ElfMeaning {
  import opened Numbers
  import opened Elf32
  import opened ElfStrip
  import opened ElfStripped
  import opened ElfLoad

  // ----- The ideal load -----

  /** A header's segment is copied out of a file that nothing changes. */
  function IdealOne(f: seq<byte>, h: Phdr, m: seq<byte>): (r: Step)
    ensures r.Next? ==> |r.mem| == |m|
    ensures r.Refuse? ==> r.mem == m
  {
    if h.kind != PT_LOAD then Next(m)
    else if h.filesz > h.memsz then Refuse(m)
    else if h.filesz == 0 then Next(m)
    else if Translate(h.paddr) + h.filesz > |m| || h.offset + h.filesz > |f| then Crash
    else Next(Blit(m, Translate(h.paddr), f[h.offset..h.offset + h.filesz]))
  }

  function Ideal(f: seq<byte>, hs: seq<Phdr>, m: seq<byte>): Loaded
    requires |f| >= EHDR_SIZE
  {
    if hs == [] then Done(m, Entry(f))
    else
      match IdealOne(f, hs[0], m)
      case Crash => Fault
      case Refuse(m') => Done(m', 0)
      case Next(m') => Ideal(f, hs[1..], m')
  }

  ghost function AllPhdrs(f: seq<byte>, n: nat): (r: seq<Phdr>)
    requires HasPhdrs(f) && n <= PhNum(f)
    ensures |r| == n
  {
    if n == 0 then [] else AllPhdrs(f, n - 1) + [PhdrOf(f, n - 1)]
  }

  /** The segment of h does not touch the memory from addr to end. */
  predicate Clear(h: Phdr, addr: nat, end: nat) {
    Translate(h.paddr) + h.filesz <= addr || end <= Translate(h.paddr)
  }

  // ----- One step of the loader beside one of the ideal load -----

  /** c and d agree outside of the image. */
  ghost predicate SameOutside(c: seq<byte>, d: seq<byte>, addr: nat, len: nat) {
    |c| == |d| && addr + len <= |c| && c[..addr] == d[..addr] && c[addr + len..] == d[addr + len..]
  }

  /** The image s at addr still has its header, the program headers from k on, and their segments. */
  ghost predicate Intact(c: seq<byte>, addr: nat, s: seq<byte>, ks: seq<Phdr>, k: nat) {
    && k <= |ks| && 64 + 32 * k <= Base(|ks|) <= Place(ks, k) <= |s| && addr + |s| <= |c|
    && c[addr..addr + 64] == s[..64]
    && c[addr + 64 + 32 * k..addr + Base(|ks|)] == s[64 + 32 * k..Base(|ks|)]
    && c[addr + Place(ks, k)..addr + |s|] == s[Place(ks, k)..]
  }

  lemma BlitLow(m: seq<byte>, at: nat, x: seq<byte>, a: nat)
    requires at + |x| <= a <= |m|
    ensures Blit(m, at, x)[..a] == Blit(m[..a], at, x)
  {
  }

  lemma BlitHigh(m: seq<byte>, at: nat, x: seq<byte>, b: nat)
    requires b <= at && at + |x| <= |m|
    ensures Blit(m, at, x)[b..] == Blit(m[b..], at - b, x)
  {
  }

  lemma BlitEnds(m: seq<byte>, at: nat, x: seq<byte>, a: nat, b: nat)
    requires at + |x| <= |m| && a <= |m| && b <= |m|
    ensures a <= at ==> Blit(m, at, x)[..a] == m[..a]
    ensures at + |x| <= b ==> Blit(m, at, x)[b..] == m[b..]
  {
  }

  lemma BlitOutside(c: seq<byte>, d: seq<byte>, addr: nat, len: nat, at: nat, x: seq<byte>)
    requires SameOutside(c, d, addr, len) && at + |x| <= |c| && (at + |x| <= addr || addr + len <= at)
    ensures SameOutside(Blit(c, at, x), Blit(d, at, x), addr, len)
  {
    hide Blit;
    BlitEnds(c, at, x, addr, addr + len);
    BlitEnds(d, at, x, addr, addr + len);
    if at + |x| <= addr {
      BlitLow(c, at, x, addr);
      BlitLow(d, at, x, addr);
    } else {
      BlitHigh(c, at, x, addr + len);
      BlitHigh(d, at, x, addr + len);
    }
  }

  lemma BlitInside(c: seq<byte>, d: seq<byte>, addr: nat, len: nat, at: nat, x: seq<byte>)
    requires SameOutside(c, d, addr, len) && addr <= at && at + |x| <= addr + len
    ensures SameOutside(Blit(c, at, x), d, addr, len)
  {
    hide Blit;
    BlitEnds(c, at, x, addr, addr + len);
  }

  lemma IntactApart(c: seq<byte>, addr: nat, s: seq<byte>, ks: seq<Phdr>, k: nat, at: nat, x: seq<byte>)
    requires Intact(c, addr, s, ks, k) && at + |x| <= |c|
    requires at + |x| <= addr || addr + |s| <= at
    ensures Intact(Blit(c, at, x), addr, s, ks, k)
  {
    hide Blit, Place, Base;
    BlitApart(c, at, x, addr, addr + 64);
    BlitApart(c, at, x, addr + 64 + 32 * k, addr + Base(|ks|));
    BlitApart(c, at, x, addr + Place(ks, k), addr + |s|);
  }

  /** Writes into the k-th program header and the k-th segment leave the later ones alone. */
  lemma IntactBehind(c: seq<byte>, addr: nat, s: seq<byte>, ks: seq<Phdr>, k: nat, at: nat, x: seq<byte>)
    requires Intact(c, addr, s, ks, k) && k < |ks| && at + |x| <= |c| && Place(ks, k + 1) <= |s|
    requires (addr + 64 + 32 * k <= at && at + |x| <= addr + 64 + 32 * k + 32)
          || (addr + Place(ks, k) <= at && at + |x| <= addr + Place(ks, k + 1))
    ensures Intact(Blit(c, at, x), addr, s, ks, k + 1)
  {
    hide Blit, Place, Size;
    RoomUpTo(k, |ks|);
    PlacesGrow(ks, k, k + 1);
    BlitApart(c, at, x, addr, addr + 64);
    BlitApart(c, at, x, addr + 64 + 32 * k + 32, addr + Base(|ks|));
    BlitApart(c, at, x, addr + Place(ks, k + 1), addr + |s|);
    assert c[addr + 64 + 32 * k + 32..addr + Base(|ks|)] == c[addr + 64 + 32 * k..addr + Base(|ks|)][32..];
    assert s[64 + 32 * k + 32..Base(|ks|)] == s[64 + 32 * k..Base(|ks|)][32..];
    var g := Place(ks, k + 1) - Place(ks, k);
    assert c[addr + Place(ks, k + 1)..addr + |s|] == c[addr + Place(ks, k)..addr + |s|][g..];
    assert s[Place(ks, k + 1)..] == s[Place(ks, k)..][g..];
  }

  lemma HeaderThere(f: seq<byte>, s: seq<byte>, ks: seq<Phdr>, k: nat, addr: nat, c: seq<byte>)
    requires Strippable(f) && s == Stripped(f) && ks == Kept(f, PhNum(f)) && k < |ks|
    requires Intact(c, addr, s, ks, k)
    ensures addr + 64 + 32 * k + 32 <= |c| && Place(ks, k) < WORD
    ensures PhdrAt(c, addr + 64 + 32 * k) == Moved(ks[k], Place(ks, k))
  {
    hide Place, Size, Stripped, Kept, PhdrAt, Moved;
    StrippedPhdr(f, k);
    RoomUpTo(k, |ks|);
    var o := addr + 64 + 32 * k;
    assert c[o..o + 32] == c[o..addr + Base(|ks|)][..32];
    assert s[64 + 32 * k..64 + 32 * k + 32] == s[64 + 32 * k..Base(|ks|)][..32];
    SamePhdr(c, o, s, 64 + 32 * k);
  }

  lemma SegmentThere(f: seq<byte>, s: seq<byte>, ks: seq<Phdr>, k: nat, addr: nat, c: seq<byte>)
    requires Strippable(f) && s == Stripped(f) && ks == Kept(f, PhNum(f)) && k < |ks|
    requires Intact(c, addr, s, ks, k)
    ensures var p, n := Place(ks, k), ks[k].filesz;
            && addr + p + n <= addr + |s| <= |c| && ks[k].offset + n <= |f|
            && c[addr + p..addr + p + n] == f[ks[k].offset..ks[k].offset + n]
  {
    hide Place, Size, Stripped, Kept;
    var p, n := Place(ks, k), ks[k].filesz;
    StrippedSegment(f, k);
    assert c[addr + p..addr + p + n] == c[addr + p..addr + |s|][..n];
    assert s[p..p + n] == s[p..][..n];
  }

  lemma PlacesIn(f: seq<byte>, ks: seq<Phdr>, k: nat)
    requires Strippable(f) && ks == Kept(f, PhNum(f)) && k < |ks|
    ensures Base(|ks|) <= Place(ks, k) && Place(ks, k) + ks[k].filesz <= Place(ks, k + 1) <= |Stripped(f)|
    ensures 64 + 32 * k + 32 <= Base(|ks|)
  {
    hide Place, Size, Stripped, Kept;
    RoomUpTo(k, |ks|);
    PlaceFirst(ks, k);
    PlaceNext(ks, k);
    PlacesGrow(ks, k + 1, |ks|);
    PlaceLast(f);
  }

  lemma SameLength(c: seq<byte>, d: seq<byte>, addr: nat, len: nat)
    requires SameOutside(c, d, addr, len)
    ensures |c| == |d|
  {
  }

  /** Where the loader is and what it found there: the ghost values of one step. */
  lemma Moves(f: seq<byte>, s: seq<byte>, ks: seq<Phdr>, k: nat, addr: nat, c: seq<byte>, d: seq<byte>, m1: seq<byte>)
    requires Strippable(f) && s == Stripped(f) && ks == Kept(f, PhNum(f)) && k < |ks|
    requires SameOutside(c, d, addr, |s|) && Intact(c, addr, s, ks, k) && Clear(ks[k], addr, addr + |s|)
    requires addr + 64 + 32 * k + 16 <= |c| && m1 == Blit(c, addr + 64 + 32 * k + 12, WordBytes(Translate(ks[k].paddr)))
    ensures |c| == |d| && SameOutside(m1, d, addr, |s|) && Intact(m1, addr, s, ks, k + 1)
    ensures addr + 64 + 32 * k + 32 <= |m1|
    ensures m1[addr + 64 + 32 * k + 16..addr + 64 + 32 * k + 20] == c[addr + 64 + 32 * k + 16..addr + 64 + 32 * k + 20]
    ensures var p, n := Place(ks, k), ks[k].filesz;
            && addr + p + n <= addr + |s| <= |c| && ks[k].offset + n <= |f|
            && m1[addr + p..addr + p + n] == f[ks[k].offset..ks[k].offset + n]
  {
    hide Place, Size, Stripped, Kept, Blit, Intact, SameOutside, WordBytes, Strippable, Clear, Base;
    PlacesIn(f, ks, k);
    SameLength(c, d, addr, |s|);
    SegmentThere(f, s, ks, k, addr, c);
    var o, w := addr + 64 + 32 * k, WordBytes(Translate(ks[k].paddr));
    BlitInside(c, d, addr, |s|, o + 12, w);
    IntactBehind(c, addr, s, ks, k, o + 12, w);
    BlitApart(c, o + 12, w, o + 16, o + 20);
    BlitApart(c, o + 12, w, addr + Place(ks, k), addr + Place(ks, k) + ks[k].filesz);
  }

  /** What the loader does for a header whose segment it can move without overlap. */
  lemma LoadOneIs(c: seq<byte>, addr: nat, o: nat, h: Phdr, m1: seq<byte>, x: seq<byte>)
    requires o + 32 <= |c| && PhdrAt(c, o) == h && h.kind == PT_LOAD && 1 <= h.filesz <= h.memsz
    requires m1 == Blit(c, o + 12, WordBytes(Translate(h.paddr)))
    requires Translate(h.paddr) + h.filesz <= |c| && addr + h.offset + h.filesz <= |c|
    requires Clear(h, addr + h.offset, addr + h.offset + h.filesz)
    requires x == m1[addr + h.offset..addr + h.offset + h.filesz]
    requires Word(Blit(m1, Translate(h.paddr), x), o + 16) == h.filesz
    ensures LoadOne(c, addr, o)
         == Next(Blit(Blit(m1, Translate(h.paddr), x), addr + h.offset, Zeros(h.filesz)))
  {
    hide PhdrAt, Blit, WordBytes, Copy, Word, Zeros, Translate;
    CopyApart(m1, Translate(h.paddr), addr + h.offset, h.filesz);
  }

  /** One kept header: the loader does to memory outside of the image what the ideal load does. */
  lemma StepSame(f: seq<byte>, s: seq<byte>, ks: seq<Phdr>, k: nat, addr: nat, c: seq<byte>, d: seq<byte>,
                 ideal: Step, actual: Step)
    requires Strippable(f) && s == Stripped(f) && ks == Kept(f, PhNum(f)) && k < |ks|
    requires SameOutside(c, d, addr, |s|) && Intact(c, addr, s, ks, k) && Clear(ks[k], addr, addr + |s|)
    requires ideal == IdealOne(f, ks[k], d) && actual == LoadOne(c, addr, addr + 64 + 32 * k)
    ensures ideal.Next? ==>
      actual.Next? && SameOutside(actual.mem, ideal.mem, addr, |s|) && Intact(actual.mem, addr, s, ks, k + 1)
    ensures ideal.Refuse? ==> actual.Refuse? && SameOutside(actual.mem, ideal.mem, addr, |s|)
  {
    hide Place, Size, Stripped, Kept, Blit, Intact, SameOutside, WordBytes, Strippable, Base, Copy, Word, Zeros,
      LoadOne, Translate, PhdrAt;
    var o, h, dst := addr + 64 + 32 * k, ks[k], Translate(ks[k].paddr);
    HeaderThere(f, s, ks, k, addr, c);
    KeptLoads(f, k);
    PlacesIn(f, ks, k);
    var m1 := Blit(c, o + 12, WordBytes(dst));
    Moves(f, s, ks, k, addr, c, d, m1);
    if ideal.Next? {
      var p, n, x := Place(ks, k), h.filesz, f[h.offset..h.offset + h.filesz];
      var m2 := Blit(m1, dst, x);
      SameSize(f, s, ks, k, addr, c, m1, dst, x);
      SizeRead(c, o, Moved(h, p));
      LoadOneIs(c, addr, o, Moved(h, p), m1, x);
      BlitOutside(m1, d, addr, |s|, dst, x);
      IntactApart(m1, addr, s, ks, k + 1, dst, x);
      BlitInside(m2, ideal.mem, addr, |s|, addr + p, Zeros(n));
      IntactCleared(m2, addr, s, ks, k, Zeros(n));
    } else if ideal.Refuse? {
      Refuses(c, addr, o, Moved(h, Place(ks, k)));
    }
  }

  lemma SizeRead(c: seq<byte>, o: nat, h: Phdr)
    requires o + 32 <= |c| && PhdrAt(c, o) == h
    ensures Word(c, o + 16) == h.filesz
  {
  }

  lemma Refuses(c: seq<byte>, addr: nat, o: nat, h: Phdr)
    requires o + 32 <= |c| && PhdrAt(c, o) == h && h.kind == PT_LOAD && h.filesz > h.memsz
    ensures LoadOne(c, addr, o) == Refuse(Blit(c, o + 12, WordBytes(Translate(h.paddr))))
  {
    hide PhdrAt, Blit, WordBytes, Copy, Word, Zeros, Translate;
  }

  lemma {:induction false} KeptLoads(f: seq<byte>, k: nat)
    requires Strippable(f) && k < |Kept(f, PhNum(f))|
    ensures Keeps(Kept(f, PhNum(f))[k])
  {
  }

  /** The size that the loader reads again is the size it read before. */
  lemma SameSize(f: seq<byte>, s: seq<byte>, ks: seq<Phdr>, k: nat, addr: nat, c: seq<byte>, m1: seq<byte>, dst: nat,
                 x: seq<byte>)
    requires |c| == |m1| && addr + 64 + 32 * k + 32 <= addr + |s| <= |c| && dst + |x| <= |m1|
    requires m1[addr + 64 + 32 * k + 16..addr + 64 + 32 * k + 20] == c[addr + 64 + 32 * k + 16..addr + 64 + 32 * k + 20]
    requires dst + |x| <= addr || addr + |s| <= dst
    ensures Word(Blit(m1, dst, x), addr + 64 + 32 * k + 16) == Word(c, addr + 64 + 32 * k + 16)
  {
    hide Blit, Word;
    var q := addr + 64 + 32 * k + 16;
    BlitApart(m1, dst, x, q, q + 4);
    SameWord(Blit(m1, dst, x), c, q);
  }

  lemma SameWord(a: seq<byte>, b: seq<byte>, q: nat)
    requires q + 4 <= |a| == |b| && a[q..q + 4] == b[q..q + 4]
    ensures Word(a, q) == Word(b, q)
  {
    var x, y := a[q..q + 4], b[q..q + 4];
    assert a[q] == x[0] && a[q + 1] == x[1] && a[q + 2] == x[2] && a[q + 3] == x[3];
    assert b[q] == y[0] && b[q + 1] == y[1] && b[q + 2] == y[2] && b[q + 3] == y[3];
  }

  /** Clearing the k-th segment once more leaves the later ones alone. */
  lemma IntactCleared(c: seq<byte>, addr: nat, s: seq<byte>, ks: seq<Phdr>, k: nat, x: seq<byte>)
    requires Intact(c, addr, s, ks, k + 1) && k < |ks| && Base(|ks|) <= Place(ks, k)
    requires Place(ks, k) + |x| <= Place(ks, k + 1) <= |s|
    ensures Intact(Blit(c, addr + Place(ks, k), x), addr, s, ks, k + 1)
  {
    hide Blit, Place, Base;
    BlitApart(c, addr + Place(ks, k), x, addr, addr + 64);
    BlitApart(c, addr + Place(ks, k), x, addr + 64 + 32 * (k + 1), addr + Base(|ks|));
    BlitApart(c, addr + Place(ks, k), x, addr + Place(ks, k + 1), addr + |s|);
  }

  // ----- The whole run -----

  /** The header that the loader reads. */
  lemma EhdrThere(f: seq<byte>, s: seq<byte>, ks: seq<Phdr>, k: nat, addr: nat, c: seq<byte>)
    requires Strippable(f) && s == Stripped(f) && ks == Kept(f, PhNum(f)) && Intact(c, addr, s, ks, k)
    ensures addr + 64 <= |c| && Word(c, addr + 24) == Entry(f) && Word(c, addr + 28) == 64
    ensures Half(c, addr + 42) == PHDR_SIZE && Half(c, addr + 44) == |ks|
    ensures ValidImage(c, addr) == 1
  {
    hide EhdrBytes, Stripped, Kept, Place, Size, Base;
    StrippedHeader(f);
    var t := c[addr..addr + 64];
    assert t[..64] == t;
    EhdrBack(t, Entry(f), |ks|);
    assert t[..4] == t[..7][..4] && c[addr..addr + 4] == t[..4];
    assert t[4] == t[..7][4] && t[5] == t[..7][5] && t[6] == t[..7][6];
  }

  lemma {:induction false} RunSame(f: seq<byte>, s: seq<byte>, ks: seq<Phdr>, k: nat, addr: nat, c: seq<byte>,
                                   d: seq<byte>)
    requires Strippable(f) && s == Stripped(f) && ks == Kept(f, PhNum(f)) && k <= |ks| && addr + EHDR_SIZE <= |c|
    requires SameOutside(c, d, addr, |s|) && Intact(c, addr, s, ks, k)
    requires forall j :: 0 <= j < |ks| ==> Clear(ks[j], addr, addr + |s|)
    requires Ideal(f, ks[k..], d).Done?
    ensures var r, i := LoadFrom(c, addr, addr + 64, k), Ideal(f, ks[k..], d);
            r.Done? && r.entry == i.entry && SameOutside(r.mem, i.mem, addr, |s|)
    decreases |ks| - k
  {
    hide Stripped, Kept, Strippable, Intact, SameOutside, LoadOne, IdealOne, Half, Word, Clear;
    EhdrThere(f, s, ks, k, addr, c);
    if k < |ks| {
      assert ks[k..][0] == ks[k] && ks[k..][1..] == ks[k + 1..];
      var ideal, actual := IdealOne(f, ks[k], d), LoadOne(c, addr, addr + 64 + 32 * k);
      StepSame(f, s, ks, k, addr, c, d, ideal, actual);
      if ideal.Next? {
        RunSame(f, s, ks, k + 1, addr, actual.mem, ideal.mem);
      }
    }
  }

  /** The kept headers alone: once the file is in memory, the stub's loader leaves memory outside
      of the image as the ideal load does, and returns the same entry point. Without any kept
      header it returns 0 and leaves memory alone. */
  lemma StripThenLoad(f: seq<byte>, m: seq<byte>, addr: nat)
    requires Strippable(f) && addr + |Stripped(f)| <= |m| && m[addr..addr + |Stripped(f)|] == Stripped(f)
    requires var ks := Kept(f, PhNum(f));
             forall j :: 0 <= j < |ks| ==> Clear(ks[j], addr, addr + |Stripped(f)|)
    requires Ideal(f, Kept(f, PhNum(f)), m).Done?
    ensures addr + EHDR_SIZE <= |m| && ValidImage(m, addr) == 1
    ensures var r, i, ks := LoadImage(m, addr), Ideal(f, Kept(f, PhNum(f)), m), Kept(f, PhNum(f));
            r.Done? && SameOutside(r.mem, i.mem, addr, |Stripped(f)|) && r.entry == if ks == [] then 0 else i.entry
  {
    hide Stripped, Kept, Ideal, Half, Word, Clear, ValidImage, LoadFrom;
    var s, ks := Stripped(f), Kept(f, PhNum(f));
    PlaceFirst(ks, 0);
    PlacesGrow(ks, 0, |ks|);
    PlaceLast(f);
    FreshImage(f, s, ks, addr, m);
    EhdrThere(f, s, ks, 0, addr, m);
    assert ks[0..] == ks;
    RunSame(f, s, ks, 0, addr, m, m);
    if ks == [] { NothingKept(f, m); }
  }

  lemma NothingKept(f: seq<byte>, m: seq<byte>)
    requires |f| >= EHDR_SIZE
    ensures Ideal(f, [], m) == Done(m, Entry(f))
  {
  }

  lemma FreshImage(f: seq<byte>, s: seq<byte>, ks: seq<Phdr>, addr: nat, m: seq<byte>)
    requires Base(|ks|) <= Place(ks, 0) <= |s| && addr + |s| <= |m| && m[addr..addr + |s|] == s
    ensures Intact(m, addr, s, ks, 0)
  {
    hide Place;
    var b, p := Base(|ks|), Place(ks, 0);
    SliceOfSlice(m, addr, addr + |s|, 0, 64);
    SliceOfSlice(m, addr, addr + |s|, 64, b);
    SliceOfSlice(m, addr, addr + |s|, p, |s|);
  }

  // ----- The headers that are dropped -----

  function Filtered(hs: seq<Phdr>): seq<Phdr> {
    if hs == [] then [] else (if Keeps(hs[0]) then [hs[0]] else []) + Filtered(hs[1..])
  }

  lemma {:induction false} FilteredLast(hs: seq<Phdr>, h: Phdr)
    ensures Filtered(hs + [h]) == Filtered(hs) + if Keeps(h) then [h] else []
    decreases |hs|
  {
    hide Keeps;
    var t, one := hs + [h], if Keeps(h) then [h] else [];
    if hs == [] {
      assert t[0] == h && t[1..] == [];
      assert one + [] == one && [] + one == one;
    } else {
      assert t[0] == hs[0] && t[1..] == hs[1..] + [h];
      FilteredLast(hs[1..], h);
    }
  }

  lemma {:induction false} KeptFiltered(f: seq<byte>, n: nat)
    requires HasPhdrs(f) && n <= PhNum(f)
    ensures Kept(f, n) == Filtered(AllPhdrs(f, n))
    decreases n
  {
    hide Keeps, Filtered, PhdrOf;
    if n > 0 {
      KeptFiltered(f, n - 1);
      FilteredLast(AllPhdrs(f, n - 1), PhdrOf(f, n - 1));
    } else {
      FilteredNone();
    }
  }

  lemma FilteredNone()
    ensures Filtered([]) == []
  {
  }

  /** A file that loads without its being refused loads the same without the headers that
      strip_elf drops. */
  lemma {:induction false} DroppedHarmless(f: seq<byte>, hs: seq<Phdr>, m: seq<byte>)
    requires |f| >= EHDR_SIZE && Ideal(f, hs, m).Done? && Ideal(f, hs, m).entry != 0
    ensures Ideal(f, Filtered(hs), m) == Ideal(f, hs, m)
    decreases |hs|
  {
    hide Translate, Blit;
    if hs != [] {
      var step := IdealOne(f, hs[0], m);
      assert step.Next?;
      DroppedHarmless(f, hs[1..], step.mem);
      if Keeps(hs[0]) {
        assert Filtered(hs)[0] == hs[0] && Filtered(hs)[1..] == Filtered(hs[1..]);
      } else {
        assert Filtered(hs) == Filtered(hs[1..]);
      }
    }
  }

  /** Stripping preserves meaning. For an original that loads and a place in memory that no
      segment goes to, the stub accepts the stripped file, leaves memory outside of the image as
      the original does, and starts at the same entry point - exactly when the original has
      anything to load at all. */
  lemma StripPreservesLoad(f: seq<byte>, m: seq<byte>, addr: nat)
    requires Strippable(f) && addr + |Stripped(f)| <= |m| && m[addr..addr + |Stripped(f)|] == Stripped(f)
    requires var ks := Kept(f, PhNum(f));
             forall j :: 0 <= j < |ks| ==> Clear(ks[j], addr, addr + |Stripped(f)|)
    requires var original := Ideal(f, AllPhdrs(f, PhNum(f)), m);
             original.Done? && original.entry != 0
    ensures addr + EHDR_SIZE <= |m| && ValidImage(m, addr) == 1
    ensures var r, original := LoadImage(m, addr), Ideal(f, AllPhdrs(f, PhNum(f)), m);
            && r.Done? && SameOutside(r.mem, original.mem, addr, |Stripped(f)|)
            && (r.entry == original.entry <==> Kept(f, PhNum(f)) != [])
  {
    hide Stripped, Kept, Ideal, Half, Word, Clear, ValidImage, LoadImage, AllPhdrs, SameOutside, Strippable, Filtered;
    HasOnes(f);
    KeptFiltered(f, PhNum(f));
    DroppedHarmless(f, AllPhdrs(f, PhNum(f)), m);
    StripThenLoad(f, m, addr);
  }

  lemma HasOnes(f: seq<byte>)
    requires Strippable(f)
    ensures HasPhdrs(f) && |f| >= EHDR_SIZE
  {
  }
}
