/** wiipax/client/main.c and wiipax/stub/main.c: the packer puts the compressed, stripped program
    behind the stub and tells the stub where it is; the stub unpacks and loads it. */
module WiiPax {
  import opened Numbers
  import opened Elf32
  import opened ElfStrip
  import opened ElfStripped
  import opened ElfLoad
  import opened ElfMeaning
  import opened ElfInject
  import opened ElfInjected

  // ----- What a load leaves in memory -----

  /** Header h loads nothing into the memory from a to b. */
  predicate Spares(h: Phdr, a: nat, b: nat) {
    h.kind != PT_LOAD || h.filesz == 0 || Clear(h, a, b)
  }

  /** A part of a segment that no later segment covers is in memory in the end. */
  lemma {:induction false} SegmentStays(t: seq<byte>, hs: seq<Phdr>, k: nat, o: nat, n: nat, m: seq<byte>)
    requires |t| >= EHDR_SIZE && Ideal(t, hs, m).Done? && Ideal(t, hs, m).entry != 0
    requires k < |hs| && hs[k].kind == PT_LOAD && hs[k].filesz > 0 && o + n <= hs[k].filesz
    requires forall j :: k < j < |hs| ==> Spares(hs[j], Translate(hs[k].paddr) + o, Translate(hs[k].paddr) + o + n)
    ensures hs[k].offset + hs[k].filesz <= |t|
    ensures var at, r := Translate(hs[k].paddr) + o, Ideal(t, hs, m).mem;
            at + n <= |r| && r[at..at + n] == t[hs[k].offset + o..hs[k].offset + o + n]
    decreases |hs|
  {
    hide Translate, Ideal, Entry, IdealOne;
    var last := |hs| - 1;
    var before := hs[..last];
    assert hs == before + [hs[last]];
    IdealLast(t, before, hs[last], m);
    var m1, m2 := Ideal(t, before, m).mem, Ideal(t, hs, m).mem;
    var dst := Translate(hs[k].paddr);
    if k == last {
      JustLoaded(t, hs[k], o, n, m1, m2);
    } else {
      SegmentStays(t, before, k, o, n, m);
      assert Spares(hs[last], dst + o, dst + o + n);
      StillThere(t, hs[last], dst + o, dst + o + n, m1, m2);
    }
  }

  lemma JustLoaded(t: seq<byte>, h: Phdr, o: nat, n: nat, m1: seq<byte>, m2: seq<byte>)
    requires IdealOne(t, h, m1) == Next(m2) && h.kind == PT_LOAD && h.filesz > 0 && o + n <= h.filesz
    ensures h.offset + h.filesz <= |t| && Translate(h.paddr) + o + n <= |m2|
    ensures m2[Translate(h.paddr) + o..Translate(h.paddr) + o + n] == t[h.offset + o..h.offset + o + n]
  {
    hide Translate, Blit;
    var dst := Translate(h.paddr);
    SliceOfSlice(m2, dst, dst + h.filesz, o, o + n);
    SliceOfSlice(t, h.offset, h.offset + h.filesz, o, o + n);
  }

  lemma StillThere(t: seq<byte>, h: Phdr, a: nat, b: nat, m1: seq<byte>, m2: seq<byte>)
    requires IdealOne(t, h, m1) == Next(m2) && Spares(h, a, b) && a <= b <= |m1|
    ensures |m2| == |m1| && m2[a..b] == m1[a..b]
  {
    hide Translate, Blit;
    if h.kind == PT_LOAD && h.filesz > 0 {
      BlitApart(m1, Translate(h.paddr), t[h.offset..h.offset + h.filesz], a, b);
    }
  }

  // ----- The file that ships -----

  /** The packed file with a struct in its k-th segment, `off` bytes in. */
  ghost predicate Shipped(f: seq<byte>, k: nat, off: nat, src: seq<byte>, struct: seq<byte>, out: seq<byte>) {
    && Injectable(f, src) && k < |Kept(f, PhNum(f))| && off + |struct| <= Kept(f, PhNum(f))[k].filesz
    && Place(Kept(f, PhNum(f)), k) + off + |struct| <= |Packed(f, src)|
    && out == Blit(Packed(f, src), Place(Kept(f, PhNum(f)), k) + off, struct)
  }

  /** The headers of the packed file: those kept from the stub, the last one grown. */
  ghost function PackedHeaders(f: seq<byte>, src: seq<byte>): seq<Phdr>
    requires Injectable(f, src)
  {
    PackedHeader(f, src);
    AllPhdrs(Packed(f, src), PhNum(Packed(f, src)))
  }

  lemma PackedHeadersAre(f: seq<byte>, src: seq<byte>, k: nat)
    requires Injectable(f, src) && k < |Kept(f, PhNum(f))|
    ensures var ks, hs := Kept(f, PhNum(f)), PackedHeaders(f, src);
            |hs| == |ks| && hs[k].kind == PT_LOAD && hs[k].paddr == ks[k].paddr
            && hs[k].offset == Place(ks, k) && 0 < ks[k].filesz <= hs[k].filesz
    ensures var ks, hs := Kept(f, PhNum(f)), PackedHeaders(f, src);
            k == |ks| - 1 ==> hs[k] == Grown(LastPhdr(f), Extra(f, src))
  {
    hide Kept, Packed, Stripped, Place, PhdrAt, PhdrOf, Half, Word, Pad, Ceil, End;
    var ks, s, t := Kept(f, PhNum(f)), Stripped(f), Packed(f, src);
    PackedHeader(f, src);
    AllAt(t, |ks|, k);
    PackedPhdr(f, src, k);
    StrippedPhdr(f, k);
    PhdrIs(s, k);
    KeptLoads(f, k);
  }

  lemma PhdrIs(s: seq<byte>, k: nat)
    requires HasPhdrs(s) && k < PhNum(s)
    ensures PhdrOf(s, k) == PhdrAt(s, Word(s, 28) + 32 * k)
  {
  }

  /** The struct changes no header. */
  lemma ShippedHeaders(f: seq<byte>, k: nat, off: nat, src: seq<byte>, struct: seq<byte>, out: seq<byte>)
    requires Shipped(f, k, off, src, struct, out)
    ensures HasPhdrs(out) && Entry(out) == Entry(f) && PhNum(out) == |Kept(f, PhNum(f))|
    ensures AllPhdrs(out, PhNum(out)) == PackedHeaders(f, src)
  {
    hide Kept, Packed, Stripped, Place, PhdrAt, PhdrOf, Half, Word, Pad, Ceil, End, EhdrBytes, Blit;
    var ks, t := Kept(f, PhNum(f)), Packed(f, src);
    var n := |ks|;
    var pos := Place(ks, k) + off;
    EndsSafe(f, src);
    PlaceFirst(ks, k);
    PackedHeader(f, src);
    BlitEnds(t, pos, struct, Base(n), |t|);
    HeadSame(t, out, Base(n));
    forall i: nat | i < n ensures PhdrOf(out, i) == PhdrOf(t, i) {
      RoomUpTo(i, n);
      PhdrIs(t, i);
      PhdrIs(out, i);
      HeadSlice(t, out, Base(n), 64 + 32 * i, 64 + 32 * i + 32);
      SamePhdr(out, 64 + 32 * i, t, 64 + 32 * i);
    }
    AllSame(out, t, n);
  }

  lemma EndsSafe(f: seq<byte>, src: seq<byte>)
    requires Injectable(f, src)
    ensures Strippable(f) && |Stripped(f)| <= |Packed(f, src)|
  {
    hide Kept, Stripped, LastPhdr, Blit, Zeros, Pad, End, Ceil, PhdrBytes, Grown;
  }

  lemma HeadSlice(t: seq<byte>, out: seq<byte>, b: nat, i: nat, j: nat)
    requires b <= |t| == |out| && t[..b] == out[..b] && i <= j <= b
    ensures out[i..j] == t[i..j]
  {
    assert t[i..j] == t[..b][i..j] && out[i..j] == out[..b][i..j];
  }

  /** The fields of the file header are those of the first 64 bytes. */
  lemma HeadSame(t: seq<byte>, out: seq<byte>, b: nat)
    requires 64 <= b <= |t| == |out| && t[..b] == out[..b]
    ensures Word(out, 24) == Word(t, 24) && Word(out, 28) == Word(t, 28)
    ensures Half(out, 42) == Half(t, 42) && Half(out, 44) == Half(t, 44)
  {
    hide Word, Half;
    HeadWord(t, out, b, 24);
    HeadWord(t, out, b, 28);
    HeadHalf(t, out, b, 42);
    HeadHalf(t, out, b, 44);
  }

  lemma HeadWord(t: seq<byte>, out: seq<byte>, b: nat, o: nat)
    requires o + 4 <= b <= |t| == |out| && t[..b] == out[..b]
    ensures Word(out, o) == Word(t, o)
  {
    var x, y := t[..b], out[..b];
    assert t[o] == x[o] && t[o + 1] == x[o + 1] && t[o + 2] == x[o + 2] && t[o + 3] == x[o + 3];
    assert out[o] == y[o] && out[o + 1] == y[o + 1] && out[o + 2] == y[o + 2] && out[o + 3] == y[o + 3];
  }

  lemma HeadHalf(t: seq<byte>, out: seq<byte>, b: nat, o: nat)
    requires o + 2 <= b <= |t| == |out| && t[..b] == out[..b]
    ensures Half(out, o) == Half(t, o)
  {
    var x, y := t[..b], out[..b];
    assert t[o] == x[o] && t[o + 1] == x[o + 1] && out[o] == y[o] && out[o + 1] == y[o + 1];
  }

  /** Where the data of a packed file is at run time. */
  ghost function DataAt(f: seq<byte>): nat
    requires LastEnds(f)
  {
    Translate(LastPhdr(f).paddr) + LastPhdr(f).filesz + Pad(End(LastPhdr(f)))
  }

  /** Where the struct is at run time. */
  ghost function StructAt(f: seq<byte>, k: nat, off: nat): nat
    requires Strippable(f) && k < |Kept(f, PhNum(f))|
  {
    Translate(Kept(f, PhNum(f))[k].paddr) + off
  }

  lemma ShippedStruct(f: seq<byte>, k: nat, off: nat, src: seq<byte>, struct: seq<byte>, out: seq<byte>,
                      m: seq<byte>, r: Loaded)
    requires Shipped(f, k, off, src, struct, out) && HasPhdrs(out)
    requires r == Ideal(out, AllPhdrs(out, PhNum(out)), m) && r.Done? && r.entry != 0
    requires forall j :: k < j < |PackedHeaders(f, src)| ==>
      Spares(PackedHeaders(f, src)[j], StructAt(f, k, off), StructAt(f, k, off) + |struct|)
    ensures var at := StructAt(f, k, off); at + |struct| <= |r.mem| && r.mem[at..at + |struct|] == struct
  {
    hide Kept, Packed, Stripped, Place, PhdrOf, Half, Word, Pad, Ceil, End, Blit, Ideal, Translate, AllPhdrs,
      LastPhdr, Grown, Extra, Spares, Injectable;
    ShippedHeaders(f, k, off, src, struct, out);
    PackedHeadersAre(f, src, k);
    SegmentStays(out, PackedHeaders(f, src), k, off, |struct|, m);
  }

  lemma ShippedData(f: seq<byte>, k: nat, off: nat, src: seq<byte>, struct: seq<byte>, out: seq<byte>,
                    m: seq<byte>, r: Loaded)
    requires Shipped(f, k, off, src, struct, out) && HasPhdrs(out)
    requires r == Ideal(out, AllPhdrs(out, PhNum(out)), m) && r.Done? && r.entry != 0
    ensures var at := DataAt(f); at + |src| <= |r.mem| && r.mem[at..at + |src|] == src
  {
    hide Kept, Packed, Stripped, Place, PhdrOf, Half, Word, Pad, Ceil, End, Blit, Ideal, Translate, AllPhdrs,
      LastPhdr, Grown, Extra;
    var ks, hs, t := Kept(f, PhNum(f)), PackedHeaders(f, src), Packed(f, src);
    var n, pos := |ks|, Place(ks, k) + off;
    ShippedHeaders(f, k, off, src, struct, out);
    DataBehindStruct(f, k, off, src, struct);
    PackedHeadersAre(f, src, n - 1);
    GrownIs(f, src);
    var h, o := LastPhdr(f), LastPhdr(f).filesz + Pad(End(LastPhdr(f)));
    SegmentStays(out, hs, n - 1, o, |src|, m);
    BlitApart(t, pos, struct, h.offset + o, h.offset + o + |src|);
  }

  /** Loading the file that ships leaves the data and the struct in memory. */
  lemma ShippedLoads(f: seq<byte>, k: nat, off: nat, src: seq<byte>, struct: seq<byte>, out: seq<byte>,
                     m: seq<byte>, r: Loaded)
    requires Shipped(f, k, off, src, struct, out) && HasPhdrs(out)
    requires r == Ideal(out, AllPhdrs(out, PhNum(out)), m) && r.Done? && r.entry != 0
    requires forall j :: k < j < |PackedHeaders(f, src)| ==>
      Spares(PackedHeaders(f, src)[j], StructAt(f, k, off), StructAt(f, k, off) + |struct|)
    ensures var at := StructAt(f, k, off); at + |struct| <= |r.mem| && r.mem[at..at + |struct|] == struct
    ensures var at := DataAt(f); at + |src| <= |r.mem| && r.mem[at..at + |src|] == src
  {
    hide Kept, Packed, Stripped, Place, PhdrOf, Half, Word, Pad, Ceil, End, Blit, Ideal, Translate, AllPhdrs,
      LastPhdr, Grown, Extra, Spares, Injectable, PackedHeaders;
    ShippedStruct(f, k, off, src, struct, out, m, r);
    ShippedData(f, k, off, src, struct, out, m, r);
  }

  lemma GrownIs(f: seq<byte>, src: seq<byte>)
    requires Injectable(f, src)
    ensures var h, g := LastPhdr(f), Grown(LastPhdr(f), Extra(f, src));
            && g.kind == PT_LOAD && g.paddr == h.paddr && g.offset == h.offset && g.filesz > 0
            && h.filesz + Pad(End(h)) + |src| <= g.filesz
  {
    hide Kept, Stripped, LastPhdr, Pad, End;
    LastLoads(f);
  }

  lemma DataBehindStruct(f: seq<byte>, k: nat, off: nat, src: seq<byte>, struct: seq<byte>)
    requires Injectable(f, src) && k < |Kept(f, PhNum(f))| && off + |struct| <= Kept(f, PhNum(f))[k].filesz
    ensures var h := LastPhdr(f); var p := h.offset + h.filesz + Pad(End(h));
            && Place(Kept(f, PhNum(f)), k) + off + |struct| <= p
            && p + |src| <= |Packed(f, src)| && Packed(f, src)[p..p + |src|] == src
  {
    hide Kept, Stripped, Packed, Pad, End, Place, Ceil;
    var ks := Kept(f, PhNum(f));
    PackedData(f, src);
    if k < |ks| - 1 { PlacesApart(f, k, |ks| - 1); }
  }

  // ----- The struct -----

  const PAYLOAD_SIZE: int := 17

  /** payload_t: where the data is, its length, the length it unpacks to, and the LZMA header. */
  function PayloadBytes(dataptr: word, lenIn: word, lenOut: word, props: seq<byte>): (r: seq<byte>)
    requires |props| == 5
    ensures |r| == PAYLOAD_SIZE
  {
    WordBytes(dataptr) + WordBytes(lenIn) + WordBytes(lenOut) + props
  }

  lemma KnownPayload()
    ensures PayloadBytes(0x8000_4020, 0x1_2345, 0x6_789A, [0x5D, 0, 0, 1, 0])
         == [0x80, 0x00, 0x40, 0x20, 0x00, 0x01, 0x23, 0x45, 0x00, 0x06, 0x78, 0x9A, 0x5D, 0x00, 0x00, 0x01, 0x00]
  {
  }

  lemma PayloadBack(m: seq<byte>, at: nat, dataptr: word, lenIn: word, lenOut: word, props: seq<byte>)
    requires |props| == 5 && at + PAYLOAD_SIZE <= |m|
    requires m[at..at + PAYLOAD_SIZE] == PayloadBytes(dataptr, lenIn, lenOut, props)
    ensures Word(m, at) == dataptr && Word(m, at + 4) == lenIn && Word(m, at + 8) == lenOut
    ensures m[at + 12..at + 17] == props
  {
    hide WordBytes, Word;
    var x := m[at..at + PAYLOAD_SIZE];
    SliceOfSlice(m, at, at + PAYLOAD_SIZE, 0, 4);
    WordBack(m, at, dataptr);
    SliceOfSlice(m, at, at + PAYLOAD_SIZE, 4, 8);
    WordBack(m, at + 4, lenIn);
    SliceOfSlice(m, at, at + PAYLOAD_SIZE, 8, 12);
    WordBack(m, at + 8, lenOut);
    SliceOfSlice(m, at, at + PAYLOAD_SIZE, 12, 17);
  }

  /** aes_len: the data is padded with zeros to a multiple of 16. */
  function Padded(stream: seq<byte>): (r: seq<byte>)
    ensures |stream| <= |r| < |stream| + 16 && r[..|stream|] == stream
    ensures |r| % 16 == 0 && forall k | |stream| <= k < |r| :: r[k] == 0
  {
    stream + Zeros((|stream| + 15) / 16 * 16 - |stream|)
  }
}
