/** wiipax/client/main.c: map_file_offset finds the program header a place in the file belongs to,
    inject_elf appends the packed data to the last segment of a stripped stub. */
module ElfInject {
  import opened Numbers
  import opened Elf32
  import opened ElfStrip
  import opened ElfStripped
  import opened ElfMeaning

  // ----- map_file_offset -----

  /** Header h claims a place in the file. */
  predicate Claims(h: Phdr, offset: word) {
    h.kind == PT_LOAD && h.filesz >= 1 && h.offset <= offset <= (h.offset + h.filesz) % WORD
  }

  /** A header claims one place too many: the one right behind its segment. */
  lemma ClaimInside(h: Phdr, offset: word)
    requires Claims(h, offset) && h.offset + h.filesz < WORD
    ensures offset - h.offset < h.filesz <==> offset != h.offset + h.filesz
    ensures forall place: word :: (Claims(h, place) && !(place - h.offset < h.filesz)) <==> place == h.offset + h.filesz
  {
  }

  /** The first header that claims the place, and how far into its segment it is. */
  method MapFileOffset(elf: Elf, offset: word) returns (found: bool, ndx: nat, off: nat)
    requires HasPhdrs(elf.data[..]) && elf.phdrs == Word(elf.data[..], 28)
    ensures found <==> exists i: nat :: i < PhNum(elf.data[..]) && Claims(PhdrOf(elf.data[..], i), offset)
    ensures found ==> ndx < PhNum(elf.data[..]) && Claims(PhdrOf(elf.data[..], ndx), offset)
    ensures found ==> off == offset - PhdrOf(elf.data[..], ndx).offset
    ensures found ==> forall i: nat :: i < ndx ==> !Claims(PhdrOf(elf.data[..], i), offset)
  {
    hide PhdrAt, PhdrOf;
    ghost var f := elf.data[..];
    var phnum := Half(elf.data[..], 44);
    var i: nat := 0;
    while i < phnum
      invariant i <= phnum && forall j: nat :: j < i ==> !Claims(PhdrOf(f, j), offset)
    {
      var h := PhdrAt(elf.data[..], elf.phdrs + 32 * i);
      KeptIs(f, i, h);
      if Claims(h, offset) { return true, i, offset - h.offset; }
      i := i + 1;
    }
    return false, 0, 0;
  }

  /** What follows a place found by map_file_offset in the original follows it in the stripped file
      too, as far as the segment goes. */
  lemma MappedBytes(f: seq<byte>, ndx: nat, off: nat, n: nat)
    requires Strippable(f) && KeptAt(f, ndx) && off + n <= PhdrOf(f, ndx).filesz
    ensures var ks, k, h := Kept(f, PhNum(f)), |Kept(f, ndx)|, PhdrOf(f, ndx);
            && k < |ks| && ks[k] == h && h.offset + h.filesz <= |f|
            && Place(ks, k) + off + n <= |Stripped(f)|
            && Stripped(f)[Place(ks, k) + off..Place(ks, k) + off + n] == f[h.offset + off..h.offset + off + n]
  {
    hide Kept, Place, Stripped, PhdrOf, Keeps;
    var ks, k, h := Kept(f, PhNum(f)), |Kept(f, ndx)|, PhdrOf(f, ndx);
    KeptWhere(f, ndx, PhNum(f));
    StrippedSegment(f, k);
    var p := Place(ks, k);
    SliceOfSlice(Stripped(f), p, p + h.filesz, off, off + n);
    SliceOfSlice(f, h.offset, h.offset + h.filesz, off, off + n);
  }

  lemma {:induction false} KeptWhere(f: seq<byte>, i: nat, n: nat)
    requires HasPhdrs(f) && i < n <= PhNum(f) && KeptAt(f, i)
    ensures |Kept(f, i)| < |Kept(f, n)| && Kept(f, n)[|Kept(f, i)|] == PhdrOf(f, i)
    decreases n
  {
    hide Keeps, PhdrOf;
    if i < n - 1 { KeptWhere(f, i, n - 1); }
  }

  // ----- inject_elf -----

  function OrTop(x: word): word {
    if x < 0x8000_0000 then x + 0x8000_0000 else x
  }

  /** The bytes from address `at` up to a multiple of 32. */
  function Pad(at: word): (r: nat)
    ensures r < 32
  {
    (RoundUp32(at) - at) % WORD
  }

  function End(h: Phdr): word {
    (h.vaddr + h.filesz) % WORD
  }

  function Grown(h: Phdr, size: nat): Phdr
    requires h.filesz + size < WORD && h.memsz + size < WORD
  {
    h.(filesz := h.filesz + size, memsz := h.memsz + size, vaddr := h.paddr)
  }

  /** The file d with src, padded, at the end of the segment of h, whose header is at o. */
  ghost function Injected(d: seq<byte>, o: nat, h: Phdr, src: seq<byte>): (r: seq<byte>)
    requires o + 32 <= |d| && h.offset + h.filesz <= |d| && h.filesz == h.memsz
    requires |d| + Pad(End(h)) + Ceil(|src|) < WORD
    ensures |r| == |d| + Pad(End(h)) + Ceil(|src|)
  {
    var size := Pad(End(h)) + Ceil(|src|);
    Blit(Blit(d + Zeros(size), h.offset + h.filesz + Pad(End(h)), src), o, PhdrBytes(Grown(h, size)))
  }

  /** The last header of a stripped file. */
  ghost function LastPhdr(f: seq<byte>): Phdr
    requires Strippable(f) && Kept(f, PhNum(f)) != []
  {
    var ks := Kept(f, PhNum(f));
    PlaceFits(f, |ks| - 1);
    Moved(ks[|ks| - 1], Place(ks, |ks| - 1))
  }

  lemma PlaceFits(f: seq<byte>, k: nat)
    requires Strippable(f) && k < |Kept(f, PhNum(f))|
    ensures Place(Kept(f, PhNum(f)), k) + Kept(f, PhNum(f))[k].filesz <= |Stripped(f)| < WORD
  {
    hide Kept, Place, Stripped, Size;
    PlacesIn(f, Kept(f, PhNum(f)), k);
    PlaceLast(f);
  }

  /** inject_elf: refused when the last segment has a part without bytes in the file. `dataaddr` is
      where the data is to be found at run time, `dataptr` where it is in the file. */
  method InjectElf(dst: Elf, src: array<byte>, ghost f: seq<byte>)
    returns (elf: Option<Elf>, dataaddr: word, dataptr: nat)
    requires Strippable(f) && Kept(f, PhNum(f)) != [] && dst.data[..] == Stripped(f) && dst.phdrs == 64
    requires dst.data.Length + 32 + Ceil(src.Length) < WORD
    ensures elf == None <==> LastPhdr(f).filesz != LastPhdr(f).memsz
    ensures elf.Some? ==> fresh(elf.value) && fresh(elf.value.data) && elf.value.phdrs == 64
    ensures elf.Some? ==> LastEnds(f)
    ensures elf.Some? ==>
      elf.value.data[..] == Injected(Stripped(f), 32 + 32 * |Kept(f, PhNum(f))|, LastPhdr(f), src[..])
    ensures elf.Some? ==> var h := LastPhdr(f);
      dataaddr == OrTop((h.paddr + h.filesz + Pad(End(h))) % WORD) && dataptr == h.offset + h.filesz + Pad(End(h))
  {
    hide Stripped, Kept, LastPhdr, PhdrAt, Injected, Zeros, Ceil, RoundUp32, Half, Word, Pad, End, Strippable;
    ghost var s := dst.data[..];
    LastThere(f, s);
    var phdrndx := Half(dst.data[..], 44) - 1;
    var o := dst.phdrs + 32 * phdrndx;
    var h := PhdrAt(dst.data[..], o);
    elf, dataaddr, dataptr := None, 0, 0;
    if h.filesz != h.memsz { return; }
    var posA := RoundUp32(End(h));
    var posD := (posA - End(h)) % WORD;
    PadIs(h);
    RoundUpCeil(src.Length);
    var e := Enlarge(dst, posD + RoundUp32(src.Length), f);
    dataaddr := OrTop((posA - h.vaddr + h.paddr) % WORD);
    dataptr := h.offset + h.filesz + posD;
    Append(e.data, src, o, h, s);
    elf := Some(e);
  }

  lemma PadIs(h: Phdr)
    ensures (RoundUp32(End(h)) - End(h)) % WORD == Pad(End(h))
    ensures (RoundUp32(End(h)) - h.vaddr + h.paddr) % WORD == (h.paddr + h.filesz + Pad(End(h))) % WORD
  {
    hide RoundUp32, Ceil;
    var e, c := End(h), Ceil(End(h));
    RoundUpCeil(e);
    assert Pad(e) == c - e;
    var a := if h.vaddr + h.filesz < WORD then 0 else 1;
    var b := if c < WORD then 0 else 1;
    assert h.vaddr + h.filesz == e + a * WORD && c == RoundUp32(e) + b * WORD;
    WholeTurns(h.paddr + h.filesz + c - e, a + b);
  }

  lemma WholeTurns(x: int, k: nat)
    requires k <= 2
    ensures (x - k * WORD) % WORD == x % WORD
  {
  }

  /** The data, and the header that counts it. */
  method Append(data: array<byte>, src: array<byte>, o: nat, h: Phdr, ghost d: seq<byte>)
    requires data != src && o + 32 <= |d| && h.offset + h.filesz <= |d| && h.filesz == h.memsz
    requires |d| + Pad(End(h)) + Ceil(src.Length) < WORD
    requires data[..] == d + Zeros(Pad(End(h)) + Ceil(src.Length))
    modifies data
    ensures data[..] == Injected(d, o, h, src[..])
  {
    hide Blit, Zeros, Ceil, PhdrBytes, Pad, End, Grown;
    CopyInto(data, h.offset + h.filesz + Pad(End(h)), src, 0, src.Length);
    assert src[0..src.Length] == src[..];
    PutPhdr(data, o, Grown(h, Pad(End(h)) + Ceil(src.Length)));
  }

  /** A copy with room at the end. */
  method Enlarge(dst: Elf, sizeD: nat, ghost f: seq<byte>) returns (e: Elf)
    requires Strippable(f) && Kept(f, PhNum(f)) != [] && dst.data[..] == Stripped(f)
    requires dst.data.Length + sizeD < WORD
    ensures fresh(e) && fresh(e.data) && e.data[..] == Stripped(f) + Zeros(sizeD) && e.phdrs == 64
  {
    hide Stripped, Kept, Blit, Zeros, Half, Word;
    ghost var s := dst.data[..];
    var data := Calloc(dst.data.Length + sizeD);
    CopyInto(data, 0, dst.data, 0, dst.data.Length);
    CopiedFront(s, sizeD);
    e := new Elf(data);
    HeadersStay(f, s, sizeD);
    var ok := e.InitElf(false);
    assert ok;
  }

  ghost predicate LastEnds(f: seq<byte>) {
    && Strippable(f) && Kept(f, PhNum(f)) != [] && LastPhdr(f).offset + LastPhdr(f).filesz <= |Stripped(f)|
    && LastPhdr(f).filesz == LastPhdr(f).memsz && 64 + 32 * |Kept(f, PhNum(f))| <= |Stripped(f)|
  }

  lemma CopiedFront(s: seq<byte>, n: nat)
    ensures Blit(Zeros(|s| + n), 0, s[0..|s|]) == s + Zeros(n)
  {
  }

  lemma LastThere(f: seq<byte>, s: seq<byte>)
    requires Strippable(f) && Kept(f, PhNum(f)) != [] && s == Stripped(f)
    ensures |s| >= 64 && Half(s, 44) == |Kept(f, PhNum(f))| && 64 + 32 * |Kept(f, PhNum(f))| <= |s|
    ensures PhdrAt(s, 32 + 32 * |Kept(f, PhNum(f))|) == LastPhdr(f)
    ensures LastPhdr(f).offset + LastPhdr(f).filesz <= |s| && LastPhdr(f).offset >= 64 + 32 * |Kept(f, PhNum(f))|
  {
    hide Stripped, Kept, EhdrBytes, Half, Word, PhdrAt, Place;
    var ks := Kept(f, PhNum(f));
    StrippedHeader(f);
    EhdrBack(s, Entry(f), |ks|);
    StrippedPhdr(f, |ks| - 1);
    PlacesIn(f, ks, |ks| - 1);
  }

  /** init_elf finds the same headers in the longer copy. */
  lemma HeadersStay(f: seq<byte>, s: seq<byte>, n: nat)
    requires Strippable(f) && Kept(f, PhNum(f)) != [] && s == Stripped(f)
    ensures HasPhdrs(s + Zeros(n)) && Half(s + Zeros(n), 48) == 0 && Word(s + Zeros(n), 28) == 64
  {
    hide Stripped, Kept, EhdrBytes, Half, Word, PhdrAt, Place, LastPhdr;
    StrippedHeader(f);
    LastThere(f, s);
    var t := s + Zeros(n);
    assert t[..64] == s[..64];
    EhdrBack(t, Entry(f), |Kept(f, PhNum(f))|);
  }
}
