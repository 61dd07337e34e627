/** Two files at which the packer falls short: a stub whose data is not at the address that
    inject_elf returns, and a program that the loader does not start once it is stripped. */
module ElfExamples {
  import opened Numbers
  import opened Elf32
  import opened ElfStrip
  import opened ElfStripped
  import opened ElfLoad
  import opened ElfMeaning
  import opened ElfInject
  import opened ElfInjected

  const ENTRY: word := 0x8000_4000

  /** A file with a single program header. */
  function OneHeader(h: Phdr, segment: seq<byte>): seq<byte> {
    EhdrBytes(ENTRY, 1) + PhdrBytes(h) + segment
  }

  lemma OneHeaderFields(h: Phdr, segment: seq<byte>)
    ensures var f := OneHeader(h, segment);
            HasPhdrs(f) && PhNum(f) == 1 && PhdrOf(f, 0) == h && Entry(f) == ENTRY && |f| == 96 + |segment|
  {
    hide EhdrBytes, PhdrBytes, PhdrAt, Half, Word;
    var f := OneHeader(h, segment);
    assert f[..64] == EhdrBytes(ENTRY, 1);
    EhdrBack(f, ENTRY, 1);
    assert f[64..96] == PhdrBytes(h);
    PhdrBack(f, 64, h);
  }

  lemma OneKept(f: seq<byte>)
    requires HasPhdrs(f) && PhNum(f) == 1
    ensures Kept(f, 1) == (if Keeps(PhdrOf(f, 0)) then [PhdrOf(f, 0)] else [])
    ensures AllPhdrs(f, 1) == [PhdrOf(f, 0)]
  {
    hide Keeps, PhdrOf;
    assert Kept(f, 0) == [] && AllPhdrs(f, 0) == [];
  }

  // ----- A physical address with bit 30 set -----

  const FAR: Phdr := Phdr(PT_LOAD, 96, 0x4000_4000, 0x4000_4000, 32, 32, 7, 32)

  function FarStub(): seq<byte> {
    OneHeader(FAR, Zeros(32))
  }

  lemma FarStubStripped()
    ensures Strippable(FarStub()) && Kept(FarStub(), PhNum(FarStub())) == [FAR] && |Stripped(FarStub())| == 128
    ensures LastEnds(FarStub()) && LastPhdr(FarStub()) == FAR
  {
    hide OneHeader, EhdrBytes, PhdrBytes, Half, Word, PhdrAt, PhdrOf, Kept, HasPhdrs, Entry;
    var f := FarStub();
    OneHeaderFields(FAR, Zeros(32));
    OneKept(f);
    var ks := Kept(f, 1);
    assert ks[..0] == [];
    assert Size(ks) == Size([]) + Ceil(32) == 32;
    assert Place(ks, 0) == 96;
  }

  /** inject_elf returns one address and the loader puts the data at another. */
  ghost predicate Misplaced(f: seq<byte>, src: seq<byte>, returned: word, actual: word) {
    && Injectable(f, src)
    && var h := LastPhdr(f);
      returned == OrTop((h.paddr + h.filesz + Pad(End(h))) % WORD)
      && actual == Translate(h.paddr) + h.filesz + Pad(End(h))
  }

  lemma FarStubMisplaced(src: seq<byte>)
    requires |src| < 0x1_0000
    ensures Misplaced(FarStub(), src, 0xC000_4020, 0x8000_4020)
  {
    hide FarStub, Stripped, LastEnds, LastPhdr, Pad, End, OrTop, Translate, Injectable, Kept;
    FarStubStripped();
    InjectableSmall(FarStub(), src);
    FarValues();
  }

  lemma InjectableSmall(f: seq<byte>, src: seq<byte>)
    requires LastEnds(f) && |Stripped(f)| < 0x1000 && |src| < 0x1_0000
    ensures Injectable(f, src)
  {
    hide Stripped, LastEnds, LastPhdr, Pad, End, Kept, Strippable;
  }

  lemma FarValues()
    ensures Pad(End(FAR)) == 0 && !Addressed(FAR)
    ensures OrTop(0x4000_4020) == 0xC000_4020 && Translate(0x4000_4000) == 0x8000_4000
  {
  }

  // ----- A program without anything to load -----

  const NOTE: Phdr := Phdr(4, 96, 0, 0, 0, 0, 4, 4)

  function NoteOnly(): seq<byte> {
    OneHeader(NOTE, [])
  }

  /** Loaded as it is the file is started; stripped, the loader returns 0 for it, wherever it is. */
  lemma NoteOnlyNotStarted(m: seq<byte>, addr: nat)
    ensures Strippable(NoteOnly()) && Kept(NoteOnly(), PhNum(NoteOnly())) == []
    ensures Ideal(NoteOnly(), AllPhdrs(NoteOnly(), PhNum(NoteOnly())), m) == Done(m, ENTRY)
    ensures var s := Stripped(NoteOnly());
            addr + |s| <= |m| && m[addr..addr + |s|] == s ==>
              addr + EHDR_SIZE <= |m| && LoadImage(m, addr).Done? && LoadImage(m, addr).entry == 0
  {
    hide OneHeader, EhdrBytes, PhdrBytes, Half, Word, PhdrAt, PhdrOf, Kept, HasPhdrs, Entry, Stripped, LoadImage;
    var f := NoteOnly();
    OneHeaderFields(NOTE, []);
    OneKept(f);
    IdealNone(f, NOTE, m);
    assert InFile(f, []) && Size([]) == 0;
    var s := Stripped(f);
    if addr + |s| <= |m| && m[addr..addr + |s|] == s {
      NothingKept(f, m);
      StripThenLoad(f, m, addr);
    }
  }

  lemma IdealNone(f: seq<byte>, h: Phdr, m: seq<byte>)
    requires |f| >= EHDR_SIZE && h.kind != PT_LOAD
    ensures Ideal(f, [h], m) == Done(m, Entry(f)) && Ideal(f, [], m) == Done(m, Entry(f))
  {
    hide Entry;
    assert [h][1..] == [];
  }
}
