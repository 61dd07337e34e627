/** An ELF file given by its bytes: what strip_elf makes of it, and the memory that the stub's loader
    leaves; and the fields of any program header as numbers in the file. */
module ElfKnown {
  import opened Numbers
  import opened Elf32
  import opened ElfStrip
  import opened ElfLoad
  import opened ElfMeaning
  import opened ElfInject

  // ----- Fields -----

  lemma WordReads(s: seq<byte>, o: nat)
    requires o + 4 <= |s|
    ensures Word(s, o) == BigEndian(s[o..o + 4])
  {
    var t := s[o..o + 4];
    assert t[..0] == [] && t[..4] == t && BigEndian([]) == 0;
    BigEndianPrefix(t, 0);
    BigEndianPrefix(t, 1);
    BigEndianPrefix(t, 2);
    BigEndianPrefix(t, 3);
  }

  lemma HalfReads(s: seq<byte>, o: nat)
    requires o + 2 <= |s|
    ensures Half(s, o) == BigEndian(s[o..o + 2])
  {
    var t := s[o..o + 2];
    assert t[..0] == [] && t[..2] == t && BigEndian([]) == 0;
    BigEndianPrefix(t, 0);
    BigEndianPrefix(t, 1);
  }

  /** A program header is to be loaded just if its type is 1. */
  lemma LoadableBytes(s: seq<byte>, o: nat)
    requires o + 32 <= |s|
    ensures PhdrAt(s, o).kind == PT_LOAD <==> s[o..o + 4] == [0, 0, 0, 1]
  {
    var t := s[o..o + 4];
    assert s[o] == t[0] && s[o + 1] == t[1] && s[o + 2] == t[2] && s[o + 3] == t[3];
  }

  /** The fields that count, the most significant byte first. */
  lemma PhdrReads(s: seq<byte>, o: nat)
    requires o + 32 <= |s|
    ensures var h := PhdrAt(s, o);
      && h.kind == BigEndian(s[o..o + 4]) && h.offset == BigEndian(s[o + 4..o + 8])
      && h.vaddr == BigEndian(s[o + 8..o + 12]) && h.paddr == BigEndian(s[o + 12..o + 16])
      && h.filesz == BigEndian(s[o + 16..o + 20]) && h.memsz == BigEndian(s[o + 20..o + 24])
      && h.flags == BigEndian(s[o + 24..o + 28]) && h.align == BigEndian(s[o + 28..o + 32])
  {
    hide Word, BigEndian;
    WordReads(s, o);
    WordReads(s, o + 4);
    WordReads(s, o + 8);
    WordReads(s, o + 12);
    WordReads(s, o + 16);
    WordReads(s, o + 20);
    WordReads(s, o + 24);
    WordReads(s, o + 28);
  }

  /** strip_elf keeps a header of type 1 unless it is empty in the file or in memory. */
  lemma KeptBytes(s: seq<byte>, o: nat)
    requires o + 32 <= |s|
    ensures Keeps(PhdrAt(s, o)) <==>
            s[o..o + 4] == [0, 0, 0, 1] && BigEndian(s[o + 16..o + 20]) != 0 && BigEndian(s[o + 20..o + 24]) != 0
  {
    hide Word, BigEndian, PhdrAt;
    LoadableBytes(s, o);
    PhdrReads(s, o);
  }

  /** Where the headers are, how many there are, and where the program starts. */
  lemma EhdrReads(f: seq<byte>)
    requires HasPhdrs(f)
    ensures Entry(f) == BigEndian(f[24..28]) && PhNum(f) == BigEndian(f[44..46])
    ensures forall i: nat | i < PhNum(f) ::
      var o := BigEndian(f[28..32]) + 32 * i; o + 32 <= |f| && PhdrOf(f, i) == PhdrAt(f, o)
  {
    hide Word, Half, BigEndian, PhdrAt;
    WordReads(f, 24);
    WordReads(f, 28);
    HalfReads(f, 44);
  }

  // ----- A file of two headers -----

  /** Two program headers from byte 52 on. */
  const HEADER: seq<byte> := [
    0x7F, 0x45, 0x4C, 0x46, 1, 2, 1, 0, 0, 0, 0, 0, 0, 0, 0, 0,
    0, 2, 0, 20, 0, 0, 0, 1, 0x80, 0, 0x40, 4, 0, 0, 0, 52,
    0, 0, 0, 0, 0, 0, 0, 0, 0, 52, 0, 32, 0, 2, 0, 40,
    0, 0, 0, 0
  ]

  /** A note of eight bytes. */
  const NOTE_HEADER: seq<byte> := [
    0, 0, 0, 4, 0, 0, 0, 116, 0, 0, 0, 0, 0, 0, 0, 0,
    0, 0, 0, 8, 0, 0, 0, 8, 0, 0, 0, 4, 0, 0, 0, 4
  ]

  /** Eight bytes of the file, from byte 116 on, to go to 0x8000_4000, and eight more in memory. */
  const LOAD_HEADER: seq<byte> := [
    0, 0, 0, 1, 0, 0, 0, 116, 0x80, 0, 0x40, 0, 0, 0, 0x40, 0,
    0, 0, 0, 8, 0, 0, 0, 16, 0, 0, 0, 5, 0, 0, 0, 32
  ]

  const CONTENTS: seq<byte> := [0x38, 0x60, 0, 1, 0x4E, 0x80, 0, 0x20]

  function Program(): seq<byte> {
    HEADER + NOTE_HEADER + LOAD_HEADER + CONTENTS
  }

  /** The header of the stripped file: one program header from byte 64 on. */
  const STRIPPED_HEADER: seq<byte> :=
    [0x7F, 0x45, 0x4C, 0x46, 1, 2, 1, 0, 0, 0, 0, 0, 0, 0, 0, 0]
    + [0, 2, 0, 20, 0, 0, 0, 1, 0x80, 0, 0x40, 4, 0, 0, 0, 64]
    + [0, 0, 0, 0, 0, 0, 0, 0, 0, 0, 0, 32, 0, 1, 0, 40]
    + [0, 0, 0, 0, 0, 0, 0, 0, 0, 0, 0, 0, 0, 0, 0, 0]

  /** The segment is at byte 96 now. */
  const MOVED_HEADER: seq<byte> :=
    [0, 0, 0, 1] + [0, 0, 0, 96] + [0x80, 0, 0x40, 0] + [0, 0, 0x40, 0]
    + [0, 0, 0, 8] + [0, 0, 0, 16] + [0, 0, 0, 5] + [0, 0, 0, 32]

  const REST: seq<byte> := [0, 0, 0, 0, 0, 0, 0, 0, 0, 0, 0, 0, 0, 0, 0, 0, 0, 0, 0, 0, 0, 0, 0, 0]

  const LOADED: Phdr := Phdr(1, 116, 0x8000_4000, 0x0000_4000, 8, 16, 5, 32)

  lemma HeaderFields()
    ensures |HEADER| == 52 && Word(HEADER, 24) == 0x8000_4004 && Word(HEADER, 28) == 52
    ensures Half(HEADER, 42) == 32 && Half(HEADER, 44) == 2
  {
  }

  lemma PhdrFields()
    ensures |NOTE_HEADER| == |LOAD_HEADER| == 32 && PhdrAt(LOAD_HEADER, 0) == LOADED
    ensures PhdrAt(NOTE_HEADER, 0).kind == 4
  {
  }

  lemma FieldsInFront(s: seq<byte>, t: seq<byte>)
    requires |s| == 52 && s <= t
    ensures Word(t, 24) == Word(s, 24) && Word(t, 28) == Word(s, 28) && Half(t, 42) == Half(s, 42)
    ensures Half(t, 44) == Half(s, 44)
  {
  }

  lemma ProgramFields()
    ensures var f := Program();
      && |f| == 124 && HasPhdrs(f) && PhNum(f) == 2 && Entry(f) == 0x8000_4004
      && PhdrOf(f, 0).kind == 4 && PhdrOf(f, 1) == LOADED && f[116..124] == CONTENTS
  {
    hide Word, Half, PhdrAt, HEADER, NOTE_HEADER, LOAD_HEADER;
    HeaderFields();
    PhdrFields();
    var f := Program();
    FieldsInFront(HEADER, f);
    assert f[52..84] == NOTE_HEADER == NOTE_HEADER[0..32] && f[84..116] == LOAD_HEADER == LOAD_HEADER[0..32];
    SamePhdr(f, 52, NOTE_HEADER, 0);
    SamePhdr(f, 84, LOAD_HEADER, 0);
  }

  lemma ProgramKept()
    ensures HasPhdrs(Program()) && PhNum(Program()) == 2 && Kept(Program(), 2) == [LOADED]
  {
    hide Program, PhdrOf, HasPhdrs, PhNum;
    ProgramFields();
    var f := Program();
    assert Kept(f, 0) == [];
    assert Kept(f, 1) == Kept(f, 0) + [];
  }

  lemma {:induction false} OneSegment(f: seq<byte>, h: Phdr)
    requires |f| < 0x1000 && h.offset + h.filesz <= |f| && h.filesz > 0
    ensures InFile(f, [h]) && Size([h]) == Ceil(h.filesz) && 96 + Size([h]) < WORD
    ensures Table([h], 96) == PhdrBytes(Moved(h, 96))
    ensures Segments(f, [h]) == f[h.offset..h.offset + h.filesz] + Zeros(Ceil(h.filesz) - h.filesz)
  {
    hide Ceil, PhdrBytes, Zeros, Moved;
    assert [h] == [] + [h];
    OneSize(f, h);
    TableNext([], h, 96);
    SegmentsNext(f, [], h);
    assert Table([], 96) == [] && Segments(f, []) == [];
  }

  lemma {:induction false} OneSize(f: seq<byte>, h: Phdr)
    requires |f| < 0x1000 && h.offset + h.filesz <= |f|
    ensures InFile(f, [] + [h]) && InFile(f, []) && Size([]) == 0 && Size([] + [h]) == Ceil(h.filesz)
  {
    hide Ceil;
    assert [] + [h] == [h];
    SizeNext(f, [], h);
  }

  lemma NewHeaders()
    ensures PhdrBytes(Moved(LOADED, 96)) == MOVED_HEADER
  {
    hide WordBytes;
    NewWords();
  }

  lemma NewHeader()
    ensures EhdrBytes(0x8000_4004, 1) == STRIPPED_HEADER
  {
    hide WordBytes, HalfBytes, Zeros, EhdrBytes;
    NewWords();
    NewZeros();
    var a := HalfBytes(2) + HalfBytes(20) + WordBytes(1) + WordBytes(0x8000_4004) + WordBytes(64);
    assert a == [0, 2, 0, 20, 0, 0, 0, 1, 0x80, 0, 0x40, 4, 0, 0, 0, 64];
    var b := Zeros(10) + HalfBytes(32) + HalfBytes(1) + HalfBytes(40);
    assert b == [0, 0, 0, 0, 0, 0, 0, 0, 0, 0, 0, 32, 0, 1, 0, 40];
    HeaderRows(a, b);
  }

  lemma HeaderRows(a: seq<byte>, b: seq<byte>)
    requires a == HalfBytes(2) + HalfBytes(20) + WordBytes(1) + WordBytes(0x8000_4004) + WordBytes(64)
    requires b == Zeros(10) + HalfBytes(32) + HalfBytes(1) + HalfBytes(40)
    ensures EhdrBytes(0x8000_4004, 1)
         == [0x7F, 0x45, 0x4C, 0x46, 1, 2, 1, 0, 0, 0, 0, 0, 0, 0, 0, 0] + a + b + Zeros(16)
  {
    hide WordBytes, HalfBytes, Zeros;
  }

  lemma NewZeros()
    ensures Zeros(10) == [0, 0, 0, 0, 0, 0, 0, 0, 0, 0]
    ensures Zeros(16) == [0, 0, 0, 0, 0, 0, 0, 0, 0, 0, 0, 0, 0, 0, 0, 0] && Zeros(24) == REST
  {
  }

  lemma NewWords()
    ensures HalfBytes(2) == [0, 2] && HalfBytes(20) == [0, 20] && WordBytes(1) == [0, 0, 0, 1]
    ensures WordBytes(0x8000_4004) == [0x80, 0, 0x40, 4] && WordBytes(64) == [0, 0, 0, 64]
    ensures HalfBytes(32) == [0, 32] && HalfBytes(1) == [0, 1] && HalfBytes(40) == [0, 40]
    ensures WordBytes(96) == [0, 0, 0, 96] && WordBytes(0x8000_4000) == [0x80, 0, 0x40, 0]
    ensures WordBytes(0x4000) == [0, 0, 0x40, 0] && WordBytes(8) == [0, 0, 0, 8] && WordBytes(16) == [0, 0, 0, 16]
    ensures WordBytes(5) == [0, 0, 0, 5] && WordBytes(32) == [0, 0, 0, 32]
  {
  }

  /** The note goes, and the segment moves behind the shorter table, filled up to 32 bytes. */
  lemma KnownStrip()
    ensures Strippable(Program())
    ensures Stripped(Program()) == STRIPPED_HEADER + MOVED_HEADER + CONTENTS + REST
  {
    hide Program, Kept, HasPhdrs, PhNum, EhdrBytes, PhdrBytes, Moved, Zeros, Table, Segments, Size, Entry;
    ProgramFields();
    ProgramKept();
    OneSegment(Program(), LOADED);
    NewHeader();
    NewHeaders();
    NewZeros();
  }

  /** The stub's loader puts the eight bytes at their translated address and starts the program there;
      besides them only the image itself changes. */
  lemma KnownLoad(m: seq<byte>, addr: nat)
    requires var s := STRIPPED_HEADER + MOVED_HEADER + CONTENTS + REST;
      addr + 128 <= |m| && |s| == 128 && m[addr..addr + 128] == s
    requires |m| >= 0x8000_4008 && (addr + 128 <= 0x8000_4000 || 0x8000_4008 <= addr)
    ensures var r := LoadImage(m, addr);
      && r.Done? && r.entry == 0x8000_4004
      && SameOutside(r.mem, m[..0x8000_4000] + CONTENTS + m[0x8000_4008..], addr, 128)
  {
    hide Program, Kept, HasPhdrs, PhNum, Stripped, LoadImage, SameOutside, Entry, STRIPPED_HEADER, MOVED_HEADER, REST,
      CONTENTS, Zeros, LOADED, Clear, Ideal;
    KnownStrip();
    ProgramKept();
    ProgramFields();
    var f := Program();
    IdealLoads(f, m);
    LoadedApart(addr);
    StripThenLoad(f, m, addr);
  }

  lemma LoadedApart(addr: nat)
    requires addr + 128 <= 0x8000_4000 || 0x8000_4008 <= addr
    ensures Clear(LOADED, addr, addr + 128)
  {
    assert Translate(LOADED.paddr) == 0x8000_4000;
  }

  lemma IdealLoads(f: seq<byte>, m: seq<byte>)
    requires |f| == 124 && Entry(f) == 0x8000_4004 && |m| >= 0x8000_4008
    ensures Ideal(f, [LOADED], m) == Done(m[..0x8000_4000] + f[116..124] + m[0x8000_4008..], 0x8000_4004)
  {
    hide Entry;
    assert [LOADED][1..] == [];
    assert Translate(LOADED.paddr) == 0x8000_4000;
  }

  // ----- Data behind a segment -----

  /** Eight bytes at byte 96 of a stripped file, and as many in memory. */
  const HOST: Phdr := Phdr(1, 96, 0x8000_4000, 0x0000_4000, 8, 8, 5, 32)

  const HOST_HEADER: seq<byte> :=
    [0, 0, 0, 1] + [0, 0, 0, 96] + [0x80, 0, 0x40, 0] + [0, 0, 0x40, 0]
    + [0, 0, 0, 8] + [0, 0, 0, 8] + [0, 0, 0, 5] + [0, 0, 0, 32]

  /** 64 bytes now, and the virtual address is the physical one. */
  const GROWN_HEADER: seq<byte> :=
    [0, 0, 0, 1] + [0, 0, 0, 96] + [0, 0, 0x40, 0] + [0, 0, 0x40, 0]
    + [0, 0, 0, 64] + [0, 0, 0, 64] + [0, 0, 0, 5] + [0, 0, 0, 32]

  lemma GrownBytes()
    ensures PhdrBytes(Grown(HOST, 56)) == GROWN_HEADER && PhdrBytes(HOST) == HOST_HEADER
  {
    hide WordBytes;
    NewWords();
  }

  lemma HostPad()
    ensures End(HOST) == 0x8000_4008 && Pad(0x8000_4008) == 24 && Ceil(3) == 32
    ensures OrTop(0x0000_4020) == 0x8000_4020
  {
  }

  lemma BlitMiddle(a: seq<byte>, b: seq<byte>, c: seq<byte>, d: seq<byte>)
    requires |d| == |b|
    ensures Blit(a + b + c, |a|, d) == a + d + c
  {
    assert (a + b + c)[|a| + |d|..] == c;
  }

  /** inject_elf fills up to the next 32 bytes in memory, puts the data there, fills up again, and
      counts all of it in the header. */
  lemma KnownInject(src: seq<byte>)
    requires |src| == 3
    ensures var d := STRIPPED_HEADER + HOST_HEADER + CONTENTS;
      && |d| == 104 && |d| + Pad(End(HOST)) + Ceil(3) < WORD
      && Injected(d, 64, HOST, src) == STRIPPED_HEADER + GROWN_HEADER + (CONTENTS + REST + src + Zeros(29))
    ensures OrTop((HOST.paddr + HOST.filesz + Pad(End(HOST))) % WORD) == 0x8000_4020
    ensures HOST.offset + HOST.filesz + Pad(End(HOST)) == 128
  {
    hide Blit, STRIPPED_HEADER, HOST_HEADER, GROWN_HEADER, CONTENTS, REST, Zeros, Pad, Ceil, OrTop, End, PhdrBytes;
    HostPad();
    GrownBytes();
    NewZeros();
    HeaderSizes();
    var d := STRIPPED_HEADER + HOST_HEADER + CONTENTS;
    ZerosFront(d, 24, 56);
    BlitZeros(d + REST, 32, [], src);
    assert d + REST + Zeros(32) + [] == d + Zeros(56);
    var e := CONTENTS + REST + src + Zeros(29);
    assert d + REST + src + Zeros(29) + [] == STRIPPED_HEADER + HOST_HEADER + e;
    BlitMiddle(STRIPPED_HEADER, HOST_HEADER, e, GROWN_HEADER);
  }

  lemma HeaderSizes()
    ensures |STRIPPED_HEADER| == 64 && |HOST_HEADER| == |GROWN_HEADER| == 32 && |CONTENTS| == 8 && |REST| == 24
  {
  }
}
