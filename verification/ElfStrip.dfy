/** wiipax/client/main.c: strip_elf copies the loadable segments of an ELF file, each rounded up
    to 32 bytes, behind a new header and a new program header table. */
module ElfStrip {
  import opened Numbers
  import opened Elf32

  const TOO_BIG: int := 20 * 1024 * 1024

  // ----- The file it reads -----

  /** What init_elf accepts. */
  ghost predicate HasPhdrs(f: seq<byte>) {
    && |f| >= EHDR_SIZE && Half(f, 44) > 0 && Word(f, 28) > 0
    && Half(f, 42) == PHDR_SIZE && Word(f, 28) + PHDR_SIZE * Half(f, 44) <= |f|
  }

  ghost predicate HasShdrs(f: seq<byte>) {
    && |f| >= EHDR_SIZE && Half(f, 48) > 0 && Word(f, 32) > 0
    && Half(f, 46) == SHDR_SIZE && Word(f, 32) + SHDR_SIZE * Half(f, 48) <= |f|
  }

  function Entry(f: seq<byte>): word
    requires |f| >= EHDR_SIZE
  {
    Word(f, 24)
  }

  ghost function PhNum(f: seq<byte>): half
    requires HasPhdrs(f)
  {
    Half(f, 44)
  }

  ghost function PhdrOf(f: seq<byte>, i: nat): Phdr
    requires HasPhdrs(f) && i < PhNum(f)
  {
    PhdrAt(f, Word(f, 28) + 32 * i)
  }

  /** The headers strip_elf keeps. */
  predicate Keeps(h: Phdr) {
    h.kind == PT_LOAD && h.filesz >= 1 && h.memsz >= 1
  }

  /** The kept ones among the first n headers, in order. */
  ghost function Kept(f: seq<byte>, n: nat): (r: seq<Phdr>)
    requires HasPhdrs(f) && n <= PhNum(f)
    ensures |r| <= n
    ensures forall k :: 0 <= k < |r| ==> Keeps(r[k])
  {
    if n == 0 then []
    else Kept(f, n - 1) + if Keeps(PhdrOf(f, n - 1)) then [PhdrOf(f, n - 1)] else []
  }

  // ----- The file it writes -----

  /** x rounded up to a multiple of 32. */
  function Ceil(x: nat): (r: nat)
    ensures x <= r < x + 32
  {
    (x + 31) / 32 * 32
  }

  /** `round_up(x, ALIGNOFFSET)` on 32-bit numbers: -(-x & -32). */
  function RoundUp32(x: word): word {
    var minus: int := (WORD - x) % WORD;
    (WORD - minus / 32 * 32) % WORD
  }

  lemma RoundUpCeil(x: word)
    ensures RoundUp32(x) == Ceil(x) % WORD
  {
  }

  /** The room the segments take. */
  ghost function Size(hs: seq<Phdr>): nat
  {
    if hs == [] then 0 else Size(hs[..|hs| - 1]) + Ceil(hs[|hs| - 1].filesz)
  }

  /** The room n program headers take. */
  function Room(n: nat): nat {
    32 * n
  }

  /** Where the segments start: behind the header and n program headers. */
  function Base(n: nat): nat {
    64 + Room(n)
  }

  ghost function Total(f: seq<byte>): nat
    requires HasPhdrs(f)
  {
    var ks := Kept(f, PhNum(f));
    Base(|ks|) + Size(ks)
  }

  function EhdrBytes(entry: word, count: half): (r: seq<byte>)
    ensures |r| == 64
  {
    [0x7F, 0x45, 0x4C, 0x46, 1, 2, 1, 0, 0, 0, 0, 0, 0, 0, 0, 0]
    + HalfBytes(2) + HalfBytes(20) + WordBytes(1) + WordBytes(entry) + WordBytes(64)
    + Zeros(10) + HalfBytes(PHDR_SIZE) + HalfBytes(count) + HalfBytes(SHDR_SIZE) + Zeros(16)
  }

  function Moved(h: Phdr, o: word): Phdr {
    h.(offset := o)
  }

  /** The new headers: as before, but for the place in the file. */
  ghost function Table(hs: seq<Phdr>, base: nat): (r: seq<byte>)
    requires base + Size(hs) < WORD
    ensures |r| == Room(|hs|)
  {
    if hs == [] then []
    else
      var n := |hs| - 1;
      Table(hs[..n], base) + PhdrBytes(Moved(hs[n], base + Size(hs[..n])))
  }

  /** No segment reaches beyond the file. */
  ghost predicate InFile(f: seq<byte>, hs: seq<Phdr>) {
    forall k :: 0 <= k < |hs| ==> hs[k].offset + hs[k].filesz <= |f|
  }

  /** The segments, each with zeros up to a multiple of 32. */
  ghost function Segments(f: seq<byte>, hs: seq<Phdr>): (r: seq<byte>)
    requires InFile(f, hs)
    ensures |r| == Size(hs)
  {
    if hs == [] then []
    else
      var n := |hs| - 1;
      var h := hs[n];
      Segments(f, hs[..n]) + f[h.offset..h.offset + h.filesz] + Zeros(Ceil(h.filesz) - h.filesz)
  }

  /** What the packer asks of its input: segments inside of the file, and no 32-bit overflow. */
  ghost predicate Strippable(f: seq<byte>) {
    HasPhdrs(f) && InFile(f, Kept(f, PhNum(f))) && Total(f) < WORD
  }

  ghost function Stripped(f: seq<byte>): (r: seq<byte>)
    requires Strippable(f)
    ensures |r| == Total(f)
  {
    var ks := Kept(f, PhNum(f));
    EhdrBytes(Entry(f), |ks|) + Table(ks, Base(|ks|)) + Segments(f, ks)
  }

  lemma RoomUpTo(k: nat, n: nat)
    requires k <= n
    ensures Room(k) <= Room(n) && Room(k + 1) == Room(k) + 32
    ensures k < n ==> Room(k + 1) <= Room(n)
  {
  }

  /** The file while it is being written: the headers and segments `hs` are in place, out of
      n headers and `len` bytes. */
  ghost function Laid(f: seq<byte>, hs: seq<Phdr>, n: half, len: nat): (r: seq<byte>)
    requires |f| >= EHDR_SIZE && InFile(f, hs) && |hs| <= n && Base(n) + Size(hs) <= len < WORD
    ensures |r| == len
  {
    RoomUpTo(|hs|, n);
    Parts(EhdrBytes(Entry(f), n), Table(hs, Base(n)), Room(n) - Room(|hs|), Segments(f, hs), len - Base(n) - Size(hs))
  }

  function Parts(e: seq<byte>, t: seq<byte>, left: nat, g: seq<byte>, rest: nat): (r: seq<byte>)
    ensures |r| == |e| + |t| + left + |g| + rest
  {
    e + t + Zeros(left) + g + Zeros(rest)
  }

  lemma BlitZeros(a: seq<byte>, n: nat, b: seq<byte>, d: seq<byte>)
    requires |d| <= n
    ensures Blit(a + Zeros(n) + b, |a|, d) == a + d + Zeros(n - |d|) + b
  {
    var m := a + Zeros(n) + b;
    assert m[|a| + |d|..] == Zeros(n - |d|) + b;
  }

  lemma {:induction false} SizeNext(f: seq<byte>, hs: seq<Phdr>, h: Phdr)
    requires InFile(f, hs + [h])
    ensures InFile(f, hs) && h.offset + h.filesz <= |f| && Size(hs + [h]) == Size(hs) + Ceil(h.filesz)
  {
    hide Ceil;
    var t := hs + [h];
    assert t[..|hs|] == hs && t[|hs|] == h;
    forall k | 0 <= k < |hs| ensures hs[k].offset + hs[k].filesz <= |f| { assert t[k] == hs[k]; }
  }

  lemma {:induction false} TableNext(hs: seq<Phdr>, h: Phdr, base: nat)
    requires base + Size(hs) < WORD && base + Size(hs + [h]) < WORD
    ensures Table(hs + [h], base) == Table(hs, base) + PhdrBytes(Moved(h, base + Size(hs)))
  {
    hide PhdrBytes, Moved, Size;
    var t := hs + [h];
    assert t[..|hs|] == hs && t[|hs|] == h;
  }

  lemma {:induction false} SegmentsNext(f: seq<byte>, hs: seq<Phdr>, h: Phdr)
    requires InFile(f, hs + [h]) && InFile(f, hs) && h.offset + h.filesz <= |f|
    ensures Segments(f, hs + [h])
         == Segments(f, hs) + f[h.offset..h.offset + h.filesz] + Zeros(Ceil(h.filesz) - h.filesz)
  {
    hide Ceil, Zeros, Size, InFile;
    var t := hs + [h];
    assert t[..|hs|] == hs && t[|hs|] == h;
  }

  lemma {:induction false} LaidAfter(f: seq<byte>, hs: seq<Phdr>, h: Phdr, n: half, len: nat, p: seq<byte>,
                                     d: seq<byte>)
    requires |f| >= EHDR_SIZE && InFile(f, hs + [h]) && |hs| < n && Base(n) + Size(hs + [h]) <= len < WORD
    requires InFile(f, hs) && h.offset + h.filesz <= |f| && Size(hs + [h]) == Size(hs) + Ceil(h.filesz)
    requires d == f[h.offset..h.offset + h.filesz] && p == PhdrBytes(Moved(h, Base(n) + Size(hs)))
    ensures Laid(f, hs + [h], n, len)
         == Parts(EhdrBytes(Entry(f), n), Table(hs, Base(n)) + p, Room(n) - Room(|hs| + 1),
                  Segments(f, hs) + d + Zeros(Ceil(h.filesz) - h.filesz), len - Base(n) - Size(hs) - Ceil(h.filesz))
  {
    hide EhdrBytes, PhdrBytes, Blit, Zeros, Ceil, Table, Segments, Size, InFile, Parts, Entry, Moved, Room;
    RoomUpTo(|hs|, n);
    TableNext(hs, h, Base(n));
    SegmentsNext(f, hs, h);
  }

  lemma {:induction false} LaidNow(f: seq<byte>, hs: seq<Phdr>, n: half, len: nat)
    requires |f| >= EHDR_SIZE && InFile(f, hs) && |hs| <= n && Base(n) + Size(hs) <= len < WORD
    ensures Laid(f, hs, n, len)
         == Parts(EhdrBytes(Entry(f), n), Table(hs, Base(n)), Room(n) - Room(|hs|), Segments(f, hs),
           len - Base(n) - Size(hs))
  {
    hide EhdrBytes, Table, Segments, Size, InFile, Parts, Entry, Room;
  }

  /** One more header and segment in place. */
  lemma {:induction false} LaidNext(f: seq<byte>, hs: seq<Phdr>, h: Phdr, n: half, len: nat, p: seq<byte>, d: seq<byte>)
    requires |f| >= EHDR_SIZE && InFile(f, hs + [h]) && |hs| < n && Base(n) + Size(hs + [h]) <= len < WORD
    requires InFile(f, hs) && h.offset + h.filesz <= |f| && Size(hs + [h]) == Size(hs) + Ceil(h.filesz)
    requires d == f[h.offset..h.offset + h.filesz] && p == PhdrBytes(Moved(h, Base(n) + Size(hs)))
    ensures Base(|hs|) + 32 <= Base(n) && Base(n) + Size(hs) + |d| <= len
    ensures Blit(Blit(Laid(f, hs, n, len), Base(|hs|), p), Base(n) + Size(hs), d) == Laid(f, hs + [h], n, len)
  {
    hide EhdrBytes, PhdrBytes, Blit, Zeros, Ceil, Table, Segments, Size, InFile, Parts, Entry, Moved, Room, Laid;
    RoomUpTo(|hs|, n);
    LaidNow(f, hs, n, len);
    LaidAfter(f, hs, h, n, len, p, d);
    TwoBlits(EhdrBytes(Entry(f), n), Table(hs, Base(n)), Room(n) - Room(|hs|), Segments(f, hs),
             len - Base(n) - Size(hs), p, d, Ceil(h.filesz) - h.filesz);
  }

  lemma {:induction false} TwoBlits(e: seq<byte>, t: seq<byte>, left: nat, g: seq<byte>, rest: nat, p: seq<byte>,
                                    d: seq<byte>, pad: nat)
    requires |p| <= left && |d| + pad <= rest
    ensures Blit(Blit(Parts(e, t, left, g, rest), |e| + |t|, p), |e| + |t| + left + |g|, d)
         == Parts(e, t + p, left - |p|, g + d + Zeros(pad), rest - |d| - pad)
  {
    hide Blit, Zeros;
    var m := e + t + Zeros(left) + g + Zeros(rest);
    assert m == (e + t) + Zeros(left) + (g + Zeros(rest));
    BlitZeros(e + t, left, g + Zeros(rest), p);
    var front := e + t + p + Zeros(left - |p|) + g;
    assert (e + t) + p + Zeros(left - |p|) + (g + Zeros(rest)) == front + Zeros(rest) + [];
    BlitZeros(front, rest, [], d);
    ZerosSplit(rest - |d|, pad);
    assert front + d + Zeros(rest - |d|) + []
        == e + (t + p) + Zeros(left - |p|) + (g + d + Zeros(pad)) + Zeros(rest - |d| - pad);
  }

  lemma ZerosSplit(n: nat, k: nat)
    requires k <= n
    ensures Zeros(n) == Zeros(k) + Zeros(n - k)
  {
  }

  lemma LaidAll(f: seq<byte>)
    requires Strippable(f)
    ensures var ks := Kept(f, PhNum(f)); Laid(f, ks, |ks|, Total(f)) == Stripped(f)
  {
  }

  /** The headers kept so far are a part of the ones kept in the end. */
  lemma {:induction false} KeptSoFar(f: seq<byte>, i: nat, n: nat)
    requires HasPhdrs(f) && i <= n <= PhNum(f) && InFile(f, Kept(f, n))
    ensures |Kept(f, i)| <= |Kept(f, n)| && InFile(f, Kept(f, i))
    ensures Room(|Kept(f, i)|) <= Room(|Kept(f, n)|) && Size(Kept(f, i)) <= Size(Kept(f, n))
    decreases n
  {
    hide Ceil, Keeps, PhdrOf;
    if i < n {
      var before, h := Kept(f, n - 1), PhdrOf(f, n - 1);
      if Keeps(h) { SizeNext(f, before, h); } else { assert before + [] == before; }
      KeptSoFar(f, i, n - 1);
    }
  }

  ghost predicate KeptAt(f: seq<byte>, i: nat) {
    HasPhdrs(f) && i < PhNum(f) && Keeps(PhdrOf(f, i))
  }

  // ----- strip_elf -----

  class Elf {
    const data: array<byte>
    var phdrs: nat
    var shdrs: Option<nat>

    constructor (data: array<byte>)
      ensures this.data == data && phdrs == 0 && shdrs == None
    {
      this.data := data;
      phdrs, shdrs := 0, None;
    }

    /** init_elf: find the header tables; the section headers only if there are any or they are
        asked for. */
    method InitElf(sections: bool) returns (ok: bool)
      requires EHDR_SIZE <= data.Length < WORD
      modifies this
      ensures var f := data[..]; var listed := Half(f, 48) > 0 && Word(f, 32) > 0;
              ok <==> HasPhdrs(f) && if listed then HasShdrs(f) else !sections
      ensures ok ==> phdrs == Word(data[..], 28)
      ensures ok ==> shdrs == if HasShdrs(data[..]) then Some(Word(data[..], 32)) else None
    {
      var f := data[..];
      var num: nat, off: nat := Half(f, 44), Word(f, 28);
      if num == 0 || off == 0 { return false; }
      if Half(f, 42) != PHDR_SIZE { return false; }
      if off + num * PHDR_SIZE > data.Length { return false; }
      phdrs := off;
      num, off := Half(f, 48), Word(f, 32);
      if num == 0 || off == 0 {
        if !sections { shdrs := None; return true; }
        return false;
      }
      if Half(f, 46) != SHDR_SIZE { return false; }
      if off + num * SHDR_SIZE > data.Length { return false; }
      shdrs := Some(off);
      return true;
    }
  }

  /** The first pass: how many headers stay, and how much room everything takes. */
  method Measure(elf: Elf) returns (count: nat, pos: nat)
    requires Strippable(elf.data[..]) && elf.phdrs == Word(elf.data[..], 28)
    ensures var f := elf.data[..]; count == |Kept(f, PhNum(f))| && pos == Total(f)
  {
    hide Size, Kept, Ceil, RoundUp32, InFile, KeptAt, Keeps, PhdrAt, PhdrOf;
    ghost var f := elf.data[..];
    ghost var n := PhNum(f);
    var phnum := Half(elf.data[..], 44);
    count, pos := 0, 64;    // round_up(sizeof(Elf32_Ehdr), ALIGNOFFSET)
    var i: nat := 0;
    NoneKept(f);
    while i < phnum
      invariant i <= n && count == |Kept(f, i)| && pos == 64 + Size(Kept(f, i))
    {
      KeptSoFar(f, i + 1, n);
      KeptNext(f, i);
      var h := PhdrAt(elf.data[..], elf.phdrs + 32 * i);
      KeptIs(f, i, h);
      if Keeps(h) {
        RoundUpCeil(h.filesz);
        pos := (pos + RoundUp32(h.filesz)) % WORD;
        count := count + 1;
      }
      i := i + 1;
    }
    pos := pos + Room(count);   // round_up leaves a multiple of 32 alone
  }

  lemma NoneKept(f: seq<byte>)
    requires HasPhdrs(f)
    ensures Kept(f, 0) == [] && Size([]) == 0
  {
  }

  lemma {:induction false} KeptNext(f: seq<byte>, i: nat)
    requires HasPhdrs(f) && i < PhNum(f) && InFile(f, Kept(f, i + 1))
    ensures !KeptAt(f, i) ==> Kept(f, i + 1) == Kept(f, i)
    ensures KeptAt(f, i) ==> Kept(f, i + 1) == Kept(f, i) + [PhdrOf(f, i)]
    ensures KeptAt(f, i) ==> Size(Kept(f, i + 1)) == Size(Kept(f, i)) + Ceil(PhdrOf(f, i).filesz)
  {
    hide Ceil, Keeps, PhdrOf, InFile, Size;
    assert Kept(f, i) + [] == Kept(f, i);
    if Keeps(PhdrOf(f, i)) { SizeNext(f, Kept(f, i), PhdrOf(f, i)); }
  }

  lemma BlitFront(a: seq<byte>, n: nat, d: seq<byte>)
    requires |d| <= n
    ensures Blit(a + Zeros(n), |a|, d) == (a + d) + Zeros(n - |d|)
  {
    BlitZeros(a, n, [], d);
    assert a + Zeros(n) + [] == a + Zeros(n);
  }

  lemma ZerosFront(a: seq<byte>, k: nat, n: nat)
    requires k <= n
    ensures a + Zeros(n) == (a + Zeros(k)) + Zeros(n - k)
  {
    ZerosSplit(n, k);
  }

  method PutIdent(out: array<byte>)
    requires out.Length >= 64 && out[..] == Zeros(out.Length)
    modifies out
    ensures out[..] == [0x7F, 0x45, 0x4C, 0x46, 1, 2, 1, 0, 0, 0, 0, 0, 0, 0, 0, 0] + Zeros(out.Length - 16)
  {
    out[0], out[1], out[2], out[3] := 0x7F, 0x45, 0x4C, 0x46;
    out[4], out[5], out[6] := 1, 2, 1;
  }

  /** The new header, in a file of zeros. */
  method PutEhdr(out: array<byte>, entry: word, count: half)
    requires out.Length >= 64 && out[..] == Zeros(out.Length)
    modifies out
    ensures out[..] == EhdrBytes(entry, count) + Zeros(out.Length - 64)
  {
    hide Blit, Zeros, HalfBytes, WordBytes;
    ghost var n := out.Length;
    PutIdent(out);
    ghost var a: seq<byte> := [0x7F, 0x45, 0x4C, 0x46, 1, 2, 1, 0, 0, 0, 0, 0, 0, 0, 0, 0];
    PutHalf(out, 16, 2);        // e_type = ET_EXEC
    BlitFront(a, n - 16, HalfBytes(2));
    a := a + HalfBytes(2);
    PutHalf(out, 18, 20);       // e_machine = EM_PPC
    BlitFront(a, n - 18, HalfBytes(20));
    a := a + HalfBytes(20);
    PutWord(out, 20, 1);        // e_version = EV_CURRENT
    BlitFront(a, n - 20, WordBytes(1));
    a := a + WordBytes(1);
    PutWord(out, 24, entry);
    BlitFront(a, n - 24, WordBytes(entry));
    a := a + WordBytes(entry);
    PutWord(out, 28, 64);       // e_phoff
    BlitFront(a, n - 28, WordBytes(64));
    a := a + WordBytes(64);
    ZerosFront(a, 10, n - 32);
    a := a + Zeros(10);
    PutHalf(out, 42, PHDR_SIZE);
    BlitFront(a, n - 42, HalfBytes(PHDR_SIZE));
    a := a + HalfBytes(PHDR_SIZE);
    PutHalf(out, 44, count);
    BlitFront(a, n - 44, HalfBytes(count));
    a := a + HalfBytes(count);
    PutHalf(out, 46, SHDR_SIZE);
    BlitFront(a, n - 46, HalfBytes(SHDR_SIZE));
    a := a + HalfBytes(SHDR_SIZE);
    ZerosFront(a, 16, n - 48);
  }

  lemma LaidNone(f: seq<byte>, n: half, len: nat)
    requires |f| >= EHDR_SIZE && Base(n) <= len < WORD
    ensures Size([]) == 0 && InFile(f, []) && Laid(f, [], n, len) == EhdrBytes(Entry(f), n) + Zeros(len - 64)
  {
    hide EhdrBytes, Zeros;
    var e := EhdrBytes(Entry(f), n);
    ZerosSplit(len - 64, Room(n));
    assert e + [] + Zeros(Room(n)) + [] + Zeros(len - Base(n)) == e + (Zeros(Room(n)) + Zeros(len - Base(n)));
  }

  /** The body of the second pass for one kept header. */
  method PutSegment(out: array<byte>, elf: Elf, h: Phdr, ghost hs: seq<Phdr>, count: nat, pos: nat, ghost n: half)
    requires out != elf.data && elf.data.Length >= EHDR_SIZE && out.Length < WORD
    requires |hs| < n && count == |hs| && InFile(elf.data[..], hs + [h]) && InFile(elf.data[..], hs)
    requires Size(hs + [h]) == Size(hs) + Ceil(h.filesz) && Base(n) + Size(hs + [h]) <= out.Length
    requires pos == Base(n) + Size(hs) && h.offset + h.filesz <= elf.data.Length
    requires out[..] == Laid(elf.data[..], hs, n, out.Length)
    modifies out
    ensures out[..] == Laid(elf.data[..], hs + [h], n, out.Length)
  {
    hide Laid, Blit, InFile, Size, Ceil, PhdrBytes, Moved;
    ghost var f := elf.data[..];
    ghost var p, d := PhdrBytes(Moved(h, pos)), f[h.offset..h.offset + h.filesz];
    LaidNext(f, hs, h, n, out.Length, p, d);
    PutPhdr(out, 64 + 32 * count, Moved(h, pos));
    CopyInto(out, pos, elf.data, h.offset, h.filesz);
  }

  /** The second pass. The index of the wanted header, if any, becomes its index among the kept. */
  method LaySegments(out: array<byte>, elf: Elf, want: Option<nat>, all: half) returns (ndx: nat, found: bool)
    requires Strippable(elf.data[..]) && elf.phdrs == Word(elf.data[..], 28)
    requires var f := elf.data[..]; all == |Kept(f, PhNum(f))| && out.Length == Total(f)
    requires out != elf.data && InFile(elf.data[..], []) && Size([]) == 0
    requires out[..] == Laid(elf.data[..], [], all, out.Length)
    modifies out
    ensures out[..] == Stripped(elf.data[..])
    ensures want.Some? ==> (found <==> KeptAt(elf.data[..], want.value))
    ensures found ==> want.Some? && ndx == |Kept(elf.data[..], want.value)|
  {
    hide Laid, Stripped, Size, Kept, Ceil, RoundUp32, InFile, KeptAt, Keeps, PhdrAt, PhdrOf, Room;
    ghost var f := elf.data[..];
    ghost var n := PhNum(f);
    NoneKept(f);
    ndx, found := if want.Some? then want.value else 0, false;
    var phnum := Half(elf.data[..], 44);
    var count: nat := 0;
    var pos: nat := 64 + Room(all);
    var i: nat := 0;
    while i < phnum
      invariant i <= n && count == |Kept(f, i)| && pos == Base(all) + Size(Kept(f, i))
      invariant InFile(f, Kept(f, i)) && count <= all && pos <= out.Length
      invariant out[..] == Laid(f, Kept(f, i), all, out.Length)
      invariant found ==>
        want.Some? && want.value < i && ndx == |Kept(f, want.value)| <= want.value && KeptAt(f, want.value)
      invariant want.Some? && !found ==> ndx == want.value && (want.value < i ==> !KeptAt(f, want.value))
    {
      KeptSoFar(f, i + 1, n);
      KeptNext(f, i);
      var h := PhdrAt(elf.data[..], elf.phdrs + 32 * i);
      KeptIs(f, i, h);
      if Keeps(h) {
        if want.Some? && i == ndx { ndx, found := count, true; }
        SizeNext(f, Kept(f, i), h);
        PutSegment(out, elf, h, Kept(f, i), count, pos, all);
        RoundUpCeil(h.filesz);
        pos := (pos + RoundUp32(h.filesz)) % WORD;
        count := count + 1;
      }
      i := i + 1;
    }
    LaidAll(f);
    NotKept(f, want);
  }

  lemma NotKept(f: seq<byte>, want: Option<nat>)
    requires HasPhdrs(f)
    ensures want.Some? && want.value >= PhNum(f) ==> !KeptAt(f, want.value)
  {
  }

  /** strip_elf: the wanted header, if there is one, must be among the kept; its new index comes
      back. */
  method StripElf(elf: Elf, want: Option<nat>) returns (out: Option<Elf>, ndx: nat)
    requires Strippable(elf.data[..]) && elf.phdrs == Word(elf.data[..], 28)
    ensures out == None <==> Total(elf.data[..]) > 0x140_0000 || (want.Some? && !KeptAt(elf.data[..], want.value))
    ensures out.Some? ==> fresh(out.value) && fresh(out.value.data)
    ensures out.Some? ==>
      out.value.data[..] == Stripped(elf.data[..]) && out.value.phdrs == 64 && out.value.shdrs == None
    ensures out.Some? && want.Some? ==> ndx == |Kept(elf.data[..], want.value)|
  {
    hide Laid, Stripped, Size, Kept, Ceil, RoundUp32, InFile, KeptAt, EhdrBytes;
    ghost var f := elf.data[..];
    ndx := 0;
    var count: nat, pos: nat := Measure(elf);
    if pos > TOO_BIG { return None, ndx; }
    var data := Calloc(pos);
    PutEhdr(data, Word(elf.data[..], 24), count);
    LaidNone(f, count, pos);
    var found: bool;
    ndx, found := LaySegments(data, elf, want, count);
    if want.Some? && !found { return None, ndx; }
    var e := new Elf(data);
    e.phdrs := 64;
    out := Some(e);
  }

  lemma KeptIs(f: seq<byte>, i: nat, h: Phdr)
    requires HasPhdrs(f) && i < PhNum(f) && h == PhdrAt(f, Word(f, 28) + 32 * i)
    ensures KeptAt(f, i) <==> Keeps(h)
    ensures h == PhdrOf(f, i)
  {
  }
}
