/** wiipax/client/main.c: the whole of the packer, and that the file it writes is ready for the
    stub once it is loaded. */
module WiiPaxClient {
  import opened Numbers
  import opened Elf32
  import opened ElfStrip
  import opened ElfStripped
  import opened ElfLoad
  import opened ElfMeaning
  import opened ElfInject
  import opened ElfInjected
  import opened WiiPax
  import opened WiiPaxStub
  import Machine = LzmaMachine
  import Parse = LzmaRoundTrip
  import Symbols = LzmaSymbols
  import Decoder = LzmaDecode
  import Encoder = LzmaEncoder
  import Lzma = LzmaPack

  /** What the packer decided: where the struct goes, how the program was compressed, and where
      the data is to be found at run time. */
  datatype Packing = Packing(k: nat, off: nat, pr: Machine.Props, read: Machine.Props, syms: seq<Symbols.Symbol>,
                             props: seq<byte>, stream: seq<byte>, dataaddr: word)

  /** The file `out` is stub f with the compressed program g in it. */
  ghost predicate PackedAs(f: seq<byte>, g: seq<byte>, p: Packing, out: seq<byte>) {
    && Compressed(g, p.pr, p.read, p.syms, p.props, p.stream) && |p.stream| < WORD && LastEnds(f)
    && p.dataaddr == OrTop((LastPhdr(f).paddr + LastPhdr(f).filesz + Pad(End(LastPhdr(f)))) % WORD)
    && Shipped(f, p.k, p.off, Padded(p.stream), PayloadBytes(p.dataaddr, |p.stream|, |Stripped(g)|, p.props), out)
  }

  /** The rest of the stub does not overwrite the struct. */
  ghost predicate StructSpared(f: seq<byte>, p: Packing)
    requires Injectable(f, Padded(p.stream)) && p.k < |Kept(f, PhNum(f))|
  {
    forall j :: p.k < j < |PackedHeaders(f, Padded(p.stream))| ==>
      Spares(PackedHeaders(f, Padded(p.stream))[j], StructAt(f, p.k, p.off), StructAt(f, p.k, p.off) + PAYLOAD_SIZE)
  }

  lemma ShippedSmall(f: seq<byte>, k: nat, off: nat, src: seq<byte>, struct: seq<byte>, out: seq<byte>)
    requires Shipped(f, k, off, src, struct, out)
    ensures LastPhdr(f).filesz + Pad(End(LastPhdr(f))) < WORD
  {
    hide Injectable, Packed, Kept, LastPhdr, Pad, End, Blit, Place;
    LastIsSmall(f, src);
  }

  /** Once the packed file is loaded, the stub finds what it needs. */
  lemma PackedReady(f: seq<byte>, g: seq<byte>, p: Packing, out: seq<byte>, m: seq<byte>, r: Loaded)
    requires PackedAs(f, g, p, out) && Addressed(LastPhdr(f)) && StructSpared(f, p) && HasPhdrs(out)
    requires r == Ideal(out, AllPhdrs(out, PhNum(out)), m) && r.Done? && r.entry != 0
    ensures Ready(r.mem, StructAt(f, p.k, p.off), p.dataaddr, p.props, p.stream, |Stripped(g)|)
  {
    hide Parse.Parses, Parse.EncodeStream, Decoder.PropsDecode, Strippable, LastPhdr, Stripped, Shipped, StructAt;
    hide PackedHeaders, Ideal, AllPhdrs, Spares, Pad, End, PayloadBytes, OrTop, Translate, HasPhdrs, Padded,
      Addressed;
    StrippedFits(g);
    var src, struct := Padded(p.stream), PayloadBytes(p.dataaddr, |p.stream|, |Stripped(g)|, p.props);
    ShippedLoads(f, p.k, p.off, src, struct, out, m, r);
    ShippedSmall(f, p.k, p.off, src, struct, out);
    DataAddrExact(LastPhdr(f));
    SliceOfSlice(r.mem, p.dataaddr, p.dataaddr + |src|, 0, |p.stream|);
  }

  // ----- The packer -----

  /** The stub, stripped; k and off say where in it the struct goes. The program header that claims
      the place must be among the kept. */
  method StripStub(stub: Elf, offset: word)
    returns (out: Option<Elf>, k: nat, off: nat, ghost found: bool, ghost ndx: nat)
    requires Strippable(stub.data[..]) && stub.phdrs == Word(stub.data[..], 28)
    ensures found <==> exists i: nat :: i < PhNum(stub.data[..]) && Claims(PhdrOf(stub.data[..], i), offset)
    ensures found ==> ndx < PhNum(stub.data[..]) && Claims(PhdrOf(stub.data[..], ndx), offset)
    ensures found ==> forall i: nat :: i < ndx ==> !Claims(PhdrOf(stub.data[..], i), offset)
    ensures out == None <==> !found || Total(stub.data[..]) > TOO_BIG || !KeptAt(stub.data[..], ndx)
    ensures out.Some? ==> fresh(out.value) && fresh(out.value.data)
    ensures out.Some? ==> out.value.data[..] == Stripped(stub.data[..]) && out.value.phdrs == 64
    ensures out.Some? ==> k == |Kept(stub.data[..], ndx)| && off == offset - PhdrOf(stub.data[..], ndx).offset
  {
    hide Kept, Stripped, PhdrOf, Claims, KeptAt, Total, Word;
    var claimed: bool, i: nat;
    claimed, i, off := MapFileOffset(stub, offset);
    found, ndx, k, out := claimed, i, 0, None;
    if !claimed { return; }
    out, k := StripElf(stub, Some(i));
  }

  /** realloc to a multiple of 16, and zeros behind the stream. */
  method PadStream(stream: seq<byte>) returns (data: array<byte>)
    ensures fresh(data) && data[..] == Padded(stream)
  {
    data := Calloc((|stream| + 15) / 16 * 16);
    for i := 0 to |stream|
      invariant data[..i] == stream[..i] && data[i..] == Zeros(data.Length - i)
    {
      assert data[i + 1..] == Zeros(data.Length - i)[1..] == Zeros(data.Length - i - 1);
      data[i] := stream[i];
    }
    assert data[..] == data[..|stream|] + data[|stream|..];
  }

  /** The program, stripped, compressed, and unpacked once for a test. The output buffer of the
      encoder is twice as long as the input. */
  method CompressProgram(program: Elf, pr: Machine.Props, parse: seq<(nat, nat)>)
    returns (data: Option<array<byte>>, props: seq<byte>, lenIn: nat, lenOut: nat,
             ghost stream: seq<byte>, ghost read: Machine.Props, ghost syms: seq<Symbols.Symbol>)
    requires Strippable(program.data[..]) && program.phdrs == Word(program.data[..], 28)
    requires Machine.PropsOk(pr) && pr.dicSize <= 0x4000_0000
    requires var s := Stripped(program.data[..]);
             Parse.Parses(pr, s, 0, Parse.SENDER_INIT.reps, Encoder.WholeParse(s, parse))
    ensures syms == Encoder.WholeParse(Stripped(program.data[..]), parse)
    ensures stream == Parse.EncodeStream(pr, Stripped(program.data[..]), syms, true)
    ensures data == None <==> Total(program.data[..]) > TOO_BIG || |stream| > 2 * Total(program.data[..])
    ensures data.Some? ==> fresh(data.value) && data.value[..] == Padded(stream)
    ensures data.Some? ==> lenIn == |Stripped(program.data[..])| && lenOut == |stream| && |props| == 5
    ensures data.Some? ==> Compressed(program.data[..], pr, read, syms, props, stream)
  {
    hide Parse.Parses, Parse.EncodeStream, Decoder.PropsDecode, Encoder.WholeParse, Stripped, Kept, Word, Padded,
      Strippable;
    ghost var g := program.data[..];
    ghost var s := Stripped(g);
    syms, stream := Encoder.WholeParse(s, parse), Parse.EncodeStream(pr, s, Encoder.WholeParse(s, parse), true);
    data, props, lenIn, lenOut, read := None, [], 0, 0, pr;
    SizeIs(g);
    FirstByteIsNotLength(g);
    var pl: Option<Elf>, none: nat;
    pl, none := StripElf(program, None);
    if pl == None { return; }
    lenIn := pl.value.data.Length;
    var packed: seq<byte>;
    props, packed, read := Lzma.Compress(pr, pl.value.data[..], parse);
    if |packed| > 2 * lenIn { return; }
    var res := Lzma.LzmaDecodeClient(pl.value.data, props, packed, pr, read, s, syms);
    lenOut := |packed|;
    var padded := PadStream(packed);
    data := Some(padded);
  }

  lemma SizeIs(g: seq<byte>)
    requires Strippable(g)
    ensures |Stripped(g)| == Total(g)
  {
  }

  method PutPayload(a: array<byte>, o: nat, dataptr: word, lenIn: word, lenOut: word, props: seq<byte>)
    requires |props| == 5 && o + PAYLOAD_SIZE <= a.Length
    modifies a
    ensures a[..] == Blit(old(a[..]), o, PayloadBytes(dataptr, lenIn, lenOut, props))
  {
    hide Blit, WordBytes;
    ghost var m := a[..];
    PutWord(a, o, dataptr);
    PutWord(a, o + 4, lenIn);
    BlitTwice(m, o, WordBytes(dataptr), WordBytes(lenIn));
    ghost var d := WordBytes(dataptr) + WordBytes(lenIn);
    PutWord(a, o + 8, lenOut);
    BlitTwice(m, o, d, WordBytes(lenOut));
    d := d + WordBytes(lenOut);
    PutBytes(a, o + 12, props);
    BlitTwice(m, o, d, props);
  }

  method PutBytes(a: array<byte>, o: nat, d: seq<byte>)
    requires o + |d| <= a.Length
    modifies a
    ensures a[..] == Blit(old(a[..]), o, d)
  {
    ghost var m := a[..];
    for i := 0 to |d|
      invariant a[..] == Blit(m, o, d[..i])
    {
      BlitTwice(m, o, d[..i], [d[i]]);
      assert d[..i] + [d[i]] == d[..i + 1];
      a[o + i] := d[i];
    }
    assert d[..|d|] == d;
  }

  /** Where the struct goes in the packed file. */
  lemma StructFits(f: seq<byte>, src: seq<byte>, k: nat, off: nat)
    requires Injectable(f, src) && k < |Kept(f, PhNum(f))| && off + PAYLOAD_SIZE <= Kept(f, PhNum(f))[k].filesz
    ensures 64 + 32 * k + 32 <= |Packed(f, src)|
    ensures PhdrAt(Packed(f, src), 64 + 32 * k).offset == Place(Kept(f, PhNum(f)), k)
    ensures Place(Kept(f, PhNum(f)), k) + off + PAYLOAD_SIZE <= |Packed(f, src)|
  {
    hide Kept, Packed, Stripped, Place, PhdrAt, Half, Word, Pad, Ceil, End, LastPhdr, Grown, Extra;
    PackedHeader(f, src);
    PackedHeadersAre(f, src, k);
    AllAt(Packed(f, src), PhNum(Packed(f, src)), k);
    PhdrIs(Packed(f, src), k);
    PlacesIn(f, Kept(f, PhNum(f)), k);
    EndsSafe(f, src);
    RoomUpTo(k, |Kept(f, PhNum(f))|);
  }

  /** The last step: the data behind the stub, and the struct that describes it. */
  method Assemble(stub: Elf, k: nat, off: nat, data: array<byte>, props: seq<byte>, lenIn: word, lenOut: word,
                  ghost f: seq<byte>)
    returns (out: Option<Elf>, ghost dataaddr: word)
    requires Strippable(f) && stub.data[..] == Stripped(f) && stub.phdrs == 64 && stub.data.Length <= TOO_BIG
    requires k < |Kept(f, PhNum(f))| && off + PAYLOAD_SIZE <= Kept(f, PhNum(f))[k].filesz
    requires |props| == 5 && data.Length <= 2 * TOO_BIG + 16
    ensures out == None <==> LastPhdr(f).filesz != LastPhdr(f).memsz
    ensures out.Some? ==> LastEnds(f) && fresh(out.value) && fresh(out.value.data)
    ensures out.Some? ==> dataaddr == OrTop((LastPhdr(f).paddr + LastPhdr(f).filesz + Pad(End(LastPhdr(f)))) % WORD)
    ensures out.Some? ==> Shipped(f, k, off, data[..], PayloadBytes(dataaddr, lenIn, lenOut, props), out.value.data[..])
  {
    hide Stripped, Kept, LastPhdr, Place, Pad, End, OrTop, Blit, PayloadBytes, PhdrAt, Ceil, Strippable, Injected;
    CeilBound(data.Length);
    var elf, at, dataptr := InjectElf(stub, data, f);
    out, dataaddr := elf, at;
    if elf.Some? {
      ghost var src := data[..];
      assert Injectable(f, src);
      assert elf.value.data[..] == Packed(f, src);
      StructFits(f, src, k, off);
      var o := PhdrAt(elf.value.data[..], elf.value.phdrs + 32 * k).offset + off;
      PutPayload(elf.value.data, o, at, lenIn, lenOut, props);
    }
  }

  lemma CeilBound(n: nat)
    ensures n <= Ceil(n) < n + 32
  {
  }

  /** The stub's own section for the struct lies within the segment that claims its place. */
  ghost predicate SectionFits(f: seq<byte>, offset: word) {
    HasPhdrs(f) && forall i: nat :: i < PhNum(f) && Claims(PhdrOf(f, i), offset) ==>
      offset - PhdrOf(f, i).offset + PAYLOAD_SIZE <= PhdrOf(f, i).filesz
  }

  /** The first header that claims the place of the struct is among the kept. */
  ghost predicate StubUsable(f: seq<byte>, offset: word)
    requires Strippable(f)
  {
    && Total(f) <= TOO_BIG
    && exists i: nat :: i < PhNum(f) && Claims(PhdrOf(f, i), offset) && KeptAt(f, i)
                        && forall j: nat :: j < i ==> !Claims(PhdrOf(f, j), offset)
  }

  lemma UsableIs(f: seq<byte>, offset: word, found: bool, ndx: nat)
    requires Strippable(f)
    requires found <==> exists i: nat :: i < PhNum(f) && Claims(PhdrOf(f, i), offset)
    requires found ==> ndx < PhNum(f) && Claims(PhdrOf(f, ndx), offset)
    requires found ==> forall i: nat :: i < ndx ==> !Claims(PhdrOf(f, i), offset)
    ensures StubUsable(f, offset) <==> found && Total(f) <= TOO_BIG && KeptAt(f, ndx)
  {
    hide PhdrOf, Claims, KeptAt, Total, Kept;
    if StubUsable(f, offset) {
      var i: nat :| i < PhNum(f) && Claims(PhdrOf(f, i), offset) && KeptAt(f, i)
        && forall j: nat :: j < i ==> !Claims(PhdrOf(f, j), offset);
      assert i <= ndx && ndx <= i;
    }
  }

  lemma StructRoom(f: seq<byte>, offset: word, ndx: nat)
    requires Strippable(f) && SectionFits(f, offset) && KeptAt(f, ndx) && Claims(PhdrOf(f, ndx), offset)
    ensures |Kept(f, ndx)| < |Kept(f, PhNum(f))| && PhdrOf(f, ndx).offset <= offset
    ensures offset - PhdrOf(f, ndx).offset + PAYLOAD_SIZE <= Kept(f, PhNum(f))[|Kept(f, ndx)|].filesz
  {
    hide PhdrOf, Kept;
    KeptWhere(f, ndx, PhNum(f));
  }

  /** main: fails, or writes the stub with the program in it. */
  method Pack(stub: Elf, offset: word, program: Elf, pr: Machine.Props, parse: seq<(nat, nat)>)
    returns (out: Option<Elf>, ghost p: Packing)
    requires Strippable(stub.data[..]) && stub.phdrs == Word(stub.data[..], 28) && SectionFits(stub.data[..], offset)
    requires Strippable(program.data[..]) && program.phdrs == Word(program.data[..], 28)
    requires Machine.PropsOk(pr) && pr.dicSize <= 0x4000_0000
    requires var s := Stripped(program.data[..]);
             Parse.Parses(pr, s, 0, Parse.SENDER_INIT.reps, Encoder.WholeParse(s, parse))
    ensures StubUsable(stub.data[..], offset) && Total(program.data[..]) <= TOO_BIG
            && |p.stream| <= 2 * Total(program.data[..]) && Kept(stub.data[..], PhNum(stub.data[..])) != []
            && LastPhdr(stub.data[..]).filesz == LastPhdr(stub.data[..]).memsz
        <==> out.Some?
    ensures out.Some? ==> fresh(out.value) && PackedAs(stub.data[..], program.data[..], p, out.value.data[..])
  {
    hide Parse.Parses, Parse.EncodeStream, Decoder.PropsDecode, Encoder.WholeParse, Stripped, Kept, Word, Padded,
      Strippable;
    hide PhdrOf, Claims, KeptAt, Total, LastPhdr, OrTop, Pad, End, Shipped, PayloadBytes, LastEnds, Compressed;
    ghost var f, g := stub.data[..], program.data[..];
    var elfStub: Option<Elf>, k: nat, off: nat;
    ghost var found: bool, ndx: nat;
    elfStub, k, off, found, ndx := StripStub(stub, offset);
    var data: Option<array<byte>>, props: seq<byte>, lenIn: nat, lenOut: nat;
    ghost var stream: seq<byte>, read: Machine.Props, syms: seq<Symbols.Symbol>;
    data, props, lenIn, lenOut, stream, read, syms := CompressProgram(program, pr, parse);
    p := Packing(k, off, pr, read, syms, props, stream, 0);
    UsableIs(f, offset, found, ndx);
    out := None;
    if elfStub == None || data == None { return; }
    StructRoom(f, offset, ndx);
    SizeIs(f);
    SizeIs(g);
    ghost var at: word;
    out, at := Assemble(elfStub.value, k, off, data.value, props, lenOut, lenIn, f);
    p := p.(dataaddr := at);
  }

  lemma IsCompressed(f: seq<byte>, g: seq<byte>, p: Packing, out: seq<byte>)
    requires PackedAs(f, g, p, out)
    ensures Compressed(g, p.pr, p.read, p.syms, p.props, p.stream)
  {
    hide Compressed, Shipped;
  }

  /** From the packer to the program: when the packed file has been loaded, the stub leaves memory
      outside of the code buffer as the original program's own load would, and starts it. */
  method RunPacked(mem: array<byte>, payload: nat, ghost f: seq<byte>, ghost g: seq<byte>, ghost p: Packing,
                   ghost out: seq<byte>, ghost before: seq<byte>)
    returns (entry: word)
    requires PackedAs(f, g, p, out) && Addressed(LastPhdr(f)) && StructSpared(f, p) && HasPhdrs(out)
    requires var r := Ideal(out, AllPhdrs(out, PhNum(out)), before); r.Done? && r.entry != 0 && r.mem == mem[..]
    requires payload == StructAt(f, p.k, p.off) && Loadable(g, mem[..])
    requires p.dataaddr + |p.stream| <= CODE_BUFFER || CODE_BUFFER + |Stripped(g)| <= p.dataaddr
    modifies mem
    ensures var original := Ideal(g, AllPhdrs(g, PhNum(g)), old(mem[..]));
            && SameOutside(mem[..], original.mem, CODE_BUFFER, |Stripped(g)|)
            && (entry == original.entry <==> Kept(g, PhNum(g)) != [])
  {
    hide PackedAs, Compressed, Loadable, Ideal, AllPhdrs, Ready, Addressed, StructSpared, Stripped, Kept, SameOutside;
    hide Half, Word, StructAt;
    IsCompressed(f, g, p, out);
    PackedReady(f, g, p, out, before, Ideal(out, AllPhdrs(out, PhNum(out)), before));
    entry := StubMain(mem, payload, p.dataaddr, p.props, p.stream, g, p.pr, p.read, p.syms);
  }
}
