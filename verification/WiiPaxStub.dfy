/** wiipax/stub/main.c: unpack the data behind the stub to the code buffer and load it. What was
    packed by the client runs as the original would. */
module WiiPaxStub {
  import opened Numbers
  import opened Elf32
  import opened ElfStrip
  import opened ElfLoad
  import opened ElfMeaning
  import opened ElfInjected
  import opened WiiPax
  import Machine = LzmaMachine
  import Parse = LzmaRoundTrip
  import Symbols = LzmaSymbols
  import Decoder = LzmaDecode
  import Lzma = LzmaPack

  const CODE_BUFFER: int := 0x9010_0000

  /** A program as it was packed: the compressed stream and its header, and the encoder's choices. */
  ghost predicate Compressed(program: seq<byte>, pr: Machine.Props, read: Machine.Props, syms: seq<Symbols.Symbol>,
                             props: seq<byte>, stream: seq<byte>)
  {
    && Strippable(program) && Machine.PropsOk(pr) && |props| == 5
    && Decoder.PropsDecode(props) == Decoder.Decoded5(read) && Lzma.SameButLarger(pr, read)
    && Parse.Parses(pr, Stripped(program), 0, Parse.SENDER_INIT.reps, syms)
    && stream == Parse.EncodeStream(pr, Stripped(program), syms, true)
  }

  /** Memory in which the stub finds the data. */
  ghost predicate Ready(m: seq<byte>, payload: nat, dataptr: word, props: seq<byte>, stream: seq<byte>, lenOut: word) {
    && |props| == 5 && payload + PAYLOAD_SIZE <= |m| && dataptr + |stream| <= |m| && |stream| < WORD
    && m[payload..payload + PAYLOAD_SIZE] == PayloadBytes(dataptr, |stream|, lenOut, props)
    && m[dataptr..dataptr + |stream|] == stream
  }

  // ----- The ideal load does not look at the code buffer -----

  lemma {:induction false} IdealOutside(f: seq<byte>, hs: seq<Phdr>, c: seq<byte>, d: seq<byte>, addr: nat, len: nat)
    requires |f| >= EHDR_SIZE && SameOutside(c, d, addr, len)
    requires forall j :: 0 <= j < |hs| ==> Spares(hs[j], addr, addr + len)
    ensures var r, i := Ideal(f, hs, c), Ideal(f, hs, d);
            && (r.Done? <==> i.Done?)
            && (r.Done? ==> r.entry == i.entry && SameOutside(r.mem, i.mem, addr, len))
    decreases |hs|
  {
    hide Translate, Blit, Entry, SameOutside, Spares;
    SameLength(c, d, addr, len);
    if hs != [] {
      var h := hs[0];
      assert Spares(h, addr, addr + len);
      OneOutside(f, h, c, d, addr, len);
      var a, b := IdealOne(f, h, c), IdealOne(f, h, d);
      assert forall j :: 0 <= j < |hs| - 1 ==> hs[1..][j] == hs[j + 1];
      if a.Next? { IdealOutside(f, hs[1..], a.mem, b.mem, addr, len); }
    }
  }

  lemma OneOutside(f: seq<byte>, h: Phdr, c: seq<byte>, d: seq<byte>, addr: nat, len: nat)
    requires SameOutside(c, d, addr, len) && Spares(h, addr, addr + len)
    ensures var a, b := IdealOne(f, h, c), IdealOne(f, h, d);
            && (a.Next? <==> b.Next?) && (a.Refuse? <==> b.Refuse?)
            && (a.Next? ==> SameOutside(a.mem, b.mem, addr, len))
            && (a.Refuse? ==> SameOutside(a.mem, b.mem, addr, len))
  {
    hide Translate, Blit;
    if IdealOne(f, h, c).Next? && h.kind == PT_LOAD && h.filesz > 0 {
      BlitOutside(c, d, addr, len, Translate(h.paddr), f[h.offset..h.offset + h.filesz]);
    }
  }

  lemma PlacedOutside(m: seq<byte>, addr: nat, s: seq<byte>)
    requires addr + |s| <= |m|
    ensures SameOutside(Blit(m, addr, s), m, addr, |s|) && Blit(m, addr, s)[addr..addr + |s|] == s
  {
    hide Blit;
    BlitEnds(m, addr, s, addr, addr + |s|);
  }

  lemma OutsideTrans(a: seq<byte>, b: seq<byte>, c: seq<byte>, addr: nat, len: nat)
    requires SameOutside(a, b, addr, len) && SameOutside(b, c, addr, len)
    ensures SameOutside(a, c, addr, len)
  {
  }

  /** The program loads by itself into memory m, and nothing of it goes to the code buffer. */
  ghost predicate Loadable(program: seq<byte>, m: seq<byte>) {
    && Strippable(program) && CODE_BUFFER + |Stripped(program)| <= |m|
    && (forall j :: 0 <= j < PhNum(program) ==>
          Spares(AllPhdrs(program, PhNum(program))[j], CODE_BUFFER, CODE_BUFFER + |Stripped(program)|))
    && Ideal(program, AllPhdrs(program, PhNum(program)), m).Done?
    && Ideal(program, AllPhdrs(program, PhNum(program)), m).entry != 0
  }

  lemma {:induction false} KeptSpares(f: seq<byte>, n: nat, k: nat, a: nat, b: nat)
    requires HasPhdrs(f) && n <= PhNum(f) && k < |Kept(f, n)|
    requires forall j :: 0 <= j < n ==> Spares(PhdrOf(f, j), a, b)
    ensures Clear(Kept(f, n)[k], a, b)
    decreases n
  {
    hide PhdrOf, Clear;
    if n > 0 && k < |Kept(f, n - 1)| { KeptSpares(f, n - 1, k, a, b); }
  }

  /** The unpacked program at the code buffer is loaded as the original is loaded without it. */
  lemma PlacedLoads(f: seq<byte>, m: seq<byte>, placed: seq<byte>)
    requires Loadable(f, m) && placed == Blit(m, CODE_BUFFER, Stripped(f))
    ensures CODE_BUFFER + EHDR_SIZE <= |placed| && ValidImage(placed, CODE_BUFFER) == 1
    ensures var r, original := LoadImage(placed, CODE_BUFFER), Ideal(f, AllPhdrs(f, PhNum(f)), m);
            && r.Done? && SameOutside(r.mem, original.mem, CODE_BUFFER, |Stripped(f)|)
            && (r.entry == original.entry <==> Kept(f, PhNum(f)) != [])
  {
    hide Stripped, Kept, Ideal, LoadImage, AllPhdrs, SameOutside, Blit, Spares, Clear, ValidImage;
    var s, hs, ks := Stripped(f), AllPhdrs(f, PhNum(f)), Kept(f, PhNum(f));
    PlacedOutside(m, CODE_BUFFER, s);
    IdealOutside(f, hs, placed, m, CODE_BUFFER, |s|);
    forall j | 0 <= j < PhNum(f) ensures Spares(PhdrOf(f, j), CODE_BUFFER, CODE_BUFFER + |s|) {
      AllAt(f, PhNum(f), j);
    }
    forall j | 0 <= j < |ks| ensures Clear(ks[j], CODE_BUFFER, CODE_BUFFER + |s|) {
      KeptSpares(f, PhNum(f), j, CODE_BUFFER, CODE_BUFFER + |s|);
    }
    SameLength(placed, m, CODE_BUFFER, |s|);
    StripPreservesLoad(f, placed, CODE_BUFFER);
    OutsideTrans(LoadImage(placed, CODE_BUFFER).mem, Ideal(f, hs, placed).mem, Ideal(f, hs, m).mem, CODE_BUFFER, |s|);
  }

  /** decode: unpack from where the struct says to the code buffer. */
  method DecodePayload(mem: array<byte>, payload: nat, ghost dataptr: word, ghost props: seq<byte>,
                       ghost stream: seq<byte>, ghost program: seq<byte>, ghost pr: Machine.Props,
                       ghost read: Machine.Props, ghost syms: seq<Symbols.Symbol>)
    returns (ok: bool)
    requires Compressed(program, pr, read, syms, props, stream)
    requires Ready(mem[..], payload, dataptr, props, stream, |Stripped(program)|)
    requires CODE_BUFFER + |Stripped(program)| <= mem.Length
    requires dataptr + |stream| <= CODE_BUFFER || CODE_BUFFER + |Stripped(program)| <= dataptr
    modifies mem
    ensures ok && mem[..] == Blit(old(mem[..]), 0x9010_0000, Stripped(program))
  {
    hide Stripped, Word, Blit, Strippable, Parse.EncodeStream, Parse.Parses, Decoder.PropsDecode, Ready, PayloadBytes;
    StrippedFits(program);
    ReadyMeans(mem[..], payload, dataptr, props, stream, |Stripped(program)|);
    var m := mem[..];
    var data: nat, lenIn: nat, lenOut: nat := Word(m, payload), Word(m, payload + 4), Word(m, payload + 8);
    var dest := Calloc(lenOut);
    var res, len := Lzma.Decompress(dest, m[payload + 12..payload + 17], m[data..data + lenIn], pr, read,
      Stripped(program), syms);
    CopyInto(mem, CODE_BUFFER, dest, 0, lenOut);
    assert dest[0..lenOut] == dest[..];
    ok := res == Decoder.SZ_OK;
  }

  lemma StrippedFits(f: seq<byte>)
    requires Strippable(f)
    ensures |Stripped(f)| < WORD
  {
  }

  lemma ReadyMeans(m: seq<byte>, payload: nat, dataptr: word, props: seq<byte>, stream: seq<byte>, lenOut: word)
    requires Ready(m, payload, dataptr, props, stream, lenOut)
    ensures payload + PAYLOAD_SIZE <= |m| && dataptr + |stream| <= |m| && m[dataptr..dataptr + |stream|] == stream
    ensures Word(m, payload) == dataptr && Word(m, payload + 4) == |stream| && Word(m, payload + 8) == lenOut
    ensures m[payload + 12..payload + 17] == props
  {
    hide PayloadBytes, Word;
    PayloadBack(m, payload, dataptr, |stream|, lenOut, props);
  }

  /** stubmain: 0 stands for the error loop. The entry point and memory outside of the code buffer
      are those of the original program's own load. */
  method StubMain(mem: array<byte>, payload: nat, ghost dataptr: word, ghost props: seq<byte>, ghost stream: seq<byte>,
                  ghost program: seq<byte>, ghost pr: Machine.Props, ghost read: Machine.Props,
                  ghost syms: seq<Symbols.Symbol>)
    returns (entry: word)
    requires Compressed(program, pr, read, syms, props, stream)
    requires Ready(mem[..], payload, dataptr, props, stream, |Stripped(program)|)
    requires Loadable(program, mem[..])
    requires dataptr + |stream| <= CODE_BUFFER || CODE_BUFFER + |Stripped(program)| <= dataptr
    modifies mem
    ensures var original := Ideal(program, AllPhdrs(program, PhNum(program)), old(mem[..]));
            && SameOutside(mem[..], original.mem, CODE_BUFFER, |Stripped(program)|)
            && (entry == original.entry <==> Kept(program, PhNum(program)) != [])
  {
    hide Stripped, Kept, Ideal, LoadImage, AllPhdrs, SameOutside, Blit, Spares, ValidImage, Compressed, Ready;
    ghost var m := mem[..];
    var ok := DecodePayload(mem, payload, dataptr, props, stream, program, pr, read, syms);
    PlacedLoads(program, m, mem[..]);
    if ok && ValidImage(mem[..], CODE_BUFFER) != 0 {
      entry := LoadElfImage(mem, CODE_BUFFER);
    } else {
      assert false;
    }
  }
}
