/** wiipax/stub/elf.c: the stub loads the unpacked ELF file from memory into memory, rewriting the
    addresses in its program headers and clearing each segment behind the copy. */
module ElfLoad {
  import opened Numbers
  import opened Elf32

  /** What becomes of the memory: an access beyond its end, a refusal (entry 0), or an entry point. */
  datatype Loaded = Fault | Done(mem: seq<byte>, entry: word)

  /** One program header: an access beyond the end, a refusal, or on to the next. */
  datatype Step = Crash | Refuse(mem: seq<byte>) | Next(mem: seq<byte>)

  /** `p & 0x3FFFFFFF | 0x80000000`: a physical address as the stub's address translation sees it. */
  function Translate(p: word): (r: word)
    ensures 0x8000_0000 <= r < 0xC000_0000
  {
    p % 0x4000_0000 + 0x8000_0000
  }

  /** wiipax/stub/string.c: memcpy goes from the first byte to the last, whatever it overwrites. */
  function Copy(m: seq<byte>, dst: nat, src: nat, n: nat): (r: seq<byte>)
    requires dst + n <= |m| && src + n <= |m|
    ensures |r| == |m|
    decreases n
  {
    if n == 0 then m else Copy(m[dst := m[src]], dst + 1, src + 1, n - 1)
  }

  /** The loop body for the program header at o. */
  function LoadOne(m: seq<byte>, addr: nat, o: nat): (r: Step)
    ensures r.Next? ==> |r.mem| == |m|
    ensures r.Refuse? ==> |r.mem| == |m|
  {
    if o + 32 > |m| then Crash
    else
      var h := PhdrAt(m, o);
      if h.kind != PT_LOAD then Next(m)
      else
        var dst := Translate(h.paddr);
        var m1 := Blit(m, o + 12, WordBytes(dst));
        if h.filesz > h.memsz then Refuse(m1)
        else if h.filesz == 0 then Next(m1)
        else
          var image := addr + h.offset;
          if dst + h.filesz > |m| || image + h.filesz > |m| then Crash
          else
            var m2 := Copy(m1, dst, image, h.filesz);
            var cleared := Word(m2, o + 16);      // p_filesz is read again
            if image + cleared > |m| then Crash
            else Next(Blit(m2, image, Zeros(cleared)))
  }

  function LoadFrom(m: seq<byte>, addr: nat, phdrs: nat, i: nat): Loaded
    requires addr + EHDR_SIZE <= |m| && i < 0x1_0000
    decreases 0x1_0000 - i
  {
    if i >= Half(m, addr + 44) then Done(m, Word(m, addr + 24))
    else
      match LoadOne(m, addr, phdrs + 32 * i)
      case Crash => Fault
      case Refuse(m') => Done(m', 0)
      case Next(m') => LoadFrom(m', addr, phdrs, i + 1)
  }

  function LoadImage(m: seq<byte>, addr: nat): Loaded {
    if addr + EHDR_SIZE > |m| then Fault
    else if Word(m, addr + 28) == 0 || Half(m, addr + 44) == 0 then Done(m, 0)
    else if Half(m, addr + 42) != PHDR_SIZE then Done(m, 0)
    else LoadFrom(m, addr, addr + Word(m, addr + 28), 0)
  }

  // ----- The loops -----

  method Memcpy(mem: array<byte>, dst: nat, src: nat, n: nat)
    requires dst + n <= mem.Length && src + n <= mem.Length
    modifies mem
    ensures mem[..] == Copy(old(mem[..]), dst, src, n)
  {
    var p, q, left: nat := dst, src, n;
    while left > 0
      invariant p == dst + n - left && q == src + n - left && left <= n
      invariant Copy(mem[..], p, q, left) == Copy(old(mem[..]), dst, src, n)
    {
      ghost var m := mem[..];
      mem[p] := mem[q];
      assert mem[..] == m[p := m[q]];
      p, q, left := p + 1, q + 1, left - 1;
    }
  }

  method Memset0(mem: array<byte>, dst: nat, n: nat)
    requires dst + n <= mem.Length
    modifies mem
    ensures mem[..] == Blit(old(mem[..]), dst, Zeros(n))
  {
    ghost var m := mem[..];
    var i: nat := 0;
    while i < n
      invariant i <= n && mem[..] == Blit(m, dst, Zeros(i))
    {
      BlitTwice(m, dst, Zeros(i), [0]);
      assert Zeros(i) + [0] == Zeros(i + 1);
      mem[dst + i] := 0;
      i := i + 1;
    }
  }

  method LoadSegment(mem: array<byte>, addr: nat, o: nat) returns (ok: bool)
    requires !LoadOne(mem[..], addr, o).Crash?
    modifies mem
    ensures LoadOne(old(mem[..]), addr, o) == if ok then Next(mem[..]) else Refuse(mem[..])
  {
    hide Copy, Blit, WordBytes, Zeros, Translate, PhdrAt, Word;
    var h := PhdrAt(mem[..], o);
    if h.kind != PT_LOAD { return true; }
    PutWord(mem, o + 12, Translate(h.paddr));
    if h.filesz > h.memsz { return false; }
    if h.filesz > 0 {
      Memcpy(mem, Translate(h.paddr), addr + h.offset, h.filesz);
      Memset0(mem, addr + h.offset, Word(mem[..], o + 16));
    }
    ok := true;
  }

  lemma LoadNext(m: seq<byte>, addr: nat, phdrs: nat, i: nat)
    requires addr + EHDR_SIZE <= |m| && i < Half(m, addr + 44)
    ensures LoadFrom(m, addr, phdrs, i) == match LoadOne(m, addr, phdrs + 32 * i)
              case Crash => Fault
              case Refuse(m') => Done(m', 0)
              case Next(m') => LoadFrom(m', addr, phdrs, i + 1)
  {
    hide LoadOne, Half, Word;
  }

  lemma LoadEnd(m: seq<byte>, addr: nat, phdrs: nat, i: nat)
    requires addr + EHDR_SIZE <= |m| && Half(m, addr + 44) <= i < 0x1_0000
    ensures LoadFrom(m, addr, phdrs, i) == Done(m, Word(m, addr + 24))
  {
    hide LoadOne, Half, Word;
  }

  /** load_elf_image */
  method LoadElfImage(mem: array<byte>, addr: nat) returns (entry: word)
    requires LoadImage(mem[..], addr).Done?
    modifies mem
    ensures LoadImage(old(mem[..]), addr) == Done(mem[..], entry)
  {
    hide LoadOne, Half, Word, LoadFrom;
    ghost var m0 := mem[..];
    if Word(mem[..], addr + 28) == 0 || Half(mem[..], addr + 44) == 0 { return 0; }
    if Half(mem[..], addr + 42) != PHDR_SIZE { return 0; }
    var phdrs := addr + Word(mem[..], addr + 28);
    var i: nat := 0;
    while i < Half(mem[..], addr + 44)
      invariant i < 0x1_0000
      invariant LoadFrom(mem[..], addr, phdrs, i) == LoadImage(m0, addr)
      decreases 0x1_0000 - i
    {
      LoadNext(mem[..], addr, phdrs, i);
      var ok := LoadSegment(mem, addr, phdrs + 32 * i);
      if !ok { return 0; }
      i := i + 1;
    }
    LoadEnd(mem[..], addr, phdrs, i);
    entry := Word(mem[..], addr + 24);
  }

  /** valid_elf_image */
  function ValidImage(m: seq<byte>, addr: nat): int
    requires addr + EHDR_SIZE <= |m|
  {
    if m[addr..addr + 4] != [0x7F, 0x45, 0x4C, 0x46] then 0
    else if m[addr + 4] != 1 || m[addr + 5] != 2 || m[addr + 6] != 1 then -1
    else if Half(m, addr + 16) != 2 || Half(m, addr + 18) != 20 then -1
    else 1
  }

  // ----- Copies that do not overlap -----

  lemma {:induction false} CopyApart(m: seq<byte>, dst: nat, src: nat, n: nat)
    requires dst + n <= |m| && src + n <= |m| && (dst + n <= src || src + n <= dst)
    ensures Copy(m, dst, src, n) == Blit(m, dst, m[src..src + n])
    decreases n
  {
    hide Blit;
    if n > 0 {
      var m1 := m[dst := m[src]];
      CopyApart(m1, dst + 1, src + 1, n - 1);
      CopyFirst(m, m1, dst, src, n);
    } else {
      BlitNone(m, dst, m[src..src]);
    }
  }

  lemma BlitNone(m: seq<byte>, at: nat, d: seq<byte>)
    requires at <= |m| && d == []
    ensures Blit(m, at, d) == m
  {
  }

  lemma CopyFirst(m: seq<byte>, m1: seq<byte>, dst: nat, src: nat, n: nat)
    requires 0 < n && dst + n <= |m| && src + n <= |m| && (dst + n <= src || src + n <= dst) && m1 == m[dst := m[src]]
    ensures Blit(m1, dst + 1, m1[src + 1..src + n]) == Blit(m, dst, m[src..src + n])
  {
    var a, b := [m[src]], m[src + 1..src + n];
    assert m1[src + 1..src + n] == b;
    assert m[src..src + n] == a + b;
    assert m1 == Blit(m, dst, a);
    BlitTwice(m, dst, a, b);
  }
}
