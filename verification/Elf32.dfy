/** The parts of wiipax/client/elf_abi.h that the packer and the stub use: big-endian fields at
    fixed offsets, and blocks of bytes written over others. */
module Elf32 {
  import opened Numbers

  type half = x: int | 0 <= x < 0x1_0000
  type word = x: int | 0 <= x < 0x1_0000_0000

  const EHDR_SIZE: int := 52
  const PHDR_SIZE: int := 32
  const SHDR_SIZE: int := 40
  const PT_LOAD: int := 1

  datatype Option<T> = None | Some(value: T)

  /** A program header; `kind` is its p_type. */
  datatype Phdr = Phdr(kind: word, offset: word, vaddr: word, paddr: word,
                       filesz: word, memsz: word, flags: word, align: word)

  function HalfBytes(v: half): (r: seq<byte>)
    ensures |r| == 2
  {
    [v / 0x100, v % 0x100]
  }

  function WordBytes(v: word): (r: seq<byte>)
    ensures |r| == 4
  {
    [v / 0x100_0000, v / 0x1_0000 % 0x100, v / 0x100 % 0x100, v % 0x100]
  }

  function Half(s: seq<byte>, o: nat): half
    requires o + 2 <= |s|
  {
    s[o] as int * 0x100 + s[o + 1]
  }

  function Word(s: seq<byte>, o: nat): word
    requires o + 4 <= |s|
  {
    s[o] as int * 0x100_0000 + s[o + 1] as int * 0x1_0000 + s[o + 2] as int * 0x100 + s[o + 3]
  }

  function PhdrBytes(h: Phdr): (r: seq<byte>)
    ensures |r| == 32
  {
    WordBytes(h.kind) + WordBytes(h.offset) + WordBytes(h.vaddr) + WordBytes(h.paddr)
    + WordBytes(h.filesz) + WordBytes(h.memsz) + WordBytes(h.flags) + WordBytes(h.align)
  }

  function PhdrAt(s: seq<byte>, o: nat): Phdr
    requires o + 32 <= |s|
  {
    Phdr(Word(s, o), Word(s, o + 4), Word(s, o + 8), Word(s, o + 12),
         Word(s, o + 16), Word(s, o + 20), Word(s, o + 24), Word(s, o + 28))
  }

  function Zeros(n: nat): (r: seq<byte>)
    ensures |r| == n
  {
    seq(n, _ => 0)
  }

  /** m with the bytes d from `at` on. */
  function Blit(m: seq<byte>, at: nat, d: seq<byte>): (r: seq<byte>)
    requires at + |d| <= |m|
    ensures |r| == |m|
    ensures r[..at] == m[..at] && r[at..at + |d|] == d && r[at + |d|..] == m[at + |d|..]
  {
    m[..at] + d + m[at + |d|..]
  }

  // ----- Fields come back -----

  lemma HalfBack(s: seq<byte>, o: nat, v: half)
    requires o + 2 <= |s| && s[o..o + 2] == HalfBytes(v)
    ensures Half(s, o) == v
  {
    assert s[o] == s[o..o + 2][0] && s[o + 1] == s[o..o + 2][1];
  }

  lemma WordBack(s: seq<byte>, o: nat, v: word)
    requires o + 4 <= |s| && s[o..o + 4] == WordBytes(v)
    ensures Word(s, o) == v
  {
    var t := s[o..o + 4];
    assert s[o] == t[0] && s[o + 1] == t[1] && s[o + 2] == t[2] && s[o + 3] == t[3];
    assert v / 0x1_0000 == v / 0x100 / 0x100 && v / 0x100_0000 == v / 0x1_0000 / 0x100;
  }

  lemma PhdrBack(s: seq<byte>, o: nat, h: Phdr)
    requires o + 32 <= |s| && s[o..o + 32] == PhdrBytes(h)
    ensures PhdrAt(s, o) == h
  {
    hide WordBytes, Word;
    var t := s[o..o + 32];
    FieldBack(s, o, t, 0, h.kind);
    FieldBack(s, o, t, 4, h.offset);
    FieldBack(s, o, t, 8, h.vaddr);
    FieldBack(s, o, t, 12, h.paddr);
    FieldBack(s, o, t, 16, h.filesz);
    FieldBack(s, o, t, 20, h.memsz);
    FieldBack(s, o, t, 24, h.flags);
    FieldBack(s, o, t, 28, h.align);
  }

  lemma FieldBack(s: seq<byte>, o: nat, t: seq<byte>, k: nat, v: word)
    requires o + 32 <= |s| && s[o..o + 32] == t && k + 4 <= 32 && t[k..k + 4] == WordBytes(v)
    ensures Word(s, o + k) == v
  {
    hide WordBytes, Word;
    SliceOfSlice(s, o, o + 32, k, k + 4);
    WordBack(s, o + k, v);
  }

  /** A header is what its 32 bytes say, wherever they are. */
  lemma SamePhdr(s: seq<byte>, o: nat, t: seq<byte>, p: nat)
    requires o + 32 <= |s| && p + 32 <= |t| && s[o..o + 32] == t[p..p + 32]
    ensures PhdrAt(s, o) == PhdrAt(t, p)
  {
    hide Word;
    WordSame(s, o, t, p, 0);
    WordSame(s, o, t, p, 4);
    WordSame(s, o, t, p, 8);
    WordSame(s, o, t, p, 12);
    WordSame(s, o, t, p, 16);
    WordSame(s, o, t, p, 20);
    WordSame(s, o, t, p, 24);
    WordSame(s, o, t, p, 28);
  }

  lemma WordSame(s: seq<byte>, o: nat, t: seq<byte>, p: nat, k: nat)
    requires o + 32 <= |s| && p + 32 <= |t| && s[o..o + 32] == t[p..p + 32] && k + 4 <= 32
    ensures Word(s, o + k) == Word(t, p + k)
  {
    var a, b := s[o..o + 32], t[p..p + 32];
    assert s[o + k] == a[k] && s[o + k + 1] == a[k + 1] && s[o + k + 2] == a[k + 2] && s[o + k + 3] == a[k + 3];
    assert t[p + k] == b[k] && t[p + k + 1] == b[k + 1] && t[p + k + 2] == b[k + 2] && t[p + k + 3] == b[k + 3];
  }

  // ----- Blocks written one after the other -----

  lemma BlitTwice(m: seq<byte>, at: nat, a: seq<byte>, b: seq<byte>)
    requires at + |a| + |b| <= |m|
    ensures Blit(Blit(m, at, a), at + |a|, b) == Blit(m, at, a + b)
  {
  }

  lemma SliceOfSlice(s: seq<byte>, a: nat, b: nat, c: nat, d: nat)
    requires a <= b <= |s| && c <= d <= b - a
    ensures s[a..b][c..d] == s[a + c..a + d]
  {
    assert |s[a..b][c..d]| == |s[a + c..a + d]|;
    forall i: nat | i < d - c ensures s[a..b][c..d][i] == s[a + c..a + d][i] {
      assert s[a..b][c + i] == s[a + c + i];
    }
  }

  /** A block outside of the bytes written over is untouched. */
  lemma BlitApart(m: seq<byte>, at: nat, d: seq<byte>, lo: nat, hi: nat)
    requires at + |d| <= |m| && lo <= hi <= |m| && (hi <= at || at + |d| <= lo)
    ensures Blit(m, at, d)[lo..hi] == m[lo..hi]
  {
  }

  method PutHalf(a: array<byte>, o: nat, v: half)
    requires o + 2 <= a.Length
    modifies a
    ensures a[..] == Blit(old(a[..]), o, HalfBytes(v))
  {
    a[o], a[o + 1] := v / 0x100, v % 0x100;
  }

  method PutWord(a: array<byte>, o: nat, v: word)
    requires o + 4 <= a.Length
    modifies a
    ensures a[..] == Blit(old(a[..]), o, WordBytes(v))
  {
    a[o], a[o + 1], a[o + 2], a[o + 3] := v / 0x100_0000, v / 0x1_0000 % 0x100, v / 0x100 % 0x100, v % 0x100;
  }

  /** The eight fields of a header, one after the other. */
  method PutPhdr(a: array<byte>, o: nat, h: Phdr)
    requires o + 32 <= a.Length
    modifies a
    ensures a[..] == Blit(old(a[..]), o, PhdrBytes(h))
  {
    hide WordBytes, Blit;
    ghost var m := a[..];
    PutWord(a, o, h.kind);
    PutWord(a, o + 4, h.offset);
    BlitTwice(m, o, WordBytes(h.kind), WordBytes(h.offset));
    ghost var d := WordBytes(h.kind) + WordBytes(h.offset);
    PutWord(a, o + 8, h.vaddr);
    BlitTwice(m, o, d, WordBytes(h.vaddr));
    d := d + WordBytes(h.vaddr);
    PutWord(a, o + 12, h.paddr);
    BlitTwice(m, o, d, WordBytes(h.paddr));
    d := d + WordBytes(h.paddr);
    PutWord(a, o + 16, h.filesz);
    BlitTwice(m, o, d, WordBytes(h.filesz));
    d := d + WordBytes(h.filesz);
    PutWord(a, o + 20, h.memsz);
    BlitTwice(m, o, d, WordBytes(h.memsz));
    d := d + WordBytes(h.memsz);
    PutWord(a, o + 24, h.flags);
    BlitTwice(m, o, d, WordBytes(h.flags));
    d := d + WordBytes(h.flags);
    PutWord(a, o + 28, h.align);
    BlitTwice(m, o, d, WordBytes(h.align));
  }

  method Calloc(n: nat) returns (a: array<byte>)
    ensures fresh(a) && a.Length == n && a[..] == Zeros(n)
  {
    a := new byte[n](_ => 0);
  }

  /** memcpy from one buffer into another. */
  method CopyInto(dst: array<byte>, d: nat, src: array<byte>, s: nat, n: nat)
    requires dst != src && d + n <= dst.Length && s + n <= src.Length
    modifies dst
    ensures dst[..] == Blit(old(dst[..]), d, src[s..s + n])
  {
    ghost var m := dst[..];
    var i: nat := 0;
    while i < n
      invariant i <= n
      invariant dst[..] == Blit(m, d, src[s..s + i])
    {
      BlitTwice(m, d, src[s..s + i], [src[s + i]]);
      assert src[s..s + i] + [src[s + i]] == src[s..s + i + 1];
      dst[d + i] := src[s + i];
      i := i + 1;
    }
  }
}
