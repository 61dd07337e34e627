/** What the file strip_elf writes says when it is read back. */
module ElfStripped {
  import opened Numbers
  import opened Elf32
  import opened ElfStrip

  /** Where the k-th kept segment goes. */
  ghost function Place(ks: seq<Phdr>, k: nat): nat
    requires k <= |ks|
  {
    Base(|ks|) + Size(ks[..k])
  }

  lemma {:induction false} PlaceNext(ks: seq<Phdr>, k: nat)
    requires k < |ks|
    ensures Place(ks, k + 1) == Place(ks, k) + Ceil(ks[k].filesz)
  {
    hide Ceil;
    assert ks[..k + 1][..k] == ks[..k] && ks[..k + 1][k] == ks[k];
  }

  lemma {:induction false} PlacesGrow(ks: seq<Phdr>, j: nat, k: nat)
    requires j <= k <= |ks|
    ensures Place(ks, j) <= Place(ks, k)
    decreases k
  {
    hide Ceil, Place;
    if j < k {
      PlacesGrow(ks, j, k - 1);
      PlaceNext(ks, k - 1);
    }
  }

  lemma {:induction false} PlaceLast(f: seq<byte>)
    requires Strippable(f)
    ensures var ks := Kept(f, PhNum(f)); Place(ks, |ks|) == Total(f) == |Stripped(f)|
  {
    var ks := Kept(f, PhNum(f));
    assert ks[..|ks|] == ks;
  }

  /** Segments start at multiples of 32, behind the headers, do not overlap, and end in the file. */
  lemma PlacesApart(f: seq<byte>, j: nat, k: nat)
    requires Strippable(f) && j < k < |Kept(f, PhNum(f))|
    ensures var ks := Kept(f, PhNum(f));
            Base(|ks|) <= Place(ks, j) && Place(ks, j) + ks[j].filesz <= Place(ks, k)
    ensures var ks := Kept(f, PhNum(f)); Place(ks, k) + ks[k].filesz <= |Stripped(f)|
  {
    hide Place, Size, Kept, Stripped;
    var ks := Kept(f, PhNum(f));
    PlaceNext(ks, j);
    PlacesGrow(ks, j + 1, k);
    PlaceNext(ks, k);
    PlacesGrow(ks, k + 1, |ks|);
    PlaceLast(f);
    PlaceFirst(ks, j);
  }

  lemma PlaceFirst(ks: seq<Phdr>, j: nat)
    requires j <= |ks|
    ensures Base(|ks|) <= Place(ks, j)
  {
  }

  lemma {:induction false} PlaceAligned(ks: seq<Phdr>, k: nat)
    requires k <= |ks|
    ensures Place(ks, k) % 32 == 0
    decreases k
  {
    hide Ceil, Place;
    if k > 0 {
      PlaceAligned(ks, k - 1);
      PlaceNext(ks, k - 1);
      SumAligned(Place(ks, k - 1), Ceil(ks[k - 1].filesz));
    } else {
      FirstAligned(ks);
    }
  }

  lemma FirstAligned(ks: seq<Phdr>)
    ensures Place(ks, 0) % 32 == 0
  {
    assert ks[..0] == [];
  }

  lemma SumAligned(a: nat, b: nat)
    requires a % 32 == 0 && (b % 32 == 0 || exists x: nat :: b == Ceil(x))
    ensures (a + b) % 32 == 0
  {
  }

  // ----- The header -----

  lemma EhdrBack(s: seq<byte>, entry: word, count: half)
    requires |s| >= 64 && s[..64] == EhdrBytes(entry, count)
    ensures s[..7] == [0x7F, 0x45, 0x4C, 0x46, 1, 2, 1]
    ensures Half(s, 16) == 2 && Half(s, 18) == 20
    ensures Word(s, 24) == entry && Word(s, 28) == 64 && Half(s, 42) == PHDR_SIZE && Half(s, 44) == count
    ensures Half(s, 48) == 0
  {
    hide HalfBytes, WordBytes, Half, Word, Zeros;
    var e := EhdrBytes(entry, count);
    var id: seq<byte> := [0x7F, 0x45, 0x4C, 0x46, 1, 2, 1, 0, 0, 0, 0, 0, 0, 0, 0, 0];
    var a := id + HalfBytes(2) + HalfBytes(20) + WordBytes(1);
    var b := a + WordBytes(entry) + WordBytes(64) + Zeros(10);
    assert s[..7] == e[..7] == id[..7];
    EhdrFront(s, e, id, WordBytes(1) + WordBytes(entry) + WordBytes(64) + Zeros(10)
                        + HalfBytes(PHDR_SIZE) + HalfBytes(count) + HalfBytes(SHDR_SIZE) + Zeros(16));
    EhdrMiddle(s, e, a, entry, Zeros(10) + HalfBytes(PHDR_SIZE) + HalfBytes(count) + HalfBytes(SHDR_SIZE) + Zeros(16));
    EhdrRear(s, e, b, count);
  }

  lemma EhdrFront(s: seq<byte>, e: seq<byte>, a: seq<byte>, b: seq<byte>)
    requires e <= s && |a| == 16 && e == a + HalfBytes(2) + HalfBytes(20) + b
    ensures Half(s, 16) == 2 && Half(s, 18) == 20
  {
    hide HalfBytes, Half;
    FieldOf(s, e, a, HalfBytes(2), HalfBytes(20) + b);
    HalfBack(s, 16, 2);
    FieldOf(s, e, a + HalfBytes(2), HalfBytes(20), b);
    HalfBack(s, 18, 20);
  }

  lemma EhdrMiddle(s: seq<byte>, e: seq<byte>, a: seq<byte>, entry: word, b: seq<byte>)
    requires e <= s && |a| == 24 && e == a + WordBytes(entry) + WordBytes(64) + b
    ensures Word(s, 24) == entry && Word(s, 28) == 64
  {
    hide WordBytes, Word;
    FieldOf(s, e, a, WordBytes(entry), WordBytes(64) + b);
    WordBack(s, 24, entry);
    FieldOf(s, e, a + WordBytes(entry), WordBytes(64), b);
    WordBack(s, 28, 64);
  }

  lemma EhdrRear(s: seq<byte>, e: seq<byte>, a: seq<byte>, count: half)
    requires e <= s && |a| == 42 && e == a + HalfBytes(PHDR_SIZE) + HalfBytes(count) + HalfBytes(SHDR_SIZE) + Zeros(16)
    ensures Half(s, 42) == PHDR_SIZE && Half(s, 44) == count && Half(s, 48) == 0
  {
    hide HalfBytes, Half, Zeros;
    FieldOf(s, e, a, HalfBytes(PHDR_SIZE), HalfBytes(count) + HalfBytes(SHDR_SIZE) + Zeros(16));
    HalfBack(s, 42, PHDR_SIZE);
    FieldOf(s, e, a + HalfBytes(PHDR_SIZE), HalfBytes(count), HalfBytes(SHDR_SIZE) + Zeros(16));
    HalfBack(s, 44, count);
    NoSections(s, e, a + HalfBytes(PHDR_SIZE) + HalfBytes(count) + HalfBytes(SHDR_SIZE));
  }

  lemma NoSections(s: seq<byte>, e: seq<byte>, a: seq<byte>)
    requires e <= s && |a| == 48 && e == a + Zeros(16)
    ensures Half(s, 48) == 0
  {
    assert e[48] == 0 && e[49] == 0;
  }

  lemma FieldOf(s: seq<byte>, e: seq<byte>, a: seq<byte>, d: seq<byte>, b: seq<byte>)
    requires e <= s && e == a + d + b
    ensures s[|a|..|a| + |d|] == d
  {
  }

  /** The new header counts the kept headers and keeps the entry point. */
  lemma StrippedHeader(f: seq<byte>)
    requires Strippable(f)
    ensures var s := Stripped(f);
            |s| >= 64 && s[..64] == EhdrBytes(Entry(f), |Kept(f, PhNum(f))|)
  {
    hide EhdrBytes, Table, Segments, Kept, Size;
  }

  // ----- The program headers -----

  lemma {:induction false} TableAt(hs: seq<Phdr>, base: nat, k: nat)
    requires k < |hs| && base + Size(hs) < WORD
    ensures base + Size(hs[..k]) < WORD
    ensures Room(k) + 32 <= |Table(hs, base)|
    ensures Table(hs, base)[Room(k)..Room(k) + 32] == PhdrBytes(Moved(hs[k], base + Size(hs[..k])))
    decreases |hs|
  {
    hide PhdrBytes, Moved, Ceil;
    var n := |hs| - 1;
    RoomUpTo(k, |hs|);
    var front, last := Table(hs[..n], base), PhdrBytes(Moved(hs[n], base + Size(hs[..n])));
    assert Table(hs, base) == front + last;
    if k < n {
      TableAt(hs[..n], base, k);
      assert hs[..n][..k] == hs[..k];
      assert (front + last)[Room(k)..Room(k) + 32] == front[Room(k)..Room(k) + 32];
    } else {
      assert (front + last)[Room(k)..Room(k) + 32] == last;
    }
  }

  /** The k-th new header is the k-th kept one, but for its place in the file. */
  lemma StrippedPhdr(f: seq<byte>, k: nat)
    requires Strippable(f) && k < |Kept(f, PhNum(f))|
    ensures 64 + 32 * k + 32 <= |Stripped(f)| && Place(Kept(f, PhNum(f)), k) < WORD
    ensures PhdrAt(Stripped(f), 64 + 32 * k) == Moved(Kept(f, PhNum(f))[k], Place(Kept(f, PhNum(f)), k))
  {
    hide EhdrBytes, Table, Segments, Kept, Size, PhdrBytes, Moved, PhdrAt;
    var ks, s := Kept(f, PhNum(f)), Stripped(f);
    var t := Table(ks, Base(|ks|));
    TableAt(ks, Base(|ks|), k);
    var h := Moved(ks[k], Place(ks, k));
    assert s[64 + 32 * k..64 + 32 * k + 32] == t[Room(k)..Room(k) + 32];
    PhdrBack(s, 64 + 32 * k, h);
  }

  // ----- The segments -----

  lemma {:induction false} SegmentAt(f: seq<byte>, hs: seq<Phdr>, k: nat)
    requires k < |hs| && InFile(f, hs)
    ensures Size(hs[..k]) + hs[k].filesz <= Size(hs) && hs[k].offset + hs[k].filesz <= |f|
    ensures Segments(f, hs)[Size(hs[..k])..Size(hs[..k]) + hs[k].filesz] == f[hs[k].offset..hs[k].offset + hs[k].filesz]
    decreases |hs|
  {
    hide Ceil, Zeros, InFile, Segments, Size;
    var n := |hs| - 1;
    var h := hs[n];
    InFileParts(f, hs);
    var before, d, z := Segments(f, hs[..n]), f[h.offset..h.offset + h.filesz], Zeros(Ceil(h.filesz) - h.filesz);
    if k < n {
      SegmentAt(f, hs[..n], k);
      assert hs[..n][..k] == hs[..k];
      InFront(before, d, z, Size(hs[..k]), Size(hs[..k]) + hs[k].filesz);
    } else {
      FieldOf(before + d + z, before + d + z, before, d, z);
    }
  }

  lemma InFront(a: seq<byte>, d: seq<byte>, b: seq<byte>, i: nat, j: nat)
    requires i <= j <= |a|
    ensures (a + d + b)[i..j] == a[i..j]
  {
  }

  lemma {:induction false} InFileParts(f: seq<byte>, hs: seq<Phdr>)
    requires hs != [] && InFile(f, hs)
    ensures InFile(f, hs[..|hs| - 1]) && hs[|hs| - 1].offset + hs[|hs| - 1].filesz <= |f|
    ensures Size(hs) == Size(hs[..|hs| - 1]) + Ceil(hs[|hs| - 1].filesz)
    ensures var h := hs[|hs| - 1];
            Segments(f, hs) ==
              Segments(f, hs[..|hs| - 1]) + f[h.offset..h.offset + h.filesz] + Zeros(Ceil(h.filesz) - h.filesz)
  {
    hide Ceil, Zeros;
  }

  /** The k-th segment is where its header says, byte for byte. */
  lemma StrippedSegment(f: seq<byte>, k: nat)
    requires Strippable(f) && k < |Kept(f, PhNum(f))|
    ensures var ks := Kept(f, PhNum(f)); var p := Place(ks, k);
            && p + ks[k].filesz <= |Stripped(f)| && ks[k].offset + ks[k].filesz <= |f|
            && Stripped(f)[p..p + ks[k].filesz] == f[ks[k].offset..ks[k].offset + ks[k].filesz]
  {
    hide EhdrBytes, Table, Segments, Kept, Size, InFile;
    var ks := Kept(f, PhNum(f));
    var e, g := EhdrBytes(Entry(f), |ks|) + Table(ks, Base(|ks|)), Segments(f, ks);
    SegmentAt(f, ks, k);
    var o, n := Size(ks[..k]), ks[k].filesz;
    assert Stripped(f) == e + g && |e| == Base(|ks|);
    assert (e + g)[|e| + o..|e| + o + n] == g[o..o + n];
  }

  /** No stripped file starts with the low byte of its own length. */
  lemma FirstByteIsNotLength(f: seq<byte>)
    requires Strippable(f)
    ensures |Stripped(f)| >= 64 && Stripped(f)[0] == 0x7F && |Stripped(f)| % 0x100 != 0x7F
  {
    hide Stripped, Kept, EhdrBytes, Half, Word, Place, Size;
    var ks, s := Kept(f, PhNum(f)), Stripped(f);
    StrippedHeader(f);
    EhdrBack(s, Entry(f), |ks|);
    assert s[0] == s[..7][0];
    PlaceLast(f);
    PlaceAligned(ks, |ks|);
    OddLowByte(|s|);
  }

  lemma OddLowByte(n: nat)
    requires n % 32 == 0
    ensures n % 0x100 != 0x7F
  {
    assert n == n / 0x100 * 0x100 + n % 0x100;
    assert n / 0x100 * 0x100 == n / 0x100 * 8 * 32;
  }
}
