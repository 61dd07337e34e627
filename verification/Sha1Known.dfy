/** SHA-1 of the message "abc", an example of FIPS 180: the words of its schedule, its working
    variables after every eighth turn, and the digest. */
module Sha1Known {
  import opened BitWords
  import opened Sha1

  const ABC: seq<bv8> := [0x61, 0x62, 0x63]

  const DIGEST: seq<bv8> := [
    0xA9, 0x99, 0x3E, 0x36, 0x47, 0x06, 0x81, 0x6A, 0xBA, 0x3E, 0x25, 0x71,
    0x78, 0x50, 0xC2, 0x6C, 0x9C, 0xD0, 0xD8, 0x9D
  ]

  // ----- The message schedule -----

  /** The words of the only block. */
  predicate FirstWords(m: seq<bv32>)
    requires |m| == 16
  {
    m[0] == 0x61626380 && (forall j: nat | 0 < j < 15 :: m[j] == 0) && m[15] == 24
  }

  lemma WordNext(m: seq<bv32>, t: nat)
    requires |m| == 16 && t >= 16
    ensures W(m, t) == Rol1(Parity4(W(m, t - 3), W(m, t - 8), W(m, t - 14), W(m, t - 16)))
  {
    hide Rol1, Parity4;
  }

  lemma FourWords(m: seq<bv32>, t: nat)
    requires |m| == 16 && t >= 16
    ensures W(m, t) == Rol1(Parity4(W(m, t - 3), W(m, t - 8), W(m, t - 14), W(m, t - 16)))
    ensures W(m, t + 1) == Rol1(Parity4(W(m, t - 2), W(m, t - 7), W(m, t - 13), W(m, t - 15)))
    ensures W(m, t + 2) == Rol1(Parity4(W(m, t - 1), W(m, t - 6), W(m, t - 12), W(m, t - 14)))
    ensures W(m, t + 3) == Rol1(Parity4(W(m, t), W(m, t - 5), W(m, t - 11), W(m, t - 13)))
  {
    hide W, Rol1, Parity4;
    WordNext(m, t);
    WordNext(m, t + 1);
    WordNext(m, t + 2);
    WordNext(m, t + 3);
  }

  lemma Words0(m: seq<bv32>)
    requires |m| == 16 && FirstWords(m)
    ensures W(m, 0) == 0x61626380 && W(m, 1) == 0x00000000
    ensures W(m, 2) == 0x00000000 && W(m, 3) == 0x00000000
    ensures W(m, 4) == 0x00000000 && W(m, 5) == 0x00000000
    ensures W(m, 6) == 0x00000000 && W(m, 7) == 0x00000000
    ensures W(m, 8) == 0x00000000 && W(m, 9) == 0x00000000
    ensures W(m, 10) == 0x00000000 && W(m, 11) == 0x00000000
    ensures W(m, 12) == 0x00000000 && W(m, 13) == 0x00000000
    ensures W(m, 14) == 0x00000000 && W(m, 15) == 0x00000018
  {
  }

  lemma Words16(m: seq<bv32>)
    requires |m| == 16 && FirstWords(m)
    ensures W(m, 16) == 0xC2C4C700 && W(m, 17) == 0x00000000
    ensures W(m, 18) == 0x00000030 && W(m, 19) == 0x85898E01
    ensures W(m, 20) == 0x00000000 && W(m, 21) == 0x00000060
    ensures W(m, 22) == 0x0B131C03 && W(m, 23) == 0x00000030
    ensures W(m, 24) == 0x85898EC1 && W(m, 25) == 0x16263806
    ensures W(m, 26) == 0x00000000 && W(m, 27) == 0x00000180
    ensures W(m, 28) == 0x2C4C700C && W(m, 29) == 0x000000F0
    ensures W(m, 30) == 0x93AFB507 && W(m, 31) == 0x5898E048
  {
    hide W, FirstWords;
    Words0(m);
    FourWords(m, 16);
    FourWords(m, 20);
    FourWords(m, 24);
    FourWords(m, 28);
  }

  lemma Words32(m: seq<bv32>)
    requires |m| == 16 && FirstWords(m)
    ensures W(m, 32) == 0x8E9A9202 && W(m, 33) == 0x00000600
    ensures W(m, 34) == 0xB131C0F0 && W(m, 35) == 0x16263BC6
    ensures W(m, 36) == 0x4EBED41E && W(m, 37) == 0x626380A1
    ensures W(m, 38) == 0x16263806 && W(m, 39) == 0x000018C0
    ensures W(m, 40) == 0xD2E138C4 && W(m, 41) == 0x00000F00
    ensures W(m, 42) == 0x3AFB5079 && W(m, 43) == 0x898E04E5
    ensures W(m, 44) == 0xE2BA3C2B && W(m, 45) == 0x000060C0
    ensures W(m, 46) == 0x053A37CD && W(m, 47) == 0x74458547
  {
    hide W, FirstWords;
    Words16(m);
    FourWords(m, 32);
    FourWords(m, 36);
    FourWords(m, 40);
    FourWords(m, 44);
  }

  lemma Words48(m: seq<bv32>)
    requires |m| == 16 && FirstWords(m)
    ensures W(m, 48) == 0xDA9415ED && W(m, 49) == 0x26380A16
    ensures W(m, 50) == 0x626383A1 && W(m, 51) == 0x4EBF54DE
    ensures W(m, 52) == 0x3835B44B && W(m, 53) == 0x0000F600
    ensures W(m, 54) == 0x1E84C7A3 && W(m, 55) == 0x98E04D98
    ensures W(m, 56) == 0x651D16A0 && W(m, 57) == 0x62658CA1
    ensures W(m, 58) == 0x458544D6 && W(m, 59) == 0x44584CB7
    ensures W(m, 60) == 0x7BA06619 && W(m, 61) == 0x6380AEA2
    ensures W(m, 62) == 0x0AE55269 && W(m, 63) == 0x627B49A1
  {
    hide W, FirstWords;
    Words32(m);
    FourWords(m, 48);
    FourWords(m, 52);
    FourWords(m, 56);
    FourWords(m, 60);
  }

  lemma Words64(m: seq<bv32>)
    requires |m| == 16 && FirstWords(m)
    ensures W(m, 64) == 0x7CD45C9D && W(m, 65) == 0x000F0000
    ensures W(m, 66) == 0xFB50753A && W(m, 67) == 0xEC6765E8
    ensures W(m, 68) == 0xBA3C2BE2 && W(m, 69) == 0x0060C000
    ensures W(m, 70) == 0x3A37CD05 && W(m, 71) == 0x458546F4
    ensures W(m, 72) == 0xB8599DD6 && W(m, 73) == 0x380A1A26
    ensures W(m, 74) == 0x01E02203 && W(m, 75) == 0xE7CC3456
    ensures W(m, 76) == 0xE6E60B69 && W(m, 77) == 0x00F60A00
    ensures W(m, 78) == 0x5795EF4F && W(m, 79) == 0x822E0879
  {
    hide W, FirstWords;
    Words48(m);
    FourWords(m, 64);
    FourWords(m, 68);
    FourWords(m, 72);
    FourWords(m, 76);
  }

  // ----- The turns -----

  lemma Turns0(m: seq<bv32>)
    requires |m| == 16 && FirstWords(m)
    ensures Working(INITIAL, m, 8) == Regs(0x9E8C07D4, 0x993E30C1, 0x0FF1F290, 0xB3F52677, 0xF3763846)
  {
    hide W, FirstWords, Working;
    AtFirst(m);
    Words0(m);
    TurnsNext(m, 0);
  }

  lemma Turns8(m: seq<bv32>)
    requires |m| == 16 && FirstWords(m)
    ensures Working(INITIAL, m, 16) == Regs(0x20BDD62F, 0x196BEE77, 0x644A3DA5, 0x1181ED99, 0x18C623F9)
  {
    hide W, FirstWords, Working;
    Turns0(m);
    Words0(m);
    TurnsNext(m, 8);
  }

  lemma Turns16(m: seq<bv32>)
    requires |m| == 16 && FirstWords(m)
    ensures Working(INITIAL, m, 24) == Regs(0xD541F12D, 0x21283486, 0x0CE88EFF, 0x868DEC32, 0x7F67875F)
  {
    hide W, FirstWords, Working;
    Turns8(m);
    Words16(m);
    TurnsNext(m, 16);
  }

  lemma Turns24(m: seq<bv32>)
    requires |m| == 16 && FirstWords(m)
    ensures Working(INITIAL, m, 32) == Regs(0x3B845D33, 0x1267B407, 0x717EEBD7, 0xA0DC2D4B, 0xD2AA1365)
  {
    hide W, FirstWords, Working;
    Turns16(m);
    Words16(m);
    TurnsNext(m, 24);
  }

  lemma Turns32(m: seq<bv32>)
    requires |m| == 16 && FirstWords(m)
    ensures Working(INITIAL, m, 40) == Regs(0x32DE1CBA, 0x4C986405, 0xF718E5CF, 0x03D447F6, 0xF72EEC32)
  {
    hide W, FirstWords, Working;
    Turns24(m);
    Words32(m);
    TurnsNext(m, 32);
  }

  lemma Turns40(m: seq<bv32>)
    requires |m| == 16 && FirstWords(m)
    ensures Working(INITIAL, m, 48) == Regs(0xBEAD02CA, 0xA01B846C, 0x8714787C, 0x503CA382, 0xFB86C6AB)
  {
    hide W, FirstWords, Working;
    Turns32(m);
    Words32(m);
    TurnsNext(m, 40);
  }

  lemma Turns48(m: seq<bv32>)
    requires |m| == 16 && FirstWords(m)
    ensures Working(INITIAL, m, 56) == Regs(0x5E6456AF, 0x7B71F76D, 0x09FA7C76, 0x792410DB, 0x8E11EB59)
  {
    hide W, FirstWords, Working;
    Turns40(m);
    Words48(m);
    TurnsNext(m, 48);
  }

  lemma Turns56(m: seq<bv32>)
    requires |m| == 16 && FirstWords(m)
    ensures Working(INITIAL, m, 64) == Regs(0x6B61C9E1, 0xB66C020B, 0x9523272C, 0xF5D5B051, 0x8FD4B796)
  {
    hide W, FirstWords, Working;
    Turns48(m);
    Words48(m);
    TurnsNext(m, 56);
  }

  lemma Turns64(m: seq<bv32>)
    requires |m| == 16 && FirstWords(m)
    ensures Working(INITIAL, m, 72) == Regs(0x39859DE7, 0xC199F8C7, 0x8FC96230, 0x125C24F0, 0xDE37534A)
  {
    hide W, FirstWords, Working;
    Turns56(m);
    Words64(m);
    TurnsNext(m, 64);
  }

  lemma Turns72(m: seq<bv32>)
    requires |m| == 16 && FirstWords(m)
    ensures Working(INITIAL, m, 80) == Regs(0x42541B35, 0x5738D5E1, 0x21834873, 0x681E6DF6, 0xD8FDF6AD)
  {
    hide W, FirstWords, Working;
    Turns64(m);
    Words64(m);
    TurnsNext(m, 72);
  }

  lemma TurnsNext(m: seq<bv32>, t: nat)
    requires |m| == 16
    ensures forall i: nat | t <= i < t + 8 :: Working(INITIAL, m, i + 1) == Turn(Working(INITIAL, m, i), i, W(m, i))
  {
    hide Turn, W, Working;
    forall i: nat | t <= i < t + 8 ensures Working(INITIAL, m, i + 1) == Turn(Working(INITIAL, m, i), i, W(m, i)) {
      WorkingNext(INITIAL, m, i);
    }
  }

  lemma AtFirst(m: seq<bv32>)
    requires |m| == 16 && FirstWords(m)
    ensures Working(INITIAL, m, 0) == INITIAL
  {
  }

  // ----- The padding and the digest -----

  /** The message, a one bit, zeros, and the length in bits. */
  const BLOCK: seq<bv8> := ABC + [0x80] + Zeros(52) + [0, 0, 0, 0, 0, 0, 0, 24]

  lemma Length24()
    ensures LengthBytes(3) == [0, 0, 0, 0, 0, 0, 0, 24] && PadZeros(3) == 52
  {
    hide CountBytes;
    KnownCounts();
  }

  lemma KnownCounts()
    ensures CountBytes(0) == [0, 0, 0, 0] && CountBytes(24) == [0, 0, 0, 24]
  {
    hide CountByte;
    KnownCount(0);
    KnownCount(1);
    KnownCount(2);
    KnownCount(3);
  }

  lemma KnownCount(i: nat)
    requires i < 4
    ensures CountByte(0, i) == 0 && CountByte(24, i) == if i == 3 then 24 else 0
  {
    hide Octet;
    KnownOctet(i);
  }

  lemma KnownOctet(i: nat)
    requires i < 4
    ensures Octet(0, i) == 0 && Octet(24, i) == if i == 3 then 24 else 0
  {
  }

  lemma Padding()
    ensures Padded(ABC) == BLOCK && |BLOCK| == 64
  {
    hide LengthBytes, PadZeros;
    Length24();
  }

  lemma KnownBeWords()
    ensures BeWord([0x61, 0x62, 0x63, 0x80]) == 0x61626380 && BeWord([0, 0, 0, 24]) == 24
    ensures BeWord([0, 0, 0, 0]) == 0
  {
  }

  lemma BlockWords()
    ensures |BLOCK| == 64 && FirstWords(Words(BLOCK))
  {
    hide BeWord;
    KnownBeWords();
    assert BLOCK[0..4] == [0x61, 0x62, 0x63, 0x80] && BLOCK[60..64] == [0, 0, 0, 24];
    forall j: nat | 0 < j < 15 ensures Words(BLOCK)[j] == 0 {
      assert BLOCK[4 * j..4 * j + 4] == [0, 0, 0, 0];
    }
  }

  lemma LastBytes()
    ensures Bytes(Plus(INITIAL, Regs(0x42541B35, 0x5738D5E1, 0x21834873, 0x681E6DF6, 0xD8FDF6AD))) == DIGEST
  {
  }

  lemma OneBlock(s: seq<bv8>)
    requires |s| == 64
    ensures HashFrom(INITIAL, s) == Compress(INITIAL, s)
  {
    hide Compress;
    assert s[..64] == s && s[64..] == [];
  }

  /** The digest of "abc". */
  lemma KnownDigest()
    ensures Digest(ABC) == DIGEST
  {
    hide Padded, Working, Words, HashFrom, FirstWords, Bytes, Plus, BLOCK;
    Padding();
    BlockWords();
    Turns72(Words(BLOCK));
    OneBlock(BLOCK);
    LastBytes();
  }
}
