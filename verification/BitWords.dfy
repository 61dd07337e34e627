/** The word operations of SHA-1: those of FIPS 180-4, sections 2.2.2 and 4.1.1, and the cheaper ones of
    channel/channelapp/source/sha1.c. */
module BitWords {

  function Rol1(x: bv32): bv32 {
    (x << 1) | (x >> 31)
  }

  function Rol5(x: bv32): bv32 {
    (x << 5) | (x >> 27)
  }

  function Rol30(x: bv32): bv32 {
    (x << 30) | (x >> 2)
  }

  /** A rotation by one bit doubles, and brings the carry back in. */
  lemma RolDoubles(x: bv32)
    ensures x < 0x8000_0000 ==> Rol1(x) == 2 * x
    ensures x >= 0x8000_0000 ==> Rol1(x) == 2 * x + 1
  {
    TopBit(x);
    Doubled(x);
  }

  lemma TopBit(x: bv32)
    ensures x >> 31 == if x < 0x8000_0000 then 0 else 1
  {
  }

  lemma Doubled(x: bv32)
    ensures x << 1 == 2 * x && (x << 1) | 1 == 2 * x + 1
  {
  }

  lemma RolFive(x: bv32)
    ensures Rol5(x) == Rol1(Rol1(Rol1(Rol1(Rol1(x)))))
  {
  }

  lemma RolThirty(x: bv32)
    ensures Rol1(Rol1(Rol30(x))) == x
  {
  }

  function Ch(x: bv32, y: bv32, z: bv32): bv32 {
    (x & y) ^ (!x & z)
  }

  function Maj(x: bv32, y: bv32, z: bv32): bv32 {
    (x & y) ^ (x & z) ^ (y & z)
  }

  function Parity(x: bv32, y: bv32, z: bv32): bv32 {
    x ^ y ^ z
  }

  function Parity4(x: bv32, y: bv32, z: bv32, u: bv32): bv32 {
    x ^ y ^ z ^ u
  }

  function FastCh(w: bv32, x: bv32, y: bv32): bv32 {
    (w & (x ^ y)) ^ y
  }

  function FastMaj(w: bv32, x: bv32, y: bv32): bv32 {
    ((w | x) & y) | (w & x)
  }

  lemma Choose(w: bv32, x: bv32, y: bv32)
    ensures (w & (x ^ y)) ^ y == (w & x) ^ (!w & y)
  {
  }

  lemma Majority(w: bv32, x: bv32, y: bv32)
    ensures ((w | x) & y) | (w & x) == (w & x) ^ (w & y) ^ (x & y)
  {
  }

  lemma FastForms(w: bv32, x: bv32, y: bv32)
    ensures FastCh(w, x, y) == Ch(w, x, y)
    ensures FastMaj(w, x, y) == Maj(w, x, y)
  {
    Choose(w, x, y);
    Majority(w, x, y);
  }

  function Add(x: bv32, y: bv32): bv32 {
    x + y
  }

  function Sum(p: bv32, f: bv32, e: bv32, k: bv32, w: bv32): bv32 {
    p + f + e + k + w
  }

  /** The order in which a round adds. */
  function Added(z: bv32, f: bv32, b: bv32, k: bv32, p: bv32): bv32 {
    z + (f + b + k + p)
  }

  lemma AddedIsSum(z: bv32, f: bv32, b: bv32, k: bv32, p: bv32)
    ensures Added(z, f, b, k, p) == Sum(p, f, z, k, b)
  {
  }

  /** The word of four bytes, the most significant first. */
  function BeWord(b: seq<bv8>): bv32
    requires |b| == 4
  {
    (b[0] as bv32 << 24) | (b[1] as bv32 << 16) | (b[2] as bv32 << 8) | (b[3] as bv32)
  }

  /** The byte of the word that is shifted out. */
  function ByteOf(x: bv32, i: int): bv8
    requires 0 <= i < 4
  {
    if i == 0 then (x >> 24) as bv8
    else if i == 1 then ((x >> 16) & 255) as bv8
    else if i == 2 then ((x >> 8) & 255) as bv8
    else (x & 255) as bv8
  }

  lemma WordBack(x: bv32)
    ensures BeWord([ByteOf(x, 0), ByteOf(x, 1), ByteOf(x, 2), ByteOf(x, 3)]) == x
  {
  }

  /** blk0 on a machine of the other byte order. */
  function Swapped(x: bv32): bv32 {
    (((x << 24) | (x >> 8)) & 0xFF00FF00) | (((x << 8) | (x >> 24)) & 0x00FF00FF)
  }

  lemma SwappedLoad(b: seq<bv8>)
    requires |b| == 4
    ensures Swapped(BeWord([b[3], b[2], b[1], b[0]])) == BeWord(b)
  {
  }
}
