/** The table that maps a distance to its slot, filled once and used directly for short distances
    and through a shift for long ones. */
module PosSlots {
  import opened Numbers
  import opened LzmaSymbols

  const NUM_LOG_BITS: nat := 13   // kNumLogBits where size_t has 8 bytes
  const TABLE_SIZE: int := 0x2000

  lemma {:induction false} SlotBaseGrows(a: nat, b: nat)
    requires 2 <= a <= b
    ensures SlotBase(a) <= SlotBase(b) && (a < b ==> SlotBase(a) < SlotBase(b))
    decreases b
  {
    hide SlotBase;
    if a < b {
      SlotEnd(b - 1);
      SlotBaseGrows(a, b - 1);
    }
  }

  /** Slots partition the distances. */
  lemma SlotUnique(dist: nat, slot: nat)
    requires slot >= 2 && SlotBase(slot) <= dist < SlotBase(slot) + Pow2(Footer(slot)) && dist < WORD
    ensures SlotOf(dist) == slot
  {
    hide SlotBase, SlotOf, Pow2;
    AtLeastTwo(slot);
    var r := SlotOf(dist);
    SlotEnd(slot);
    SlotEnd(r);
    if r < slot {
      SlotBaseGrows(r + 1, slot);
    } else if slot < r {
      SlotBaseGrows(slot + 1, r);
    }
  }

  lemma AtLeastTwo(slot: nat)
    requires slot >= 2
    ensures SlotBase(slot) >= 2
  {
    SlotBaseGrows(2, slot);
    Pow2Values();
  }

  /** Shifting a distance right by `i` takes two slots per bit. */
  lemma SlotShift(pos: nat, i: nat)
    requires pos < WORD && Shr(pos, i) >= 2
    ensures SlotOf(pos) == SlotOf(Shr(pos, i)) + 2 * i
  {
    hide SlotOf;
    var q := Shr(pos, i);
    ShrIsQuotient(pos, i);
    QuotientBelow(pos, Pow2(i));
    var slot := SlotOf(q);
    var f := Footer(slot);
    Pow2Add(f, i);
    assert Footer(slot + 2 * i) == f + i;
    ScaledSlot(pos, q, Pow2(f), Pow2(i), 2 + slot % 2);
    SlotUnique(pos, slot + 2 * i);
  }

  lemma QuotientBelow(x: nat, d: nat)
    requires d > 0
    ensures 0 <= x / d <= x && x / d * d <= x < x / d * d + d
  {
    MulMonotone(x / d, 1, d);
  }

  lemma ScaledSlot(pos: nat, q: nat, p: nat, d: nat, lead: nat)
    requires q * d <= pos < q * d + d && lead * p <= q < lead * p + p
    ensures lead * (p * d) <= pos < lead * (p * d) + p * d
  {
    MulMonotone(d, lead * p, q);
    MulMonotone(d, q + 1, lead * p + p);
    assert d * (lead * p) == lead * (p * d);
  }

  predicate TableOk(t: seq<nat>) {
    |t| == TABLE_SIZE && forall c | 0 <= c < TABLE_SIZE :: t[c] == SlotOf(c)
  }

  /** LzmaEnc_FastPosInit */
  method FastPosInit(t: array<nat>)
    requires t.Length == TABLE_SIZE
    modifies t
    ensures TableOk(t[..])
  {
    hide SlotOf, Pow2;
    var c := 2;
    t[0], t[1] := 0, 1;
    SmallSlots();
    TableEnd();
    for slotFast := 2 to 2 * NUM_LOG_BITS
      invariant c == SlotBase(slotFast) <= TABLE_SIZE
      invariant forall d | 0 <= d < c :: t[d] == SlotOf(d)
    {
      var k := Pow2(slotFast / 2 - 1);
      SlotEnd(slotFast);
      SlotBaseGrows(slotFast + 1, 2 * NUM_LOG_BITS);
      for j := 0 to k
        invariant c == SlotBase(slotFast) + j
        invariant forall d | 0 <= d < c :: t[d] == SlotOf(d)
      {
        SlotUnique(c, slotFast);
        t[c] := slotFast;
        c := c + 1;
      }
    }
  }

  lemma SmallSlots()
    ensures SlotOf(0) == 0 && SlotOf(1) == 1 && SlotBase(2) == 2
  {
    Pow2Values();
  }

  lemma TableEnd()
    ensures SlotBase(2 * NUM_LOG_BITS) == TABLE_SIZE
  {
    Pow2Add(8, 4);
    Pow2Values();
  }

  /** GetPosSlot: short distances directly, others through BSR2_RET, whose shift is 6 or 18. */
  method GetPosSlot(t: array<nat>, pos: nat) returns (slot: nat)
    requires TableOk(t[..]) && pos < 0x8000_0000
    ensures slot == SlotOf(pos)
  {
    hide SlotOf;
    if pos < 128 {
      assert t[..][pos] == t[pos];
      slot := t[pos];
    } else {
      var above := (0x7_FFFF - pos) % WORD / 0x8000_0000;   // 1 when pos >= 2^(kNumLogBits + 6)
      var i: nat := if above == 1 then 6 + (NUM_LOG_BITS - 1) else 6;
      ShiftedRange(pos, i);
      assert t[..][Shr(pos, i)] == t[Shr(pos, i)];
      slot := t[Shr(pos, i)] + i * 2;
      SlotShift(pos, i);
    }
  }

  lemma ShiftedRange(pos: nat, i: nat)
    requires 128 <= pos < 0x8000_0000 && i == if pos > 0x7_FFFF then 18 else 6
    ensures 2 <= Shr(pos, i) < TABLE_SIZE
  {
    ShrIsQuotient(pos, i);
    Pow2Values();
    Pow2Add(16, 2);
  }
}
