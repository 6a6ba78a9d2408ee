/**
 Masks of locale name parts, and how many of them a mask dominates.
 */
module LocaleMasks {

  const XPG_NORM_CODESET := 1
  const XPG_CODESET := 2
  const XPG_TERRITORY := 4
  const XPG_MODIFIER := 8

  /** One bit for each part that a locale name can have. */
  type Mask = m: nat | m < 16

  /** `(mask & bit) != 0`, for a power of two. */
  predicate Has(mask: nat, bit: nat)
    decreases bit
  {
    if bit <= 1 then mask % 2 == 1 else Has(mask / 2, bit / 2)
  }

  /** `(cnt & ~mask) == 0`. */
  predicate Dominated(cnt: nat, mask: nat)
    decreases cnt
  {
    cnt == 0 || (cnt % 2 <= mask % 2 && Dominated(cnt / 2, mask / 2))
  }

  lemma {:induction false} DominatedParts(cnt: nat, mask: nat, bit: nat)
    requires Dominated(cnt, mask)
    ensures cnt <= mask && (Has(cnt, bit) ==> Has(mask, bit))
    decreases cnt, bit
  {
    if cnt == 0 {
      NoParts(bit);
    } else {
      DominatedParts(cnt / 2, mask / 2, bit / 2);
    }
  }

  lemma {:induction false} NoParts(bit: nat)
    ensures !Has(0, bit)
  {
    if bit > 1 {
      NoParts(bit / 2);
    }
  }

  /** A plain and a normalized codeset exclude each other. */
  predicate Usable(cnt: nat, mask: nat) {
    Dominated(cnt, mask) && !(Has(cnt, XPG_CODESET) && Has(cnt, XPG_NORM_CODESET))
  }

  /** Number of bits set. */
  function Bits(x: nat): nat {
    if x == 0 then 0 else x % 2 + Bits(x / 2)
  }

  function Pow2(n: nat): (p: nat)
    ensures p > 0
  {
    if n == 0 then 1 else 2 * Pow2(n - 1)
  }

  function AddPairs(x: bv16): bv16 { ((x & !0x5555) >> 1) + (x & 0x5555) }

  function AddFields(x: bv16): bv16 { ((x & !0x3333) >> 2) + (x & 0x3333) }

  function AddNibbles(x: bv16): bv16 { ((x >> 4) + x) & 0x0f0f }

  function AddBytes(x: bv16): bv16 { ((x >> 8) + x) & 0xff }

  /** `pop`: adjacent fields are added, in parallel, at widths 1, 2, 4 and 8. */
  function Pop(x: bv16): bv16 {
    AddBytes(AddNibbles(AddFields(AddPairs(x))))
  }

  function Bit(x: bv16, i: nat): bv16
    requires i < 16
  {
    (x >> i) & 1
  }

  function Field(x: bv16, i: nat): bv16
    requires i < 16
  {
    (x >> i) & 3
  }

  function Nibble(x: bv16, i: nat): bv16
    requires i < 16
  {
    (x >> i) & 15
  }

  function Plus(x: bv16, y: bv16): bv16 { x + y }

  predicate AtMost(x: bv16, y: bv16) { x <= y }

  lemma PairsAdded(x: bv16)
    ensures Field(AddPairs(x), 0) == Plus(Bit(x, 0), Bit(x, 1)) && Field(AddPairs(x), 2) == Plus(Bit(x, 2), Bit(x, 3))
    ensures Field(AddPairs(x), 4) == Plus(Bit(x, 4), Bit(x, 5)) && Field(AddPairs(x), 6) == Plus(Bit(x, 6), Bit(x, 7))
    ensures Field(AddPairs(x), 8) == Plus(Bit(x, 8), Bit(x, 9))
      && Field(AddPairs(x), 10) == Plus(Bit(x, 10), Bit(x, 11))
    ensures Field(AddPairs(x), 12) == Plus(Bit(x, 12), Bit(x, 13))
      && Field(AddPairs(x), 14) == Plus(Bit(x, 14), Bit(x, 15))
  {
  }

  lemma FieldsAdded(x: bv16)
    ensures Nibble(AddFields(x), 0) == Plus(Field(x, 0), Field(x, 2))
      && Nibble(AddFields(x), 4) == Plus(Field(x, 4), Field(x, 6))
    ensures Nibble(AddFields(x), 8) == Plus(Field(x, 8), Field(x, 10))
      && Nibble(AddFields(x), 12) == Plus(Field(x, 12), Field(x, 14))
  {
  }

  function Byte(x: bv16, i: nat): bv16
    requires i < 16
  {
    (x >> i) & 255
  }

  /** Nibbles do not overflow when they hold counts of four bits. */
  lemma LowNibblesAdded(x: bv16)
    requires AtMost(Nibble(x, 0), 4) && AtMost(Nibble(x, 4), 4)
    ensures Byte(AddNibbles(x), 0) == Plus(Nibble(x, 0), Nibble(x, 4)) && AtMost(Byte(AddNibbles(x), 0), 8)
  {
  }

  lemma HighNibblesAdded(x: bv16)
    requires AtMost(Nibble(x, 0), 4) && AtMost(Nibble(x, 4), 4) && AtMost(Nibble(x, 8), 4) && AtMost(Nibble(x, 12), 4)
    ensures Byte(AddNibbles(x), 8) == Plus(Nibble(x, 8), Nibble(x, 12)) && AtMost(Byte(AddNibbles(x), 8), 8)
  {
  }

  lemma BytesAdded(x: bv16)
    requires AtMost(Byte(x, 0), 8) && AtMost(Byte(x, 8), 8)
    ensures AddBytes(x) == Plus(Byte(x, 0), Byte(x, 8))
  {
  }

  lemma NibblesAdded(x: bv16)
    requires AtMost(Nibble(x, 0), 4) && AtMost(Nibble(x, 4), 4) && AtMost(Nibble(x, 8), 4) && AtMost(Nibble(x, 12), 4)
    ensures AddBytes(AddNibbles(x)) == Plus(Plus(Nibble(x, 0), Nibble(x, 4)), Plus(Nibble(x, 8), Nibble(x, 12)))
  {
    hide AddBytes, AddNibbles, Nibble, Byte, AtMost, Plus;
    LowNibblesAdded(x);
    HighNibblesAdded(x);
    BytesAdded(AddNibbles(x));
  }

  /** The number of bits set among four. */
  function BitsOfFour(x: bv16, i: nat): bv16
    requires i <= 12
  {
    Plus(Plus(Bit(x, i), Bit(x, i + 1)), Plus(Bit(x, i + 2), Bit(x, i + 3)))
  }

  lemma FourBits(x: bv16, i: nat)
    requires i <= 12
    ensures BitsOfFour(x, i) == Plus(Plus(Bit(x, i), Bit(x, i + 1)), Plus(Bit(x, i + 2), Bit(x, i + 3)))
    ensures AtMost(BitsOfFour(x, i), 4)
  {
  }

  /** It is the number of bits set, for every 16-bit argument. */
  lemma PopCounts(x: bv16)
    ensures Pop(x) == Plus(Plus(BitsOfFour(x, 0), BitsOfFour(x, 4)), Plus(BitsOfFour(x, 8), BitsOfFour(x, 12)))
  {
    hide AddPairs, AddFields, AddNibbles, AddBytes, Bit, Field, Nibble, Plus, AtMost, BitsOfFour;
    PairsAdded(x);
    FieldsAdded(AddPairs(x));
    FourBits(x, 0);
    FourBits(x, 4);
    FourBits(x, 8);
    FourBits(x, 12);
    NibblesAdded(AddFields(AddPairs(x)));
  }

  lemma PopOfMask(mask: Mask)
    ensures Pop(mask as bv16) as nat == Bits(mask)
  {
  }

  /** How many masks below n are dominated. */
  function CountBelow(mask: nat, n: nat): nat {
    if n == 0 then 0 else CountBelow(mask, n - 1) + if Dominated(n - 1, mask) then 1 else 0
  }

  /** Dominated masks below n, by their lowest bit. */
  lemma {:induction false} CountByParity(mask: nat, n: nat)
    ensures CountBelow(mask, n)
      == CountBelow(mask / 2, (n + 1) / 2) + if mask % 2 == 1 then CountBelow(mask / 2, n / 2) else 0
  {
    if n > 0 {
      CountByParity(mask, n - 1);
    }
  }

  /** A mask dominates at most 2^pop(mask) masks, ... */
  lemma {:induction false} CountIsBounded(mask: nat, n: nat)
    ensures CountBelow(mask, n) <= Pow2(Bits(mask))
    decreases mask
  {
    if mask == 0 {
      OnlyZero(n);
    } else {
      CountByParity(mask, n);
      CountIsBounded(mask / 2, (n + 1) / 2);
      CountIsBounded(mask / 2, n / 2);
    }
  }

  lemma {:induction false} OnlyZero(n: nat)
    ensures CountBelow(0, n) <= 1 && (n == 0 ==> CountBelow(0, n) == 0)
  {
    if n > 1 {
      OnlyZero(n - 1);
      if Dominated(n - 1, 0) {
        OnlyZeroDominated(n - 1);
      }
    }
  }

  lemma {:induction false} OnlyZeroDominated(cnt: nat)
    requires Dominated(cnt, 0)
    ensures cnt == 0
  {
    if cnt > 0 {
      OnlyZeroDominated(cnt / 2);
    }
  }

  /** ... itself among them. */
  lemma {:induction false} DominatesItself(mask: nat)
    ensures Dominated(mask, mask)
  {
    if mask > 0 {
      DominatesItself(mask / 2);
    }
  }

  lemma CountBelowItself(mask: nat)
    ensures CountBelow(mask, mask) + 1 <= Pow2(Bits(mask))
  {
    DominatesItself(mask);
    CountIsBounded(mask, mask + 1);
  }
}
