/** The driver computes FLASH_CR values with masks and shifts on 32-bit words. Seen through the fields
    of the register, these words are the field updates the driver model performs. */
module FlashWords {
  import opened Wrappers
  import opened FlashController

  const LOCK: bv32 := 0x8000_0000
  const PG: bv32 := 0x0000_0001
  const SER: bv32 := 0x0000_0002
  const STRT: bv32 := 0x0001_0000
  const PSIZE_MASK: bv32 := 0x0000_0300
  const PSIZE_X32: bv32 := 0x0000_0200
  const SNB_MASK: bv32 := 0x0000_0078
  const SR_ERRORS: bv32 := 0x0000_00f0

  function Bit(w: bv32, mask: bv32): nat {
    if w & mask != 0 then 1 else 0
  }

  function Decode(w: bv32): Cr {
    Cr(w & 0x8000_0000 != 0, w & 0x0001_0000 != 0,
       Bit(w, 0x100) + 2 * Bit(w, 0x200),
       w & 0x80 != 0,
       Bit(w, 0x08) + 2 * Bit(w, 0x10) + 4 * Bit(w, 0x20) + 8 * Bit(w, 0x40),
       w & 0x4 != 0, w & 0x2 != 0, w & 0x1 != 0)
  }

  /** Two words that agree on the bits of FLASH_CR decode to the same register, except for the sector. */
  lemma DecodeAgrees(v: bv32, w: bv32)
    requires v & 0x8000_0000 == w & 0x8000_0000 && v & 0x0001_0000 == w & 0x0001_0000
    requires v & 0x100 == w & 0x100 && v & 0x200 == w & 0x200 && v & 0x80 == w & 0x80
    requires v & 0x4 == w & 0x4 && v & 0x1 == w & 0x1 && v & 0x2 == 0x2
    ensures Decode(v) == Decode(w).(snb := Decode(v).snb, ser := true)
  {}

  lemma SectorBits(s: bv32, sector: nat)
    requires s < 16 && s as nat == sector
    ensures Bit(s, 1) + 2 * Bit(s, 2) + 4 * Bit(s, 4) + 8 * Bit(s, 8) == sector
  {}

  lemma ShiftedBits(v: bv32, s: bv32)
    requires s < 16 && v & SNB_MASK == s << 3
    ensures Bit(v, 0x08) == Bit(s, 1) && Bit(v, 0x10) == Bit(s, 2) && Bit(v, 0x20) == Bit(s, 4) &&
      Bit(v, 0x40) == Bit(s, 8)
  {}

  lemma SelectionFits(w: bv32, s: bv32)
    requires s < 16
    ensures var v := (w & !SNB_MASK) | (s << 3) | SER;
      && v & SNB_MASK == s << 3 && v & 0x2 == 0x2
      && v & 0x8000_0000 == w & 0x8000_0000 && v & 0x0001_0000 == w & 0x0001_0000
      && v & 0x100 == w & 0x100 && v & 0x200 == w & 0x200 && v & 0x80 == w & 0x80
      && v & 0x4 == w & 0x4 && v & 0x1 == w & 0x1
  {}

  /** The first word of an erase: only the low four sector bits and SER change. */
  lemma SelectWord(w: bv32, s: bv32, sector: nat, v: bv32)
    requires s < 16 && s as nat == sector
    requires v == (w & !SNB_MASK) | (s << 3) | SER
    ensures Decode(v) == Decode(w).(snb := sector, ser := true)
  {
    SelectionFits(w, s);
    SelectedFields(v, w, s, sector);
  }

  lemma SelectedFields(v: bv32, w: bv32, s: bv32, sector: nat)
    requires s < 16 && s as nat == sector && v & SNB_MASK == s << 3 && v & 0x2 == 0x2
    requires v & 0x8000_0000 == w & 0x8000_0000 && v & 0x0001_0000 == w & 0x0001_0000
    requires v & 0x100 == w & 0x100 && v & 0x200 == w & 0x200 && v & 0x80 == w & 0x80
    requires v & 0x4 == w & 0x4 && v & 0x1 == w & 0x1
    ensures Decode(v) == Decode(w).(snb := sector, ser := true)
  {
    ShiftedBits(v, s);
    SectorBits(s, sector);
    DecodeAgrees(v, w);
  }

  lemma StartWord(w: bv32)
    ensures Decode(w | STRT) == Decode(w).(strt := true)
  {}

  lemma SizeWord(w: bv32)
    ensures Decode((w & !PSIZE_MASK) | PSIZE_X32) == Decode(w).(psize := 2)
  {}

  lemma BeginProgrammingWord(w: bv32)
    ensures Decode(w | PG) == Decode(w).(pg := true)
  {}

  lemma EndProgrammingWord(w: bv32)
    ensures Decode(w & !PG) == Decode(w).(pg := false)
  {}

  lemma LockWord()
    ensures Decode(LOCK) == LOCKED
    ensures forall w: bv32 :: Decode(w & 0x7fff_ffff) == Decode(w).(lock := false)
  {}

  /** Writing 0xf3 to FLASH_SR leaves no error flag set, whatever was latched. */
  lemma ErrorsClearedByOnes(status: bv32)
    ensures status & !0xf3 & SR_ERRORS == 0
  {}

  /** The word that starts an erase names the sector the driver means exactly when the fifth sector
      bit and MER were clear before; with MER set, it would be a mass erase. */
  lemma EraseWordExact(w: bv32, s: bv32, sector: nat, v: bv32)
    requires s < 16 && s as nat == sector && w & LOCK == 0
    requires v == (w & !SNB_MASK) | (s << 3) | SER
    ensures CommandOf(Decode(v | STRT)) == EraseCommand(sector) <==> w & 0x80 == 0 && w & 0x4 == 0
    ensures CommandOf(Decode(v | STRT)) == MassErase <==> w & 0x4 != 0
  {
    SelectWord(w, s, sector, v);
    StartWord(v);
  }
}
