/**
 Table entries as the 64-bit words the kernel reads and writes. PageTables takes them apart into fields; this shows
 that nothing is lost in that, and that the kernel's bit operations do to the fields what PageTables says.
 */
module EntryWords {
  import opened PageTables

  const PRESENT: bv64 := 0x1
  const READ_WRITE: bv64 := 0x2
  const PAGE_SIZE: bv64 := 0x80
  const ADDRESS: bv64 := 0xFFFF_FFFF_F000

  // Bits 2..6, 8..11 and 48..63.
  function RestOf(w: bv64): bv25 {
    (((w >> 2) & 0x1F) | (((w >> 8) & 0xF) << 5) | ((w >> 48) << 9)) as bv25
  }

  function FrameOf(w: bv64): Frame { ((w >> 12) & 0xF_FFFF_FFFF) as bv36 as int }

  function EntryOf(w: bv64): Entry {
    Entry(w & PRESENT != 0, w & READ_WRITE != 0, w & PAGE_SIZE != 0, FrameOf(w), RestOf(w))
  }

  // A `flags` argument; it may repeat the present bit, which is set anyway.
  predicate IsFlags(f: bv64) { f & (PAGE_SIZE | ADDRESS) == 0 }

  function FlagsOf(f: bv64): Flags { Flags(f & READ_WRITE != 0, RestOf(f)) }

  lemma SameNumber(a: bv36, b: bv36)
    requires a as int == b as int
    ensures a == b
  {
    assert (a as int) as bv36 == a;
    assert (b as int) as bv36 == b;
  }

  lemma SameFrameBits(v: bv64, w: bv64)
    requires FrameOf(v) == FrameOf(w)
    ensures v & ADDRESS == w & ADDRESS
  {
    SameNumber(((v >> 12) & 0xF_FFFF_FFFF) as bv36, ((w >> 12) & 0xF_FFFF_FFFF) as bv36);
    SameAddressBits(v, w);
  }

  lemma SameAddressBits(v: bv64, w: bv64)
    requires ((v >> 12) & 0xF_FFFF_FFFF) as bv36 == ((w >> 12) & 0xF_FFFF_FFFF) as bv36
    ensures v & ADDRESS == w & ADDRESS
  {}

  /** Different words are different entries. */
  lemma EntryLossless(v: bv64, w: bv64)
    requires EntryOf(v) == EntryOf(w)
    ensures v == w
  {
    SameFrameBits(v, w);
    SameBits(v, w);
  }

  lemma SameBits(v: bv64, w: bv64)
    requires v & ADDRESS == w & ADDRESS && RestOf(v) == RestOf(w)
    requires (v & PRESENT != 0) == (w & PRESENT != 0) && (v & READ_WRITE != 0) == (w & READ_WRITE != 0)
    requires (v & PAGE_SIZE != 0) == (w & PAGE_SIZE != 0)
    ensures v == w
  {}

  /**
   NEXT_STRUCT of the boot loader masks only the low twelve bits: it gives the address of the table exactly for
   entries whose bits 48 to 63 are clear.
  */
  lemma NextStructIff(w: bv64)
    ensures w & 0xFFFF_FFFF_FFFF_F000 == w & ADDRESS <==> HighBitsClear(EntryOf(w))
  {
    hide RestOf, FrameOf;
    HighBits(w);
  }

  lemma HighBits(w: bv64)
    ensures w & 0xFFFF_FFFF_FFFF_F000 == w & ADDRESS <==> RestOf(w) >> 9 == 0
  {}

  lemma OrBits(w: bv64, f: bv64)
    ensures RestOf(w | f) == RestOf(w) | RestOf(f)
    ensures (w | f) & READ_WRITE != 0 <==> w & READ_WRITE != 0 || f & READ_WRITE != 0
    ensures (w | f) & PRESENT != 0 <==> w & PRESENT != 0 || f & PRESENT != 0
    ensures (w | f) & PAGE_SIZE != 0 <==> w & PAGE_SIZE != 0 || f & PAGE_SIZE != 0
    ensures f & ADDRESS == 0 ==> ((w | f) >> 12) & 0xF_FFFF_FFFF == (w >> 12) & 0xF_FFFF_FFFF
  {}

  lemma FlagBits(f: bv64)
    requires IsFlags(f)
    ensures f & PAGE_SIZE == 0 && f & ADDRESS == 0
  {}

  /** `e |= flags` on a present entry. */
  lemma OrIsRaise(w: bv64, f: bv64)
    requires w & PRESENT != 0 && IsFlags(f)
    ensures EntryOf(w | f) == Raise(EntryOf(w), FlagsOf(f))
  {
    FlagBits(f);
    OrBits(w, f);
  }

  /** `e |= READ_WRITE` on any entry. */
  lemma OrWriteIsRaiseWrite(w: bv64)
    ensures EntryOf(w | READ_WRITE) == RaiseWrite(EntryOf(w))
  {
    OrBits(w, READ_WRITE);
    WriteBit(w);
  }

  lemma WriteBit(w: bv64)
    ensures RestOf(READ_WRITE) == 0 && READ_WRITE & ADDRESS == 0 && READ_WRITE & PAGE_SIZE == 0
        && READ_WRITE & PRESENT == 0
    ensures RestOf(w) | 0 == RestOf(w)
  {}

  /** `frame | PRESENT | flags`, for the address of a frame. */
  lemma OrIsPointer(p: bv64, f: bv64)
    requires p & ADDRESS == p && IsFlags(f)
    ensures EntryOf(p | PRESENT | f) == Pointer(FrameOf(p), FlagsOf(f))
  {
    FlagBits(f);
    OrBits(p | PRESENT, f);
    OrBits(p, PRESENT);
    AddressOnly(p);
  }

  lemma AddressOnly(p: bv64)
    requires p & ADDRESS == p
    ensures RestOf(p) == 0 && p & PRESENT == 0 && p & READ_WRITE == 0 && p & PAGE_SIZE == 0
    ensures RestOf(PRESENT) == 0 && PRESENT & ADDRESS == 0 && PRESENT & READ_WRITE == 0 && PRESENT & PAGE_SIZE == 0
  {}

  // The word that is the address of a frame, and what `| PRESENT` and `| PAGE_SIZE` make of any word.
  lemma AddressEntry(p: bv64)
    requires p & ADDRESS == p
    ensures EntryOf(p) == Entry(false, false, false, FrameOf(p), 0)
  {
    AddressOnly(p);
  }

  lemma OrIsPresent(w: bv64)
    ensures EntryOf(w | PRESENT) == EntryOf(w).(present := true)
  {
    OrBits(w, PRESENT);
    WriteBit(w);
    AddressOnly(0);
  }

  lemma OrIsLarge(w: bv64)
    ensures EntryOf(w | PAGE_SIZE) == EntryOf(w).(large := true)
  {
    OrBits(w, PAGE_SIZE);
    WriteBit(w);
    SizeBit();
  }

  lemma SizeBit()
    ensures RestOf(PAGE_SIZE) == 0 && PAGE_SIZE & ADDRESS == 0 && PAGE_SIZE & READ_WRITE == 0
        && PAGE_SIZE & PRESENT == 0
  {}

  lemma ZeroWord()
    ensures EntryOf(0) == ZERO
  {}
}
