/** Page-table and page-directory entries and the operations of paging.h on them. */
module PageEntry {
  import opened Bits

  const PAGE_SIZE := 4096
  const PRESENT := 1
  const WRITABLE := 2
  const USER := 4
  // PAGE_FRAME and PDE_FRAME: the same mask, which leaves bit 31 out.
  const FRAME_MASK: word := 0x7FFF_F000

  function SetFlags(e: word, flags: word): word
  {
    OrWord(e, flags);
    Or(e, flags)
  }

  function ClearFlags(e: word, flags: word): word
  {
    AndBound(e, Complement(flags));
    And(e, Complement(flags))
  }

  /** SetPageFrame and setPDEFrame. */
  function SetFrame(e: word, addr: word): word
  {
    AndBound(e, Complement(FRAME_MASK));
    OrWord(And(e, Complement(FRAME_MASK)), addr);
    Or(And(e, Complement(FRAME_MASK)), addr)
  }

  /** GetPageFrame and GetPDEFrame. */
  function GetFrame(e: word): nat
  {
    And(e, FRAME_MASK) / PAGE_SIZE
  }

  // Frames at or above this address need bit 31.
  const HIGH := 0x8000_0000

  predicate Present(e: word) { e % 2 == 1 }

  /** The frame the processor reads from an entry: all of bits 12 to 31. */
  function HardwareFrame(e: word): nat { e / PAGE_SIZE }

  lemma OrWord(a: word, b: word)
    ensures Or(a, b) < WORD
  {
    Pow2Word();
    OrBound(a, b, 32);
  }

  /** The frame the kernel reads is bits 12 to 30. */
  lemma GetFrameIs(e: word)
    ensures GetFrame(e) == e / PAGE_SIZE % 0x8_0000
  {
    Pow2s();
    AndFields(e, FRAME_MASK);
    AndMask(e / 4096 % 0x8_0000, 19);
  }

  /** Present and writable are bits 0 and 1: setting them, and user as bit 2, leaves all other bits alone. */
  lemma SetWritableIs(e: word)
    ensures SetFlags(e, PRESENT + WRITABLE) == e / 4 * 4 + 3
    ensures SetFlags(e, PRESENT + WRITABLE + USER) == e / 8 * 8 + 7
  {
    hide Or;
    OrQuarter(e, 3);
    OrNothing(e / 4);
    OrQuarter(e, 7);
    OrHalves(e / 4, 1);
    OrNothing(e / 4 / 2);
    assert e / 4 / 2 == e / 8;
  }

  lemma OrQuarter(a: nat, b: nat)
    requires b % 4 == 3
    ensures Or(a, b) == Or(a / 4, b / 4) * 4 + 3
  {
    OrHalves(a, b);
    OrHalves(a / 2, b / 2);
    assert a / 2 / 2 == a / 4 && b / 2 / 2 == b / 4;
  }

  lemma OrNothing(a: nat)
    ensures Or(a, 0) == a
  {}

  /** Setting both leaves the frame where it was. */
  lemma MarkedPresent(e: word)
    ensures var f := e / 4 * 4 + 3; f < WORD && Present(f) && HardwareFrame(f) == HardwareFrame(e)
  {
    TwelveBits(e);
    DivMod4096(e / 4 * 4 + 3, e / 4096, e / 4 % 1024 * 4 + 3);
  }

  /** Setting flags leaves the frame alone; an odd mask makes the entry present. */
  lemma SetFlagsIs(e: word, flags: word)
    requires flags < PAGE_SIZE && flags % 2 == 1
    ensures Present(SetFlags(e, flags))
    ensures HardwareFrame(SetFlags(e, flags)) == HardwareFrame(e)
    ensures SetFlags(e, flags) < HIGH <==> e < HIGH
  {
    OrFields(e, flags);
    OrHalves(e, flags);
  }

  lemma LowCleared(e: word, mask: word)
    requires mask == 0xFFFF_FFFC
    ensures And(e, mask) == e / 4 * 4
  {
    hide And;
    Bits30();
    AndMask(e / 4, 30);
    AndQuarter(e, mask);
  }

  lemma Bits30()
    ensures Pow2(30) == 0x4000_0000
  {
    assert Pow2(8) == 256 && Pow2(16) == 0x1_0000 && Pow2(24) == 0x100_0000;
  }

  lemma AndQuarter(a: nat, b: nat)
    requires b % 4 == 0
    ensures And(a, b) == And(a / 4, b / 4) * 4
  {
    AndHalves(a, b);
    AndHalves(a / 2, b / 2);
    assert a / 2 / 2 == a / 4 && b / 2 / 2 == b / 4;
  }

  /** Clearing PRESENT and WRITABLE clears bits 0 and 1 and leaves the frame and all other bits alone. */
  lemma ClearFlagsIs(e: word)
    ensures ClearFlags(e, PRESENT + WRITABLE) == e / 4 * 4
    ensures !Present(ClearFlags(e, PRESENT + WRITABLE))
    ensures HardwareFrame(ClearFlags(e, PRESENT + WRITABLE)) == HardwareFrame(e)
  {
    hide And, Complement, ClearFlags;
    ClearedIs(e);
    TwelveBits(e);
    DivMod4096(e / 4 * 4, e / 4096, e / 4 % 1024 * 4);
    EvenModulus(e / 4 * 4);
  }

  lemma ClearedIs(e: word)
    ensures ClearFlags(e, PRESENT + WRITABLE) == e / 4 * 4
  {
    LowCleared(e, Complement(PRESENT + WRITABLE));
  }

  /** SetFrame replaces bits 12 to 30, merges bit 31 and keeps the flags when addr is page aligned. */
  lemma SetFrameIs(e: word, addr: word)
    requires addr % PAGE_SIZE == 0
    ensures SetFrame(e, addr) % PAGE_SIZE == e % PAGE_SIZE
    ensures GetFrame(SetFrame(e, addr)) == addr / PAGE_SIZE % 0x8_0000
    ensures SetFrame(e, addr) < HIGH <==> e < HIGH && addr < HIGH
  {
    var kept := And(e, Complement(FRAME_MASK));
    KeptBits(e);
    OrFields(kept, addr);
    GetFrameIs(SetFrame(e, addr));
  }

  lemma KeptBits(e: word)
    ensures And(e, Complement(FRAME_MASK)) % 4096 == e % 4096
    ensures And(e, Complement(FRAME_MASK)) / 4096 % 0x8_0000 == 0
    ensures And(e, Complement(FRAME_MASK)) / 4096 / 0x8_0000 == e / 4096 / 0x8_0000
  {
    hide And;
    Pow2s();
    AndFields(e, Complement(FRAME_MASK));
    AndMask(e % 4096, 12);
    AndNothing(e / 4096 % 0x8_0000);
    TopBit(e);
    AndMask(e / 4096 / 0x8_0000, 1);
  }

  lemma AndNothing(a: nat)
    ensures And(a, 0) == 0
  {}

  lemma TopBit(e: word)
    ensures e / 4096 / 0x8_0000 < 2 && Pow2(1) == 2
  {}

  /** The two views of a frame differ by bit 31. */
  lemma FramesDiffer(e: word)
    ensures HardwareFrame(e) == GetFrame(e) + (if e < HIGH then 0 else 0x8_0000)
    ensures GetFrame(e) < 0x8_0000
  {
    GetFrameIs(e);
  }

  lemma EvenModulus(e: word)
    ensures e % 2 == e % PAGE_SIZE % 2
  {}

  /** What a map step stores: the entry made present and pointed at phys. */
  function MapEntry(e: word, phys: word): word
  {
    SetFrame(SetFlags(e, PRESENT + WRITABLE), phys)
  }

  /** Of the twelve flags of an entry the lowest two, present and writable, are set and the others as they were. */
  predicate Enabled(was: word, e: word) { e % 4 == 3 && e / 4 % 1024 == was / 4 % 1024 }

  /** The mapped frame is exact for the processor unless a stale bit 31 survives, and exact for the
      kernel only below 2 GiB, because the frame mask leaves bit 31 out. */
  lemma MapEntryIs(e: word, phys: word)
    requires phys % PAGE_SIZE == 0
    ensures Present(MapEntry(e, phys)) && Enabled(e, MapEntry(e, phys))
    ensures HardwareFrame(MapEntry(e, phys)) == phys / PAGE_SIZE <==> e < HIGH || phys >= HIGH
    ensures GetFrame(MapEntry(e, phys)) * PAGE_SIZE == phys <==> phys < HIGH
    ensures MapEntry(e, phys) < HIGH <==> e < HIGH && phys < HIGH
  {
    var f := SetFlags(e, PRESENT + WRITABLE);
    SetFlagsIs(e, PRESENT + WRITABLE);
    SetFrameIs(f, phys);
    FramesDiffer(MapEntry(e, phys));
    EvenModulus(MapEntry(e, phys)); EvenModulus(f);
    SetWritableIs(e);
    LowFlags(e, MapEntry(e, phys));
  }

  lemma LowFlags(was: word, e: word)
    requires e % PAGE_SIZE == (was / 4 * 4 + 3) % PAGE_SIZE
    ensures Enabled(was, e)
  {
    TwelveBits(e);
    TwelveBits(was / 4 * 4 + 3);
    LastTwo(was / 4);
  }

  lemma TwelveBits(x: nat)
    ensures x % 4096 == x / 4 % 1024 * 4 + x % 4
  {
    var p, t := x / 4 / 1024, x / 4 % 1024 * 4 + x % 4;
    assert x == p * 4096 + t;
    DivMod4096(x, p, t);
  }

  lemma LastTwo(q: nat)
    ensures (q * 4 + 3) / 4 == q && (q * 4 + 3) % 4 == 3
  {}
}
