/**
 Machine words, error codes and the address arithmetic of 32-bit paging
 (section 4.3 of the Intel 64 and IA-32 Software Developer's Manual, volume 3A).

 Shifts and masks are written as division and remainder; every place where the
 32-bit `unsigned long` of the kernel can wrap carries an explicit `% WORD`.
 */
module Words {
  import opened Binary

  const WORD := 0x1_0000_0000

  type Word = x: int | 0 <= x < 0x1_0000_0000
  type Byte = x: int | 0 <= x < 256

  /** Frames (and pages) addressable with 32-bit addresses of 4 KiB units. */
  const MAX_FRAMES := 0x10_0000
  const TABLE_LEN := 1024

  const EAGAIN := 6
  const EBUSY := 9
  const EFAULT := 20
  const EINVAL := 27
  const ENODEV := 43
  const ENOMEM := 48
  const EOVERFLOW := 64

  const PTE_FLAG_PRESENT := 1
  const PTE_FLAG_WRITEABLE := 2
  const PTE_FLAG_USERMODE := 4

  // ---- pte.c, pde.c ---------------------------------------------------------

  /** `flags & PTE_ALL_FLAGS`: present, writeable, user mode. */
  function PteFlags(flags: Word): (b: nat)
    ensures b < 8
  {
    flags % 8
  }

  /** `flags & PDE_ALL_FLAGS`: bits 0..4 and 7. */
  function PdeFlags(flags: Word): (b: nat)
    ensures b < 160
  {
    flags % 32 + flags / 128 % 2 * 128
  }

  /** `pte_create`: the low 20 bits of the frame number in bits 12..31 (the shift
      drops the rest), three flag bits below. */
  function PteCreate(pfindex: Word, flags: Word): (e: Word) {
    pfindex % MAX_FRAMES * 4096 + PteFlags(flags)
  }

  /** `pde_create`: as above, but the directory keeps flag bits 0..4 and 7. */
  function PdeCreate(pfindex: Word, flags: Word): (e: Word) {
    pfindex % MAX_FRAMES * 4096 + PdeFlags(flags)
  }

  /** `pte_get_pageframe_index` and `pde_get_pageframe_index`. */
  function FrameOf(e: Word): (pfindex: Word)
    ensures pfindex < MAX_FRAMES
  {
    e / 4096
  }

  /** `pte_is_present`. */
  predicate Present(e: Word) {
    e % 2 == 1
  }

  lemma EvenPart(half: nat, rest: nat)
    ensures (2 * half + rest) % 2 == rest % 2
  {
  }

  lemma MasksKeepPresent(flags: Word)
    ensures PteFlags(flags) % 2 == flags % 2 && PdeFlags(flags) % 2 == flags % 2
  {
    EvenPart(4 * (flags / 8), flags % 8);
    EvenPart(16 * (flags / 32), flags % 32);
    EvenPart(64 * (flags / 128 % 2), flags % 32);
  }

  lemma SplitWord(x: nat, low: nat)
    requires low < 4096
    ensures (x * 4096 + low) / 4096 == x
    ensures (x * 4096 + low) % 2 == low % 2
  {
  }

  /** An entry gives back the frame it was made from exactly when the frame
      number fits the 20 bits of the entry; the flags never leak into it. */
  lemma EntryRoundTrip(pfindex: Word, flags: Word)
    ensures FrameOf(PteCreate(pfindex, flags)) == pfindex % MAX_FRAMES
    ensures FrameOf(PdeCreate(pfindex, flags)) == pfindex % MAX_FRAMES
    ensures FrameOf(PteCreate(pfindex, flags)) == pfindex <==> pfindex < MAX_FRAMES
    ensures Present(PteCreate(pfindex, flags)) <==> Present(flags)
    ensures Present(PdeCreate(pfindex, flags)) <==> Present(flags)
  {
    hide PteFlags, PdeFlags;
    SplitWord(pfindex % MAX_FRAMES, PteFlags(flags));
    SplitWord(pfindex % MAX_FRAMES, PdeFlags(flags));
    MasksKeepPresent(flags);
  }

  /** Bit by bit, `pte_create` is (pfindex << 12) | (flags & 0x07): bits 0 to 2 are those of
      the flags, bits 3 to 11 are zero, the others are those of the frame number. */
  lemma PteBits(pfindex: Word, flags: Word, i: nat)
    requires i < 32
    ensures Bit(PteCreate(pfindex, flags), i) ==
            if i < 3 then Bit(flags, i) else if i < 12 then 0 else Bit(pfindex, i - 12)
  {
    SmallPowers();
    ShiftedBits(pfindex % MAX_FRAMES, 12, flags % 8, i);
    SplitBits(flags, 3, flags / 8, flags % 8, i);
    if i >= 12 {
      SplitBits(pfindex, 20, pfindex / MAX_FRAMES, pfindex % MAX_FRAMES, i - 12);
    }
  }

  /** `pde_create` is (pfindex << 12) | (flags & 0x9f): bits 0 to 4 and 7 are those of the
      flags, bits 5, 6 and 8 to 11 are zero. */
  lemma PdeBits(pfindex: Word, flags: Word, i: nat)
    requires i < 32
    ensures Bit(PdeCreate(pfindex, flags), i) ==
            if i < 5 || i == 7 then Bit(flags, i) else if i < 12 then 0 else Bit(pfindex, i - 12)
  {
    SmallPowers();
    ShiftedBits(pfindex % MAX_FRAMES, 12, PdeFlags(flags), i);
    if i < 12 {
      PdeFlagBits(flags, i);
    } else {
      SplitBits(pfindex, 20, pfindex / MAX_FRAMES, pfindex % MAX_FRAMES, i - 12);
    }
  }

  lemma PdeFlagBits(flags: Word, i: nat)
    ensures Bit(PdeFlags(flags), i) == if i < 5 || i == 7 then Bit(flags, i) else 0
  {
    SmallPowers();
    var high := flags / 128 % 2;
    ShiftedBits(high, 7, flags % 32, i);
    SplitBits(flags, 5, flags / 32, flags % 32, i);
    if i >= 7 {
      SplitBits(flags / 128, 1, flags / 256, high, i - 7);
      SplitBits(flags, 7, flags / 128, flags % 128, i - 7);
    }
  }

  /** `pte & PTE_FLAG_PRESENT` and `pte >> 12`. */
  lemma EntryFields(e: Word)
    ensures Present(e) <==> Bit(e, 0) == 1
    ensures forall i: nat :: Bit(FrameOf(e), i) == Bit(e, i + 12)
  {
    SmallPowers();
    forall i: nat ensures Bit(FrameOf(e), i) == Bit(e, i + 12) {
      SplitBits(e, 12, e / 4096, e % 4096, i);
    }
  }

  // ---- page.h, pagetbl.h ------------------------------------------------------

  function PageAddress(pgindex: nat): (addr: Word) {
    (pgindex * 4096) % WORD
  }

  function PageMemory(npages: nat): (bytes: Word) {
    (npages * 4096) % WORD
  }

  function TableIndex(addr: Word): (ptindex: nat) {
    addr / 0x40_0000
  }

  function TableCount(addr: Word, bytes: Word): (ptcount: Word) {
    if bytes == 0 then 0
    else (1 + TableIndex((addr + bytes - 1) % WORD) - TableIndex(addr)) % WORD
  }

  /** For a page range inside the address space the table walk visits exactly
      the tables from the one holding the first page to the one holding the last;
      but the size of the whole address space wraps to zero, and then it visits none. */
  lemma TableWalk(pgindex: nat, pgcount: nat)
    requires pgindex + pgcount <= MAX_FRAMES
    ensures pgcount > 0 ==> TableIndex(PageAddress(pgindex)) == pgindex / TABLE_LEN
    ensures TableCount(PageAddress(pgindex), PageMemory(pgcount)) ==
            if pgcount == 0 || pgcount == MAX_FRAMES then 0
            else 1 + (pgindex + pgcount - 1) / TABLE_LEN - pgindex / TABLE_LEN
  {
    assert PageMemory(pgcount) == if pgcount == MAX_FRAMES then 0 else pgcount * 4096;
    if 0 < pgcount < MAX_FRAMES {
      var last := pgindex + pgcount - 1;
      assert PageAddress(pgindex) + PageMemory(pgcount) - 1 == last * 4096 + 4095;
      assert (last * 4096 + 4095) / 0x40_0000 == last / TABLE_LEN;
    }
  }
}
