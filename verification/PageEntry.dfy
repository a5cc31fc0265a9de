/**
 The 64-bit page-table entry of 4-level paging (Intel SDM Volume 3A, section 4.5),
 as packed and unpacked by `kernel/paging/paging.c`.
 */
module PageEntry {
  import opened Bits

  const PGSIZE: nat := 4096
  const FRAMES: nat := 0x10_0000_0000   // 2^36 frame numbers, as many virtual page numbers
  const ENTRIES: nat := 512

  // Flag bits of kernel/paging/paging.h.
  const PTE_W: nat := 0x002
  const PTE_U: nat := 0x004
  const PTE_PWT: nat := 0x008
  const PTE_PCD: nat := 0x010

  /** `struct page_entry`. */
  datatype Entry = Entry(
    p: bool, rw: bool, us: bool, pwt: bool, pcd: bool, a: bool, d: bool, rsvd: bool,
    ign1: nat, address: nat, ign2: nat, xd: bool)
  {
    /** The one-bit fields, in the order of their bits 0 to 7. */
    function Flags(): (s: seq<bool>)
      ensures |s| == 8
    {
      [p, rw, us, pwt, pcd, a, d, rsvd]
    }
  }

  function Bit(b: bool): (n: nat)
    ensures n <= 1 && (n == 1) == b
  {
    if b then 1 else 0
  }

  /** The steps `raw |= (flag & 0x1) << i` for the first k flags. */
  function OrFlags(flags: seq<bool>, k: nat): nat
    requires k <= |flags|
  {
    if k == 0 then 0
    else Or(OrFlags(flags, k - 1), Shl(And(Bit(flags[k - 1]), 0x1), k - 1))
  }

  /** `encode_page_entry`: or the masked and shifted fields together. */
  function Encode(e: Entry): nat {
    var r7 := OrFlags(e.Flags(), 8);
    var r8 := Or(r7, Shl(And(e.ign1, 0xF), 8));
    var r9 := Or(r8, Shl(And(e.address, 0xF_FFFF_FFFF), 12));
    var r10 := Or(r9, Shl(And(e.ign2, 0x7FFF), 48));
    Or(r10, Shl(And(Bit(e.xd), 0x1), 63))
  }

  /** `(raw >> k) & 0x1` as a boolean. */
  predicate BitAt(raw: nat, k: nat) {
    And(Shr(raw, k), 0x1) != 0
  }

  function FrameOf(raw: nat): nat {
    And(Shr(raw, 12), 0xF_FFFF_FFFF)
  }

  /** `decode_page_entry`: shift each field down and mask it. */
  function Decode(raw: nat): Entry {
    Entry(
      BitAt(raw, 0), BitAt(raw, 1), BitAt(raw, 2), BitAt(raw, 3),
      BitAt(raw, 4), BitAt(raw, 5), BitAt(raw, 6), BitAt(raw, 7),
      And(Shr(raw, 8), 0xF), FrameOf(raw), And(Shr(raw, 48), 0x7FFF), BitAt(raw, 63))
  }

  /** The entry `init_entry` builds for an address: present, writable, supervisor. */
  function InitEntry(addr: nat): Entry {
    Entry(true, true, false, false, false, false, false, false, 0, FrameOf(addr), 0, false)
  }

  /** The entry `map_page` writes, built from the caller's flag word. */
  function FlaggedEntry(pa: nat, flags: nat): Entry {
    Entry(true, And(flags, PTE_W) != 0, And(flags, PTE_U) != 0, And(flags, PTE_PWT) != 0,
          And(flags, PTE_PCD) != 0, false, false, false, 0, FrameOf(pa), 0, false)
  }

  // The bits the page walk depends on

  predicate Present(raw: nat) { BitAt(raw, 0) }
  predicate Writable(raw: nat) { BitAt(raw, 1) }
  predicate User(raw: nat) { BitAt(raw, 2) }
  predicate Large(raw: nat) { BitAt(raw, 7) }

  // Reading fields

  lemma BitReads(raw: nat, k: nat)
    ensures BitAt(raw, k) == ((raw / Pow2(k)) % 2 == 1)
  {
    FieldAt(raw, k, 1);
  }

  lemma FrameReads(raw: nat)
    ensures FrameOf(raw) == (raw / PGSIZE) % FRAMES < FRAMES
  {
    PowersOfTwo();
    FieldAt(raw, 12, 36);
  }

  // Adding fields up

  lemma OrField(raw: nat, field: nat, s: nat)
    requires raw < Pow2(s)
    ensures Or(raw, Shl(field, s)) == raw + Pow2(s) * field
  {
    OrDisjoint(raw, field, s);
    ShlMultiplies(field, s);
  }

  lemma {:induction false} OrFlagsStep(flags: seq<bool>, k: nat)
    requires k < |flags|
    ensures OrFlags(flags, k) < Pow2(k) && OrFlags(flags, k + 1) < Pow2(k + 1)
    ensures OrFlags(flags, k + 1) == OrFlags(flags, k) + Pow2(k) * Bit(flags[k])
  {
    hide And, Or, Shl;
    if k != 0 {
      OrFlagsStep(flags, k - 1);
    }
    AndLowMask(Bit(flags[k]), 1);
    OrField(OrFlags(flags, k), Bit(flags[k]), k);
  }

  /** One binary digit of a sum whose lower part stays below it. */
  lemma Digit(raw: nat, low: nat, b: bool, high: nat, d: nat)
    requires low < d && raw == low + d * (Bit(b) + 2 * high)
    ensures ((raw / d) % 2 == 1) == b
  {
    DivModUnique(raw, d, Bit(b) + 2 * high, low);
  }

  lemma Regroup(low: nat, d: nat, b: nat, high: nat)
    ensures low + d * b + (2 * d) * high == low + d * (b + 2 * high)
  {
  }

  /** Every flag is read back from its own bit, whatever is stored above the flags. */
  lemma {:induction false} FlagReadsBack(flags: seq<bool>, k: nat, high: nat, j: nat)
    requires j < k <= |flags|
    ensures BitAt(OrFlags(flags, k) + Pow2(k) * high, j) == flags[j]
  {
    hide And, Or, Shl, OrFlags, BitAt;
    OrFlagsStep(flags, k - 1);
    var low, d, b := OrFlags(flags, k - 1), Pow2(k - 1), flags[k - 1];
    var raw := OrFlags(flags, k) + Pow2(k) * high;
    Regroup(low, d, Bit(b), high);
    if j == k - 1 {
      Digit(raw, low, b, high, d);
      BitReads(raw, j);
    } else {
      FlagReadsBack(flags, k - 1, Bit(b) + 2 * high, j);
    }
  }

  /** Conversely, the bits of a number, or-ed back together, are its remainder. */
  lemma {:induction false} FlagsAddUp(flags: seq<bool>, k: nat, raw: nat)
    requires k <= |flags| && forall j :: 0 <= j < k ==> flags[j] == BitAt(raw, j)
    ensures OrFlags(flags, k) == raw % Pow2(k)
  {
    if k != 0 {
      FlagsAddUp(flags, k - 1, raw);
      OrFlagsStep(flags, k - 1);
      BitReads(raw, k - 1);
      assert Bit(flags[k - 1]) == (raw / Pow2(k - 1)) % 2;
      RemainderStep(raw, Pow2(k - 1));
    }
  }

  lemma RemainderStep(raw: nat, m: nat)
    requires m > 0
    ensures raw % (2 * m) == raw % m + m * ((raw / m) % 2)
  {
    var q, r := raw / m, raw % m;
    var h, b := q / 2, q % 2;
    DivModWhole(raw, m);
    TwiceAndRest(h, b, m);
    assert q == 2 * h + b;
    if b == 0 {
      DivModUnique(raw, 2 * m, h, r);
    } else {
      DivModUnique(raw, 2 * m, h, r + m);
    }
  }

  /** Encoding adds the fields up; the fields the kernel always writes as zero stay zero. */
  lemma EncodeIsSum(e: Entry)
    requires e.ign2 == 0 && !e.xd
    ensures OrFlags(e.Flags(), 8) < 256
    ensures Encode(e) == OrFlags(e.Flags(), 8) + 256 * (e.ign1 % 16 + 16 * (e.address % FRAMES))
    ensures Encode(e) < 0x1_0000_0000_0000
  {
    hide And, Or, Shl, Pow2, OrFlags;
    PowersOfTwo();
    FlagByteFits(e.Flags());
    var r7 := OrFlags(e.Flags(), 8);
    AndLowMask(e.ign1, 4);
    OrField(r7, e.ign1 % 16, 8);
    var r8 := r7 + 256 * (e.ign1 % 16);
    AndLowMask(e.address, 36);
    OrField(r8, e.address % FRAMES, 12);
    var r9 := r8 + 4096 * (e.address % FRAMES);
    AndLowMask(e.ign2, 15);
    OrField(r9, 0, 48);
    AndLowMask(Bit(e.xd), 1);
    OrField(r9, 0, 63);
  }

  lemma FlagByteFits(flags: seq<bool>)
    requires |flags| == 8
    ensures OrFlags(flags, 8) < Pow2(8)
  {
    OrFlagsStep(flags, 7);
  }

  // The two round trips

  lemma FlagsReadBack(e: Entry, high: nat, raw: nat)
    requires raw == OrFlags(e.Flags(), 8) + 256 * high
    ensures BitAt(raw, 0) == e.p && BitAt(raw, 1) == e.rw && BitAt(raw, 2) == e.us && BitAt(raw, 3) == e.pwt
    ensures BitAt(raw, 4) == e.pcd && BitAt(raw, 5) == e.a && BitAt(raw, 6) == e.d && BitAt(raw, 7) == e.rsvd
  {
    hide OrFlags, BitAt, Pow2;
    PowersOfTwo();
    var s := e.Flags();
    FlagReadsBack(s, 8, high, 0);
    FlagReadsBack(s, 8, high, 1);
    FlagReadsBack(s, 8, high, 2);
    FlagReadsBack(s, 8, high, 3);
    FlagReadsBack(s, 8, high, 4);
    FlagReadsBack(s, 8, high, 5);
    FlagReadsBack(s, 8, high, 6);
    FlagReadsBack(s, 8, high, 7);
  }

  /** Decoding undoes encoding, up to the widths of the two numeric fields. */
  lemma DecodeEncode(e: Entry)
    requires e.ign2 == 0 && !e.xd
    ensures Decode(Encode(e)) == e.(ign1 := e.ign1 % 16, address := e.address % FRAMES)
  {
    hide And, Shr, OrFlags, Encode, BitAt, FrameOf;
    var raw, high := Encode(e), e.ign1 % 16 + 16 * (e.address % FRAMES);
    EncodeIsSum(e);
    FlagsReadBack(e, high, raw);
    HighFields(raw);
    assert raw / 256 == high;
  }

  lemma HighFields(raw: nat)
    requires raw < 0x1_0000_0000_0000
    ensures And(Shr(raw, 8), 0xF) == (raw / 256) % 16
    ensures FrameOf(raw) == (raw / 256) / 16
    ensures And(Shr(raw, 48), 0x7FFF) == 0 && !BitAt(raw, 63)
  {
    hide And, Shr, Pow2, FrameOf, BitAt;
    PowersOfTwo();
    FieldAt(raw, 8, 4);
    FrameReads(raw);
    FieldAt(raw, 48, 15);
    BitReads(raw, 63);
  }

  /** Encoding undoes decoding on every word whose top sixteen bits are clear. */
  lemma EncodeDecode(raw: nat)
    requires raw < 0x1_0000_0000_0000
    ensures Encode(Decode(raw)) == raw
  {
    hide And, Or, Shl, Shr, Pow2, OrFlags, Encode, BitAt, FrameOf;
    var e := Decode(raw);
    HighFields(raw);
    PowersOfTwo();
    FlagsAddUp(e.Flags(), 8, raw);
    EncodeIsSum(e);
  }

  /** What the word written for a new table says when the walk reads it. */
  lemma InitWord(addr: nat)
    ensures var w := Encode(InitEntry(addr));
            && w < 0x1_0000_0000_0000 && Decode(w) == InitEntry(addr)
            && Present(w) && Writable(w) && !User(w) && !Large(w)
            && FrameOf(w) == (addr / PGSIZE) % FRAMES
  {
    hide Encode, FrameOf, BitAt, And, Shr;
    FrameReads(addr);
    EncodeIsSum(InitEntry(addr));
    DecodeEncode(InitEntry(addr));
  }

  /** What the word written by `map_page` says when the walk reads it. */
  lemma FlaggedWord(pa: nat, flags: nat)
    ensures var w := Encode(FlaggedEntry(pa, flags));
            && w < 0x1_0000_0000_0000 && Decode(w) == FlaggedEntry(pa, flags)
            && Present(w) && !Large(w) && FrameOf(w) == (pa / PGSIZE) % FRAMES
  {
    hide Encode, FrameOf, BitAt, And, Shr;
    FrameReads(pa);
    EncodeIsSum(FlaggedEntry(pa, flags));
    DecodeEncode(FlaggedEntry(pa, flags));
  }

  // The words, bit by bit

  /** Where each field of an entry is stored. */
  lemma EncodeBits(e: Entry)
    requires e.ign2 == 0 && !e.xd
    ensures Encode(e) == Bit(e.p) + 2 * Bit(e.rw) + 4 * Bit(e.us) + 8 * Bit(e.pwt) + 16 * Bit(e.pcd) + 32 * Bit(e.a)
                         + 64 * Bit(e.d) + 128 * Bit(e.rsvd) + 0x100 * (e.ign1 % 16) + 0x1000 * (e.address % FRAMES)
  {
    hide Encode, OrFlags, Pow2, And, Or, Shl, Bit;
    EncodeIsSum(e);
    FlagBits(e.Flags());
    var ign1, frame := e.ign1 % 16, e.address % FRAMES;
    assert 256 * (ign1 + 16 * frame) == 0x100 * ign1 + 0x1000 * frame;
  }

  lemma FlagBits(s: seq<bool>)
    requires |s| == 8
    ensures OrFlags(s, 8) == Bit(s[0]) + 2 * Bit(s[1]) + 4 * Bit(s[2]) + 8 * Bit(s[3]) + 16 * Bit(s[4])
                             + 32 * Bit(s[5]) + 64 * Bit(s[6]) + 128 * Bit(s[7])
  {
    hide OrFlags, Pow2;
    PowersOfTwo();
    NoFlags(s);
    OrFlagsStep(s, 0);
    OrFlagsStep(s, 1);
    OrFlagsStep(s, 2);
    OrFlagsStep(s, 3);
    OrFlagsStep(s, 4);
    OrFlagsStep(s, 5);
    OrFlagsStep(s, 6);
    OrFlagsStep(s, 7);
  }

  lemma NoFlags(s: seq<bool>)
    ensures OrFlags(s, 0) == 0
  {
  }

  /** The word for a table: present and writable, nothing else, and the frame. */
  lemma InitBits(addr: nat)
    ensures Encode(InitEntry(addr)) == 3 + 0x1000 * ((addr / 0x1000) % FRAMES)
  {
    hide Encode, FrameOf;
    FrameReads(addr);
    EncodeBits(InitEntry(addr));
  }

  /** The word `map_page` writes: present, bits 1 to 4 of the flags in their own places, and the frame. */
  lemma FlaggedBits(pa: nat, flags: nat)
    ensures Encode(FlaggedEntry(pa, flags)) ==
              1 + 2 * ((flags / 2) % 2) + 4 * ((flags / 4) % 2) + 8 * ((flags / 8) % 2) + 16 * ((flags / 16) % 2)
              + 0x1000 * ((pa / 0x1000) % FRAMES)
  {
    hide Encode, FrameOf, And;
    FrameReads(pa);
    FlagTests(flags);
    EncodeBits(FlaggedEntry(pa, flags));
  }

  /** The flag tests of `map_page` read bits 1 to 4 of the flag word. */
  lemma FlagTests(flags: nat)
    ensures And(flags, PTE_W) != 0 <==> (flags / 2) % 2 == 1
    ensures And(flags, PTE_U) != 0 <==> (flags / 4) % 2 == 1
    ensures And(flags, PTE_PWT) != 0 <==> (flags / 8) % 2 == 1
    ensures And(flags, PTE_PCD) != 0 <==> (flags / 16) % 2 == 1
  {
    hide And, Pow2;
    PowersOfTwo();
    AndBit(flags, 1);
    AndBit(flags, 2);
    AndBit(flags, 3);
    AndBit(flags, 4);
  }

  lemma ZeroWord()
    ensures !Present(0) && !Large(0)
  {
    BitReads(0, 0);
    BitReads(0, 7);
  }

  // Page rounding, kernel/memlayout.h

  /** `PGROUNDDOWN`: the complement of PGSIZE - 1 is a mask of 52 ones and 12 zeros. */
  function RoundDown(a: nat): nat {
    And(a, HighMask(52, 12))
  }

  /** `PGROUNDUP`, with the addition in 64 bits. */
  function RoundUp(a: nat): nat {
    RoundDown((a + PGSIZE - 1) % WORD_LIMIT)
  }

  lemma RoundDownIs(a: nat)
    requires a < WORD_LIMIT
    ensures RoundDown(a) == a - a % PGSIZE
  {
    hide And, HighMask, Pow2;
    PowersOfTwo();
    AndHighMask(a, 12, 52);
  }

  lemma RoundUpAligned(a: nat)
    ensures RoundUp(a) % PGSIZE == 0 && RoundUp(a) < WORD_LIMIT
  {
    hide RoundDown;
    RoundDownIs((a + PGSIZE - 1) % WORD_LIMIT);
  }

  /** Rounding up, for addresses at least a page below the top: the least page boundary not below a. */
  lemma RoundUpIs(a: nat)
    requires a + PGSIZE <= WORD_LIMIT
    ensures RoundUp(a) % PGSIZE == 0 && a <= RoundUp(a) < a + PGSIZE
  {
    hide RoundDown;
    RoundDownIs(a + PGSIZE - 1);
  }

  /** `(frame << 12) | (va & (PGSIZE - 1))` puts the page offset under the frame. */
  lemma JoinOffset(frame: nat, va: nat)
    ensures Or(Shl(frame, 12), And(va, PGSIZE - 1)) == frame * PGSIZE + va % PGSIZE
  {
    hide And, Or, Shl, Pow2;
    PowersOfTwo();
    AndLowMask(va, 12);
    OrCommutes(Shl(frame, 12), va % PGSIZE);
    OrDisjoint(va % PGSIZE, frame, 12);
    ShlMultiplies(frame, 12);
  }
}
