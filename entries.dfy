/**
 * Page-table entries (kernel `mem2::page::table::entries`).
 *
 * An entry is one 64-bit word in the 4-level paging format of Intel SDM
 * Vol. 3A, section 4.5: bits 12 to 51 hold the physical address of a frame and
 * bits 0 to 8 and 63 hold flags.
 */
module Entries {
  import opened Machine
  import opened Frames

  const TWO_40: int := 0x100_0000_0000
  const TWO_52: int := 0x10_0000_0000_0000
  const TWO_63: int := 0x8000_0000_0000_0000

  /** The entry word (`Entry(u64)`). */
  type Entry = u64

  /** The flag bits `EntryFlags` defines: bits 0 to 8, and 63. */
  const PRESENT: u64 := 0x1
  const WRITABLE: u64 := 0x2
  const USER_ACCESSIBLE: u64 := 0x4
  const WRITE_THROUGH: u64 := 0x8
  const NO_CACHE: u64 := 0x10
  const ACCESSED: u64 := 0x20
  const DIRTY: u64 := 0x40
  const HUGE_PAGE: u64 := 0x80
  const GLOBAL: u64 := 0x100
  const NO_EXECUTE: u64 := 0x8000_0000_0000_0000

  /** A value of `EntryFlags`: a word with no bit set outside bits 0 to 8 and 63. */
  type EntryFlags = f: u64 | f % TWO_63 < 0x200

  /** `contains(PRESENT)`. */
  predicate IsPresent(flags: u64)
  {
    flags % 2 == 1
  }

  /** `contains(WRITABLE)`. */
  predicate IsWritable(flags: u64)
  {
    (flags / 0x2) % 2 == 1
  }

  /** `contains(HUGE_PAGE)`. */
  predicate IsHuge(flags: u64)
  {
    (flags / 0x80) % 2 == 1
  }

  /** `contains(NO_EXECUTE)`. */
  predicate IsNoExecute(flags: u64)
  {
    flags / TWO_63 == 1
  }

  /** `flags | PRESENT`. */
  function WithPresent(flags: EntryFlags): (r: EntryFlags)
    ensures IsPresent(r)
    ensures r - flags == if IsPresent(flags) then 0 else PRESENT
  {
    if IsPresent(flags) then flags else flags + PRESENT
  }

  /** `flags | WRITABLE`. */
  function WithWritable(flags: EntryFlags): (r: EntryFlags)
    ensures IsWritable(r)
    ensures r - flags == if IsWritable(flags) then 0 else WRITABLE
  {
    if IsWritable(flags) then flags
    else
      WritableBitClear(flags);
      flags + WRITABLE
  }

  /** Setting a clear WRITABLE bit adds 2 and keeps the word an `EntryFlags`. */
  lemma WritableBitClear(flags: EntryFlags)
    requires !IsWritable(flags)
    ensures flags + WRITABLE < WORD && (flags + WRITABLE) % TWO_63 < 0x200
    ensures IsWritable(flags + WRITABLE)
  {
    var t := flags / TWO_63;
    var low := flags % TWO_63;
    var q := low / 2;
    assert flags == 2 * (t * 0x4000_0000_0000_0000 + q) + low % 2;
    QuotRem2(flags, t * 0x4000_0000_0000_0000 + q, low % 2);
    QuotRem2(t * 0x4000_0000_0000_0000 + q, t * 0x2000_0000_0000_0000 + q / 2, q % 2);
    assert q % 2 == 0 && q < 0x100;
    assert flags + WRITABLE == TWO_63 * t + (low + 2) && low + 2 < 0x200;
    QuotRemTop(flags + WRITABLE, t, low + 2);
    assert flags + WRITABLE == 2 * (t * 0x4000_0000_0000_0000 + q + 1) + low % 2;
    QuotRem2(flags + WRITABLE, t * 0x4000_0000_0000_0000 + q + 1, low % 2);
    QuotRem2(t * 0x4000_0000_0000_0000 + q + 1, t * 0x2000_0000_0000_0000 + q / 2, 1);
  }

  lemma QuotRemTop(n: int, q: int, r: int)
    requires n == TWO_63 * q + r && 0 <= r < TWO_63
    ensures n / TWO_63 == q && n % TWO_63 == r
  {
  }

  /** `flags | NO_EXECUTE`. */
  function WithNoExecute(flags: EntryFlags): (r: EntryFlags)
    ensures IsNoExecute(r)
    ensures r - flags == if IsNoExecute(flags) then 0 else NO_EXECUTE
  {
    if IsNoExecute(flags) then flags else flags + NO_EXECUTE
  }

  /** `Entry::is_unused`. */
  predicate IsUnused(e: Entry)
  {
    e == 0
  }

  /** `Entry::flags`: `from_bits_truncate`, the word masked to the defined bits (`& 0x8000_0000_0000_01ff`). */
  function Flags(e: Entry): EntryFlags
  {
    e % 0x200 + (e / TWO_63) * TWO_63
  }

  /** The frame address bits of the word (`& 0x000f_ffff_ffff_f000`). */
  function AddressBits(e: Entry): u64
  {
    assert e % TWO_52 == (e % TWO_52 / PAGE_SIZE) * PAGE_SIZE + e % PAGE_SIZE by {
      var q, x := e / TWO_52, e % TWO_52;
      var q', r := x / PAGE_SIZE, x % PAGE_SIZE;
      assert e == TWO_52 * q + x && x == PAGE_SIZE * q' + r;
      QuotRemPage(e, 0x100_0000_0000 * q + q', r);
    }
    e % TWO_52 - e % PAGE_SIZE
  }

  /** `Entry::pointed_frame`: the frame of the address bits, when the entry is present. */
  function PointedFrame(e: Entry): Option<Frame>
  {
    if IsPresent(Flags(e)) then Some(FrameContaining(AddressBits(e))) else None
  }

  /** The address check of `Entry::set`: no bit outside 12 to 51 (`& 0xfff0_0000_0000_0fff == 0`). */
  predicate IsFrameAddress(a: u64)
  {
    a % PAGE_SIZE == 0 && a < TWO_52
  }

  /**
   * The word `Entry::set(frame, flags)` stores: the frame's start address
   * `|` the flag bits (the two occupy disjoint bits, so `|` is `+`); fatal
   * when the start address has bits outside 12 to 51.
   */
  function EntryFor(frame: Frame, flags: EntryFlags): Result<Entry>
  {
    var a := StartAddress(frame);
    if IsFrameAddress(a) then Ok(a + flags) else Err(InvalidFrameAddress)
  }

  lemma UnusedEntry(e: Entry)
    requires IsUnused(e)
    ensures PointedFrame(e) == None && Flags(e) == 0
  {
  }

  /** `flags()` keeps bits 0 to 8 and 63 of the word and clears the rest. */
  lemma FlagsKeepDefinedBits(e: Entry)
    ensures Flags(e) % 0x200 == e % 0x200
    ensures Flags(e) / TWO_63 == e / TWO_63
    ensures (Flags(e) % TWO_63) / 0x200 == 0
  {
  }

  /** A word with only defined bits is its own flag set. */
  lemma FlagsOfFlags(e: Entry)
    requires e % TWO_63 < 0x200
    ensures Flags(e) == e
  {
  }

  /** `pointed_frame` is present exactly when bit 0 of the word is set. */
  lemma PointedFrameIffPresentBit(e: Entry)
    ensures PointedFrame(e).Some? <==> e % 2 == 1
  {
    var low := e % 0x200;
    assert Flags(e) == 2 * (low / 2 + (e / TWO_63) * 0x4000_0000_0000_0000) + low % 2;
    QuotRem2(Flags(e), low / 2 + (e / TWO_63) * 0x4000_0000_0000_0000, low % 2);
    assert e == 2 * (256 * (e / 0x200) + low / 2) + low % 2;
    QuotRem2(e, 256 * (e / 0x200) + low / 2, low % 2);
  }

  /** The pointed frame starts at the word's bits 12 to 51. */
  lemma PointedFrameAddress(e: Entry)
    requires PointedFrame(e).Some?
    ensures StartAddress(PointedFrame(e).value) == AddressBits(e)
    ensures PointedFrame(e).value.number < TWO_40
  {
    var x := e % TWO_52;
    var q, r := x / PAGE_SIZE, x % PAGE_SIZE;
    assert x == PAGE_SIZE * q + r;
    assert AddressBits(e) == PAGE_SIZE * q;
    QuotRemPage(AddressBits(e), q, 0);
    QuotRemWord(q * PAGE_SIZE, 0, PAGE_SIZE * q);
  }

  /** Frames below 2^40 have their start address in bits 12 to 51, so `set` accepts them. */
  lemma EntryForAccepts(frame: Frame, flags: EntryFlags)
    ensures EntryFor(frame, flags).Ok? <==> frame.number % TWO_52 < TWO_40
  {
  }

  /**
   * The frame an entry written by `set(frame, ..)` names: the frame at the
   * stored start address, which is `frame` itself unless its start address
   * wraps.
   */
  function StoredFrame(frame: Frame): (f: Frame)
    ensures frame.number < FRAME_LIMIT ==> f == frame
  {
    FrameContaining(StartAddress(frame))
  }

  /**
   * Round trip of `set`: the stored word gives back the flags and, when
   * present, the frame at the stored start address.
   */
  lemma {:induction false} EntryRoundTrip(frame: Frame, flags: EntryFlags)
    requires EntryFor(frame, flags).Ok?
    ensures Flags(EntryFor(frame, flags).value) == flags
    ensures PointedFrame(EntryFor(frame, flags).value)
         == if IsPresent(flags) then Some(StoredFrame(frame)) else None
  {
    var a := StartAddress(frame);
    var m := a / PAGE_SIZE;
    assert a == PAGE_SIZE * m && m < TWO_40;
    var top := flags / TWO_63;
    var low := flags % TWO_63;
    assert flags == top * TWO_63 + low && low < 0x200;
    var w := a + flags;
    assert w == top * TWO_63 + (a + low) && a + low < TWO_52;
    assert w / TWO_63 == top;
    assert w == 0x200 * (top * 0x40_0000_0000_0000 + m * 8) + low;
    assert w % 0x200 == low;
    assert w == TWO_52 * (top * 0x800) + (a + low);
    assert w % TWO_52 == a + low;
    assert w == PAGE_SIZE * (top * 0x8_0000_0000_0000 + m) + low;
    assert w % PAGE_SIZE == low;
    assert AddressBits(w) == a;
    assert Flags(w) == flags;
  }

  /** The HUGE_PAGE flag of an entry is bit 7 of its word. */
  lemma HugeBitOfWord(e: Entry)
    ensures IsHuge(Flags(e)) <==> (e / HUGE_PAGE) % 2 == 1
  {
    var low := e % 0x200;
    var top := e / TWO_63;
    var h := e / 0x200;
    var b := low / 0x80;
    var s := low % 0x80;
    var f := Flags(e);
    assert f == 0x80 * (2 * (top * 0x80_0000_0000_0000) + b) + s;
    QuotRem128(f, 2 * (top * 0x80_0000_0000_0000) + b, s);
    assert e == 0x80 * (4 * h + b) + s;
    QuotRem128(e, 4 * h + b, s);
    QuotRem2(2 * (top * 0x80_0000_0000_0000) + b, top * 0x80_0000_0000_0000 + b / 2, b % 2);
    QuotRem2(4 * h + b, 2 * h + b / 2, b % 2);
  }

  lemma QuotRem128(n: int, q: int, r: int)
    requires n == 0x80 * q + r && 0 <= r < 0x80
    ensures n / 0x80 == q && n % 0x80 == r
  {
  }

  lemma QuotRem2(n: int, q: int, r: int)
    requires n == 2 * q + r && 0 <= r < 2
    ensures n / 2 == q && n % 2 == r
  {
  }

  const ELF_SECTION_WRITABLE: u64 := 0x1
  const ELF_SECTION_ALLOCATED: u64 := 0x2
  const ELF_SECTION_EXECUTABLE: u64 := 0x4

  /** `section.flags().contains(ELF_SECTION_ALLOCATED)`. */
  predicate Allocated(sectionFlags: u64)
  {
    (sectionFlags / ELF_SECTION_ALLOCATED) % 2 == 1
  }

  /** `section.flags().contains(ELF_SECTION_WRITABLE)`. */
  predicate WritableSection(sectionFlags: u64)
  {
    (sectionFlags / ELF_SECTION_WRITABLE) % 2 == 1
  }

  /** `section.flags().contains(ELF_SECTION_EXECUTABLE)`. */
  predicate Executable(sectionFlags: u64)
  {
    (sectionFlags / ELF_SECTION_EXECUTABLE) % 2 == 1
  }

  /** `EntryFlags::from_elf`: the flags for a kernel ELF section, from the section's flag word. */
  function FromElf(sectionFlags: u64): EntryFlags
  {
    var flags: EntryFlags := 0;
    var flags := if Allocated(sectionFlags) then WithPresent(flags) else flags;
    var flags := if WritableSection(sectionFlags) then WithWritable(flags) else flags;
    if Executable(sectionFlags) then flags else WithNoExecute(flags)
  }

  function Bit(b: bool): nat
  {
    if b then 1 else 0
  }

  /** PRESENT iff allocated, WRITABLE iff writable, NO_EXECUTE iff not executable, and no other bit. */
  lemma FromElfFlags(sectionFlags: u64)
    ensures IsPresent(FromElf(sectionFlags)) <==> Allocated(sectionFlags)
    ensures IsWritable(FromElf(sectionFlags)) <==> WritableSection(sectionFlags)
    ensures IsNoExecute(FromElf(sectionFlags)) <==> !Executable(sectionFlags)
    ensures FromElf(sectionFlags) == Bit(Allocated(sectionFlags)) * PRESENT
      + Bit(WritableSection(sectionFlags)) * WRITABLE + Bit(!Executable(sectionFlags)) * NO_EXECUTE
  {
  }
}
