/**
 * Page tables and the physical memory that holds them (kernel
 * `mem2::page::table`).
 *
 * A page table is a 4 KiB frame of 512 entries. Physical memory is modelled
 * as a map from frame to the table stored in it; a frame the map does not
 * name holds 512 unused entries. The kernel reaches a child table through
 * the recursive mapping of the last P4 slot at the virtual address
 * `(table_address << 9) | (index << 12)`; this model looks the child up by
 * the frame the parent entry points to, and `ChildAddress` states the
 * virtual-address arithmetic separately.
 */
module PageTables {
  import opened Machine
  import opened Frames
  import opened Entries
  import opened TinyPool

  /** The 512 entries of one table (`PageTable::entries`). */
  type Table = t: seq<Entry> | |t| == ENTRY_COUNT witness seq(ENTRY_COUNT, _ => 0)

  /** A table of 512 unused entries. */
  function EmptyTable(): Table
  {
    seq(ENTRY_COUNT, _ => 0)
  }

  /** Physical memory: the tables held in frames. */
  type Memory = map<Frame, Table>

  /** The table stored in frame `f`. */
  function TableAt(m: Memory, f: Frame): Table
  {
    if f in m then m[f] else EmptyTable()
  }

  /** Every entry of the table is unused. */
  predicate IsEmptyTable(t: Table)
  {
    forall j | 0 <= j < ENTRY_COUNT :: IsUnused(t[j])
  }

  lemma EmptyTableIsEmpty(t: Table)
    ensures IsEmptyTable(t) <==> t == EmptyTable()
  {
    if IsEmptyTable(t) {
      assert forall j | 0 <= j < ENTRY_COUNT :: t[j] == EmptyTable()[j];
    }
  }

  /** Entry flags that lead to a child table: PRESENT set and HUGE_PAGE clear (`next_table_address`). */
  predicate LeadsToTable(e: Entry)
  {
    IsPresent(Flags(e)) && !IsHuge(Flags(e))
  }

  /** `next_table`: the frame of the child table entry `i` of table `t` leads to. */
  function NextTable(m: Memory, t: Frame, i: TableIndex): Option<Frame>
  {
    var e := TableAt(m, t)[i];
    if LeadsToTable(e) then PointedFrame(e) else None
  }

  /** A child table exists exactly when the entry's PRESENT bit is set and its HUGE_PAGE bit is clear. */
  lemma NextTableBits(m: Memory, t: Frame, i: TableIndex)
    ensures NextTable(m, t, i).Some? <==>
      TableAt(m, t)[i] % 2 == 1 && (TableAt(m, t)[i] / HUGE_PAGE) % 2 == 0
    ensures NextTable(m, t, i).Some? ==> NextTable(m, t, i) == PointedFrame(TableAt(m, t)[i])
  {
    PointedFrameIffPresentBit(TableAt(m, t)[i]);
    HugeBitOfWord(TableAt(m, t)[i]);
  }

  /** The recursive-mapping address of the root table (the last page of the address space). */
  const P4_ADDR: u64 := 0xffff_ffff_ffff_f000

  /**
   * The address part of `next_table_address`: `(table_address << 9) | (index << 12)`
   * in wrapping arithmetic. For a page-aligned table the low 21 bits of the
   * shifted address are clear, so `|` is `+`.
   */
  function ChildAddress(tableAddress: u64, i: TableIndex): (r: u64)
    requires tableAddress % PAGE_SIZE == 0
    ensures r % PAGE_SIZE == 0
    ensures (r / PAGE_SIZE) % ENTRY_COUNT == i
  {
    var shifted := (tableAddress * ENTRY_COUNT) % WORD;
    assert shifted % 0x20_0000 == 0 by {
      var q := tableAddress / PAGE_SIZE;
      assert tableAddress * ENTRY_COUNT == 0x20_0000 * q;
      assert WORD == 0x20_0000 * 0x800_0000_0000;
    }
    var r := shifted + i * PAGE_SIZE;
    assert r / PAGE_SIZE == (shifted / 0x20_0000) * ENTRY_COUNT + i;
    r
  }

  /** `next_table_address`: `Some` exactly when the entry leads to a child table. */
  function NextTableAddress(m: Memory, t: Frame, tableAddress: u64, i: TableIndex): (r: Option<u64>)
    requires tableAddress % PAGE_SIZE == 0
    ensures r.Some? <==> NextTable(m, t, i).Some?
  {
    if LeadsToTable(TableAt(m, t)[i]) then Some(ChildAddress(tableAddress, i)) else None
  }

  /**
   * Through the recursive slot 511 the tables one, two and three levels
   * below the root appear at fixed windows at the top of the address space.
   */
  lemma RecursiveAddresses(i4: TableIndex, i3: TableIndex, i2: TableIndex)
    ensures ChildAddress(P4_ADDR, i4) == 0xffff_ffff_ffe0_0000 + i4 * PAGE_SIZE
    ensures ChildAddress(ChildAddress(P4_ADDR, i4), i3)
         == 0xffff_ffff_c000_0000 + i4 * 0x20_0000 + i3 * PAGE_SIZE
    ensures ChildAddress(ChildAddress(ChildAddress(P4_ADDR, i4), i3), i2)
         == 0xffff_ff80_0000_0000 + i4 * 0x4000_0000 + i3 * 0x20_0000 + i2 * PAGE_SIZE
  {
    var a4 := ChildAddress(P4_ADDR, i4);
    assert P4_ADDR * ENTRY_COUNT == WORD * 0x1ff + 0xffff_ffff_ffe0_0000;
    var a3 := ChildAddress(a4, i3);
    assert a4 * ENTRY_COUNT == WORD * 0x1ff + 0xffff_ffff_c000_0000 + i4 * 0x20_0000;
    assert a3 * ENTRY_COUNT == WORD * 0x1ff + 0xffff_ff80_0000_0000 + i4 * 0x4000_0000 + i3 * 0x20_0000;
  }

  /** The flags `next_table_create` gives a new link: PRESENT | WRITABLE. */
  const LINK_FLAGS: EntryFlags := PRESENT + WRITABLE

  /**
   * Memory after `next_table_create` links a new child: entry `i` of `t`
   * holds the link word, and the table it names is zeroed.
   */
  function Linked(m: Memory, t: Frame, i: TableIndex, child: Frame): Memory
    requires EntryFor(child, LINK_FLAGS).Ok?
  {
    var parent := TableAt(m, t)[i := EntryFor(child, LINK_FLAGS).value];
    m[t := parent][StoredFrame(child) := EmptyTable()]
  }

  /** The link word leads to a child table: the frame it names. */
  lemma LinkLeadsToTarget(child: Frame)
    requires EntryFor(child, LINK_FLAGS).Ok?
    ensures LeadsToTable(EntryFor(child, LINK_FLAGS).value)
    ensures PointedFrame(EntryFor(child, LINK_FLAGS).value) == Some(StoredFrame(child))
  {
    EntryRoundTrip(child, LINK_FLAGS);
  }

  /**
   * Unless the link names the parent itself, the linked child is the
   * parent's next table and is empty, and nothing else changes.
   */
  lemma LinkedChild(m: Memory, t: Frame, i: TableIndex, child: Frame)
    requires EntryFor(child, LINK_FLAGS).Ok?
    requires StoredFrame(child) != t
    ensures NextTable(Linked(m, t, i, child), t, i) == Some(StoredFrame(child))
    ensures IsEmptyTable(TableAt(Linked(m, t, i, child), StoredFrame(child)))
    ensures forall j: TableIndex | j != i :: TableAt(Linked(m, t, i, child), t)[j] == TableAt(m, t)[j]
    ensures forall g | g != t && g != StoredFrame(child) :: TableAt(Linked(m, t, i, child), g) == TableAt(m, g)
  {
    LinkLeadsToTarget(child);
  }

  /** When the link names the parent itself, zeroing the child wipes the link. */
  lemma LinkedOntoParent(m: Memory, t: Frame, i: TableIndex, child: Frame)
    requires EntryFor(child, LINK_FLAGS).Ok?
    requires StoredFrame(child) == t
    ensures NextTable(Linked(m, t, i, child), t, i) == None
  {
  }

  /** No child table yet, and the entry is not a huge page: `next_table_create` must draw a frame. */
  predicate MissingChild(m: Memory, t: Frame, i: TableIndex)
  {
    NextTable(m, t, i).None? && !IsHuge(Flags(TableAt(m, t)[i]))
  }

  /**
   * What `next_table_create(t, i)` does to memory `m` and pool `s`, giving
   * `m'`, `s'` and the result `r`: an existing child is returned with nothing
   * changed; a huge entry is fatal; otherwise a frame is drawn (fatal when the
   * pool is empty or `set` refuses it), linked and zeroed.
   */
  ghost predicate CreatesChild(m: Memory, t: Frame, i: TableIndex, s: seq<Option<Frame>>,
                               m': Memory, s': seq<Option<Frame>>, r: Result<Frame>)
  {
    if NextTable(m, t, i).Some? then r == Ok(NextTable(m, t, i).value) && m' == m && s' == s
    else if IsHuge(Flags(TableAt(m, t)[i])) then r == Err(HugePagesUnsupported) && m' == m && s' == s
    else
      s' == Taken(s) &&
      match Drawn(s)
      case None => r == Err(NoFramesAvailable) && m' == m
      case Some(child) =>
        if EntryFor(child, LINK_FLAGS).Err? then r == Err(InvalidFrameAddress) && m' == m
        else
          m' == Linked(m, t, i, child) &&
          r == (if StoredFrame(child) != t then Ok(StoredFrame(child)) else Err(MissingEntry))
  }

  /** Physical memory holding page tables, written in place. */
  class PhysicalMemory {
    var tables: Memory

    constructor (initial: Memory)
      ensures tables == initial
    {
      tables := initial;
    }

    /** `Entry::set_unused` on entry `i` of table `f`. */
    method SetUnused(f: Frame, i: TableIndex)
      modifies this
      ensures tables == old(tables)[f := TableAt(old(tables), f)[i := 0]]
    {
      tables := tables[f := TableAt(tables, f)[i := 0]];
    }

    /** `Entry::set` on entry `i` of table `f`; fatal when the frame address has bits outside 12 to 51. */
    method SetEntry(f: Frame, i: TableIndex, frame: Frame, flags: EntryFlags) returns (o: Outcome)
      modifies this
      ensures o.Fail? <==> EntryFor(frame, flags).Err?
      ensures o.Fail? ==> o.error == InvalidFrameAddress && tables == old(tables)
      ensures o.Done? ==> tables == old(tables)[f := TableAt(old(tables), f)[i := EntryFor(frame, flags).value]]
    {
      var e := EntryFor(frame, flags);
      if e.Err? {
        return Fail(e.error);
      }
      tables := tables[f := TableAt(tables, f)[i := e.value]];
      return Done;
    }

    /** `PageTable::zero`: every entry of table `f` set unused, one at a time. */
    method Zero(f: Frame)
      modifies this
      ensures tables == old(tables)[f := EmptyTable()]
    {
      var before := TableAt(tables, f);
      tables := tables[f := before];
      for i := 0 to ENTRY_COUNT
        invariant f in tables && tables == old(tables)[f := tables[f]]
        invariant forall j | 0 <= j < i :: tables[f][j] == 0
        invariant forall j | i <= j < ENTRY_COUNT :: tables[f][j] == before[j]
      {
        SetUnused(f, i);
      }
      assert tables[f] == EmptyTable();
    }

    /** `PageTable::is_empty`: every entry of table `f` is unused, stopping at the first that is not. */
    method IsEmpty(f: Frame) returns (b: bool)
      ensures b <==> IsEmptyTable(TableAt(tables, f))
    {
      var t := TableAt(tables, f);
      for i := 0 to ENTRY_COUNT
        invariant forall j | 0 <= j < i :: IsUnused(t[j])
      {
        if !IsUnused(t[i]) {
          return false;
        }
      }
      return true;
    }

    /**
     * `next_table_create`: the child table of entry `i` of table `t`,
     * created when missing. Creating draws a frame from the pool, links it
     * with PRESENT | WRITABLE and zeroes it; fatal on a huge entry, an empty
     * pool or a frame `set` refuses. The final `unwrap` is fatal when the
     * drawn frame is `t` itself, whose zeroing wipes the new link.
     */
    method NextTableCreate(t: Frame, i: TableIndex, pool: TinyAllocator) returns (r: Result<Frame>)
      requires pool.Valid()
      modifies this, pool.slots
      ensures CreatesChild(old(tables), t, i, old(pool.slots[..]), tables, pool.slots[..], r)
      ensures r.Ok? ==> NextTable(tables, t, i) == Some(r.value)
      ensures NextTable(old(tables), t, i).Some? ==>
        r == Ok(NextTable(old(tables), t, i).value) && tables == old(tables) && pool.slots[..] == old(pool.slots[..])
      ensures NextTable(old(tables), t, i).None? && r.Ok? ==>
        Drawn(old(pool.slots[..])).Some? && r.value == StoredFrame(Drawn(old(pool.slots[..])).value)
        && pool.slots[..] == Taken(old(pool.slots[..]))
        && IsEmptyTable(TableAt(tables, r.value))
        && (forall j: TableIndex | j != i :: TableAt(tables, t)[j] == TableAt(old(tables), t)[j])
        && (forall g | g != t && g != r.value :: TableAt(tables, g) == TableAt(old(tables), g))
    {
      var existing := NextTable(tables, t, i);
      if existing.Some? {
        return Ok(existing.value);
      }
      if IsHuge(Flags(TableAt(tables, t)[i])) {
        return Err(HugePagesUnsupported);
      }
      var frame := pool.AllocateFrame();
      if frame.None? {
        return Err(NoFramesAvailable);
      }
      var o := SetEntry(t, i, frame.value, LINK_FLAGS);
      if o.Fail? {
        return Err(o.error);
      }
      LinkLeadsToTarget(frame.value);
      var created := NextTable(tables, t, i).value;
      Zero(created);
      var linked := NextTable(tables, t, i);
      if linked.None? {
        return Err(MissingEntry);
      }
      LinkedChild(old(tables), t, i, frame.value);
      return Ok(linked.value);
    }
  }
}
