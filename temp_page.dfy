/**
 * The temporary page of `mem::page::temp_page`: one virtual page, mapped on
 * demand to any frame so that the kernel can write to that frame, with its
 * own tiny pool of three frames for the page tables the mapping needs.
 */
module TemporaryPages {
  import opened Machine
  import opened Frames
  import opened Pages
  import opened Entries
  import opened TinyPool
  import opened Mappers

  class TemporaryPage {
    const page: Page
    const allocator: TinyAllocator

    /** `TemporaryPage::new`: the page, and a tiny pool filled by three draws from `outer`. */
    constructor (page: Page, outer: InitialFrameAllocator)
      requires outer.Valid()
      modifies outer
      ensures this.page == page && fresh(allocator) && fresh(allocator.slots)
      ensures allocator.Valid() && outer.Valid()
      ensures FilledFrom(outer, old(outer.nextFrame.number), allocator.slots[..])
      ensures allocator.slots[2].Some? ==> outer.nextFrame.number == allocator.slots[2].value.number + 1
      ensures allocator.slots[2].None? ==> outer.currentArea.None?
    {
      this.page := page;
      allocator := new TinyAllocator(outer);
    }

    /**
     * `map`: map the page, writable, to `frame` and return its start address;
     * fatal when the page is already mapped.
     */
    method Map(frame: Frame, active: ActivePageTable) returns (r: Result<u64>)
      requires allocator.Valid()
      requires PoolFresh(allocator.slots[..], active.memory.tables, active.root, page)
      modifies active.memory, allocator.slots
      ensures TranslatePage(old(active.memory.tables), active.root, page).Err? ==>
        r == Err(TranslatePage(old(active.memory.tables), active.root, page).error)
        && active.memory.tables == old(active.memory.tables) && allocator.slots[..] == old(allocator.slots[..])
      ensures TranslatePage(old(active.memory.tables), active.root, page).Ok?
              && TranslatePage(old(active.memory.tables), active.root, page).value.Some? ==>
        r == Err(TemporaryPageInUse)
        && active.memory.tables == old(active.memory.tables) && allocator.slots[..] == old(allocator.slots[..])
      ensures r.Ok? ==>
        r.value == PageStart(page)
        && TranslatePage(active.memory.tables, active.root, page) == Ok(Some(StoredFrame(frame)))
        && EntryFor(frame, WithPresent(WRITABLE)).Ok?
        && Leaf(active.memory.tables, active.root, page) == Some(EntryFor(frame, WithPresent(WRITABLE)).value)
        && allocator.slots[..] == TakenTimes(old(allocator.slots[..]), MissingTables(old(active.memory.tables), active.root, page))
      ensures r.Err? ==>
        r.error in {MisalignedHugePage, TemporaryPageInUse, HugePagesUnsupported, NoFramesAvailable,
                    InvalidFrameAddress, AlreadyMapped}
    {
      var current := TranslatePage(active.memory.tables, active.root, page);
      if current.Err? {
        return Err(current.error);
      }
      if current.value.Some? {
        return Err(TemporaryPageInUse);
      }
      var o := active.MapTo(page, frame, WRITABLE, allocator);
      if o.Fail? {
        return Err(o.error);
      }
      return Ok(PageStart(page));
    }

    /** `unmap`: unmap the page through the active table, giving its frame to the tiny pool. */
    method Unmap(active: ActivePageTable) returns (o: Outcome)
      requires allocator.Valid()
      modifies active.memory, allocator.slots
      ensures var m := old(active.memory.tables);
        Translate(m, active.root, PageStart(page)).Ok? && Translate(m, active.root, PageStart(page)).value.Some?
        && Descend(m, active.root, page, 3).Some? ==>
          Walk(m, active.root, page).Some?
          && TranslatePage(active.memory.tables, active.root, page) == Ok(None)
          && allocator.slots[..] == Given(old(allocator.slots[..]), Walk(m, active.root, page).value)
          && o == (if FirstEmpty(old(allocator.slots[..])) < 3 then Done else Fail(PoolFull))
      ensures var m := old(active.memory.tables);
        !(Translate(m, active.root, PageStart(page)).Ok? && Translate(m, active.root, PageStart(page)).value.Some?
          && Descend(m, active.root, page, 3).Some?) ==>
          o.Fail? && active.memory.tables == m && allocator.slots[..] == old(allocator.slots[..])
    {
      o := active.Unmap(page, allocator);
    }
  }
}
