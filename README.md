# TiOS kernel core in Dafny

This project models the paging and physical-frame layer of the TiOS x86-64
kernel, written in Rust, together with two small driver pieces: the VGA text
console and the real-time clock's date arithmetic. It proves properties of
that model.

The model covers:

- **Frames and pages:** the frame and page arithmetic, including the
  canonical-address rule, the split of a page number into four 9-bit table
  indices, and the inclusive page iterator.
- **Page-table entries:** the 64-bit entry codec, with the frame address in
  bits 12–51 and flag bits 0–8 and 63, and the flags derived from ELF
  section flags.
- **Page tables.** Physical memory is a map from frame to a 512-entry table,
  which the mapper updates in place. The model includes:
  - the zero and empty checks;
  - the recursive "next table" address arithmetic;
  - lazy creation of child tables.
- **The `mem::page` mapper** (`Mapper` and `ActivePageTable`):
  - `translate`, with its 1 GiB and 2 MiB huge-page shortcuts;
  - `map_to` with its double-map check;
  - `map`, `identity_map` and `unmap`;
  - the `test_paging` scenario.
- **The boot-time bump allocator `InitialFrameAllocator`.** It skips the
  kernel image and the multiboot information, and its cursor only moves
  forward.
- **The temporary page's allocator.** `TinyAllocator` is a three-slot frame
  pool. `TemporaryPage` maps a scratch page through the active table.
- **The core map:** entry bit packing, bounds-checked indexing, and the
  sizing arithmetic and frame draws of `CoreMap::new`.
- **The console:** a 25×80 cell grid with a column cursor.
- **The clock:** `DateTime` subtraction and the CMOS BCD decoding.

Machine words are integer subtypes: `u64` is below 2^64 and `u8` below 2^8.
Shifts and masks are written as multiplication, division and remainder by
powers of two. Where the source can overflow, the model writes the
wrap-around explicitly. That covers frame and page start addresses,
`DateTime`'s `u8` differences, and `PageIter`'s increment. The wrap-around
is what a release build computes; a debug build of the kernel panics
instead. Every fatal condition of the source (`assert!`, `expect`,
`unwrap`, `panic!`, `unimplemented!()`) becomes an error value of the
`Fatal` datatype in `machine.dfy`. The operation returns that error at the
point where the source panics. It keeps whatever the source had already
done by then, and the contracts say so. Four fatal outcomes leave the state
changed:
- `next_table_create` with a drawn frame that `set` refuses
  (`InvalidFrameAddress`): the frame has left the pool and is lost.
- `next_table_create` whose new child is the parent table itself
  (`MissingEntry`): the entry is linked and the table is zeroed.
- `unmap` into a full pool (`PoolFull`): the P1 entry is already cleared
  when `deallocate_frame` fails.
- `map_to` failing at the second or third `next_table_create`: the tables
  created by the earlier calls stay linked.

The files under `mem/page` call an `entry` and a `table` module that are not
part of this model. The model gives them the semantics of the `mem2` entry
and table code (`mem2/page/table/entries.rs` and `mem2/page/table/mod.rs`):
`pointed_frame`, `flags`, `set`, `set_unused`, `next_table` and
`next_table_create`. `Pages.PageContaining` models both
`mem2::page::Page::from` and `mem::page::Page::containing_address`
(`src/kernel/src/mem/page/mod.rs:21-26`), whose canonical-address tests are
the same. Likewise the page index functions of `mem/page/mod.rs:32-46` are
those of `mem2/page/mod.rs:46-60`.

Files, one module each:

- `machine.dfy` (`Machine`): words, `Option`, `Result`, `Outcome` and `Fatal`.
- `frame.dfy` (`Frames`): frames, memory areas and `InitialFrameAllocator`.
- `page.dfy` (`Pages`): pages, indices and `PageIter`.
- `entries.dfy` (`Entries`): the entry codec and `EntryFlags`.
- `table.dfy` (`PageTables`): tables, the recursive addresses and `PhysicalMemory`.
- `tiny_allocator.dfy` (`TinyPool`): `TinyAllocator`.
- `mapper.dfy` (`Mappers`): translation and `ActivePageTable`.
- `temp_page.dfy` (`TemporaryPages`): `TemporaryPage`.
- `coremap.dfy` (`CoreMaps`): the core map.
- `console.dfy` (`Consoles`): the console.
- `clock.dfy` (`Clocks`): the clock arithmetic.

## Model

| member | source | states |
|---|---|---|
| Frames.StartAddressAligned | src/kernel/src/mem2/frame/mod.rs:28-30 | every frame's start address, wrapping at 2^64, is a multiple of 4096 |
| Frames.AddressWithOffset | src/kernel/src/mem2/frame/mod.rs:28-30 | adding an in-page offset to a start address neither overflows nor changes the offset |
| Frames.StartAddressRoundTrip | src/kernel/src/mem2/frame/mod.rs:28-47 | for a frame whose start address does not overflow, `Frame::from(f.start_address()) == f` |
| Frames.FrameContainingRoundsDown | src/kernel/src/mem2/frame/mod.rs:41-47 | `Frame::from(a).start_address() == a - a % 4096` for every address |
| Frames.FrameContainingMonotone | src/kernel/src/mem2/frame/mod.rs:41-47 | `Frame::from` preserves the order of addresses, which is the order the derived `Ord` of frames uses |
| Frames.LowestEligible | src/kernel/src/mem2/frame/mod.rs:95-97 | the area `select_next_area` picks. It is `None` exactly when no area's last frame is at or after the cursor. Otherwise it is an eligible area with the lowest base address, the first such in iteration order |
| Frames.InitialFrameAllocator.constructor | src/kernel/src/mem2/frame/mod.rs:77-92 | the four boundary frames are the frames of the given addresses. The cursor starts at frame 0 and moves to the first frame of the lowest-based area. No frame below the cursor lies in any area |
| Frames.InitialFrameAllocator.SelectNextArea | src/kernel/src/mem2/frame/mod.rs:94-105 | the current area becomes the lowest-based area whose last frame is at or after the cursor. The cursor moves up to that area's first frame only if it was behind it. No frame it skips is in any area |
| Frames.InitialFrameAllocator.AllocateFrame | src/kernel/src/mem2/frame/mod.rs:109-132 | the recursive retry becomes a terminating loop. A returned frame lies in some area, outside the kernel and multiboot ranges, and within the current area. It is at or after the old cursor, and the cursor ends just past it, so returned frames strictly increase. No available frame was passed over. `None` means the areas are used up and no frame at or after the cursor is available. The cursor never decreases |
| Frames.InitialFrameAllocator.NothingAfterExhausted | src/kernel/src/mem2/frame/mod.rs:109-132 | once no frame is available from a cursor up to the frame limit, no later draw can return a frame, which is why `None` stays `None` |
| Frames.InitialFrameAllocator.DrawnFromAppend | src/kernel/src/mem2/frame/mod.rs:109-132 | a run of draws, each the next available frame after the one before, stays such a run when the next available frame is appended, and the cursor then sits just past it |
| Frames.InitialFrameAllocator.DrawnFromPrepend | src/kernel/src/mem2/frame/mod.rs:109-132 | the next available frame followed by a run of draws starting just past it is a run of draws from the first cursor, and both runs end at the same cursor |
| Pages.PageContaining | src/kernel/src/mem2/page/mod.rs:33-39 | fatal exactly for non-canonical addresses. Otherwise the address lies in the returned page |
| Pages.PageStartRoundsDown | src/kernel/src/mem2/page/mod.rs:33-44 | `Page::from(a).start_address() == a - a % 4096` |
| Pages.PageStartRoundTrip | src/kernel/src/mem2/page/mod.rs:33-44 | a page whose start address is canonical and does not overflow is recovered from its start address |
| Pages.IndexDecomposition | src/kernel/src/mem2/page/mod.rs:46-60 | `p4*2^27 + p3*2^18 + p2*2^9 + p1 == number mod 2^36`, each index below 512 by its type |
| Pages.CanonicalPageFromIndices | src/kernel/src/mem2/page/mod.rs:46-60 | the page of a canonical address is fully rebuilt from its four indices, with the sign extension set exactly when the P4 index is 256 or more |
| Pages.StartAddressKeepsIndices | src/kernel/src/mem2/page/mod.rs:42-60 | going to the start address and back gives a page with the same four indices |
| Pages.Add | src/kernel/src/mem2/page/mod.rs:25-31 | when it does not overflow, `page + n` has page number `number + n` |
| Pages.PagesBetween | src/kernel/src/mem2/page/mod.rs:71-83 | the page sequence `start, start+1, …, end`, of length `end - start + 1` and empty when `start > end` |
| Pages.PageIter.constructor | src/kernel/src/mem2/page/mod.rs:17-21 | an iterator over the given first and last pages |
| Pages.PageIter.Next | src/kernel/src/mem2/page/mod.rs:73-82 | returns the current page and advances, or once past the end returns `None` and changes nothing, so it keeps returning `None`. When the end is below the top page it yields the head of the remaining pages, and they lose exactly that page |
| Pages.RangeInclusive | src/kernel/src/mem2/page/mod.rs:63-69 | fatal exactly when `start > end`. Otherwise it yields an iterator whose remaining pages are `start..=end`, exactly `end - start + 1` of them |
| Entries.WithPresent | src/kernel/src/mem2/page/table/entries.rs:13-24 | `flags \| PRESENT` sets bit 0 and adds no other bit |
| Entries.WithWritable | src/kernel/src/mem2/page/table/entries.rs:13-24 | `flags \| WRITABLE` sets bit 1 and adds no other bit |
| Entries.WithNoExecute | src/kernel/src/mem2/page/table/entries.rs:13-24 | `flags \| NO_EXECUTE` sets bit 63 and adds no other bit |
| Entries.UnusedEntry | src/kernel/src/mem2/page/table/entries.rs:46-63 | an unused (zero) entry points at no frame and has no flags |
| Entries.FlagsKeepDefinedBits | src/kernel/src/mem2/page/table/entries.rs:52-54 | `flags()` keeps exactly bits 0–8 and 63 of the word and clears every other bit |
| Entries.FlagsOfFlags | src/kernel/src/mem2/page/table/entries.rs:52-54 | a word that has only defined bits is its own `flags()` |
| Entries.PointedFrameIffPresentBit | src/kernel/src/mem2/page/table/entries.rs:55-63 | `pointed_frame` is `Some` exactly when bit 0 is set |
| Entries.PointedFrameAddress | src/kernel/src/mem2/page/table/entries.rs:55-63 | the pointed frame's start address is `word & 0x000f_ffff_ffff_f000`, so its number is below 2^40 |
| Entries.EntryForAccepts | src/kernel/src/mem2/page/table/entries.rs:64-67 | `set` succeeds exactly when the frame's start address has no bits outside 12–51 |
| Entries.StoredFrame | src/kernel/src/mem2/page/table/entries.rs:64-67 | the frame an entry records after `set`: the frame itself whenever its start address does not wrap |
| Entries.EntryRoundTrip | src/kernel/src/mem2/page/table/entries.rs:52-67 | after `set(frame, flags)`, `flags()` is `flags`. `pointed_frame()` is the frame when `flags` has PRESENT and `None` otherwise |
| Entries.HugeBitOfWord | src/kernel/src/mem2/page/table/entries.rs:21-54 | the HUGE_PAGE flag of `flags()` is bit 7 of the word |
| Entries.FromElfFlags | src/kernel/src/mem2/page/table/entries.rs:28-42 | PRESENT iff allocated, WRITABLE iff writable, NO_EXECUTE iff not executable, and no other bit |
| PageTables.EmptyTableIsEmpty | src/kernel/src/mem2/page/table/mod.rs:62-75 | a table has every entry unused exactly when it is the zeroed table |
| PageTables.NextTableBits | src/kernel/src/mem2/page/table/mod.rs:80-97 | `next_table(i)` exists exactly when entry `i` has PRESENT set and HUGE_PAGE clear. It is then the entry's pointed frame |
| PageTables.ChildAddress | src/kernel/src/mem2/page/table/mod.rs:84-85 | `(table_address << 9) \| (i << 12)` mod 2^64 is page-aligned for an aligned table, and its bits 12–20 are `i` |
| PageTables.NextTableAddress | src/kernel/src/mem2/page/table/mod.rs:80-90 | `next_table_address(i)` is `Some` exactly when the entry leads to a next table |
| PageTables.RecursiveAddresses | src/kernel/src/mem2/page/table/mod.rs:121 | starting from `P4_ADDR = 0xffff_ffff_ffff_f000`, the recursive P3, P2 and P1 table addresses are the fixed windows plus the indices times their strides |
| PageTables.LinkLeadsToTarget | src/kernel/src/mem2/page/table/mod.rs:112 | an entry set to a frame with PRESENT \| WRITABLE leads to a next table, and that table is the frame |
| PageTables.LinkedChild | src/kernel/src/mem2/page/table/mod.rs:106-116 | after linking and zeroing a fresh child, `next_table(i)` is the child and the child is empty. No other entry of the parent, and no other table, changes |
| PageTables.LinkedOntoParent | src/kernel/src/mem2/page/table/mod.rs:106-116 | if the drawn frame is the parent table itself, zeroing it erases the new link, so the `unwrap` at line 115 is fatal |
| PageTables.PhysicalMemory.SetUnused | src/kernel/src/mem2/page/table/entries.rs:49-51 | the entry becomes 0 and nothing else changes |
| PageTables.PhysicalMemory.SetEntry | src/kernel/src/mem2/page/table/entries.rs:64-67 | fatal exactly on a frame address outside bits 12–51, changing nothing. Otherwise the entry becomes the encoded word and nothing else changes |
| PageTables.PhysicalMemory.Zero | src/kernel/src/mem2/page/table/mod.rs:62-66 | afterwards all 512 entries are unused and no other table changes |
| PageTables.PhysicalMemory.IsEmpty | src/kernel/src/mem2/page/table/mod.rs:68-75 | true exactly when every entry is unused |
| PageTables.PhysicalMemory.NextTableCreate | src/kernel/src/mem2/page/table/mod.rs:106-116 | covers every outcome of `next_table_create`. An existing next table is returned with nothing drawn or changed. A HUGE entry or an empty pool is fatal. Otherwise exactly one frame is drawn. A frame that `set` refuses is fatal and lost. On success, the result is the stored frame, linked PRESENT \| WRITABLE at entry `i` and zeroed; no other entry of the parent and no other table changes, and `next_table(i)` is the result |
| TinyPool.FirstOccupied | src/kernel/src/mem/page/temp_page/mod.rs:60-67 | the slot `allocate_frame` takes: the lowest-index occupied slot, every slot before it empty |
| TinyPool.FirstEmpty | src/kernel/src/mem/page/temp_page/mod.rs:73-81 | the slot `deallocate_frame` fills: the lowest-index empty slot, every slot before it occupied |
| TinyPool.HeldFramesEmpty | src/kernel/src/mem/page/temp_page/mod.rs:60-67 | the pool holds no frame exactly when every slot is empty |
| TinyPool.HeldFramesSize | src/kernel/src/mem/page/temp_page/mod.rs:55 | the pool holds at most three frames, and exactly three only when every slot is full |
| TinyPool.TakenFrames | src/kernel/src/mem/page/temp_page/mod.rs:60-67 | allocating finds nothing exactly when the pool is empty. Otherwise the pool loses exactly the returned frame |
| TinyPool.GivenFrames | src/kernel/src/mem/page/temp_page/mod.rs:73-81 | deallocating finds no slot exactly when all three are full. Otherwise the pool gains exactly the given frame |
| TinyPool.TakeThenGive | src/kernel/src/mem/page/temp_page/mod.rs:60-81 | giving back an allocated frame restores the pool's frames |
| TinyPool.HeldInOrderFrames | src/kernel/src/mem/page/temp_page/mod.rs:55 | the occupied slots read in slot order hold exactly the pool's frames |
| TinyPool.HeldOfFilled | src/kernel/src/mem/page/temp_page/mod.rs:86-92 | slots filled up to the first empty one list their frames in slot order |
| TinyPool.ThreeDraws | src/kernel/src/mem/page/temp_page/mod.rs:86-92 | three draws, each from the cursor the one before left, with `None` exactly when nothing is available, make the slot contents a run of next-available frames |
| TinyPool.TinyAllocator.constructor | src/kernel/src/mem/page/temp_page/mod.rs:86-92 | the three `allocate_frame` calls fill slots 0–2. Each filled slot holds the next available frame after the one before, starting from the outer cursor, and an empty slot has only empty slots after it. A first empty slot means nothing was available from the cursor on, which is when the outer allocator returns `None`. The outer cursor ends just past the last frame drawn |
| TinyPool.TinyAllocator.AllocateFrame | src/kernel/src/mem/page/temp_page/mod.rs:60-67 | takes the frame of the lowest occupied slot and empties that slot only. `None` leaves the slots unchanged |
| TinyPool.TinyAllocator.DeallocateFrame | src/kernel/src/mem/page/temp_page/mod.rs:73-81 | fills the lowest empty slot only. With all three slots full it is fatal (`PoolFull`) and changes nothing |
| Mappers.Translate | src/kernel/src/mem/page/mapper.rs:33-37 | fatal on a non-canonical address. `None` exactly when the page translates to `None`. A translated address keeps the offset within the page |
| Mappers.TranslateMapped | src/kernel/src/mem/page/mapper.rs:33-37 | an aligned address of a mapped page translates to the start of the page's frame |
| Mappers.TranslateAlignedLinked | src/kernel/src/mem/page/mapper.rs:33-73 | for an aligned address whose walk reaches a P1 table, `translate` is the start address of the P1 entry's frame, or `None` |
| Mappers.LinkedPathWalks | src/kernel/src/mem/page/mapper.rs:70-73 | when the P4, P3 and P2 entries lead to tables, the result is the P1 entry's frame, and the huge-page fallback is not consulted |
| Mappers.HugePageOf1GiB | src/kernel/src/mem/page/mapper.rs:43-52 | a present HUGE P3 entry gives `base + p2*512 + p1`, and is fatal unless the base is a multiple of 512*512 |
| Mappers.HugePageOf2MiB | src/kernel/src/mem/page/mapper.rs:53-65 | a present HUGE P2 entry under a non-huge P3 entry gives `base + p1`, and is fatal unless the base is a multiple of 512 |
| Mappers.AsWrittenAgreesWhenMapped | src/kernel/src/mem/page/mod.rs:87-120 | `ActivePageTable::translate_page` as written agrees with `Mapper::translate_page` wherever the latter does not give `None` |
| Mappers.AsWrittenTranslatesUnmappedPage | src/kernel/src/mem/page/mod.rs:103-110 | a concrete hierarchy with an ordinary present P2 entry: as written, the fallback reports an unmapped page as mapped |
| Mappers.TranslateAsWritten | src/kernel/src/mem/page/mod.rs:81-85 | `ActivePageTable::translate` over the as-written `translate_page`: fatal on a non-canonical address, and a translated address keeps the offset within the page |
| Mappers.AsWrittenTranslateAgrees | src/kernel/src/mem/page/mod.rs:81-120 | for a canonical address whose page the corrected translation does not give `None`, the as-written `translate` gives the same result |
| Mappers.UnbrokenWalkUnmapped | src/kernel/src/mem/page/mapper.rs:40-73 | a page whose walk stops before a P1 table, at an entry that is not HUGE, translates to `None` |
| Mappers.UnusedLeafUnmapped | src/kernel/src/mem/page/mapper.rs:40-73 | a page whose walk reaches a P1 table with an unused entry translates to `None` |
| Mappers.P3WindowPage | src/kernel/src/mem2/page/table/mod.rs:84-85 | the recursive address of a P3 table is the page with indices 511, 511, 511 and the P4 index |
| Mappers.P2WindowPage | src/kernel/src/mem2/page/table/mod.rs:84-85 | the recursive address of a P2 table is the page with indices 511, 511, the P4 index and the P3 index |
| Mappers.P1WindowPage | src/kernel/src/mem2/page/table/mod.rs:84-85 | the recursive address of a P1 table is the page with indices 511, the P4, P3 and P2 indices |
| Mappers.RecursiveP3Address | src/kernel/src/mem2/page/table/mod.rs:92-97 | with P4 slot 511 pointing back at the P4 table, the virtual address `next_table` computes for a P3 table translates to that table's frame |
| Mappers.RecursiveP2Address | src/kernel/src/mem2/page/table/mod.rs:92-97 | the same for a P2 table, two levels down |
| Mappers.RecursiveP1Address | src/kernel/src/mem2/page/table/mod.rs:92-97 | the same for a P1 table, three levels down |
| Mappers.ClearedLeafUnmaps | src/kernel/src/mem/page/mapper.rs:104-122 | clearing the P1 entry of a fully walked page makes it translate to `None` |
| Mappers.TranslatedLeafHasFrame | src/kernel/src/mem/page/mapper.rs:106-113 | once `unmap`'s assertion holds and the walk reaches a P1 table, the `pointed_frame().unwrap()` at line 113 cannot fail |
| Mappers.MappedPageUnmaps | src/kernel/src/mem/page/mapper.rs:104-113 | a page whose P1 entry `map_to` wrote passes `unmap`'s assertion, and `unmap` will hand back the frame that `map_to` stored |
| Mappers.TestAddressPage | src/kernel/src/mem/page/mod.rs:179-180 | `42 * 512 * 512 * 4096` lies in the page with P3 index 42 and the other indices 0 |
| Mappers.ActivePageTable.constructor | src/kernel/src/mem/page/mod.rs:67-71 | a table over the given root frame and physical memory |
| Mappers.ActivePageTable.CreateWalk | src/kernel/src/mem/page/mapper.rs:81-83 | the three `next_table_create` calls. Afterwards the walk reaches a P1 table. The pool lost exactly one frame per missing table, and nothing was drawn or written when the walk already existed. Failures are the fatal cases of `next_table_create` and happen only when the walk did not exist |
| Mappers.ActivePageTable.MapTo | src/kernel/src/mem/page/mod.rs:122-133 | on success, the page translated to `None` before and translates to the frame afterwards, and its P1 entry is `set(frame, flags \| PRESENT)`. The pool lost exactly one frame per missing table. The only entries that changed are the ones the new walk reads and those of the newly created tables. When the walk exists with an unused P1 entry and `set` accepts the frame, it succeeds. The double-map failure happens exactly when the walk exists and the P1 entry is in use, and then nothing changes |
| Mappers.ActivePageTable.Map | src/kernel/src/mem/page/mod.rs:135-139 | fatal with nothing changed when the pool is empty. Otherwise it maps the page to the first frame drawn, with `map_to`'s guarantees (unmapped before, mapped to that frame after) and one frame more drawn |
| Mappers.ActivePageTable.IdentityMap | src/kernel/src/mem/page/mod.rs:141-148 | fatal on a non-canonical start address. On success, `translate(frame.start_address())` was `None` before and is `Some(frame.start_address())` afterwards |
| Mappers.ActivePageTable.Unmap | src/kernel/src/mem/page/mod.rs:150-168 | fatal with nothing changed when `translate` of the start address is an error or `None`, and likewise when the P1 walk fails because of a huge page. Otherwise the P1 entry becomes 0, and the page translates to `None`. Exactly the previously mapped frame goes to `deallocate_frame`, which is fatal when the pool is full. Intermediate tables stay |
| Mappers.TestPaging | src/kernel/src/mem/page/mod.rs:172-188 | the `expect` on the first draw is fatal with nothing changed. The translation before is `translate` as written, and a fatal one ends the test with nothing changed. On success, the test address translated to `None` before `map_to`, the translation after is the drawn frame's start address, and the next frame is the pool's first frame left once the test frame and the new tables were taken |
| TemporaryPages.TemporaryPage.constructor | src/kernel/src/mem/page/temp_page/mod.rs:20-27 | the page, and a fresh tiny pool filled by three draws from the outer allocator, in the order and with the exhaustion case that `TinyAllocator::new` states |
| TemporaryPages.TemporaryPage.Map | src/kernel/src/mem/page/temp_page/mod.rs:29-40 | fatal with nothing changed when the page is already mapped or its translation is fatal. Otherwise it maps the page WRITABLE to the frame, with intermediate tables drawn only from the tiny pool, one per missing table, and returns `page.start_address()` |
| TemporaryPages.TemporaryPage.Unmap | src/kernel/src/mem/page/temp_page/mod.rs:42-44 | unmaps the page through the active table. Its frame goes into the tiny pool's lowest empty slot, which is fatal (`PoolFull`) when the pool is full |
| CoreMaps.VmaOf | src/kernel/src/mem2/frame/coremap.rs:22-27 | the virtual-address field, bits 16–63, is below 2^48 |
| CoreMaps.EntryLayout | src/kernel/src/mem2/frame/coremap.rs:30-33 | `(vma << 16) \| flags \| (pid << 8)` truncated to 64 bits decodes to the flags in bits 0–7, the pid in bits 8–15 and `vma mod 2^48` in bits 16–63 |
| CoreMaps.EntryFromFields | src/kernel/src/mem2/frame/coremap.rs:22-33 | every word whose flag byte has only the two defined bits is `new` of its own decoded fields |
| CoreMaps.ZeroEntry | src/kernel/src/mem2/frame/coremap.rs:35-37 | `new_zero()` is the all-zero word, `new(0, empty, 0)`, with every field 0 |
| CoreMaps.CoreMap.constructor | src/kernel/src/mem2/frame/coremap.rs:40-43 | a core map over the given entries and size |
| CoreMaps.CoreMap.Index | src/kernel/src/mem2/frame/coremap.rs:50-53 | fatal exactly for an index at or beyond the size (or beyond the entries). Otherwise it gives `entries[index]` |
| CoreMaps.CoreMap.Store | src/kernel/src/mem2/frame/coremap.rs:58-61 | writing through `index_mut`: fatal with nothing changed out of bounds. Otherwise `index` then reads the new entry, and every other index reads as before |
| CoreMaps.MaxEnd | src/kernel/src/mem2/frame/coremap.rs:77-78 | the largest `base_addr + length - 1` over the areas: at least every area's end and equal to one of them |
| CoreMaps.TopFrameNumber | src/kernel/src/mem2/frame/coremap.rs:77-78 | `frame_num` is fatal (`max().unwrap()`) exactly when there is no area. Otherwise it is a frame number below 2^52 |
| CoreMaps.LastFrameBelowTop | src/kernel/src/mem2/frame/coremap.rs:77-78 | every area's last frame is at most `frame_num` |
| CoreMaps.TopIsSomeLastFrame | src/kernel/src/mem2/frame/coremap.rs:77-78 | `frame_num` is the last frame of some area |
| CoreMaps.TopFrameHasNoEntry | src/kernel/src/mem2/frame/coremap.rs:77-79 | for one area of two frames, the source sizes one entry, yet frame 1 is in the area |
| CoreMaps.EntryCount | src/kernel/src/mem2/frame/coremap.rs:77-79 | the intended entry count is one more than the top frame number, fatal exactly without areas |
| CoreMaps.EveryFrameHasEntry | src/kernel/src/mem2/frame/coremap.rs:77-79 | every frame in any area has an entry below that count |
| CoreMaps.EntryCountIsTight | src/kernel/src/mem2/frame/coremap.rs:77-79 | the count is no larger than needed: its last entry is the last frame of some area |
| CoreMaps.FramesFor | src/kernel/src/mem2/frame/coremap.rs:80-86 | `entry_frame_num`: the frames it counts hold `entry_bytes`, and one frame fewer would not |
| CoreMaps.FramesForIsLeast | src/kernel/src/mem2/frame/coremap.rs:80-86 | it is the least `n` with `n * 4096 >= entry_bytes` |
| CoreMaps.MapFrameCount | src/kernel/src/mem2/frame/coremap.rs:80-97 | the number of frames `new` draws: at least one, and together large enough for all the entries |
| CoreMaps.DrawFrames | src/kernel/src/mem2/frame/coremap.rs:94-97 | the `for i in 1..entry_frame_num` draws. Each drawn frame is the next available one after the one before, starting from the old cursor. On success, exactly the requested count is drawn, the last one is kept, and the cursor sits just past it. A failed draw is fatal: fewer frames were drawn, the allocator has no current area, and nothing is available from the cursor on |
| CoreMaps.DrawMapFrames | src/kernel/src/mem2/frame/coremap.rs:90-99 | fatal with nothing changed without areas. Otherwise the drawn frames are the next available ones in turn, from the old cursor. On success, there are `MapFrameCount` of them, one plus `entry_frame_num - 1` or just one when at most one is needed, and the result is the range from the first to the last, which is `Frame(0)` when only one was drawn. A failed draw is fatal, and only when nothing is available from the cursor on |
| Consoles.Code | src/kernel/src/dev/console/mod.rs:9-26 | each of the sixteen colors has a code below 16 |
| Consoles.CodeInjective | src/kernel/src/dev/console/mod.rs:9-26 | distinct colors have distinct codes |
| Consoles.ColorCodeNibbles | src/kernel/src/dev/console/mod.rs:32-34 | the low nibble of `ColorCode::new(fg, bg)` is `fg` and the high nibble is `bg` |
| Consoles.ColorCodeInjective | src/kernel/src/dev/console/mod.rs:32-34 | a color code determines its foreground and background |
| Consoles.BlankRow | src/kernel/src/dev/console/mod.rs:117-120 | 80 blank cells (NUL, black on black) |
| Consoles.BlankScreen | src/kernel/src/dev/console/mod.rs:72-81 | a 25×80 grid of blank cells |
| Consoles.Scrolled | src/kernel/src/dev/console/mod.rs:114-126 | row `i-1` takes the old row `i` for `i` in 1..25, and row 24 becomes blank |
| Consoles.AfterByte | src/kernel/src/dev/console/mod.rs:83-98 | the console after `write_byte`. It keeps the column below 80, the invariant, and it keeps the color |
| Consoles.AfterString | src/kernel/src/dev/console/mod.rs:100-104 | `write_byte(c as u8)` for each character in order. It keeps the column invariant and the color |
| Consoles.CarriageReturnKeepsScreen | src/kernel/src/dev/console/mod.rs:110-112 | `\r` sets the column to 0 and leaves every cell unchanged |
| Consoles.ScrollBlank | src/kernel/src/dev/console/mod.rs:114-126 | scrolling a blank screen leaves it blank |
| Consoles.PrintableRun | src/kernel/src/dev/console/mod.rs:87-92 | non-control characters that fit before the right edge land in order and in the current color on row 24 from the cursor on. The cursor ends just after them, and every other cell is unchanged |
| Consoles.Console.constructor | src/kernel/src/dev/console/mod.rs:60-66 | column 0, the given color code and buffer |
| Consoles.Console.ChangeColorCode | src/kernel/src/dev/console/mod.rs:68-70 | changes the color only |
| Consoles.Console.ClearScreen | src/kernel/src/dev/console/mod.rs:72-81 | blanks all 25×80 cells and keeps the column and the color |
| Consoles.Console.ScrollOneLine | src/kernel/src/dev/console/mod.rs:114-126 | the buffer becomes the scrolled screen, the column 0, and the color is kept |
| Consoles.Console.MoveRowUp | src/kernel/src/dev/console/mod.rs:115-122 | one pass of the outer loop: row `i-1` takes row `i`, and row `i` is blanked. Every other row is untouched |
| Consoles.Console.PrintLineFeed | src/kernel/src/dev/console/mod.rs:106-108 | `\n` scrolls, as `write_byte` of a line feed specifies |
| Consoles.Console.PrintCarriageReturn | src/kernel/src/dev/console/mod.rs:110-112 | the column becomes 0. The color and the buffer are untouched |
| Consoles.Console.WriteByte | src/kernel/src/dev/console/mod.rs:83-98 | the new console is `AfterByte` of the old one |
| Consoles.Console.WriteStr | src/kernel/src/dev/console/mod.rs:100-104 | the new console is `AfterString` of the old one |
| Clocks.DateTimeCell.constructor | src/kernel/src/dev/clock.rs:16-25 | a variable holding the given date and time |
| Clocks.DateTimeCell.Update | src/kernel/src/dev/clock.rs:28-35 | afterwards all six fields equal `rhs`'s |
| Clocks.WrappingSub | src/kernel/src/dev/clock.rs:42-47 | `u8` subtraction: the difference when no borrow occurs, otherwise the difference plus 256 |
| Clocks.MinusAsWrittenWraps | src/kernel/src/dev/clock.rs:42-49 | 10:00:05 minus 09:59:59 on the same day comes out as 15622 seconds, not 6 |
| Clocks.AsWrittenAgreesWithoutBorrow | src/kernel/src/dev/clock.rs:42-54 | when no field of `self` is below `rhs`'s, the subtraction as written is the intended one |
| Clocks.Minus | src/kernel/src/dev/clock.rs:41-55 | fatal (`unimplemented!`) exactly when the month or the year differ |
| Clocks.MinusIsElapsedSeconds | src/kernel/src/dev/clock.rs:49-54 | with equal year and month, `a - b == dsec + 60*dmin + 3600*dhour + 86400*dday`, the difference of the seconds into the month |
| Clocks.MinusAntisymmetric | src/kernel/src/dev/clock.rs:41-55 | `x - x == 0`, and swapping the operands negates the difference |
| Clocks.MinusAdds | src/kernel/src/dev/clock.rs:41-55 | differences add up along three times in one month |
| Clocks.FromBcd | src/kernel/src/dev/clock.rs:114-119 | `(v & 0x0F) + (v / 16) * 10` is below 100 for a BCD byte |
| Clocks.BcdRoundTrip | src/kernel/src/dev/clock.rs:114-119 | decoding the BCD byte of a number below 100 gives the number |
| Clocks.BcdRoundTripBack | src/kernel/src/dev/clock.rs:114-119 | encoding a decoded BCD byte gives the byte back |
| Clocks.HourFromBcd | src/kernel/src/dev/clock.rs:116 | the decoded hour keeps the PM bit 0x80 |
| Clocks.HourRoundTrip | src/kernel/src/dev/clock.rs:116 | decoding a BCD hour register gives the hour, plus 0x80 when the PM bit is set |
| Clocks.DecodeBcdRoundTrip | src/kernel/src/dev/clock.rs:112-129 | when register B bit 0x04 is clear, the conversion block turns what a BCD clock holds into the date and time |
| Clocks.DecodeBinary | src/kernel/src/dev/clock.rs:113-129 | when register B bit 0x04 is set, the raw values are returned unchanged |

## Left out

- `BuddyAllocator`, its conversion from `InitialFrameAllocator`, and `CoreMapEntryFlags` (`mem2/frame/mod.rs:143-177`): every operation is `unimplemented!()`.
- `InitialFrameAllocator::{allocate_contiguous_frames, deallocate_frame}` and `TinyAllocator::allocate_frames`: `unimplemented!()`.
- `remap_kernel` and the empty `ActivePageTable`/`InactivePageTable` of `mem2/page/mod.rs:90-103`: there is no code to model.
- `CoreMap::{set, set_unused}`: `unimplemented!()`.
- The tail of `CoreMap::new` is not modelled:
  - the `FrameIter::range` assertion;
  - `higher_kernel_map`, which calls code that is not part of this model;
  - the raw reads of entries through `KERNEL_VMA`;
  - the `println!` diagnostics;
  - the final `unimplemented!()`.
  The model stops at the frame range.
- `TemporaryPage::map_table_frame`: it reinterprets the mapped address as a raw pointer to a table, which the index-based memory model does not express.
- `PageTable`'s `Index`/`IndexMut` and `Frame::clone`: plain element access and copying, which the model's sequence indexing and value types already give.
- Port and CPU-instruction I/O is not modelled: the RTC register-reading loops and `get_rtc_reg`, the `tlb::flush` in `unmap`, and the `Volatile`/`Unique` pointer to VGA memory. `Console`'s buffer is an `array2` given to the constructor, not a raw address.
- The recursive mapping is modelled as index arithmetic, not as pointer dereferences. `ActivePageTable` reaches its P4 table through a root frame, not through `P4_ADDR`. The lemmas `RecursiveP3Address`, `RecursiveP2Address` and `RecursiveP1Address` show the two views agree.
- A frame absent from the physical-memory map reads as an empty table.
- The mapper's generic `FrameAllocator` parameter is the `TinyAllocator` pool. `Mappers.ActivePageTable.MapTo`, `Map`, `IdentityMap`, `Mappers.TestPaging` and `TemporaryPages.TemporaryPage.Map` require `PoolFresh`: no frame in the pool is already a table on the page's walk, and no two pool slots hold the same frame. The source demands this only implicitly, since handing out a frame already in use corrupts the hierarchy, and the model does not describe that case.
- `TinyPool.TinyAllocator.constructor` and `TemporaryPages.TemporaryPage.constructor` take the outer allocator as an `InitialFrameAllocator`, where the source accepts any `A: FrameAllocator`. `InitialFrameAllocator` is the only allocator of the kernel with a working `allocate_frame`, so it is the one the model states the draws against.
- `Mappers.ActivePageTable.MapTo` does not state which frame each new table came from. It states only how many frames the pool lost and that the walk reaches a P1 table.
- `Mappers.ActivePageTable.Unmap` and `TemporaryPages.TemporaryPage.Map` use the corrected translation `Mappers.TranslatePage`, not `ActivePageTable::translate_page` as written (see Findings).
- `Unmap` does not free tables that become empty, matching the source's TODO.
- `Pages.PageIter.Next` states the remaining pages only when the end page is below the top page number. Past that point the source's `start.number += 1` wraps (a release build) or panics (a debug build).
- `CoreMaps.DrawMapFrames` uses the corrected entry count `CoreMaps.EntryCount` (see Findings).
- The `spin::Mutex` globals, the `Debug`/`fmt` implementations, and the `println!` and `log` calls are not modelled, including the three values `test_paging` prints, which `Mappers.TestPaging` returns instead.
- Integer width: `u8` and `usize` arithmetic wraps as in a release build. A debug build panics on the same overflows.

## Findings

| source | as written | input that shows it | evidently intended | confidence | as-written member | corrected member |
|---|---|---|---|---|---|---|
| src/kernel/src/mem/page/mod.rs:103-110 | The 2 MiB fallback of `ActivePageTable::translate_page` accepts any present P2 entry without checking HUGE_PAGE. An ordinary P2 entry whose P1 entry is unused is then reported as a huge mapping. | P4, P3 and P2 tables at frames 1, 2 and 3. Their entry 0 words are 0x2003, 0x3003 and 0x20_0003. Page 0 translates to frame 512 instead of `None`. | Check HUGE_PAGE as `Mapper::translate_page` does (`mem/page/mapper.rs:57`). | not executed | Mappers.TranslatePageAsWritten, Mappers.AsWrittenTranslatesUnmappedPage | Mappers.TranslatePage, Mappers.AsWrittenAgreesWhenMapped |
| src/kernel/src/dev/clock.rs:42-49 | Every field difference is a `u8` subtraction. A borrow between fields wraps in a release build, and panics in a debug build. | 10:00:05 minus 09:59:59 on the same day gives 15622 seconds. | Signed field differences, which give 6. | not executed | Clocks.MinusAsWritten, Clocks.MinusAsWrittenWraps | Clocks.Minus, Clocks.MinusIsElapsedSeconds |
| src/kernel/src/mem2/frame/coremap.rs:77-79 | `frame_num` is the top frame number, yet it is used as the number of entries, so the top frame has no entry. | A single area `[0, 0x2000)`: `frame_num` is 1, but frame 1 is in the area. | One entry per frame from 0 to the top frame, `frame_num + 1`. | not executed | CoreMaps.EntryCountAsWritten, CoreMaps.TopFrameHasNoEntry | CoreMaps.EntryCount, CoreMaps.EveryFrameHasEntry |
