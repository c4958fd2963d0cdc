/**
 * Physical frames and the boot-time bump allocator (kernel `mem2::frame`).
 *
 * A frame is a 4 KiB block of physical memory named by its number. The
 * `InitialFrameAllocator` walks the memory areas reported by the boot loader
 * in order of base address, handing out one frame at a time and skipping the
 * frames of the kernel image and of the multiboot information structure.
 */
module Frames {
  import opened Machine

  /** Frames in a 64-bit physical address space: 2^52. */
  const FRAME_LIMIT: int := WORD / PAGE_SIZE

  /** Frames compare by number (the derived `Ord`). */
  datatype Frame = Frame(number: u64)

  /** `Frame::start_address`: number * PAGE_SIZE in wrapping `usize` arithmetic. */
  function StartAddress(f: Frame): u64
  {
    (f.number * PAGE_SIZE) % WORD
  }

  /** `From<PhysicalAddress> for Frame`: the frame holding the address. */
  function FrameContaining(address: u64): (f: Frame)
    ensures f.number < FRAME_LIMIT
  {
    Frame(address / PAGE_SIZE)
  }

  /** A frame's start address is page-aligned, wrapped or not. */
  lemma StartAddressAligned(f: Frame)
    ensures StartAddress(f) % PAGE_SIZE == 0
  {
    var q := (f.number * PAGE_SIZE) / WORD;
    assert StartAddress(f) == PAGE_SIZE * (f.number - (WORD / PAGE_SIZE) * q);
  }

  /** An in-page offset added to a frame's start address stays below 2^64 and is that address's offset. */
  lemma AddressWithOffset(f: Frame, offset: int)
    requires 0 <= offset < PAGE_SIZE
    ensures StartAddress(f) + offset < WORD
    ensures (StartAddress(f) + offset) % PAGE_SIZE == offset
  {
    StartAddressAligned(f);
    var k := StartAddress(f) / PAGE_SIZE;
    assert StartAddress(f) == PAGE_SIZE * k;
    assert k < WORD / PAGE_SIZE;
  }

  lemma StartAddressRoundTrip(f: Frame)
    requires f.number < FRAME_LIMIT
    ensures StartAddress(f) % PAGE_SIZE == 0
    ensures FrameContaining(StartAddress(f)) == f
  {
  }

  lemma FrameContainingRoundsDown(address: u64)
    ensures StartAddress(FrameContaining(address)) == address - address % PAGE_SIZE
  {
  }

  lemma FrameContainingMonotone(a: u64, b: u64)
    requires a <= b
    ensures FrameContaining(a).number <= FrameContaining(b).number
  {
  }

  /** `FrameIter::new(start, end)` (and `range_inclusive`): an inclusive frame range. */
  datatype FrameIter = FrameIter(start: Frame, end: Frame)

  /** A memory area reported by the boot loader. */
  datatype MemoryArea = MemoryArea(base: u64, length: u64)

  /** The frame of the area's first byte. */
  function BaseFrame(a: MemoryArea): Frame
  {
    FrameContaining(a.base)
  }

  /** The last byte of an area, `base_addr + length - 1` in wrapping `u64` arithmetic. */
  function AreaEnd(a: MemoryArea): u64
  {
    (a.base + a.length - 1) % WORD
  }

  /** The frame of the area's last byte. */
  function LastFrame(a: MemoryArea): Frame
  {
    FrameContaining(AreaEnd(a))
  }

  /** The frame lies between the area's first and last frame. */
  predicate Covers(a: MemoryArea, f: Frame)
  {
    BaseFrame(a).number <= f.number <= LastFrame(a).number
  }

  /** Some area of the list holds the frame. */
  predicate CoveredBy(areas: seq<MemoryArea>, f: Frame)
    decreases |areas|
  {
    |areas| > 0 && (Covers(areas[0], f) || CoveredBy(areas[1..], f))
  }

  lemma {:induction false} CoveredByWitness(areas: seq<MemoryArea>, f: Frame)
    ensures CoveredBy(areas, f) <==> exists j | 0 <= j < |areas| :: Covers(areas[j], f)
    decreases |areas|
  {
    if |areas| > 0 {
      CoveredByWitness(areas[1..], f);
      if CoveredBy(areas[1..], f) {
        var j :| 0 <= j < |areas[1..]| && Covers(areas[1..][j], f);
        assert Covers(areas[j + 1], f);
      }
      if exists j | 0 <= j < |areas| :: Covers(areas[j], f) {
        var j :| 0 <= j < |areas| && Covers(areas[j], f);
        if j > 0 {
          assert Covers(areas[1..][j - 1], f);
        }
      }
    }
  }

  /** The filter of `select_next_area`: the area still has frames at or after `next`. */
  predicate Eligible(a: MemoryArea, next: Frame)
  {
    LastFrame(a).number >= next.number
  }

  /**
   * `filter(..).min_by_key(base_addr)` of `select_next_area`: the position of
   * the eligible area of least base address, the first one among equals.
   */
  function LowestEligible(areas: seq<MemoryArea>, next: Frame): (r: Option<nat>)
    ensures r.None? <==> forall j | 0 <= j < |areas| :: !Eligible(areas[j], next)
    ensures r.Some? ==> r.value < |areas| && Eligible(areas[r.value], next)
    ensures r.Some? ==>
      forall j | 0 <= j < |areas| && Eligible(areas[j], next) :: areas[r.value].base <= areas[j].base
    ensures r.Some? ==>
      forall j | 0 <= j < r.value && Eligible(areas[j], next) :: areas[r.value].base < areas[j].base
    decreases |areas|
  {
    if |areas| == 0 then None
    else
      var rest := LowestEligible(areas[1..], next);
      if !Eligible(areas[0], next) then
        (if rest.Some? then Some(rest.value + 1) else None)
      else if rest.Some? && areas[1..][rest.value].base < areas[0].base then
        Some(rest.value + 1)
      else
        Some(0)
  }

  class InitialFrameAllocator {
    const areas: seq<MemoryArea>
    var currentArea: Option<MemoryArea>
    var nextFrame: Frame
    const kernelStart: Frame
    const kernelEnd: Frame
    const multibootStart: Frame
    const multibootEnd: Frame

    /** The frame lies in the kernel image or in the multiboot information (both inclusive). */
    predicate Excluded(f: Frame)
    {
      (kernelStart.number <= f.number <= kernelEnd.number)
      || (multibootStart.number <= f.number <= multibootEnd.number)
    }

    predicate InSomeArea(f: Frame)
    {
      CoveredBy(areas, f)
    }

    /** A frame the allocator may hand out. */
    predicate Available(f: Frame)
    {
      InSomeArea(f) && !Excluded(f)
    }

    /** 1 while the current area has been used up and not yet replaced. */
    function Stale(): nat
      reads this
    {
      if currentArea.Some? && nextFrame.number > LastFrame(currentArea.value).number then 1 else 0
    }

    /** No frame numbered from `lo` up to, not including, `hi` is available. */
    predicate NoneAvailable(lo: int, hi: int)
    {
      forall g: u64 :: lo <= g < hi ==> !Available(Frame(g))
    }

    lemma NoneAvailableJoin(lo: int, mid: int, hi: int)
      requires lo <= mid <= hi
      requires NoneAvailable(lo, mid) && NoneAvailable(mid, hi)
      ensures NoneAvailable(lo, hi)
    {
    }

    /** The cursor after the first `k` frames of `drawn` were drawn, starting at `lo`: one past the last of them. */
    function Cursor(lo: int, drawn: seq<Frame>, k: nat): int
      requires k <= |drawn|
    {
      if k == 0 then lo else drawn[k - 1].number + 1
    }

    /** `f` is what `allocate_frame` hands out from cursor `from`: the least available frame at or after it. */
    predicate NextDraw(from: int, f: Frame)
    {
      Available(f) && from <= f.number && NoneAvailable(from, f.number)
    }

    /**
     * `drawn` are the frames successive `allocate_frame` calls hand out from
     * cursor `lo`: each is the least available frame at or after the cursor
     * the one before it left.
     */
    predicate DrawnFrom(lo: int, drawn: seq<Frame>)
    {
      forall k {:trigger Cursor(lo, drawn, k)} | 0 <= k < |drawn| :: NextDraw(Cursor(lo, drawn, k), drawn[k])
    }

    /** Once nothing is available from `lo` on, no later draw hands out a frame. */
    lemma NothingAfterExhausted(lo: int, from: int, f: Frame)
      requires NoneAvailable(lo, FRAME_LIMIT) && lo <= from
      ensures !NextDraw(from, f)
    {
      CoveredByWitness(areas, f);
    }

    lemma DrawnFromEmpty(lo: int)
      ensures DrawnFrom(lo, [])
    {
    }

    /** One more draw, from the cursor the earlier ones left, extends the sequence. */
    lemma DrawnFromAppend(lo: int, drawn: seq<Frame>, f: Frame)
      requires DrawnFrom(lo, drawn) && NextDraw(Cursor(lo, drawn, |drawn|), f)
      ensures DrawnFrom(lo, drawn + [f])
      ensures Cursor(lo, drawn + [f], |drawn| + 1) == f.number + 1
    {
      var s := drawn + [f];
      forall k | 0 <= k < |s|
        ensures NextDraw(Cursor(lo, s, k), s[k])
      {
        assert k > 0 ==> s[k - 1] == drawn[k - 1];
        assert Cursor(lo, s, k) == Cursor(lo, drawn, k);
        if k < |drawn| {
          assert s[k] == drawn[k];
          assert NextDraw(Cursor(lo, drawn, k), drawn[k]);
        } else {
          assert s[k] == f;
        }
      }
    }

    /** A first draw from `lo` followed by draws from the cursor it left. */
    lemma DrawnFromPrepend(lo: int, f: Frame, drawn: seq<Frame>)
      requires NextDraw(lo, f) && DrawnFrom(f.number + 1, drawn)
      ensures DrawnFrom(lo, [f] + drawn)
      ensures Cursor(lo, [f] + drawn, |drawn| + 1) == Cursor(f.number + 1, drawn, |drawn|)
    {
      var s := [f] + drawn;
      forall k | 0 <= k < |s|
        ensures NextDraw(Cursor(lo, s, k), s[k])
      {
        if k > 0 {
          assert s[k] == drawn[k - 1];
          assert Cursor(lo, s, k) == Cursor(f.number + 1, drawn, k - 1);
        }
      }
    }

    ghost predicate Bounded()
      reads this
    {
      kernelEnd.number < FRAME_LIMIT && multibootEnd.number < FRAME_LIMIT
      && nextFrame.number <= FRAME_LIMIT
    }

    /**
     * The cursor is inside or past the start of the current area; with no
     * current area, no area has a frame at or after the cursor.
     */
    ghost predicate Valid()
      reads this
    {
      Bounded()
      && (currentArea.Some? ==>
            currentArea.value in areas && BaseFrame(currentArea.value).number <= nextFrame.number)
      && (currentArea.None? ==> forall j | 0 <= j < |areas| :: !Eligible(areas[j], nextFrame))
    }

    constructor (kernelStartAddress: u64, kernelEndAddress: u64,
                 multibootStartAddress: u64, multibootEndAddress: u64,
                 memoryAreas: seq<MemoryArea>)
      ensures Valid()
      ensures areas == memoryAreas
      ensures kernelStart == FrameContaining(kernelStartAddress)
      ensures kernelEnd == FrameContaining(kernelEndAddress)
      ensures multibootStart == FrameContaining(multibootStartAddress)
      ensures multibootEnd == FrameContaining(multibootEndAddress)
      ensures var k := LowestEligible(memoryAreas, Frame(0));
        currentArea == if k.Some? then Some(memoryAreas[k.value]) else None
      ensures nextFrame == if currentArea.Some? then BaseFrame(currentArea.value) else Frame(0)
      ensures forall g: u64 :: g < nextFrame.number ==> !InSomeArea(Frame(g))
    {
      areas := memoryAreas;
      currentArea := None;
      nextFrame := FrameContaining(0);
      kernelStart := FrameContaining(kernelStartAddress);
      kernelEnd := FrameContaining(kernelEndAddress);
      multibootStart := FrameContaining(multibootStartAddress);
      multibootEnd := FrameContaining(multibootEndAddress);
      new;
      SelectNextArea();
    }

    /**
     * `select_next_area`: make the lowest-based eligible area current and move
     * the cursor up to its first frame if it is behind it.
     */
    method SelectNextArea()
      requires Bounded()
      modifies this`currentArea, this`nextFrame
      ensures Valid()
      ensures var k := LowestEligible(areas, old(nextFrame));
        currentArea == if k.Some? then Some(areas[k.value]) else None
      ensures nextFrame ==
        if currentArea.Some? && old(nextFrame).number < BaseFrame(currentArea.value).number
        then BaseFrame(currentArea.value) else old(nextFrame)
      ensures forall g: u64 :: old(nextFrame.number) <= g < nextFrame.number ==> !InSomeArea(Frame(g))
      ensures NoneAvailable(old(nextFrame.number), nextFrame.number)
    {
      var k := LowestEligible(areas, nextFrame);
      currentArea := if k.Some? then Some(areas[k.value]) else None;
      if currentArea.Some? {
        var startFrame := BaseFrame(currentArea.value);
        if nextFrame.number < startFrame.number {
          SkippedFramesOutsideAreas(k.value, nextFrame, startFrame);
          nextFrame := startFrame;
        }
      }
    }

    /** Frames between the cursor and the start of the chosen area belong to no area. */
    lemma SkippedFramesOutsideAreas(k: nat, next: Frame, start: Frame)
      requires LowestEligible(areas, next) == Some(k)
      requires start == BaseFrame(areas[k])
      ensures forall g: u64 :: next.number <= g < start.number ==> !InSomeArea(Frame(g))
    {
      forall g: u64 | next.number <= g < start.number
        ensures !InSomeArea(Frame(g))
      {
        CoveredByWitness(areas, Frame(g));
        if InSomeArea(Frame(g)) {
          var j :| 0 <= j < |areas| && Covers(areas[j], Frame(g));
          assert Eligible(areas[j], next);
          FrameContainingMonotone(areas[k].base, areas[j].base);
          assert false;
        }
      }
    }

    /** After `select_next_area`, the cursor has moved on or the new area still has frames ahead. */
    lemma SelectedAreaIsFresh(before: Frame)
      requires var k := LowestEligible(areas, before);
        currentArea == if k.Some? then Some(areas[k.value]) else None
      requires nextFrame.number >= before.number
      ensures nextFrame.number > before.number || currentArea.None?
        || nextFrame.number <= LastFrame(currentArea.value).number
    {
    }

    lemma InsideArea(a: MemoryArea, f: Frame)
      requires a in areas && Covers(a, f)
      ensures InSomeArea(f)
    {
      CoveredByWitness(areas, f);
    }

    /** With no area eligible, no frame at or after the cursor belongs to an area. */
    lemma Exhausted(next: Frame)
      requires forall j | 0 <= j < |areas| :: !Eligible(areas[j], next)
      ensures NoneAvailable(next.number, FRAME_LIMIT)
    {
      forall g: u64 | next.number <= g
        ensures !InSomeArea(Frame(g))
      {
        CoveredByWitness(areas, Frame(g));
      }
    }

    /** A run of frames inside one reserved range holds nothing available. */
    lemma ExcludedRun(from: int, to: int)
      requires (kernelStart.number <= from && to == kernelEnd.number + 1)
            || (multibootStart.number <= from && to == multibootEnd.number + 1)
      ensures NoneAvailable(from, to)
    {
    }

    /**
     * `allocate_frame`: the least available frame at or after the cursor, with
     * the cursor moved one past it; `None` once no such frame remains. The
     * source's self-recursive retry is the loop.
     */
    method AllocateFrame() returns (r: Option<Frame>)
      requires Valid()
      modifies this`currentArea, this`nextFrame
      ensures Valid()
      ensures old(nextFrame.number) <= nextFrame.number
      ensures r.Some? ==>
        && Available(r.value)
        && old(nextFrame.number) <= r.value.number
        && nextFrame.number == r.value.number + 1
        && currentArea.Some?
        && BaseFrame(currentArea.value).number <= r.value.number <= LastFrame(currentArea.value).number
      ensures r.Some? ==> NoneAvailable(old(nextFrame.number), r.value.number)
      ensures r.None? ==> currentArea.None?
      ensures r.None? ==> NoneAvailable(old(nextFrame.number), FRAME_LIMIT)
    {
      while currentArea.Some?
        invariant Valid()
        invariant old(nextFrame.number) <= nextFrame.number
        invariant NoneAvailable(old(nextFrame.number), nextFrame.number)
        decreases FRAME_LIMIT - nextFrame.number, Stale()
      {
        var area := currentArea.value;
        var frame := nextFrame;
        ghost var start := old(nextFrame.number);
        if frame.number > LastFrame(area).number {
          SelectNextArea();
          SelectedAreaIsFresh(frame);
          NoneAvailableJoin(start, frame.number, nextFrame.number);
        } else if kernelStart.number <= frame.number <= kernelEnd.number {
          ExcludedRun(frame.number, kernelEnd.number + 1);
          NoneAvailableJoin(start, frame.number, kernelEnd.number + 1);
          nextFrame := Frame(kernelEnd.number + 1);
        } else if multibootStart.number <= frame.number <= multibootEnd.number {
          ExcludedRun(frame.number, multibootEnd.number + 1);
          NoneAvailableJoin(start, frame.number, multibootEnd.number + 1);
          nextFrame := Frame(multibootEnd.number + 1);
        } else {
          nextFrame := Frame(nextFrame.number + 1);
          InsideArea(area, frame);
          return Some(frame);
        }
      }
      Exhausted(nextFrame);
      NoneAvailableJoin(old(nextFrame.number), nextFrame.number, FRAME_LIMIT);
      return None;
    }
  }
}
