/**
 * The core map of `mem2::frame::coremap`: one 64-bit entry per physical
 * frame. An entry packs the virtual address the frame is mapped at (without
 * its upper 16 bits), the owning process id and two flag bits:
 *
 *   bits 16..63  the low 48 bits of the virtual address
 *   bits  8..15  pid
 *   bits  2..7   reserved
 *   bit   1      IS_KERNEL_FRAME
 *   bit   0      IS_ALLOCATED
 */
module CoreMaps {
  import opened Machine
  import opened Frames

  const IS_ALLOCATED: int := 1
  const IS_KERNEL_FRAME: int := 2

  /** `CoreMapFlags::bits()`: only the two defined flag bits can be set. */
  type CoreMapFlags = x: int | 0 <= x < 4

  /** The virtual-address field holds the low 48 bits of the address. */
  const VMA_SPAN: int := 0x1_0000_0000_0000

  /**
   * `CoreMapEntry::new`: `(vma << 16) | flags | (pid << 8)` in `u64`. The
   * shift drops the top 16 bits of `vma`, and the three fields occupy
   * disjoint bits, so `|` is `+`.
   */
  function NewEntry(vma: u64, flags: CoreMapFlags, pid: u8): u64
  {
    (vma % VMA_SPAN) * 65536 + pid * 256 + flags
  }

  /** `CoreMapEntry::new_zero`. */
  function NewZero(): u64
  {
    0
  }

  /** The flag byte of an entry: bits 0..7. */
  function FlagBits(e: u64): u8
  {
    e % 256
  }

  /** The pid of an entry: bits 8..15. */
  function PidOf(e: u64): u8
  {
    (e / 256) % 256
  }

  /** The virtual-address field of an entry: bits 16..63. */
  function VmaOf(e: u64): (v: int)
    ensures 0 <= v < VMA_SPAN
  {
    e / 65536
  }

  /** Dividing a number laid out as `q * 65536 + p * 256 + f` recovers its three parts. */
  lemma Fields(n: int, q: int, p: int, f: int)
    requires n == q * 65536 + p * 256 + f && 0 <= p < 256 && 0 <= f < 256 && 0 <= q
    ensures n % 256 == f && (n / 256) % 256 == p && n / 65536 == q
  {
    assert n == (q * 256 + p) * 256 + f;
    assert n / 256 == q * 256 + p;
  }

  /** Each field of a new entry decodes to what was stored, the address modulo 2^48. */
  lemma EntryLayout(vma: u64, flags: CoreMapFlags, pid: u8)
    ensures FlagBits(NewEntry(vma, flags, pid)) == flags
    ensures PidOf(NewEntry(vma, flags, pid)) == pid
    ensures VmaOf(NewEntry(vma, flags, pid)) == vma % VMA_SPAN
  {
    Fields(NewEntry(vma, flags, pid), vma % VMA_SPAN, pid, flags);
  }

  /** An entry whose reserved bits are clear is the new entry of its own fields. */
  lemma EntryFromFields(e: u64)
    requires FlagBits(e) < 4
    ensures NewEntry(VmaOf(e), FlagBits(e), PidOf(e)) == e
  {
    var q := e / 65536;
    var r := e % 65536;
    assert e == q * 65536 + r;
    assert r == (r / 256) * 256 + r % 256;
    Fields(e, q, r / 256, r % 256);
  }

  /** The zero entry: not allocated, not a kernel frame, pid 0, address 0. */
  lemma ZeroEntry()
    ensures NewZero() == NewEntry(0, 0, 0)
    ensures FlagBits(NewZero()) == 0 && PidOf(NewZero()) == 0 && VmaOf(NewZero()) == 0
  {
  }

  /**
   * A core map: a slice of entries and the size that bounds indexing. The
   * size is kept apart from the slice as in the source, so indexing checks
   * both: the explicit assertion against `size`, then the slice's own bound.
   */
  class CoreMap {
    const entries: array<u64>
    const size: nat

    /** The struct literal `CoreMap { entries, size }`. */
    constructor (entries: array<u64>, size: nat)
      ensures this.entries == entries && this.size == size
    {
      this.entries := entries;
      this.size := size;
    }

    /** Whether `self[index]` reaches an entry instead of stopping the kernel. */
    predicate InBounds(index: nat)
    {
      index < size && index < entries.Length
    }

    /** `Index::index`: the entry at `index`; fatal at or past `size` (or the slice's end). */
    function Index(index: nat): (r: Result<u64>)
      reads entries
      ensures r.Ok? <==> InBounds(index)
      ensures r.Ok? ==> r.value == entries[index]
      ensures r.Err? ==> r.error == IndexOutOfRange
    {
      if index < size && index < entries.Length then Ok(entries[index]) else Err(IndexOutOfRange)
    }

    /** `IndexMut::index_mut` followed by a store through the returned reference. */
    method Store(index: nat, e: u64) returns (o: Outcome)
      modifies entries
      ensures InBounds(index) ==> o == Done && entries[..] == old(entries[..])[index := e]
      ensures !InBounds(index) ==> o == Fail(IndexOutOfRange) && entries[..] == old(entries[..])
      ensures o.Done? ==> Index(index) == Ok(e)
      ensures forall j: nat | j != index :: Index(j) == old(Index(j))
    {
      if index >= size || index >= entries.Length {
        return Fail(IndexOutOfRange);
      }
      entries[index] := e;
      return Done;
    }
  }

  /** `map(..).max()`: the greatest last byte among the areas. */
  function MaxEnd(areas: seq<MemoryArea>): (top: u64)
    requires |areas| > 0
    ensures forall j | 0 <= j < |areas| :: AreaEnd(areas[j]) <= top
    ensures exists j | 0 <= j < |areas| :: AreaEnd(areas[j]) == top
    decreases |areas|
  {
    if |areas| == 1 then AreaEnd(areas[0])
    else
      var rest := MaxEnd(areas[1..]);
      assert forall j | 1 <= j < |areas| :: AreaEnd(areas[1..][j - 1]) == AreaEnd(areas[j]);
      if AreaEnd(areas[0]) >= rest then AreaEnd(areas[0]) else rest
  }

  /** `frame_num`: the number of the frame holding the highest byte; fatal with no areas. */
  function TopFrameNumber(areas: seq<MemoryArea>): (r: Result<nat>)
    ensures r.Err? <==> |areas| == 0
    ensures r.Err? ==> r.error == NoMemoryAreas
    ensures r.Ok? ==> r.value < FRAME_LIMIT
  {
    if |areas| == 0 then Err(NoMemoryAreas) else Ok(MaxEnd(areas) / PAGE_SIZE)
  }

  /** An area's last frame is at most the top frame. */
  lemma LastFrameBelowTop(areas: seq<MemoryArea>, j: nat)
    requires j < |areas|
    ensures TopFrameNumber(areas).Ok? && LastFrame(areas[j]).number <= TopFrameNumber(areas).value
  {
    FrameContainingMonotone(AreaEnd(areas[j]), MaxEnd(areas));
  }

  /** The top frame is the last frame of one of the areas. */
  lemma TopIsSomeLastFrame(areas: seq<MemoryArea>)
    requires |areas| > 0
    ensures exists j | 0 <= j < |areas| :: LastFrame(areas[j]).number == TopFrameNumber(areas).value
  {
    var j :| 0 <= j < |areas| && AreaEnd(areas[j]) == MaxEnd(areas);
    assert LastFrame(areas[j]).number == TopFrameNumber(areas).value;
  }

  /** The source sizes the map with `frame_num` entries: one per frame below the top frame. */
  function EntryCountAsWritten(areas: seq<MemoryArea>): Result<nat>
  {
    TopFrameNumber(areas)
  }

  /** The top frame lies in an area yet has no entry in a map of the size the source computes. */
  lemma TopFrameHasNoEntry()
    ensures var areas := [MemoryArea(0, 0x2000)];
      CoveredBy(areas, Frame(1)) && EntryCountAsWritten(areas) == Ok(1)
  {
    var areas := [MemoryArea(0, 0x2000)];
    assert Covers(areas[0], Frame(1));
    assert MaxEnd(areas) == 0x1fff;
  }

  /** The entries a core map needs: frames 0 through the top frame. */
  function EntryCount(areas: seq<MemoryArea>): (r: Result<nat>)
    ensures r.Err? <==> |areas| == 0
    ensures r.Ok? ==> r.value == TopFrameNumber(areas).value + 1
  {
    if |areas| == 0 then Err(NoMemoryAreas) else Ok(TopFrameNumber(areas).value + 1)
  }

  /** Every frame of every area has an entry in a map of `EntryCount` entries. */
  lemma EveryFrameHasEntry(areas: seq<MemoryArea>, f: Frame)
    requires CoveredBy(areas, f)
    ensures EntryCount(areas).Ok? && f.number < EntryCount(areas).value
  {
    CoveredByWitness(areas, f);
    var j :| 0 <= j < |areas| && Covers(areas[j], f);
    LastFrameBelowTop(areas, j);
  }

  /** No smaller map would do: the last entry belongs to the last frame of some area. */
  lemma EntryCountIsTight(areas: seq<MemoryArea>)
    requires |areas| > 0
    ensures exists j | 0 <= j < |areas| :: LastFrame(areas[j]).number == EntryCount(areas).value - 1
  {
    TopIsSomeLastFrame(areas);
  }

  /** `entry_bytes`: eight bytes per entry. */
  function EntryBytes(count: nat): nat
  {
    count * 8
  }

  /** `entry_frame_num`: `entry_bytes / PAGE_SIZE`, plus one when there is a remainder. */
  function FramesFor(bytes: nat): (n: nat)
    ensures n * PAGE_SIZE >= bytes
    ensures n == 0 || (n - 1) * PAGE_SIZE < bytes
  {
    var base := bytes / PAGE_SIZE;
    if bytes % PAGE_SIZE != 0 then base + 1 else base
  }

  /** `FramesFor` is the least whole number of frames that holds the bytes. */
  lemma FramesForIsLeast(bytes: nat, n: nat)
    requires n * PAGE_SIZE >= bytes
    ensures FramesFor(bytes) <= n
  {
    assert FramesFor(bytes) > n ==> (FramesFor(bytes) - 1) * PAGE_SIZE >= n * PAGE_SIZE;
  }

  /**
   * The loop `for i in 1..entry_frame_num { new_frame = allocate_frame().expect(..) }`:
   * `count` more draws, giving the last frame drawn (`last` when there are
   * none), or `None` as soon as a draw fails.
   */
  method DrawFrames(allocator: InitialFrameAllocator, count: nat, last: Frame)
    returns (r: Option<Frame>, ghost drawn: seq<Frame>)
    requires allocator.Valid()
    modifies allocator`currentArea, allocator`nextFrame
    ensures allocator.Valid()
    ensures allocator.DrawnFrom(old(allocator.nextFrame.number), drawn)
    ensures r.Some? ==>
      |drawn| == count && r.value == (if count == 0 then last else drawn[count - 1])
      && allocator.nextFrame.number == allocator.Cursor(old(allocator.nextFrame.number), drawn, |drawn|)
    ensures r.None? ==>
      |drawn| < count && allocator.currentArea.None?
      && allocator.NoneAvailable(allocator.Cursor(old(allocator.nextFrame.number), drawn, |drawn|), FRAME_LIMIT)
  {
    drawn := [];
    r := Some(last);
    var i := 0;
    while i < count
      invariant i <= count
      invariant allocator.Valid()
      invariant |drawn| == i && r.Some?
      invariant r.value == if i == 0 then last else drawn[i - 1]
      invariant allocator.DrawnFrom(old(allocator.nextFrame.number), drawn)
      invariant allocator.nextFrame.number == allocator.Cursor(old(allocator.nextFrame.number), drawn, i)
    {
      var next := allocator.AllocateFrame();
      if next.None? {
        return None, drawn;
      }
      allocator.DrawnFromAppend(old(allocator.nextFrame.number), drawn, next.value);
      r := next;
      drawn := drawn + [next.value];
      i := i + 1;
    }
  }

  /** How many frames `CoreMap::new` draws for the map: the first one, and one more for each further frame the entries need. */
  function MapFrameCount(areas: seq<MemoryArea>): (n: nat)
    requires |areas| > 0
    ensures n >= 1 && n * PAGE_SIZE >= EntryBytes(EntryCount(areas).value)
  {
    var needed := FramesFor(EntryBytes(EntryCount(areas).value));
    if needed <= 1 then 1 else needed
  }

  /**
   * The allocation part of `CoreMap::new`: size the map, draw its first
   * frame, then `entry_frame_num - 1` more, keeping the last one drawn
   * (`Frame::from(0)` when there is none); fatal as soon as a draw fails.
   * The result is the frame range `FrameIter::new(first_frame, new_frame)`.
   */
  method DrawMapFrames(areas: seq<MemoryArea>, allocator: InitialFrameAllocator)
    returns (r: Result<FrameIter>, ghost drawn: seq<Frame>)
    requires allocator.Valid()
    modifies allocator`currentArea, allocator`nextFrame
    ensures allocator.Valid()
    ensures |areas| == 0 ==>
      r == Err(NoMemoryAreas) && drawn == []
      && allocator.nextFrame == old(allocator.nextFrame) && allocator.currentArea == old(allocator.currentArea)
    ensures allocator.DrawnFrom(old(allocator.nextFrame.number), drawn)
    ensures r.Ok? ==>
      |areas| > 0
      && |drawn| == MapFrameCount(areas)
      && r.value.start == drawn[0]
      && r.value.end == (if |drawn| == 1 then Frame(0) else drawn[|drawn| - 1])
      && allocator.nextFrame.number == allocator.Cursor(old(allocator.nextFrame.number), drawn, |drawn|)
    ensures r.Err? && |areas| > 0 ==>
      r.error == NoFramesAvailable
      && |drawn| < MapFrameCount(areas)
      && allocator.currentArea.None?
      && allocator.NoneAvailable(allocator.Cursor(old(allocator.nextFrame.number), drawn, |drawn|), FRAME_LIMIT)
  {
    drawn := [];
    var count := EntryCount(areas);
    if count.Err? {
      return Err(count.error), drawn;
    }
    var needed := FramesFor(EntryBytes(count.value));
    var first := allocator.AllocateFrame();
    if first.None? {
      return Err(NoFramesAvailable), drawn;
    }
    assert allocator.NextDraw(old(allocator.nextFrame.number), first.value);
    ghost var mid := allocator.nextFrame.number;
    assert mid == first.value.number + 1;
    var last, more := DrawFrames(allocator, if needed <= 1 then 0 else needed - 1, FrameContaining(0));
    assert allocator.DrawnFrom(mid, more);
    allocator.DrawnFromPrepend(old(allocator.nextFrame.number), first.value, more);
    drawn := [first.value] + more;
    if last.None? {
      return Err(NoFramesAvailable), drawn;
    }
    return Ok(FrameIter(first.value, last.value)), drawn;
  }
}
