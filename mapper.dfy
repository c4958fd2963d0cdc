/**
 * The active page table of the kernel's `mem::page` tree (`Mapper` in
 * `mapper.rs` and its duplicate `ActivePageTable` in `mod.rs`): address
 * translation through the four-level hierarchy, and mapping and unmapping
 * pages, drawing intermediate tables from a frame pool.
 */
module Mappers {
  import opened Machine
  import opened Frames
  import opened Pages
  import opened Entries
  import opened TinyPool
  import opened PageTables

  /** The entry a page uses in the table at `level`: level 0 is the root (P4), level 3 the P1 table. */
  function LevelIndex(page: Page, level: nat): TableIndex
    requires level <= 3
  {
    if level == 0 then P4Index(page)
    else if level == 1 then P3Index(page)
    else if level == 2 then P2Index(page)
    else P1Index(page)
  }

  /**
   * The table `level` links below the root along the page's walk (`next_table`
   * chained from the root): level 1 is the P3 table, level 3 the P1 table.
   */
  function Descend(m: Memory, root: Frame, page: Page, level: nat): Option<Frame>
    requires level <= 3
  {
    if level == 0 then Some(root)
    else if level == 1 then NextTable(m, root, P4Index(page))
    else
      match NextTable(m, root, P4Index(page))
      case None => None
      case Some(p3) =>
        if level == 2 then NextTable(m, p3, P3Index(page))
        else
          match NextTable(m, p3, P3Index(page))
          case None => None
          case Some(p2) => NextTable(m, p2, P2Index(page))
  }

  /** The P1 entry of the page, when the walk reaches a P1 table. */
  function Leaf(m: Memory, root: Frame, page: Page): Option<Entry>
  {
    match Descend(m, root, page, 3)
    case None => None
    case Some(p1) => Some(TableAt(m, p1)[P1Index(page)])
  }

  /** The normal walk of `translate_page`: the frame of the page's P1 entry. */
  function Walk(m: Memory, root: Frame, page: Page): Option<Frame>
  {
    match Leaf(m, root, page)
    case None => None
    case Some(e) => PointedFrame(e)
  }

  /** The first frame of a huge page: the frame of a present entry with HUGE_PAGE set. */
  function HugeStart(e: Entry): Option<Frame>
  {
    if PointedFrame(e).Some? && IsHuge(Flags(e)) then PointedFrame(e) else None
  }

  /**
   * The `huge_page` fallback of `Mapper::translate_page`: a huge P3 entry maps
   * a 1 GiB page, a huge P2 entry a 2 MiB page; the first frame must be
   * aligned to the page size, else fatal.
   */
  function HugeFallback(m: Memory, root: Frame, page: Page): Result<Option<Frame>>
  {
    match Descend(m, root, page, 1)
    case None => Ok(None)
    case Some(p3) =>
      match HugeStart(TableAt(m, p3)[P3Index(page)])
      case Some(start) =>
        if start.number % (ENTRY_COUNT * ENTRY_COUNT) != 0 then Err(MisalignedHugePage)
        else Ok(Some(Frame(start.number + P2Index(page) * ENTRY_COUNT + P1Index(page))))
      case None =>
        match NextTable(m, p3, P3Index(page))
        case None => Ok(None)
        case Some(p2) =>
          match HugeStart(TableAt(m, p2)[P2Index(page)])
          case None => Ok(None)
          case Some(start) =>
            if start.number % ENTRY_COUNT != 0 then Err(MisalignedHugePage)
            else Ok(Some(Frame(start.number + P1Index(page))))
  }

  /** `Mapper::translate_page`: the normal walk, or else the huge-page fallback. */
  function TranslatePage(m: Memory, root: Frame, page: Page): Result<Option<Frame>>
  {
    match Walk(m, root, page)
    case Some(f) => Ok(Some(f))
    case None => HugeFallback(m, root, page)
  }

  /** `translate`: the physical address of a virtual address, keeping its offset within the page. */
  function Translate(m: Memory, root: Frame, va: u64): (r: Result<Option<u64>>)
    ensures !IsCanonical(va) ==> r == Err(NonCanonicalAddress)
    ensures r.Ok? && r.value.Some? ==> r.value.value % PAGE_SIZE == va % PAGE_SIZE
    ensures IsCanonical(va) ==>
      (r == Ok(None) <==> TranslatePage(m, root, PageContaining(va).value) == Ok(None))
  {
    match PageContaining(va)
    case Err(e) => Err(e)
    case Ok(page) =>
      match TranslatePage(m, root, page)
      case Err(e) => Err(e)
      case Ok(None) => Ok(None)
      case Ok(Some(f)) => AddressWithOffset(f, va % PAGE_SIZE); Ok(Some(StartAddress(f) + va % PAGE_SIZE))
  }

  /** The address translation of a canonical address whose page is mapped. */
  lemma TranslateMapped(m: Memory, root: Frame, va: u64, f: Frame)
    requires IsCanonical(va) && va % PAGE_SIZE == 0
    requires TranslatePage(m, root, PageContaining(va).value) == Ok(Some(f))
    ensures Translate(m, root, va) == Ok(Some(StartAddress(f)))
  {
  }

  /** When the walk reaches a P1 table the fallback adds nothing: the result is the P1 entry's frame. */
  lemma LinkedPathWalks(m: Memory, root: Frame, page: Page)
    requires Descend(m, root, page, 3).Some?
    ensures TranslatePage(m, root, page) == Ok(Walk(m, root, page))
  {
    var p3 := Descend(m, root, page, 1).value;
    var p2 := Descend(m, root, page, 2).value;
    assert HugeStart(TableAt(m, p3)[P3Index(page)]).None?;
    assert HugeStart(TableAt(m, p2)[P2Index(page)]).None?;
  }

  /** A huge P3 entry maps the 1 GiB region: the page's position in it is added to the first frame. */
  lemma HugePageOf1GiB(m: Memory, root: Frame, page: Page)
    requires Descend(m, root, page, 1).Some?
    requires HugeStart(TableAt(m, Descend(m, root, page, 1).value)[P3Index(page)]).Some?
    ensures var start := HugeStart(TableAt(m, Descend(m, root, page, 1).value)[P3Index(page)]).value;
      TranslatePage(m, root, page) ==
        if start.number % (ENTRY_COUNT * ENTRY_COUNT) == 0 then Ok(Some(Frame(start.number + page.number % TWO_18)))
        else Err(MisalignedHugePage)
  {
    LowIndices(page);
  }

  /** A huge P2 entry maps the 2 MiB region: the page's position in it is added to the first frame. */
  lemma HugePageOf2MiB(m: Memory, root: Frame, page: Page)
    requires Descend(m, root, page, 2).Some?
    requires HugeStart(TableAt(m, Descend(m, root, page, 2).value)[P2Index(page)]).Some?
    ensures var start := HugeStart(TableAt(m, Descend(m, root, page, 2).value)[P2Index(page)]).value;
      TranslatePage(m, root, page) ==
        if start.number % ENTRY_COUNT == 0 then Ok(Some(Frame(start.number + page.number % ENTRY_COUNT)))
        else Err(MisalignedHugePage)
  {
    var p3 := Descend(m, root, page, 1).value;
    assert HugeStart(TableAt(m, p3)[P3Index(page)]).None?;
  }

  /**
   * `ActivePageTable::translate_page` of `mod.rs` as written: its P2 fallback
   * takes any present P2 entry as a 2 MiB page, without checking HUGE_PAGE.
   */
  function TranslatePageAsWritten(m: Memory, root: Frame, page: Page): Result<Option<Frame>>
  {
    match Walk(m, root, page)
    case Some(f) => Ok(Some(f))
    case None =>
      match Descend(m, root, page, 1)
      case None => Ok(None)
      case Some(p3) =>
        match HugeStart(TableAt(m, p3)[P3Index(page)])
        case Some(start) =>
          if start.number % (ENTRY_COUNT * ENTRY_COUNT) != 0 then Err(MisalignedHugePage)
          else Ok(Some(Frame(start.number + P2Index(page) * ENTRY_COUNT + P1Index(page))))
        case None =>
          match NextTable(m, p3, P3Index(page))
          case None => Ok(None)
          case Some(p2) =>
            match PointedFrame(TableAt(m, p2)[P2Index(page)])
            case None => Ok(None)
            case Some(start) =>
              if start.number % ENTRY_COUNT != 0 then Err(MisalignedHugePage)
              else Ok(Some(Frame(start.number + P1Index(page))))
  }

  /** Wherever the checked translation finds a frame (or a fault), the unchecked one agrees. */
  lemma AsWrittenAgreesWhenMapped(m: Memory, root: Frame, page: Page)
    requires TranslatePage(m, root, page) != Ok(None)
    ensures TranslatePageAsWritten(m, root, page) == TranslatePage(m, root, page)
  {
  }

  /** `ActivePageTable::translate` of `mod.rs`: `translate` over the unchecked page translation. */
  function TranslateAsWritten(m: Memory, root: Frame, va: u64): (r: Result<Option<u64>>)
    ensures !IsCanonical(va) ==> r == Err(NonCanonicalAddress)
    ensures r.Ok? && r.value.Some? ==> r.value.value % PAGE_SIZE == va % PAGE_SIZE
  {
    match PageContaining(va)
    case Err(e) => Err(e)
    case Ok(page) =>
      match TranslatePageAsWritten(m, root, page)
      case Err(e) => Err(e)
      case Ok(None) => Ok(None)
      case Ok(Some(f)) => AddressWithOffset(f, va % PAGE_SIZE); Ok(Some(StartAddress(f) + va % PAGE_SIZE))
  }

  /** Wherever the checked page translation finds a frame (or a fault), both address translations agree. */
  lemma AsWrittenTranslateAgrees(m: Memory, root: Frame, va: u64)
    requires IsCanonical(va) && TranslatePage(m, root, PageContaining(va).value) != Ok(None)
    ensures TranslateAsWritten(m, root, va) == Translate(m, root, va)
  {
    AsWrittenAgreesWhenMapped(m, root, PageContaining(va).value);
  }

  /**
   * The unchecked translation maps an unmapped page: a P2 entry linking to a
   * P1 table at frame 512 with an empty slot 0 makes page 0 translate to the
   * P1 table's own frame.
   */
  lemma AsWrittenTranslatesUnmappedPage()
    ensures var m := map[Frame(1) := EmptyTable()[0 := 0x2003],
                         Frame(2) := EmptyTable()[0 := 0x3003],
                         Frame(3) := EmptyTable()[0 := 0x20_0003]];
      TranslatePage(m, Frame(1), Page(0)) == Ok(None) &&
      TranslatePageAsWritten(m, Frame(1), Page(0)) == Ok(Some(Frame(512)))
  {
    var m := map[Frame(1) := EmptyTable()[0 := 0x2003],
                 Frame(2) := EmptyTable()[0 := 0x3003],
                 Frame(3) := EmptyTable()[0 := 0x20_0003]];
    var page := Page(0);
    assert Flags(0x2003) == 3 && Flags(0x3003) == 3 && Flags(0x20_0003) == 3;
    assert AddressBits(0x2003) == 0x2000 && AddressBits(0x3003) == 0x3000;
    assert AddressBits(0x20_0003) == 0x20_0000;
    assert Descend(m, Frame(1), page, 1) == Some(Frame(2));
    assert Descend(m, Frame(1), page, 2) == Some(Frame(3));
    assert Descend(m, Frame(1), page, 3) == Some(Frame(512));
    assert TableAt(m, Frame(512))[0] == 0;
  }

  /** The root's slot 511 points back at the root: the recursive mapping. */
  predicate RecursivelyMapped(m: Memory, root: Frame)
  {
    NextTable(m, root, 511) == Some(root)
  }

  /** The page of the level-1 recursive address of root entry `i4`: indices 511, 511, 511, `i4`. */
  lemma P3WindowPage(i4: TableIndex)
    ensures PageContaining(ChildAddress(P4_ADDR, i4)).Ok?
    ensures var page := PageContaining(ChildAddress(P4_ADDR, i4)).value;
      P4Index(page) == 511 && P3Index(page) == 511 && P2Index(page) == 511 && P1Index(page) == i4
  {
    RecursiveAddresses(i4, 0, 0);
    var n := 0xf_ffff_ffff_fe00 + i4;
    assert ChildAddress(P4_ADDR, i4) == PAGE_SIZE * n;
    assert n == TWO_27 * 0x1ff_ffff + (0x7ff_fe00 + i4);
    assert n == TWO_18 * 0x3_ffff_ffff + (0x3_fe00 + i4);
    assert n == TWO_9 * 0x7ff_ffff_ffff + i4;
  }

  /** The page of the level-2 recursive address: indices 511, 511, `i4`, `i3`. */
  lemma P2WindowPage(i4: TableIndex, i3: TableIndex)
    ensures PageContaining(ChildAddress(ChildAddress(P4_ADDR, i4), i3)).Ok?
    ensures var page := PageContaining(ChildAddress(ChildAddress(P4_ADDR, i4), i3)).value;
      P4Index(page) == 511 && P3Index(page) == 511 && P2Index(page) == i4 && P1Index(page) == i3
  {
    RecursiveAddresses(i4, i3, 0);
    var n := 0xf_ffff_fffc_0000 + i4 * 512 + i3;
    assert ChildAddress(ChildAddress(P4_ADDR, i4), i3) == PAGE_SIZE * n;
    assert n == TWO_27 * 0x1ff_ffff + (0x7fc_0000 + i4 * 512 + i3);
    assert n == TWO_18 * 0x3_ffff_ffff + (i4 * 512 + i3);
    assert n == TWO_9 * (0x7ff_ffff_fe00 + i4) + i3;
  }

  /** The page of the level-3 recursive address: indices 511, `i4`, `i3`, `i2`. */
  lemma P1WindowPage(i4: TableIndex, i3: TableIndex, i2: TableIndex)
    ensures PageContaining(ChildAddress(ChildAddress(ChildAddress(P4_ADDR, i4), i3), i2)).Ok?
    ensures var page := PageContaining(ChildAddress(ChildAddress(ChildAddress(P4_ADDR, i4), i3), i2)).value;
      P4Index(page) == 511 && P3Index(page) == i4 && P2Index(page) == i3 && P1Index(page) == i2
  {
    RecursiveAddresses(i4, i3, i2);
    var n := 0xf_ffff_f800_0000 + i4 * TWO_18 + i3 * 512 + i2;
    assert ChildAddress(ChildAddress(ChildAddress(P4_ADDR, i4), i3), i2) == PAGE_SIZE * n;
    assert n == TWO_27 * 0x1ff_ffff + (i4 * TWO_18 + i3 * 512 + i2);
    assert n == TWO_18 * (0x3_ffff_fe00 + i4) + (i3 * 512 + i2);
    assert n == TWO_9 * (0x7ff_fffc_0000 + i4 * 512 + i3) + i2;
  }

  /** The translation of a page-aligned address whose page's walk reaches a P1 table. */
  lemma TranslateAlignedLinked(m: Memory, root: Frame, va: u64)
    requires va % PAGE_SIZE == 0 && IsCanonical(va)
    requires Descend(m, root, PageContaining(va).value, 3).Some?
    ensures Translate(m, root, va) ==
      match Walk(m, root, PageContaining(va).value)
      case None => Ok(None)
      case Some(f) => Ok(Some(StartAddress(f)))
  {
    LinkedPathWalks(m, root, PageContaining(va).value);
  }

  /**
   * Through the recursive slot, the address `next_table_address` gives for
   * root entry `i4` translates to the start of the P3 table that entry links.
   */
  lemma RecursiveP3Address(m: Memory, root: Frame, i4: TableIndex)
    requires RecursivelyMapped(m, root)
    requires NextTable(m, root, i4).Some?
    ensures Translate(m, root, ChildAddress(P4_ADDR, i4)) == Ok(Some(StartAddress(NextTable(m, root, i4).value)))
  {
    var va := ChildAddress(P4_ADDR, i4);
    P3WindowPage(i4);
    var page := PageContaining(va).value;
    assert Descend(m, root, page, 3) == Some(root);
    NextTableBits(m, root, i4);
    TranslateAlignedLinked(m, root, va);
  }

  /** Likewise two levels down: the address of the P2 table entry `i3` of that P3 table links. */
  lemma RecursiveP2Address(m: Memory, root: Frame, i4: TableIndex, i3: TableIndex)
    requires RecursivelyMapped(m, root)
    requires NextTable(m, root, i4).Some?
    requires NextTable(m, NextTable(m, root, i4).value, i3).Some?
    ensures Translate(m, root, ChildAddress(ChildAddress(P4_ADDR, i4), i3))
         == Ok(Some(StartAddress(NextTable(m, NextTable(m, root, i4).value, i3).value)))
  {
    var p3 := NextTable(m, root, i4).value;
    var va := ChildAddress(ChildAddress(P4_ADDR, i4), i3);
    P2WindowPage(i4, i3);
    var page := PageContaining(va).value;
    assert Descend(m, root, page, 3) == Some(p3);
    NextTableBits(m, p3, i3);
    TranslateAlignedLinked(m, root, va);
  }

  /** And three levels down: the address of the P1 table entry `i2` of that P2 table links. */
  lemma RecursiveP1Address(m: Memory, root: Frame, i4: TableIndex, i3: TableIndex, i2: TableIndex)
    requires RecursivelyMapped(m, root)
    requires NextTable(m, root, i4).Some?
    requires NextTable(m, NextTable(m, root, i4).value, i3).Some?
    requires NextTable(m, NextTable(m, NextTable(m, root, i4).value, i3).value, i2).Some?
    ensures Translate(m, root, ChildAddress(ChildAddress(ChildAddress(P4_ADDR, i4), i3), i2))
         == Ok(Some(StartAddress(NextTable(m, NextTable(m, NextTable(m, root, i4).value, i3).value, i2).value)))
  {
    var p3 := NextTable(m, root, i4).value;
    var p2 := NextTable(m, p3, i3).value;
    var va := ChildAddress(ChildAddress(ChildAddress(P4_ADDR, i4), i3), i2);
    P1WindowPage(i4, i3, i2);
    var page := PageContaining(va).value;
    assert Descend(m, root, page, 3) == Some(p2);
    NextTableBits(m, p2, i2);
    TranslateAlignedLinked(m, root, va);
  }

  /** Clearing the page's P1 entry unmaps it, whatever the tables on its walk share. */
  lemma ClearedLeafUnmaps(m: Memory, root: Frame, page: Page)
    requires Descend(m, root, page, 3).Some?
    ensures var p1 := Descend(m, root, page, 3).value;
      TranslatePage(m[p1 := TableAt(m, p1)[P1Index(page) := 0]], root, page) == Ok(None)
  {
    var p1 := Descend(m, root, page, 3).value;
    var m' := m[p1 := TableAt(m, p1)[P1Index(page) := 0]];
    UnusedEntry(0);
    var p3 := Descend(m, root, page, 1).value;
    var p2 := Descend(m, root, page, 2).value;
    assert HugeStart(TableAt(m, p3)[P3Index(page)]).None?;
    assert HugeStart(TableAt(m, p2)[P2Index(page)]).None?;
  }

  /** The tables on the page's walk: the root and every table it reaches below it. */
  ghost function PathTables(m: Memory, root: Frame, page: Page): set<Frame>
  {
    {root}
    + (if Descend(m, root, page, 1).Some? then {Descend(m, root, page, 1).value} else {})
    + (if Descend(m, root, page, 2).Some? then {Descend(m, root, page, 2).value} else {})
    + (if Descend(m, root, page, 3).Some? then {Descend(m, root, page, 3).value} else {})
  }

  /** How many of the P3, P2 and P1 tables the page's walk does not reach. */
  function MissingTables(m: Memory, root: Frame, page: Page): nat
  {
    (if Descend(m, root, page, 1).None? then 1 else 0)
    + (if Descend(m, root, page, 2).None? then 1 else 0)
    + (if Descend(m, root, page, 3).None? then 1 else 0)
  }

  /**
   * The pool holds free frames: the table frame each one's link names is
   * neither on the page's walk nor named by another pool frame.
   */
  ghost predicate PoolFresh(s: seq<Option<Frame>>, m: Memory, root: Frame, page: Page)
  {
    (forall k | 0 <= k < |s| && s[k].Some? :: StoredFrame(s[k].value) !in PathTables(m, root, page))
    && (forall k, l | 0 <= k < |s| && 0 <= l < |s| && k != l && s[k].Some? && s[l].Some? ::
          StoredFrame(s[k].value) != StoredFrame(s[l].value))
  }

  /** The slots after `n` draws. */
  function TakenTimes(s: seq<Option<Frame>>, n: nat): seq<Option<Frame>>
    decreases n
  {
    if n == 0 then s else TakenTimes(Taken(s), n - 1)
  }

  /** A walk that reaches a level reached every level above it. */
  lemma DescendPrefix(m: Memory, root: Frame, page: Page, j: nat, k: nat)
    requires j <= k <= 3
    requires Descend(m, root, page, k).Some?
    ensures Descend(m, root, page, j).Some?
    decreases k
  {
    if j < k {
      DescendPrefix(m, root, page, j, k - 1);
    }
  }

  /** A walk that reaches the P1 table misses no level. */
  lemma CompleteWalk(m: Memory, root: Frame, page: Page)
    requires Descend(m, root, page, 3).Some?
    ensures MissingTables(m, root, page) == 0
  {
    DescendPrefix(m, root, page, 1, 3);
    DescendPrefix(m, root, page, 2, 3);
  }

  /** The walk down to `level` only reads the entries it passes: if none of them changed, it is the same walk. */
  lemma {:induction false} DescendFrame(m: Memory, m': Memory, root: Frame, page: Page, level: nat)
    requires level <= 3
    requires forall l | 0 <= l < level && Descend(m, root, page, l).Some? ::
      TableAt(m', Descend(m, root, page, l).value)[LevelIndex(page, l)]
        == TableAt(m, Descend(m, root, page, l).value)[LevelIndex(page, l)]
    ensures Descend(m', root, page, level) == Descend(m, root, page, level)
  {
    if level > 0 {
      DescendFrame(m, m', root, page, level - 1);
    }
  }

  /** A walk that misses a level misses every level below it. */
  lemma MissingBelow(m: Memory, root: Frame, page: Page, j: nat, k: nat)
    requires j <= k <= 3
    requires Descend(m, root, page, j).None?
    ensures Descend(m, root, page, k).None?
    decreases k
  {
    if j < k {
      MissingBelow(m, root, page, j, k - 1);
    }
  }

  /**
   * Changing neither the entries of table `c`, which is off the walk, nor any
   * entry but `(t, i)`, whose child is missing, keeps the walk down to `t`.
   */
  lemma LinkKeepsPrefix(m: Memory, m': Memory, root: Frame, page: Page, k: nat, c: Frame)
    requires k < 3 && Descend(m, root, page, k).Some?
    requires NextTable(m, Descend(m, root, page, k).value, LevelIndex(page, k)).None?
    requires c !in PathTables(m, root, page)
    requires forall g, j: TableIndex | g != c && (g != Descend(m, root, page, k).value || j != LevelIndex(page, k)) ::
      TableAt(m', g)[j] == TableAt(m, g)[j]
    ensures forall l | 0 <= l <= k :: Descend(m', root, page, l) == Descend(m, root, page, l)
  {
    forall l | 0 <= l <= k
      ensures Descend(m', root, page, l) == Descend(m, root, page, l)
    {
      forall l' | 0 <= l' < l && Descend(m, root, page, l').Some?
        ensures TableAt(m', Descend(m, root, page, l').value)[LevelIndex(page, l')]
             == TableAt(m, Descend(m, root, page, l').value)[LevelIndex(page, l')]
      {
        DescendPrefix(m, root, page, l' + 1, k);
        assert Descend(m, root, page, l').value in PathTables(m, root, page);
      }
      DescendFrame(m, m', root, page, l);
    }
  }

  /** A walk extended by one new empty table at level `k + 1` gains that table and misses one level fewer. */
  lemma LinkExtends(m: Memory, m': Memory, root: Frame, page: Page, k: nat, c: Frame)
    requires k < 3 && Descend(m, root, page, k).Some?
    requires forall l | 0 <= l <= k :: Descend(m', root, page, l) == Descend(m, root, page, l)
    requires Descend(m, root, page, k + 1).None?
    requires Descend(m', root, page, k + 1) == Some(c)
    requires TableAt(m', c) == EmptyTable()
    ensures PathTables(m', root, page) == PathTables(m, root, page) + {c}
    ensures MissingTables(m', root, page) + 1 == MissingTables(m, root, page)
  {
    MissingBelow(m, root, page, k + 1, 3);
    if k + 2 <= 3 {
      UnusedEntry(0);
      assert Descend(m', root, page, k + 2) == None;
      MissingBelow(m', root, page, k + 2, 3);
    }
  }

  /** A table made by `next_table_create` for a pool frame: the link and the empty child. */
  lemma CreateStepNew(m: Memory, root: Frame, page: Page, k: nat,
                      s: seq<Option<Frame>>, m': Memory, s': seq<Option<Frame>>, r: Result<Frame>)
    requires k < 3 && Descend(m, root, page, k).Some?
    requires NextTable(m, Descend(m, root, page, k).value, LevelIndex(page, k)).None?
    requires PoolFresh(s, m, root, page)
    requires CreatesChild(m, Descend(m, root, page, k).value, LevelIndex(page, k), s, m', s', r)
    requires r.Ok?
    ensures Descend(m', root, page, k + 1) == Some(r.value)
    ensures forall l | 0 <= l <= k :: Descend(m', root, page, l) == Descend(m, root, page, l)
    ensures s' == Taken(s) && Drawn(s).Some? && r.value == StoredFrame(Drawn(s).value)
    ensures r.value !in PathTables(m, root, page)
    ensures TableAt(m', r.value) == EmptyTable()
    ensures forall g, j: TableIndex | g != r.value && (g != Descend(m, root, page, k).value || j != LevelIndex(page, k)) ::
      TableAt(m', g)[j] == TableAt(m, g)[j]
  {
    var t := Descend(m, root, page, k).value;
    var i := LevelIndex(page, k);
    var child := Drawn(s).value;
    assert s[FirstOccupied(s)] == Some(child);
    assert t in PathTables(m, root, page);
    LinkedChild(m, t, i, child);
    LinkKeepsPrefix(m, m', root, page, k, StoredFrame(child));
  }

  /** The pool after a draw that made table `c` is fresh for the walk that now includes `c`. */
  lemma FreshAfterDraw(s: seq<Option<Frame>>, m: Memory, m': Memory, root: Frame, page: Page, c: Frame)
    requires PoolFresh(s, m, root, page)
    requires Drawn(s).Some? && c == StoredFrame(Drawn(s).value)
    requires PathTables(m', root, page) == PathTables(m, root, page) + {c}
    ensures PoolFresh(Taken(s), m', root, page)
  {
    var q := FirstOccupied(s);
    forall x | 0 <= x < |Taken(s)| && Taken(s)[x].Some?
      ensures StoredFrame(Taken(s)[x].value) !in PathTables(m', root, page)
    {
      assert Taken(s)[x] == s[x] && x != q;
    }
  }

  /**
   * One `next_table_create` along the page's walk, at level `k`, with a fresh
   * pool: the walk now reaches level `k + 1` at the returned table, nothing
   * above it changed, and when a table was made, it is the drawn frame's,
   * new to the walk and empty, and only the parent entry and that table differ.
   */
  lemma CreateStep(m: Memory, root: Frame, page: Page, k: nat,
                   s: seq<Option<Frame>>, m': Memory, s': seq<Option<Frame>>, r: Result<Frame>)
    requires k < 3 && Descend(m, root, page, k).Some?
    requires PoolFresh(s, m, root, page)
    requires CreatesChild(m, Descend(m, root, page, k).value, LevelIndex(page, k), s, m', s', r)
    requires r.Ok?
    ensures Descend(m', root, page, k + 1) == Some(r.value)
    ensures forall l | 0 <= l <= k :: Descend(m', root, page, l) == Descend(m, root, page, l)
    ensures PoolFresh(s', m', root, page)
    ensures Descend(m, root, page, k + 1).Some? ==> m' == m && s' == s
    ensures k < 2 ==> Descend(m', root, page, 3).None? == Descend(m, root, page, 3).None?
    ensures Descend(m, root, page, k + 1).None? ==>
      s' == Taken(s)
      && r.value !in PathTables(m, root, page)
      && PathTables(m', root, page) == PathTables(m, root, page) + {r.value}
      && MissingTables(m', root, page) + 1 == MissingTables(m, root, page)
      && TableAt(m', r.value) == EmptyTable()
      && (forall g, j: TableIndex | g != r.value && (g != Descend(m, root, page, k).value || j != LevelIndex(page, k)) ::
            TableAt(m', g)[j] == TableAt(m, g)[j])
  {
    if Descend(m, root, page, k + 1).None? {
      CreateStepNew(m, root, page, k, s, m', s', r);
      LinkExtends(m, m', root, page, k, r.value);
      FreshAfterDraw(s, m, m', root, page, r.value);
      MissingBelow(m, root, page, k + 1, 3);
    }
  }

  /** With a fresh pool, `next_table_create` fails only on a huge entry, an empty pool or a frame `set` refuses. */
  lemma CreateError(m: Memory, root: Frame, page: Page, k: nat,
                    s: seq<Option<Frame>>, m': Memory, s': seq<Option<Frame>>, r: Result<Frame>)
    requires k < 3 && Descend(m, root, page, k).Some?
    requires PoolFresh(s, m, root, page)
    requires CreatesChild(m, Descend(m, root, page, k).value, LevelIndex(page, k), s, m', s', r)
    requires r.Err?
    ensures r.error == HugePagesUnsupported || r.error == NoFramesAvailable || r.error == InvalidFrameAddress
    ensures Descend(m, root, page, 3).None?
  {
    var t := Descend(m, root, page, k).value;
    MissingBelow(m, root, page, k + 1, 3);
    if Drawn(s).Some? {
      assert s[FirstOccupied(s)] == Drawn(s);
      assert t in PathTables(m, root, page);
    }
  }

  /** Drawing once more after `n` draws. */
  lemma {:induction false} TakenTimesStep(s: seq<Option<Frame>>, n: nat)
    ensures TakenTimes(s, n + 1) == Taken(TakenTimes(s, n))
    decreases n
  {
    if n > 0 {
      TakenTimesStep(Taken(s), n - 1);
    }
  }

  /** Writing the page's unused P1 entry keeps its walk and maps the page to the frame written. */
  lemma LeafWrite(m: Memory, root: Frame, page: Page, frame: Frame, flags: EntryFlags)
    requires Descend(m, root, page, 3).Some?
    requires IsUnused(Leaf(m, root, page).value)
    requires EntryFor(frame, WithPresent(flags)).Ok?
    ensures var p1 := Descend(m, root, page, 3).value;
      var m' := m[p1 := TableAt(m, p1)[P1Index(page) := EntryFor(frame, WithPresent(flags)).value]];
      (forall l | 0 <= l <= 3 :: Descend(m', root, page, l) == Descend(m, root, page, l))
      && TranslatePage(m', root, page) == Ok(Some(StoredFrame(frame)))
  {
    var p1 := Descend(m, root, page, 3).value;
    var m' := m[p1 := TableAt(m, p1)[P1Index(page) := EntryFor(frame, WithPresent(flags)).value]];
    UnusedEntry(0);
    forall l | 0 <= l <= 3
      ensures Descend(m', root, page, l) == Descend(m, root, page, l)
    {
      forall l' | 0 <= l' < l && Descend(m, root, page, l').Some?
        ensures TableAt(m', Descend(m, root, page, l').value)[LevelIndex(page, l')]
             == TableAt(m, Descend(m, root, page, l').value)[LevelIndex(page, l')]
      {
        DescendPrefix(m, root, page, l' + 1, 3);
      }
      DescendFrame(m, m', root, page, l);
    }
    EntryRoundTrip(frame, WithPresent(flags));
    LinkedPathWalks(m', root, page);
  }

  /** Entry `j` of table `g` is one the page's walk reads at a level below `k` (all of them for `k == 4`). */
  ghost predicate WalkReads(m: Memory, root: Frame, page: Page, k: nat, g: Frame, j: TableIndex)
    requires k <= 4
  {
    exists l | 0 <= l < k && l <= 3 :: Descend(m, root, page, l) == Some(g) && j == LevelIndex(page, l)
  }

  /**
   * From `m0` to `m` only entries the walk in `m` reads at a level below `k`
   * and entries of tables new to the walk changed.
   */
  ghost predicate Untouched(m0: Memory, m: Memory, root: Frame, page: Page, k: nat)
    requires k <= 4
  {
    forall g, j: TableIndex |
      !WalkReads(m, root, page, k, g, j) && (g !in PathTables(m, root, page) || g in PathTables(m0, root, page)) ::
      TableAt(m, g)[j] == TableAt(m0, g)[j]
  }

  /** One more step of the walk keeps `Untouched`, one level further down. */
  lemma AdvanceUntouched(m0: Memory, root: Frame, page: Page, k: nat, m: Memory, m': Memory, c: Frame)
    requires k < 3 && Descend(m, root, page, k).Some?
    requires forall l | 0 <= l <= k :: Descend(m', root, page, l) == Descend(m, root, page, l)
    requires Descend(m', root, page, k + 1) == Some(c)
    requires PathTables(m0, root, page) <= PathTables(m, root, page) <= PathTables(m', root, page)
    requires m' == m || (c !in PathTables(m, root, page) &&
      forall g, j: TableIndex | g != c && (g != Descend(m, root, page, k).value || j != LevelIndex(page, k)) ::
        TableAt(m', g)[j] == TableAt(m, g)[j])
    requires Untouched(m0, m, root, page, k)
    ensures Untouched(m0, m', root, page, k + 1)
  {
    forall g, j: TableIndex |
      !WalkReads(m', root, page, k + 1, g, j) && (g !in PathTables(m', root, page) || g in PathTables(m0, root, page))
      ensures TableAt(m', g)[j] == TableAt(m0, g)[j]
    {
      assert Descend(m', root, page, k) == Descend(m, root, page, k);
    }
  }

  /**
   * The page's walk stops at level `l` on a huge entry: the table at `l` is
   * there, its entry leads to no table, and the entry's HUGE_PAGE bit is set.
   */
  predicate BreaksOnHuge(m: Memory, root: Frame, page: Page, l: nat)
    requires l < 3
  {
    Descend(m, root, page, l).Some? && Descend(m, root, page, l + 1).None?
    && IsHuge(Flags(TableAt(m, Descend(m, root, page, l).value)[LevelIndex(page, l)]))
  }

  /** A walk that stops short of the P1 table, but not on a huge entry, translates to nothing. */
  lemma UnbrokenWalkUnmapped(m: Memory, root: Frame, page: Page)
    requires Descend(m, root, page, 3).None?
    requires forall l | 0 <= l < 3 :: !BreaksOnHuge(m, root, page, l)
    ensures TranslatePage(m, root, page) == Ok(None)
  {
    assert !BreaksOnHuge(m, root, page, 1) && !BreaksOnHuge(m, root, page, 2);
    if Descend(m, root, page, 1).Some? {
      var p3 := Descend(m, root, page, 1).value;
      assert HugeStart(TableAt(m, p3)[P3Index(page)]).None?;
      if Descend(m, root, page, 2).Some? {
        var p2 := Descend(m, root, page, 2).value;
        assert HugeStart(TableAt(m, p2)[P2Index(page)]).None?;
      }
    }
  }

  /** A walk that reaches the P1 table at an unused entry translates to nothing. */
  lemma UnusedLeafUnmapped(m: Memory, root: Frame, page: Page)
    requires Descend(m, root, page, 3).Some? && IsUnused(Leaf(m, root, page).value)
    ensures TranslatePage(m, root, page) == Ok(None)
  {
    LinkedPathWalks(m, root, page);
    UnusedEntry(Leaf(m, root, page).value);
  }

  /**
   * Memory `m` and pool `s` after the first `k` `next_table_create` calls of
   * `map_to`, starting from `m0` and `s0`: the walk reaches level `k`, the pool
   * is still fresh and down by the tables made, and only the entries the walk
   * reads above level `k` and entries of new tables changed. When the walk was
   * complete, nothing changed; when it was not, the P1 table is new.
   */
  ghost predicate Reached(m0: Memory, s0: seq<Option<Frame>>, root: Frame, page: Page, k: nat,
                          m: Memory, s: seq<Option<Frame>>)
  {
    k <= 3 && Descend(m, root, page, k).Some?
    && PoolFresh(s, m, root, page)
    && MissingTables(m, root, page) <= MissingTables(m0, root, page)
    && s == TakenTimes(s0, MissingTables(m0, root, page) - MissingTables(m, root, page))
    && (Descend(m0, root, page, k).Some? ==> m == m0 && s == s0)
    && (forall l | 0 <= l < k :: !BreaksOnHuge(m0, root, page, l))
    && (Descend(m0, root, page, 3).None? && k < 3 ==> Descend(m, root, page, 3).None?)
    && (Descend(m0, root, page, 3).None? && k == 3 ==> IsUnused(Leaf(m, root, page).value))
    && PathTables(m0, root, page) <= PathTables(m, root, page)
    && Untouched(m0, m, root, page, k)
  }

  lemma ReachedStart(m0: Memory, s0: seq<Option<Frame>>, root: Frame, page: Page)
    requires PoolFresh(s0, m0, root, page)
    ensures Reached(m0, s0, root, page, 0, m0, s0)
  {
  }

  /** The next `next_table_create` of `map_to`, when it succeeds, reaches one level further. */
  lemma Advance(m0: Memory, s0: seq<Option<Frame>>, root: Frame, page: Page, k: nat,
                m: Memory, s: seq<Option<Frame>>, m': Memory, s': seq<Option<Frame>>, r: Result<Frame>)
    requires k < 3 && Reached(m0, s0, root, page, k, m, s)
    requires CreatesChild(m, Descend(m, root, page, k).value, LevelIndex(page, k), s, m', s', r)
    requires r.Ok?
    ensures Reached(m0, s0, root, page, k + 1, m', s')
    ensures Descend(m', root, page, k + 1) == Some(r.value)
  {
    CreateStep(m, root, page, k, s, m', s', r);
    AdvancePool(m0, s0, root, page, k, m, s, m', s');
    AdvanceUntouched(m0, root, page, k, m, m', r.value);
    if Descend(m0, root, page, k + 1).Some? {
      DescendPrefix(m0, root, page, k, k + 1);
    }
    assert !BreaksOnHuge(m0, root, page, k);
    if k == 2 {
      UnusedEntry(0);
    }
  }

  /** The pool part of `Advance`: one more draw exactly when a table was made. */
  lemma AdvancePool(m0: Memory, s0: seq<Option<Frame>>, root: Frame, page: Page, k: nat,
                    m: Memory, s: seq<Option<Frame>>, m': Memory, s': seq<Option<Frame>>)
    requires k < 3
    requires MissingTables(m, root, page) <= MissingTables(m0, root, page)
    requires s == TakenTimes(s0, MissingTables(m0, root, page) - MissingTables(m, root, page))
    requires Descend(m, root, page, k + 1).Some? ==> m' == m && s' == s
    requires Descend(m, root, page, k + 1).None? ==>
      s' == Taken(s) && MissingTables(m', root, page) + 1 == MissingTables(m, root, page)
    ensures MissingTables(m', root, page) <= MissingTables(m0, root, page)
    ensures s' == TakenTimes(s0, MissingTables(m0, root, page) - MissingTables(m', root, page))
  {
    var n := MissingTables(m0, root, page) - MissingTables(m, root, page);
    if Descend(m, root, page, k + 1).None? {
      TakenTimesStep(s0, n);
      assert MissingTables(m0, root, page) - MissingTables(m', root, page) == n + 1;
    }
  }

  /** What the walk of `map_to` has drawn from the pool once all three tables are there. */
  lemma ReachedPool(m0: Memory, s0: seq<Option<Frame>>, root: Frame, page: Page, m: Memory, s: seq<Option<Frame>>)
    requires Reached(m0, s0, root, page, 3, m, s)
    ensures s == TakenTimes(s0, MissingTables(m0, root, page))
    ensures Descend(m0, root, page, 3).Some? ==> m == m0 && s == s0
  {
    CompleteWalk(m, root, page);
    assert MissingTables(m0, root, page) - MissingTables(m, root, page) == MissingTables(m0, root, page);
  }

  /** What the walk of `map_to` has written once all three tables are there. */
  lemma ReachedTables(m0: Memory, s0: seq<Option<Frame>>, root: Frame, page: Page, m: Memory, s: seq<Option<Frame>>)
    requires Reached(m0, s0, root, page, 3, m, s)
    ensures Descend(m0, root, page, 3).None? ==> IsUnused(Leaf(m, root, page).value)
    ensures Descend(m0, root, page, 3).None? ==> TranslatePage(m0, root, page) == Ok(None)
    ensures PathTables(m0, root, page) <= PathTables(m, root, page)
    ensures Untouched(m0, m, root, page, 3)
  {
    if Descend(m0, root, page, 3).None? {
      UnbrokenWalkUnmapped(m0, root, page);
    }
  }

  /**
   * Writing the P1 entry of a complete walk maps the page, keeps the walk's
   * tables, and keeps `Untouched`, now over the whole walk.
   */
  lemma WriteUntouched(m0: Memory, m: Memory, root: Frame, page: Page, frame: Frame, flags: EntryFlags)
    requires Descend(m, root, page, 3).Some?
    requires IsUnused(Leaf(m, root, page).value)
    requires EntryFor(frame, WithPresent(flags)).Ok?
    requires Untouched(m0, m, root, page, 3)
    ensures var p1 := Descend(m, root, page, 3).value;
      var m' := m[p1 := TableAt(m, p1)[P1Index(page) := EntryFor(frame, WithPresent(flags)).value]];
      TranslatePage(m', root, page) == Ok(Some(StoredFrame(frame)))
      && Leaf(m', root, page) == Some(EntryFor(frame, WithPresent(flags)).value)
      && PathTables(m', root, page) == PathTables(m, root, page)
      && Untouched(m0, m', root, page, 4)
  {
    var p1 := Descend(m, root, page, 3).value;
    var m' := m[p1 := TableAt(m, p1)[P1Index(page) := EntryFor(frame, WithPresent(flags)).value]];
    LeafWrite(m, root, page, frame, flags);
    assert Descend(m', root, page, 1) == Descend(m, root, page, 1);
    assert Descend(m', root, page, 2) == Descend(m, root, page, 2);
    assert Descend(m', root, page, 3) == Descend(m, root, page, 3);
    forall g, j: TableIndex |
      !WalkReads(m', root, page, 4, g, j) && (g !in PathTables(m', root, page) || g in PathTables(m0, root, page))
      ensures TableAt(m', g)[j] == TableAt(m0, g)[j]
    {
      assert g != p1 || j != P1Index(page);
      assert TableAt(m', g)[j] == TableAt(m, g)[j];
    }
  }

  /** Drawing a frame keeps the pool fresh. */
  lemma FreshAfterTake(s: seq<Option<Frame>>, m: Memory, root: Frame, page: Page)
    requires PoolFresh(s, m, root, page)
    ensures PoolFresh(Taken(s), m, root, page)
  {
    var q := FirstOccupied(s);
    forall x | 0 <= x < |Taken(s)| && Taken(s)[x].Some?
      ensures Taken(s)[x] == s[x]
    {
    }
  }

  /** Pages with the same four indices have the same walk and the same translation. */
  lemma SameIndicesSameWalk(m: Memory, root: Frame, p: Page, q: Page)
    requires P4Index(p) == P4Index(q) && P3Index(p) == P3Index(q)
    requires P2Index(p) == P2Index(q) && P1Index(p) == P1Index(q)
    ensures forall l | 0 <= l <= 3 :: Descend(m, root, p, l) == Descend(m, root, q, l)
    ensures Leaf(m, root, p) == Leaf(m, root, q)
    ensures TranslatePage(m, root, p) == TranslatePage(m, root, q)
  {
  }

  /**
   * When the page's start address translates and the walk reaches a P1
   * table, the P1 entry names a frame: the `unwrap` in `unmap` holds.
   */
  lemma TranslatedLeafHasFrame(m: Memory, root: Frame, page: Page)
    requires Translate(m, root, PageStart(page)).Ok? && Translate(m, root, PageStart(page)).value.Some?
    requires Descend(m, root, page, 3).Some?
    ensures Walk(m, root, page).Some?
  {
    StartAddressKeepsIndices(page);
    var q := PageContaining(PageStart(page)).value;
    SameIndicesSameWalk(m, root, page, q);
    LinkedPathWalks(m, root, q);
  }

  /** The address `test_paging` maps: 42 * 512 * 512 * 4096, the first page under root entry 0, P3 entry 42. */
  const TEST_ADDRESS: u64 := 42 * 512 * 512 * 4096

  lemma TestAddressPage()
    ensures PageContaining(TEST_ADDRESS) == Ok(Page(42 * 512 * 512))
    ensures var p := Page(42 * 512 * 512);
      P4Index(p) == 0 && P3Index(p) == 42 && P2Index(p) == 0 && P1Index(p) == 0
  {
  }

  /**
   * After `map_to` wrote the page's P1 entry, the page's start address
   * translates to the frame, so `unmap` clears that entry and gives that
   * frame to the pool.
   */
  lemma MappedPageUnmaps(m: Memory, root: Frame, page: Page, frame: Frame, flags: EntryFlags)
    requires page.number < WORD / PAGE_SIZE && IsCanonical(PageStart(page))
    requires Descend(m, root, page, 3).Some?
    requires EntryFor(frame, WithPresent(flags)).Ok?
    requires Leaf(m, root, page) == Some(EntryFor(frame, WithPresent(flags)).value)
    ensures Walk(m, root, page) == Some(StoredFrame(frame))
    ensures Translate(m, root, PageStart(page)) == Ok(Some(StartAddress(StoredFrame(frame))))
  {
    EntryRoundTrip(frame, WithPresent(flags));
    LinkedPathWalks(m, root, page);
    PageStartRoundTrip(page);
    assert PageStart(page) % PAGE_SIZE == 0 by {
      assert PageStart(page) == PAGE_SIZE * page.number;
    }
    TranslateMapped(m, root, PageStart(page), StoredFrame(frame));
  }

  /**
   * The active table hierarchy (`Mapper`, and `ActivePageTable` in `mod.rs`):
   * the root (P4) table's frame and the physical memory holding the tables.
   */
  class ActivePageTable {
    const root: Frame
    const memory: PhysicalMemory

    /** `Mapper::new` / `ActivePageTable::new`: the hierarchy whose root is `root`. */
    constructor (root: Frame, memory: PhysicalMemory)
      ensures this.root == root && this.memory == memory
    {
      this.root := root;
      this.memory := memory;
    }

    /**
     * The three chained `next_table_create` calls of `map_to`: the page's P1
     * table, with the missing P3, P2 and P1 tables made from the pool.
     */
    method CreateWalk(page: Page, pool: TinyAllocator) returns (r: Result<Frame>)
      requires pool.Valid()
      requires PoolFresh(pool.slots[..], memory.tables, root, page)
      modifies memory, pool.slots
      ensures r.Ok? ==> Descend(memory.tables, root, page, 3) == Some(r.value)
      ensures r.Ok? ==> pool.slots[..] == TakenTimes(old(pool.slots[..]), MissingTables(old(memory.tables), root, page))
      ensures r.Ok? && Descend(old(memory.tables), root, page, 3).Some? ==>
        memory.tables == old(memory.tables) && pool.slots[..] == old(pool.slots[..])
      ensures r.Ok? && Descend(old(memory.tables), root, page, 3).None? ==>
        IsUnused(Leaf(memory.tables, root, page).value) && TranslatePage(old(memory.tables), root, page) == Ok(None)
      ensures r.Ok? ==> PathTables(old(memory.tables), root, page) <= PathTables(memory.tables, root, page)
      ensures r.Ok? ==> Untouched(old(memory.tables), memory.tables, root, page, 3)
      ensures r.Err? ==>
        (r.error == HugePagesUnsupported || r.error == NoFramesAvailable || r.error == InvalidFrameAddress)
        && Descend(old(memory.tables), root, page, 3).None?
    {
      ghost var m0, s0 := memory.tables, pool.slots[..];
      ReachedStart(m0, s0, root, page);
      var p3 := memory.NextTableCreate(root, P4Index(page), pool);
      if p3.Err? {
        CreateError(m0, root, page, 0, s0, memory.tables, pool.slots[..], p3);
        return Err(p3.error);
      }
      Advance(m0, s0, root, page, 0, m0, s0, memory.tables, pool.slots[..], p3);
      ghost var m1, s1 := memory.tables, pool.slots[..];

      var p2 := memory.NextTableCreate(p3.value, P3Index(page), pool);
      if p2.Err? {
        CreateError(m1, root, page, 1, s1, memory.tables, pool.slots[..], p2);
        return Err(p2.error);
      }
      Advance(m0, s0, root, page, 1, m1, s1, memory.tables, pool.slots[..], p2);
      ghost var m2, s2 := memory.tables, pool.slots[..];

      var p1 := memory.NextTableCreate(p2.value, P2Index(page), pool);
      if p1.Err? {
        CreateError(m2, root, page, 2, s2, memory.tables, pool.slots[..], p1);
        return Err(p1.error);
      }
      Advance(m0, s0, root, page, 2, m2, s2, memory.tables, pool.slots[..], p1);
      ReachedPool(m0, s0, root, page, memory.tables, pool.slots[..]);
      ReachedTables(m0, s0, root, page, memory.tables, pool.slots[..]);
      return p1;
    }

    /**
     * `map_to`: create the missing P3, P2 and P1 tables of the page's walk
     * from the pool, then write the P1 entry for `frame` with `flags | PRESENT`;
     * fatal when that entry is already in use.
     */
    method MapTo(page: Page, frame: Frame, flags: EntryFlags, pool: TinyAllocator) returns (o: Outcome)
      requires pool.Valid()
      requires PoolFresh(pool.slots[..], memory.tables, root, page)
      modifies memory, pool.slots
      ensures o.Done? ==> TranslatePage(old(memory.tables), root, page) == Ok(None)
      ensures o.Done? ==> TranslatePage(memory.tables, root, page) == Ok(Some(StoredFrame(frame)))
      ensures o.Done? ==>
        EntryFor(frame, WithPresent(flags)).Ok?
        && Leaf(memory.tables, root, page) == Some(EntryFor(frame, WithPresent(flags)).value)
      ensures o.Done? ==> pool.slots[..] == TakenTimes(old(pool.slots[..]), MissingTables(old(memory.tables), root, page))
      ensures o.Done? ==> Untouched(old(memory.tables), memory.tables, root, page, 4)
      ensures o.Done? ==> PathTables(old(memory.tables), root, page) <= PathTables(memory.tables, root, page)
      ensures (Descend(old(memory.tables), root, page, 3).Some? && IsUnused(Leaf(old(memory.tables), root, page).value)
               && EntryFor(frame, WithPresent(flags)).Ok?) ==> o.Done?
      ensures o == Fail(AlreadyMapped) <==>
        Descend(old(memory.tables), root, page, 3).Some? && !IsUnused(Leaf(old(memory.tables), root, page).value)
      ensures o == Fail(AlreadyMapped) ==> memory.tables == old(memory.tables) && pool.slots[..] == old(pool.slots[..])
      ensures o.Fail? ==>
        o.error in {HugePagesUnsupported, NoFramesAvailable, InvalidFrameAddress, AlreadyMapped}
    {
      ghost var m0, s0 := memory.tables, pool.slots[..];
      var p1 := CreateWalk(page, pool);
      if p1.Err? {
        return Fail(p1.error);
      }
      ghost var m3, s3 := memory.tables, pool.slots[..];
      if !IsUnused(TableAt(memory.tables, p1.value)[P1Index(page)]) {
        return Fail(AlreadyMapped);
      }
      o := memory.SetEntry(p1.value, P1Index(page), frame, WithPresent(flags));
      assert pool.slots[..] == s3;
      if o.Done? {
        WriteUntouched(m0, m3, root, page, frame, flags);
        if Descend(m0, root, page, 3).Some? {
          UnusedLeafUnmapped(m0, root, page);
        }
      }
    }

    /** `map`: map the page to a frame drawn from the pool; fatal when the pool is empty. */
    method Map(page: Page, flags: EntryFlags, pool: TinyAllocator) returns (o: Outcome)
      requires pool.Valid()
      requires PoolFresh(pool.slots[..], memory.tables, root, page)
      modifies memory, pool.slots
      ensures Drawn(old(pool.slots[..])).None? ==>
        o == Fail(NoFramesAvailable) && memory.tables == old(memory.tables) && pool.slots[..] == old(pool.slots[..])
      ensures o.Done? ==>
        Drawn(old(pool.slots[..])).Some?
        && TranslatePage(old(memory.tables), root, page) == Ok(None)
        && TranslatePage(memory.tables, root, page) == Ok(Some(StoredFrame(Drawn(old(pool.slots[..])).value)))
        && pool.slots[..] == TakenTimes(old(pool.slots[..]), MissingTables(old(memory.tables), root, page) + 1)
        && Untouched(old(memory.tables), memory.tables, root, page, 4)
      ensures o == Fail(AlreadyMapped) <==>
        Drawn(old(pool.slots[..])).Some?
        && Descend(old(memory.tables), root, page, 3).Some? && !IsUnused(Leaf(old(memory.tables), root, page).value)
    {
      FreshAfterTake(pool.slots[..], memory.tables, root, page);
      var frame := pool.AllocateFrame();
      if frame.None? {
        return Fail(NoFramesAvailable);
      }
      ghost var s1 := pool.slots[..];
      o := MapTo(page, frame.value, flags, pool);
    }

    /** `identity_map`: map the page at the frame's start address to the frame itself. */
    method IdentityMap(frame: Frame, flags: EntryFlags, pool: TinyAllocator) returns (o: Outcome)
      requires pool.Valid()
      requires IsCanonical(StartAddress(frame)) ==>
        PoolFresh(pool.slots[..], memory.tables, root, PageContaining(StartAddress(frame)).value)
      modifies memory, pool.slots
      ensures !IsCanonical(StartAddress(frame)) ==>
        o == Fail(NonCanonicalAddress) && memory.tables == old(memory.tables) && pool.slots[..] == old(pool.slots[..])
      ensures o.Done? ==> Translate(old(memory.tables), root, StartAddress(frame)) == Ok(None)
      ensures o.Done? && frame.number < FRAME_LIMIT ==>
        Translate(memory.tables, root, StartAddress(frame)) == Ok(Some(StartAddress(frame)))
      ensures o.Fail? ==>
        o.error in {NonCanonicalAddress, HugePagesUnsupported, NoFramesAvailable, InvalidFrameAddress, AlreadyMapped}
    {
      var page := PageContaining(StartAddress(frame));
      if page.Err? {
        return Fail(page.error);
      }
      o := MapTo(page.value, frame, flags, pool);
      if o.Done? && frame.number < FRAME_LIMIT {
        StartAddressRoundTrip(frame);
        TranslateMapped(memory.tables, root, StartAddress(frame), frame);
      }
    }

    /**
     * `unmap`: clear the page's P1 entry and give its frame back to the pool;
     * fatal when the page's start address does not translate, when the walk
     * ends in a huge page, or when the pool is full. Emptied tables stay.
     */
    method Unmap(page: Page, pool: TinyAllocator) returns (o: Outcome)
      requires pool.Valid()
      modifies memory, pool.slots
      ensures Translate(old(memory.tables), root, PageStart(page)).Err? ==>
        o == Fail(Translate(old(memory.tables), root, PageStart(page)).error)
        && memory.tables == old(memory.tables) && pool.slots[..] == old(pool.slots[..])
      ensures Translate(old(memory.tables), root, PageStart(page)) == Ok(None) ==>
        o == Fail(NotMapped) && memory.tables == old(memory.tables) && pool.slots[..] == old(pool.slots[..])
      ensures Translate(old(memory.tables), root, PageStart(page)).Ok? && Translate(old(memory.tables), root, PageStart(page)).value.Some?
              && Descend(old(memory.tables), root, page, 3).None? ==>
        o == Fail(HugePagesUnsupported) && memory.tables == old(memory.tables) && pool.slots[..] == old(pool.slots[..])
      ensures Translate(old(memory.tables), root, PageStart(page)).Ok? && Translate(old(memory.tables), root, PageStart(page)).value.Some?
              && Descend(old(memory.tables), root, page, 3).Some? ==>
        var p1 := Descend(old(memory.tables), root, page, 3).value;
        Walk(old(memory.tables), root, page).Some?
        && memory.tables == old(memory.tables)[p1 := TableAt(old(memory.tables), p1)[P1Index(page) := 0]]
        && TranslatePage(memory.tables, root, page) == Ok(None)
        && pool.slots[..] == Given(old(pool.slots[..]), Walk(old(memory.tables), root, page).value)
        && o == (if FirstEmpty(old(pool.slots[..])) < 3 then Done else Fail(PoolFull))
    {
      var mapped := Translate(memory.tables, root, PageStart(page));
      if mapped.Err? {
        return Fail(mapped.error);
      }
      if mapped.value.None? {
        return Fail(NotMapped);
      }
      var p1 := Descend(memory.tables, root, page, 3);
      if p1.None? {
        return Fail(HugePagesUnsupported);
      }
      TranslatedLeafHasFrame(memory.tables, root, page);
      var frame := PointedFrame(TableAt(memory.tables, p1.value)[P1Index(page)]).value;
      ClearedLeafUnmaps(memory.tables, root, page);
      memory.SetUnused(p1.value, P1Index(page));
      o := pool.DeallocateFrame(frame);
    }
  }

  /**
   * `test_paging`: draw a frame, translate `TEST_ADDRESS`, map its page to the
   * frame with no flags, translate again, and draw one more frame. The three
   * values it prints are returned: the translations before and after, both by
   * `mod.rs`'s own `translate`, and the next frame. A fatal step ends the test.
   */
  method TestPaging(table: ActivePageTable, pool: TinyAllocator)
    returns (o: Outcome, before: Result<Option<u64>>, after: Result<Option<u64>>, next: Option<Frame>)
    requires pool.Valid()
    requires PoolFresh(pool.slots[..], table.memory.tables, table.root, Page(42 * 512 * 512))
    modifies table.memory, pool.slots
    ensures Drawn(old(pool.slots[..])).None? ==>
      o == Fail(NoFramesAvailable) && table.memory.tables == old(table.memory.tables)
    ensures Drawn(old(pool.slots[..])).Some? ==>
      before == TranslateAsWritten(old(table.memory.tables), table.root, TEST_ADDRESS)
    ensures before.Err? ==> o == Fail(before.error) && table.memory.tables == old(table.memory.tables)
    ensures o.Done? ==>
      Translate(old(table.memory.tables), table.root, TEST_ADDRESS) == Ok(None)
      && after == Ok(Some(StartAddress(StoredFrame(Drawn(old(pool.slots[..])).value))))
      && next == Drawn(TakenTimes(old(pool.slots[..]),
                                  MissingTables(old(table.memory.tables), table.root, Page(42 * 512 * 512)) + 1))
  {
    TestAddressPage();
    var page := PageContaining(TEST_ADDRESS).value;
    FreshAfterTake(pool.slots[..], table.memory.tables, table.root, page);
    var frame := pool.AllocateFrame();
    if frame.None? {
      return Fail(NoFramesAvailable), Ok(None), Ok(None), None;
    }
    before := TranslateAsWritten(table.memory.tables, table.root, TEST_ADDRESS);
    if before.Err? {
      return Fail(before.error), before, Ok(None), None;
    }
    o := table.MapTo(page, frame.value, 0, pool);
    if o.Fail? {
      return o, before, Ok(None), None;
    }
    TranslateMapped(table.memory.tables, table.root, TEST_ADDRESS, StoredFrame(frame.value));
    AsWrittenTranslateAgrees(table.memory.tables, table.root, TEST_ADDRESS);
    after := TranslateAsWritten(table.memory.tables, table.root, TEST_ADDRESS);
    next := pool.AllocateFrame();
  }
}
