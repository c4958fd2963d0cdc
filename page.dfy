/**
 * Virtual pages (kernel `mem2::page`, and `Page` of `mem::page`, which has
 * the same canonical check, start address and index functions).
 *
 * A page is a 4 KiB block of virtual memory named by its number. Its number
 * splits into the four 9-bit indices that select an entry at each level of the
 * x86-64 4-level page-table hierarchy (Intel SDM Vol. 3A, section 4.5).
 */
module Pages {
  import opened Machine

  const TWO_9: int := 0x200
  const TWO_18: int := 0x4_0000
  const TWO_27: int := 0x800_0000
  const TWO_36: int := 0x10_0000_0000

  datatype Page = Page(number: u64)

  /**
   * The canonical-address rule of x86-64 (Intel SDM Vol. 1, section 3.3.7.1):
   * bits 48 to 63 all equal bit 47.
   */
  predicate IsCanonical(va: u64)
  {
    va <= 0x0000_7fff_ffff_ffff || va >= 0xffff_8000_0000_0000
  }

  /** `From<VirtualAddress> for Page`: the page holding the address; fatal if it is not canonical. */
  function PageContaining(va: u64): (r: Result<Page>)
    ensures r.Ok? <==> IsCanonical(va)
    ensures r.Err? ==> r.error == NonCanonicalAddress
    ensures r.Ok? ==> PageStart(r.value) <= va < PageStart(r.value) + PAGE_SIZE
  {
    if IsCanonical(va) then Ok(Page(va / PAGE_SIZE)) else Err(NonCanonicalAddress)
  }

  /** `Page::start_address`: number * PAGE_SIZE in wrapping `usize` arithmetic. */
  function PageStart(p: Page): u64
  {
    (p.number * PAGE_SIZE) % WORD
  }

  /** `(number >> 27) & 0o777`: the entry of the level-4 table. */
  function P4Index(p: Page): TableIndex
  {
    (p.number / TWO_27) % ENTRY_COUNT
  }

  /** `(number >> 18) & 0o777`: the entry of the level-3 table. */
  function P3Index(p: Page): TableIndex
  {
    (p.number / TWO_18) % ENTRY_COUNT
  }

  /** `(number >> 9) & 0o777`: the entry of the level-2 table. */
  function P2Index(p: Page): TableIndex
  {
    (p.number / TWO_9) % ENTRY_COUNT
  }

  /** `(number >> 0) & 0o777`: the entry of the level-1 table. */
  function P1Index(p: Page): TableIndex
  {
    p.number % ENTRY_COUNT
  }

  /** `Add<usize> for Page`: the page `n` pages further on, in wrapping `usize` arithmetic. */
  function Add(p: Page, n: u64): (q: Page)
    ensures p.number + n < WORD ==> q.number == p.number + n
  {
    Page((p.number + n) % WORD)
  }

  lemma PageStartRoundsDown(va: u64)
    requires IsCanonical(va)
    ensures PageStart(PageContaining(va).value) == va - va % PAGE_SIZE
  {
  }

  lemma PageStartRoundTrip(p: Page)
    requires p.number < WORD / PAGE_SIZE
    requires IsCanonical(PageStart(p))
    ensures PageContaining(PageStart(p)) == Ok(p)
  {
  }

  /** The four indices reassemble the low 36 bits of the page number. */
  lemma IndexDecomposition(p: Page)
    ensures P4Index(p) * TWO_27 + P3Index(p) * TWO_18 + P2Index(p) * TWO_9 + P1Index(p)
            == p.number % TWO_36
  {
    var n := p.number;
    var q1 := n / 512;
    var q2 := q1 / 512;
    var q3 := q2 / 512;
    var q4 := q3 / 512;
    var low := 512 * (q1 % 512) + n % 512;
    assert n == TWO_18 * q2 + low && 0 <= low < TWO_18;
    assert n / TWO_18 == q2;
    var mid := TWO_18 * (q2 % 512) + low;
    assert n == TWO_27 * q3 + mid && 0 <= mid < TWO_27;
    assert n / TWO_27 == q3;
    var all := TWO_27 * (q3 % 512) + mid;
    assert n == TWO_36 * q4 + all && 0 <= all < TWO_36;
  }

  lemma SplitAt36(n: int, q: int, r: int)
    requires n == TWO_36 * q + r && 0 <= r < TWO_36
    ensures n % TWO_36 == r
  {
  }

  /**
   * For a canonical address the indices determine the page: the bits above
   * the 36 index bits copy the top bit of the level-4 index.
   */
  lemma CanonicalPageFromIndices(va: u64)
    requires IsCanonical(va)
    ensures var p := PageContaining(va).value;
      p.number == (if P4Index(p) >= 256 then 0xffff * TWO_36 else 0)
                  + P4Index(p) * TWO_27 + P3Index(p) * TWO_18 + P2Index(p) * TWO_9 + P1Index(p)
  {
    var p := PageContaining(va).value;
    var n := p.number;
    assert n == va / PAGE_SIZE;
    var i4 := P4Index(p);
    var rest := P3Index(p) * TWO_18 + P2Index(p) * TWO_9 + P1Index(p);
    assert 0 <= rest < TWO_27;
    assert n % TWO_36 == i4 * TWO_27 + rest by {
      IndexDecomposition(p);
    }
    if va <= 0x0000_7fff_ffff_ffff {
      assert n < 0x8_0000_0000;
      SplitAt36(n, 0, n);
      assert i4 < 256;
    } else {
      var high := 0xffff * TWO_36;
      assert high + 0x8_0000_0000 <= n < high + TWO_36;
      SplitAt36(n, 0xffff, n - high);
      assert i4 >= 256;
    }
  }

  /** The two low indices give the page's position within its 1 GiB region. */
  lemma LowIndices(p: Page)
    ensures P2Index(p) * TWO_9 + P1Index(p) == p.number % TWO_18
  {
    var n := p.number;
    var q1 := n / 512;
    assert n == TWO_18 * (q1 / 512) + (512 * (q1 % 512) + n % 512);
  }

  /** Each index is read from the low 36 bits of the page number. */
  lemma IndicesOfLowBits(p: Page)
    ensures var r := p.number % TWO_36;
      P4Index(p) == r / TWO_27 && P3Index(p) == (r / TWO_18) % ENTRY_COUNT &&
      P2Index(p) == (r / TWO_9) % ENTRY_COUNT && P1Index(p) == r % ENTRY_COUNT
  {
    var n := p.number;
    P4Digit(n);
    P3Digit(n);
    P2Digit(n);
    P1Digit(n);
  }

  lemma P4Digit(n: nat)
    ensures (n / TWO_27) % 512 == ((n % TWO_36) / TWO_27) % 512
  {
    var c := n / TWO_36;
    var r := n % TWO_36;
    var d := r / TWO_27;
    assert n == TWO_27 * (0x200 * c + d) + r % TWO_27;
    assert n / TWO_27 == 512 * (0x1 * c + d / 512) + d % 512;
  }

  lemma P3Digit(n: nat)
    ensures (n / TWO_18) % 512 == ((n % TWO_36) / TWO_18) % 512
  {
    var c := n / TWO_36;
    var r := n % TWO_36;
    var d := r / TWO_18;
    assert n == TWO_18 * (0x40000 * c + d) + r % TWO_18;
    assert n / TWO_18 == 512 * (0x200 * c + d / 512) + d % 512;
  }

  lemma P2Digit(n: nat)
    ensures (n / TWO_9) % 512 == ((n % TWO_36) / TWO_9) % 512
  {
    var c := n / TWO_36;
    var r := n % TWO_36;
    var d := r / TWO_9;
    assert n == TWO_9 * (0x8000000 * c + d) + r % TWO_9;
    QuotRem512(n, 0x8000000 * c + d, r % TWO_9);
    QuotRem512(0x8000000 * c + d, 0x40000 * c + d / 512, d % 512);
  }

  lemma QuotRem512(n: int, q: int, r: int)
    requires n == 512 * q + r && 0 <= r < 512
    ensures n / 512 == q && n % 512 == r
  {
  }

  lemma P1Digit(n: nat)
    ensures n % 512 == (n % TWO_36) % 512
  {
    var c := n / TWO_36;
    var r := n % TWO_36;
    assert n == 512 * (0x800_0000 * c + r / 512) + r % 512;
  }

  /** The page of a page's start address has the same four indices. */
  lemma StartAddressKeepsIndices(p: Page)
    requires IsCanonical(PageStart(p))
    ensures var q := PageContaining(PageStart(p)).value;
      P4Index(q) == P4Index(p) && P3Index(q) == P3Index(p) &&
      P2Index(q) == P2Index(p) && P1Index(q) == P1Index(p)
  {
    var n := p.number;
    var a := n / 0x10_0000_0000_0000;
    var b := n % 0x10_0000_0000_0000;
    assert n * PAGE_SIZE == WORD * a + PAGE_SIZE * b;
    QuotRemWord(n * PAGE_SIZE, a, PAGE_SIZE * b);
    QuotRemPage(PAGE_SIZE * b, b, 0);
    var q := PageContaining(PageStart(p)).value;
    assert q.number == b;
    assert n == TWO_36 * (0x1_0000 * a + b / TWO_36) + b % TWO_36;
    SplitAt36(n, 0x1_0000 * a + b / TWO_36, b % TWO_36);
    IndicesOfLowBits(p);
    IndicesOfLowBits(q);
  }

  /** The pages numbered `lo` through `hi`, in ascending order. */
  function PagesBetween(lo: nat, hi: u64): (s: seq<Page>)
    ensures |s| == if lo <= hi then hi - lo + 1 else 0
    ensures forall k | 0 <= k < |s| :: s[k] == Page(lo + k)
    decreases hi - lo + 1
  {
    if lo > hi then [] else [Page(lo)] + PagesBetween(lo + 1, hi)
  }

  /** `PageIter` (the iterator `range_inclusive` returns). */
  class PageIter {
    var start: Page
    const end: Page

    /** The pages the iterator has still to yield. */
    function Remaining(): seq<Page>
      reads this
    {
      PagesBetween(start.number, end.number)
    }

    constructor (first: Page, last: Page)
      ensures start == first && end == last
    {
      start := first;
      end := last;
    }

    /**
     * `Iterator::next`: yield the start page and step the start on by one (in
     * wrapping `usize` arithmetic); nothing, and no change, once start is past end.
     */
    method Next() returns (r: Option<Page>)
      modifies this`start
      ensures old(start.number) <= end.number ==>
        r == Some(old(start)) && start.number == (old(start.number) + 1) % WORD
      ensures old(start.number) > end.number ==> r == None && start == old(start)
      ensures end.number < WORD - 1 ==>
        && (r.None? <==> old(Remaining()) == [])
        && (r.Some? ==> r.value == old(Remaining())[0])
        && Remaining() == if r.Some? then old(Remaining())[1..] else []
    {
      if start.number <= end.number {
        var page := start;
        start := Page((start.number + 1) % WORD);
        return Some(page);
      } else {
        return None;
      }
    }
  }

  /** `range_inclusive`: an iterator over start..=end; fatal if start is past end. */
  method RangeInclusive(start: Page, end: Page) returns (r: Result<PageIter>)
    ensures r.Err? <==> start.number > end.number
    ensures r.Err? ==> r.error == StartAfterEnd
    ensures r.Ok? ==> fresh(r.value) && r.value.start == start && r.value.end == end
    ensures r.Ok? ==> r.value.Remaining() == PagesBetween(start.number, end.number)
    ensures r.Ok? ==> |r.value.Remaining()| == end.number - start.number + 1
  {
    if start.number > end.number {
      return Err(StartAfterEnd);
    }
    var it := new PageIter(start, end);
    return Ok(it);
  }
}
