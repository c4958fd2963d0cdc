/**
 * Machine words and the failure vocabulary shared by the kernel model.
 *
 * Every quantity of the kernel is an unsigned machine integer (`usize`, `u64`,
 * `u8`). They are modelled as bounded `int`s; the bit operations the kernel
 * performs on them are written as the arithmetic they stand for (a right
 * shift by k is a division by 2^k, `x & (2^k - 1)` is `x % 2^k`, and `a | b`
 * is `a + b` wherever the two operands have no bit in common).
 */
module Machine {

  const WORD: int := 0x1_0000_0000_0000_0000
  const PAGE_SIZE: int := 4096
  const ENTRY_COUNT: int := 512

  /** A 64-bit unsigned integer (`usize` and `u64` on x86-64). */
  type u64 = x: int | 0 <= x < WORD

  /** A position in a page table: 0 to 511. */
  type TableIndex = i: int | 0 <= i < ENTRY_COUNT

  /** An 8-bit unsigned integer. */
  type u8 = x: int | 0 <= x < 256

  datatype Option<T> = None | Some(value: T)

  /**
   * The ways the kernel stops: each is a `panic!`, a failed `assert!`, an
   * `expect`/`unwrap` on `None`, or an `unimplemented!()` in the source.
   */
  datatype Fatal =
    | NonCanonicalAddress   // Page::from / containing_address assertion
    | InvalidFrameAddress   // Entry::set: address bits outside 12..51
    | HugePagesUnsupported  // "Mapping code does not support huge pages"
    | NoFramesAvailable     // "No frames available" / "out of memory"
    | AlreadyMapped         // map_to: the level-1 entry is already in use
    | MisalignedHugePage    // translate_page: huge frame not aligned
    | NotMapped             // unmap: the page does not translate
    | MissingEntry          // an `unwrap` on an absent table or frame
    | PoolFull              // "Tiny allocator can hold only 3 frames."
    | TemporaryPageInUse    // "temporary page is already mapped"
    | StartAfterEnd         // range_inclusive: start must not pass end
    | IndexOutOfRange       // CoreMap indexing past its size
    | NoMemoryAreas         // max().unwrap() over an empty area list
    | Unimplemented         // unimplemented!()

  datatype Result<T> = Ok(value: T) | Err(error: Fatal)

  /** The outcome of an operation that returns nothing when it succeeds. */
  datatype Outcome = Done | Fail(error: Fatal)

  /** Division by PAGE_SIZE, from a quotient and remainder known in advance. */
  lemma QuotRemPage(n: int, q: int, r: int)
    requires n == PAGE_SIZE * q + r && 0 <= r < PAGE_SIZE
    ensures n / PAGE_SIZE == q && n % PAGE_SIZE == r
  {
  }

  /** Division by 2^64, from a quotient and remainder known in advance. */
  lemma QuotRemWord(n: int, q: int, r: int)
    requires n == WORD * q + r && 0 <= r < WORD
    ensures n / WORD == q && n % WORD == r
  {
  }
}
