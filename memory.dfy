/**
 * The flash adapter of the key-value store (src/memory.rs): the store sees
 * numbered pages of one flash sector each, and the adapter maps them onto a
 * 16 KiB region starting at flash address 0x9000. The arithmetic is on the
 * ESP32's 32-bit `usize` and on `u32`, written out here with wrap-around.
 */
module Memory {

  const FLASH_OFFSET: nat := 0x9000
  const FLASH_SIZE: nat := 0x4000
  /** `FlashStorage::SECTOR_SIZE` of esp-storage, the page size. */
  const SECTOR_SIZE: nat := 4096
  const WORD: nat := 0x1_0000_0000

  /** A 32-bit unsigned value: `u32`, and `usize` on the ESP32. */
  type u32 = x: int | 0 <= x < WORD

  /** Wrapping 32-bit arithmetic. */
  function Wrap(x: nat): u32
  {
    x % WORD
  }

  /** `page_count`: how many whole pages fit the region. */
  function PageCount(ps: u32): nat
    requires ps > 0
  {
    FLASH_SIZE / ps
  }

  /** `erase`: the first address of a page, `(page * ps) as u32 + FLASH_OFFSET`. */
  function EraseFrom(page: u32, ps: u32): u32
  {
    Wrap(Wrap(page * ps) + FLASH_OFFSET)
  }

  /** `erase`: the end (exclusive) of a page, `from + ps`. */
  function EraseTo(page: u32, ps: u32): u32
  {
    Wrap(EraseFrom(page, ps) + ps)
  }

  /** `read` and `write`: the flash address of byte `offset` of a page. */
  function AbsOffset(page: u32, ps: u32, offset: u32): u32
  {
    Wrap(Wrap(Wrap(page * ps) + offset) + FLASH_OFFSET)
  }

  /** With the esp-storage sector size the store gets four pages. */
  lemma FourPages()
    ensures PageCount(SECTOR_SIZE) == 4
  {
  }

  /** Pages before the page count end inside the region. */
  lemma PageEndsInRegion(page: u32, ps: u32)
    requires ps > 0 && page < PageCount(ps)
    ensures page * ps + ps <= FLASH_SIZE
  {
    var n := PageCount(ps);
    assert n * ps <= FLASH_SIZE;
    assert page + 1 <= n;
    assert (page + 1) * ps <= n * ps by {
      MulMono(page + 1, n, ps);
    }
  }

  lemma MulMono(a: nat, b: nat, c: nat)
    requires a <= b
    ensures a * c <= b * c
  {
  }

  /**
   * No arithmetic wraps for a page the store may use: the erased range is
   * exactly one page, `[0x9000 + page * ps, 0x9000 + page * ps + ps)`, and
   * lies inside `[0x9000, 0xD000)`.
   */
  lemma EraseRangeInRegion(page: u32, ps: u32)
    requires ps > 0 && page < PageCount(ps)
    ensures EraseFrom(page, ps) == FLASH_OFFSET + page * ps
    ensures EraseTo(page, ps) == EraseFrom(page, ps) + ps
    ensures FLASH_OFFSET <= EraseFrom(page, ps) < EraseTo(page, ps) <= FLASH_OFFSET + FLASH_SIZE
  {
    PageEndsInRegion(page, ps);
  }

  /** Two different pages never share a flash address. */
  lemma PagesDisjoint(p: u32, q: u32, ps: u32)
    requires ps > 0 && p < PageCount(ps) && q < PageCount(ps) && p != q
    ensures EraseTo(p, ps) <= EraseFrom(q, ps) || EraseTo(q, ps) <= EraseFrom(p, ps)
  {
    EraseRangeInRegion(p, ps);
    EraseRangeInRegion(q, ps);
    if p < q {
      MulMono(p + 1, q, ps);
    } else {
      MulMono(q + 1, p, ps);
    }
  }

  /** A read or write at an offset within the page lands inside that page's erase range. */
  lemma AccessInPage(page: u32, ps: u32, offset: u32)
    requires ps > 0 && page < PageCount(ps) && offset < ps
    ensures AbsOffset(page, ps, offset) == EraseFrom(page, ps) + offset
    ensures EraseFrom(page, ps) <= AbsOffset(page, ps, offset) < EraseTo(page, ps)
  {
    EraseRangeInRegion(page, ps);
    var x := page * ps;
    assert x + offset < FLASH_SIZE;
    assert Wrap(x) == x;
    assert Wrap(x + offset) == x + offset;
    assert Wrap(x + offset + FLASH_OFFSET) == x + offset + FLASH_OFFSET;
  }
}
