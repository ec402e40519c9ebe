/**
 * The early allocator: one memory region handed out from both ends. Byte
 * allocations bump `start` upward, page allocations pull `end` downward,
 * and nothing is ever freed.
 *
 * Machine words are `usize` (64 bits). Checked arithmetic (`checked_add`,
 * `checked_next_multiple_of`) is written out as a bound on the mathematical
 * result; unchecked arithmetic that would overflow panics in a debug build and
 * becomes a `requires`.
 */
module EarlyAllocator {
  import opened Wrappers
  import opened Bytes
  import opened Arith

  datatype AllocError = NoMemory

  /** `usize::checked_next_multiple_of`: `None` for `m == 0` and when the multiple does not fit. */
  function NextMultipleOf(x: nat, m: nat): (r: Option<nat>)
    ensures r.None? <==> m == 0 || RoundUp(x, m) >= USIZE_LIMIT
    ensures r.Some? ==> r.value == RoundUp(x, m) && r.value < USIZE_LIMIT
  {
    if m == 0 then None
    else
      var up := if x % m == 0 then x else x + (m - x % m);
      if up < USIZE_LIMIT then Some(up) else None
  }

  /**
   * `alloc` on the two ends of the region: the address handed out, the
   * least multiple of `align` at or above `start`, provided the block
   * then ends by `end`.
   */
  function Bump(start: nat, end: nat, size: nat, align: nat): (r: Result<nat, AllocError>)
    requires start < USIZE_LIMIT && end < USIZE_LIMIT && align > 0
    ensures r.Failure? <==> RoundUp(start, align) + size > end
    ensures r.Success? ==> r.value % align == 0 && start <= r.value < start + align && r.value + size <= end
  {
    match NextMultipleOf(start, align)
    case None => Failure(NoMemory)
    case Some(res) =>
      if res + size >= USIZE_LIMIT then Failure(NoMemory)
      else if res + size > end then Failure(NoMemory)
      else Success(res)
  }

  /**
   * `alloc_pages` with the subtraction checked: the block of
   * `roundup(bytes, align)` bytes that ends at `end` rounded down to
   * `align`, provided it starts at or above `start`.
   */
  function Carve(start: nat, end: nat, bytes: nat, align: nat): (r: Result<nat, AllocError>)
    requires end < USIZE_LIMIT
    ensures r.Failure? <==> align == 0 || RoundUp(bytes, align) >= USIZE_LIMIT
                            || start + RoundUp(bytes, align) > end - end % align
    ensures r.Success? ==> r.value % align == 0 && start <= r.value
    ensures r.Success? ==> r.value + RoundUp(bytes, align) == end - end % align
    ensures r.Success? ==> end - align < r.value + RoundUp(bytes, align) <= end
  {
    match NextMultipleOf(bytes, align)
    case None => Failure(NoMemory)
    case Some(numBytes) =>
      var regionEnd := end - end % align;
      RoundDown(end, align);
      if numBytes > regionEnd then Failure(NoMemory)
      else
        var res := regionEnd - numBytes;
        MultipleDifference(regionEnd, numBytes, align);
        if start > res then Failure(NoMemory) else Success(res)
  }

  /** `alloc_pages` as written: `region_end - num_bytes` wraps around in a release build. */
  function CarveAsWritten(start: nat, end: nat, bytes: nat, align: nat): (r: Result<nat, AllocError>)
    requires end < USIZE_LIMIT
    ensures r.Success? ==> r.value < USIZE_LIMIT && start <= r.value
  {
    match NextMultipleOf(bytes, align)
    case None => Failure(NoMemory)
    case Some(numBytes) =>
      var regionEnd := end - end % align;
      var res := (regionEnd - numBytes) % USIZE_LIMIT;
      if start > res then Failure(NoMemory) else Success(res)
  }

  /** Both versions agree whenever the block fits below the region's end. */
  lemma CarveAgreesWithAsWritten(start: nat, end: nat, bytes: nat, align: nat)
    requires end < USIZE_LIMIT && align > 0 && RoundUp(bytes, align) <= end - end % align
    ensures CarveAsWritten(start, end, bytes, align) == Carve(start, end, bytes, align)
  {
    RoundDown(end, align);
  }

  /**
   * Three 4 KiB pages asked of a region of two pages just above address 0:
   * the code as written "succeeds" with an address far above the region,
   * where the checked version reports `NoMemory`.
   */
  lemma AsWrittenCarvesPastRegion(start: nat, end: nat, bytes: nat, align: nat)
    requires start == 1 && end == 8192 && bytes == 3 * 4096 && align == 4096
    ensures CarveAsWritten(start, end, bytes, align) == Success(USIZE_LIMIT - 4096)
    ensures CarveAsWritten(start, end, bytes, align).value > end
    ensures Carve(start, end, bytes, align) == Failure(NoMemory)
  {
    assert NextMultipleOf(bytes, align) == Some(12288);
    assert end % align == 0;
    assert (8192 - 12288) % USIZE_LIMIT == USIZE_LIMIT - 4096;
  }

  /** A power of two, as every `Layout` alignment is. */
  ghost predicate IsPowerOfTwo(n: nat)
  {
    n == 1 || (n > 1 && n % 2 == 0 && IsPowerOfTwo(n / 2))
  }

  /**
   * Where the handed-out blocks lie: byte blocks in `[origStart, start)`,
   * in ascending order; page blocks in `[end, origEnd)`, in descending
   * order; no two overlap.
   */
  ghost predicate Layout(origStart: nat, start: nat, end: nat, origEnd: nat, bytes: seq<(nat, nat)>, pages: seq<(nat, nat)>)
  {
    && (forall i :: 0 <= i < |bytes| ==> origStart <= bytes[i].0 && bytes[i].0 + bytes[i].1 <= start <= end)
    && (forall i, j :: 0 <= i < j < |bytes| ==> bytes[i].0 + bytes[i].1 <= bytes[j].0)
    && (forall i :: 0 <= i < |pages| ==> end <= pages[i].0 && pages[i].0 + pages[i].1 <= origEnd)
    && (forall i, j :: 0 <= i < j < |pages| ==> pages[j].0 + pages[j].1 <= pages[i].0)
    && (forall i, j :: 0 <= i < |bytes| && 0 <= j < |pages| ==> bytes[i].0 + bytes[i].1 <= pages[j].0)
  }

  /** A byte block taken from the bottom of the free gap keeps the layout. */
  lemma PushBytes(origStart: nat, start: nat, end: nat, origEnd: nat, bytes: seq<(nat, nat)>, pages: seq<(nat, nat)>, at: nat, size: nat)
    requires Layout(origStart, start, end, origEnd, bytes, pages) && origStart <= start <= at && at + size <= end
    ensures Layout(origStart, at + size, end, origEnd, bytes + [(at, size)], pages)
  {
  }

  /** A page block taken from the top of the free gap keeps the layout. */
  lemma PushPages(origStart: nat, start: nat, end: nat, origEnd: nat, bytes: seq<(nat, nat)>, pages: seq<(nat, nat)>, at: nat, size: nat)
    requires Layout(origStart, start, end, origEnd, bytes, pages) && start <= at && at + size <= end <= origEnd
    ensures Layout(origStart, start, at, origEnd, bytes, pages + [(at, size)])
  {
  }

  /** `EarlyAllocator<PAGE_SIZE>`: the fields of the allocator, and the blocks handed out since `init`. */
  class Allocator {
    const pageSize: nat
    var start: nat
    var end: nat
    var origStart: nat
    var origEnd: nat
    /** The byte blocks `(address, size)` handed out, in order. */
    ghost var bytes: seq<(nat, nat)>
    /** The page blocks `(address, size)` handed out, in order. */
    ghost var pages: seq<(nat, nat)>

    ghost predicate Valid()
      reads this
    {
      && pageSize > 0
      && 1 <= start < USIZE_LIMIT && origStart <= start
      && end <= origEnd < USIZE_LIMIT && origStart <= origEnd
      // `init` at address 0 with size 0 bumps `start` past `end`.
      && (start <= end || (start == 1 && end == 0 && origEnd == 0))
      && Layout(origStart, start, end, origEnd, bytes, pages)
    }

    /** `EarlyAllocator::new`: an empty region at address 1. */
    constructor (pageSize: nat)
      requires pageSize > 0
      ensures Valid() && this.pageSize == pageSize
      ensures start == 1 && end == 1 && origStart == 1 && origEnd == 1 && bytes == [] && pages == []
    {
      this.pageSize := pageSize;
      start, end, origStart, origEnd := 1, 1, 1, 1;
      bytes, pages := [], [];
    }

    /** `BaseAllocator::init`: the region `[base, base + size)`; address 0 is never handed out. */
    method Init(base: nat, size: nat)
      requires pageSize > 0 && base + size < USIZE_LIMIT
      modifies this
      ensures Valid()
      ensures origStart == base && origEnd == base + size && end == base + size
      ensures start == (if base == 0 then 1 else base)
      ensures bytes == [] && pages == []
    {
      start := base;
      end := base + size;
      origEnd := end;
      origStart := start;
      if start == 0 {
        start := start + 1;
      }
      bytes, pages := [], [];
    }

    /** `ByteAllocator::alloc`: bump `start` past a block of `size` bytes aligned to `align`. */
    method Alloc(size: nat, align: nat) returns (r: Result<nat, AllocError>)
      requires Valid() && IsPowerOfTwo(align) && size < USIZE_LIMIT
      modifies this
      ensures Valid()
      ensures r == Bump(old(start), old(end), size, align)
      ensures r.Success? ==> r.value != 0 && start == r.value + size && bytes == old(bytes) + [(r.value, size)]
      ensures r.Failure? ==> start == old(start) && bytes == old(bytes)
      ensures end == old(end) && origStart == old(origStart) && origEnd == old(origEnd) && pages == old(pages)
    {
      assert align > 0;
      var up := NextMultipleOf(start, align);
      if up.None? {
        return Failure(NoMemory);
      }
      var res := up.value;
      if res + size >= USIZE_LIMIT {
        return Failure(NoMemory);
      }
      var newStart := res + size;
      if newStart > end {
        return Failure(NoMemory);
      }
      PushBytes(origStart, start, end, origEnd, bytes, pages, res, size);
      start := newStart;
      bytes := bytes + [(res, size)];
      r := Success(res);
    }

    /** `ByteAllocator::dealloc`: nothing is freed. */
    method Dealloc(pos: nat, size: nat, align: nat)
      requires Valid()
      ensures Valid()
    {
    }

    /**
     * `PageAllocator::alloc_pages`, with `region_end - num_bytes` checked
     * (see `CarveAsWritten` for the code as written): pull `end` down to a
     * block of `numPages` pages aligned to `align`.
     */
    method AllocPages(numPages: nat, align: nat) returns (r: Result<nat, AllocError>)
      requires Valid() && align % pageSize == 0 && numPages * pageSize < USIZE_LIMIT
      modifies this
      ensures Valid()
      ensures r == Carve(old(start), old(end), numPages * pageSize, align)
      ensures r.Success? ==> end == r.value && pages == old(pages) + [(r.value, RoundUp(numPages * pageSize, align))]
      ensures r.Failure? ==> end == old(end) && pages == old(pages)
      ensures start == old(start) && origStart == old(origStart) && origEnd == old(origEnd) && bytes == old(bytes)
    {
      var up := NextMultipleOf(numPages * pageSize, align);
      if up.None? {
        return Failure(NoMemory);
      }
      var numBytes := up.value;
      var regionEnd := end - end % align;
      RoundDown(end, align);
      if numBytes > regionEnd {
        return Failure(NoMemory);
      }
      var res := regionEnd - numBytes;
      MultipleDifference(regionEnd, numBytes, align);
      if start > res {
        return Failure(NoMemory);
      }
      PushPages(origStart, start, end, origEnd, bytes, pages, res, numBytes);
      end := res;
      pages := pages + [(res, numBytes)];
      r := Success(res);
    }

    /** `PageAllocator::dealloc_pages`: nothing is freed. */
    method DeallocPages(pos: nat, numPages: nat)
      requires Valid()
      ensures Valid()
    {
    }

    /** `total_bytes`: the size given to `init`, within which every block handed out lies. */
    function TotalBytes(): (r: nat)
      reads this
      requires Valid()
      ensures r < USIZE_LIMIT
      ensures forall i :: 0 <= i < |bytes| ==> origStart <= bytes[i].0 && bytes[i].0 + bytes[i].1 <= origStart + r
      ensures forall i :: 0 <= i < |pages| ==> origStart <= pages[i].0 && pages[i].0 + pages[i].1 <= origStart + r
    {
      origEnd - origStart
    }

    /** `used_bytes`: how far `start` has moved (the bump past address 0 included); every byte block lies within it. */
    function UsedBytes(): (r: nat)
      reads this
      requires Valid()
      ensures r < USIZE_LIMIT
      ensures forall i :: 0 <= i < |bytes| ==> origStart <= bytes[i].0 && bytes[i].0 + bytes[i].1 <= origStart + r
    {
      start - origStart
    }

    /**
     * `available_bytes`: the free gap above `start`, which holds no block.
     * It underflows (panics) for the empty region at address 0, hence the `requires`.
     */
    function AvailableBytes(): (r: nat)
      reads this
      requires Valid() && start <= end
      ensures r < USIZE_LIMIT
      ensures forall i :: 0 <= i < |bytes| ==> bytes[i].0 + bytes[i].1 <= start
      ensures forall i :: 0 <= i < |pages| ==> start + r <= pages[i].0
    {
      end - start
    }

    /**
     * `total_pages`: the whole pages between the current `start` (not
     * `orig_start`) and `orig_end`. It underflows (panics) for the empty
     * region at address 0, hence the `requires`.
     */
    function TotalPages(): (r: nat)
      reads this
      requires Valid() && start <= origEnd
      ensures r * pageSize <= origEnd - start < r * pageSize + pageSize
    {
      FloorBounds(origEnd - start, pageSize);
      (origEnd - start) / pageSize
    }

    /** `used_pages`: the whole pages between `end` and `orig_end`, where the page blocks lie. */
    function UsedPages(): (r: nat)
      reads this
      requires Valid()
      ensures r * pageSize <= origEnd - end < r * pageSize + pageSize
    {
      FloorBounds(origEnd - end, pageSize);
      (origEnd - end) / pageSize
    }

    /** `available_pages`: the whole pages in the free gap; it panics like `available_bytes`. */
    function AvailablePages(): (r: nat)
      reads this
      requires Valid() && start <= end
      ensures r * pageSize <= end - start < r * pageSize + pageSize
    {
      FloorBounds(end - start, pageSize);
      (end - start) / pageSize
    }

    /** The byte counters split the region, and the page counters never exceed the total. */
    lemma CountersAddUp()
      requires Valid() && start <= end
      ensures UsedBytes() + AvailableBytes() + (origEnd - end) == TotalBytes()
      ensures UsedPages() + AvailablePages() <= TotalPages()
    {
      FloorSum(origEnd - end, end - start, pageSize);
    }

    /** No two blocks handed out since `init` overlap. */
    lemma BlocksDisjoint()
      requires Valid()
      ensures forall i, j :: 0 <= i < |bytes| && 0 <= j < |pages| ==> bytes[i].0 + bytes[i].1 <= pages[j].0
      ensures forall i, j :: 0 <= i < j < |bytes| ==> bytes[i].0 + bytes[i].1 <= bytes[j].0
      ensures forall i, j :: 0 <= i < j < |pages| ==> pages[j].0 + pages[j].1 <= pages[i].0
      ensures forall i :: 0 <= i < |bytes| ==> origStart <= bytes[i].0 && bytes[i].0 + bytes[i].1 <= origEnd
      ensures forall i :: 0 <= i < |pages| ==> origStart <= pages[i].0 && pages[i].0 + pages[i].1 <= origEnd
    {
    }
  }
}
