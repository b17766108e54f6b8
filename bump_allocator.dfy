/** The double-ended early allocator `EarlyAllocator<SIZE>`.

    One address range `[start, end)` is shared by two arenas:

        [ bytes-used | avail-area | pages-used ]
        |            | -->    <-- |            |
        start       b_pos        p_pos       end

    Byte allocations bump `bPos` forward; a counter of live byte allocations
    resets `bPos` to `bytesStart` when it falls to zero. Page allocations bump
    `pPos` backward and are never freed.

    `State` is the allocator as a value, with one function per operation (the
    specification); `EarlyAllocator` is the object the kernel updates in place,
    whose methods are proved to follow those functions.
 */
module BumpAllocator {
  import opened Alignment

  datatype AllocError = NoMemory | InvalidParam

  datatype AllocResult<T> = Ok(value: T) | Err(error: AllocError)

  /** The part of `core::alloc::Layout` the allocator reads. */
  datatype Layout = Layout(size: nat, align: nat)

  /** The state after an operation, with what the operation returned. */
  datatype Step<T> = Step(state: State, result: AllocResult<T>)

  /** The six fields of the allocator and its page size `SIZE`. */
  datatype State = State(
    start: nat,
    end: nat,
    bPos: nat,
    pPos: nat,
    count: nat,
    bytesStart: nat,
    pageSize: nat)
  {
    /** The two cursors stay inside the region and never cross. */
    predicate Valid()
    {
      start == bytesStart <= bPos <= pPos <= end
    }

    /** `init(start, size)`: forget everything but the page size. */
    function Init(base: nat, size: nat): (r: State)
      ensures r.Valid() && r.pageSize == pageSize
      ensures r.start == base && r.end == base + size
      ensures r.count == 0 && r.UsedBytes() == 0
      ensures r.TotalBytes() == size && r.AvailableBytes() == size
    {
      State(base, base + size, base, base + size, 0, base, pageSize)
    }

    /** `add_memory`: the region can never grow. */
    function AddMemory(base: nat, size: nat): (r: Step<()>)
      ensures r.result == Err(NoMemory) && r.state == this
    {
      Step(this, Err(NoMemory))
    }

    /** `alloc(layout)`: place the block at the first aligned address at or
        after `bPos`, unless it would run into the page arena. */
    function Alloc(layout: Layout): (r: Step<nat>)
      requires IsPowerOfTwo(layout.align)
      ensures Valid() ==> r.state.Valid()
      // exhaustion: exactly when the aligned block would pass `pPos`; nothing changes
      ensures r.result == Err(NoMemory) <==> AlignUp(bPos, layout.align) + layout.size > pPos
      ensures r.result == Err(NoMemory) ==> r.state == this
      // otherwise the cursor and the counter are committed, whatever is returned
      ensures r.result != Err(NoMemory) ==>
                r.state.bPos == AlignUp(bPos, layout.align) + layout.size <= pPos &&
                r.state.count == count + 1 &&
                r.state.(bPos := bPos, count := count) == this
      // a returned block is aligned, lies at or after `bPos` and ends at the new `bPos`
      ensures r.result.Ok? ==>
                r.result.value % layout.align == 0 &&
                bPos <= r.result.value < bPos + layout.align &&
                r.result.value + layout.size == r.state.bPos
      // a null block is reported only for `bPos == 0`, after the commit
      ensures r.result == Err(InvalidParam) <==> bPos == 0 && layout.size <= pPos
    {
      var alignedPos := AlignUp(bPos, layout.align);
      var newPos := alignedPos + layout.size;
      if newPos > pPos then
        Step(this, Err(NoMemory))
      else
        var committed := this.(bPos := newPos, count := count + 1);
        Step(committed, if alignedPos == 0 then Err(InvalidParam) else Ok(alignedPos))
    }

    /** `dealloc(pos, layout)`: ignores its arguments; the last release of a
        live byte allocation reclaims the whole byte arena. */
    function Dealloc(): (r: State)
      ensures Valid() ==> r.Valid()
      ensures count > 0 ==> r.count == count - 1
      ensures count == 0 ==> r.count == 0
      ensures r.bPos == if count == 1 then bytesStart else bPos
      ensures r.(bPos := bPos, count := count) == this
    {
      if count > 0 then
        var c := count - 1;
        if c == 0 then this.(count := c, bPos := bytesStart) else this.(count := c)
      else
        this
    }

    /** `alloc_pages(numPages, alignPow2)`: place the pages at the last aligned
        address below `pPos`, unless it would run into the byte arena. */
    function AllocPages(numPages: nat, alignPow2: nat): (r: Step<nat>)
      requires IsPowerOfTwo(alignPow2)
      requires numPages * pageSize <= pPos
      ensures Valid() ==> r.state.Valid()
      ensures r.state.pPos <= pPos
      // exhaustion: exactly when the aligned start would fall below `bPos`; nothing changes
      ensures r.result.Err? <==> AlignDown(pPos - numPages * pageSize, alignPow2) < bPos
      ensures r.result.Err? ==> r.result.error == NoMemory && r.state == this
      // otherwise the pages are aligned, lie between `bPos` and `pPos`, and `pPos` moves to them
      ensures r.result.Ok? ==>
                var p := r.result.value;
                p % alignPow2 == 0 &&
                bPos <= p && p + numPages * pageSize <= pPos &&
                pPos - numPages * pageSize < p + alignPow2 &&
                r.state == this.(pPos := p)
    {
      var totalSize := numPages * pageSize;
      var alignedPos := AlignDown(pPos - totalSize, alignPow2);
      if alignedPos < bPos then
        Step(this, Err(NoMemory))
      else
        Step(this.(pPos := alignedPos), Ok(alignedPos))
    }

    /** `dealloc_pages`: pages are never freed. */
    function DeallocPages(pos: nat, numPages: nat): (r: State)
      ensures r == this
    {
      this
    }

    /** `total_bytes`: the size of the region. */
    function TotalBytes(): (r: nat)
      ensures r == 0 <==> end <= start
      ensures start <= end ==> start + r == end
    {
      if end > start then end - start else 0
    }

    /** `used_bytes`: the byte arena above `bytesStart` plus the page arena. */
    function UsedBytes(): (r: nat)
      requires pPos <= end
      ensures Valid() ==> r + AvailableBytes() == TotalBytes()
      ensures r >= end - pPos
    {
      if bPos > bytesStart then bPos - bytesStart + (end - pPos) else end - pPos
    }

    /** `available_bytes`: the gap between the two cursors. */
    function AvailableBytes(): (r: nat)
      ensures bPos <= pPos ==> bPos + r == pPos
      ensures r == 0 <==> pPos <= bPos
    {
      if pPos > bPos then pPos - bPos else 0
    }

    /** `total_pages`: the whole pages that fit in the region. */
    function TotalPages(): (r: nat)
      requires pageSize > 0
      ensures r * pageSize <= TotalBytes() < (r + 1) * pageSize
    {
      if end > start then (end - start) / pageSize else 0
    }

    /** `used_pages`: the whole pages between `pPos` and `end`. */
    function UsedPages(): (r: nat)
      requires pageSize > 0
      ensures pPos <= end ==> r * pageSize <= end - pPos < (r + 1) * pageSize
    {
      if end > pPos then (end - pPos) / pageSize else 0
    }

    /** `available_pages`: the whole pages that fit in the gap. */
    function AvailablePages(): (r: nat)
      requires pageSize > 0
      ensures r * pageSize <= AvailableBytes() < (r + 1) * pageSize
    {
      if pPos > bPos then (pPos - bPos) / pageSize else 0
    }
  }

  /** `EarlyAllocator::new()`: every field zero. */
  function New(pageSize: nat): (s: State)
    ensures s.Valid() && s.pageSize == pageSize
    ensures s.TotalBytes() == 0 && s.AvailableBytes() == 0 && s.count == 0
  {
    State(0, 0, 0, 0, 0, 0, pageSize)
  }

  /** The allocator object; `SIZE` is its page size. The caller serialises
      every call. */
  class EarlyAllocator {
    const pageSize: nat
    var start: nat
    var end: nat
    var bPos: nat
    var pPos: nat
    var count: nat
    var bytesStart: nat

    function Abs(): State
      reads this
    {
      State(start, end, bPos, pPos, count, bytesStart, pageSize)
    }

    ghost predicate Valid()
      reads this
    {
      Abs().Valid()
    }

    constructor (size: nat)
      ensures Abs() == New(size)
      ensures Valid()
    {
      pageSize := size;
      start, end, bPos, pPos, count, bytesStart := 0, 0, 0, 0, 0, 0;
    }

    method Init(base: nat, size: nat)
      modifies this
      ensures Abs() == old(Abs()).Init(base, size)
      ensures Valid()
    {
      start := base;
      end := base + size;
      bPos := base;
      pPos := end;
      count := 0;
      bytesStart := base;
    }

    method Alloc(layout: Layout) returns (r: AllocResult<nat>)
      requires Valid()
      requires IsPowerOfTwo(layout.align)
      modifies this
      ensures Step(Abs(), r) == old(Abs()).Alloc(layout)
      ensures Valid()
    {
      var size := layout.size;
      var align := layout.align;
      var alignedPos := ClearBits(bPos + align - 1, align - 1);
      var newPos := alignedPos + size;
      if newPos > pPos {
        return Err(NoMemory);
      }
      bPos := newPos;
      count := count + 1;
      r := if alignedPos == 0 then Err(InvalidParam) else Ok(alignedPos);
    }

    method Dealloc(pos: nat, layout: Layout)
      requires Valid()
      modifies this
      ensures Abs() == old(Abs()).Dealloc()
      ensures Valid()
    {
      if count > 0 {
        count := count - 1;
        if count == 0 {
          bPos := bytesStart;
        }
      }
    }

    method AllocPages(numPages: nat, alignPow2: nat) returns (r: AllocResult<nat>)
      requires Valid()
      requires IsPowerOfTwo(alignPow2)
      requires numPages * pageSize <= pPos
      modifies this
      ensures Step(Abs(), r) == old(Abs()).AllocPages(numPages, alignPow2)
      ensures Valid()
    {
      var totalSize := numPages * pageSize;
      var alignedPos := ClearBits(pPos - totalSize, alignPow2 - 1);
      if alignedPos < bPos {
        return Err(NoMemory);
      }
      pPos := alignedPos;
      r := Ok(alignedPos);
    }

    function TotalBytes(): nat
      reads this
    {
      Abs().TotalBytes()
    }

    function UsedBytes(): nat
      reads this
      requires pPos <= end
    {
      Abs().UsedBytes()
    }

    function AvailableBytes(): nat
      reads this
    {
      Abs().AvailableBytes()
    }

    function TotalPages(): nat
      reads this
      requires pageSize > 0
    {
      Abs().TotalPages()
    }

    function UsedPages(): nat
      reads this
      requires pageSize > 0
    {
      Abs().UsedPages()
    }

    function AvailablePages(): nat
      reads this
      requires pageSize > 0
    {
      Abs().AvailablePages()
    }
  }
}
