/** Properties of the early allocator that relate several calls: the layout
    invariant along any sequence of calls, the accounting identities, bulk
    reclaim of the byte arena, and the worked examples of a fresh region.
 */
module BumpAllocatorLemmas {
  import opened Alignment
  import opened BumpAllocator

  /** One call on the allocator, with the arguments it takes. */
  datatype Op =
    | InitOp(base: nat, size: nat)
    | AddMemoryOp(base: nat, size: nat)
    | AllocOp(layout: Layout)
    | DeallocOp(pos: nat, layout: Layout)
    | AllocPagesOp(numPages: nat, alignPow2: nat)
    | DeallocPagesOp(pos: nat, numPages: nat)

  /** What a caller must ensure before the call: alignments are powers of two
      and a page request does not reach below address zero. */
  predicate Admissible(s: State, op: Op)
  {
    match op
    case AllocOp(layout) => IsPowerOfTwo(layout.align)
    case AllocPagesOp(n, a) => IsPowerOfTwo(a) && n * s.pageSize <= s.pPos
    case _ => true
  }

  function Apply(s: State, op: Op): State
    requires Admissible(s, op)
  {
    match op
    case InitOp(base, size) => s.Init(base, size)
    case AddMemoryOp(base, size) => s.AddMemory(base, size).state
    case AllocOp(layout) => s.Alloc(layout).state
    case DeallocOp(_, _) => s.Dealloc()
    case AllocPagesOp(n, a) => s.AllocPages(n, a).state
    case DeallocPagesOp(pos, n) => s.DeallocPages(pos, n)
  }

  /** Every call of `ops`, made in order from `s`, is admissible. */
  predicate Runnable(s: State, ops: seq<Op>)
    decreases |ops|
  {
    |ops| == 0 || (Admissible(s, ops[0]) && Runnable(Apply(s, ops[0]), ops[1..]))
  }

  function Run(s: State, ops: seq<Op>): State
    requires Runnable(s, ops)
    decreases |ops|
  {
    if |ops| == 0 then s else Run(Apply(s, ops[0]), ops[1..])
  }

  /** `start == bytesStart <= bPos <= pPos <= end` holds after every call. */
  lemma {:induction false} RunPreservesValid(s: State, ops: seq<Op>)
    requires s.Valid() && Runnable(s, ops)
    ensures Run(s, ops).Valid()
    decreases |ops|
  {
    if |ops| > 0 {
      RunPreservesValid(Apply(s, ops[0]), ops[1..]);
    }
  }

  /** Without re-initialisation the region and the page size never change,
      so neither do `total_bytes` and `total_pages`; `pPos` never increases. */
  lemma {:induction false} RunKeepsRegion(s: State, ops: seq<Op>)
    requires Runnable(s, ops)
    requires forall i :: 0 <= i < |ops| ==> !ops[i].InitOp?
    ensures var t := Run(s, ops);
      t.start == s.start && t.end == s.end && t.bytesStart == s.bytesStart &&
      t.pageSize == s.pageSize && t.pPos <= s.pPos &&
      t.TotalBytes() == s.TotalBytes() &&
      (s.pageSize > 0 ==> t.TotalPages() == s.TotalPages())
    decreases |ops|
  {
    if |ops| > 0 {
      assert !ops[0].InitOp?;
      RunKeepsRegion(Apply(s, ops[0]), ops[1..]);
    }
  }

  /** `init` depends on nothing the allocator held before, but its page size. */
  lemma InitForgetsHistory(s: State, t: State, base: nat, size: nat)
    requires s.pageSize == t.pageSize
    ensures s.Init(base, size) == t.Init(base, size)
  {
  }

  /** The accounting queries in terms of the two cursors. */
  lemma Accounting(s: State)
    requires s.Valid() && s.pageSize > 0
    ensures s.UsedBytes() + s.AvailableBytes() == s.TotalBytes()
    ensures s.AvailableBytes() == s.pPos - s.bPos
    ensures s.UsedPages() == (s.end - s.pPos) / s.pageSize
    ensures s.AvailablePages() == (s.pPos - s.bPos) / s.pageSize
  {
  }

  /** Whole pages of two spans never outnumber those of the joined span. */
  lemma DivSumLowerBound(x: nat, y: nat, d: nat)
    requires d > 0
    ensures x / d + y / d <= (x + y) / d
  {
    var qx, qy, rx, ry := x / d, y / d, x % d, y % d;
    assert x == d * qx + rx && y == d * qy + ry;
    MulDistributes(d, qx, qy);
    assert x + y == d * (qx + qy) + (rx + ry);
    if rx + ry < d {
      DivUnique(x + y, d, qx + qy, rx + ry);
    } else {
      MulDistributes(d, qx + qy, 1);
      assert x + y == d * (qx + qy + 1) + (rx + ry - d);
      DivUnique(x + y, d, qx + qy + 1, rx + ry - d);
    }
  }

  /** Used and available pages together fit in the region. */
  lemma PagesAccounting(s: State)
    requires s.Valid() && s.pageSize > 0
    ensures s.UsedPages() + s.AvailablePages() <= s.TotalPages()
  {
    DivSumLowerBound(s.end - s.pPos, s.pPos - s.bPos, s.pageSize);
    DivMonotone(s.end - s.bPos, s.end - s.start, s.pageSize);
  }

  /** Adding `n` whole pages to a span adds exactly `n` to its page count. */
  lemma DivAddPages(x: nat, n: nat, d: nat)
    requires d > 0
    ensures (x + n * d) / d == x / d + n
  {
    assert x == d * (x / d) + x % d;
    assert x + n * d == d * (x / d + n) + x % d;
    DivUnique(x + n * d, d, x / d + n, x % d);
  }

  /** Dividing a larger span never yields fewer pages. */
  lemma DivMonotone(x: nat, y: nat, d: nat)
    requires d > 0 && x <= y
    ensures x / d <= y / d
  {
    if x / d > y / d {
      assert x == d * (x / d) + x % d && y == d * (y / d) + y % d;
      MulAtLeast(d, x / d - y / d);
      MulDistributes(d, y / d, x / d - y / d);
    }
  }

  /** Moving a cursor down by at least `n` pages from `oldPos` to `pos` adds at
      least `n` pages above it and removes at least `n` pages below it. */
  lemma PagesMoved(bottom: nat, pos: nat, oldPos: nat, top: nat, n: nat, d: nat)
    requires d > 0 && bottom <= pos && pos + n * d <= oldPos <= top
    ensures (top - pos) / d >= (top - oldPos) / d + n
    ensures (pos - bottom) / d + n <= (oldPos - bottom) / d
  {
    DivAddPages(top - oldPos, n, d);
    DivMonotone(top - oldPos + n * d, top - pos, d);
    DivAddPages(pos - bottom, n, d);
    DivMonotone(pos - bottom + n * d, oldPos - bottom, d);
  }

  /** Lowering `pPos` by at least `n` pages, and not below `bPos`, moves at
      least `n` pages from the available count to the used count. */
  lemma LowerPPos(s: State, t: State, n: nat)
    requires s.Valid() && s.pageSize > 0
    requires t == s.(pPos := t.pPos) && s.bPos <= t.pPos && t.pPos + n * s.pageSize <= s.pPos
    ensures t.UsedPages() >= s.UsedPages() + n
    ensures t.AvailablePages() + n <= s.AvailablePages()
  {
    var d := s.pageSize;
    assert s.UsedPages() == (s.end - s.pPos) / d && t.UsedPages() == (s.end - t.pPos) / d;
    assert s.AvailablePages() == (s.pPos - s.bPos) / d && t.AvailablePages() == (t.pPos - s.bPos) / d;
    PagesMoved(s.bPos, t.pPos, s.pPos, s.end, n, d);
  }

  /** A successful `alloc_pages(n, ...)` moves at least `n` pages from the
      available count to the used count. */
  lemma AllocPagesAccounting(s: State, numPages: nat, alignPow2: nat)
    requires s.Valid() && s.pageSize > 0
    requires IsPowerOfTwo(alignPow2) && numPages * s.pageSize <= s.pPos
    requires s.AllocPages(numPages, alignPow2).result.Ok?
    ensures var t := s.AllocPages(numPages, alignPow2).state;
      t.UsedPages() >= s.UsedPages() + numPages &&
      t.AvailablePages() + numPages <= s.AvailablePages() &&
      t.TotalPages() == s.TotalPages()
  {
    var r := s.AllocPages(numPages, alignPow2);
    LowerPPos(s, r.state, numPages);
  }

  /** A byte allocation that commits moves exactly the padding and the block
      from the available bytes to the used bytes. */
  lemma AllocBytesAccounting(s: State, layout: Layout)
    requires s.Valid() && IsPowerOfTwo(layout.align)
    requires s.Alloc(layout).result != Err(NoMemory)
    ensures var t := s.Alloc(layout).state;
      t.AvailableBytes() + (t.bPos - s.bPos) == s.AvailableBytes() &&
      t.UsedBytes() == s.UsedBytes() + (t.bPos - s.bPos) &&
      t.TotalBytes() == s.TotalBytes()
  {
  }

  /** `alloc` on each layout in turn, collecting what each call returns. */
  function AllocEach(s: State, layouts: seq<Layout>): (r: (State, seq<AllocResult<nat>>))
    requires forall i :: 0 <= i < |layouts| ==> IsPowerOfTwo(layouts[i].align)
    ensures |r.1| == |layouts|
    decreases |layouts|
  {
    if |layouts| == 0 then (s, [])
    else
      var first := s.Alloc(layouts[0]);
      var rest := AllocEach(first.state, layouts[1..]);
      (rest.0, [first.result] + rest.1)
  }

  /** `dealloc` called `k` times. */
  function DeallocTimes(s: State, k: nat): State
    decreases k
  {
    if k == 0 then s else DeallocTimes(s.Dealloc(), k - 1)
  }

  /** Each committed `alloc` adds one live allocation; the page arena and the
      region are untouched. */
  lemma {:induction false} AllocEachCounts(s: State, layouts: seq<Layout>)
    requires s.Valid()
    requires forall i :: 0 <= i < |layouts| ==> IsPowerOfTwo(layouts[i].align)
    requires forall i :: 0 <= i < |layouts| ==> AllocEach(s, layouts).1[i] != Err(NoMemory)
    ensures var t := AllocEach(s, layouts).0;
      t.Valid() && t.count == s.count + |layouts| &&
      t.(bPos := s.bPos, count := s.count) == s
    decreases |layouts|
  {
    if |layouts| > 0 {
      var first := s.Alloc(layouts[0]);
      var rest := layouts[1..];
      assert AllocEach(s, layouts).1 == [first.result] + AllocEach(first.state, rest).1;
      assert first.result == AllocEach(s, layouts).1[0];
      forall i | 0 <= i < |rest|
        ensures AllocEach(first.state, rest).1[i] != Err(NoMemory)
      {
        assert AllocEach(first.state, rest).1[i] == AllocEach(s, layouts).1[i + 1];
      }
      AllocEachCounts(first.state, rest);
    }
  }

  /** Fewer deallocations than live allocations leave `bPos` where it is. */
  lemma {:induction false} DeallocTimesPartial(s: State, j: nat)
    requires j < s.count
    ensures DeallocTimes(s, j) == s.(count := s.count - j)
    decreases j
  {
    if j > 0 {
      DeallocTimesPartial(s.Dealloc(), j - 1);
    }
  }

  /** Releasing every live allocation resets `bPos` to `bytesStart`. */
  lemma {:induction false} DeallocTimesReclaims(s: State, k: nat)
    requires k == s.count && k > 0
    ensures DeallocTimes(s, k) == s.(count := 0, bPos := s.bytesStart)
    decreases k
  {
    if k > 1 {
      DeallocTimesReclaims(s.Dealloc(), k - 1);
    }
  }

  /** Bulk reclaim: from no live allocations, `k` committed `alloc` calls and
      then `k` `dealloc` calls empty the byte arena; fewer than `k` leave
      `bPos` where the allocations put it. */
  lemma BulkReclaim(s: State, layouts: seq<Layout>, j: nat)
    requires s.Valid() && s.count == 0 && |layouts| > 0
    requires forall i :: 0 <= i < |layouts| ==> IsPowerOfTwo(layouts[i].align)
    requires forall i :: 0 <= i < |layouts| ==> AllocEach(s, layouts).1[i] != Err(NoMemory)
    ensures var t := DeallocTimes(AllocEach(s, layouts).0, |layouts|);
      t.Valid() && t.bPos == s.bytesStart && t.count == 0 && t.pPos == s.pPos &&
      t.AvailableBytes() == t.pPos - s.bytesStart
    ensures j < |layouts| ==>
      DeallocTimes(AllocEach(s, layouts).0, j).bPos == AllocEach(s, layouts).0.bPos
  {
    var filled := AllocEach(s, layouts).0;
    AllocEachCounts(s, layouts);
    DeallocTimesReclaims(filled, |layouts|);
    if j < |layouts| {
      DeallocTimesPartial(filled, j);
    }
  }

  /** A fresh 4 KiB region at 0x1000 with 4 KiB pages. */
  function FreshRegion(): (s: State)
    ensures s.Valid() && s.count == 0
    ensures s.TotalBytes() == 0x1000 && s.AvailableBytes() == 0x1000
  {
    New(0x1000).Init(0x1000, 0x1000)
  }

  /** Two 16-byte blocks aligned to 8 are placed back to back; releasing both
      reclaims the byte arena. */
  lemma TwoBlocksExample()
    ensures var a := FreshRegion().Alloc(Layout(16, 8));
      a.result == Ok(0x1000) && a.state.UsedBytes() == 16 &&
      var b := a.state.Alloc(Layout(16, 8));
      b.result == Ok(0x1010) && b.state.UsedBytes() == 32 &&
      var c := b.state.Dealloc();
      c.bPos == 0x1020 && c.Dealloc().bPos == 0x1000 && c.Dealloc().UsedBytes() == 0
  {
    assert IsPowerOfTwo(8) by { assert IsPowerOfTwo(1) && IsPowerOfTwo(2) && IsPowerOfTwo(4); }
    AlignUpOfAligned(0x1000, 8);
    AlignUpOfAligned(0x1010, 8);
  }

  /** 0x1000 is a power of two. */
  lemma PageSizeIsPowerOfTwo()
    ensures IsPowerOfTwo(0x1000)
  {
    assert IsPowerOfTwo(1) && IsPowerOfTwo(2) && IsPowerOfTwo(4) && IsPowerOfTwo(8);
    assert IsPowerOfTwo(16) && IsPowerOfTwo(32) && IsPowerOfTwo(64) && IsPowerOfTwo(128);
    assert IsPowerOfTwo(256) && IsPowerOfTwo(512) && IsPowerOfTwo(1024) && IsPowerOfTwo(2048);
  }

  /** One 4 KiB page takes the whole region; then even one byte is refused. */
  lemma OnePageExample()
    ensures IsPowerOfTwo(0x1000)
    ensures var p := FreshRegion().AllocPages(1, 0x1000);
      p.result == Ok(0x1000) && p.state.AvailableBytes() == 0 &&
      p.state.Alloc(Layout(1, 1)).result == Err(NoMemory)
  {
    PageSizeIsPowerOfTwo();
    var s := FreshRegion();
    assert s.pPos == 0x2000 && s.bPos == 0x1000 && s.pageSize == 0x1000;
    AlignDownOfAligned(0x1000, 0x1000);
    var p := s.AllocPages(1, 0x1000);
    assert p.result == Ok(0x1000);
    assert p.state.bPos == 0x1000 && p.state.pPos == 0x1000;
    AlignUpOfAligned(0x1000, 1);
  }

  /** A region initialised at address 0 hands out a null block first: `alloc`
      reports `InvalidParam`, yet the block has already been counted and
      `bPos` has already moved past it. */
  lemma NullBlockAtZero(t: State, size: nat, layout: Layout)
    requires IsPowerOfTwo(layout.align) && layout.size <= size
    ensures var a := t.Init(0, size).Alloc(layout);
      a.result == Err(InvalidParam) && a.state.bPos == layout.size && a.state.count == 1 &&
      a.state.AvailableBytes() == size - layout.size
  {
    var s := t.Init(0, size);
    assert s.bPos == 0 && s.pPos == size && s.count == 0;
  }
}
