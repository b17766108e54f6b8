# Early allocator of ArceOS, in Dafny

This project models `EarlyAllocator<SIZE>`, the bootstrap allocator of the
ArceOS `bump_allocator` module. The allocator manages one address range
`[start, end)` from both ends:

- **Bytes.** Byte allocations move the cursor `b_pos` forward. A counter of
  live byte allocations, `count`, drives bulk reclaim: when the last live
  allocation is released, `b_pos` returns to `bytes_start`.
- **Pages.** Page allocations move the cursor `p_pos` backward. They are
  never freed.

Files:

- `alignment.dfy` (module `Alignment`): the bit-mask alignment of the source,
  `(x + a - 1) & !(a - 1)` and `x & !(a - 1)`. `ClearBits(x, m)` is `x & !m`
  on naturals, written bit by bit. The model proves that for a power of two
  `a` it rounds to a multiple of `a`.
- `bump_allocator.dfy` (module `BumpAllocator`): `State` holds the six fields
  and the page size `SIZE` as a value, with one function per operation.
  These functions are the specification. `EarlyAllocator` is the class whose
  methods update the fields in place, statement by statement as the source
  does. Each method is proved to follow the matching `State` function.
- `bump_allocator_lemmas.dfy` (module `BumpAllocatorLemmas`): properties that
  relate several calls, proved on `State`. They cover:
  - the invariant along any sequence of calls;
  - totals that only `init` can change;
  - the accounting identities;
  - bulk reclaim;
  - worked examples on a fresh 4 KiB region.

The invariant is `start == bytes_start <= b_pos <= p_pos <= end`
(`State.Valid`). Every operation preserves it.

Two points where the code is followed exactly:

- `alloc` commits the new `b_pos` and `count + 1` before it checks the block
  address for null (lib.rs:75-78). An `InvalidParam` result therefore leaves
  the state changed. Only `NoMemory` leaves it untouched (`State.Alloc`,
  `BumpAllocatorLemmas.NullBlockAtZero`). So not every failed call leaves
  the allocator as it was.
- `init` sets `bytes_start` equal to `start`, so the invariant states
  equality, not merely `start <= bytes_start`.

## Model

| member | source | states |
|---|---|---|
| `Alignment.ClearBits` | arceos/modules/bump_allocator/src/lib.rs:67 | `x & !m` never exceeds `x` |
| `Alignment.ClearLowBits` | arceos/modules/bump_allocator/src/lib.rs:128 | for a power of two `a`, `x & !(a - 1)` equals `(x / a) * a` |
| `Alignment.AlignUp` | arceos/modules/bump_allocator/src/lib.rs:67 | `(x + a - 1) & !(a - 1)` is the least multiple of `a` that is `>= x` (a multiple, `x <= r < x + a`), and is 0 exactly when `x` is 0 |
| `Alignment.AlignDown` | arceos/modules/bump_allocator/src/lib.rs:128 | `x & !(a - 1)` is the greatest multiple of `a` that is `<= x` (a multiple, `r <= x < r + a`) |
| `Alignment.AlignUpOfAligned` | arceos/modules/bump_allocator/src/lib.rs:67 | rounding up an aligned address leaves it unchanged |
| `Alignment.AlignDownOfAligned` | arceos/modules/bump_allocator/src/lib.rs:128 | rounding down an aligned address leaves it unchanged |
| `BumpAllocator.New` | arceos/modules/bump_allocator/src/lib.rs:30-39 | a new allocator satisfies the invariant, with no bytes in total, none available and no live allocation |
| `BumpAllocator.State.Init` | arceos/modules/bump_allocator/src/lib.rs:43-50 | after `init(base, size)` the invariant holds, `start == base`, `end == base + size`, `count == 0`, nothing is used and all `size` bytes are available, whatever the prior state |
| `BumpAllocator.State.AddMemory` | arceos/modules/bump_allocator/src/lib.rs:52-55 | `add_memory` always answers `NoMemory` and changes nothing |
| `BumpAllocator.State.Alloc` | arceos/modules/bump_allocator/src/lib.rs:59-79 | preserves the invariant. `NoMemory` exactly when the aligned end passes `p_pos`, and then nothing changes; an aligned end equal to `p_pos` fits. Otherwise `b_pos` becomes aligned position + size (`<= p_pos`), `count` grows by 1 and no other field changes. A returned address is a multiple of `align`, at least the old `b_pos`, less than old `b_pos + align`, and the block ends at the new `b_pos`. `InvalidParam` exactly when `b_pos == 0` and the block fits, after the commit |
| `BumpAllocator.State.Dealloc` | arceos/modules/bump_allocator/src/lib.rs:81-90 | preserves the invariant. `count` drops by one if positive and never underflows. `b_pos` resets to `bytes_start` exactly when `count` goes from 1 to 0 and is otherwise unchanged. No other field (`p_pos` included) changes |
| `BumpAllocator.State.AllocPages` | arceos/modules/bump_allocator/src/lib.rs:120-137 | preserves the invariant and never raises `p_pos`. `NoMemory` exactly when the rounded-down start is below `b_pos`, and then nothing changes. Otherwise the result is a multiple of `align_pow2`, `>= b_pos`, its pages end at or before the old `p_pos`, it is the highest such address, and it becomes `p_pos` with no other change |
| `BumpAllocator.State.DeallocPages` | arceos/modules/bump_allocator/src/lib.rs:139-142 | `dealloc_pages` changes nothing |
| `BumpAllocator.State.TotalBytes` | arceos/modules/bump_allocator/src/lib.rs:92-98 | `total_bytes` is `end - start`, and 0 exactly when `end <= start` |
| `BumpAllocator.State.UsedBytes` | arceos/modules/bump_allocator/src/lib.rs:100-106 | under the invariant, used plus available bytes equals total bytes; the page arena is always counted as used |
| `BumpAllocator.State.AvailableBytes` | arceos/modules/bump_allocator/src/lib.rs:108-114 | `available_bytes` is the gap `p_pos - b_pos`, and 0 exactly when the cursors meet |
| `BumpAllocator.State.TotalPages` | arceos/modules/bump_allocator/src/lib.rs:144-150 | `total_pages` is the number of whole pages in `total_bytes` |
| `BumpAllocator.State.UsedPages` | arceos/modules/bump_allocator/src/lib.rs:152-158 | `used_pages` is the number of whole pages in `[p_pos, end)` |
| `BumpAllocator.State.AvailablePages` | arceos/modules/bump_allocator/src/lib.rs:160-166 | `available_pages` is the number of whole pages in `available_bytes` |
| `BumpAllocator.EarlyAllocator.constructor` | arceos/modules/bump_allocator/src/lib.rs:30-39 | the new object's fields are those of `New` and satisfy the invariant |
| `BumpAllocator.EarlyAllocator.Init` | arceos/modules/bump_allocator/src/lib.rs:43-50 | the fields updated in place equal `State.Init` of the old fields, so the invariant holds |
| `BumpAllocator.EarlyAllocator.Alloc` | arceos/modules/bump_allocator/src/lib.rs:59-79 | computing the mask and committing before the null check yields exactly the new fields and the result of `State.Alloc`; the invariant is kept |
| `BumpAllocator.EarlyAllocator.Dealloc` | arceos/modules/bump_allocator/src/lib.rs:81-90 | the in-place update equals `State.Dealloc`; the invariant is kept |
| `BumpAllocator.EarlyAllocator.AllocPages` | arceos/modules/bump_allocator/src/lib.rs:120-137 | the in-place update and the result equal `State.AllocPages`; the invariant is kept |
| `BumpAllocatorLemmas.RunPreservesValid` | arceos/modules/bump_allocator/src/lib.rs:8-18 | `start == bytes_start <= b_pos <= p_pos <= end` holds after every sequence of calls, so the two arenas never overlap |
| `BumpAllocatorLemmas.RunKeepsRegion` | arceos/modules/bump_allocator/src/lib.rs:92-98 | without `init`, no sequence of calls changes `start`, `end`, `bytes_start`, the page size, `total_bytes` or `total_pages`, and `p_pos` never increases |
| `BumpAllocatorLemmas.InitForgetsHistory` | arceos/modules/bump_allocator/src/lib.rs:43-50 | the state after `init` does not depend on the state before it, except for the page size |
| `BumpAllocatorLemmas.Accounting` | arceos/modules/bump_allocator/src/lib.rs:100-114 | under the invariant: used + available bytes = total bytes, available bytes = `p_pos - b_pos`, used pages = `(end - p_pos) / SIZE`, available pages = `(p_pos - b_pos) / SIZE` |
| `BumpAllocatorLemmas.PagesAccounting` | arceos/modules/bump_allocator/src/lib.rs:144-166 | used pages plus available pages never exceed total pages |
| `BumpAllocatorLemmas.AllocPagesAccounting` | arceos/modules/bump_allocator/src/lib.rs:120-137 | a successful `alloc_pages(n, ...)` adds at least `n` used pages, removes at least `n` available pages, and keeps total pages |
| `BumpAllocatorLemmas.AllocBytesAccounting` | arceos/modules/bump_allocator/src/lib.rs:75-76 | an `alloc` that commits moves exactly the padding plus the block from available to used bytes, and keeps total bytes |
| `BumpAllocatorLemmas.AllocEachCounts` | arceos/modules/bump_allocator/src/lib.rs:75-76 | `k` committing `alloc` calls raise `count` by `k`, keep the invariant, and change only `b_pos` and `count` |
| `BumpAllocatorLemmas.DeallocTimesPartial` | arceos/modules/bump_allocator/src/lib.rs:81-90 | fewer `dealloc` calls than live allocations only lower `count`; `b_pos` stays put |
| `BumpAllocatorLemmas.DeallocTimesReclaims` | arceos/modules/bump_allocator/src/lib.rs:81-90 | as many `dealloc` calls as live allocations set `count` to 0 and `b_pos` to `bytes_start`, and change nothing else |
| `BumpAllocatorLemmas.BulkReclaim` | arceos/modules/bump_allocator/src/lib.rs:16-17 | from no live allocations, `k` committing `alloc` calls followed by `k` `dealloc` calls leave `b_pos == bytes_start`, `count == 0`, `p_pos` as it was and `available_bytes == p_pos - bytes_start`; after fewer than `k` deallocs `b_pos` is where the allocs left it |
| `BumpAllocatorLemmas.FreshRegion` | arceos/modules/bump_allocator/src/lib.rs:43-50 | `init(0x1000, 0x1000)` gives 0x1000 total and 0x1000 available bytes |
| `BumpAllocatorLemmas.TwoBlocksExample` | arceos/modules/bump_allocator/src/lib.rs:59-106 | on that region two `alloc(16, 8)` calls return 0x1000 and 0x1010, with 16 then 32 bytes used; two `dealloc` calls bring `b_pos` back to 0x1000 with 0 bytes used |
| `BumpAllocatorLemmas.OnePageExample` | arceos/modules/bump_allocator/src/lib.rs:120-137 | on that region with 4 KiB pages, `alloc_pages(1, 0x1000)` returns 0x1000 exactly at `b_pos`, leaves no bytes available, and a following `alloc(1, 1)` fails with `NoMemory` |
| `BumpAllocatorLemmas.NullBlockAtZero` | arceos/modules/bump_allocator/src/lib.rs:75-78 | on a region initialised at address 0, the first `alloc` that fits returns `InvalidParam` after `b_pos` and `count` have already been committed |

## Left out

- Machine-word arithmetic: `usize` overflow and underflow at lib.rs:45, 67-68, 125 and 128 are not modelled. Addresses are unbounded naturals. Instead the model states what callers must ensure: `align` and `align_pow2` are powers of two, and `num_pages * SIZE <= p_pos` for `alloc_pages`.
- `BumpAllocator.State.UsedBytes` requires `p_pos <= end`, which the invariant guarantees. Without it the source's `end - p_pos` would underflow.
- `SIZE == 0`: `total_pages`, `used_pages` and `available_pages` divide by `SIZE`, so the model requires a positive page size for them. Byte allocation and `alloc_pages` accept any page size.
- The methods of `EarlyAllocator` require the invariant `Valid()`. It is established by the constructor and by `Init` and kept by every method.
- The allocator traits (`BaseAllocator`, `ByteAllocator`, `PageAllocator`, `AllocResult`) are not modelled as traits. `Layout` is reduced to `(size, align)`. `NonNull` is reduced to "the address is not 0".
- `dealloc` and `dealloc_pages` ignore their arguments in the source. The model's `State.Dealloc` takes none, and `EarlyAllocator.Dealloc` accepts and ignores them. A double release or the release of an address never handed out is therefore indistinguishable from a correct one.
- `add_memory`, `dealloc_pages` and the six accounting queries exist in `EarlyAllocator` only as delegations to the `State` functions, or not at all. They change nothing in place, so the `State` function is the whole model.
- Concurrency: the allocator has no internal synchronisation, and callers serialise access. The model is sequential.
- Handing the unused span `[b_pos, p_pos)` to the permanent allocators happens outside this file. It is not modelled.
- arceos/ulib/axstd/src/collections.rs is not part of this model:
  - `HashMap` and `HashSet` only forward to `hashbrown`, whose code is not available.
  - The hasher seeds itself from `axhal::misc::random()`.
  - The hash step `state * 31 + byte` relies on 64-bit wrap-around and has no stated contract.
