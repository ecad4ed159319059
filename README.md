# Funderberker kernel memory core in Dafny

This project models the memory-management core of the Funderberker x86-64 kernel, together with
the small data structures and bit-level helpers that core relies on. Each part is proved against
a specification:

- **Buddy allocator.** A buddy physical memory manager keeps `zones[i]`, a free list of blocks
  of 2^i pages for each order `i`.
  - `allocate` and `allocate_at` take a block of a large enough zone and split it with
    `disband`.
  - `free` merges a block with its free buddy in `coalesce`.
  - `break_into_buckets_n_free` cuts a page range into the largest aligned blocks that fit and
    frees them.
- **Slab allocator.** For one object layout it keeps free, partial and full slab lists and a
  free-object list inside each slab. It moves slabs between the lists as objects are handed out
  and returned, and it reports misaligned, out-of-range and double frees.
- **Bump allocator.** This is the kernel's bitmap page allocator, with one bit per page.
- **Lists.** `StackList` is the singly linked LIFO list both allocators use. `LinkedList` is a
  doubly linked list.
- **Bitmap and ID allocators.** `Bitmap` is a byte-vector bitmap. `IdHander` is a bump
  allocator of IDs. `IdTracker` is a bitmap allocator of IDs.
- **Bit-level helpers.**
  - The kernel heap's choice of size class for a layout.
  - Page-table entry flags.
  - The EDX:EAX split of MSR values and the EFER constants.
  - The APIC timer divisor encoding.
- **Constant scheduler.** It has a single slot.

Pointers and physical addresses are natural numbers. The list structures keep their nodes in an
arena, a `seq` of nodes addressed by index, and a ghost spine lists the indices reachable from
the head in list order.

Code that changes state in place becomes a class whose methods have `modifies` clauses:
- the buddy zones;
- the slab lists;
- the list heads and links;
- the bitmap bytes;
- the bump page bits;
- the ID state;
- the scheduler slot.

Every method is proved to compute its value or state exactly as a specification function of the
old state does. The allocators' guarantees are then proved about those functions:
- page conservation;
- alignment;
- no overlapping free blocks;
- distinct and aligned live objects;
- which error each bad request gets;
- round trips.

The pure helpers (flags, MSR, timer divisor, heap index) are functions with lemmas. A panic in
the source (`unreachable!()`, `unwrap`, an assertion, arithmetic overflow) is either a
precondition of the method or a `None` result of the specification function. In the second
case, lemmas show when it cannot happen.

Integers are unbounded. `usize` limits appear only where the source checks them, such as
`checked_next_power_of_two` (`Buddy.CheckedOrder`, capped at 2^63 pages) and the `u64` values
of the bit-level helpers (`bv64`).

## Model

| member | source | states |
|---|---|---|
| Common.DivCeil | slab/src/internal.rs:75 | `usize::div_ceil`: the least count of `b`-sized units covering `a` (r*b >= a, and one fewer unit does not cover it) |
| Common.PadToAlign | slab/src/internal.rs:100 | `Layout::pad_to_align`: the size rounded up to the next multiple of the alignment, less than one alignment above the size |
| Buddy.BlockSizes | pmm/src/buddy.rs:151 | a block of zone `i` is 2^i basic pages (`MIN_ZONE_LEVEL` = log2 of 4 KiB), and the next zone's blocks are twice as large |
| Buddy.BlockSizeDivides | pmm/src/buddy.rs:251-260 | a block size divides every larger block size |
| Buddy.AlignedBelow | pmm/src/buddy.rs:251-260 | an address aligned to a zone's block size is aligned to every smaller zone's |
| Buddy.BuddyAbove | pmm/src/buddy.rs:251-260 | a block aligned to the next zone has its buddy exactly one block size above it, and the buddy of the buddy is the block |
| Buddy.BuddyBelow | pmm/src/buddy.rs:251-260 | a block not aligned to the next zone has its buddy exactly one block size below it, aligned to the next zone |
| Buddy.BuddyArith | pmm/src/buddy.rs:251-269 | the buddy is the neighbouring block of the same size (above exactly when the block is aligned to the next zone), buddy-of-buddy is the identity, and the merged block starts at the lower of the two and is aligned to the next zone |
| Buddy.BuddyHalves | pmm/src/buddy.rs:251-269 | a block and its buddy are the two non-overlapping halves of the block they merge into |
| Buddy.GetBuddyAddr | pmm/src/buddy.rs:251-260 | `get_buddy_addr`: for an address aligned to the zone's block size (the source's assert is the requires), the block one size above when the address is aligned to twice the size, else one size below; BuddyAbove, BuddyBelow and BuddyArith prove it is the other half of the same next-zone block and an involution |
| Buddy.NextBucketAddr | pmm/src/buddy.rs:267-269 | `determine_next_bucket_addr`: the lower of the two buddies; BuddyArith and BuddyHalves prove it is the start of the merged block, aligned to the next zone |
| Buddy.PopFromZoneSpec | pmm/src/buddy.rs:274-278 | `pop_from_zone`: zone `i` loses exactly the node at position `k`, and every other zone is unchanged |
| Buddy.PushToZoneSpec | pmm/src/buddy.rs:281-288 | `push_to_zone`: the block goes on top of zone `i`, and every other zone is unchanged |
| Buddy.PushAligned | pmm/src/buddy.rs:281-288 | pushing a block aligned to its zone keeps every zone aligned |
| Buddy.PopAligned | pmm/src/buddy.rs:274-278 | popping a block keeps every zone aligned |
| Buddy.PushDisjoint | pmm/src/buddy.rs:281-288 | pushing a block that overlaps no free block keeps the free blocks pairwise disjoint |
| Buddy.PopDisjoint | pmm/src/buddy.rs:274-278 | popping keeps the free blocks disjoint, and the popped block overlaps none of those left |
| Buddy.FirstAligned | pmm/src/buddy.rs:175-178 | the position of the first block of a zone aligned to the requested byte alignment; None exactly when no block is |
| Buddy.FirstHolding | pmm/src/buddy.rs:86-93 | the position of the first block of a zone that holds the address; None exactly when none does |
| Buddy.IndexOf | pmm/src/buddy.rs:229-238 | the first position of the buddy in a zone; None exactly when it is not free |
| Buddy.CheckedOrder | pmm/src/buddy.rs:60-64 | `checked_next_power_of_two` then `ilog2`: the least order whose block holds the count, never above `usize::MAX` pages; overflow is NoAvailableBlock |
| Buddy.CheckedOrderOfPow2 | pmm/src/buddy.rs:104-108 | rounding a count twice (as `free` hands its rounded count to `is_page_free`) changes nothing |
| Buddy.CheckedOrderBound | pmm/src/buddy.rs:852-860 | rounding fails exactly for counts above 2^63 pages, so `usize::MAX` pages overflows |
| Buddy.PopPages | pmm/src/buddy.rs:274-278 | popping a block of zone `i` removes exactly 2^i free pages |
| Buddy.PushPages | pmm/src/buddy.rs:281-288 | pushing a block onto zone `i` adds exactly 2^i free pages |
| Buddy.PagesFromUpdate | pmm/src/buddy.rs:274-288 | replacing one zone's list changes the free page total by the difference in that zone alone |
| Buddy.FindAlignedBlock | pmm/src/buddy.rs:165-186 | the first zone from `start` up, and the position in it, of a block aligned as asked; None exactly when no such zone has one |
| Buddy.FindHoldingBlock | pmm/src/buddy.rs:192-210 | the first zone from `start` up, and the position in it, of a block holding the address; None exactly when none does |
| Buddy.FindBucketSpec | pmm/src/buddy.rs:165-186 | `find_bucket`: takes the first block from the start zone up that is aligned to the requested number of pages, and returns it with its zone, or NoAvailableBlock with the zones unchanged; FirstAligned/FindAlignedBlock characterise the choice and BuddyAllocator.FindBucket is proved equal to it |
| Buddy.FindBucketAtSpec | pmm/src/buddy.rs:192-210 | `find_bucket_at`: takes the first block from the start zone up that holds the address, or NoAvailableBlock with the zones unchanged; FindHoldingBlock characterises the choice and BuddyAllocator.FindBucketAt is proved equal to it |
| Buddy.DisbandSpec | pmm/src/buddy.rs:214-221 | `disband` leaves as many zones as before |
| Buddy.DisbandPages | pmm/src/buddy.rs:214-221 | splitting from zone `i` up to zone `used` turns a block of 2^used pages into free halves plus the kept 2^i pages: the free total grows by 2^used - 2^i |
| Buddy.DisbandAligned | pmm/src/buddy.rs:214-221 | the halves `disband` frees are aligned to their zones |
| Buddy.DisbandDisjoint | pmm/src/buddy.rs:214-221 | the halves `disband` frees overlap no free block, each other or the kept block |
| Buddy.DisbandBelow | pmm/src/buddy.rs:214-221 | the halves `disband` frees lie inside the block it splits |
| Buddy.CoalesceSpec | pmm/src/buddy.rs:225-244 | `coalesce` keeps the number of zones, or reaches the `unreachable!()` (None) past the top zone |
| Buddy.CoalescePages | pmm/src/buddy.rs:225-244 | coalescing a block of 2^i pages adds exactly 2^i free pages, however far it merges |
| Buddy.CoalesceAligned | pmm/src/buddy.rs:225-244 | coalescing keeps every free block aligned to its zone |
| Buddy.CoalesceDisjoint | pmm/src/buddy.rs:225-244 | coalescing a block that no free block overlaps keeps the free blocks pairwise disjoint |
| Buddy.CoalesceApart | pmm/src/buddy.rs:225-244 | coalescing a block apart from a range keeps all free blocks apart from that range |
| Buddy.CoalesceBelow | pmm/src/buddy.rs:225-244 | coalescing a block below a limit keeps every free block below it |
| Buddy.CoalesceNoPanic | pmm/src/buddy.rs:225-244 | the `unreachable!()` is never reached while the free blocks and the freed block lie below 2^|zones| pages |
| Buddy.TopBuddyNotFree | pmm/src/buddy.rs:241-243 | in the top zone, below that limit, the buddy of a block is never free, so the merge stops there |
| Buddy.IsPageFreeSpec | pmm/src/buddy.rs:73-97 | an `Ok` answer of `is_page_free` comes only for a non-zero count whose rounding succeeds and an address aligned to the rounded block |
| Buddy.IsPageFreeRefusals | pmm/src/buddy.rs:74-84 | `is_page_free` returns EmptyAllocation exactly for 0 pages, NoAvailableBlock exactly for an overflowing rounding, and InvalidAlignment exactly for an address not aligned to the rounded block |
| Buddy.IsPageFreeCovers | pmm/src/buddy.rs:86-96 | `is_page_free` is true exactly when some free block of the rounded zone or above holds the address, and then the whole requested block lies inside that free block |
| Buddy.IsPageFreeRounded | pmm/src/buddy.rs:104-108 | `is_page_free` gives the same answer for a count and for its rounded count |
| Buddy.AllocateSpec | pmm/src/buddy.rs:55-71 | `allocate`: EmptyAllocation for zero pages, the rounding error, NoAvailableBlock when no aligned block of a large enough zone exists, otherwise that block split down to the rounded size; its properties are AllocateRefusals, AllocateGrant, AllocateDisjoint and AllocateThenFree |
| Buddy.AllocateAtSpec | pmm/src/buddy.rs:33-53 | `allocate_at`: EmptyAllocation, the rounding error, InvalidAlignment, NoAvailableBlock when no block holds the address, otherwise the holding block split around the request; its properties are AllocateAtRefusals, AllocateAtGrant, AllocateAtDisjoint and AllocateAtFound |
| Buddy.FreeSpec | pmm/src/buddy.rs:99-117 | `free`: EmptyFree, the errors of `is_page_free` on the rounded count, FreeOfAlreadyFree when a free block holds the address, otherwise the coalesce, with None for the `unreachable!()`; its properties are FreeRefusals, FreeGrant, FreeDisjoint, FreeNoPanic and FreeBuddiesMerge |
| Buddy.AllocateRefusals | pmm/src/buddy.rs:55-71 | `allocate` returns EmptyAllocation exactly for 0 pages, and NoAvailableBlock exactly when the rounding overflows or no zone at or above the rounded one has a suitably aligned block; a refusal changes no zone |
| Buddy.AllocateGrant | pmm/src/buddy.rs:55-71 | a granted `allocate` returns a multiple of `BASIC_PAGE_SIZE * alignment` aligned to its own rounded size; exactly 2^order pages leave the free total; the zones stay aligned |
| Buddy.AllocateDisjoint | pmm/src/buddy.rs:55-71 | `allocate` keeps the free blocks disjoint and below the memory limit, and no free block overlaps the block it hands out |
| Buddy.AllocateAtRefusals | pmm/src/buddy.rs:33-53 | `allocate_at` returns EmptyAllocation for 0 pages, NoAvailableBlock for an overflowing rounding or when no free block holds the address, and InvalidAlignment for an address not aligned to the rounded block; a refusal changes nothing |
| Buddy.AllocateAtGrant | pmm/src/buddy.rs:33-53 | a granted `allocate_at` removes exactly the rounded page count from the free total and keeps the zones aligned |
| Buddy.AllocateAtDisjoint | pmm/src/buddy.rs:33-53 | `allocate_at` keeps the free blocks disjoint and below the limit, and no free block overlaps the reserved block afterwards |
| Buddy.AllocateAtFound | pmm/src/buddy.rs:33-53 | a granted `allocate_at` found a free block holding the address in a zone at or above the rounded one and split it |
| Buddy.ReserveInside | pmm/src/buddy.rs:47-50 | splitting the free block that holds the address around the requested block keeps the zones disjoint and below the limit, and leaves the requested block apart from every free block |
| Buddy.FreeRefusals | pmm/src/buddy.rs:99-110 | `free` returns EmptyFree for 0 pages, passes on what `is_page_free` refuses, and returns FreeOfAlreadyFree for a block a free block already holds; each refusal leaves the zones unchanged |
| Buddy.FreeGrant | pmm/src/buddy.rs:99-117 | a successful `free` found the block not free, adds exactly the rounded page count to the free total, and keeps the zones aligned |
| Buddy.FreeFound | pmm/src/buddy.rs:112-114 | a successful `free` is the coalescing of the block at its rounded zone |
| Buddy.FreeDisjoint | pmm/src/buddy.rs:99-117 | freeing a block that no free block overlaps keeps the free blocks disjoint and below the limit |
| Buddy.FreeNoPanic | pmm/src/buddy.rs:99-117 | `free` never panics while memory and the freed block lie below 2^|zones| pages |
| Buddy.ApartNotFree | pmm/src/buddy.rs:86-96 | `is_page_free` answers false for a block that no free block overlaps |
| Buddy.FreeAccepts | pmm/src/buddy.rs:108-116 | `free` accepts a block `is_page_free` reports not free, unless it panics |
| Buddy.AllocateThenFree | pmm/src/buddy.rs:546-564 | freeing what `allocate` handed out is accepted, does not panic, and restores the free page total; the zones stay aligned, disjoint and below the limit |
| Buddy.FreeLowerBuddy | pmm/src/buddy.rs:225-244 | freeing the lower half of an unused block while its zone is empty pushes just that half |
| Buddy.FreeUpperBuddy | pmm/src/buddy.rs:225-244 | then freeing its buddy merges the two into one block of the next zone, leaving the lower zone empty |
| Buddy.FreeByCoalesce | pmm/src/buddy.rs:108-116 | an accepted `free` equals the coalescing of its block |
| Buddy.UpperCoalesce | pmm/src/buddy.rs:225-244 | coalescing the upper buddy with the lower one, alone on its zone, takes the lower one out and pushes the merged block |
| Buddy.UpperIsPageFree | pmm/src/buddy.rs:73-97 | the upper buddy is reported not free after only the lower half is pushed |
| Buddy.FreeBuddiesMerge | pmm/src/buddy.rs:225-244 | freeing both halves of an unused block, one after the other, is accepted twice and leaves exactly the merged block on the next zone |
| Buddy.LargestFit | pmm/src/buddy.rs:295-303 | the zone the break loop picks: the largest order below the zone count to which the page is aligned and which the remaining pages fill; None exactly when none fits |
| Buddy.BreakStep | pmm/src/buddy.rs:295-311 | one round of the break loop strictly shrinks the remaining page count |
| Buddy.BreakStepGrant | pmm/src/buddy.rs:295-311 | one round frees exactly the pages it moves past and keeps the zones aligned |
| Buddy.BreakFrom | pmm/src/buddy.rs:293-311 | the `while` loop of `break_into_buckets_n_free` from a page with a number of pages left, one BreakStep per round, None for a panic; BreakFromGrant and BreakFromSafe prove its page count and that it never panics on an unfree range |
| Buddy.BreakSpec | pmm/src/buddy.rs:290-312 | `break_into_buckets_n_free`: the loop from the page of the address; BreakSafe proves it adds exactly the range's pages as aligned, disjoint blocks without a panic |
| Buddy.BreakFromGrant | pmm/src/buddy.rs:290-312 | a break that does not panic adds exactly the range's page count to the free total and keeps the zones aligned |
| Buddy.BreakBlock | pmm/src/buddy.rs:295-308 | a block a round frees is aligned to its size, within the remaining range, and the next round starts right after it |
| Buddy.BreakFreeSafe | pmm/src/buddy.rs:306-308 | the `free(..).unwrap()` of a round over a range no free block overlaps succeeds and keeps the free blocks disjoint, below the limit, and apart from the rest of the range |
| Buddy.BreakFreeAccepted | pmm/src/buddy.rs:306-308 | that `free` is accepted and does not panic |
| Buddy.BreakFreeKeeps | pmm/src/buddy.rs:306-308 | the zones that `free` leaves are disjoint, below the limit, and apart from the rest of the range |
| Buddy.FreeRestApart | pmm/src/buddy.rs:306-308 | freeing the block leaves the free blocks apart from the range that follows it |
| Buddy.CoalescedRestApart | pmm/src/buddy.rs:225-244 | coalescing a block keeps the free blocks apart from the range adjacent to it |
| Buddy.CoalescedApart | pmm/src/buddy.rs:225-244 | coalescing a block apart from a range keeps that range apart from the result |
| Buddy.BreakStepSafe | pmm/src/buddy.rs:295-311 | a round over an unfree range below the limit finds a fitting zone, does not panic, and keeps the free blocks disjoint and the rest of the range apart |
| Buddy.BreakFromSafe | pmm/src/buddy.rs:290-312 | the whole break loop over such a range never panics and leaves disjoint free blocks below the limit |
| Buddy.BreakSafe | pmm/src/buddy.rs:290-312 | `break_into_buckets_n_free` over pages none of which is free does not panic, and leaves aligned, non-overlapping free blocks holding exactly `total` more pages |
| Buddy.BreakRound | pmm/src/buddy.rs:293-311 | a break that does not panic takes a non-panicking first round, and goes on from where that round leaves off |
| Buddy.BreakStepShape | pmm/src/buddy.rs:295-311 | a round frees 2^i pages at the current page, with `i` the zone `LargestFit` picks, and advances the page and the remaining count by 2^i |
| Buddy.ZonesCount | pmm/src/buddy.rs:321-325 | `ilog2(total_page_count) + 1`: the one zone count with 2^(n-1) <= total pages < 2^n |
| Buddy.ZonesCountCovers | pmm/src/buddy.rs:321-325 | with that many zones, all memory lies below the block size one zone past the top, the limit the no-panic lemmas need |
| Buddy.FindAligned | pmm/src/buddy.rs:173-178 | the `find` over a zone's nodes in `find_bucket` returns the first aligned position |
| Buddy.FindHolding | pmm/src/buddy.rs:199-203 | the `find` over a zone's nodes in `find_bucket_at` and `is_page_free` returns the first holding position |
| Buddy.Find | pmm/src/buddy.rs:229-233 | the `find` over a zone's nodes in `coalesce` returns the first position of the buddy |
| Buddy.IndexOfStep | pmm/src/buddy.rs:229-233 | a position that does not hold the value moves the search one step on |
| Buddy.FindFit | pmm/src/buddy.rs:295-303 | the reversed inner loop of `break_into_buckets_n_free` returns exactly the zone `LargestFit` picks |
| Buddy.BuddyAllocator.New | pmm/src/buddy.rs:349-357 | `create_zones`: `zones_count` empty zones |
| Buddy.BuddyAllocator.PopFromZone | pmm/src/buddy.rs:274-278 | the zones become `PopFromZoneSpec` of the old zones |
| Buddy.BuddyAllocator.PushToZone | pmm/src/buddy.rs:281-288 | the zones become `PushToZoneSpec` of the old zones |
| Buddy.BuddyAllocator.FindBucket | pmm/src/buddy.rs:165-186 | the loop over the zones returns and takes the block `FindBucketSpec` picks, and returns NoAvailableBlock when there is none |
| Buddy.BuddyAllocator.FindBucketAt | pmm/src/buddy.rs:192-210 | the loop over the zones returns and takes the block `FindBucketAtSpec` picks, and returns NoAvailableBlock when there is none |
| Buddy.BuddyAllocator.Disband | pmm/src/buddy.rs:214-221 | the loop leaves the zones `DisbandSpec` gives |
| Buddy.BuddyAllocator.Coalesce | pmm/src/buddy.rs:225-244 | the loop leaves the zones `CoalesceSpec` gives |
| Buddy.BuddyAllocator.IsPageFree | pmm/src/buddy.rs:73-97 | the nested loops return exactly `IsPageFreeSpec`, and change nothing |
| Buddy.BuddyAllocator.Allocate | pmm/src/buddy.rs:55-71 | result and new zones are `AllocateSpec` of the old zones; the zones stay aligned |
| Buddy.BuddyAllocator.AllocateAt | pmm/src/buddy.rs:33-53 | result and new zones are `AllocateAtSpec` of the old zones; the zones stay aligned |
| Buddy.BuddyAllocator.Free | pmm/src/buddy.rs:99-117 | result and new zones are `FreeSpec` of the old zones; the zones stay aligned |
| Buddy.BuddyAllocator.BreakIntoBucketsNFree | pmm/src/buddy.rs:290-312 | the loop leaves the zones `BreakSpec` gives; the zones stay aligned |
| Slabs.PagesPerSlabFits | slab/src/internal.rs:66-86 | a slab has at least one page, and room for one object plus the embedded slab node, using at most one page more than the object needs |
| Slabs.ObjPerSlabBounds | slab/src/internal.rs:89-92 | `obj_per_slab` is at least 1 and is exactly the number of objects that fit beside the slab node |
| Slabs.PagesPerSlab | slab/src/internal.rs:66-86 | `pages_per_slab`: 0 for a zero-sized layout, otherwise the fewest pages holding the object, plus one when the leftover is smaller than the 32-byte slab node; PagesPerSlabFits proves there is room for an object and the node |
| Slabs.ObjPerSlab | slab/src/internal.rs:89-92 | `obj_per_slab`: the objects that fit in the slab's pages once the node is set aside; ObjPerSlabBounds proves it is the exact count and at least 1 |
| Slabs.SlabNodeFits | slab/src/internal.rs:226-237 | the slab node, placed after the objects at the next 8-byte boundary, fits in the slab (the `sanity_assert!` of `cache_grow` holds) |
| Slabs.SlabSizeAligned | slab/src/internal.rs:108-111 | the alignment assertion of `new` holds for every power-of-two alignment up to a page |
| Slabs.NewConfig | slab/src/internal.rs:98-127 | `new`: the padded object size, and a slab geometry that passes every assertion of the constructor |
| Slabs.ObjectAt | slab/src/internal.rs:261-269 | the i-th object of a slab lies in its range (`is_in_range`) |
| Slabs.InRange | slab/src/internal.rs:261-269 | `is_in_range`: the pointer lies in the object area of the slab, from its buffer up to obj_per_slab times the object size; ObjectAt proves every object of the slab is in range |
| Slabs.ObjectAligned | slab/src/internal.rs:131-158 | every object of a page-aligned slab is aligned to the object alignment |
| Slabs.SlabObjects | slab/src/internal.rs:276-294 | the free list `Slab::new` builds: every object once, the last object on top |
| Slabs.NewSlabOk | slab/src/internal.rs:276-294 | a new slab's free list holds every object of the slab exactly once |
| Slabs.SlabAllocate | slab/src/internal.rs:297-302 | `Slab::allocate` pops the top free object, or reports SlabFullInternalError on an empty list and changes nothing |
| Slabs.SlabFree | slab/src/internal.rs:308-321 | `Slab::free` reports DoubleFree exactly for a pointer already on the free list and changes nothing; otherwise the pointer goes on top |
| Slabs.FirstInRange | slab/src/internal.rs:170-192 | the first slab of a list whose range holds the pointer; None exactly when none does |
| Slabs.LivePop | slab/src/internal.rs:297-302 | taking the top free object makes exactly that object live, and it was not live before |
| Slabs.LivePush | slab/src/internal.rs:308-321 | returning a live object to its slab makes exactly that object not live |
| Slabs.GrowInv | slab/src/internal.rs:215-255 | `cache_grow` with a fresh buffer keeps the invariant, adds exactly one free slab, and changes no live object |
| Slabs.CacheGrowSpec | slab/src/internal.rs:215-255 | `cache_grow`: a null page pointer is PageAllocationError with no change, otherwise a new slab with every object free is pushed onto the free list; GrowInv proves it keeps Inv and adds no live object |
| Slabs.AllocateSpec | slab/src/internal.rs:131-158 | `allocate`: from the top partial slab, else from the top free slab (growing the cache first when there is none), moving slabs between lists as they fill; AllocateInv proves it keeps Inv, when it fails, and that a grant is a new aligned object |
| Slabs.AllocPartialInv | slab/src/internal.rs:133-142 | allocating from a partial slab with a free object keeps the invariant and hands out a new aligned object, moving the slab to the full list once it has no free object |
| Slabs.AllocFromFreeInv | slab/src/internal.rs:149-155 | allocating from the top free slab keeps the invariant, hands out a new aligned object, and moves the slab to the partial list |
| Slabs.AllocFreeInv | slab/src/internal.rs:144-155 | with no usable partial slab, allocation fails only when there is no free slab and the page source returns a null pointer, and that error is PageAllocationError (an error from the page allocator itself panics in `unwrap` and is not modelled) |
| Slabs.AllocateInv | slab/src/internal.rs:131-158 | `allocate` keeps the invariant; it fails only when no partial slab has an object, no free slab exists and the page source returns a null pointer (PageAllocationError); a granted object was not live, becomes live alone, and is aligned |
| Slabs.PartialReturnedInv | slab/src/internal.rs:171-180 | returning a live object to a partial slab keeps the invariant and makes exactly that object not live; the slab moves to the free list when all its objects are back |
| Slabs.FullReturnedInv | slab/src/internal.rs:184-190 | returning a live object to a full slab keeps the invariant, makes exactly that object not live, and moves the slab to the partial list |
| Slabs.FreeAsWrittenInv | slab/src/internal.rs:164-196 | `free` as written keeps the invariant and changes nothing when it fails; BadPtrAlignment exactly for a misaligned pointer; BadPtrRange exactly when no partial or full slab holds an aligned pointer; success frees exactly that live object |
| Slabs.FreeSpecAsWritten | slab/src/internal.rs:164-196 | `free` as written: BadPtrAlignment, then the first partial slab and then the first full slab whose range holds the pointer takes it back, BadPtrRange otherwise; FreeAsWrittenInv proves its error cases and DoubleFreeMissed shows the missed double free |
| Slabs.FreeInv | slab/src/internal.rs:164-196 | the corrected `free` also keeps the invariant and changes nothing on failure, with the same BadPtrAlignment, BadPtrRange and DoubleFree conditions extended to free slabs |
| Slabs.FreeSpec | slab/src/internal.rs:164-196 | the corrected `free`: as written, but a pointer inside a slab on the free list is DoubleFree; FreeInv and FreeTwice prove its properties |
| Slabs.FreeTwice | slab/src/internal.rs:600-616 | freeing the same pointer a second time reports DoubleFree and changes nothing |
| Slabs.ReapInv | slab/src/internal.rs:200-212 | `reap` keeps the invariant, releases exactly the free slabs, and leaves partial and full slabs and their free lists untouched |
| Slabs.ReapLive | slab/src/internal.rs:200-212 | `reap` releases no live object |
| Slabs.ReapSpec | slab/src/internal.rs:200-212 | `reap`: the free list is emptied and its slabs leave the slab map; ReapInv and ReapLive prove it keeps Inv and releases no live object |
| Slabs.FirstAllocation | slab/src/internal.rs:442-452 | the first allocation from a fresh allocator grows the cache and hands out the slab's top object |
| Slabs.FirstFree | slab/src/internal.rs:442-452 | freeing that object makes its slab completely free, so it is on the free list |
| Slabs.SecondFree | slab/src/internal.rs:170-195 | a slab on the free list is invisible to `free` as written: an object of it is BadPtrRange |
| Slabs.DoubleFreeMissed | slab/src/internal.rs:164-196 | for every layout, allocate, free, then free again gives BadPtrRange, not DoubleFree, under the source's `free` |
| Slabs.LiveSafe | slab/src/internal.rs:160-164 | a live object is a pointer `free` may be given: aligned, and held only by its own slab |
| Slabs.AllocThenFree | slab/src/internal.rs:442-452 | freeing what `allocate` just handed out succeeds and restores the set of live objects |
| Slabs.AllocTwiceDistinct | slab/src/internal.rs:455-474 | two successive allocations hand out different objects |
| Slabs.NewSlab | slab/src/internal.rs:276-294 | the loop of `Slab::new` builds exactly `SlabObjects` |
| Slabs.FindInRange | slab/src/internal.rs:170-192 | the enumerate loops of `free` find exactly `FirstInRange` |
| Slabs.InternalSlabAllocator.New | slab/src/internal.rs:98-127 | the configuration is `NewConfig` of the layout and all three lists are empty |
| Slabs.InternalSlabAllocator.CacheGrow | slab/src/internal.rs:215-255 | result and state are `CacheGrowSpec`; the invariant holds and no live object changes |
| Slabs.InternalSlabAllocator.Allocate | slab/src/internal.rs:131-158 | result and state are `AllocateSpec`; the invariant holds and a granted object becomes live alone |
| Slabs.InternalSlabAllocator.FreeAsWritten | slab/src/internal.rs:164-196 | result and state are `FreeSpecAsWritten`; the invariant holds |
| Slabs.InternalSlabAllocator.FreeIntoPartial | slab/src/internal.rs:170-180 | the partial-list branch of `free` gives `FreeSpecAsWritten` |
| Slabs.InternalSlabAllocator.FreeIntoFull | slab/src/internal.rs:183-191 | the full-list branch of `free` gives `FreeSpecAsWritten` |
| Slabs.InternalSlabAllocator.Free | slab/src/internal.rs:164-196 | result and state are the corrected `FreeSpec`; the invariant holds and a success frees exactly that live object |
| Slabs.InternalSlabAllocator.Reap | slab/src/internal.rs:200-212 | the state becomes `ReapSpec`; the released pages are exactly the free slabs, in pop order; no live object changes |
| StackLists.ReverseIndex | utils/src/collections/stacklist.rs:268-275 | element `k` of the reversal is element `len - 1 - k` of the input |
| StackLists.ReverseReverse | utils/src/collections/stacklist.rs:268-275 | reversing twice is the identity |
| StackLists.FilterAppend | utils/src/collections/stacklist.rs:278-294 | filtering distributes over concatenation, so the kept elements keep their relative order |
| StackLists.FilterMembers | utils/src/collections/stacklist.rs:278-294 | an element is kept exactly when it occurs in the list and satisfies the predicate |
| StackLists.FilterIdempotent | utils/src/collections/stacklist.rs:278-294 | retaining twice with the same predicate keeps what retaining once keeps |
| StackLists.RetainExample | utils/src/collections/stacklist.rs:580-586 | the retain test: 1..5 pushed, then even elements kept, gives 4, 2 top first |
| StackLists.IntoVecInsertionOrder | utils/src/collections/stacklist.rs:268-275 | pushing a sequence and then `into_vec` gives back the sequence in insertion order |
| StackLists.UnlinkTop | utils/src/collections/stacklist.rs:130-136 | unlinking the top node leaves the rest linked from its link |
| StackLists.UnlinkAfter | utils/src/collections/stacklist.rs:165-171 | unlinking the node at position m > 0 by giving its link to its predecessor leaves the rest linked, in order |
| StackLists.UpdateOffList | utils/src/collections/stacklist.rs:110-116 | writing a node that is not on the list does not change the list |
| StackLists.StackList.New | utils/src/collections/stacklist.rs:97-99 | an empty list |
| StackLists.StackList.NewNode | utils/src/collections/stacklist.rs:56-58 | `Node::new`: a fresh node with the data and no link, allocated off the list, which is unchanged |
| StackLists.StackList.PushNode | utils/src/collections/stacklist.rs:110-116 | the node becomes the new top, and the contents gain its data in front |
| StackLists.StackList.Push | utils/src/collections/stacklist.rs:103-107 | the data becomes the top element (so `peek` returns it and `len` grows by one) |
| StackLists.StackList.PopNode | utils/src/collections/stacklist.rs:130-136 | the top node is unlinked and returned; None and no change on an empty list |
| StackLists.StackList.Pop | utils/src/collections/stacklist.rs:120-127 | returns the top element and removes it (LIFO); None on an empty list |
| StackLists.StackList.Peek | utils/src/collections/stacklist.rs:141-143 | the top element, or None on an empty list |
| StackLists.StackList.Len | utils/src/collections/stacklist.rs:214-216 | the number of elements |
| StackLists.StackList.IsEmpty | utils/src/collections/stacklist.rs:207-209 | testing `head` agrees with the contents being empty and with `len == 0` |
| StackLists.StackList.Get | utils/src/collections/stacklist.rs:177-188 | the element `index` places from the top, or None when `index >= len` |
| StackLists.StackList.GetMut | utils/src/collections/stacklist.rs:191-202 | the node at position `index`, or None when `index >= len` |
| StackLists.StackList.Write | utils/src/collections/stacklist.rs:191-202 | a write through `get_mut` changes exactly element `index` |
| StackLists.StackList.RemoveAt | utils/src/collections/stacklist.rs:152-174 | None with no change when `index >= len`; otherwise the node at `index` is unlinked and returned and the other elements keep their order |
| StackLists.StackList.Unlink | utils/src/collections/stacklist.rs:130-136 | the link that pointed at the node takes its successor: exactly that element leaves, and no node's data changes |
| StackLists.StackList.UnlinkFromHead | utils/src/collections/stacklist.rs:130-133 | `head` takes the top node's link |
| StackLists.StackList.UnlinkFromNode | utils/src/collections/stacklist.rs:165-171 | the predecessor takes the node's link |
| StackLists.StackList.Retain | utils/src/collections/stacklist.rs:278-294 | the contents become exactly the elements satisfying the predicate, in their original order |
| StackLists.StackList.RetainStep | utils/src/collections/stacklist.rs:284-292 | one round of the `retain` loop keeps the loop invariant one position further on |
| StackLists.StackList.DropNode | utils/src/collections/stacklist.rs:289-291 | a node dropped by `retain` leaves the list and the rest keep their order |
| StackLists.StackList.Iterate | utils/src/collections/stacklist.rs:226-232 | `iter` starts at the top with `len` elements to yield |
| StackLists.StackList.IterNext | utils/src/collections/stacklist.rs:308-320 | `next` yields None once nothing remains, and otherwise counts one element off |
| StackLists.StackList.IterNextAt | utils/src/collections/stacklist.rs:308-320 | after `k` steps the next step yields element `k`, and after `len` steps it yields None |
| StackLists.StackList.Collect | utils/src/collections/stacklist.rs:226-232 | iterating yields exactly the elements top first, `len` of them |
| StackLists.StackList.Clear | utils/src/collections/stacklist.rs:219-221 | the list becomes empty |
| StackLists.StackList.IntoVec | utils/src/collections/stacklist.rs:268-275 | the vector is the contents reversed, that is in insertion order, and the list is emptied |
| StackLists.StackList.Extend | utils/src/collections/stacklist.rs:453-467 | the elements are pushed in order, so the last one is on top |
| StackLists.RetainAt | utils/src/collections/stacklist.rs:284-292 | keeping or dropping element `k` of the retain walk gives the loop state at `k + 1` |
| LinkedLists.LinkFrontOk | utils/src/collections/linkedlist.rs:153-165 | linking a node in front gives a doubly linked list one longer, with its data first |
| LinkedLists.LinkBackOk | utils/src/collections/linkedlist.rs:171-183 | linking a node behind gives a doubly linked list one longer, with its data last |
| LinkedLists.UnlinkOk | utils/src/collections/linkedlist.rs:224-250 | unlinking the node at position m leaves the others doubly linked in order, and the node detached with its data |
| LinkedLists.UnlinkData | utils/src/collections/linkedlist.rs:224-250 | unlinking removes exactly element m from the contents |
| LinkedLists.UnlinkedKeepsData | utils/src/collections/linkedlist.rs:236-246 | unlinking changes only links, never data |
| LinkedLists.LinkedList.New | utils/src/collections/linkedlist.rs:39-46 | an empty list |
| LinkedLists.LinkedList.NewNode | utils/src/collections/linkedlist.rs:21-27 | `Node::new`: a fresh detached node with the data, allocated off the list, which is unchanged |
| LinkedLists.LinkedList.Len | utils/src/collections/linkedlist.rs:49-51 | the number of elements |
| LinkedLists.LinkedList.IsEmpty | utils/src/collections/linkedlist.rs:54-56 | `len == 0` exactly when the contents are empty, exactly when `head` is None, exactly when `tail` is None |
| LinkedLists.LinkedList.Front | utils/src/collections/linkedlist.rs:63-65 | the first element, or None on an empty list |
| LinkedLists.LinkedList.Back | utils/src/collections/linkedlist.rs:72-74 | the last element, or None on an empty list |
| LinkedLists.LinkedList.PushNodeFront | utils/src/collections/linkedlist.rs:153-165 | the node becomes the front |
| LinkedLists.LinkedList.PushFront | utils/src/collections/linkedlist.rs:81-96 | the data becomes the front element, so `front` returns it and `len` grows by one |
| LinkedLists.LinkedList.PushNodeBack | utils/src/collections/linkedlist.rs:171-183 | the node becomes the back |
| LinkedLists.LinkedList.PushBack | utils/src/collections/linkedlist.rs:98-113 | the data becomes the back element, so `back` returns it and `len` grows by one |
| LinkedLists.LinkedList.PopNodeFront | utils/src/collections/linkedlist.rs:187-202 | the front node is unlinked and returned detached; None on an empty list |
| LinkedLists.LinkedList.PopFront | utils/src/collections/linkedlist.rs:116-130 | returns and removes the first element (FIFO after `push_back`); None on an empty list |
| LinkedLists.LinkedList.PopNodeBack | utils/src/collections/linkedlist.rs:206-221 | the back node is unlinked and returned detached; None on an empty list |
| LinkedLists.LinkedList.PopBack | utils/src/collections/linkedlist.rs:133-147 | returns and removes the last element, the last one pushed at the back; None on an empty list |
| LinkedLists.LinkedList.RemoveAtNode | utils/src/collections/linkedlist.rs:224-250 | None with no change when `index >= len`; otherwise node `index` is unlinked and returned detached, `len` drops by one, and the others keep their order |
| LinkedLists.LinkedList.Iterate | utils/src/collections/linkedlist.rs:253-259 | `iter` starts at the front with `len` elements to come |
| LinkedLists.LinkedList.IterNext | utils/src/collections/linkedlist.rs:298-308 | `next` yields None once nothing remains, and otherwise counts one element off |
| LinkedLists.LinkedList.IterNextAt | utils/src/collections/linkedlist.rs:298-308 | after `k` steps the next step yields element `k`, and after `len` steps it yields None |
| LinkedLists.LinkedList.Collect | utils/src/collections/linkedlist.rs:253-259 | iterating yields exactly the elements front to back, `len` of them |
| LinkedLists.LinkedList.Clear | utils/src/collections/linkedlist.rs:58-60 | the list becomes empty |
| Bitmaps.SetBitOf | utils/src/collections/bitmap.rs:43-45 | OR-ing in the mask sets exactly that bit of the byte |
| Bitmaps.ClearBitOf | utils/src/collections/bitmap.rs:38-40 | AND-ing with the complement clears exactly that bit of the byte |
| Bitmaps.Bitmap.constructor | utils/src/collections/bitmap.rs:29-35 | `new(n)`: ceil(n/8) bytes, every bit clear, `used_bits_count == n` |
| Bitmaps.Bitmap.Set | utils/src/collections/bitmap.rs:43-45 | afterwards `is_set(index)` holds and no other bit changes |
| Bitmaps.Bitmap.Unset | utils/src/collections/bitmap.rs:38-40 | afterwards `is_set(index)` fails and no other bit changes |
| Bitmaps.Bitmap.IsSet | utils/src/collections/bitmap.rs:48-52 | `is_set`: bit index%8 of byte index/8; Set, Unset and the constructor state their results through it |
| IdHanders.HandoutRunIncreasing | utils/src/collections/id/hander.rs:52-61 | with skips of at least one, every ID handed out lies between the start and `max`, and the IDs strictly increase |
| IdHanders.ExhaustedStaysExhausted | utils/src/collections/id/hander.rs:53-55 | once `next > max`, every later handout is None |
| IdHanders.HandoutSpec | utils/src/collections/id/hander.rs:52-61 | `handout_and_skip` on the value of next: None once next exceeds max, otherwise next is handed out and advanced by the count; HandoutRunIncreasing and ExhaustedStaysExhausted prove its properties |
| IdHanders.HandoutExamples | utils/src/collections/id/hander.rs:128-203 | the unit tests: skips 1, 3, 2 hand out 0, 1, 4; a zero skip hands out without advancing; exhaustion at `max`; a skip past `max` |
| IdHanders.IdHander.NewStartingFrom | utils/src/collections/id/hander.rs:30-35 | `next` is the given start and `max` the given maximum |
| IdHanders.IdHander.New | utils/src/collections/id/hander.rs:39-41 | starts from ID 0 |
| IdHanders.IdHander.HandoutAndSkip | utils/src/collections/id/hander.rs:52-61 | returns the old `next` and advances it by the count; None and no change once `next > max` |
| IdHanders.IdHander.Handout | utils/src/collections/id/hander.rs:46-48 | `handout_and_skip(1)` |
| IdHanders.IdHander.PeekNext | utils/src/collections/id/hander.rs:65-67 | `peek_next`: reads next; as a function it cannot change the state |
| IdTrackers.FirstClear | utils/src/collections/id/tracker.rs:50-58 | the lowest clear bit; None exactly when every bit is set |
| IdTrackers.AllocateSpec | utils/src/collections/id/tracker.rs:49-60 | `allocate`: OutOfIds when every bit is set, otherwise the lowest clear bit is set and start plus its index is returned; AllocateLowest and AllocateThenFree prove its properties |
| IdTrackers.AllocateAtAsWrittenSpec | utils/src/collections/id/tracker.rs:62-72 | `allocate_at` as written: the ID itself is the bit index; AllocateAtIgnoresStart shows the discrepancy |
| IdTrackers.AllocateAtSpec | utils/src/collections/id/tracker.rs:62-72 | the corrected `allocate_at`: the start is subtracted as in `allocate` and `free`; AllocateAtThenAllocate proves it accepts exactly the free pool IDs |
| IdTrackers.FreeSpec | utils/src/collections/id/tracker.rs:76-92 | `free`: OutOfIds outside the pool, IdAlreadyFree for a clear bit, otherwise the bit is cleared; FreeCases and AllocateThenFree prove its properties |
| IdTrackers.AllocateLowest | utils/src/collections/id/tracker.rs:49-60 | `allocate` returns `start` plus the lowest clear index and sets exactly that bit; OutOfIds with no change exactly when every bit is set |
| IdTrackers.AllocateThenFree | utils/src/collections/id/tracker.rs:49-60 | an allocated ID lies in the pool, and freeing it restores the state |
| IdTrackers.FreeCases | utils/src/collections/id/tracker.rs:76-92 | `free` gives OutOfIds exactly outside `start ..= end` and IdAlreadyFree exactly on a clear bit, changing nothing; otherwise it clears exactly that bit |
| IdTrackers.AllocateAtThenAllocate | utils/src/collections/id/tracker.rs:62-72 | the corrected `allocate_at` accepts exactly the free IDs of the pool, and `allocate` does not hand out an ID it took |
| IdTrackers.AllocateAtIgnoresStart | utils/src/collections/id/tracker.rs:62-72 | the source's `allocate_at` on the pool 5 ..= 10 accepts ID 5 but marks ID 10, so `allocate` hands out 5 again |
| IdTrackers.TrackerExample | utils/src/collections/id/tracker.rs:106-120 | the unit test: allocations give 0 and 1, and after freeing 0 the next allocation is 0 again |
| IdTrackers.IdTracker.constructor | utils/src/collections/id/tracker.rs:40-45 | a bitmap of `end - start + 1` clear bits over the pool |
| IdTrackers.IdTracker.Allocate | utils/src/collections/id/tracker.rs:49-60 | the scan gives exactly `AllocateSpec` of the old state |
| IdTrackers.IdTracker.AllocateAtAsWritten | utils/src/collections/id/tracker.rs:62-72 | the source's `allocate_at`: InvalidId past the bitmap, IdAlreadyTaken on a set bit, otherwise that raw bit is set |
| IdTrackers.IdTracker.AllocateAt | utils/src/collections/id/tracker.rs:62-72 | the corrected `allocate_at` gives exactly `AllocateAtSpec` |
| IdTrackers.IdTracker.Free | utils/src/collections/id/tracker.rs:76-92 | gives exactly `FreeSpec` of the old state |
| IdTrackers.FirstClearIs | utils/src/collections/id/tracker.rs:50-58 | the scan's stopping point is the lowest clear bit |
| IdTrackers.FirstClearNone | utils/src/collections/id/tracker.rs:59 | a scan that finds every bit set means no clear bit |
| BumpPmm.AddrToPageId | src/mem/mod.rs:9-15 | None exactly for an address that is not page aligned; otherwise the page whose address it is |
| BumpPmm.FitFrom | kernel/src/mem/pmm/bump.rs:28-47 | the start page the first-fit scan returns is at or after its start, its run ends within the bound, and every page of it is free |
| BumpPmm.FitFromIsFirstFit | kernel/src/mem/pmm/bump.rs:28-47 | the scan finds the first aligned start page at or after its start whose run is free and below the bound; None exactly when there is none |
| BumpPmm.AllocAnySpec | kernel/src/mem/pmm/bump.rs:23-50 | `alloc_any` scanned up to a page bound: the first aligned free run is marked taken and its address returned, NoAvailableBlock otherwise; AllocAnyProperties proves its properties |
| BumpPmm.AllocAtSpec | kernel/src/mem/pmm/bump.rs:52-75 | `alloc_at`: InvalidAddress, OutOfBounds, NoAvailableBlock when a page is taken, otherwise the run is marked taken; AllocAtFreeRoundTrip and AllocAtFreeErrors prove its properties |
| BumpPmm.FreeSpec | kernel/src/mem/pmm/bump.rs:78-102 | `free`: InvalidAddress, OutOfBounds, FreeOfAlreadyFree when a page is free, otherwise the run is cleared; AllocAtFreeRoundTrip and AllocAtFreeErrors prove its properties |
| BumpPmm.IsPageFreeSpec | kernel/src/mem/pmm/bump.rs:104-122 | `is_page_free` with the page bound as a parameter: InvalidAddress, OutOfBounds, otherwise whether the run is free; IsPageFreeExact and LastPageUnreachable compare the two bounds |
| BumpPmm.AllocAnyProperties | kernel/src/mem/pmm/bump.rs:23-50 | a successful `alloc_any` returns a page-aligned address of an `alignment`-aligned start page whose pages were all free and are now all set, with nothing else changed; NoAvailableBlock with no change exactly when no aligned run fits |
| BumpPmm.AllocAtFreeRoundTrip | kernel/src/mem/pmm/bump.rs:52-102 | `free` after a successful `alloc_at` of the same run, and `alloc_at` after a successful `free`, restore the bitmap |
| BumpPmm.AllocAtFreeErrors | kernel/src/mem/pmm/bump.rs:64-68 | one taken page makes `alloc_at` return NoAvailableBlock, and one free page makes `free` return FreeOfAlreadyFree, and neither changes anything |
| BumpPmm.IsPageFreeExact | kernel/src/mem/pmm/bump.rs:104-122 | with the corrected bound, `is_page_free` is OutOfBounds exactly past the end, and otherwise true exactly when every page of the run is free |
| BumpPmm.LastPageUnreachable | kernel/src/mem/pmm/bump.rs:30 | on two free pages the source's bound refuses the two-page run that the corrected bound grants |
| BumpPmm.BumpAllocator.constructor | kernel/src/mem/pmm/bump.rs:17-20 | the allocator owns a fresh page bitmap holding the given bits (one `bool` per page, true = taken) |
| BumpPmm.BumpAllocator.CheckFree | kernel/src/mem/pmm/bump.rs:35-39 | the check loop is true exactly when the run is free |
| BumpPmm.BumpAllocator.CheckTaken | kernel/src/mem/pmm/bump.rs:91-95 | the check loop is true exactly when the run is taken |
| BumpPmm.BumpAllocator.FillRun | kernel/src/mem/pmm/bump.rs:42-44 | the set/unset loop changes exactly the run |
| BumpPmm.BumpAllocator.AllocAnyUpTo | kernel/src/mem/pmm/bump.rs:23-50 | the scan loop gives exactly `AllocAnySpec` for the given bound |
| BumpPmm.BumpAllocator.AllocAnyAsWritten | kernel/src/mem/pmm/bump.rs:23-50 | `alloc_any` with the source's bound `i + count >= used_bits_count` |
| BumpPmm.BumpAllocator.AllocAny | kernel/src/mem/pmm/bump.rs:23-50 | `alloc_any` with the corrected bound `i + count > used_bits_count` |
| BumpPmm.BumpAllocator.AllocAt | kernel/src/mem/pmm/bump.rs:52-75 | gives exactly `AllocAtSpec`: InvalidAddress, OutOfBounds and NoAvailableBlock as the source checks them, otherwise the run is set |
| BumpPmm.BumpAllocator.Free | kernel/src/mem/pmm/bump.rs:78-102 | gives exactly `FreeSpec`: every page must be taken before any is cleared |
| BumpPmm.BumpAllocator.IsPageFreeUpTo | kernel/src/mem/pmm/bump.rs:104-122 | the check gives exactly `IsPageFreeSpec` for the given bound, and changes nothing |
| BumpPmm.BumpAllocator.IsPageFreeAsWritten | kernel/src/mem/pmm/bump.rs:104-122 | `is_page_free` with the source's bound |
| BumpPmm.BumpAllocator.IsPageFree | kernel/src/mem/pmm/bump.rs:104-122 | `is_page_free` with the corrected bound |
| KernelHeap.GetMatchingAllocatorIndex | slab/src/heap.rs:53-61 | the index of the smallest cache whose objects hold the padded size, below SIZE |
| KernelHeap.IndexAssertion | slab/src/heap.rs:28-30 | the assertion of `get_matching_allocator_index` holds exactly when the padded size is at most 2^15 |
| KernelHeap.SmallSizesShareFirstCache | slab/src/heap.rs:53-61 | padded sizes up to 2^6 map to index 0 |
| KernelHeap.IndexIsLogMinusSix | slab/src/heap.rs:54 | larger padded sizes map to log2(next power of two) - 6 |
| KernelHeap.AllocIndex | slab/src/heap.rs:68-81 | `alloc` picks a cache below SIZE whose class size is at least the padded size |
| KernelHeap.IndexIsSmallestClass | slab/src/heap.rs:53-61 | `alloc` (line 70) and `dealloc` (line 85) both pick the cache this function chooses; cache j holds the padded size exactly when j is at or above that index, so a block is returned to the smallest cache that fits it |
| PagingFlags.New | arch/src/x86_64/paging/flags.rs:70-75 | no flag is set |
| PagingFlags.Get | arch/src/x86_64/paging/flags.rs:83-85 | `get`: some bit of the mask is set; SetThenGet and SetDisjointMask relate it to Set |
| PagingFlags.Set | arch/src/x86_64/paging/flags.rs:88-96 | `set`: OR with the mask when status is true, AND with its complement otherwise; SetSpec proves the mask bits become all status and the rest are kept |
| PagingFlags.SetSpec | arch/src/x86_64/paging/flags.rs:87-96 | `set` makes the bits of the mask all ones or all zeros as asked and keeps every other bit |
| PagingFlags.SetOnSpec | arch/src/x86_64/paging/flags.rs:87-96 | `set(mask, true)` turns every bit of the mask on and keeps the other bits |
| PagingFlags.SetOffSpec | arch/src/x86_64/paging/flags.rs:87-96 | `set(mask, false)` turns every bit of the mask off and keeps the other bits |
| PagingFlags.SetFlag | arch/src/x86_64/paging/flags.rs:106-169 | a `set_*` accessor makes its flag read back as the status and keeps every other flag |
| PagingFlags.SetDisjointMask | arch/src/x86_64/paging/flags.rs:82-96 | `set` on one mask leaves `get` on a disjoint mask unchanged |
| PagingFlags.SetThenGet | arch/src/x86_64/paging/flags.rs:82-96 | `get` of a non-empty mask just set returns the status |
| PagingFlags.MaskSingleBit | arch/src/x86_64/paging/flags.rs:7-67 | every accessor's mask is a single bit |
| PagingFlags.MasksDisjoint | arch/src/x86_64/paging/flags.rs:7-67 | different accessors use different bits |
| PagingFlags.FlagLayout | arch/src/x86_64/paging/flags.rs:11 | taken (bit 9, the reserved bit) and last-entry (bit 10) differ from each other and from present (bit 0); the 4 KiB PAT bit is the page-size bit 7 |
| Msr.FromU64 | kernel/src/arch/x86_64/cpu/msr.rs:147-154 | the low half is the value modulo 2^32, the high half the value shifted right by 32 |
| Msr.ToU64 | kernel/src/arch/x86_64/cpu/msr.rs:156-160 | the halves are recovered from `(high << 32) \| low` |
| Msr.JoinSplit | kernel/src/arch/x86_64/cpu/msr.rs:147-160 | splitting then joining a value gives it back |
| Msr.SplitJoin | kernel/src/arch/x86_64/cpu/msr.rs:147-160 | joining then splitting a pair gives it back |
| Msr.EferAll | kernel/src/arch/x86_64/cpu/msr.rs:55-94 | `ALL` is the OR of the twelve EFER flags, 0xFFD01 |
| Msr.EferSingleBits | kernel/src/arch/x86_64/cpu/msr.rs:57-79 | each EFER flag is a single bit |
| Msr.EferDisjoint | kernel/src/arch/x86_64/cpu/msr.rs:57-79 | no two EFER flags share a bit |
| ApicTimer.FromBits | kernel/src/dev/timer/apic.rs:17-34 | `from_bits` is the divisor's divide value, a power of two from 1 to 128 |
| ApicTimer.IntoBits | kernel/src/dev/timer/apic.rs:155-175 | the divisor with that divide value; None exactly for values none has |
| ApicTimer.IntoFromBits | kernel/src/dev/timer/apic.rs:151-172 | decoding a divisor's value gives the divisor back |
| ApicTimer.FromBitsInjective | kernel/src/dev/timer/apic.rs:151-153 | different divisors have different values |
| ConstantScheduler.Constant.NewConst | scheduler/src/constant.rs:26-28 | the slot is empty |
| ConstantScheduler.Constant.New | scheduler/src/constant.rs:37-39 | the slot holds exactly the parameter |
| ConstantScheduler.Constant.Add | scheduler/src/constant.rs:41-45 | on an empty slot (the sanity assertion), the slot then holds the vessel |
| ConstantScheduler.Constant.Remove | scheduler/src/constant.rs:47-51 | returns the held vessel and leaves the slot empty; an empty slot is excluded because the source panics on it |
| ConstantScheduler.AddThenRemove | scheduler/src/constant.rs:41-51 | add then remove gives back the vessel and empties the slot |

## Left out

- The buddy allocator's spare-node `freelist` (`create_freelist`) is not modelled. Zone lists are sequences, so running out of spare nodes, a panic in the source, does not arise.
- `new_from_limine`, `init_from_limine`, `create_zones` and the memory-map walk are not modelled: they are boot glue over Limine structures. Only their zone count is modelled (`Buddy.ZonesCount`).
- `get_page_count_from_mem_map` (pmm/src/lib.rs) and the bump allocator's `init_from_limine` are not modelled either, for the same reason.
- Spinlocks, `SyncUnsafeCell`, and the `Sync`/`Send` impls are left out; the model is sequential.
- Buddy.BuddyAllocator.Valid: the class invariant is only that every block is aligned to its zone. Disjointness and the memory bound are proved about the specification functions (`AllocateDisjoint`, `FreeDisjoint`, `BreakSafe`), not carried by the class.
- Buddy.BuddyAllocator.Free, Buddy.BuddyAllocator.Coalesce, Buddy.BuddyAllocator.BreakIntoBucketsNFree: the `unreachable!()` of `coalesce` and the `unwrap`s of the break loop are excluded by a precondition that the specification does not panic. `CoalesceNoPanic`, `FreeNoPanic` and `BreakSafe` prove that this holds while memory lies below 2^|zones| pages.
- Buddy.BuddyAllocator.FindBucket: requires a non-zero alignment. The source computes `% (BASIC_PAGE_SIZE * alignment)`, which panics on 0.
- Buddy: `usize` overflow of `BASIC_PAGE_SIZE * page_count`, of `2^i` and of `bucket + size` is not modelled. Addresses are unbounded; only the overflow of `checked_next_power_of_two` is.
- Slabs: the page source of `cache_grow` (`allocate_pages`) is a parameter `base`, with 0 standing for a null pointer (PageAllocationError). The pages `reap` frees are returned as a list instead of passed to `free_pages`.
- Slabs.InternalSlabAllocator.CacheGrow: `allocate_pages(..)` returns a `Result`, and `cache_grow` calls `unwrap` on it, so an error from the page allocator panics (slab/src/internal.rs:217-223). Only a successful call that yields a null address reaches `try_into` and becomes PageAllocationError. The parameter `base` covers a null address (0) and a fresh buffer, not the panic. Likewise, `CacheGrowSpec`, `AllocateSpec`, `GrowInv`, `AllocFreeInv` and `AllocateInv` say nothing about that panic.
- Slabs.InternalSlabAllocator.Reap: `reap` calls `unwrap` on the result of `free_pages` (slab/src/internal.rs:205), so a failing release panics. The model releases every free slab and has no such failure.
- Slabs: `StackList::pop_into`/`remove_into` are not part of this model's sources. They are modelled as list moves: the slab leaves one list and goes on top of the other.
- Slabs.Classified: when `obj_per_slab == 1`, a slab `allocate` takes from the free list is already full but moves to the partial list. The invariant therefore says only that a partial slab holds at most `obj_per_slab` free objects, and, for `obj_per_slab >= 2`, strictly between 0 and `obj_per_slab`.
- Slabs.InternalSlabAllocator.Free, Slabs.InternalSlabAllocator.FreeAsWritten: these require the pointer to be aligned-and-owned or misaligned (`SafePtr`), as the source's `unsafe` contract demands. A pointer inside one slab's range but not at an object boundary is outside the model.
- The `Drop` impls of the slab allocator and of `Slab` are not modelled. They free pages and panic on live objects.
- StackList: `peek_mut`, `iter_mut`, `iter_node`, `iter_node_mut`, `Clone`, `PartialEq`, `Debug`, `Display` and `Drop` are not modelled separately. `Drop` is `clear`; the node iterators walk the spine exactly as `Iter` does.
- LinkedList: `front_mut`, `back_mut`, `iter_mut`, `iter_nodes`, `iter_mut_node`, `Debug` and `Drop` are not modelled, for the same reason.
- Nodes: node deallocation (`Box::from_raw`) is not modelled. An unlinked node stays in the arena, off the spine.
- Bitmap `uninit` and IdHander/IdTracker `uninit` are not modelled: they are const placeholders for statics. IdTracker `pool_range` is a plain accessor and is not modelled either.
- IdHanders.IdHander.HandoutAndSkip: requires `next + count` not to overflow `usize`. The source's addition panics on overflow.
- IdTrackers.IdTracker.constructor: requires `start <= end`. The source's `end - start + 1` underflows otherwise.
- IdHanders.IdHander.PeekNext is a function of the state, so it changes nothing by construction and has no contract of its own.
- The heap's `new`, and the forwarding of `alloc`/`dealloc` into the chosen slab allocator behind its lock, are not modelled. Only the choice of index is.
- Page-table flags: `data`, `from_raw` and the page-table code that uses the flags are not modelled.
- MSR: `rdmsr`/`wrmsr` are inline assembly and are left out.
- APIC timer: everything but the divisor encoding is hardware I/O and is left out.
- `Constant::operation_loop` loops forever over an external `run` and is left out.

## Findings

| source | as written | input that shows it | evidently intended | confidence | as-written member | corrected member |
|---|---|---|---|---|---|---|
| utils/src/collections/id/tracker.rs:62-72 | `allocate_at` uses the ID itself as the bit index; `allocate` and `free` subtract the pool start | pool 5 ..= 10, all free: `allocate_at(5)` succeeds but sets the bit of ID 10, and `allocate()` then returns 5 again | index `id - start`, and InvalidId outside the pool | not executed | IdTrackers.AllocateAtIgnoresStart | IdTrackers.AllocateAtThenAllocate |
| kernel/src/mem/pmm/bump.rs:23-121 | `alloc_any` and `is_page_free` stop at `i + page_count >= used_bits_count`, unlike `alloc_at`/`free`, which use `id + page_count - 1 >= used_bits_count` | two free pages: `alloc_any(1, 2)` is NoAvailableBlock and `is_page_free(0, 2)` is OutOfBounds, although both pages are free | a run ending at the last page is allowed (`>` instead of `>=`) | not executed | BumpPmm.LastPageUnreachable | BumpPmm.IsPageFreeExact |
| slab/src/internal.rs:164-196 | `free` searches only the partial and full lists, so a slab whose every object is free is invisible to it | any layout: allocate one object from a fresh allocator, free it, free it again: the second free returns BadPtrRange, while the test at slab/src/internal.rs:600-616 demands DoubleFree | a pointer into a free slab is a double free | not executed | Slabs.DoubleFreeMissed | Slabs.FreeTwice |
