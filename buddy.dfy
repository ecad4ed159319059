/** The buddy physical memory manager: `zones[i]` lists the free blocks of 2^i pages (their
    physical byte addresses, top first). Allocation takes a block of a large enough zone and
    splits off the unused halves into the lower zones; freeing merges a block with its free
    buddy as far up as it can.

    The spare-node freelist the source moves list nodes through is not modelled: a zone is the
    sequence of addresses its nodes hold. A `panic` of the source (an `unreachable!()` or the
    `unwrap` of an error) is `None` in the functions that can reach one. */
module Buddy {
  import opened Common
  import opened Arena

  /** `MIN_ZONE_LEVEL`: log2 of the basic page size. */
  const MIN_ZONE_LEVEL: nat := 12

  datatype PmmError =
    | OutOfBounds
    | NoAvailableBlock
    | FreeOfAlreadyFree
    | InvalidAlignment
    | InvalidAddress
    | EmptyAllocation
    | EmptyFree
    | TooBigAllocation

  /** The free blocks of each order, top of each list first. */
  type Zones = seq<seq<nat>>

  /** Bytes in a block of zone `i`: `2^(i + MIN_ZONE_LEVEL)`. */
  function BlockSize(i: nat): nat
  {
    Pow2(i + MIN_ZONE_LEVEL)
  }

  /** A block of zone `i` is 2^i basic pages, and a block of the next zone is twice as
      large. */
  lemma BlockSizes(i: nat)
    ensures BlockSize(i) == Pow2(i) * PAGE_SIZE
    ensures BlockSize(i + 1) == 2 * BlockSize(i)
    ensures BlockSize(i) >= PAGE_SIZE
  {
    Pow2Add(i, MIN_ZONE_LEVEL);
    assert Pow2(MIN_ZONE_LEVEL) == PAGE_SIZE;
    MulAtLeast(Pow2(i), PAGE_SIZE);
  }

  /** A block size divides every larger block size. */
  lemma BlockSizeDivides(i: nat, j: nat)
    requires i <= j
    ensures BlockSize(j) % BlockSize(i) == 0
  {
    Pow2Divides(i + MIN_ZONE_LEVEL, j + MIN_ZONE_LEVEL);
  }

  /** An address aligned to a block size is aligned to every smaller one. */
  lemma AlignedBelow(addr: nat, i: nat, j: nat)
    requires i <= j && addr % BlockSize(j) == 0
    ensures addr % BlockSize(i) == 0
  {
    Pow2Divides(i + MIN_ZONE_LEVEL, j + MIN_ZONE_LEVEL);
    var d := Pow2(j - i);
    var q := addr / BlockSize(j);
    assert addr == q * BlockSize(j);
    assert addr == (q * d) * BlockSize(i);
    MulDivExact(BlockSize(i), q * d);
    assert BlockSize(i) * (q * d) == (q * d) * BlockSize(i);
  }

  /** `get_buddy_addr`: the other half of the block of the next zone that holds the block at
      `addr` of zone `i`. The source asserts that `addr` is aligned to the block size. */
  function GetBuddyAddr(addr: nat, i: nat): nat
    requires addr % BlockSize(i) == 0
  {
    var size := BlockSize(i);
    if addr % (size * 2) == 0 then addr + size
    else
      AlignedOddHalf(addr, size);
      addr - size
  }

  /** An address aligned to `size` but not to twice `size` is at least `size`. */
  lemma AlignedOddHalf(addr: nat, size: nat)
    requires size > 0 && addr % size == 0 && addr % (size * 2) != 0
    ensures addr >= size
  {
    assert 0 % (size * 2) == 0;
    assert addr != 0;
    var q := addr / size;
    assert addr == q * size;
    assert q != 0;
    MulAtLeast(q, size);
  }

  /** `determine_next_bucket_addr`: the merged block starts at the lower of the two
      buddies. */
  function NextBucketAddr(addr: nat, buddy: nat): nat
  {
    if addr <= buddy then addr else buddy
  }

  /** The lower half of a block of `2 * s` bytes and the half above it. */
  lemma LowerHalf(addr: nat, s: nat, m: nat)
    requires s > 0 && addr == m * (2 * s)
    ensures addr % (s * 2) == 0 && (addr + s) % (s * 2) == s && (addr + s) % s == 0
  {
    DivModUnique(addr, 2 * s, m, 0);
    DivModUnique(addr + s, 2 * s, m, s);
    DivModUnique(addr + s, s, 2 * m + 1, 0);
  }

  /** The upper half of a block of `2 * s` bytes and the half below it. */
  lemma UpperHalf(addr: nat, s: nat, m: nat)
    requires s > 0 && addr == m * (2 * s) + s
    ensures addr % (s * 2) == s && (addr - s) % (s * 2) == 0 && (addr - s) % s == 0
  {
    DivModUnique(addr, 2 * s, m, s);
    DivModUnique(addr - s, 2 * s, m, 0);
    DivModUnique(addr - s, s, 2 * m, 0);
  }

  /** A block aligned to the next zone is the lower buddy. */
  lemma BuddyAbove(addr: nat, i: nat)
    requires addr % BlockSize(i) == 0 && addr % BlockSize(i + 1) == 0
    ensures GetBuddyAddr(addr, i) == addr + BlockSize(i)
    ensures GetBuddyAddr(addr, i) % BlockSize(i) == 0
    ensures GetBuddyAddr(GetBuddyAddr(addr, i), i) == addr
  {
    var s := BlockSize(i);
    BlockSizes(i);
    var m := addr / (2 * s);
    assert addr == m * (2 * s);
    LowerHalf(addr, s, m);
  }

  /** A block not aligned to the next zone is the upper buddy. */
  lemma BuddyBelow(addr: nat, i: nat)
    requires addr % BlockSize(i) == 0 && addr % BlockSize(i + 1) != 0
    ensures GetBuddyAddr(addr, i) + BlockSize(i) == addr
    ensures GetBuddyAddr(addr, i) % BlockSize(i) == 0
    ensures GetBuddyAddr(addr, i) % BlockSize(i + 1) == 0
    ensures GetBuddyAddr(GetBuddyAddr(addr, i), i) == addr
  {
    var s := BlockSize(i);
    BlockSizes(i);
    var q := addr / s;
    assert addr == q * s;
    var m := q / 2;
    var h := q % 2;
    assert addr == m * (2 * s) + h * s;
    DivModUnique(addr, 2 * s, m, h * s);
    assert h == 1;
    UpperHalf(addr, s, m);
  }

  /** Buddy arithmetic: the buddy is the neighbouring block of the same size, above exactly
      when the block is aligned to the next zone; buddies are mutual; and their merged block
      starts at the lower one, aligned to the next zone. */
  lemma BuddyArith(addr: nat, i: nat)
    requires addr % BlockSize(i) == 0
    ensures GetBuddyAddr(addr, i) % BlockSize(i) == 0
    ensures addr % BlockSize(i + 1) == 0 ==> GetBuddyAddr(addr, i) == addr + BlockSize(i)
    ensures addr % BlockSize(i + 1) != 0 ==> GetBuddyAddr(addr, i) + BlockSize(i) == addr
    ensures GetBuddyAddr(GetBuddyAddr(addr, i), i) == addr
    ensures NextBucketAddr(addr, GetBuddyAddr(addr, i)) % BlockSize(i + 1) == 0
    ensures NextBucketAddr(addr, GetBuddyAddr(addr, i))
         == NextBucketAddr(GetBuddyAddr(addr, i), addr)
  {
    if addr % BlockSize(i + 1) == 0 {
      BuddyAbove(addr, i);
    } else {
      BuddyBelow(addr, i);
    }
  }

  /** Zone `i` without its block at position `k` (`pop_from_zone`). */
  function PopFromZoneSpec(zones: Zones, i: nat, k: nat): (r: Zones)
    requires i < |zones| && k < |zones[i]|
    ensures |r| == |zones| && r[i] == Without(zones[i], k)
    ensures forall j :: 0 <= j < |zones| && j != i ==> r[j] == zones[j]
  {
    zones[i := Without(zones[i], k)]
  }

  /** Zone `i` with the block at `addr` on top (`push_to_zone`). */
  function PushToZoneSpec(zones: Zones, addr: nat, i: nat): (r: Zones)
    requires i < |zones|
    ensures |r| == |zones| && r[i] == [addr] + zones[i]
    ensures forall j :: 0 <= j < |zones| && j != i ==> r[j] == zones[j]
  {
    zones[i := [addr] + zones[i]]
  }

  // ---------------------------------------------------------------------------------------
  // Searching a zone

  /** The first block of `list` aligned to `m` bytes. */
  function FirstAligned(list: seq<nat>, m: nat): (r: Option<nat>)
    requires m > 0
    ensures r.Some? ==> r.value < |list| && list[r.value] % m == 0
    ensures r.Some? ==> forall k :: 0 <= k < r.value ==> list[k] % m != 0
    ensures r.None? <==> forall k :: 0 <= k < |list| ==> list[k] % m != 0
  {
    if list == [] then None
    else if list[0] % m == 0 then Some(0)
    else match FirstAligned(list[1..], m)
      case None => None
      case Some(k) => Some(k + 1)
  }

  /** Block `b` of `size` bytes holds `addr`. */
  predicate Holds(b: nat, size: nat, addr: nat)
  {
    b <= addr < b + size
  }

  /** The range [x, x + s) lies within the range [y, y + t). */
  predicate Inside(x: nat, s: nat, y: nat, t: nat)
  {
    y <= x && x + s <= y + t
  }

  /** The ranges [x, x + s) and [y, y + t) share a byte. */
  predicate Overlap(x: nat, s: nat, y: nat, t: nat)
  {
    0 < s && 0 < t && x < y + t && y < x + s
  }

  /** An aligned block of zone `i` that overlaps an aligned block of zone `j >= i` lies inside
      it: buddy blocks nest. */
  lemma AlignedNest(x: nat, i: nat, y: nat, j: nat)
    requires i <= j && x % BlockSize(i) == 0 && y % BlockSize(j) == 0
    requires Overlap(x, BlockSize(i), y, BlockSize(j))
    ensures Inside(x, BlockSize(i), y, BlockSize(j))
  {
    BlockSizeDivides(i, j);
    NestedMultiples(x, BlockSize(i), y, BlockSize(j));
  }

  /** The first block of `list`, each `size` bytes long, that holds `addr`. */
  function FirstHolding(list: seq<nat>, size: nat, addr: nat): (r: Option<nat>)
    ensures r.Some? ==> r.value < |list| && Holds(list[r.value], size, addr)
    ensures r.Some? ==> forall k :: 0 <= k < r.value ==> !Holds(list[k], size, addr)
    ensures r.None? <==> forall k :: 0 <= k < |list| ==> !Holds(list[k], size, addr)
  {
    if list == [] then None
    else if Holds(list[0], size, addr) then Some(0)
    else match FirstHolding(list[1..], size, addr)
      case None => None
      case Some(k) => Some(k + 1)
  }

  /** The first position of `x` in `list`. */
  function IndexOf(list: seq<nat>, x: nat): (r: Option<nat>)
    ensures r.Some? ==> r.value < |list| && list[r.value] == x
    ensures r.Some? ==> forall k :: 0 <= k < r.value ==> list[k] != x
    ensures r.None? <==> x !in list
  {
    if list == [] then None
    else if list[0] == x then Some(0)
    else match IndexOf(list[1..], x)
      case None => None
      case Some(k) => Some(k + 1)
  }

  // ---------------------------------------------------------------------------------------
  // Page counts

  /** `page_count.checked_next_power_of_two()` followed by `ilog2`: the zone of the smallest
      block holding `count` pages, or NoAvailableBlock when that power of two does not fit a
      `usize`. */
  function CheckedOrder(count: nat): (r: Result<nat, PmmError>)
    ensures r.Err? ==> r.error == NoAvailableBlock
    ensures r.Ok? ==> Pow2(r.value) >= count && Pow2(r.value) <= USIZE_MAX
    ensures r.Ok? && r.value > 0 ==> Pow2(r.value - 1) < count
  {
    NextPow2Bounds(count);
    if NextPow2(count) > USIZE_MAX then Err(NoAvailableBlock) else Ok(CeilLog2(count))
  }

  /** Rounding a power of two again changes nothing: `free` hands its rounded count to
      `is_page_free`, which rounds it once more. */
  lemma CheckedOrderOfPow2(k: nat)
    requires Pow2(k) <= USIZE_MAX
    ensures CheckedOrder(Pow2(k)) == Ok(k)
  {
    NextPow2OfPow2(k);
  }

  /** Free pages held by zones `i` and above. */
  function PagesFrom(zones: Zones, i: nat): nat
    decreases |zones| - i
  {
    if i >= |zones| then 0 else |zones[i]| * Pow2(i) + PagesFrom(zones, i + 1)
  }

  /** Free pages held by all zones. */
  function FreePages(zones: Zones): nat
  {
    PagesFrom(zones, 0)
  }

  /** Replacing the list of zone `i` changes the page total by the difference in its
      blocks. */
  lemma {:induction false} PagesFromUpdate(zones: Zones, i: nat, l: seq<nat>, from: nat)
    requires i < |zones|
    ensures from <= i ==>
      PagesFrom(zones[i := l], from) + |zones[i]| * Pow2(i) == PagesFrom(zones, from) + |l| * Pow2(i)
    ensures i < from ==> PagesFrom(zones[i := l], from) == PagesFrom(zones, from)
    decreases |zones| - from
  {
    if from < |zones| {
      PagesFromUpdate(zones, i, l, from + 1);
    }
  }

  /** Popping a block of zone `i` removes 2^i free pages. */
  lemma PopPages(zones: Zones, i: nat, k: nat)
    requires i < |zones| && k < |zones[i]|
    ensures FreePages(PopFromZoneSpec(zones, i, k)) + Pow2(i) == FreePages(zones)
  {
    PagesFromUpdate(zones, i, Without(zones[i], k), 0);
    assert |zones[i]| * Pow2(i) == (|zones[i]| - 1) * Pow2(i) + Pow2(i);
  }

  /** Pushing a block onto zone `i` adds 2^i free pages. */
  lemma PushPages(zones: Zones, addr: nat, i: nat)
    requires i < |zones|
    ensures FreePages(PushToZoneSpec(zones, addr, i)) == FreePages(zones) + Pow2(i)
  {
    PagesFromUpdate(zones, i, [addr] + zones[i], 0);
    assert (|zones[i]| + 1) * Pow2(i) == |zones[i]| * Pow2(i) + Pow2(i);
  }

  /** Every block of zone `i` is aligned to the size of its zone. */
  ghost predicate Aligned(zones: Zones)
  {
    forall i, k :: 0 <= i < |zones| && 0 <= k < |zones[i]| ==> zones[i][k] % BlockSize(i) == 0
  }

  // ---------------------------------------------------------------------------------------
  // The operations, as functions of the zones

  /** The zone (from `i` up) and position of the first block aligned to `m` bytes, searching
      each zone top first: the loop of `find_bucket`. */
  function FindAlignedBlock(zones: Zones, m: nat, i: nat): (r: Option<(nat, nat)>)
    requires m > 0
    ensures r.Some? ==>
      (i <= r.value.0 < |zones| && FirstAligned(zones[r.value.0], m) == Some(r.value.1)
       && forall j :: i <= j < r.value.0 ==> FirstAligned(zones[j], m).None?)
    ensures r.None? <==> forall j :: i <= j < |zones| ==> FirstAligned(zones[j], m).None?
    decreases |zones| - i
  {
    if i >= |zones| then None
    else match FirstAligned(zones[i], m)
      case Some(k) => Some((i, k))
      case None => FindAlignedBlock(zones, m, i + 1)
  }

  /** The zone (from `i` up) and position of the first block that holds `addr`, a block of
      zone `j` spanning `BlockSize(j)` (`2^j` pages) bytes: the loops of `find_bucket_at` and
      `is_page_free`. */
  function FindHoldingBlock(zones: Zones, addr: nat, i: nat): (r: Option<(nat, nat)>)
    ensures r.Some? ==>
      (i <= r.value.0 < |zones|
       && FirstHolding(zones[r.value.0], BlockSize(r.value.0), addr) == Some(r.value.1)
       && forall j :: i <= j < r.value.0 ==> FirstHolding(zones[j], BlockSize(j), addr).None?)
    ensures r.None? <==>
      forall j :: i <= j < |zones| ==> FirstHolding(zones[j], BlockSize(j), addr).None?
    decreases |zones| - i
  {
    if i >= |zones| then None
    else match FirstHolding(zones[i], BlockSize(i), addr)
      case Some(k) => Some((i, k))
      case None => FindHoldingBlock(zones, addr, i + 1)
  }

  /** `find_bucket`: takes the first block, from zone `start` up, aligned to `alignment`
      pages, and returns it with its zone. The source divides by the alignment, so it must
      not be 0. */
  function FindBucketSpec(zones: Zones, alignment: nat, start: nat): (Result<(nat, nat), PmmError>, Zones)
    requires alignment > 0
  {
    match FindAlignedBlock(zones, PAGE_SIZE * alignment, start)
    case None => (Err(NoAvailableBlock), zones)
    case Some((j, k)) => (Ok((zones[j][k], j)), PopFromZoneSpec(zones, j, k))
  }

  /** `find_bucket_at`: takes the first block, from zone `start` up, that holds `addr`, and
      returns it with its zone. */
  function FindBucketAtSpec(zones: Zones, addr: nat, start: nat): (Result<(nat, nat), PmmError>, Zones)
  {
    match FindHoldingBlock(zones, addr, start)
    case None => (Err(NoAvailableBlock), zones)
    case Some((j, k)) => (Ok((zones[j][k], j)), PopFromZoneSpec(zones, j, k))
  }

  /** `disband`: from zone `i` up to (not including) zone `used`, pushes the buddy of the
      current block and moves to the block of the next zone that holds both. */
  function DisbandSpec(zones: Zones, addr: nat, i: nat, used: nat): (r: Zones)
    requires used <= |zones| && (i < used ==> addr % BlockSize(i) == 0)
    ensures |r| == |zones|
    decreases used - i
  {
    if i >= used then zones
    else
      var buddy := GetBuddyAddr(addr, i);
      BuddyArith(addr, i);
      DisbandSpec(PushToZoneSpec(zones, buddy, i), NextBucketAddr(addr, buddy), i + 1, used)
  }

  /** `coalesce`: from zone `i` up, while the buddy of the current block is free it is taken
      out of its zone and the two merge; the first block without a free buddy is pushed.
      Merging past the top zone reaches the `unreachable!()` (None). */
  function CoalesceSpec(zones: Zones, addr: nat, i: nat): (r: Option<Zones>)
    requires addr % BlockSize(i) == 0
    ensures r.Some? ==> |r.value| == |zones|
    decreases |zones| - i
  {
    if i >= |zones| then None
    else
      var buddy := GetBuddyAddr(addr, i);
      match IndexOf(zones[i], buddy)
      case Some(k) =>
        BuddyArith(addr, i);
        CoalesceSpec(PopFromZoneSpec(zones, i, k), NextBucketAddr(addr, buddy), i + 1)
      case None => Some(PushToZoneSpec(zones, addr, i))
  }

  /** `is_page_free`: a zero count is refused, the count is rounded up, a misaligned address
      is refused; otherwise whether some block of the rounded count's zone or above holds the
      address. */
  function IsPageFreeSpec(zones: Zones, addr: nat, count: nat): (r: Result<bool, PmmError>)
    ensures r.Ok? ==> count > 0 && CheckedOrder(count).Ok?
    ensures r.Ok? ==> addr % BlockSize(CheckedOrder(count).value) == 0
  {
    if count == 0 then Err(EmptyAllocation)
    else match CheckedOrder(count)
      case Err(e) => Err(e)
      case Ok(order) =>
        BlockSizes(order);
        if addr % (PAGE_SIZE * Pow2(order)) != 0 then Err(InvalidAlignment)
        else Ok(FindHoldingBlock(zones, addr, order).Some?)
  }

  /** `allocate`: a zero count is refused and the count is rounded up; the first aligned block
      of a large enough zone is taken and split down to the rounded size, the unused halves
      becoming free blocks. */
  function AllocateSpec(zones: Zones, alignment: nat, count: nat): (Result<nat, PmmError>, Zones)
    requires Aligned(zones) && alignment > 0
  {
    if count == 0 then (Err(EmptyAllocation), zones)
    else match CheckedOrder(count)
      case Err(e) => (Err(e), zones)
      case Ok(order) =>
        match FindAlignedBlock(zones, PAGE_SIZE * alignment, order)
        case None => (Err(NoAvailableBlock), zones)
        case Some((j, k)) =>
          var a := zones[j][k];
          AlignedBelow(a, order, j);
          (Ok(a), DisbandSpec(PopFromZoneSpec(zones, j, k), a, order, j))
  }

  /** `allocate_at`: a zero count is refused, the count is rounded up and the address must be
      aligned to it; the first block of a large enough zone that holds the address is taken
      and split around the requested block. */
  function AllocateAtSpec(zones: Zones, addr: nat, count: nat): (Result<(), PmmError>, Zones)
  {
    if count == 0 then (Err(EmptyAllocation), zones)
    else match CheckedOrder(count)
      case Err(e) => (Err(e), zones)
      case Ok(order) =>
        BlockSizes(order);
        if addr % (PAGE_SIZE * Pow2(order)) != 0 then (Err(InvalidAlignment), zones)
        else match FindHoldingBlock(zones, addr, order)
          case None => (Err(NoAvailableBlock), zones)
          case Some((j, k)) => (Ok(()), DisbandSpec(PopFromZoneSpec(zones, j, k), addr, order, j))
  }

  /** `free`: a zero count is refused and the count is rounded up; a block whose address is
      already held by a free block is refused; otherwise it is coalesced into the zones.
      None is the panic of a merge past the top zone. */
  function FreeSpec(zones: Zones, addr: nat, count: nat): Option<(Result<(), PmmError>, Zones)>
  {
    if count == 0 then Some((Err(EmptyFree), zones))
    else match CheckedOrder(count)
      case Err(e) => Some((Err(e), zones))
      case Ok(order) =>
        CheckedOrderOfPow2(order);
        match IsPageFreeSpec(zones, addr, Pow2(order))
        case Err(e) => Some((Err(e), zones))
        case Ok(free) =>
          if free then Some((Err(FreeOfAlreadyFree), zones))
          else match CoalesceSpec(zones, addr, order)
            case None => None
            case Some(z) => Some((Ok(()), z))
  }

  /** The zone `break_into_buckets_n_free` picks for the next block: the largest `i` below
      `top` with `id` a multiple of 2^i and at least 2^i pages left. */
  function LargestFit(id: nat, total: nat, top: nat): (r: Option<nat>)
    ensures r.Some? ==> r.value < top && id % Pow2(r.value) == 0 && total >= Pow2(r.value)
    ensures r.Some? ==> forall i :: r.value < i < top ==> !(id % Pow2(i) == 0 && total >= Pow2(i))
    ensures r.None? <==> forall i :: 0 <= i < top ==> !(id % Pow2(i) == 0 && total >= Pow2(i))
    decreases top
  {
    if top == 0 then None
    else if id % Pow2(top - 1) == 0 && total >= Pow2(top - 1) then Some(top - 1)
    else LargestFit(id, total, top - 1)
  }

  /** The loop of `break_into_buckets_n_free` from page `id` with `total` pages left. None is a
      panic: the `unreachable!()` when no zone fits, or the `unwrap` of a failed `free`. */
  function BreakFrom(zones: Zones, id: nat, total: nat): Option<Zones>
    decreases total
  {
    if total == 0 then Some(zones)
    else
      var step := BreakStep(zones, id, total);
      if step.None? then None else BreakFrom(step.value.0, step.value.1, step.value.2)
  }

  /** One round of that loop: the zones, page and pages left after freeing the block
      `LargestFit` picks. */
  function BreakStep(zones: Zones, id: nat, total: nat): (r: Option<(Zones, nat, nat)>)
    requires total > 0
    ensures r.Some? ==> r.value.2 < total
  {
    var fit := LargestFit(id, total, |zones|);
    if fit.None? then None
    else
      var i := fit.value;
      var freed := FreeSpec(zones, id * PAGE_SIZE, Pow2(i));
      if freed.None? || freed.value.0.Err? then None
      else Some((freed.value.1, id + Pow2(i), total - Pow2(i)))
  }

  /** `break_into_buckets_n_free`: frees `total` pages from `addr` (rounded down to a page) as
      the largest aligned blocks that fit. */
  function BreakSpec(zones: Zones, addr: nat, total: nat): Option<Zones>
  {
    BreakFrom(zones, addr / PAGE_SIZE, total)
  }

  // ---------------------------------------------------------------------------------------
  // Page conservation and alignment

  lemma PushAligned(zones: Zones, addr: nat, i: nat)
    requires Aligned(zones) && i < |zones| && addr % BlockSize(i) == 0
    ensures Aligned(PushToZoneSpec(zones, addr, i))
  {
    var r := PushToZoneSpec(zones, addr, i);
    forall j, k | 0 <= j < |r| && 0 <= k < |r[j]|
      ensures r[j][k] % BlockSize(j) == 0
    {
      if j == i && k > 0 {
        assert r[j][k] == zones[i][k - 1];
      }
    }
  }

  lemma PopAligned(zones: Zones, i: nat, k: nat)
    requires Aligned(zones) && i < |zones| && k < |zones[i]|
    ensures Aligned(PopFromZoneSpec(zones, i, k))
  {
    var r := PopFromZoneSpec(zones, i, k);
    forall j, l | 0 <= j < |r| && 0 <= l < |r[j]|
      ensures r[j][l] % BlockSize(j) == 0
    {
      if j == i {
        assert r[j][l] in zones[i];
      }
    }
  }

  /** Splitting from zone `i` up to zone `used` turns a block of 2^used pages into free
      blocks holding all of it but the 2^i pages kept. */
  lemma {:induction false} DisbandPages(zones: Zones, addr: nat, i: nat, used: nat)
    requires used <= |zones| && i <= used && (i < used ==> addr % BlockSize(i) == 0)
    ensures FreePages(DisbandSpec(zones, addr, i, used)) + Pow2(i) == FreePages(zones) + Pow2(used)
    decreases used - i
  {
    if i < used {
      var buddy := GetBuddyAddr(addr, i);
      BuddyArith(addr, i);
      PushPages(zones, buddy, i);
      DisbandPages(PushToZoneSpec(zones, buddy, i), NextBucketAddr(addr, buddy), i + 1, used);
    }
  }

  lemma {:induction false} DisbandAligned(zones: Zones, addr: nat, i: nat, used: nat)
    requires Aligned(zones)
    requires used <= |zones| && (i < used ==> addr % BlockSize(i) == 0)
    ensures Aligned(DisbandSpec(zones, addr, i, used))
    decreases used - i
  {
    if i < used {
      var buddy := GetBuddyAddr(addr, i);
      BuddyArith(addr, i);
      PushAligned(zones, buddy, i);
      DisbandAligned(PushToZoneSpec(zones, buddy, i), NextBucketAddr(addr, buddy), i + 1, used);
    }
  }

  /** Coalescing a block of 2^i pages adds exactly 2^i free pages, however far it merges. */
  lemma {:induction false} CoalescePages(zones: Zones, addr: nat, i: nat)
    requires addr % BlockSize(i) == 0
    ensures CoalesceSpec(zones, addr, i).Some? ==>
      FreePages(CoalesceSpec(zones, addr, i).value) == FreePages(zones) + Pow2(i)
    decreases |zones| - i
  {
    if i < |zones| {
      var buddy := GetBuddyAddr(addr, i);
      match IndexOf(zones[i], buddy)
      case Some(k) =>
        BuddyArith(addr, i);
        PopPages(zones, i, k);
        CoalescePages(PopFromZoneSpec(zones, i, k), NextBucketAddr(addr, buddy), i + 1);
      case None =>
        PushPages(zones, addr, i);
    }
  }

  lemma {:induction false} CoalesceAligned(zones: Zones, addr: nat, i: nat)
    requires Aligned(zones) && addr % BlockSize(i) == 0
    ensures CoalesceSpec(zones, addr, i).Some? ==> Aligned(CoalesceSpec(zones, addr, i).value)
    decreases |zones| - i
  {
    if i < |zones| {
      var buddy := GetBuddyAddr(addr, i);
      match IndexOf(zones[i], buddy)
      case Some(k) =>
        BuddyArith(addr, i);
        PopAligned(zones, i, k);
        CoalesceAligned(PopFromZoneSpec(zones, i, k), NextBucketAddr(addr, buddy), i + 1);
      case None =>
        PushAligned(zones, addr, i);
    }
  }

  // ---------------------------------------------------------------------------------------
  // What each operation returns

  /** Rounding overflows exactly when the count exceeds 2^63 pages; `usize::MAX` pages is such
      a count. */
  lemma CheckedOrderBound(count: nat)
    ensures CheckedOrder(count).Ok? <==> count <= Pow2(63)
    ensures CheckedOrder(count).Ok? ==> CheckedOrder(count).value <= 63
  {
    Pow2Word();
    NextPow2Bounds(count);
    var c := CeilLog2(count);
    if count <= Pow2(63) {
      if c > 0 {
        Pow2Order(63, c - 1);
      }
      Pow2Order(c, 63);
    } else {
      Pow2Order(c, 63);
      Pow2Order(64, c);
    }
  }

  /** `allocate` refuses a zero count, and a count whose rounding overflows or for which no
      zone at or above the rounded size has a block aligned as asked; a refusal changes
      nothing. */
  lemma AllocateRefusals(zones: Zones, alignment: nat, count: nat)
    requires Aligned(zones) && alignment > 0
    ensures var r := AllocateSpec(zones, alignment, count);
      r.0.Err? ==> r.1 == zones && r.0.error in {EmptyAllocation, NoAvailableBlock}
    ensures AllocateSpec(zones, alignment, count).0 == Err(EmptyAllocation) <==> count == 0
    ensures AllocateSpec(zones, alignment, count).0 == Err(NoAvailableBlock) <==>
      (count > 0 &&
       (CheckedOrder(count).Err? ||
        forall j, k :: CheckedOrder(count).value <= j < |zones| && 0 <= k < |zones[j]| ==>
          zones[j][k] % (PAGE_SIZE * alignment) != 0))
  {
  }

  /** A granted allocation is a block of the rounded size, aligned both as asked and to its
      own size; its pages leave the free total and the zones stay aligned. */
  lemma AllocateGrant(zones: Zones, alignment: nat, count: nat)
    requires Aligned(zones) && alignment > 0
    ensures var r := AllocateSpec(zones, alignment, count);
      r.0.Ok? ==>
        (count > 0 && CheckedOrder(count).Ok?
         && r.0.value % (PAGE_SIZE * alignment) == 0
         && r.0.value % BlockSize(CheckedOrder(count).value) == 0
         && Aligned(r.1)
         && FreePages(r.1) + Pow2(CheckedOrder(count).value) == FreePages(zones))
  {
    if count > 0 && CheckedOrder(count).Ok? {
      var order := CheckedOrder(count).value;
      match FindAlignedBlock(zones, PAGE_SIZE * alignment, order)
      case None =>
      case Some((j, k)) =>
        var a := zones[j][k];
        AlignedBelow(a, order, j);
        PopAligned(zones, j, k);
        PopPages(zones, j, k);
        DisbandAligned(PopFromZoneSpec(zones, j, k), a, order, j);
        DisbandPages(PopFromZoneSpec(zones, j, k), a, order, j);
    }
  }

  /** `allocate_at` refuses a zero count, an overflowing rounding, an address not aligned to
      the rounded size, and an address no free block of that size or more holds; a refusal
      changes nothing. */
  lemma AllocateAtRefusals(zones: Zones, addr: nat, count: nat)
    ensures var r := AllocateAtSpec(zones, addr, count);
      r.0.Err? ==> r.1 == zones && r.0.error in {EmptyAllocation, NoAvailableBlock, InvalidAlignment}
    ensures AllocateAtSpec(zones, addr, count).0 == Err(EmptyAllocation) <==> count == 0
    ensures AllocateAtSpec(zones, addr, count).0 == Err(InvalidAlignment) <==>
      (count > 0 && CheckedOrder(count).Ok? && addr % BlockSize(CheckedOrder(count).value) != 0)
    ensures AllocateAtSpec(zones, addr, count).0 == Err(NoAvailableBlock) <==>
      (count > 0 &&
       (CheckedOrder(count).Err? ||
        (addr % BlockSize(CheckedOrder(count).value) == 0 &&
         forall j, k :: CheckedOrder(count).value <= j < |zones| && 0 <= k < |zones[j]| ==>
           !Holds(zones[j][k], BlockSize(j), addr))))
  {
    if count > 0 && CheckedOrder(count).Ok? {
      BlockSizes(CheckedOrder(count).value);
    }
  }

  /** A granted `allocate_at` removes the rounded size from the free total and keeps the zones
      aligned. */
  lemma AllocateAtGrant(zones: Zones, addr: nat, count: nat)
    requires Aligned(zones)
    ensures var r := AllocateAtSpec(zones, addr, count);
      r.0.Ok? ==>
        (count > 0 && CheckedOrder(count).Ok?
         && addr % BlockSize(CheckedOrder(count).value) == 0
         && Aligned(r.1)
         && FreePages(r.1) + Pow2(CheckedOrder(count).value) == FreePages(zones))
  {
    if count > 0 && CheckedOrder(count).Ok? {
      var order := CheckedOrder(count).value;
      BlockSizes(order);
      if addr % BlockSize(order) == 0 {
        match FindHoldingBlock(zones, addr, order)
        case None =>
        case Some((j, k)) =>
          PopAligned(zones, j, k);
          PopPages(zones, j, k);
          DisbandAligned(PopFromZoneSpec(zones, j, k), addr, order, j);
          DisbandPages(PopFromZoneSpec(zones, j, k), addr, order, j);
      }
    }
  }

  /** `is_page_free` refuses a zero count, an overflowing rounding and an address not aligned
      to the rounded size. */
  lemma IsPageFreeRefusals(zones: Zones, addr: nat, count: nat)
    ensures IsPageFreeSpec(zones, addr, count) == Err(EmptyAllocation) <==> count == 0
    ensures IsPageFreeSpec(zones, addr, count) == Err(NoAvailableBlock) <==>
      (count > 0 && CheckedOrder(count).Err?)
    ensures IsPageFreeSpec(zones, addr, count) == Err(InvalidAlignment) <==>
      (count > 0 && CheckedOrder(count).Ok? && addr % BlockSize(CheckedOrder(count).value) != 0)
  {
    if count > 0 && CheckedOrder(count).Ok? {
      BlockSizes(CheckedOrder(count).value);
    }
  }

  /** `is_page_free` answers true exactly when a single free block covers the whole rounded
      block at `addr`: a block only partly free is reported as not free. */
  lemma IsPageFreeCovers(zones: Zones, addr: nat, count: nat)
    requires Aligned(zones)
    ensures IsPageFreeSpec(zones, addr, count) == Ok(true) <==>
      (count > 0 && CheckedOrder(count).Ok? && addr % BlockSize(CheckedOrder(count).value) == 0 &&
       exists j, k :: CheckedOrder(count).value <= j < |zones| && 0 <= k < |zones[j]| &&
         Inside(addr, BlockSize(CheckedOrder(count).value), zones[j][k], BlockSize(j)))
  {
    if count > 0 && CheckedOrder(count).Ok? {
      var order := CheckedOrder(count).value;
      BlockSizes(order);
      if addr % BlockSize(order) == 0 {
        match FindHoldingBlock(zones, addr, order)
        case Some((j, k)) =>
          AlignedNest(addr, order, zones[j][k], j);
        case None =>
          forall j, k | order <= j < |zones| && 0 <= k < |zones[j]|
            ensures !Inside(addr, BlockSize(order), zones[j][k], BlockSize(j))
          {
            assert !Holds(zones[j][k], BlockSize(j), addr);
          }
      }
    }
  }

  /** `free` hands `is_page_free` the count it already rounded; rounding twice changes
      nothing. */
  lemma IsPageFreeRounded(zones: Zones, addr: nat, count: nat)
    requires count > 0 && CheckedOrder(count).Ok?
    ensures IsPageFreeSpec(zones, addr, Pow2(CheckedOrder(count).value)) == IsPageFreeSpec(zones, addr, count)
  {
    CheckedOrderOfPow2(CheckedOrder(count).value);
  }

  /** `free` refuses a zero count (EmptyFree), what `is_page_free` refuses, and a block a free
      block already covers (FreeOfAlreadyFree); a refusal changes nothing. */
  lemma FreeRefusals(zones: Zones, addr: nat, count: nat)
    ensures count == 0 ==> FreeSpec(zones, addr, count) == Some((Err(EmptyFree), zones))
    ensures var r := FreeSpec(zones, addr, count);
      r.Some? && r.value.0.Err? ==> r.value.1 == zones
    ensures count > 0 ==>
      (FreeSpec(zones, addr, count) == Some((Err(FreeOfAlreadyFree), zones)) <==>
       IsPageFreeSpec(zones, addr, count) == Ok(true))
    ensures count > 0 && IsPageFreeSpec(zones, addr, count).Err? ==>
      FreeSpec(zones, addr, count) == Some((Err(IsPageFreeSpec(zones, addr, count).error), zones))
  {
    if count > 0 && CheckedOrder(count).Ok? {
      IsPageFreeRounded(zones, addr, count);
    }
  }

  /** A successful `free` found the block not free, adds the rounded size to the free total
      and keeps the zones aligned. */
  lemma FreeGrant(zones: Zones, addr: nat, count: nat)
    requires Aligned(zones)
    ensures var r := FreeSpec(zones, addr, count);
      r.Some? && r.value.0.Ok? ==>
        (count > 0 && CheckedOrder(count).Ok?
         && IsPageFreeSpec(zones, addr, count) == Ok(false)
         && Aligned(r.value.1)
         && FreePages(r.value.1) == FreePages(zones) + Pow2(CheckedOrder(count).value))
  {
    if count > 0 && CheckedOrder(count).Ok? {
      var order := CheckedOrder(count).value;
      IsPageFreeRounded(zones, addr, count);
      if IsPageFreeSpec(zones, addr, count) == Ok(false) {
        CoalescePages(zones, addr, order);
        CoalesceAligned(zones, addr, order);
      }
    }
  }

  /** One round of the break loop frees the pages it moves past and keeps the zones
      aligned. */
  lemma BreakStepGrant(zones: Zones, id: nat, total: nat)
    requires Aligned(zones) && total > 0
    ensures var r := BreakStep(zones, id, total);
      r.Some? ==>
        (Aligned(r.value.0)
         && r.value.1 + r.value.2 == id + total
         && FreePages(r.value.0) + r.value.2 == FreePages(zones) + total)
  {
    var fit := LargestFit(id, total, |zones|);
    if fit.Some? {
      var i := fit.value;
      var freed := FreeSpec(zones, id * PAGE_SIZE, Pow2(i));
      if freed.Some? && freed.value.0.Ok? {
        FreeGrant(zones, id * PAGE_SIZE, Pow2(i));
        var o := CheckedOrder(Pow2(i)).value;
        assert Pow2(i) <= Pow2(o) <= USIZE_MAX;
        CheckedOrderOfPow2(i);
      }
    }
  }

  /** Breaking a range into blocks adds exactly its page count to the free total and keeps
      the zones aligned. */
  lemma {:induction false} BreakFromGrant(zones: Zones, id: nat, total: nat)
    requires Aligned(zones)
    ensures BreakFrom(zones, id, total).Some? ==>
      (Aligned(BreakFrom(zones, id, total).value)
       && FreePages(BreakFrom(zones, id, total).value) == FreePages(zones) + total)
    decreases total
  {
    if total > 0 {
      var step := BreakStep(zones, id, total);
      if step.Some? {
        BreakStepGrant(zones, id, total);
        BreakFromGrant(step.value.0, step.value.1, step.value.2);
      }
    }
  }

  // ---------------------------------------------------------------------------------------
  // No overlapping free blocks

  /** No two free blocks share a byte (a block listed twice overlaps itself). */
  ghost predicate Disjoint(zones: Zones)
  {
    forall i, k, j, l ::
      0 <= i < |zones| && 0 <= k < |zones[i]| && 0 <= j < |zones| && 0 <= l < |zones[j]| && (i, k) != (j, l) ==>
        !Overlap(zones[i][k], BlockSize(i), zones[j][l], BlockSize(j))
  }

  /** No free block shares a byte with the range [x, x + s). */
  ghost predicate Apart(zones: Zones, x: nat, s: nat)
  {
    forall i, k :: 0 <= i < |zones| && 0 <= k < |zones[i]| ==> !Overlap(zones[i][k], BlockSize(i), x, s)
  }

  /** Every free block ends at or below `limit`. */
  ghost predicate Below(zones: Zones, limit: nat)
  {
    forall i, k :: 0 <= i < |zones| && 0 <= k < |zones[i]| ==> zones[i][k] + BlockSize(i) <= limit
  }

  lemma PushDisjoint(zones: Zones, addr: nat, i: nat)
    requires i < |zones| && Disjoint(zones) && Apart(zones, addr, BlockSize(i))
    ensures Disjoint(PushToZoneSpec(zones, addr, i))
  {
    var r := PushToZoneSpec(zones, addr, i);
    forall j1, l1, j2, l2 |
      0 <= j1 < |r| && 0 <= l1 < |r[j1]| && 0 <= j2 < |r| && 0 <= l2 < |r[j2]| && (j1, l1) != (j2, l2)
      ensures !Overlap(r[j1][l1], BlockSize(j1), r[j2][l2], BlockSize(j2))
    {
      var p1 := if j1 == i then l1 - 1 else l1;
      var p2 := if j2 == i then l2 - 1 else l2;
      if j1 == i && l1 == 0 {
        assert r[j2][l2] == zones[j2][p2];
      } else if j2 == i && l2 == 0 {
        assert r[j1][l1] == zones[j1][p1];
      } else {
        assert r[j1][l1] == zones[j1][p1];
        assert r[j2][l2] == zones[j2][p2];
      }
    }
  }

  lemma PopDisjoint(zones: Zones, i: nat, k: nat)
    requires i < |zones| && k < |zones[i]| && Disjoint(zones)
    ensures Disjoint(PopFromZoneSpec(zones, i, k))
    ensures Apart(PopFromZoneSpec(zones, i, k), zones[i][k], BlockSize(i))
  {
    var r := PopFromZoneSpec(zones, i, k);
    forall j1, l1, j2, l2 |
      0 <= j1 < |r| && 0 <= l1 < |r[j1]| && 0 <= j2 < |r| && 0 <= l2 < |r[j2]| && (j1, l1) != (j2, l2)
      ensures !Overlap(r[j1][l1], BlockSize(j1), r[j2][l2], BlockSize(j2))
    {
      var p1 := if j1 == i && l1 >= k then l1 + 1 else l1;
      var p2 := if j2 == i && l2 >= k then l2 + 1 else l2;
      assert r[j1][l1] == zones[j1][p1];
      assert r[j2][l2] == zones[j2][p2];
    }
    forall j, l | 0 <= j < |r| && 0 <= l < |r[j]|
      ensures !Overlap(r[j][l], BlockSize(j), zones[i][k], BlockSize(i))
    {
      var p := if j == i && l >= k then l + 1 else l;
      assert r[j][l] == zones[j][p];
    }
  }

  lemma ApartPush(zones: Zones, addr: nat, i: nat, x: nat, s: nat)
    requires i < |zones| && Apart(zones, x, s) && !Overlap(addr, BlockSize(i), x, s)
    ensures Apart(PushToZoneSpec(zones, addr, i), x, s)
  {
    var r := PushToZoneSpec(zones, addr, i);
    forall j, l | 0 <= j < |r| && 0 <= l < |r[j]|
      ensures !Overlap(r[j][l], BlockSize(j), x, s)
    {
      if j == i && l > 0 {
        assert r[j][l] == zones[j][l - 1];
      }
    }
  }

  lemma ApartPop(zones: Zones, i: nat, k: nat, x: nat, s: nat)
    requires i < |zones| && k < |zones[i]| && Apart(zones, x, s)
    ensures Apart(PopFromZoneSpec(zones, i, k), x, s)
  {
    var r := PopFromZoneSpec(zones, i, k);
    forall j, l | 0 <= j < |r| && 0 <= l < |r[j]|
      ensures !Overlap(r[j][l], BlockSize(j), x, s)
    {
      var p := if j == i && l >= k then l + 1 else l;
      assert r[j][l] == zones[j][p];
    }
  }

  lemma ApartInside(zones: Zones, x: nat, s: nat, y: nat, t: nat)
    requires Apart(zones, y, t) && Inside(x, s, y, t)
    ensures Apart(zones, x, s)
  {
  }

  lemma BelowPush(zones: Zones, addr: nat, i: nat, limit: nat)
    requires i < |zones| && Below(zones, limit) && addr + BlockSize(i) <= limit
    ensures Below(PushToZoneSpec(zones, addr, i), limit)
  {
    var r := PushToZoneSpec(zones, addr, i);
    forall j, l | 0 <= j < |r| && 0 <= l < |r[j]|
      ensures r[j][l] + BlockSize(j) <= limit
    {
      if j == i && l > 0 {
        assert r[j][l] == zones[j][l - 1];
      }
    }
  }

  lemma BelowPop(zones: Zones, i: nat, k: nat, limit: nat)
    requires i < |zones| && k < |zones[i]| && Below(zones, limit)
    ensures Below(PopFromZoneSpec(zones, i, k), limit)
  {
    var r := PopFromZoneSpec(zones, i, k);
    forall j, l | 0 <= j < |r| && 0 <= l < |r[j]|
      ensures r[j][l] + BlockSize(j) <= limit
    {
      assert r[j][l] in zones[j];
    }
  }

  /** A block and its buddy are the two halves of the block they merge into. */
  lemma BuddyHalves(addr: nat, i: nat)
    requires addr % BlockSize(i) == 0
    ensures NextBucketAddr(addr, GetBuddyAddr(addr, i)) % BlockSize(i + 1) == 0
    ensures Inside(addr, BlockSize(i), NextBucketAddr(addr, GetBuddyAddr(addr, i)), BlockSize(i + 1))
    ensures Inside(GetBuddyAddr(addr, i), BlockSize(i), NextBucketAddr(addr, GetBuddyAddr(addr, i)), BlockSize(i + 1))
    ensures !Overlap(addr, BlockSize(i), GetBuddyAddr(addr, i), BlockSize(i))
    ensures NextBucketAddr(addr, GetBuddyAddr(addr, i)) + BlockSize(i + 1)
      == addr + GetBuddyAddr(addr, i) + BlockSize(i) - NextBucketAddr(addr, GetBuddyAddr(addr, i))
  {
    BuddyArith(addr, i);
    BlockSizes(i);
  }

  /** A range apart from both halves is apart from the merged block. */
  lemma MergeApart(zones: Zones, addr: nat, i: nat)
    requires addr % BlockSize(i) == 0
    requires Apart(zones, addr, BlockSize(i)) && Apart(zones, GetBuddyAddr(addr, i), BlockSize(i))
    ensures Apart(zones, NextBucketAddr(addr, GetBuddyAddr(addr, i)), BlockSize(i + 1))
  {
    BuddyHalves(addr, i);
  }

  /** Coalescing a block no free block overlaps keeps the free blocks disjoint. */
  lemma {:induction false} CoalesceDisjoint(zones: Zones, addr: nat, i: nat)
    requires addr % BlockSize(i) == 0 && Disjoint(zones) && Apart(zones, addr, BlockSize(i))
    ensures CoalesceSpec(zones, addr, i).Some? ==> Disjoint(CoalesceSpec(zones, addr, i).value)
    decreases |zones| - i
  {
    if i < |zones| {
      var buddy := GetBuddyAddr(addr, i);
      match IndexOf(zones[i], buddy)
      case Some(k) =>
        var z := PopFromZoneSpec(zones, i, k);
        PopDisjoint(zones, i, k);
        ApartPop(zones, i, k, addr, BlockSize(i));
        MergeApart(z, addr, i);
        BuddyArith(addr, i);
        CoalesceDisjoint(z, NextBucketAddr(addr, buddy), i + 1);
      case None =>
        PushDisjoint(zones, addr, i);
    }
  }

  /** Coalescing a block apart from a range [x, x + s) keeps the free blocks apart from it. */
  lemma {:induction false} CoalesceApart(zones: Zones, addr: nat, i: nat, x: nat, s: nat)
    requires addr % BlockSize(i) == 0 && Apart(zones, x, s) && !Overlap(addr, BlockSize(i), x, s)
    ensures CoalesceSpec(zones, addr, i).Some? ==> Apart(CoalesceSpec(zones, addr, i).value, x, s)
    decreases |zones| - i
  {
    if i < |zones| {
      var buddy := GetBuddyAddr(addr, i);
      match IndexOf(zones[i], buddy)
      case Some(k) =>
        BuddyHalves(addr, i);
        assert !Overlap(zones[i][k], BlockSize(i), x, s);
        ApartPop(zones, i, k, x, s);
        CoalesceApart(PopFromZoneSpec(zones, i, k), NextBucketAddr(addr, buddy), i + 1, x, s);
      case None =>
        ApartPush(zones, addr, i, x, s);
    }
  }

  /** Coalescing a block that ends at or below `limit` keeps every free block below it. */
  lemma {:induction false} CoalesceBelow(zones: Zones, addr: nat, i: nat, limit: nat)
    requires addr % BlockSize(i) == 0 && Below(zones, limit) && addr + BlockSize(i) <= limit
    ensures CoalesceSpec(zones, addr, i).Some? ==> Below(CoalesceSpec(zones, addr, i).value, limit)
    decreases |zones| - i
  {
    if i < |zones| {
      var buddy := GetBuddyAddr(addr, i);
      match IndexOf(zones[i], buddy)
      case Some(k) =>
        BuddyHalves(addr, i);
        assert zones[i][k] + BlockSize(i) <= limit;
        BelowPop(zones, i, k, limit);
        CoalesceBelow(PopFromZoneSpec(zones, i, k), NextBucketAddr(addr, buddy), i + 1, limit);
      case None =>
        BelowPush(zones, addr, i, limit);
    }
  }

  /** The `unreachable!()` of `coalesce` is never reached while all memory, the freed block
      included, lies below 2^|zones| pages: the two top blocks cannot both be free. */
  lemma {:induction false} CoalesceNoPanic(zones: Zones, addr: nat, i: nat, limit: nat)
    requires addr % BlockSize(i) == 0 && Below(zones, limit) && addr + BlockSize(i) <= limit
    requires limit < BlockSize(|zones|)
    ensures CoalesceSpec(zones, addr, i).Some?
    decreases |zones| - i
  {
    BlockSizes(i);
    Pow2Order(|zones| + MIN_ZONE_LEVEL, i + MIN_ZONE_LEVEL);
    assert i < |zones|;
    var buddy := GetBuddyAddr(addr, i);
    if i + 1 < |zones| {
      match IndexOf(zones[i], buddy)
      case Some(k) =>
        BuddyHalves(addr, i);
        assert zones[i][k] + BlockSize(i) <= limit;
        BelowPop(zones, i, k, limit);
        CoalesceNoPanic(PopFromZoneSpec(zones, i, k), NextBucketAddr(addr, buddy), i + 1, limit);
      case None =>
    } else {
      TopBuddyNotFree(zones, addr, limit);
    }
  }

  /** In the top zone, a block below `limit < 2^|zones|` pages is the lower top block, and its
      buddy ends past `limit`, so it is not free. */
  lemma TopBuddyNotFree(zones: Zones, addr: nat, limit: nat)
    requires |zones| > 0 && addr % BlockSize(|zones| - 1) == 0 && Below(zones, limit)
    requires addr + BlockSize(|zones| - 1) <= limit < BlockSize(|zones|)
    ensures IndexOf(zones[|zones| - 1], GetBuddyAddr(addr, |zones| - 1)).None?
  {
    var i := |zones| - 1;
    BlockSizes(i);
    assert addr < BlockSize(i);
    DivModUnique(addr, BlockSize(i), 0, addr);
    assert addr == 0;
    BuddyAbove(addr, i);
    assert GetBuddyAddr(addr, i) + BlockSize(i) > limit;
  }

  /** Every free block lies inside the block [c, c + s) or shares nothing with [p, p + t). */
  ghost predicate InsideOrApart(zones: Zones, c: nat, s: nat, p: nat, t: nat)
  {
    forall j, l :: 0 <= j < |zones| && 0 <= l < |zones[j]| ==>
      Inside(zones[j][l], BlockSize(j), c, s) || !Overlap(zones[j][l], BlockSize(j), p, t)
  }

  /** Splitting block [p, p + 2^used pages) down to the kept block [k, k + 2^o pages) pushes
      halves that overlap neither each other, nor the other free blocks, nor the kept block.
      `c` is the block of zone `i` reached so far. */
  lemma {:induction false} DisbandDisjoint(zones: Zones, c: nat, i: nat, used: nat, p: nat, k: nat, o: nat)
    requires used <= |zones| && i <= used && c % BlockSize(i) == 0 && p % BlockSize(used) == 0
    requires Inside(c, BlockSize(i), p, BlockSize(used)) && Inside(k, BlockSize(o), c, BlockSize(i))
    requires Disjoint(zones) && Apart(zones, k, BlockSize(o))
    requires InsideOrApart(zones, c, BlockSize(i), p, BlockSize(used))
    ensures Disjoint(DisbandSpec(zones, c, i, used))
    ensures Apart(DisbandSpec(zones, c, i, used), k, BlockSize(o))
    decreases used - i
  {
    if i < used {
      var b := GetBuddyAddr(c, i);
      var m := NextBucketAddr(c, b);
      BuddyHalves(c, i);
      BlockSizes(i);
      AlignedNest(m, i + 1, p, used);
      forall j, l | 0 <= j < |zones| && 0 <= l < |zones[j]|
        ensures !Overlap(zones[j][l], BlockSize(j), b, BlockSize(i))
      {
      }
      PushDisjoint(zones, b, i);
      ApartPush(zones, b, i, k, BlockSize(o));
      var z := PushToZoneSpec(zones, b, i);
      forall j, l | 0 <= j < |z| && 0 <= l < |z[j]|
        ensures Inside(z[j][l], BlockSize(j), m, BlockSize(i + 1)) || !Overlap(z[j][l], BlockSize(j), p, BlockSize(used))
      {
        if j == i && l > 0 {
          assert z[j][l] == zones[j][l - 1];
        }
      }
      DisbandDisjoint(z, m, i + 1, used, p, k, o);
    }
  }

  /** The halves `disband` pushes lie inside the block it splits. */
  lemma {:induction false} DisbandBelow(zones: Zones, c: nat, i: nat, used: nat, p: nat, limit: nat)
    requires used <= |zones| && i <= used && c % BlockSize(i) == 0 && p % BlockSize(used) == 0
    requires Inside(c, BlockSize(i), p, BlockSize(used)) && p + BlockSize(used) <= limit
    requires Below(zones, limit)
    ensures Below(DisbandSpec(zones, c, i, used), limit)
    decreases used - i
  {
    if i < used {
      var b := GetBuddyAddr(c, i);
      var m := NextBucketAddr(c, b);
      BuddyHalves(c, i);
      BlockSizes(i);
      AlignedNest(m, i + 1, p, used);
      BelowPush(zones, b, i, limit);
      DisbandBelow(PushToZoneSpec(zones, b, i), m, i + 1, used, p, limit);
    }
  }

  lemma BlockSizeMonotone(i: nat, j: nat)
    requires i <= j
    ensures BlockSize(i) <= BlockSize(j)
  {
    Pow2Monotone(i + MIN_ZONE_LEVEL, j + MIN_ZONE_LEVEL);
  }

  /** `allocate` keeps the free blocks disjoint and below `limit`, and no free block is left
      overlapping the block it hands out. */
  lemma AllocateDisjoint(zones: Zones, alignment: nat, count: nat, limit: nat)
    requires Aligned(zones) && Disjoint(zones) && Below(zones, limit) && alignment > 0
    ensures var r := AllocateSpec(zones, alignment, count);
      r.0.Ok? ==>
        (count > 0 && CheckedOrder(count).Ok?
         && Disjoint(r.1) && Below(r.1, limit)
         && Apart(r.1, r.0.value, BlockSize(CheckedOrder(count).value))
         && r.0.value + BlockSize(CheckedOrder(count).value) <= limit)
  {
    if count > 0 && CheckedOrder(count).Ok? {
      var order := CheckedOrder(count).value;
      match FindAlignedBlock(zones, PAGE_SIZE * alignment, order)
      case None =>
      case Some((j, k)) =>
        var a := zones[j][k];
        var z := PopFromZoneSpec(zones, j, k);
        AlignedBelow(a, order, j);
        BlockSizeMonotone(order, j);
        PopDisjoint(zones, j, k);
        BelowPop(zones, j, k, limit);
        ApartInside(z, a, BlockSize(order), a, BlockSize(j));
        DisbandDisjoint(z, a, order, j, a, a, order);
        DisbandBelow(z, a, order, j, a, limit);
    }
  }

  /** `allocate_at` keeps the free blocks disjoint and below `limit`, and no free block is
      left overlapping the block it reserves. */
  lemma AllocateAtDisjoint(zones: Zones, addr: nat, count: nat, limit: nat)
    requires Aligned(zones) && Disjoint(zones) && Below(zones, limit)
    ensures AllocateAtSpec(zones, addr, count).0.Ok? ==> count > 0 && CheckedOrder(count).Ok?
    ensures AllocateAtSpec(zones, addr, count).0.Ok? ==>
      (Disjoint(AllocateAtSpec(zones, addr, count).1) && Below(AllocateAtSpec(zones, addr, count).1, limit))
    ensures AllocateAtSpec(zones, addr, count).0.Ok? ==>
      (Apart(AllocateAtSpec(zones, addr, count).1, addr, BlockSize(CheckedOrder(count).value))
       && addr + BlockSize(CheckedOrder(count).value) <= limit)
  {
    if AllocateAtSpec(zones, addr, count).0.Ok? {
      AllocateAtFound(zones, addr, count);
      var order := CheckedOrder(count).value;
      var found := FindHoldingBlock(zones, addr, order);
      ReserveInside(zones, addr, order, found.value.0, found.value.1, limit);
    }
  }

  /** A granted `allocate_at` found the block holding `addr` and split it. */
  lemma AllocateAtFound(zones: Zones, addr: nat, count: nat)
    requires AllocateAtSpec(zones, addr, count).0.Ok?
    ensures count > 0 && CheckedOrder(count).Ok?
    ensures addr % BlockSize(CheckedOrder(count).value) == 0
    ensures FindHoldingBlock(zones, addr, CheckedOrder(count).value).Some?
    ensures var order := CheckedOrder(count).value;
      var found := FindHoldingBlock(zones, addr, order).value;
      AllocateAtSpec(zones, addr, count).1 == DisbandSpec(PopFromZoneSpec(zones, found.0, found.1), addr, order, found.0)
  {
    BlockSizes(CheckedOrder(count).value);
  }

  /** Splitting the free block at position `k` of zone `j` around the block of zone `order`
      at `addr`, which it holds. */
  lemma ReserveInside(zones: Zones, addr: nat, order: nat, j: nat, k: nat, limit: nat)
    requires Aligned(zones) && Disjoint(zones) && Below(zones, limit)
    requires order <= j < |zones| && k < |zones[j]| && addr % BlockSize(order) == 0
    requires Holds(zones[j][k], BlockSize(j), addr)
    ensures Disjoint(DisbandSpec(PopFromZoneSpec(zones, j, k), addr, order, j))
    ensures Below(DisbandSpec(PopFromZoneSpec(zones, j, k), addr, order, j), limit)
    ensures Apart(DisbandSpec(PopFromZoneSpec(zones, j, k), addr, order, j), addr, BlockSize(order))
    ensures addr + BlockSize(order) <= limit
  {
    var p := zones[j][k];
    var z := PopFromZoneSpec(zones, j, k);
    BlockSizes(order);
    AlignedNest(addr, order, p, j);
    PopDisjoint(zones, j, k);
    BelowPop(zones, j, k, limit);
    ApartInside(z, addr, BlockSize(order), p, BlockSize(j));
    DisbandDisjoint(z, addr, order, j, p, addr, order);
    DisbandBelow(z, addr, order, j, p, limit);
  }

  /** A successful `free` is the coalescing of the block at its rounded size. */
  lemma FreeFound(zones: Zones, addr: nat, count: nat)
    requires FreeSpec(zones, addr, count).Some? && FreeSpec(zones, addr, count).value.0.Ok?
    ensures count > 0 && CheckedOrder(count).Ok?
    ensures addr % BlockSize(CheckedOrder(count).value) == 0
    ensures CoalesceSpec(zones, addr, CheckedOrder(count).value) == Some(FreeSpec(zones, addr, count).value.1)
  {
    IsPageFreeRounded(zones, addr, count);
  }

  /** Freeing a block no free block overlaps keeps the free blocks disjoint, and keeps them
      below `limit` when the block is. */
  lemma FreeDisjoint(zones: Zones, addr: nat, count: nat, limit: nat)
    requires Disjoint(zones) && Below(zones, limit)
    requires count > 0 && CheckedOrder(count).Ok?
    requires Apart(zones, addr, BlockSize(CheckedOrder(count).value))
    requires addr + BlockSize(CheckedOrder(count).value) <= limit
    ensures FreeSpec(zones, addr, count).Some? && FreeSpec(zones, addr, count).value.0.Ok? ==>
      Disjoint(FreeSpec(zones, addr, count).value.1) && Below(FreeSpec(zones, addr, count).value.1, limit)
  {
    if FreeSpec(zones, addr, count).Some? && FreeSpec(zones, addr, count).value.0.Ok? {
      FreeFound(zones, addr, count);
      var order := CheckedOrder(count).value;
      CoalesceDisjoint(zones, addr, order);
      CoalesceBelow(zones, addr, order, limit);
    }
  }

  /** `free` does not panic while the free blocks and the freed block lie below
      `limit < 2^|zones|` pages. */
  lemma FreeNoPanic(zones: Zones, addr: nat, count: nat, limit: nat)
    requires Below(zones, limit) && limit < BlockSize(|zones|)
    requires count > 0 && CheckedOrder(count).Ok?
    requires addr + BlockSize(CheckedOrder(count).value) <= limit
    ensures FreeSpec(zones, addr, count).Some?
  {
    var order := CheckedOrder(count).value;
    IsPageFreeRounded(zones, addr, count);
    if IsPageFreeSpec(zones, addr, count) == Ok(false) {
      CoalesceNoPanic(zones, addr, order, limit);
    }
  }

  /** `is_page_free` reports a block as not free when no free block overlaps it. */
  lemma ApartNotFree(zones: Zones, addr: nat, count: nat)
    requires count > 0 && CheckedOrder(count).Ok?
    requires addr % BlockSize(CheckedOrder(count).value) == 0
    requires Apart(zones, addr, BlockSize(CheckedOrder(count).value))
    ensures IsPageFreeSpec(zones, addr, count) == Ok(false)
  {
    var order := CheckedOrder(count).value;
    BlockSizes(order);
    var found := FindHoldingBlock(zones, addr, order);
    if found.Some? {
      var j := found.value.0;
      var k := found.value.1;
      assert Holds(zones[j][k], BlockSize(j), addr);
      assert Overlap(zones[j][k], BlockSize(j), addr, BlockSize(order));
    }
  }

  /** `free` accepts a block it finds not free, once it does not panic. */
  lemma FreeAccepts(zones: Zones, addr: nat, count: nat)
    requires count > 0 && CheckedOrder(count).Ok? && IsPageFreeSpec(zones, addr, count) == Ok(false)
    ensures FreeSpec(zones, addr, count).Some? ==> FreeSpec(zones, addr, count).value.0 == Ok(())
  {
    IsPageFreeRounded(zones, addr, count);
  }

  /** Allocating a block and freeing it again is accepted, does not panic, and gives back
      exactly the pages taken; the zones stay aligned, disjoint and below `limit`. */
  lemma AllocateThenFree(zones: Zones, alignment: nat, count: nat, limit: nat)
    requires Aligned(zones) && Disjoint(zones) && Below(zones, limit) && limit < BlockSize(|zones|)
    requires alignment > 0
    ensures var r := AllocateSpec(zones, alignment, count);
      r.0.Ok? ==>
        (FreeSpec(r.1, r.0.value, count).Some? && FreeSpec(r.1, r.0.value, count).value.0 == Ok(()))
    ensures var r := AllocateSpec(zones, alignment, count);
      r.0.Ok? && FreeSpec(r.1, r.0.value, count).Some? ==>
        var z := FreeSpec(r.1, r.0.value, count).value.1;
        FreePages(z) == FreePages(zones) && Aligned(z) && Disjoint(z) && Below(z, limit)
  {
    var r := AllocateSpec(zones, alignment, count);
    if r.0.Ok? {
      var a := r.0.value;
      AllocateGrant(zones, alignment, count);
      AllocateDisjoint(zones, alignment, count, limit);
      var order := CheckedOrder(count).value;
      assert |r.1| == |zones|;
      FreeNoPanic(r.1, a, count, limit);
      ApartNotFree(r.1, a, count);
      FreeAccepts(r.1, a, count);
      FreeGrant(r.1, a, count);
      FreeDisjoint(r.1, a, count, limit);
    }
  }

  /** The block a round of the break loop frees: 2^i pages at page `id`, a multiple of 2^i,
      within the `total` pages left. */
  lemma BreakBlock(id: nat, total: nat, i: nat)
    requires i <= 63 && id % Pow2(i) == 0 && Pow2(i) <= total
    ensures CheckedOrder(Pow2(i)) == Ok(i)
    ensures (id * PAGE_SIZE) % BlockSize(i) == 0
    ensures BlockSize(i) <= total * PAGE_SIZE
    ensures (id + Pow2(i)) * PAGE_SIZE == id * PAGE_SIZE + BlockSize(i)
  {
    Pow2Order(i, 63);
    CheckedOrderBound(Pow2(i));
    CheckedOrderOfPow2(i);
    BlockSizes(i);
    MultipleScaled(id, Pow2(i), PAGE_SIZE);
    MulLessEq(Pow2(i), total, PAGE_SIZE);
  }

  /** Freeing a block of zone `i` at `a`, followed by a range of `rest` bytes, when no free
      block overlaps either and all lies below `limit < 2^|zones|` pages. */
  lemma BreakFreeSafe(zones: Zones, a: nat, i: nat, rest: nat, limit: nat)
    requires CheckedOrder(Pow2(i)) == Ok(i) && a % BlockSize(i) == 0
    requires Disjoint(zones) && Below(zones, limit) && limit < BlockSize(|zones|)
    requires a + BlockSize(i) + rest <= limit && Apart(zones, a, BlockSize(i) + rest)
    ensures FreeSpec(zones, a, Pow2(i)).Some? && FreeSpec(zones, a, Pow2(i)).value.0 == Ok(())
    ensures var z := FreeSpec(zones, a, Pow2(i)).value.1;
      Disjoint(z) && Below(z, limit) && |z| == |zones| && Apart(z, a + BlockSize(i), rest)
  {
    BreakFreeAccepted(zones, a, Pow2(i), i, rest, limit);
    var z := FreeSpec(zones, a, Pow2(i)).value.1;
    BreakFreeKeeps(zones, a, Pow2(i), i, rest, limit, z);
  }

  /** The `free` of a break round is accepted and does not panic. */
  lemma BreakFreeAccepted(zones: Zones, a: nat, count: nat, i: nat, rest: nat, limit: nat)
    requires count > 0 && CheckedOrder(count) == Ok(i) && a % BlockSize(i) == 0
    requires Below(zones, limit) && limit < BlockSize(|zones|)
    requires a + BlockSize(i) + rest <= limit && Apart(zones, a, BlockSize(i) + rest)
    ensures FreeSpec(zones, a, count).Some? && FreeSpec(zones, a, count).value.0 == Ok(())
  {
    ApartInside(zones, a, BlockSize(i), a, BlockSize(i) + rest);
    ApartNotFree(zones, a, count);
    FreeNoPanic(zones, a, count, limit);
    FreeAccepts(zones, a, count);
  }

  /** What an accepted `free` of a break round leaves behind. */
  lemma BreakFreeKeeps(zones: Zones, a: nat, count: nat, i: nat, rest: nat, limit: nat, z: Zones)
    requires count > 0 && CheckedOrder(count) == Ok(i) && a % BlockSize(i) == 0
    requires Disjoint(zones) && Below(zones, limit)
    requires a + BlockSize(i) + rest <= limit && Apart(zones, a, BlockSize(i) + rest)
    requires FreeSpec(zones, a, count) == Some((Ok(()), z))
    ensures Disjoint(z) && Below(z, limit) && |z| == |zones| && Apart(z, a + BlockSize(i), rest)
  {
    ApartInside(zones, a, BlockSize(i), a, BlockSize(i) + rest);
    FreeDisjoint(zones, a, count, limit);
    FreeRestApart(zones, a, count, i, rest, z);
  }

  /** Freeing the block leaves the free blocks apart from the range that follows it. */
  lemma FreeRestApart(zones: Zones, a: nat, count: nat, i: nat, rest: nat, z: Zones)
    requires count > 0 && CheckedOrder(count) == Ok(i) && a % BlockSize(i) == 0
    requires Apart(zones, a, BlockSize(i) + rest)
    requires FreeSpec(zones, a, count) == Some((Ok(()), z))
    ensures Apart(z, a + BlockSize(i), rest)
  {
    FreeFound(zones, a, count);
    CoalescedRestApart(zones, a, i, rest, z);
  }

  lemma CoalescedRestApart(zones: Zones, a: nat, i: nat, rest: nat, z: Zones)
    requires a % BlockSize(i) == 0 && CoalesceSpec(zones, a, i) == Some(z)
    requires Apart(zones, a, BlockSize(i) + rest)
    ensures Apart(z, a + BlockSize(i), rest)
  {
    ApartInside(zones, a + BlockSize(i), rest, a, BlockSize(i) + rest);
    CoalescedApart(zones, a, i, z, a + BlockSize(i), rest);
  }

  lemma CoalescedApart(zones: Zones, a: nat, i: nat, z: Zones, x: nat, s: nat)
    requires a % BlockSize(i) == 0 && CoalesceSpec(zones, a, i) == Some(z)
    requires Apart(zones, x, s) && !Overlap(a, BlockSize(i), x, s)
    ensures Apart(z, x, s)
  {
    CoalesceApart(zones, a, i, x, s);
  }

  /** A round of the break loop over a range no free block overlaps, in memory below
      `limit < 2^|zones|` pages of at most 64 zones: it finds a zone, its `free` is accepted,
      and the free blocks stay disjoint, below `limit` and apart from the rest of the range. */
  lemma BreakStepSafe(zones: Zones, id: nat, total: nat, limit: nat)
    requires 1 <= |zones| <= 64 && total > 0
    requires Disjoint(zones) && Below(zones, limit) && limit < BlockSize(|zones|)
    requires (id + total) * PAGE_SIZE <= limit && Apart(zones, id * PAGE_SIZE, total * PAGE_SIZE)
    ensures BreakStep(zones, id, total).Some?
    ensures var step := BreakStep(zones, id, total).value;
      Disjoint(step.0) && Below(step.0, limit) && |step.0| == |zones|
      && step.1 + step.2 == id + total
      && Apart(step.0, step.1 * PAGE_SIZE, step.2 * PAGE_SIZE)
  {
    assert id % Pow2(0) == 0 && total >= Pow2(0);
    var i := LargestFit(id, total, |zones|).value;
    BreakBlock(id, total, i);
    assert total * PAGE_SIZE == BlockSize(i) + (total - Pow2(i)) * PAGE_SIZE;
    BreakFreeSafe(zones, id * PAGE_SIZE, i, (total - Pow2(i)) * PAGE_SIZE, limit);
  }

  /** The break loop over such a range never panics and leaves the free blocks disjoint and
      below `limit`. */
  lemma {:induction false} BreakFromSafe(zones: Zones, id: nat, total: nat, limit: nat)
    requires 1 <= |zones| <= 64
    requires Disjoint(zones) && Below(zones, limit) && limit < BlockSize(|zones|)
    requires (id + total) * PAGE_SIZE <= limit && Apart(zones, id * PAGE_SIZE, total * PAGE_SIZE)
    ensures BreakFrom(zones, id, total).Some?
    ensures Disjoint(BreakFrom(zones, id, total).value) && Below(BreakFrom(zones, id, total).value, limit)
    decreases total
  {
    if total > 0 {
      BreakStepSafe(zones, id, total, limit);
      var step := BreakStep(zones, id, total).value;
      BreakFromSafe(step.0, step.1, step.2, limit);
    }
  }

  /** `break_into_buckets_n_free` over `total` pages from the page of `addr`, none of them
      free yet, in memory below `limit < 2^|zones|` pages: it does not panic, and leaves
      aligned, non-overlapping free blocks below `limit` holding exactly `total` more pages. */
  lemma BreakSafe(zones: Zones, addr: nat, total: nat, limit: nat)
    requires 1 <= |zones| <= 64
    requires Aligned(zones) && Disjoint(zones) && Below(zones, limit) && limit < BlockSize(|zones|)
    requires (addr / PAGE_SIZE + total) * PAGE_SIZE <= limit
    requires Apart(zones, addr / PAGE_SIZE * PAGE_SIZE, total * PAGE_SIZE)
    ensures BreakSpec(zones, addr, total).Some?
    ensures var z := BreakSpec(zones, addr, total).value;
      Aligned(z) && Disjoint(z) && Below(z, limit) && FreePages(z) == FreePages(zones) + total
  {
    BreakFromSafe(zones, addr / PAGE_SIZE, total, limit);
    BreakFromGrant(zones, addr / PAGE_SIZE, total);
  }

  // ---------------------------------------------------------------------------------------
  // Sizing the zones

  /** `new_from_limine`'s zone count, `ilog2(total_page_count) + 1`: the fewest zones whose
      top block is larger than all of memory. `ilog2` panics on 0. */
  function ZonesCount(totalPages: nat): (r: nat)
    requires totalPages > 0
    ensures r >= 1 && Pow2(r - 1) <= totalPages < Pow2(r)
  {
    if totalPages == 1 then 1 else ZonesCount(totalPages / 2) + 1
  }

  /** With that many zones, memory of `totalPages` pages lies below the size of a block one
      zone above the top: the bound under which `coalesce` and `break_into_buckets_n_free`
      never panic. */
  lemma ZonesCountCovers(totalPages: nat)
    requires totalPages > 0
    ensures totalPages * PAGE_SIZE < BlockSize(ZonesCount(totalPages))
  {
    var n := ZonesCount(totalPages);
    BlockSizes(n);
    MulLess(totalPages, Pow2(n), PAGE_SIZE);
  }

  // ---------------------------------------------------------------------------------------
  // Freeing two buddies

  /** Freeing the lower half `a` of a block of zone `i + 1` while zone `i` is empty pushes it
      onto zone `i`. */
  lemma FreeLowerBuddy(zones: Zones, a: nat, i: nat)
    requires i + 1 < |zones| && i < 63 && a % BlockSize(i + 1) == 0
    requires zones[i] == [] && Apart(zones, a, BlockSize(i + 1))
    ensures FreeSpec(zones, a, Pow2(i)) == Some((Ok(()), PushToZoneSpec(zones, a, i)))
  {
    Pow2Order(i, 63);
    Pow2Word();
    CheckedOrderOfPow2(i);
    BlockSizes(i);
    AlignedBelow(a, i, i + 1);
    ApartInside(zones, a, BlockSize(i), a, BlockSize(i + 1));
    ApartNotFree(zones, a, Pow2(i));
    BuddyArith(a, i);
    assert IndexOf(zones[i], GetBuddyAddr(a, i)).None?;
  }

  /** Then freeing its buddy `a + BlockSize(i)` merges the two: zone `i` is empty again and
      the whole block is pushed onto zone `i + 1`, provided its own buddy is not free. */
  lemma FreeUpperBuddy(zones: Zones, a: nat, i: nat)
    requires i + 1 < |zones| && i < 63 && a % BlockSize(i + 1) == 0
    requires zones[i] == [] && Apart(zones, a, BlockSize(i + 1))
    requires GetBuddyAddr(a, i + 1) !in zones[i + 1]
    ensures FreeSpec(PushToZoneSpec(zones, a, i), a + BlockSize(i), Pow2(i))
         == Some((Ok(()), PushToZoneSpec(zones, a, i + 1)))
  {
    Pow2Order(i, 63);
    Pow2Word();
    CheckedOrderOfPow2(i);
    UpperIsPageFree(zones, a, i);
    UpperCoalesce(zones, a, i);
    FreeByCoalesce(PushToZoneSpec(zones, a, i), a + BlockSize(i), Pow2(i), i,
      PushToZoneSpec(zones, a, i + 1));
  }

  /** An accepted `free` is its coalescing. */
  lemma FreeByCoalesce(zones: Zones, addr: nat, count: nat, order: nat, z: Zones)
    requires count > 0 && CheckedOrder(count) == Ok(order)
    requires IsPageFreeSpec(zones, addr, count) == Ok(false)
    requires addr % BlockSize(order) == 0 && CoalesceSpec(zones, addr, order) == Some(z)
    ensures FreeSpec(zones, addr, count) == Some((Ok(()), z))
  {
    IsPageFreeRounded(zones, addr, count);
  }

  /** Coalescing the buddy `a + BlockSize(i)` with `a`, alone on zone `i`, takes `a` out and
      pushes the merged block onto zone `i + 1`. */
  lemma UpperCoalesce(zones: Zones, a: nat, i: nat)
    requires i + 1 < |zones| && a % BlockSize(i + 1) == 0 && zones[i] == []
    requires GetBuddyAddr(a, i + 1) !in zones[i + 1]
    ensures (a + BlockSize(i)) % BlockSize(i) == 0
    ensures CoalesceSpec(PushToZoneSpec(zones, a, i), a + BlockSize(i), i)
         == Some(PushToZoneSpec(zones, a, i + 1))
  {
    var z1 := PushToZoneSpec(zones, a, i);
    var b := a + BlockSize(i);
    AlignedBelow(a, i, i + 1);
    BuddyAbove(a, i);
    BuddyArith(b, i);
    assert GetBuddyAddr(b, i) == a;
    assert IndexOf(z1[i], a) == Some(0);
    var z2 := PopFromZoneSpec(z1, i, 0);
    assert z2 == zones;
    assert NextBucketAddr(b, a) == a;
    assert IndexOf(zones[i + 1], GetBuddyAddr(a, i + 1)).None?;
  }

  /** The buddy `a + BlockSize(i)` is not free once `a` alone has been pushed onto the empty
      zone `i`. */
  lemma UpperIsPageFree(zones: Zones, a: nat, i: nat)
    requires i + 1 < |zones| && i < 63 && a % BlockSize(i + 1) == 0
    requires zones[i] == [] && Apart(zones, a, BlockSize(i + 1))
    ensures IsPageFreeSpec(PushToZoneSpec(zones, a, i), a + BlockSize(i), Pow2(i)) == Ok(false)
  {
    var z1 := PushToZoneSpec(zones, a, i);
    var b := a + BlockSize(i);
    Pow2Order(i, 63);
    Pow2Word();
    CheckedOrderOfPow2(i);
    BlockSizes(i);
    BlockSizes(i + 1);
    AlignedBelow(a, i, i + 1);
    BuddyAbove(a, i);
    assert b % (PAGE_SIZE * Pow2(i)) == 0 by {
      assert PAGE_SIZE * Pow2(i) == BlockSize(i);
    }
    assert FirstHolding(z1[i], BlockSize(i), b).None?;
    UpperNotHeldAbove(zones, a, i);
    assert FindHoldingBlock(z1, b, i).None?;
    assert IsPageFreeSpec(z1, b, Pow2(i)) == Ok(FindHoldingBlock(z1, b, i).Some?);
  }

  /** No zone above `i` holds the upper buddy once `a` is pushed onto zone `i`: every block
      there lies apart from the whole block `a` starts. */
  lemma UpperNotHeldAbove(zones: Zones, a: nat, i: nat)
    requires i + 1 < |zones| && Apart(zones, a, BlockSize(i + 1))
    requires a + BlockSize(i) < a + BlockSize(i + 1)
    ensures forall j :: i < j < |zones| ==>
      FirstHolding(PushToZoneSpec(zones, a, i)[j], BlockSize(j), a + BlockSize(i)).None?
  {
    var z1 := PushToZoneSpec(zones, a, i);
    var b := a + BlockSize(i);
    forall j | i < j < |z1|
      ensures FirstHolding(z1[j], BlockSize(j), b).None?
    {
      forall k | 0 <= k < |z1[j]|
        ensures !Holds(z1[j][k], BlockSize(j), b)
      {
        assert z1[j][k] == zones[j][k];
        assert !Overlap(zones[j][k], BlockSize(j), a, BlockSize(i + 1));
      }
    }
  }

  /** Freeing both halves of an unused block of zone `i + 1`, zone `i` being empty, leaves
      exactly one more free block, the whole one, in zone `i + 1` (the coalescing of
      `free`). */
  lemma FreeBuddiesMerge(zones: Zones, a: nat, i: nat)
    requires i + 1 < |zones| && i < 63 && a % BlockSize(i + 1) == 0
    requires zones[i] == [] && Apart(zones, a, BlockSize(i + 1))
    requires GetBuddyAddr(a, i + 1) !in zones[i + 1]
    ensures FreeSpec(zones, a, Pow2(i)).Some?
    ensures var z1 := FreeSpec(zones, a, Pow2(i)).value;
      z1.0 == Ok(()) && FreeSpec(z1.1, a + BlockSize(i), Pow2(i))
        == Some((Ok(()), PushToZoneSpec(zones, a, i + 1)))
  {
    FreeLowerBuddy(zones, a, i);
    FreeUpperBuddy(zones, a, i);
  }

  // ---------------------------------------------------------------------------------------
  // Searching a zone, as the source's iterator chains do

  /** The `find` over a zone's nodes in `find_bucket`. */
  method FindAligned(list: seq<nat>, m: nat) returns (r: Option<nat>)
    requires m > 0
    ensures r == FirstAligned(list, m)
  {
    var k := 0;
    while k < |list|
      invariant k <= |list|
      invariant FirstAligned(list, m) == Shifted(FirstAligned(list[k..], m), k)
    {
      AlignedStep(list, m, k);
      if list[k] % m == 0 {
        return Some(k);
      }
      k := k + 1;
    }
    return None;
  }

  /** The `find` over a zone's nodes in `find_bucket_at` and `is_page_free`. */
  method FindHolding(list: seq<nat>, size: nat, addr: nat) returns (r: Option<nat>)
    ensures r == FirstHolding(list, size, addr)
  {
    var k := 0;
    while k < |list|
      invariant k <= |list|
      invariant FirstHolding(list, size, addr) == Shifted(FirstHolding(list[k..], size, addr), k)
    {
      HoldingStep(list, size, addr, k);
      if list[k] <= addr && addr < list[k] + size {
        return Some(k);
      }
      k := k + 1;
    }
    return None;
  }

  /** The `find` over a zone's nodes in `coalesce`. */
  method Find(list: seq<nat>, x: nat) returns (r: Option<nat>)
    ensures r == IndexOf(list, x)
  {
    var k := 0;
    while k < |list|
      invariant k <= |list|
      invariant IndexOf(list, x) == Shifted(IndexOf(list[k..], x), k)
    {
      if list[k] == x {
        return Some(k);
      }
      IndexOfStep(list, x, k);
      k := k + 1;
    }
    return None;
  }

  /** The aligned-block search at position `k`: found there, or it goes on in the next
      suffix. */
  lemma AlignedStep(list: seq<nat>, m: nat, k: nat)
    requires m > 0 && k < |list|
    ensures list[k] % m == 0 ==> Shifted(FirstAligned(list[k..], m), k) == Some(k)
    ensures list[k] % m != 0 ==>
      Shifted(FirstAligned(list[k..], m), k) == Shifted(FirstAligned(list[k + 1..], m), k + 1)
  {
    assert list[k..][0] == list[k];
    assert list[k..][1..] == list[k + 1..];
  }

  /** The holding-block search at position `k`: found there, or it goes on in the next
      suffix. */
  lemma HoldingStep(list: seq<nat>, size: nat, addr: nat, k: nat)
    requires k < |list|
    ensures Holds(list[k], size, addr) ==> Shifted(FirstHolding(list[k..], size, addr), k) == Some(k)
    ensures !Holds(list[k], size, addr) ==>
      Shifted(FirstHolding(list[k..], size, addr), k) == Shifted(FirstHolding(list[k + 1..], size, addr), k + 1)
  {
    assert list[k..][0] == list[k];
    assert list[k..][1..] == list[k + 1..];
  }

  /** Past a position that does not hold `x`, the search goes on in the next suffix. */
  lemma IndexOfStep(list: seq<nat>, x: nat, k: nat)
    requires k < |list| && list[k] != x
    ensures Shifted(IndexOf(list[k..], x), k) == Shifted(IndexOf(list[k + 1..], x), k + 1)
  {
    assert list[k..][1..] == list[k + 1..];
  }

  /** A position found in a suffix starting at `k`, as a position of the whole sequence. */
  function Shifted(r: Option<nat>, k: nat): Option<nat>
  {
    match r
    case None => None
    case Some(j) => Some(j + k)
  }

  /** The inner loop of `break_into_buckets_n_free`: the zones from the top down, looking for
      the first that fits. */
  method FindFit(id: nat, total: nat, top: nat) returns (r: Option<nat>)
    ensures r == LargestFit(id, total, top)
  {
    var i: nat := top;
    while i > 0
      invariant i <= top
      invariant LargestFit(id, total, top) == LargestFit(id, total, i)
    {
      var pages := Pow2(i - 1);
      if id % pages == 0 && total >= pages {
        return Some(i - 1);
      }
      i := i - 1;
    }
    return None;
  }

  /** A round of the break loop that does not panic goes on from where its step leaves it. */
  lemma BreakRound(zones: Zones, id: nat, total: nat)
    requires total > 0 && BreakFrom(zones, id, total).Some?
    ensures BreakStep(zones, id, total).Some?
    ensures var step := BreakStep(zones, id, total).value;
      BreakFrom(zones, id, total) == BreakFrom(step.0, step.1, step.2)
  {
  }

  /** The step of an accepted round: the zone `LargestFit` picks, whose `free` is accepted. */
  lemma BreakStepShape(zones: Zones, id: nat, total: nat)
    requires total > 0 && BreakStep(zones, id, total).Some?
    ensures LargestFit(id, total, |zones|).Some?
    ensures var i := LargestFit(id, total, |zones|).value;
      var step := BreakStep(zones, id, total).value;
      Pow2(i) <= total && step.1 == id + Pow2(i) && step.2 == total - Pow2(i)
      && FreeSpec(zones, id * PAGE_SIZE, Pow2(i)) == Some((Ok(()), step.0))
  {
  }

  // ---------------------------------------------------------------------------------------
  // The allocator

  /** `BuddyAllocator`: one list of free block addresses per zone, top of the list first.
      Zone `i` holds blocks of 2^i pages. */
  class BuddyAllocator {
    var zones: Zones

    /** Every free block is aligned to its size. */
    ghost predicate Valid()
      reads this
    {
      Aligned(zones)
    }

    /** `create_zones`: `zonesCount` empty zones. */
    constructor New(zonesCount: nat)
      ensures zones == seq(zonesCount, _ => []) && Valid()
    {
      var z: Zones := [];
      while |z| < zonesCount
        invariant |z| <= zonesCount && z == seq(|z|, _ => [])
      {
        z := z + [[]];
      }
      zones := z;
    }

    /** `pop_from_zone`: removes the block at position `k` of zone `i`. */
    method PopFromZone(i: nat, k: nat)
      requires i < |zones| && k < |zones[i]|
      modifies this
      ensures zones == PopFromZoneSpec(old(zones), i, k)
    {
      zones := zones[i := Without(zones[i], k)];
    }

    /** `push_to_zone`: puts the block at `addr` on top of zone `i`. */
    method PushToZone(addr: nat, i: nat)
      requires i < |zones|
      modifies this
      ensures zones == PushToZoneSpec(old(zones), addr, i)
    {
      zones := zones[i := [addr] + zones[i]];
    }

    /** `find_bucket`. */
    method FindBucket(alignment: nat, start: nat) returns (r: Result<(nat, nat), PmmError>)
      requires alignment > 0
      modifies this
      ensures (r, zones) == FindBucketSpec(old(zones), alignment, start)
    {
      var m := PAGE_SIZE * alignment;
      var i := start;
      while i < |zones|
        invariant zones == old(zones)
        invariant FindAlignedBlock(zones, m, start) == FindAlignedBlock(zones, m, i)
        decreases |zones| - i
      {
        var k := FindAligned(zones[i], m);
        if k.Some? {
          var ret := zones[i][k.value];
          PopFromZone(i, k.value);
          return Ok((ret, i));
        }
        i := i + 1;
      }
      return Err(NoAvailableBlock);
    }

    /** `find_bucket_at`. */
    method FindBucketAt(addr: nat, start: nat) returns (r: Result<(nat, nat), PmmError>)
      modifies this
      ensures (r, zones) == FindBucketAtSpec(old(zones), addr, start)
    {
      var i := start;
      while i < |zones|
        invariant zones == old(zones)
        invariant FindHoldingBlock(zones, addr, start) == FindHoldingBlock(zones, addr, i)
        decreases |zones| - i
      {
        var k := FindHolding(zones[i], Pow2(i) * PAGE_SIZE, addr);
        BlockSizes(i);
        if k.Some? {
          var ret := zones[i][k.value];
          PopFromZone(i, k.value);
          return Ok((ret, i));
        }
        i := i + 1;
      }
      return Err(NoAvailableBlock);
    }

    /** `disband`. */
    method Disband(addr: nat, start: nat, used: nat)
      requires used <= |zones| && (start < used ==> addr % BlockSize(start) == 0)
      modifies this
      ensures zones == DisbandSpec(old(zones), addr, start, used)
    {
      var a: nat := addr;
      var i: nat := start;
      while i < used
        invariant |zones| == |old(zones)|
        invariant i < used ==> a % BlockSize(i) == 0
        invariant DisbandSpec(zones, a, i, used) == DisbandSpec(old(zones), addr, start, used)
        decreases used - i
      {
        var buddy := GetBuddyAddr(a, i);
        BuddyArith(a, i);
        PushToZone(buddy, i);
        a := NextBucketAddr(a, buddy);
        if i + 1 < used {
          AlignedBelow(a, i + 1, i + 1);
        }
        i := i + 1;
      }
    }

    /** `coalesce`; the caller must not reach its `unreachable!()`. */
    method Coalesce(addr: nat, start: nat)
      requires addr % BlockSize(start) == 0 && CoalesceSpec(zones, addr, start).Some?
      modifies this
      ensures zones == CoalesceSpec(old(zones), addr, start).value
    {
      var a: nat := addr;
      var i: nat := start;
      while i < |zones|
        invariant a % BlockSize(i) == 0
        invariant CoalesceSpec(zones, a, i) == CoalesceSpec(old(zones), addr, start)
        decreases |zones| - i
      {
        var buddy := GetBuddyAddr(a, i);
        var k := Find(zones[i], buddy);
        if k.Some? {
          BuddyArith(a, i);
          PopFromZone(i, k.value);
          a := NextBucketAddr(a, buddy);
        } else {
          PushToZone(a, i);
          return;
        }
        i := i + 1;
      }
      assert false;
    }

    /** `is_page_free`. */
    method IsPageFree(addr: nat, count: nat) returns (r: Result<bool, PmmError>)
      ensures r == IsPageFreeSpec(zones, addr, count)
    {
      if count == 0 {
        return Err(EmptyAllocation);
      }
      var order := CheckedOrder(count);
      if order.Err? {
        return Err(order.error);
      }
      BlockSizes(order.value);
      if addr % (PAGE_SIZE * Pow2(order.value)) != 0 {
        return Err(InvalidAlignment);
      }
      var i := order.value;
      while i < |zones|
        invariant FindHoldingBlock(zones, addr, order.value) == FindHoldingBlock(zones, addr, i)
        decreases |zones| - i
      {
        var k := FindHolding(zones[i], Pow2(i) * PAGE_SIZE, addr);
        BlockSizes(i);
        if k.Some? {
          return Ok(true);
        }
        i := i + 1;
      }
      return Ok(false);
    }

    /** `allocate`. */
    method Allocate(alignment: nat, count: nat) returns (r: Result<nat, PmmError>)
      requires Valid() && alignment > 0
      modifies this
      ensures (r, zones) == AllocateSpec(old(zones), alignment, count)
      ensures Valid()
    {
      AllocateGrant(zones, alignment, count);
      if count == 0 {
        return Err(EmptyAllocation);
      }
      var order := CheckedOrder(count);
      if order.Err? {
        return Err(order.error);
      }
      ghost var found := FindAlignedBlock(zones, PAGE_SIZE * alignment, order.value);
      var bucket := FindBucket(alignment, order.value);
      if bucket.Err? {
        return Err(bucket.error);
      }
      var (a, j) := bucket.value;
      AlignedBelow(a, order.value, j);
      Disband(a, order.value, j);
      return Ok(a);
    }

    /** `allocate_at`. */
    method AllocateAt(addr: nat, count: nat) returns (r: Result<(), PmmError>)
      requires Valid()
      modifies this
      ensures (r, zones) == AllocateAtSpec(old(zones), addr, count)
      ensures Valid()
    {
      AllocateAtGrant(zones, addr, count);
      if count == 0 {
        return Err(EmptyAllocation);
      }
      var order := CheckedOrder(count);
      if order.Err? {
        return Err(order.error);
      }
      BlockSizes(order.value);
      if addr % (PAGE_SIZE * Pow2(order.value)) != 0 {
        return Err(InvalidAlignment);
      }
      var bucket := FindBucketAt(addr, order.value);
      if bucket.Err? {
        return Err(bucket.error);
      }
      Disband(addr, order.value, bucket.value.1);
      return Ok(());
    }

    /** `free`; the caller must not reach the `unreachable!()` of `coalesce`. */
    method Free(addr: nat, count: nat) returns (r: Result<(), PmmError>)
      requires Valid() && FreeSpec(zones, addr, count).Some?
      modifies this
      ensures (r, zones) == FreeSpec(old(zones), addr, count).value
      ensures Valid()
    {
      FreeGrant(zones, addr, count);
      FreeRefusals(zones, addr, count);
      if count == 0 {
        return Err(EmptyFree);
      }
      var order := CheckedOrder(count);
      if order.Err? {
        return Err(order.error);
      }
      CheckedOrderOfPow2(order.value);
      var free := IsPageFree(addr, Pow2(order.value));
      if free.Err? {
        return Err(free.error);
      }
      if free.value {
        return Err(FreeOfAlreadyFree);
      }
      Coalesce(addr, order.value);
      return Ok(());
    }

    /** `break_into_buckets_n_free`; the caller must not reach its `unreachable!()` or the
        `unwrap` of a refused `free`. */
    method BreakIntoBucketsNFree(addr: nat, total: nat)
      requires Valid() && BreakSpec(zones, addr, total).Some?
      modifies this
      ensures zones == BreakSpec(old(zones), addr, total).value
      ensures Valid()
    {
      ghost var goal := BreakSpec(zones, addr, total);
      var id: nat := addr / PAGE_SIZE;
      var left: nat := total;
      while left > 0
        invariant Valid() && BreakFrom(zones, id, left) == goal
        decreases left
      {
        BreakRound(zones, id, left);
        BreakStepShape(zones, id, left);
        ghost var step := BreakStep(zones, id, left).value;
        var fit := FindFit(id, left, |zones|);
        var pages := Pow2(fit.value);
        var r := Free(id * PAGE_SIZE, pages);
        id, left := id + pages, left - pages;
        assert zones == step.0 && id == step.1 && left == step.2;
      }
    }
  }
}
