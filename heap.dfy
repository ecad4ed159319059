/** The kernel heap: ten object-slab caches of sizes 2^6 .. 2^15 bytes, and the choice of
    cache for a layout. */
module KernelHeap {
  import opened Common

  const MIN_POW: nat := 6
  const MAX_POW: nat := 15
  /** Number of size classes. */
  const SIZE: nat := 10

  /** A `Layout`: a size and a power-of-two alignment. */
  datatype Layout = Layout(size: nat, align: nat)

  predicate ValidLayout(l: Layout)
  {
    l.align >= 1 && IsPow2(l.align)
  }

  /** The object size of cache `index` (`[u8; 2^(index + 6)]`). */
  function ClassSize(index: nat): nat
  {
    Pow2(index + MIN_POW)
  }

  /** `get_matching_allocator_index`: the source asserts that the padded size's next power of
      two is at most 2^15. The index is that of the smallest cache whose objects hold the
      padded size. */
  function GetMatchingAllocatorIndex(l: Layout): (index: nat)
    requires ValidLayout(l)
    requires CeilLog2(PadToAlign(l.size, l.align)) <= MAX_POW
    ensures index < SIZE
    ensures ClassSize(index) >= PadToAlign(l.size, l.align)
    ensures index > 0 ==> ClassSize(index - 1) < PadToAlign(l.size, l.align)
  {
    var padded := PadToAlign(l.size, l.align);
    var pow := CeilLog2(padded);
    NextPow2Bounds(padded);
    if pow <= MIN_POW then
      Pow2Monotone(pow, MIN_POW);
      0
    else
      pow - MIN_POW
  }

  /** The assertion of `get_matching_allocator_index` holds exactly for layouts whose padded
      size is at most 2^15 bytes, the largest cache. */
  lemma {:induction false} IndexAssertion(l: Layout)
    requires ValidLayout(l)
    ensures CeilLog2(PadToAlign(l.size, l.align)) <= MAX_POW <==> PadToAlign(l.size, l.align) <= ClassSize(SIZE - 1)
  {
    var padded := PadToAlign(l.size, l.align);
    var pow := CeilLog2(padded);
    NextPow2Bounds(padded);
    if pow <= MAX_POW {
      Pow2Monotone(pow, MAX_POW);
    } else {
      Pow2Monotone(MAX_POW, pow - 1);
    }
  }

  /** Padded sizes up to 2^6 share cache 0. */
  lemma SmallSizesShareFirstCache(l: Layout)
    requires ValidLayout(l)
    requires PadToAlign(l.size, l.align) <= Pow2(MIN_POW)
    ensures CeilLog2(PadToAlign(l.size, l.align)) <= MAX_POW
    ensures GetMatchingAllocatorIndex(l) == 0
  {
    IndexAssertion(l);
    Pow2Monotone(MIN_POW, MAX_POW);
  }

  /** Otherwise the index is the exponent of the padded size's next power of two, minus 6. */
  lemma {:induction false} IndexIsLogMinusSix(l: Layout)
    requires ValidLayout(l)
    requires Pow2(MIN_POW) < PadToAlign(l.size, l.align) <= Pow2(MAX_POW)
    ensures CeilLog2(PadToAlign(l.size, l.align)) <= MAX_POW
    ensures GetMatchingAllocatorIndex(l) == CeilLog2(PadToAlign(l.size, l.align)) - MIN_POW
  {
    IndexAssertion(l);
    NextPow2Bounds(PadToAlign(l.size, l.align));
    if CeilLog2(PadToAlign(l.size, l.align)) <= MIN_POW {
      Pow2Monotone(CeilLog2(PadToAlign(l.size, l.align)), MIN_POW);
    }
  }

  /** `alloc` picks a cache whose objects hold the padded size. */
  function AllocIndex(l: Layout): (index: nat)
    requires ValidLayout(l) && CeilLog2(PadToAlign(l.size, l.align)) <= MAX_POW
    ensures index < SIZE && ClassSize(index) >= PadToAlign(l.size, l.align)
  {
    GetMatchingAllocatorIndex(l)
  }

  /** `alloc` and `dealloc` both select the cache with `get_matching_allocator_index`, so a block
      goes back to the cache it came from. That cache is the smallest one holding the padded
      size: cache `j` holds it exactly when `j` is at or above the chosen index. */
  lemma {:induction false} IndexIsSmallestClass(l: Layout, j: nat)
    requires ValidLayout(l) && CeilLog2(PadToAlign(l.size, l.align)) <= MAX_POW
    requires j < SIZE
    ensures ClassSize(j) >= PadToAlign(l.size, l.align) <==> j >= GetMatchingAllocatorIndex(l)
  {
    var i := GetMatchingAllocatorIndex(l);
    if j >= i {
      Pow2Monotone(i + MIN_POW, j + MIN_POW);
    } else {
      Pow2Monotone(j + MIN_POW, i - 1 + MIN_POW);
    }
  }
}
