/** The bitmap bump physical-memory allocator: one bit per 4 KiB page, set while the page is
    taken. Runs of pages are found by a first-fit scan over aligned start pages. */
module BumpPmm {
  import opened Common

  datatype PmmError = OutOfBounds | NoAvailableBlock | FreeOfAlreadyFree | InvalidAlignment | InvalidAddress

  /** `addr_to_page_id`: None for an address that is not page aligned. */
  function AddrToPageId(addr: nat): (r: Option<nat>)
    ensures r.Some? <==> addr % PAGE_SIZE == 0
    ensures r.Some? ==> r.value * PAGE_SIZE == addr
  {
    if addr % PAGE_SIZE != 0 then None else Some(addr / PAGE_SIZE)
  }

  /** Pages `i .. i + c` are all free. */
  predicate RunFree(taken: seq<bool>, i: nat, c: nat)
    requires i + c <= |taken|
  {
    forall j :: i <= j < i + c ==> !taken[j]
  }

  /** Pages `i .. i + c` are all taken. */
  predicate RunTaken(taken: seq<bool>, i: nat, c: nat)
    requires i + c <= |taken|
  {
    forall j :: i <= j < i + c ==> taken[j]
  }

  /** The bitmap with pages `i .. i + c` set to `v`. */
  function Fill(taken: seq<bool>, i: nat, c: nat, v: bool): (r: seq<bool>)
    requires i + c <= |taken|
    ensures |r| == |taken|
  {
    seq(|taken|, k requires 0 <= k < |taken| => if i <= k < i + c then v else taken[k])
  }

  /** The first-fit scan from start page `i` in steps of `a`: the first start page whose run of
      `c` pages ends at or below `limit` and is free. */
  function FitFrom(taken: seq<bool>, a: nat, c: nat, limit: nat, i: nat): (r: Option<nat>)
    requires a >= 1 && limit <= |taken|
    ensures r.Some? ==> i <= r.value && r.value + c <= limit && RunFree(taken, r.value, c)
    decreases limit + a - i
  {
    if i + c > limit then None
    else if RunFree(taken, i, c) then Some(i)
    else FitFrom(taken, a, c, limit, i + a)
  }

  /** The page bound of the scan as the source writes it (`i + page_count >= used_bits_count`
      stops the scan), and as evidently intended (a run may end at the last page). */
  function LimitAsWritten(n: nat): nat { if n == 0 then 0 else n - 1 }

  /** `alloc_any` on the bitmap scanned up to `limit`: the new bitmap and the result. */
  function AllocAnySpec(taken: seq<bool>, a: nat, c: nat, limit: nat): (seq<bool>, Result<nat, PmmError>)
    requires a >= 1 && limit <= |taken|
  {
    match FitFrom(taken, a, c, limit, 0)
    case None => (taken, Err(NoAvailableBlock))
    case Some(i) => (Fill(taken, i, c, true), Ok(i * PAGE_SIZE))
  }

  /** `alloc_at`. */
  function AllocAtSpec(taken: seq<bool>, addr: nat, c: nat): (seq<bool>, Result<(), PmmError>)
    requires c >= 1
  {
    match AddrToPageId(addr)
    case None => (taken, Err(InvalidAddress))
    case Some(id) =>
      if id + c - 1 >= |taken| then (taken, Err(OutOfBounds))
      else if !RunFree(taken, id, c) then (taken, Err(NoAvailableBlock))
      else (Fill(taken, id, c, true), Ok(()))
  }

  /** `free`. */
  function FreeSpec(taken: seq<bool>, addr: nat, c: nat): (seq<bool>, Result<(), PmmError>)
    requires c >= 1
  {
    match AddrToPageId(addr)
    case None => (taken, Err(InvalidAddress))
    case Some(id) =>
      if id + c - 1 >= |taken| then (taken, Err(OutOfBounds))
      else if !RunTaken(taken, id, c) then (taken, Err(FreeOfAlreadyFree))
      else (Fill(taken, id, c, false), Ok(()))
  }

  /** `is_page_free` with the bound `id + count >= upper` reported as OutOfBounds: the source
      passes `upper = used_bits_count`, the corrected check `used_bits_count + 1`. */
  function IsPageFreeSpec(taken: seq<bool>, addr: nat, c: nat, upper: nat): Result<bool, PmmError>
    requires c >= 1 && upper <= |taken| + 1
  {
    match AddrToPageId(addr)
    case None => Err(InvalidAddress)
    case Some(id) =>
      if id + c >= upper then Err(OutOfBounds)
      else Ok(RunFree(taken, id, c))
  }

  lemma ModAddSelf(i: nat, a: nat)
    requires a >= 1 && i % a == 0
    ensures (i + a) % a == 0
  {
    DivModUnique(i, a, i / a, 0);
    DivModUnique(i + a, a, i / a + 1, 0);
  }

  /** Two multiples of `a` less than `a` apart are equal. */
  lemma MultiplesApart(i: nat, k: nat, a: nat)
    requires a >= 1 && i % a == 0 && k % a == 0 && i <= k < i + a
    ensures k == i
  {
    DivModUnique(i, a, i / a, 0);
    DivModUnique(k, a, k / a, 0);
    if k / a > i / a {
      MulDistributes(k / a, i / a, a);
      MulAtLeast(k / a - i / a, a);
    } else if k / a < i / a {
      MulDistributes(i / a, k / a, a);
      MulAtLeast(i / a - k / a, a);
    }
  }

  /** First fit: a scan from an aligned page finds an aligned start page at or after it whose
      run fits below `limit` and is free, and no aligned page between them has that property;
      it finds none exactly when no aligned page from there on has it. */
  lemma {:induction false} FitFromIsFirstFit(taken: seq<bool>, a: nat, c: nat, limit: nat, i: nat)
    requires a >= 1 && limit <= |taken| && i % a == 0
    ensures FitFrom(taken, a, c, limit, i).Some? ==>
      var r := FitFrom(taken, a, c, limit, i).value;
      i <= r && r % a == 0 && r + c <= limit && RunFree(taken, r, c)
      && forall k: nat :: i <= k < r && k % a == 0 ==> !RunFree(taken, k, c)
    ensures FitFrom(taken, a, c, limit, i).None? ==>
      forall k: nat :: i <= k && k % a == 0 && k + c <= limit ==> !RunFree(taken, k, c)
    decreases limit + a - i
  {
    if i + c <= limit && !RunFree(taken, i, c) {
      ModAddSelf(i, a);
      FitFromIsFirstFit(taken, a, c, limit, i + a);
      forall k: nat | i <= k < i + a && k % a == 0
        ensures k == i
      {
        MultiplesApart(i, k, a);
      }
    }
  }

  /** A successful `alloc_any` returns the address of an aligned start page whose `c` pages
      were free and are now taken, all other pages unchanged; NoAvailableBlock means no aligned
      free run fits below the bound, and changes nothing. */
  lemma AllocAnyProperties(taken: seq<bool>, a: nat, c: nat, limit: nat)
    requires a >= 1 && limit <= |taken|
    ensures AllocAnySpec(taken, a, c, limit).1.Ok? ==>
      var addr := AllocAnySpec(taken, a, c, limit).1.value;
      var i := addr / PAGE_SIZE;
      addr % PAGE_SIZE == 0 && i % a == 0 && i + c <= limit && RunFree(taken, i, c)
      && AllocAnySpec(taken, a, c, limit).0 == Fill(taken, i, c, true)
      && RunTaken(AllocAnySpec(taken, a, c, limit).0, i, c)
    ensures AllocAnySpec(taken, a, c, limit).1.Err? <==>
      forall k: nat :: k % a == 0 && k + c <= limit ==> !RunFree(taken, k, c)
    ensures AllocAnySpec(taken, a, c, limit).1.Err? ==>
      AllocAnySpec(taken, a, c, limit) == (taken, Err(NoAvailableBlock))
  {
    FitFromIsFirstFit(taken, a, c, limit, 0);
    match FitFrom(taken, a, c, limit, 0)
    case None =>
    case Some(i) =>
      DivModUnique(i * PAGE_SIZE, PAGE_SIZE, i, 0);
  }

  /** `alloc_at` and `free` undo each other: freeing a run that was just allocated restores the
      bitmap, and allocating a run that was just freed does too. */
  lemma AllocAtFreeRoundTrip(taken: seq<bool>, addr: nat, c: nat)
    requires c >= 1
    ensures AllocAtSpec(taken, addr, c).1.Ok? ==>
      FreeSpec(AllocAtSpec(taken, addr, c).0, addr, c) == (taken, Ok(()))
    ensures FreeSpec(taken, addr, c).1.Ok? ==>
      AllocAtSpec(FreeSpec(taken, addr, c).0, addr, c) == (taken, Ok(()))
  {
    match AddrToPageId(addr)
    case None =>
    case Some(id) =>
      if id + c - 1 < |taken| {
        var filled := Fill(taken, id, c, true);
        var cleared := Fill(taken, id, c, false);
        if RunFree(taken, id, c) {
          assert Fill(filled, id, c, false) == taken;
        }
        if RunTaken(taken, id, c) {
          assert Fill(cleared, id, c, true) == taken;
        }
      }
  }

  /** `alloc_at` fails with NoAvailableBlock, and changes nothing, as soon as one page of the
      run is taken; `free` fails with FreeOfAlreadyFree, changing nothing, as soon as one page
      is free. */
  lemma AllocAtFreeErrors(taken: seq<bool>, id: nat, c: nat, j: nat)
    requires c >= 1 && id + c <= |taken| && id <= j < id + c
    ensures taken[j] ==> AllocAtSpec(taken, id * PAGE_SIZE, c) == (taken, Err(NoAvailableBlock))
    ensures !taken[j] ==> FreeSpec(taken, id * PAGE_SIZE, c) == (taken, Err(FreeOfAlreadyFree))
  {
    DivModUnique(id * PAGE_SIZE, PAGE_SIZE, id, 0);
  }

  /** With the corrected bound, `is_page_free` is true exactly when all pages of a run that
      lies in the bitmap are free, and reports OutOfBounds exactly when the run does not. */
  lemma IsPageFreeExact(taken: seq<bool>, id: nat, c: nat)
    requires c >= 1
    ensures IsPageFreeSpec(taken, id * PAGE_SIZE, c, |taken| + 1) == Err(OutOfBounds) <==> id + c > |taken|
    ensures id + c <= |taken| ==>
      IsPageFreeSpec(taken, id * PAGE_SIZE, c, |taken| + 1) == Ok(RunFree(taken, id, c))
  {
    DivModUnique(id * PAGE_SIZE, PAGE_SIZE, id, 0);
  }

  /** The source's bounds reject the run ending at the last page: on two free pages,
      `alloc_any` of two pages finds nothing and `is_page_free` of both reports OutOfBounds,
      while the corrected bounds allocate page 0 and report the run free. */
  lemma LastPageUnreachable()
    ensures AllocAnySpec([false, false], 1, 2, LimitAsWritten(2)).1 == Err(NoAvailableBlock)
    ensures AllocAnySpec([false, false], 1, 2, 2).1 == Ok(0)
    ensures IsPageFreeSpec([false, false], 0, 2, 2) == Err(OutOfBounds)
    ensures IsPageFreeSpec([false, false], 0, 2, 3) == Ok(true)
  {
    assert RunFree([false, false], 0, 2);
  }

  class BumpAllocator {
    /** The page bitmap (`StaticBitmap`), true while a page is taken. */
    var pages: array<bool>

    constructor (taken: seq<bool>)
      ensures pages[..] == taken && fresh(pages)
    {
      pages := new bool[|taken|](k requires 0 <= k < |taken| => taken[k]);
    }

    /** Whether pages `i .. i + c` are all free (the check loops of the source). */
    method CheckFree(i: nat, c: nat) returns (free: bool)
      requires i + c <= pages.Length
      ensures free == RunFree(pages[..], i, c)
    {
      var j := 0;
      while j < c
        invariant 0 <= j <= c
        invariant RunFree(pages[..], i, j)
      {
        if pages[i + j] {
          return false;
        }
        j := j + 1;
      }
      return true;
    }

    /** Whether pages `i .. i + c` are all taken. */
    method CheckTaken(i: nat, c: nat) returns (taken: bool)
      requires i + c <= pages.Length
      ensures taken == RunTaken(pages[..], i, c)
    {
      var j := 0;
      while j < c
        invariant 0 <= j <= c
        invariant RunTaken(pages[..], i, j)
      {
        if !pages[i + j] {
          return false;
        }
        j := j + 1;
      }
      return true;
    }

    /** Sets pages `i .. i + c` to `v` (the set/unset loops of the source). */
    method FillRun(i: nat, c: nat, v: bool)
      requires i + c <= pages.Length
      modifies pages
      ensures pages[..] == Fill(old(pages[..]), i, c, v)
    {
      var j := 0;
      while j < c
        invariant 0 <= j <= c
        invariant pages[..] == Fill(old(pages[..]), i, j, v)
      {
        pages[i + j] := v;
        j := j + 1;
      }
    }

    /** The scan of `alloc_any`, stopping at the first aligned start page whose run would not
        end at or below `limit`. */
    method AllocAnyUpTo(alignment: nat, count: nat, limit: nat) returns (r: Result<nat, PmmError>)
      requires alignment >= 1 && count >= 1 && limit <= pages.Length
      modifies pages
      ensures (pages[..], r) == AllocAnySpec(old(pages[..]), alignment, count, limit)
    {
      var n := pages.Length;
      var i := 0;
      while i < n
        invariant pages[..] == old(pages[..])
        invariant FitFrom(pages[..], alignment, count, limit, i) == FitFrom(pages[..], alignment, count, limit, 0)
        decreases n - i
      {
        if i + count > limit {
          break;
        }
        var free := CheckFree(i, count);
        if free {
          FillRun(i, count, true);
          return Ok(i * PAGE_SIZE);
        }
        i := i + alignment;
      }
      return Err(NoAvailableBlock);
    }

    /** `alloc_any` as the source writes it: the scan stops once `i + count >= used_bits_count`,
        so a run ending at the last page is never handed out. */
    method AllocAnyAsWritten(alignment: nat, count: nat) returns (r: Result<nat, PmmError>)
      requires alignment >= 1 && count >= 1
      modifies pages
      ensures (pages[..], r) == AllocAnySpec(old(pages[..]), alignment, count, LimitAsWritten(pages.Length))
    {
      r := AllocAnyUpTo(alignment, count, LimitAsWritten(pages.Length));
    }

    /** `alloc_any` with the scan bound corrected to `i + count > used_bits_count`. */
    method AllocAny(alignment: nat, count: nat) returns (r: Result<nat, PmmError>)
      requires alignment >= 1 && count >= 1
      modifies pages
      ensures (pages[..], r) == AllocAnySpec(old(pages[..]), alignment, count, pages.Length)
    {
      r := AllocAnyUpTo(alignment, count, pages.Length);
    }

    /** `alloc_at`. */
    method AllocAt(addr: nat, count: nat) returns (r: Result<(), PmmError>)
      requires count >= 1
      modifies pages
      ensures (pages[..], r) == AllocAtSpec(old(pages[..]), addr, count)
    {
      if addr % PAGE_SIZE != 0 {
        return Err(InvalidAddress);
      }
      var id := addr / PAGE_SIZE;
      if id + count - 1 >= pages.Length {
        return Err(OutOfBounds);
      }
      var free := CheckFree(id, count);
      if !free {
        return Err(NoAvailableBlock);
      }
      FillRun(id, count, true);
      return Ok(());
    }

    /** `free`: every page must be taken before any is cleared. */
    method Free(addr: nat, count: nat) returns (r: Result<(), PmmError>)
      requires count >= 1
      modifies pages
      ensures (pages[..], r) == FreeSpec(old(pages[..]), addr, count)
    {
      if addr % PAGE_SIZE != 0 {
        return Err(InvalidAddress);
      }
      var id := addr / PAGE_SIZE;
      if id + count - 1 >= pages.Length {
        return Err(OutOfBounds);
      }
      var taken := CheckTaken(id, count);
      if !taken {
        return Err(FreeOfAlreadyFree);
      }
      FillRun(id, count, false);
      return Ok(());
    }

    /** `is_page_free` against the bound `id + count >= upper`. */
    method IsPageFreeUpTo(addr: nat, count: nat, upper: nat) returns (r: Result<bool, PmmError>)
      requires count >= 1 && upper <= pages.Length + 1
      ensures r == IsPageFreeSpec(pages[..], addr, count, upper)
    {
      if addr % PAGE_SIZE != 0 {
        return Err(InvalidAddress);
      }
      var id := addr / PAGE_SIZE;
      if id + count >= upper {
        return Err(OutOfBounds);
      }
      var free := CheckFree(id, count);
      return Ok(free);
    }

    /** `is_page_free` as the source writes it (`id + count >= used_bits_count`). */
    method IsPageFreeAsWritten(addr: nat, count: nat) returns (r: Result<bool, PmmError>)
      requires count >= 1
      ensures r == IsPageFreeSpec(pages[..], addr, count, pages.Length)
    {
      r := IsPageFreeUpTo(addr, count, pages.Length);
    }

    /** `is_page_free` with the bound corrected to `id + count > used_bits_count`. */
    method IsPageFree(addr: nat, count: nat) returns (r: Result<bool, PmmError>)
      requires count >= 1
      ensures r == IsPageFreeSpec(pages[..], addr, count, pages.Length + 1)
    {
      r := IsPageFreeUpTo(addr, count, pages.Length + 1);
    }
  }
}
