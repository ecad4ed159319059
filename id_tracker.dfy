/** `IdTracker`: an allocator of IDs from the inclusive pool `start ..= end`, with one bitmap
    bit per ID (bit `i` stands for ID `start + i`). */
module IdTrackers {
  import opened Common
  import opened Bitmaps

  datatype IdTrackerError = OutOfIds | IdAlreadyFree | InvalidId | IdAlreadyTaken

  /** The abstract state: which bits are set, and the pool range. */
  datatype TrackerState = TrackerState(bits: seq<bool>, start: nat, end: nat)

  /** The lowest clear bit, if any. */
  function FirstClear(bits: seq<bool>): (r: Option<nat>)
    ensures r.Some? ==> r.value < |bits| && !bits[r.value]
    ensures r.Some? ==> forall k :: 0 <= k < r.value ==> bits[k]
    ensures r.None? ==> forall k :: 0 <= k < |bits| ==> bits[k]
  {
    if bits == [] then None
    else if !bits[0] then Some(0)
    else match FirstClear(bits[1..])
      case None => None
      case Some(k) => Some(k + 1)
  }

  /** `allocate`: the lowest free ID is taken. */
  function AllocateSpec(s: TrackerState): (TrackerState, Result<nat, IdTrackerError>)
  {
    match FirstClear(s.bits)
    case None => (s, Err(OutOfIds))
    case Some(i) => (s.(bits := s.bits[i := true]), Ok(s.start + i))
  }

  /** `allocate_at` as the source writes it: the ID is used as a bit index directly, without
      subtracting `start`. */
  function AllocateAtAsWrittenSpec(s: TrackerState, id: nat): (TrackerState, Result<(), IdTrackerError>)
  {
    if id >= |s.bits| then (s, Err(InvalidId))
    else if s.bits[id] then (s, Err(IdAlreadyTaken))
    else (s.(bits := s.bits[id := true]), Ok(()))
  }

  /** `allocate_at` with the offset applied as `allocate` and `free` do: IDs outside the pool
      are invalid. */
  function AllocateAtSpec(s: TrackerState, id: nat): (TrackerState, Result<(), IdTrackerError>)
  {
    if id < s.start || id - s.start >= |s.bits| then (s, Err(InvalidId))
    else if s.bits[id - s.start] then (s, Err(IdAlreadyTaken))
    else (s.(bits := s.bits[id - s.start := true]), Ok(()))
  }

  /** `free`. */
  function FreeSpec(s: TrackerState, id: nat): (TrackerState, Result<(), IdTrackerError>)
  {
    if s.end < id || id < s.start then (s, Err(OutOfIds))
    else if id - s.start < |s.bits| && s.bits[id - s.start] then
      (s.(bits := s.bits[id - s.start := false]), Ok(()))
    else (s, Err(IdAlreadyFree))
  }

  /** A well-formed tracker has one bit per ID of its pool. */
  predicate WellFormed(s: TrackerState)
  {
    s.start <= s.end && |s.bits| == s.end - s.start + 1
  }

  /** `allocate` hands out `start` plus the lowest clear index and sets exactly that bit;
      it fails with OutOfIds, changing nothing, exactly when every bit is set. */
  lemma AllocateLowest(s: TrackerState)
    ensures AllocateSpec(s).1.Err? <==> forall k :: 0 <= k < |s.bits| ==> s.bits[k]
    ensures AllocateSpec(s).1.Err? ==> AllocateSpec(s) == (s, Err(OutOfIds))
    ensures AllocateSpec(s).1.Ok? ==>
      var i := AllocateSpec(s).1.value - s.start;
      AllocateSpec(s).1.value >= s.start && i < |s.bits| && !s.bits[i]
      && (forall k :: 0 <= k < i ==> s.bits[k])
      && AllocateSpec(s).0.bits == s.bits[i := true]
  {
  }

  /** An ID handed out by `allocate` lies in the pool, and freeing it restores the state. */
  lemma AllocateThenFree(s: TrackerState)
    requires WellFormed(s)
    requires AllocateSpec(s).1.Ok?
    ensures s.start <= AllocateSpec(s).1.value <= s.end
    ensures FreeSpec(AllocateSpec(s).0, AllocateSpec(s).1.value) == (s, Ok(()))
  {
    var i :| FirstClear(s.bits) == Some(i);
    assert s.bits[i := true][i := false] == s.bits;
  }

  /** `free` fails with OutOfIds outside `start ..= end`, with IdAlreadyFree on a clear bit,
      and otherwise clears exactly that ID's bit; a failing `free` changes nothing. */
  lemma FreeCases(s: TrackerState, id: nat)
    requires WellFormed(s)
    ensures FreeSpec(s, id).1 == Err(OutOfIds) <==> id < s.start || s.end < id
    ensures FreeSpec(s, id).1 == Err(IdAlreadyFree) <==>
      s.start <= id <= s.end && !s.bits[id - s.start]
    ensures FreeSpec(s, id).1.Ok? ==> FreeSpec(s, id).0.bits == s.bits[id - s.start := false]
    ensures FreeSpec(s, id).1.Err? ==> FreeSpec(s, id).0 == s
  {
  }

  /** The corrected `allocate_at` accepts exactly the free IDs of the pool, and an ID it
      takes is not handed out again by `allocate`. */
  lemma AllocateAtThenAllocate(s: TrackerState, id: nat)
    requires WellFormed(s)
    ensures AllocateAtSpec(s, id).1.Ok? <==> s.start <= id <= s.end && !s.bits[id - s.start]
    ensures AllocateAtSpec(s, id).1.Ok? ==>
      var s' := AllocateAtSpec(s, id).0;
      AllocateSpec(s').1.Ok? ==> AllocateSpec(s').1.value != id
  {
    if AllocateAtSpec(s, id).1.Ok? {
      var s' := AllocateAtSpec(s, id).0;
      assert s'.bits[id - s.start];
    }
  }

  /** The source's `allocate_at`, on a pool starting at 5 with every ID free, accepts ID 5 but
      sets the bit of ID 10; the next `allocate` then hands out ID 5 a second time. */
  lemma AllocateAtIgnoresStart()
    ensures
      var s := TrackerState([false, false, false, false, false, false], 5, 10);
      var (s', r) := AllocateAtAsWrittenSpec(s, 5);
      r == Ok(()) && AllocateSpec(s').1 == Ok(5)
  {
    var s := TrackerState([false, false, false, false, false, false], 5, 10);
    var s' := AllocateAtAsWrittenSpec(s, 5).0;
    assert s'.bits == [false, false, false, false, false, true];
    assert FirstClear(s'.bits) == Some(0);
  }

  /** The unit test: on the pool 0 ..= 10, two allocations give 0 and 1, and after freeing 0
      the next allocation gives 0 again. */
  lemma TrackerExample()
    ensures
      var s0 := TrackerState(seq(11, _ => false), 0, 10);
      var (s1, a) := AllocateSpec(s0);
      var (s2, b) := AllocateSpec(s1);
      var (s3, c) := FreeSpec(s2, 0);
      var (s4, d) := AllocateSpec(s3);
      a == Ok(0) && b == Ok(1) && c == Ok(()) && d == Ok(0)
  {
    var s0 := TrackerState(seq(11, _ => false), 0, 10);
    assert FirstClear(s0.bits) == Some(0);
    var s1 := AllocateSpec(s0).0;
    assert s1.bits[1..] == s0.bits[1..];
    assert FirstClear(s1.bits[1..]) == Some(0);
    var s2 := AllocateSpec(s1).0;
    var s3 := FreeSpec(s2, 0).0;
    assert !s3.bits[0];
  }

  class IdTracker {
    var bitmap: Bitmap
    var start: nat
    var end: nat

    ghost predicate Valid()
      reads this, bitmap
    {
      start <= end && bitmap.usedBitsCount == end - start + 1
      && forall i: nat :: i < bitmap.usedBitsCount ==> bitmap.InBounds(i)
    }

    /** The bits standing for the IDs of the pool. */
    ghost function Bits(): (bits: seq<bool>)
      requires Valid()
      reads this, bitmap, bitmap.entries
      ensures |bits| == bitmap.usedBitsCount
    {
      seq(bitmap.usedBitsCount, i requires 0 <= i < bitmap.usedBitsCount && bitmap.InBounds(i)
                                reads this, bitmap, bitmap.entries =>
        bitmap.IsSet(i))
    }

    ghost function State(): TrackerState
      requires Valid()
      reads this, bitmap, bitmap.entries
    {
      TrackerState(Bits(), start, end)
    }

    /** `IdTracker::new`: a bitmap of `end - start + 1` clear bits (the subtraction panics
        when `end < start`). */
    constructor (start: nat, end: nat)
      requires start <= end
      ensures Valid() && fresh(bitmap) && fresh(bitmap.entries)
      ensures State() == TrackerState(seq(end - start + 1, _ => false), start, end)
    {
      this.start := start;
      this.end := end;
      bitmap := new Bitmap(end - start + 1);
      new;
      assert Bits() == seq(end - start + 1, _ => false);
    }

    /** `allocate`: scans the bitmap for the first clear bit. */
    method Allocate() returns (r: Result<nat, IdTrackerError>)
      requires Valid()
      modifies bitmap.entries
      ensures Valid()
      ensures (State(), r) == AllocateSpec(old(State()))
    {
      var maxId := bitmap.usedBitsCount;
      var i := 0;
      while i < maxId
        invariant 0 <= i <= maxId
        invariant forall k :: 0 <= k < i ==> Bits()[k]
      {
        if !bitmap.IsSet(i) {
          ghost var before := Bits();
          assert FirstClear(before) == Some(i) by { FirstClearIs(before, i); }
          bitmap.Set(i);
          assert Bits() == before[i := true];
          return Ok(i + start);
        }
        i := i + 1;
      }
      assert FirstClear(Bits()) == None by { FirstClearNone(Bits()); }
      return Err(OutOfIds);
    }

    /** `allocate_at` as the source writes it (see AllocateAtAsWrittenSpec). */
    method AllocateAtAsWritten(id: nat) returns (r: Result<(), IdTrackerError>)
      requires Valid()
      modifies bitmap.entries
      ensures Valid()
      ensures (State(), r) == AllocateAtAsWrittenSpec(old(State()), id)
    {
      if id >= bitmap.usedBitsCount {
        return Err(InvalidId);
      } else if bitmap.IsSet(id) {
        return Err(IdAlreadyTaken);
      }
      ghost var before := Bits();
      bitmap.Set(id);
      assert Bits() == before[id := true];
      return Ok(());
    }

    /** `allocate_at`, taking the ID relative to the pool start. */
    method AllocateAt(id: nat) returns (r: Result<(), IdTrackerError>)
      requires Valid()
      modifies bitmap.entries
      ensures Valid()
      ensures (State(), r) == AllocateAtSpec(old(State()), id)
    {
      if id < start || id - start >= bitmap.usedBitsCount {
        return Err(InvalidId);
      } else if bitmap.IsSet(id - start) {
        return Err(IdAlreadyTaken);
      }
      ghost var before := Bits();
      bitmap.Set(id - start);
      assert Bits() == before[id - start := true];
      return Ok(());
    }

    /** `free`. */
    method Free(id: nat) returns (r: Result<(), IdTrackerError>)
      requires Valid()
      modifies bitmap.entries
      ensures Valid()
      ensures (State(), r) == FreeSpec(old(State()), id)
    {
      if end < id || id < start {
        return Err(OutOfIds);
      }
      var index := id - start;
      if bitmap.IsSet(index) {
        ghost var before := Bits();
        bitmap.Unset(index);
        assert Bits() == before[index := false];
        return Ok(());
      }
      return Err(IdAlreadyFree);
    }
  }

  lemma FirstClearIs(bits: seq<bool>, i: nat)
    requires i < |bits| && !bits[i]
    requires forall k :: 0 <= k < i ==> bits[k]
    ensures FirstClear(bits) == Some(i)
  {
  }

  lemma FirstClearNone(bits: seq<bool>)
    requires forall k :: 0 <= k < |bits| ==> bits[k]
    ensures FirstClear(bits) == None
  {
  }
}
