/** `IdHander`: a bump allocator of IDs that hands out `next` and advances it, until `next`
    passes `max`. IDs are never freed. */
module IdHanders {
  import opened Common

  /** One `handout_and_skip(count)` on the value of `next`: the ID handed out (None once
      `next` exceeds `max`) and the new `next`. */
  function HandoutSpec(next: nat, max: nat, count: nat): (Option<nat>, nat)
  {
    if next > max then (None, next) else (Some(next), next + count)
  }

  /** The IDs handed out by a series of `handout_and_skip` calls with the given counts,
      starting from `next`. */
  function HandoutRun(next: nat, max: nat, counts: seq<nat>): seq<Option<nat>>
    decreases |counts|
  {
    if counts == [] then []
    else
      var (id, next') := HandoutSpec(next, max, counts[0]);
      [id] + HandoutRun(next', max, counts[1..])
  }

  /** Every ID a run hands out is at least the starting `next` and at most `max`, and as
      long as every count is at least one, the IDs of a run are strictly increasing, so no
      ID is handed out twice. */
  lemma {:induction false} HandoutRunIncreasing(next: nat, max: nat, counts: seq<nat>)
    requires forall k :: 0 <= k < |counts| ==> counts[k] >= 1
    ensures |HandoutRun(next, max, counts)| == |counts|
    ensures forall i :: 0 <= i < |counts| && HandoutRun(next, max, counts)[i].Some? ==>
      next <= HandoutRun(next, max, counts)[i].value <= max
    ensures forall i, j ::
      (0 <= i < j < |counts| && HandoutRun(next, max, counts)[i].Some?
        && HandoutRun(next, max, counts)[j].Some?) ==>
      HandoutRun(next, max, counts)[i].value < HandoutRun(next, max, counts)[j].value
    decreases |counts|
  {
    if counts != [] {
      var (id, next') := HandoutSpec(next, max, counts[0]);
      var rest := HandoutRun(next', max, counts[1..]);
      HandoutRunIncreasing(next', max, counts[1..]);
      assert HandoutRun(next, max, counts) == [id] + rest;
      if id.None? {
        assert next' == next;
      } else {
        assert next' > next;
      }
    }
  }

  /** Once a handout returns None, every later handout returns None. */
  lemma {:induction false} ExhaustedStaysExhausted(next: nat, max: nat, counts: seq<nat>)
    requires next > max
    ensures forall i :: 0 <= i < |HandoutRun(next, max, counts)| ==> HandoutRun(next, max, counts)[i].None?
    decreases |counts|
  {
    if counts != [] {
      ExhaustedStaysExhausted(next, max, counts[1..]);
    }
  }

  /** Behaviour the unit tests check: skips of 1, 3 and 2 from 0 hand out 0, 1 and 4;
      a skip of 0 hands out without advancing; with `max` 2, the fourth handout is None; a
      skip past `max` exhausts the hander. */
  lemma HandoutExamples()
    ensures HandoutRun(0, 100, [1, 3, 2]) == [Some(0), Some(1), Some(4)]
    ensures HandoutSpec(0, 100, 0) == (Some(0), 0)
    ensures HandoutRun(0, 2, [1, 1, 1, 1]) == [Some(0), Some(1), Some(2), None]
    ensures HandoutRun(0, 5, [3, 2, 1, 1]) == [Some(0), Some(3), Some(5), None]
    ensures HandoutRun(0, 10, [15, 1]) == [Some(0), None]
  {
    assert HandoutRun(2, 2, [1]) == [Some(2)];
    assert HandoutRun(5, 5, [1, 1]) == [Some(5), None];
  }

  class IdHander {
    var next: nat
    var max: nat

    /** `new_starting_from`. */
    constructor NewStartingFrom(startId: nat, maxId: nat)
      ensures next == startId && max == maxId
    {
      next := startId;
      max := maxId;
    }

    /** `new`: start from ID 0. */
    constructor New(maxId: nat)
      ensures next == 0 && max == maxId
    {
      next := 0;
      max := maxId;
    }

    /** `handout_and_skip`. The addition panics on `usize` overflow, which callers must
        avoid. */
    method HandoutAndSkip(count: nat) returns (id: Option<nat>)
      requires next <= max ==> next + count <= USIZE_MAX
      modifies this`next
      ensures (id, next) == HandoutSpec(old(next), max, count)
    {
      if next > max {
        return None;
      }
      id := Some(next);
      next := next + count;
    }

    /** `handout`: `handout_and_skip(1)`. */
    method Handout() returns (id: Option<nat>)
      requires next <= max ==> next + 1 <= USIZE_MAX
      modifies this`next
      ensures (id, next) == HandoutSpec(old(next), max, 1)
    {
      id := HandoutAndSkip(1);
    }

    /** `peek_next`: reads `next` and changes nothing. */
    function PeekNext(): nat
      reads this
    {
      next
    }
  }
}
