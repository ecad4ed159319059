/** A bitmap over a byte vector: bit `i` is bit `i % 8` of byte `i / 8`. */
module Bitmaps {

  /** The byte mask `1 << k`. */
  function BitMask(k: nat): bv8
    requires k < 8
  {
    (1 as bv8) << k
  }

  /** Bit `k` of byte `b`. */
  predicate BitOf(b: bv8, k: nat)
    requires k < 8
  {
    b & BitMask(k) != 0
  }

  /** OR-ing in a mask sets exactly that bit of the byte. */
  lemma SetBitOf(b: bv8, k: nat, j: nat)
    requires k < 8 && j < 8
    ensures BitOf(b | BitMask(k), j) == (j == k || BitOf(b, j))
  {
  }

  /** AND-ing with the complement clears exactly that bit of the byte. */
  lemma ClearBitOf(b: bv8, k: nat, j: nat)
    requires k < 8 && j < 8
    ensures BitOf(b & !BitMask(k), j) == (j != k && BitOf(b, j))
  {
  }

  class Bitmap {
    var entries: array<bv8>
    /** `used_bits_count`, fixed at construction: no method modifies it. */
    var usedBitsCount: nat

    /** Bit `index` lies in the byte vector (the source indexes `entries[index / 8]`, which
        panics past the end). */
    predicate InBounds(index: nat)
      reads this
    {
      index / 8 < entries.Length
    }

    /** `Bitmap::new`: room for `usedBitsCount` bits rounded up to whole bytes, all clear. */
    constructor (usedBitsCount: nat)
      ensures this.usedBitsCount == usedBitsCount
      ensures entries.Length == (usedBitsCount + 7) / 8 && fresh(entries)
      ensures forall i: nat :: i < usedBitsCount ==> InBounds(i)
      ensures forall i: nat :: InBounds(i) ==> !IsSet(i)
    {
      this.usedBitsCount := usedBitsCount;
      entries := new bv8[(usedBitsCount + 7) / 8](_ => 0);
    }

    /** `is_set`. */
    predicate IsSet(index: nat)
      requires InBounds(index)
      reads this, entries
    {
      BitOf(entries[index / 8], index % 8)
    }

    /** `set`: bit `index` becomes set and every other bit keeps its value. */
    method Set(index: nat)
      requires InBounds(index)
      modifies entries
      ensures forall j: nat :: InBounds(j) ==> IsSet(j) == (j == index || old(IsSet(j)))
    {
      entries[index / 8] := entries[index / 8] | BitMask(index % 8);
      forall j: nat | InBounds(j)
        ensures IsSet(j) == (j == index || old(IsSet(j)))
      {
        if j / 8 == index / 8 {
          SetBitOf(old(entries[index / 8]), index % 8, j % 8);
        }
      }
    }

    /** `unset`: bit `index` becomes clear and every other bit keeps its value. */
    method Unset(index: nat)
      requires InBounds(index)
      modifies entries
      ensures forall j: nat :: InBounds(j) ==> IsSet(j) == (j != index && old(IsSet(j)))
    {
      entries[index / 8] := entries[index / 8] & !BitMask(index % 8);
      forall j: nat | InBounds(j)
        ensures IsSet(j) == (j != index && old(IsSet(j)))
      {
        if j / 8 == index / 8 {
          ClearBitOf(old(entries[index / 8]), index % 8, j % 8);
        }
      }
    }
  }
}
