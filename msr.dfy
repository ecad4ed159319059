/** Model-specific register values: the split of a 64-bit value into the EDX:EAX halves used by
    `rdmsr`/`wrmsr`, and the EFER flag constants. */
module Msr {

  /** The low and high 32-bit halves of an MSR value. */
  datatype MsrData = MsrData(low: bv32, high: bv32)

  /** `Into<MsrData> for u64`: the low half is the value modulo 2^32, the high half the
      quotient by 2^32. */
  function FromU64(x: bv64): (r: MsrData)
    ensures r.low as bv64 == x % 0x1_0000_0000
    ensures r.high as bv64 == x / 0x1_0000_0000
  {
    MsrData((x & 0xFFFF_FFFF) as bv32, (x >> 32) as bv32)
  }

  /** `Into<u64> for MsrData`: the halves are recovered from the joined value by division and
      remainder, so `high` is the upper and `low` the lower 32 bits. */
  function ToU64(d: MsrData): (r: bv64)
    ensures r % 0x1_0000_0000 == d.low as bv64
    ensures r / 0x1_0000_0000 == d.high as bv64
  {
    ((d.high as bv64) << 32) | (d.low as bv64)
  }

  lemma JoinSplit(x: bv64)
    ensures ToU64(FromU64(x)) == x
  {
  }

  lemma SplitJoin(d: MsrData)
    ensures FromU64(ToU64(d)) == d
  {
  }

  /** The EFER bits. */
  const SCE: bv64 := 0x1
  const LME: bv64 := 0x100
  const LMA: bv64 := 0x400
  const NX: bv64 := 0x800
  const SVM: bv64 := 0x1000
  const LMSLE: bv64 := 0x2000
  const FFXSR: bv64 := 0x4000
  const TCE: bv64 := 0x8000
  const MCOMMIT: bv64 := 0x1_0000
  const INTWB: bv64 := 0x2_0000
  const UAIE: bv64 := 0x4_0000
  const AIBRSE: bv64 := 0x8_0000

  const ALL: bv64 :=
    SCE | LME | LMA | NX | SVM | LMSLE | FFXSR | TCE | MCOMMIT | INTWB | UAIE | AIBRSE

  /** The twelve EFER flags in declaration order. */
  const EferFlags: seq<bv64> :=
    [SCE, LME, LMA, NX, SVM, LMSLE, FFXSR, TCE, MCOMMIT, INTWB, UAIE, AIBRSE]

  /** OR of a list of flags. */
  function OrAll(s: seq<bv64>): bv64
  {
    if s == [] then 0 else s[0] | OrAll(s[1..])
  }

  /** `ALL` is the OR of the twelve flags. */
  lemma EferAll()
    ensures ALL == OrAll(EferFlags) == 0xF_FD01
  {
    assert EferFlags[12..] == [];
    assert OrAll(EferFlags[11..]) == 0x80000;
    assert OrAll(EferFlags[10..]) == 0xC0000;
    assert OrAll(EferFlags[9..]) == 0xE0000;
    assert OrAll(EferFlags[8..]) == 0xF0000;
    assert OrAll(EferFlags[7..]) == 0xF8000;
    assert OrAll(EferFlags[6..]) == 0xFC000;
    assert OrAll(EferFlags[5..]) == 0xFE000;
    assert OrAll(EferFlags[4..]) == 0xFF000;
    assert OrAll(EferFlags[3..]) == 0xFF800;
    assert OrAll(EferFlags[2..]) == 0xFFC00;
    assert OrAll(EferFlags[1..]) == 0xFFD00;
    assert OrAll(EferFlags[0..]) == 0xFFD01;
    assert EferFlags[0..] == EferFlags;
  }

  /** Each EFER flag is a single bit. */
  lemma EferSingleBits()
    ensures forall i :: 0 <= i < |EferFlags| ==> EferFlags[i] != 0 && EferFlags[i] & (EferFlags[i] - 1) == 0
  {
  }

  /** No two EFER flags share a bit. */
  lemma EferDisjoint()
    ensures forall i, j :: 0 <= i < j < |EferFlags| ==> EferFlags[i] & EferFlags[j] == 0
  {
  }
}
