/** x86-64 page-table entry flags: a 64-bit word whose bits are switched on and off by mask. */
module PagingFlags {

  const FLAGS_NONE: bv64 := 0
  const FLAG_P: bv64 := 0x1
  const FLAG_RW: bv64 := 0x2
  const FLAG_US: bv64 := 0x4
  const FLAG_PWT: bv64 := 0x8
  const FLAG_PCD: bv64 := 0x10
  const FLAG_A: bv64 := 0x20
  const FLAG_D: bv64 := 0x40
  const FLAG_PS: bv64 := 0x80
  const FLAG_G: bv64 := 0x100
  const RESERVED: bv64 := 0x200
  const HLAT: bv64 := 0x800
  const FLAG_1GB_PAT: bv64 := 0x1000
  const FLAG_4KB_PAT: bv64 := 0x80
  const FLAG_XD: bv64 := 0x8000000000000000
  /** Software flag: the entry is reserved but not yet present (lazy mapping). */
  const FLAG_TAKEN: bv64 := 0x200
  /** Software flag: the entry is the last level of a lazy mapping. */
  const FLAG_LAST_ENTRY: bv64 := 0x400

  /** The flags that have a `set_*`/`get_*` accessor pair. */
  datatype Flag =
    | Present | ReadWrite | UserSupervisor | WriteThrough | CacheDisable | Accessed | Dirty
    | PageSize | Global | Hlat | ExecuteDisable | Taken | LastEntry

  /** The mask an accessor pair passes to `set`/`get`. */
  function Mask(f: Flag): bv64
  {
    match f
    case Present => FLAG_P
    case ReadWrite => FLAG_RW
    case UserSupervisor => FLAG_US
    case WriteThrough => FLAG_PWT
    case CacheDisable => FLAG_PCD
    case Accessed => FLAG_A
    case Dirty => FLAG_D
    case PageSize => FLAG_PS
    case Global => FLAG_G
    case Hlat => HLAT
    case ExecuteDisable => FLAG_XD
    case Taken => FLAG_TAKEN
    case LastEntry => FLAG_LAST_ENTRY
  }

  /** A page-table entry's flag word (`Flags::data`; the architecture tag is a phantom). */
  type Flags = bv64

  /** `Flags::new`: nothing set. */
  function New(): (r: Flags)
    ensures forall f: Flag :: !GetFlag(r, f)
  {
    FLAGS_NONE
  }

  /** `get`: some bit of `mask` is set. */
  predicate Get(flags: Flags, mask: bv64)
  {
    flags & mask != 0
  }

  /** `set`: the bits of `mask` become all ones or all zeros; the other bits are kept. */
  function Set(flags: Flags, mask: bv64, status: bool): Flags
  {
    if status then flags | mask else flags & !mask
  }

  /** What `set` does: the bits of `mask` become all ones or all zeros, the other bits keep
      their value. */
  lemma SetSpec(flags: Flags, mask: bv64, status: bool)
    ensures Set(flags, mask, status) & mask == (if status then mask else 0)
    ensures Set(flags, mask, status) & !mask == flags & !mask
  {
    OrMask(flags, mask);
    ClearMask(flags, mask);
  }

  lemma SetOnSpec(flags: Flags, mask: bv64)
    ensures Set(flags, mask, true) & mask == mask
    ensures Set(flags, mask, true) & !mask == flags & !mask
  {
    OrMask(flags, mask);
  }

  lemma SetOffSpec(flags: Flags, mask: bv64)
    ensures Set(flags, mask, false) & mask == 0
    ensures Set(flags, mask, false) & !mask == flags & !mask
  {
    ClearMask(flags, mask);
  }

  /** The `set_*` accessors: the chosen flag reads back as `status`, every other flag keeps
      its value. */
  function SetFlag(flags: Flags, f: Flag, status: bool): (r: Flags)
    ensures GetFlag(r, f) <==> status
    ensures forall g: Flag :: g != f ==> (GetFlag(r, g) <==> GetFlag(flags, g))
  {
    MaskSingleBit(f);
    SetSpec(flags, Mask(f), status);
    forall g: Flag | g != f
      ensures GetFlag(Set(flags, Mask(f), status), g) <==> GetFlag(flags, g)
    {
      MasksDisjoint(f, g);
      SetDisjointMask(flags, Mask(f), Mask(g), status);
    }
    Set(flags, Mask(f), status)
  }

  /** The `get_*` accessors. */
  predicate GetFlag(flags: Flags, f: Flag)
  {
    Get(flags, Mask(f))
  }

  /** `set` on one mask does not change `get` on a disjoint mask. */
  lemma SetDisjointMask(flags: Flags, m: bv64, n: bv64, status: bool)
    requires m & n == 0
    ensures Get(Set(flags, m, status), n) <==> Get(flags, n)
  {
    if status {
      SetOnDisjoint(flags, m, n);
    } else {
      SetOffDisjoint(flags, m, n);
    }
  }

  lemma SetOnDisjoint(flags: Flags, m: bv64, n: bv64)
    requires m & n == 0
    ensures Set(flags, m, true) & n == flags & n
  {
    OrDisjoint(flags, m, n);
  }

  lemma SetOffDisjoint(flags: Flags, m: bv64, n: bv64)
    requires m & n == 0
    ensures Set(flags, m, false) & n == flags & n
  {
    ClearDisjoint(flags, m, n);
  }

  lemma OrDisjoint(x: bv64, m: bv64, n: bv64)
    requires m & n == 0
    ensures (x | m) & n == x & n
  {
  }

  lemma ClearDisjoint(x: bv64, m: bv64, n: bv64)
    requires m & n == 0
    ensures (x & !m) & n == x & n
  {
  }

  lemma OrMask(x: bv64, m: bv64)
    ensures (x | m) & m == m
    ensures (x | m) & !m == x & !m
  {
  }

  lemma ClearMask(x: bv64, m: bv64)
    ensures (x & !m) & m == 0
    ensures (x & !m) & !m == x & !m
  {
  }

  /** Every accessor mask is a single bit. */
  lemma MaskSingleBit(f: Flag)
    ensures Mask(f) != 0 && Mask(f) & (Mask(f) - 1) == 0
  {
  }

  /** The thirteen accessor pairs use thirteen different bits. */
  lemma MasksDisjoint(f: Flag, g: Flag)
    requires f != g
    ensures Mask(f) & Mask(g) == 0
  {
  }

  /** Setting a non-empty mask and reading it back gives the status. */
  lemma SetThenGet(flags: Flags, mask: bv64, status: bool)
    requires mask != 0
    ensures Get(Set(flags, mask, status), mask) <==> status
  {
  }

  /** The page-table layout: taken and last-entry are the software bits 9 and 10, distinct from
      present; taken reuses the reserved bit; the 4 KiB PAT bit is the page-size bit. */
  lemma FlagLayout()
    ensures FLAG_TAKEN == RESERVED && FLAG_TAKEN != FLAG_LAST_ENTRY
    ensures FLAG_TAKEN != FLAG_P && FLAG_LAST_ENTRY != FLAG_P
    ensures FLAG_4KB_PAT == FLAG_PS
    ensures Mask(Taken) & Mask(Present) == 0 && Mask(LastEntry) & Mask(Present) == 0
  {
  }
}
