/** The local APIC timer's divide configuration: the 3-bit encoding of `TimerDivisor` and its
    conversion to and from the divide value. */
module ApicTimer {
  import opened Common

  type u8 = x: int | 0 <= x < 256

  /** `TimerDivisor`, each variant carrying the 3-bit code the hardware register takes. */
  datatype TimerDivisor = Div2 | Div4 | Div8 | Div16 | Div32 | Div64 | Div128 | Div1

  /** The discriminant (`self as u32`). */
  function Code(d: TimerDivisor): nat
  {
    match d
    case Div2 => 0
    case Div4 => 1
    case Div8 => 2
    case Div16 => 3
    case Div32 => 4
    case Div64 => 5
    case Div128 => 6
    case Div1 => 7
  }

  /** The value each variant divides the timer clock by, as its name says. */
  function DivideBy(d: TimerDivisor): nat
  {
    match d
    case Div1 => 1
    case Div2 => 2
    case Div4 => 4
    case Div8 => 8
    case Div16 => 16
    case Div32 => 32
    case Div64 => 64
    case Div128 => 128
  }

  /** `from_bits`: two to the power of the code plus one, taken modulo eight; this is exactly
      the divide value the variant names, a power of two between 1 and 128. */
  function FromBits(d: TimerDivisor): (r: u8)
    ensures r == DivideBy(d)
    ensures IsPow2(r) && 1 <= r <= 128
  {
    var r := Pow2((Code(d) + 1) % 8);
    assert IsPow2(r) by { Pow2IsPow2((Code(d) + 1) % 8); }
    Pow2Monotone((Code(d) + 1) % 8, 7);
    r
  }

  /** `into_bits`: the divisor whose divide value is `val`, or None when `val` is not one of
      1, 2, 4, ..., 128. */
  function IntoBits(val: u8): (r: Option<TimerDivisor>)
    ensures r.Some? ==> DivideBy(r.value) == val
    ensures r.None? ==> forall d: TimerDivisor :: DivideBy(d) != val
  {
    match val
    case 1 => Some(Div1)
    case 2 => Some(Div2)
    case 4 => Some(Div4)
    case 8 => Some(Div8)
    case 16 => Some(Div16)
    case 32 => Some(Div32)
    case 64 => Some(Div64)
    case 128 => Some(Div128)
    case _ => None
  }

  /** Decoding the divide value of a divisor gives the divisor back. */
  lemma IntoFromBits(d: TimerDivisor)
    ensures IntoBits(FromBits(d)) == Some(d)
  {
  }

  /** Different divisors have different divide values. */
  lemma FromBitsInjective(d: TimerDivisor, e: TimerDivisor)
    requires FromBits(d) == FromBits(e)
    ensures d == e
  {
    IntoFromBits(d);
    IntoFromBits(e);
  }
}
