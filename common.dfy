/** Shared vocabulary of the kernel model: machine word bounds, powers of two and the
    Option and Result shapes the Rust code returns. */
module Common {

  /** Largest value of a 64-bit `usize`. */
  const USIZE_MAX: nat := 0xFFFF_FFFF_FFFF_FFFF

  /** One basic (4 KiB) page, `BASIC_PAGE_SIZE`. */
  const PAGE_SIZE: nat := 0x1000

  datatype Option<T> = None | Some(value: T)

  datatype Result<T, E> = Ok(value: T) | Err(error: E)

  /** 2^k. */
  function Pow2(k: nat): (r: nat)
    ensures r >= 1
  {
    if k == 0 then 1 else 2 * Pow2(k - 1)
  }

  /** n is a power of two. */
  predicate IsPow2(n: nat)
  {
    n == 1 || (n >= 2 && n % 2 == 0 && IsPow2(n / 2))
  }

  /** The exponent of the smallest power of two that is >= n (0 for n <= 1). For a power of two
      this is `ilog2`, so `CeilLog2(n)` is `n.next_power_of_two().ilog2()`. */
  function CeilLog2(n: nat): nat
    decreases n
  {
    if n <= 1 then 0 else 1 + CeilLog2((n + 1) / 2)
  }

  /** `n.next_power_of_two()` on unbounded integers (1 for n == 0). */
  function NextPow2(n: nat): nat
  {
    Pow2(CeilLog2(n))
  }

  lemma {:induction false} Pow2Add(a: nat, b: nat)
    ensures Pow2(a + b) == Pow2(a) * Pow2(b)
  {
    if a > 0 {
      Pow2Add(a - 1, b);
    }
  }

  lemma {:induction false} Pow2Monotone(a: nat, b: nat)
    requires a <= b
    ensures Pow2(a) <= Pow2(b)
  {
    if a < b {
      Pow2Monotone(a, b - 1);
    }
  }

  lemma {:induction false} Pow2StrictlyMonotone(a: nat, b: nat)
    requires a < b
    ensures Pow2(a) < Pow2(b)
  {
    Pow2Monotone(a, b - 1);
  }

  lemma {:induction false} Pow2Injective(a: nat, b: nat)
    requires Pow2(a) == Pow2(b)
    ensures a == b
  {
    if a < b {
      Pow2StrictlyMonotone(a, b);
    } else if b < a {
      Pow2StrictlyMonotone(b, a);
    }
  }

  /** Every power 2^k is a power of two. */
  lemma {:induction false} Pow2IsPow2(k: nat)
    ensures IsPow2(Pow2(k))
  {
    if k > 0 {
      Pow2IsPow2(k - 1);
      assert Pow2(k) / 2 == Pow2(k - 1);
    }
  }

  lemma {:induction false} MulAtLeast(k: int, d: int)
    requires k >= 1 && d >= 0
    ensures k * d >= d
  {
    if k > 1 {
      MulAtLeast(k - 1, d);
      assert k * d == (k - 1) * d + d;
    }
  }

  lemma MulDistributes(a: int, b: int, d: int)
    ensures (a - b) * d == a * d - b * d
  {
  }

  /** Euclidean division is determined by its quotient and remainder. */
  lemma DivModUnique(n: int, d: int, q: int, r: int)
    requires d > 0 && 0 <= r < d && n == q * d + r
    ensures n / d == q && n % d == r
  {
    var q', r' := n / d, n % d;
    assert n == d * q' + r';
    assert d * q' == q' * d;
    MulDistributes(q, q', d);
    if q > q' {
      MulAtLeast(q - q', d);
    } else if q < q' {
      MulDistributes(q', q, d);
      MulAtLeast(q' - q, d);
    }
  }

  /** Division of an exact multiple. */
  lemma MulDivExact(x: nat, y: nat)
    requires x > 0
    ensures (x * y) % x == 0 && (x * y) / x == y
  {
    DivModUnique(x * y, x, y, 0);
  }

  /** A smaller power of two divides a larger one. */
  lemma {:induction false} Pow2Divides(a: nat, b: nat)
    requires a <= b
    ensures Pow2(b) % Pow2(a) == 0
    ensures Pow2(b) == Pow2(a) * Pow2(b - a)
  {
    Pow2Add(a, b - a);
    MulDivExact(Pow2(a), Pow2(b - a));
  }

  /** `next_power_of_two` is the least power of two at or above its argument. */
  lemma {:induction false} NextPow2Bounds(n: nat)
    ensures NextPow2(n) >= n
    ensures n >= 2 ==> Pow2(CeilLog2(n) - 1) < n
    ensures CeilLog2(n) > 0 <==> n >= 2
    decreases n
  {
    if n > 1 {
      var m := (n + 1) / 2;
      NextPow2Bounds(m);
      assert NextPow2(n) == 2 * Pow2(CeilLog2(m));
    }
  }

  /** A power of two is its own next power of two. */
  lemma {:induction false} NextPow2OfPow2(k: nat)
    ensures CeilLog2(Pow2(k)) == k
    ensures NextPow2(Pow2(k)) == Pow2(k)
  {
    if k > 0 {
      NextPow2OfPow2(k - 1);
      assert (Pow2(k) + 1) / 2 == Pow2(k - 1);
    }
  }

  /** The exponent CeilLog2(n) is determined by bracketing n between two consecutive powers. */
  lemma {:induction false} CeilLog2Unique(n: nat, k: nat)
    requires n <= Pow2(k)
    requires k > 0 ==> Pow2(k - 1) < n
    ensures CeilLog2(n) == k
  {
    NextPow2Bounds(n);
    var c := CeilLog2(n);
    if c < k {
      Pow2Monotone(c, k - 1);
    } else if c > k {
      Pow2Monotone(k, c - 1);
    }
  }

  /** Powers of two are ordered as their exponents. */
  lemma Pow2Order(a: nat, b: nat)
    ensures Pow2(a) <= Pow2(b) <==> a <= b
  {
    if a <= b {
      Pow2Monotone(a, b);
    } else {
      Pow2StrictlyMonotone(b, a);
    }
  }

  /** 2^64 is one past the largest `usize`. */
  lemma Pow2Word()
    ensures Pow2(64) == USIZE_MAX + 1
  {
    assert Pow2(1) == 2;
    Pow2Add(1, 1);
    assert Pow2(2) == 4;
    Pow2Add(2, 2);
    assert Pow2(4) == 16;
    Pow2Add(4, 4);
    assert Pow2(8) == 0x100;
    Pow2Add(8, 8);
    assert Pow2(16) == 0x1_0000;
    Pow2Add(16, 16);
    assert Pow2(32) == 0x1_0000_0000;
    Pow2Add(32, 32);
    assert Pow2(64) == 0x1_0000_0000 * 0x1_0000_0000;
  }

  lemma MulLess(p: int, q: int, s: int)
    requires s > 0 && p * s < q * s
    ensures p < q
  {
    assert q * s - p * s == (q - p) * s;
  }

  lemma MulLessEq(p: int, q: int, s: int)
    requires s > 0 && p <= q
    ensures p * s <= q * s
  {
    assert q * s - p * s == (q - p) * s;
  }

  /** Two overlapping ranges [x, x + s) and [y, y + t), each aligned to its own length, where
      s divides t: the shorter lies inside the longer. */
  lemma NestedMultiples(x: nat, s: nat, y: nat, t: nat)
    requires s > 0 && t > 0 && t % s == 0 && x % s == 0 && y % t == 0
    requires x < y + t && y < x + s
    ensures y <= x && x + s <= y + t
  {
    var a := x / s;
    var m := t / s;
    var b := y / t;
    assert x == a * s;
    assert t == m * s;
    assert y == b * t;
    var c := b * m;
    assert y == c * s by {
      assert b * t == b * (m * s) == (b * m) * s;
    }
    assert x + s == (a + 1) * s;
    MulLess(c, a + 1, s);
    MulLessEq(c, a, s);
    assert y + t == (c + m) * s;
    MulLess(a, c + m, s);
    MulLessEq(a + 1, c + m, s);
  }

  /** Scaling a multiple of p by s gives a multiple of p * s. */
  lemma MultipleScaled(n: nat, p: nat, s: nat)
    requires p > 0 && s > 0 && n % p == 0
    ensures (n * s) % (p * s) == 0
  {
    var q := n / p;
    assert n == q * p;
    assert n * s == (p * s) * q by {
      assert n * s == (q * p) * s == (p * s) * q;
    }
    MulDivExact(p * s, q);
  }

  /** `usize::div_ceil`: the least multiple count of `b` covering `a`. */
  function DivCeil(a: nat, b: nat): (r: nat)
    requires b > 0
    ensures r * b >= a
    ensures r > 0 ==> (r - 1) * b < a
  {
    DivCeilBounds(a, b);
    (a + b - 1) / b
  }

  lemma DivCeilBounds(a: nat, b: nat)
    requires b > 0
    ensures ((a + b - 1) / b) * b >= a
    ensures (a + b - 1) / b > 0 ==> ((a + b - 1) / b - 1) * b < a
  {
    var q := (a + b - 1) / b;
    var r := (a + b - 1) % b;
    assert a + b - 1 == q * b + r;
    MulDistributes(q, 1, b);
  }

  /** `Layout::pad_to_align`: the size rounded up to a multiple of the alignment. */
  function PadToAlign(size: nat, align: nat): (r: nat)
    requires align > 0
    ensures r >= size && r % align == 0 && r < size + align
  {
    PadBounds(size, align);
    DivCeil(size, align) * align
  }

  lemma PadBounds(size: nat, align: nat)
    requires align > 0
    ensures DivCeil(size, align) * align >= size
    ensures (DivCeil(size, align) * align) % align == 0
    ensures DivCeil(size, align) * align < size + align
  {
    var q := DivCeil(size, align);
    MulDivExact(align, q);
    assert q * align == align * q;
    if q > 0 {
      MulDistributes(q, 1, align);
    }
  }

  /** A prefix one element longer is the shorter prefix followed by that element. */
  lemma PrefixSnoc<T>(s: seq<T>, k: nat)
    requires k < |s|
    ensures s[..k + 1] == s[..k] + [s[k]]
  {
  }

  /** A multiple of a multiple of `a` is a multiple of `a`. */
  lemma MultipleOfMultiple(x: nat, y: nat, a: nat)
    requires a > 0 && y > 0 && x % y == 0 && y % a == 0
    ensures x % a == 0
  {
    var p, q := x / y, y / a;
    assert x == p * y;
    assert y == q * a;
    assert x == a * (p * q) by {
      assert p * y == p * (q * a) == a * (p * q);
    }
    MulDivExact(a, p * q);
  }

  /** Any number of copies of a multiple of `a` is a multiple of `a`. */
  lemma MultipleTimes(k: nat, y: nat, a: nat)
    requires a > 0 && y % a == 0
    ensures (k * y) % a == 0
  {
    var q := y / a;
    assert y == q * a;
    assert k * y == a * (k * q) by {
      assert k * y == k * (q * a) == a * (k * q);
    }
    MulDivExact(a, k * q);
  }

  /** The sum of two multiples of `a` is a multiple of `a`. */
  lemma MultipleSum(x: nat, y: nat, a: nat)
    requires a > 0 && x % a == 0 && y % a == 0
    ensures (x + y) % a == 0
  {
    var p, q := x / a, y / a;
    assert x == p * a && y == q * a;
    assert x + y == a * (p + q);
    MulDivExact(a, p + q);
  }
}
