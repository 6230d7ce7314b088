/**
 * The JavaScript integer operators the encoders use (`<<`, `>>`, `>>>`, `|`, `&`).
 * JavaScript converts each operand to a 32-bit two's-complement integer
 * (ToInt32) or to an unsigned one (ToUint32), works on the 32 bits and reads
 * the result back as signed (or, for `>>>`, unsigned). This module writes that
 * out on unbounded integers, with bitwise OR and AND defined bit by bit on
 * naturals, and proves the facts the encoders rely on.
 */
module JsInt {

  const Two31: int := 0x8000_0000
  const Two32: int := 0x1_0000_0000

  /** 2 to the power n. */
  function Pow2(n: nat): (r: nat)
    ensures r >= 1
  {
    if n == 0 then 1 else 2 * Pow2(n - 1)
  }

  /** ToUint32: the value modulo 2^32. */
  function ToUint32(x: int): (r: nat)
    ensures r < Two32
  {
    x % Two32
  }

  /** ToInt32: the value modulo 2^32, read as two's complement. */
  function ToInt32(x: int): (r: int)
    ensures -Two31 <= r < Two31
  {
    var u := ToUint32(x);
    if u >= Two31 then u - Two32 else u
  }

  /** Bit i (0 is the least significant) of v. */
  function TestBit(v: nat, i: nat): (r: bool)
  {
    if i == 0 then v % 2 == 1 else TestBit(v / 2, i - 1)
  }

  /** Bitwise OR of two naturals. */
  function OrBits(a: nat, b: nat): (r: nat)
    decreases a + b
  {
    if a == 0 && b == 0 then 0
    else 2 * OrBits(a / 2, b / 2) + (if a % 2 == 1 || b % 2 == 1 then 1 else 0)
  }

  /** Bitwise AND of two naturals. */
  function AndBits(a: nat, b: nat): (r: nat)
    decreases a + b
  {
    if a == 0 || b == 0 then 0
    else 2 * AndBits(a / 2, b / 2) + (if a % 2 == 1 && b % 2 == 1 then 1 else 0)
  }

  /** `x << n` */
  function ShiftLeft(x: int, n: nat): (r: int)
    requires n < 32
  {
    ToInt32(ToUint32(x) * Pow2(n))
  }

  /** `x >> n` (sign-propagating: floor division of the signed value) */
  function ShiftRight(x: int, n: nat): (r: int)
    requires n < 32
  {
    ToInt32(x) / Pow2(n)
  }

  /** `x >>> n` (zero-filling: the unsigned value shifted) */
  function UnsignedShiftRight(x: int, n: nat): (r: int)
    requires n < 32
  {
    ToUint32(x) / Pow2(n)
  }

  /** `x | y` */
  function BitOr(x: int, y: int): (r: int)
  {
    ToInt32(OrBits(ToUint32(x), ToUint32(y)))
  }

  /** `x & y` */
  function BitAnd(x: int, y: int): (r: int)
  {
    ToInt32(AndBits(ToUint32(x), ToUint32(y)))
  }

  // ---------------------------------------------------------------------
  // Facts about the operators
  // ---------------------------------------------------------------------

  /** ToUint32 leaves an unsigned 32-bit value alone. */
  lemma UnsignedIsUnchanged(x: int)
    requires 0 <= x < Two32
    ensures ToUint32(x) == x
  {
  }

  /** Both conversions leave a value that fits in 31 bits alone. */
  lemma SmallIsUnchanged(x: int)
    requires 0 <= x < Two31
    ensures ToUint32(x) == x && ToInt32(x) == x
  {
  }

  /** ToUint32 undoes ToInt32 on every unsigned 32-bit value. */
  lemma Uint32OfInt32(u: nat)
    requires u < Two32
    ensures ToUint32(ToInt32(u)) == u
  {
  }

  lemma {:induction false} OrBitsZero(a: nat)
    ensures OrBits(a, 0) == a
    decreases a
  {
    if a != 0 {
      OrBitsZero(a / 2);
    }
  }

  /** OR with a value whose bits all lie below bit k adds it to a multiple of 2^k. */
  lemma {:induction false} OrBitsDisjoint(a: nat, b: nat, k: nat)
    requires b < Pow2(k)
    ensures OrBits(a * Pow2(k), b) == a * Pow2(k) + b
    decreases k
  {
    if k == 0 {
      assert b == 0 && a * Pow2(k) == a;
      OrBitsZero(a);
    } else {
      var p := Pow2(k - 1);
      assert a * Pow2(k) == 2 * (a * p);
      if a * Pow2(k) == 0 && b == 0 {
      } else {
        assert (a * Pow2(k)) / 2 == a * p;
        assert (a * Pow2(k)) % 2 == 0;
        OrBitsDisjoint(a, b / 2, k - 1);
      }
    }
  }

  /** A bit of the OR is set iff it is set in one of the operands. */
  lemma {:induction false} TestBitOr(a: nat, b: nat, i: nat)
    ensures TestBit(OrBits(a, b), i) == (TestBit(a, i) || TestBit(b, i))
    decreases i
  {
    if a == 0 && b == 0 {
      ZeroHasNoBits(i);
    } else if i > 0 {
      TestBitOr(a / 2, b / 2, i - 1);
    }
  }

  lemma {:induction false} ZeroHasNoBits(i: nat)
    ensures !TestBit(0, i)
  {
    if i > 0 {
      ZeroHasNoBits(i - 1);
    }
  }

  /** 2^k has exactly bit k set. */
  lemma {:induction false} TestBitPow2(k: nat, i: nat)
    ensures TestBit(Pow2(k), i) == (i == k)
    decreases i
  {
    if i == 0 {
    } else if k == 0 {
      ZeroHasNoBits(i - 1);
    } else {
      TestBitPow2(k - 1, i - 1);
    }
  }

  /** The OR of two values below 2^k is below 2^k. */
  lemma {:induction false} OrBitsBound(a: nat, b: nat, k: nat)
    requires a < Pow2(k) && b < Pow2(k)
    ensures OrBits(a, b) < Pow2(k)
    decreases k
  {
    if k > 0 && !(a == 0 && b == 0) {
      OrBitsBound(a / 2, b / 2, k - 1);
    }
  }

  /** AND with the mask 2^k - 1 keeps a value below 2^k. */
  lemma {:induction false} AndBitsLowMask(v: nat, k: nat)
    requires v < Pow2(k)
    ensures AndBits(v, Pow2(k) - 1) == v
    decreases k
  {
    if k > 0 && v != 0 {
      assert (Pow2(k) - 1) / 2 == Pow2(k - 1) - 1;
      assert (Pow2(k) - 1) % 2 == 1;
      AndBitsLowMask(v / 2, k - 1);
    }
  }

  lemma {:induction false} Pow2Monotone(m: nat, n: nat)
    requires m <= n
    ensures Pow2(m) <= Pow2(n)
    decreases n
  {
    if m < n {
      Pow2Monotone(m, n - 1);
    }
  }

  lemma Pow2Values()
    ensures Pow2(0) == 1 && Pow2(2) == 4 && Pow2(3) == 8 && Pow2(5) == 32 && Pow2(8) == 0x100
    ensures Pow2(11) == 0x800 && Pow2(16) == 0x1_0000 && Pow2(24) == 0x100_0000 && Pow2(31) == Two31
  {
  }

  /** `x << n` is multiplication by 2^n while the product stays below 2^31. */
  lemma ShiftLeftSmall(x: int, n: nat)
    requires n < 32 && 0 <= x && x * Pow2(n) < Two31
    ensures ShiftLeft(x, n) == x * Pow2(n)
  {
    assert x <= x * Pow2(n);
    SmallIsUnchanged(x);
    SmallIsUnchanged(x * Pow2(n));
  }

  /** Read unsigned, `x << n` is x * 2^n while the product fits in 32 bits. */
  lemma ShiftLeftUnsigned(x: int, n: nat)
    requires n < 32 && 0 <= x && x * Pow2(n) < Two32
    ensures ToUint32(ShiftLeft(x, n)) == x * Pow2(n)
  {
    assert x <= x * Pow2(n);
    UnsignedIsUnchanged(x);
    Uint32OfInt32(x * Pow2(n));
  }

  /** `x >> n` of a non-negative 31-bit value is division by 2^n. */
  lemma ShiftRightSmall(x: int, n: nat)
    requires n < 32 && 0 <= x < Two31
    ensures ShiftRight(x, n) == x / Pow2(n)
  {
    SmallIsUnchanged(x);
  }

  /** Read unsigned, `x | y` adds y when x is a multiple of 2^k and y is below 2^k. */
  lemma BitOrAdds(x: int, y: int, a: nat, k: nat)
    requires ToUint32(x) == a * Pow2(k) && 0 <= y < Pow2(k) && a * Pow2(k) + y < Two32
    ensures ToUint32(BitOr(x, y)) == a * Pow2(k) + y
  {
    assert 0 <= a * Pow2(k);
    UnsignedIsUnchanged(y);
    OrBitsDisjoint(a, y, k);
    Uint32OfInt32(a * Pow2(k) + y);
  }

  /** `v | w` of two values below 2^k (k <= 31) is their bitwise OR, again below 2^k. */
  lemma BitOrSmall(v: int, w: int, k: nat)
    requires k <= 31 && 0 <= v < Pow2(k) && 0 <= w < Pow2(k)
    ensures BitOr(v, w) == OrBits(v, w) && OrBits(v, w) < Pow2(k)
  {
    Pow2AtMost31(k);
    assert ToUint32(v) == v && ToUint32(w) == w;
    OrBitsBound(v, w, k);
    SmallIsUnchanged(OrBits(v, w));
  }

  lemma Pow2AtMost31(k: nat)
    requires k <= 31
    ensures Pow2(k) <= Two31
  {
    Pow2Monotone(k, 31);
    Pow2Values();
  }
}
