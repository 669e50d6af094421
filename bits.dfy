/** Fixed-width unsigned integers and the Go bit operations the sketches use,
    stated on natural numbers, with the lemmas that turn each bit operation
    into ordinary arithmetic. */
module Bits {

  type Uint32 = x: int | 0 <= x < 0x1_0000_0000
  type Uint64 = x: int | 0 <= x < 0x1_0000_0000_0000_0000

  const TwoTo32: nat := 0x1_0000_0000
  const TwoTo64: nat := 0x1_0000_0000_0000_0000
  /** math.MaxUint32 */
  const MaxUint32: Uint32 := 0xFFFF_FFFF

  function Min(x: int, y: int): (r: int) { if x <= y then x else y }
  function Max(x: int, y: int): (r: int) { if x <= y then y else x }

  function Pow2(n: nat): (r: nat)
    ensures r > 0
  {
    if n == 0 then 1 else 2 * Pow2(n - 1)
  }

  // ---------------------------------------------------------------------
  // The Go operators, on unsigned values

  /** x & y, bit by bit from the least significant end. */
  function And(x: nat, y: nat): (r: nat)
    ensures r <= x && r <= y
    decreases x
  {
    if x == 0 || y == 0 then 0
    else 2 * And(x / 2, y / 2) + (if x % 2 == 1 && y % 2 == 1 then 1 else 0)
  }

  /** x | y, bit by bit from the least significant end. */
  function Or(x: nat, y: nat): (r: nat)
    decreases x + y
  {
    if x == 0 then y
    else if y == 0 then x
    else 2 * Or(x / 2, y / 2) + (if x % 2 == 1 || y % 2 == 1 then 1 else 0)
  }

  /** x << s on a uint32: bits shifted past bit 31 are lost (a shift by 32 or more gives 0). */
  function Shl32(x: Uint32, s: nat): (r: Uint32) { (x * Pow2(s)) % TwoTo32 }

  /** x >> s on an unsigned integer of any width: s halvings. */
  function Shr(x: nat, s: nat): (r: nat)
    ensures r <= x
  {
    if s == 0 then x else Shr(x / 2, s - 1)
  }

  /** x * y on uint64, wrapping modulo 2^64. */
  function Mul64(x: Uint64, y: Uint64): (r: Uint64) { (x * y) % TwoTo64 }

  /** x + y on uint64, wrapping modulo 2^64. */
  function Add64(x: Uint64, y: Uint64): (r: Uint64) { (x + y) % TwoTo64 }

  /** uint32(1<<s) - 1: the shift drops bits past bit 31 and the subtraction wraps,
      so every s >= 32 gives MaxUint32. */
  function Mask32(s: nat): (r: Uint32) { (Pow2(s) % TwoTo32 + MaxUint32) % TwoTo32 }

  // ---------------------------------------------------------------------
  // Division and remainder

  lemma DivModUnique(x: int, d: int, q: int, r: int)
    requires d > 0 && 0 <= r < d && x == q * d + r
    ensures x / d == q && x % d == r
  {
    var q', r' := x / d, x % d;
    assert x == q' * d + r';
    assert (q' - q) * d == r - r';
    if q' > q {
      MulAtLeast(q' - q, d);
    } else if q' < q {
      MulAtLeast(q - q', d);
    }
  }

  lemma MulAtLeast(k: int, d: int)
    requires k >= 1 && d > 0
    ensures k * d >= d
  {
  }

  lemma MulSucc(n: int, m: int, c: int)
    requires m == n + 1
    ensures m * c == n * c + c
  {
  }

  lemma MulMonotone(x: int, y: int, c: int)
    requires x <= y && c >= 0
    ensures x * c <= y * c
  {
  }

  lemma ModAddMultiple(q: int, d: int, t: int)
    requires d > 0
    ensures (q * d + t) % d == t % d
  {
    var k, r := t / d, t % d;
    assert q * d + t == (q + k) * d + r;
    DivModUnique(q * d + t, d, q + k, r);
  }

  /** One binary digit at a time: x mod 2m and x div 2m through x div 2. */
  lemma DivModHalf(x: nat, m: nat)
    requires m > 0
    ensures x % (2 * m) == 2 * ((x / 2) % m) + x % 2
    ensures x / (2 * m) == (x / 2) / m
  {
    var h, b := x / 2, x % 2;
    var q, s := h / m, h % m;
    assert x == q * (2 * m) + (2 * s + b);
    DivModUnique(x, 2 * m, q, 2 * s + b);
  }

  lemma DivAddDivisor(x: nat, d: nat)
    requires d > 0
    ensures (x + d) / d == x / d + 1
  {
    DivModUnique(x + d, d, x / d + 1, x % d);
  }

  lemma MulDivCancel(x: nat, d: nat, y: nat)
    requires d > 0 && y < d
    ensures (x * d + y) / d == x && (x * d + y) % d == y
  {
    DivModUnique(x * d + y, d, x, y);
  }

  // ---------------------------------------------------------------------
  // Powers of two

  lemma {:induction false} Pow2Add(m: nat, n: nat)
    ensures Pow2(m + n) == Pow2(m) * Pow2(n)
  {
    if m > 0 {
      Pow2Add(m - 1, n);
      assert Pow2(m + n) == 2 * Pow2(m - 1 + n);
    }
  }

  lemma {:induction false} Pow2Monotone(m: nat, n: nat)
    requires m <= n
    ensures Pow2(m) <= Pow2(n)
  {
    if m < n {
      Pow2Monotone(m, n - 1);
    }
  }

  lemma Pow2Of8()
    ensures Pow2(8) == 256
  {
    assert Pow2(2) == 4;
    assert Pow2(4) == 16;
    assert Pow2(6) == 64;
  }

  lemma Pow2Of32()
    ensures Pow2(32) == TwoTo32
  {
    Pow2Of8();
    Pow2Add(8, 8);
    assert Pow2(16) == 0x1_0000;
    Pow2Add(16, 16);
    assert Pow2(32) == 0x1_0000 * 0x1_0000;
  }

  lemma Pow2Of61()
    ensures Pow2(61) == 0x2000_0000_0000_0000
  {
    Pow2Of32();
    Pow2Of8();
    Pow2Add(8, 8);
    Pow2Add(16, 8);
    Pow2Add(24, 5);
    Pow2Add(32, 29);
    assert Pow2(5) == 32;
  }

  // ---------------------------------------------------------------------
  // Bit operations as arithmetic

  /** A right shift by s divides by 2^s. */
  lemma {:induction false} ShrIsDiv(x: nat, s: nat)
    ensures Shr(x, s) == x / Pow2(s)
  {
    if s > 0 {
      ShrIsDiv(x / 2, s - 1);
      DivModHalf(x, Pow2(s - 1));
    }
  }

  /** Masking with 2^n - 1 keeps the low n bits. */
  lemma {:induction false} AndLowBits(x: nat, n: nat)
    ensures And(x, Pow2(n) - 1) == x % Pow2(n)
  {
    if n == 0 {
      assert Pow2(n) == 1;
    } else if x == 0 {
      MulDivCancel(0, Pow2(n), 0);
    } else {
      var m := Pow2(n - 1);
      AndLowBits(x / 2, n - 1);
      assert Pow2(n) == 2 * m;
      AndLowBitsStep(x, m);
    }
  }

  lemma AndLowBitsStep(x: nat, m: nat)
    requires x > 0 && m > 0 && And(x / 2, m - 1) == (x / 2) % m
    ensures And(x, 2 * m - 1) == x % (2 * m)
  {
    var y := 2 * m - 1;
    var h, low := x / 2, And(x / 2, m - 1);
    OddMaskHalves(m);
    assert y / 2 == m - 1 && y % 2 == 1;
    AndOddStep(x, y);
    assert And(x, y) == 2 * low + x % 2;
    DivModHalf(x, m);
    assert x % (2 * m) == 2 * (h % m) + x % 2;
  }

  lemma OddMaskHalves(m: nat)
    requires m > 0
    ensures (2 * m - 1) / 2 == m - 1 && (2 * m - 1) % 2 == 1
  {
    MulDivCancel(m - 1, 2, 1);
  }

  lemma AndOddStep(x: nat, y: nat)
    requires x > 0 && y % 2 == 1
    ensures And(x, y) == 2 * And(x / 2, y / 2) + x % 2
  {
  }

  /** Or-ing a value into bits that a left shift has cleared is addition. */
  lemma {:induction false} OrDisjoint(x: nat, y: nat, n: nat)
    requires y < Pow2(n)
    ensures Or(x * Pow2(n), y) == x * Pow2(n) + y
  {
    if n > 0 && x > 0 && y > 0 {
      var m := Pow2(n - 1);
      var xs := x * Pow2(n);
      assert xs == 2 * (x * m);
      assert xs / 2 == x * m && xs % 2 == 0;
      OrDisjoint(x, y / 2, n - 1);
    }
  }

  /** Or-ing two values below 2^n gives a value below 2^n. */
  lemma {:induction false} OrBound(x: nat, y: nat, n: nat)
    requires x < Pow2(n) && y < Pow2(n)
    ensures Or(x, y) < Pow2(n)
    decreases x + y
  {
    if x > 0 && y > 0 {
      var m := Pow2(n - 1);
      assert Pow2(n) == 2 * m;
      OrBound(x / 2, y / 2, n - 1);
    }
  }

  /** v & Mask32(s) keeps the low s bits of a 32-bit value, for every s. */
  lemma AndMask32(v: Uint32, s: nat)
    ensures And(v, Mask32(s)) == v % Pow2(s)
  {
    Mask32Value(s);
    if s <= 32 {
      AndLowBits(v, s);
    } else {
      Pow2Of32();
      AndLowBits(v, 32);
      Pow2Monotone(32, s);
      MulDivCancel(0, Pow2(s), v);
      MulDivCancel(0, Pow2(32), v);
    }
  }

  lemma Mask32Value(s: nat)
    ensures Mask32(s) == if s <= 32 then Pow2(s) - 1 else Pow2(32) - 1
  {
    Pow2Of32();
    if s < 32 {
      Pow2Monotone(s + 1, 32);
      assert Pow2(s + 1) == 2 * Pow2(s);
      Mask32Below(Pow2(s));
    } else {
      Mask32Wraps(s);
    }
  }

  /** From s = 32 on, 1 << s is 0 in a uint32 and the subtraction wraps. */
  lemma Mask32Wraps(s: nat)
    requires s >= 32
    ensures Mask32(s) == MaxUint32
  {
    var k := Pow2(s - 32);
    Pow2Of32();
    Pow2Add(32, s - 32);
    MulDivCancel(k, TwoTo32, 0);
    var p := Pow2(s);
    assert p % TwoTo32 == 0;
  }

  lemma Mask32Below(p: nat)
    requires 0 < p < TwoTo32
    ensures (p % TwoTo32 + MaxUint32) % TwoTo32 == p - 1
  {
    MulDivCancel(0, TwoTo32, p);
    MulDivCancel(1, TwoTo32, p - 1);
  }
}
