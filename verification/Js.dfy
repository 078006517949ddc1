/** ECMAScript number coercions and bitwise operators (ECMA-262 5.1, sections 9.5, 9.6, 11.7 and 11.10).

    A JavaScript number that the codec uses as an integer is an unbounded `int` here; every
    truncation to 32 bits is written out. */
module Js {

  const TWO_TO_31 := 0x8000_0000
  const TWO_TO_32 := 0x1_0000_0000
  const TWO_TO_53 := 0x20_0000_0000_0000
  const TWO_TO_63 := 0x8000_0000_0000_0000
  const TWO_TO_64 := 0x1_0000_0000_0000_0000

  /** One element of a `Uint8Array`. */
  type byte = b: int | 0 <= b < 256

  /** An unsigned 32-bit half, as `x >>> 0` yields it. */
  type uint32 = x: int | 0 <= x < TWO_TO_32

  /** A signed 32-bit number, as `x | 0` yields it. */
  type int32 = x: int | -TWO_TO_31 <= x < TWO_TO_31

  function Pow2(k: nat): (p: nat)
    ensures p > 0
  {
    if k == 0 then 1 else 2 * Pow2(k - 1)
  }

  function ToUint32(x: int): (r: uint32)
    ensures 0 <= x < TWO_TO_32 ==> r == x
  {
    x % TWO_TO_32
  }

  function ToInt32(x: int): (r: int32)
    ensures -TWO_TO_31 <= x < TWO_TO_31 ==> r == x
  {
    var u := x % TWO_TO_32;
    if u < TWO_TO_31 then u else u - TWO_TO_32
  }

  function AndBits(a: nat, b: nat): nat
    decreases a
  {
    if a == 0 || b == 0 then 0
    else (if a % 2 == 1 && b % 2 == 1 then 1 else 0) + 2 * AndBits(a / 2, b / 2)
  }

  function OrBits(a: nat, b: nat): nat
    decreases a
  {
    if a == 0 then b
    else if b == 0 then a
    else (if a % 2 == 1 || b % 2 == 1 then 1 else 0) + 2 * OrBits(a / 2, b / 2)
  }

  function XorBits(a: nat, b: nat): nat
    decreases a
  {
    if a == 0 then b
    else if b == 0 then a
    else (if a % 2 != b % 2 then 1 else 0) + 2 * XorBits(a / 2, b / 2)
  }

  /** `x & y` */
  function And(x: int, y: int): int32 { ToInt32(AndBits(ToUint32(x), ToUint32(y))) }

  /** `x | y` */
  function Or(x: int, y: int): int32 { ToInt32(OrBits(ToUint32(x), ToUint32(y))) }

  /** `x ^ y` */
  function Xor(x: int, y: int): int32 { ToInt32(XorBits(ToUint32(x), ToUint32(y))) }

  /** `~x` */
  function Not(x: int): int32 {
    var r: int := ToInt32(x);
    -r - 1
  }

  /** `x << k` */
  function Shl(x: int, k: nat): int32 { ToInt32(ToUint32(x) * Pow2(k)) }

  /** Halves k times, rounding towards minus infinity. */
  function Halved(x: int, k: nat): int
    decreases k
  {
    if k == 0 then x else Halved(x / 2, k - 1)
  }

  /** `x >> k` */
  function Sar(x: int, k: nat): int { Halved(ToInt32(x), k) }

  /** `x >>> k` */
  function Shr(x: int, k: nat): uint32 {
    HalvedBound(ToUint32(x), k);
    Halved(ToUint32(x), k)
  }

  lemma {:induction false} HalvedBound(x: nat, k: nat)
    ensures 0 <= Halved(x, k) <= x
    decreases k
  {
    if k != 0 {
      HalvedBound(x / 2, k - 1);
    }
  }

  /** Halving k times divides by 2^k. */
  lemma {:induction false} HalvedDivides(x: int, k: nat)
    ensures Halved(x, k) == x / Pow2(k)
    decreases k
  {
    if k != 0 {
      HalvedDivides(x / 2, k - 1);
      ModDouble(x, Pow2(k - 1));
    }
  }

  // ----- division facts -----

  lemma MulAtLeast(k: int, m: int)
    requires 0 < m
    ensures 1 <= k ==> m <= k * m
    ensures k <= -1 ==> k * m <= -m
  {
    if 1 <= k {
      assert k * m == m + (k - 1) * m;
    } else if k <= -1 {
      assert k * m == -m + (k + 1) * m;
    }
  }

  lemma MulMonotone(a: int, b: int, c: int)
    requires 0 <= a && b <= c
    ensures a * b <= a * c
  {
    assert a * c == a * b + a * (c - b);
    MulNonNegative(a, c - b);
  }

  lemma MulNonNegative(x: nat, p: nat)
    ensures 0 <= x * p
  {
  }

  lemma DivModUnique(x: int, m: int, q: int, r: int)
    requires 0 < m && 0 <= r < m && x == q * m + r
    ensures x / m == q && x % m == r
  {
    var q', r' := x / m, x % m;
    assert x == q' * m + r';
    assert (q - q') * m == r' - r;
    MulAtLeast(q - q', m);
  }

  lemma QuotientBound(x: nat, m: int)
    requires 0 < m
    ensures 0 <= x / m <= x
  {
    var q := x / m;
    assert x == q * m + x % m;
    if q < 0 {
      MulAtLeast(q, m);
    } else {
      assert q * m == q + q * (m - 1);
    }
  }

  lemma ModAddMultiple(x: int, k: int, m: int)
    requires 0 < m
    ensures (x + k * m) % m == x % m
  {
    assert x == (x / m) * m + x % m;
    assert x + k * m == (x / m + k) * m + x % m;
    DivModUnique(x + k * m, m, x / m + k, x % m);
  }

  lemma ToUint32Congruent(x: int, y: int, k: int)
    requires x == y + k * TWO_TO_32
    ensures ToUint32(x) == ToUint32(y) && ToInt32(x) == ToInt32(y)
  {
    ModAddMultiple(y, k, TWO_TO_32);
  }

  lemma ToUint32OfToInt32(x: int)
    ensures ToUint32(ToInt32(x)) == ToUint32(x)
  {
    ToUint32Congruent(ToInt32(x), x % TWO_TO_32, if x % TWO_TO_32 < TWO_TO_31 then 0 else -1);
  }

  // ----- powers of two -----

  lemma {:induction false} Pow2Add(j: nat, k: nat)
    ensures Pow2(j + k) == Pow2(j) * Pow2(k)
  {
    if j != 0 {
      Pow2Add(j - 1, k);
      assert Pow2(j + k) == 2 * Pow2(j - 1 + k);
    }
  }

  // ----- what masks and disjoint unions compute -----

  lemma ModDouble(a: int, m: int)
    requires 0 < m
    ensures a % (2 * m) == a % 2 + 2 * (a / 2 % m)
    ensures a / (2 * m) == a / 2 / m
  {
    var q, r := a / 2 / m, a / 2 % m;
    assert a / 2 == q * m + r;
    assert 2 * (q * m) == q * (2 * m);
    DivModUnique(a, 2 * m, q, 2 * r + a % 2);
  }

  /** Masking with k ones keeps the remainder modulo 2^k. */
  lemma {:induction false} AndLowMask(a: nat, k: nat)
    ensures AndBits(a, Pow2(k) - 1) == a % Pow2(k)
    decreases k
  {
    if k == 0 {
      DivModUnique(a, 1, a, 0);
    } else if a != 0 {
      AndLowMask(a / 2, k - 1);
      ModDouble(a, Pow2(k - 1));
    }
  }

  lemma MulDouble(x: int, p: int)
    ensures x * (2 * p) == 2 * (x * p)
  {
  }

  lemma {:induction false} AndDouble(a: nat, b: nat)
    ensures AndBits(a, 2 * b) == 2 * AndBits(a / 2, b)
  {
    assert 2 * b / 2 == b && 2 * b % 2 == 0;
  }

  /** Masking with a mask whose low k bits are clear works on the quotient by 2^k. */
  lemma {:induction false} AndShiftedMask(a: nat, m: nat, k: nat)
    requires 0 <= a / Pow2(k) && 0 <= m * Pow2(k)
    ensures AndBits(a, m * Pow2(k)) == AndBits(a / Pow2(k), m) * Pow2(k)
    decreases k
  {
    if k == 0 {
      DivModUnique(a, 1, a, 0);
    } else {
      var p := Pow2(k - 1);
      QuotientBound(a / 2, p);
      MulNonNegative(m, p);
      AndShiftedMask(a / 2, m, k - 1);
      ModDouble(a, p);
      MulDouble(m, p);
      AndDouble(a, m * p);
      MulDouble(AndBits(a / 2 / p, m), p);
    }
  }

  /** A union of numbers without common bits is their sum. */
  lemma {:induction false} OrDisjoint(a: nat, b: nat, k: nat)
    requires a < Pow2(k) && b % Pow2(k) == 0
    ensures OrBits(a, b) == a + b
    decreases k
  {
    if a != 0 && b != 0 {
      var p := Pow2(k - 1);
      var q := b / Pow2(k);
      assert b == q * (2 * p) == 2 * (q * p);
      DivModUnique(b / 2, p, q, 0);
      assert b % 2 == 0;
      OrDisjoint(a / 2, b / 2, k - 1);
    }
  }

  lemma {:induction false} OrCommutes(a: nat, b: nat)
    ensures OrBits(a, b) == OrBits(b, a)
  {
    if a != 0 && b != 0 {
      OrCommutes(a / 2, b / 2);
    }
  }

  lemma Pow2Values()
    ensures Pow2(1) == 2 && Pow2(3) == 8 && Pow2(4) == 16 && Pow2(6) == 64 && Pow2(7) == 128 && Pow2(8) == 256
    ensures Pow2(14) == 0x4000 && Pow2(16) == 0x1_0000 && Pow2(21) == 0x20_0000 && Pow2(24) == 0x100_0000
    ensures Pow2(25) == 0x200_0000 && Pow2(28) == 0x1000_0000 && Pow2(31) == TWO_TO_31 && Pow2(32) == TWO_TO_32
  {
    assert Pow2(8) == 256;
    Pow2Add(8, 8);
    Pow2Add(16, 8);
    Pow2Add(16, 16);
  }

  // ----- the operators on the operands the codec gives them -----

  lemma MulAssoc(x: int, y: int, z: int)
    ensures x * (y * z) == (x * y) * z
  {
  }

  lemma ModOfMultiple(x: int, n: int, p: int)
    requires 0 < n && 0 < p && 0 < n * p
    ensures x % (n * p) % p == x % p
  {
    var m := n * p;
    var q := x / m;
    assert x == x % m + q * m;
    MulAssoc(q, n, p);
    ModAddMultiple(x % m, q * n, p);
  }

  lemma ModOfMod(x: int, k: nat)
    requires k <= 32
    ensures x % TWO_TO_32 % Pow2(k) == x % Pow2(k)
  {
    Pow2Values();
    Pow2Add(32 - k, k);
    ModOfMultiple(x, Pow2(32 - k), Pow2(k));
  }

  lemma {:induction false} Pow2Monotone(j: nat, k: nat)
    requires j <= k
    ensures Pow2(j) <= Pow2(k)
  {
    if j < k {
      Pow2Monotone(j, k - 1);
    }
  }

  /** `x & mask` for a mask of k low ones is the remainder modulo 2^k, for negative numbers too. */
  lemma AndMask(x: int, mask: nat, k: nat)
    requires k < 32 && mask == Pow2(k) - 1
    ensures And(x, mask) == x % Pow2(k)
  {
    Pow2Values();
    Pow2Monotone(k, 31);
    AndLowMask(ToUint32(x), k);
    ModOfMod(x, k);
  }

  lemma RoomBelow(x: nat, y: nat, p: nat, n: nat)
    requires 0 < p && x < p && y % p == 0 && y < n * p
    ensures x + y < n * p
  {
    var q := y / p;
    assert y == q * p;
    assert (n - q) * p == n * p - q * p > 0;
    MulAtLeast(n - q, p);
  }

  lemma OrBitsSum(x: nat, y: uint32, k: nat)
    requires k <= 32 && x < Pow2(k) && y % Pow2(k) == 0
    ensures OrBits(x, y) == OrBits(y, x) == x + y < TWO_TO_32
  {
    OrDisjoint(x, y, k);
    OrCommutes(x, y);
    Pow2Values();
    Pow2Add(32 - k, k);
    RoomBelow(x, y, Pow2(k), Pow2(32 - k));
  }

  lemma ShiftValues(x: int)
    ensures Halved(x, 0) == x && Halved(x, 1) == x / 2 && Halved(x, 3) == x / 8
    ensures Halved(x, 7) == x / 128 && Halved(x, 8) == x / 0x100
    ensures Halved(x, 16) == x / 0x1_0000 && Halved(x, 24) == x / 0x100_0000 && Halved(x, 31) == x / TWO_TO_31
  {
    HalvedDivides(x, 1);
    HalvedDivides(x, 3);
    HalvedDivides(x, 7);
    HalvedDivides(x, 8);
    HalvedDivides(x, 16);
    HalvedDivides(x, 24);
    HalvedDivides(x, 31);
    Pow2Values();
  }

  /** `x | y` adds when x fits below the lowest bit of y. */
  lemma OrSum(x: nat, y: int, k: nat)
    requires k <= 32 && x < Pow2(k) && y % Pow2(k) == 0
    ensures x + ToUint32(y) < TWO_TO_32
    ensures ToUint32(Or(x, y)) == x + ToUint32(y) == ToUint32(Or(y, x))
  {
    ModOfMod(y, k);
    OrBitsSum(x, ToUint32(y), k);
    ToUint32OfToInt32(x + ToUint32(y));
  }

  lemma MulModLeft(x: int, p: int, m: int)
    requires 0 < m
    ensures (x % m) * p % m == x * p % m
  {
    var q := x / m;
    assert x * p == (x % m) * p + (q * p) * m;
    ModAddMultiple((x % m) * p, q * p, m);
  }

  lemma MultipleMod(x: int, p: int)
    requires 0 < p
    ensures x * p % p == 0
  {
    DivModUnique(x * p, p, x, 0);
  }

  /** `x << k` shifts modulo 2^32. */
  lemma ShlMod(x: int, k: nat)
    requires k <= 32
    ensures ToUint32(Shl(x, k)) == x * Pow2(k) % TWO_TO_32
    ensures Shl(x, k) % Pow2(k) == 0
  {
    ToUint32OfToInt32(ToUint32(x) * Pow2(k));
    MulModLeft(x, Pow2(k), TWO_TO_32);
    ModOfMod(ToUint32(x) * Pow2(k), k);
    MultipleMod(ToUint32(x), Pow2(k));
    ModOfMod(Shl(x, k), k);
  }

  /** `(x & 0x7f) | 0x80`: the low septet with the continuation bit. */
  lemma ContinuedSeptet(x: int)
    ensures Or(And(x, 0x7f), 0x80) == x % 128 + 128
  {
    Pow2Values();
    AndMask(x, 0x7f, 7);
    OrSum(x % 128, 0x80, 7);
    ToUint32OfToInt32(OrBits(ToUint32(x % 128), 0x80));
  }

  lemma {:induction false} XorAllOnes(a: nat, k: nat)
    requires a < Pow2(k)
    ensures XorBits(a, Pow2(k) - 1) == Pow2(k) - 1 - a
    decreases k
  {
    if k != 0 && a != 0 {
      var m := Pow2(k - 1);
      XorAllOnes(a / 2, k - 1);
      assert (2 * m - 1) / 2 == m - 1 && (2 * m - 1) % 2 == 1;
    }
  }

  lemma XorOnes32(a: uint32)
    ensures XorBits(a, 0xFFFF_FFFF) == 0xFFFF_FFFF - a
  {
    Pow2Values();
    XorAllOnes(a, 32);
  }
}
