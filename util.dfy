/**
  Alignment helpers of the tool set (src/Util.cpp) together with the small
  arithmetic vocabulary the rest of the model is written in.

  The source computes on `uint32_t`.  A 32-bit value is modelled as a `nat`
  below 2^32 and every operation that can wrap is reduced modulo 2^32
  explicitly.  The bit mask `& ~(y-1)` is modelled with a bitwise AND on
  naturals (`BitAnd`), so `AlignTo` keeps its meaning for every `y`, not only
  for the powers of two the callers pass.
*/
module Util {

  const TWO_32: nat := 0x1_0000_0000

  /** A value that fits a `uint32_t`. */
  type u32 = x: nat | x < TWO_32

  datatype Option<T> = None | Some(value: T)

  function Pow2(k: nat): (r: nat)
    ensures r >= 1
  {
    if k == 0 then 1 else 2 * Pow2(k - 1)
  }

  /** Bitwise AND of two naturals, one bit at a time from the least significant. */
  function BitAnd(a: nat, b: nat): (r: nat)
    ensures r <= a
    decreases a
  {
    if a == 0 || b == 0 then 0
    else 2 * BitAnd(a / 2, b / 2) + (if a % 2 == 1 && b % 2 == 1 then 1 else 0)
  }

  /** `~v` on a `uint32_t`. */
  function BitNot32(v: u32): u32 {
    TWO_32 - 1 - v
  }

  /** `AlignTo(x, y) = (x + (y - 1)) & ~(y - 1)` in 32-bit unsigned arithmetic. */
  function AlignTo(x: u32, y: u32): u32 {
    var yMinus1 := (y + TWO_32 - 1) % TWO_32;
    BitAnd((x + yMinus1) % TWO_32, BitNot32(yMinus1))
  }

  /** `PadTo32(x) = (x + 31) & ~31` in 32-bit unsigned arithmetic. */
  function PadTo32(x: u32): u32 {
    BitAnd((x + 31) % TWO_32, BitNot32(31))
  }

  /** The least multiple of 32 that is at least `n`, on unbounded naturals. */
  function RoundUp32(n: nat): (r: nat)
    ensures r % 32 == 0 && n <= r < n + 32
  {
    (n + 31) / 32 * 32
  }

  // ---------------------------------------------------------------------
  // Bit-level facts
  // ---------------------------------------------------------------------

  /** Dividing by 2^k in two steps. */
  lemma ModPow2Split(v: nat, k: nat)
    requires k >= 1
    ensures v % Pow2(k) == 2 * ((v / 2) % Pow2(k - 1)) + v % 2
  {
    var p := Pow2(k - 1);
    var q := v / 2;
    var t := q / p;
    assert q == t * p + q % p;
    assert v == t * (2 * p) + (2 * (q % p) + v % 2);
    DivModUnique(v, 2 * p, t, 2 * (q % p) + v % 2);
  }

  lemma DivModUnique(v: nat, m: nat, q: nat, r: nat)
    requires m > 0 && r < m && v == q * m + r
    ensures v % m == r && v / m == q
  {
    var q0, r0 := v / m, v % m;
    assert v == q0 * m + r0;
    if q0 < q {
      MulMonotone(q0 + 1, q, m);
      assert false;
    } else if q < q0 {
      MulMonotone(q + 1, q0, m);
      assert false;
    }
  }

  /** Adding a multiple of the modulus does not change the remainder. */
  lemma ModAddMultiple(q: nat, m: nat, y: nat)
    requires m > 0
    ensures (q * m + y) % m == y % m
  {
    assert y == (y / m) * m + y % m;
    assert q * m + y == (q + y / m) * m + y % m;
    DivModUnique(q * m + y, m, q + y / m, y % m);
  }

  /** Multiples of `m` are closed under addition. */
  lemma MultipleAdd(a: nat, b: nat, m: nat)
    requires m > 0 && a % m == 0 && b % m == 0
    ensures (a + b) % m == 0
  {
    assert a == (a / m) * m && b == (b / m) * m;
    assert a + b == (a / m + b / m) * m + 0;
    DivModUnique(a + b, m, a / m + b / m, 0);
  }

  /** Reducing before a multiply-add is the same as reducing after it. */
  lemma ModMulAdd(a: nat, k: nat, c: nat, m: nat)
    requires m > 0
    ensures ((a % m) * k + c) % m == (a * k + c) % m
  {
    assert a == (a / m) * m + a % m;
    assert a * k + c == ((a / m) * k) * m + ((a % m) * k + c);
    ModAddMultiple((a / m) * k, m, (a % m) * k + c);
  }

  /** Products and quotients of naturals are naturals. */
  lemma NatArith(a: nat, b: nat, d: nat)
    requires d > 0
    ensures a * b >= 0 && a / d >= 0
  {
    MulMonotone(0, a, b);
  }

  lemma MulMonotone(a: nat, b: nat, m: nat)
    requires a <= b
    ensures a * m <= b * m
  {
    var d := b - a;
    assert b * m == a * m + d * m;
  }

  lemma MulDistrib(a: nat, b: nat, c: nat)
    ensures (a + b) * c == a * c + b * c
  {
  }

  lemma MulAssoc(a: nat, b: nat, c: nat)
    ensures (a * b) * c == a * (b * c)
  {
  }

  /** Reducing modulo P * K and then modulo P is reducing modulo P. */
  lemma ModOfMod(x: nat, p: nat, k: nat)
    requires p > 0 && k > 0
    ensures x % (p * k) % p == x % p
  {
    var pk := p * k;
    var q, r := x / pk, x % pk;
    assert x == q * pk + r;
    assert r == (r / p) * p + r % p;
    MulAssoc(q, k, p);
    assert q * pk == (q * k) * p;
    MulDistrib(q * k, r / p, p);
    DivModUnique(x, p, q * k + r / p, r % p);
  }

  /** Doubling and adding a bit, seen modulo twice the modulus. */
  lemma ShiftLowBits(m: nat, p: nat, b: nat)
    requires p > 0 && b < 2
    ensures (2 * m + b) % (2 * p) == 2 * (m % p) + b
  {
    var q, r := m / p, m % p;
    assert m == q * p + r;
    assert q * (2 * p) == 2 * (q * p);
    DivModUnique(2 * m + b, 2 * p, q, 2 * r + b);
  }

  /** Adding a bit to an even residue does not wrap. */
  lemma AddBitMod(m: nat, t: nat, b: nat)
    requires t > 0 && t % 2 == 0 && b < 2
    ensures (2 * m) % t + b < t && (2 * m) % t + b == (2 * m + b) % t
  {
    var q, r := (2 * m) / t, (2 * m) % t;
    assert 2 * m == q * t + r;
    var h := t / 2;
    assert t == 2 * h;
    var qh := q * h;
    assert q * t == 2 * qh;
    var e := m - qh;
    assert r == 2 * e;
    assert e < h;
    assert r + b < t;
    DivModUnique(2 * m + b, t, q, r + b);
  }

  /** Multiplying by pw and reducing modulo pc * pw keeps the residue modulo pc, scaled. */
  lemma ShiftMod(m: nat, pc: nat, pw: nat, t: nat)
    requires pc > 0 && pc * pw == t && (m % pc) * pw < t
    ensures (m * pw) % t == (m % pc) * pw
  {
    var q, h := m / pc, m % pc;
    assert m == q * pc + h;
    assert m * pw == q * t + h * pw by {
      MulDistrib(q * pc, h, pw);
      MulAssoc(q, pc, pw);
    }
    DivModUnique(m * pw, t, q, h * pw);
  }

  lemma MulBelow(a: nat, b: nat, m: nat)
    requires a < b
    ensures a * m + m <= b * m
  {
    MulMonotone(a + 1, b, m);
    assert (a + 1) * m == a * m + m;
  }

  /** An all-ones mask of width n keeps every value below 2^n. */
  lemma {:induction false} BitAndAllOnes(v: nat, n: nat)
    requires v < Pow2(n)
    ensures BitAnd(v, Pow2(n) - 1) == v
  {
    if v != 0 {
      assert n >= 1;
      var p := Pow2(n - 1);
      assert Pow2(n) == 2 * p;
      var m := 2 * p - 1;
      assert m / 2 == p - 1 && m % 2 == 1;
      assert v / 2 < p;
      BitAndAllOnes(v / 2, n - 1);
      assert BitAnd(v, m) == 2 * BitAnd(v / 2, m / 2) + v % 2;
    }
  }

  /** The mask with bits k..n-1 set clears exactly the k low bits of a value below 2^n. */
  lemma {:induction false} BitAndClearsLowBits(v: nat, n: nat, k: nat)
    requires k <= n && v < Pow2(n) && Pow2(k) <= Pow2(n)
    ensures BitAnd(v, Pow2(n) - Pow2(k)) == v - v % Pow2(k)
  {
    if k == 0 {
      BitAndAllOnes(v, n);
      assert v % Pow2(k) == 0;
    } else if v == 0 {
      DivModUnique(0, Pow2(k), 0, 0);
    } else if k == n {
      DivModUnique(v, Pow2(k), 0, v);
      assert BitAnd(v, 0) == 0;
    } else {
      Pow2Monotone(k - 1, n - 1);
      BitAndClearsLowBits(v / 2, n - 1, k - 1);
      ClearLowBitsStep(v, n, k);
    }
  }

  /** The inductive step of BitAndClearsLowBits: one bit more on each side. */
  lemma ClearLowBitsStep(v: nat, n: nat, k: nat)
    requires 0 < k < n && v < Pow2(n)
    requires Pow2(k - 1) <= Pow2(n - 1)
    requires BitAnd(v / 2, Pow2(n - 1) - Pow2(k - 1)) == v / 2 - (v / 2) % Pow2(k - 1)
    ensures BitAnd(v, Pow2(n) - Pow2(k)) == v - v % Pow2(k)
  {
    var p, q := Pow2(n - 1), Pow2(k - 1);
    assert Pow2(n) == 2 * p && Pow2(k) == 2 * q;
    var m := 2 * p - 2 * q;
    assert m / 2 == p - q && m % 2 == 0;
    var h := v / 2;
    assert BitAnd(v, m) == 2 * BitAnd(h, p - q);
    ModPow2Split(v, k);
    var lo := h % q;
    assert v % Pow2(k) == 2 * lo + v % 2;
    assert v == 2 * h + v % 2;
  }

  lemma {:induction false} Pow2Add(a: nat, b: nat)
    ensures Pow2(a + b) == Pow2(a) * Pow2(b)
  {
    if a > 0 {
      Pow2Add(a - 1, b);
    }
  }

  lemma SmallMod(x: nat)
    requires x < TWO_32
    ensures x % TWO_32 == x
  {
  }

  lemma Pow2Facts()
    ensures Pow2(5) == 32 && Pow2(32) == TWO_32
  {
    assert Pow2(4) == 16;
    Pow2Add(4, 4);
    Pow2Add(8, 8);
    Pow2Add(16, 16);
  }

  // ---------------------------------------------------------------------
  // Properties of the alignment helpers
  // ---------------------------------------------------------------------

  /** `AlignTo` without the wrap of `y - 1`, for y > 0. */
  lemma AlignToUnfold(x: u32, y: u32)
    requires y > 0
    ensures AlignTo(x, y) == BitAnd((x + y - 1) % TWO_32, BitNot32(y - 1))
  {
    DivModUnique(y + TWO_32 - 1, TWO_32, 1, y - 1);
  }

  /** For y = 2^k the mask `~(y-1)` rounds the sum down to a multiple of y. */
  lemma AlignToPow2(x: u32, y: u32, k: nat)
    requires k < 32 && y == Pow2(k)
    ensures var s := (x + y - 1) % TWO_32;
            AlignTo(x, y) == s - s % y
  {
    AlignToUnfold(x, y);
    Pow2Facts();
    Pow2Monotone(k, 32);
    var s := (x + y - 1) % TWO_32;
    assert BitNot32(y - 1) == Pow2(32) - Pow2(k);
    BitAndClearsLowBits(s, 32, k);
  }

  lemma {:induction false} Pow2Monotone(i: nat, j: nat)
    requires i <= j
    ensures Pow2(i) <= Pow2(j)
  {
    if i < j {
      Pow2Monotone(i, j - 1);
    }
  }

  /**
    For y a power of two below 2^32, and x + y - 1 without 32-bit overflow,
    AlignTo(x, y) is the least multiple of y that is at least x.
  */
  lemma AlignToIsLeastMultiple(x: u32, y: u32, k: nat)
    requires k < 32 && y == Pow2(k) && x + y - 1 < TWO_32
    ensures var r := AlignTo(x, y);
            r % y == 0 && x <= r < x + y &&
            forall m: nat :: m % y == 0 && x <= m ==> r <= m
  {
    var s := x + y - 1;
    SmallMod(s);
    AlignToPow2(x, y, k);
    assert AlignTo(x, y) == s - s % y;
    RoundDownIsLeast(s, y);
  }

  /** Rounding down to a multiple of y by subtracting the remainder. */
  lemma RoundDown(s: nat, y: nat)
    requires y > 0
    ensures s - s % y == (s / y) * y && (s - s % y) % y == 0
  {
    DivModUnique(s - s % y, y, s / y, 0);
  }

  /** s - s % y is the least multiple of y above s - y. */
  lemma RoundDownIsLeast(s: nat, y: nat)
    requires y > 0 && s + 1 >= y
    ensures var r := s - s % y;
            r % y == 0 && s + 1 - y <= r <= s &&
            forall m: nat :: m % y == 0 && s + 1 - y <= m ==> r <= m
  {
    var r := s - s % y;
    RoundDown(s, y);
    forall m: nat | m % y == 0 && s + 1 - y <= m
      ensures r <= m
    {
      if m < r {
        assert m == (m / y) * y + m % y;
        if s / y <= m / y {
          MulMonotone(s / y, m / y, y);
          assert false;
        }
        MulMonotone(m / y + 1, s / y, y);
        assert false;
      }
    }
  }

  /** PadTo32 is AlignTo with y = 32. */
  lemma PadTo32IsAlignTo32(x: u32)
    ensures PadTo32(x) == AlignTo(x, 32)
  {
    AlignToUnfold(x, 32);
  }

  /** Without overflow, PadTo32 agrees with the unbounded RoundUp32. */
  lemma PadTo32Value(x: u32)
    requires x + 31 < TWO_32
    ensures PadTo32(x) == RoundUp32(x)
  {
    var s := x + 31;
    SmallMod(s);
    PadTo32Rounds(x);
    RoundDown(s, 32);
  }

  /** PadTo32 rounds the wrapped sum down to a multiple of 32. */
  lemma PadTo32Rounds(x: u32)
    ensures var s := (x + 31) % TWO_32;
            PadTo32(x) == s - s % 32
  {
    PadTo32IsAlignTo32(x);
    Pow2Facts();
    AlignToPow2(x, 32, 5);
  }

  /** The result is always a multiple of 32, even when x + 31 wraps. */
  lemma PadTo32Multiple(x: u32)
    ensures PadTo32(x) % 32 == 0
  {
    var s := (x + 31) % TWO_32;
    PadTo32Rounds(x);
    RoundDown(s, 32);
  }

  /** Bounds of PadTo32 when x + 31 does not overflow. */
  lemma PadTo32Bounds(x: u32)
    requires x + 31 < TWO_32
    ensures x <= PadTo32(x) < x + 32
  {
    PadTo32Value(x);
  }

  /** PadTo32 is idempotent. */
  lemma PadTo32Idempotent(x: u32)
    ensures PadTo32(PadTo32(x)) == PadTo32(x)
  {
    var p := PadTo32(x);
    PadTo32Multiple(x);
    PadTo32FixedIff(p);
  }

  /** PadTo32 leaves x unchanged exactly when x is a multiple of 32. */
  lemma PadTo32FixedIff(x: u32)
    ensures PadTo32(x) == x <==> x % 32 == 0
  {
    PadTo32Multiple(x);
    if x % 32 == 0 {
      MultipleOf32NoWrap(x);
      PadTo32Value(x);
      DivModUnique(x + 31, 32, x / 32, 31);
    }
  }

  /** A multiple of 32 below 2^32 leaves room for 31 more. */
  lemma MultipleOf32NoWrap(x: u32)
    requires x % 32 == 0
    ensures x + 31 < TWO_32
  {
    assert x == (x / 32) * 32;
  }
}
