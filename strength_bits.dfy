/**
 * The 32-bit arithmetic behind the strength-reduction rules: the sign-bit
 * test the pass calls `isPowerOfTwo`, the mask loop `powerOfTwo`, and the
 * meaning of `mul`, `shl`, `srem` and `and` on `i32` values.  A value is its
 * two's-complement bit pattern, a `bv32`; `Signed` reads a pattern as the
 * integer a C `int` holds, one bit at a time.
 */
module StrengthBits {

  /** The bit pattern of `INT_MAX`. */
  const IntMax: bv32 := 0x7FFF_FFFF

  /** The sign bit. */
  const SignBit: bv32 := 0x8000_0000

  /** `2^k` as an integer. */
  function Pow2Int(k: nat): (r: nat)
    ensures r >= 1
  {
    if k == 0 then 1 else 2 * Pow2Int(k - 1)
  }

  /** Bit 0 of `v` as a number. */
  function LowBit(v: bv32): (b: int)
    ensures b == 0 || b == 1
  {
    if v & 1 == 1 then 1 else 0
  }

  /** The unsigned value of the low `n` bits of `v`. */
  function Bits(v: bv32, n: nat): nat
    requires n <= 32
  {
    if n == 0 then 0 else LowBit(v) + 2 * Bits(v >> 1, n - 1)
  }

  /** The integer a 32-bit pattern stands for in two's complement. */
  function Signed(v: bv32): int {
    if v & SignBit == 0 then Bits(v, 32) else Bits(v, 32) - Pow2Int(32)
  }

  /** A shift amount as a number. */
  function ToNat(k: bv32): nat
    requires k <= 32
  {
    if k == 0 then 0 else ToNat(k - 1) + 1
  }

  lemma {:induction false} ToNatMonotone(k: bv32, j: bv32)
    requires k <= j <= 32
    ensures ToNat(k) <= ToNat(j)
    decreases j
  {
    if j != k {
      ToNatMonotone(k, j - 1);
    }
  }

  lemma ToNatBelow(k: bv32)
    requires k <= 32
    ensures ToNat(k) <= 32
    ensures k < 31 ==> ToNat(k) < 31
  {
    ToNatMonotone(k, 32);
    if k < 31 {
      ToNatMonotone(k, 30);
    }
    ToNatThirty();
  }

  lemma ToNatThirty()
    ensures ToNat(30) == 30 && ToNat(32) == 32
  {
    assert ToNat(10) == 10;
    assert ToNat(20) == 20;
  }

  lemma {:induction false} BitsBound(v: bv32, n: nat)
    requires n <= 32
    ensures Bits(v, n) < Pow2Int(n)
  {
    if n != 0 {
      BitsBound(v >> 1, n - 1);
    }
  }

  /** `Signed` is negative exactly when the sign bit is set. */
  lemma SignedSign(v: bv32)
    ensures Signed(v) >= 0 <==> v & SignBit == 0
  {
    BitsBound(v, 32);
  }

  /** The sign-bit test: `value & INT_MAX == value`. */
  predicate IsPowerOfTwo(v: bv32) {
    v & IntMax == v
  }

  /** The test holds exactly for the non-negative values, powers of two or not. */
  lemma IsPowerOfTwoIffNonNegative(v: bv32)
    ensures IsPowerOfTwo(v) <==> Signed(v) >= 0
  {
    SignedSign(v);
  }

  /** The values the mask loop can finish on: zero, or one bit set below the sign bit. */
  ghost predicate AtMostOneBit(v: bv32) {
    v == 0 || exists k: bv32 :: k < 31 && v == OneBit(k)
  }

  /** `1 << k`. */
  function OneBit(k: bv32): bv32
    requires k < 32
  {
    1 << k
  }

  lemma OneBitFacts(j: bv32, k: bv32)
    requires j < 32 && k < 32
    ensures OneBit(k) != 0
    ensures j != k ==> OneBit(j) & OneBit(k) == 0
    ensures k < 31 ==> IsPowerOfTwo(OneBit(k))
  {
  }

  /** 6 passes the sign-bit test but is no power of two. */
  lemma IsPowerOfTwoAdmitsSix()
    ensures IsPowerOfTwo(6) && !AtMostOneBit(6)
  {
    forall k: bv32 | k < 31 ensures OneBit(k) != 6 {
    }
  }

  /** A value with at most one bit set that passes the mask test at `p` is zero or bit `p`. */
  lemma MaskTestExact(value: bv32, p: bv32)
    requires p < 32 && value & OneBit(p) == value
    requires value == 0 || exists k: bv32 :: k < 31 && value == OneBit(k)
    ensures value != 0 ==> OneBit(p) == value
  {
    if value != 0 {
      var k: bv32 :| k < 31 && value == OneBit(k);
      OneBitFacts(k, p);
    }
  }

  /** `powerOfTwo` as a value: 0 for 0, and `k` for `1 << k`. */
  ghost function Log2(value: bv32): (p: bv32)
    requires AtMostOneBit(value)
    ensures value == 0 ==> p == 0
    ensures value != 0 ==> p < 31 && OneBit(p) == value
  {
    if value == 0 then 0 else var k: bv32 :| k < 31 && value == OneBit(k); k
  }

  /** `powerOfTwo(1 << k)` is `k`: the exponent is determined by the value. */
  lemma Log2OfOneBit(k: bv32)
    requires k < 31
    ensures AtMostOneBit(OneBit(k)) && Log2(OneBit(k)) == k
  {
    OneBitFacts(k, k);
    var p := Log2(OneBit(k));
    if p != k {
      OneBitFacts(p, k);
    }
  }

  lemma OneBitStep(p: bv32)
    requires p < 31
    ensures OneBit(p) << 1 == OneBit(p + 1)
  {
  }

  /**
   * The mask loop of `powerOfTwo`.  It only stops when `value` has at most
   * one bit set (otherwise the mask shifts past the sign bit), which the
   * precondition demands.
   */
  method PowerOfTwo(value: bv32) returns (power: bv32)
    requires AtMostOneBit(value)
    ensures value == 0 ==> power == 0
    ensures value != 0 ==> power < 31 && OneBit(power) == value
    ensures power == Log2(value)
  {
    var mask: bv32 := 1;
    power := 0;
    ghost var k: bv32 := Log2(value);
    assert MaskLoop(value, mask, power, k);
    while value & mask != value
      invariant MaskLoop(value, mask, power, k)
      decreases k - power
    {
      MaskLoopStep(value, mask, power, k);
      mask := mask << 1;
      power := power + 1;
    }
    MaskLoopDone(value, mask, power, k);
  }

  ghost predicate MaskLoop(value: bv32, mask: bv32, power: bv32, k: bv32) {
    power <= k < 31 && mask == OneBit(power) &&
    (value == 0 ==> power == 0) && (value != 0 ==> value == OneBit(k))
  }

  lemma MaskLoopDone(value: bv32, mask: bv32, power: bv32, k: bv32)
    requires AtMostOneBit(value) && k == Log2(value)
    requires MaskLoop(value, mask, power, k) && value & mask == value
    ensures value == 0 ==> power == 0
    ensures value != 0 ==> power < 31 && OneBit(power) == value
    ensures power == Log2(value)
  {
    if value != 0 {
      OneBitFacts(k, power);
    }
  }

  lemma MaskLoopStep(value: bv32, mask: bv32, power: bv32, k: bv32)
    requires MaskLoop(value, mask, power, k) && value & mask != value
    ensures power < k && MaskLoop(value, mask << 1, power + 1, k)
  {
    MaskTestBelow(value, power, k);
    OneBitStep(power);
  }

  /**
   * The masks the loop can reach from 1 by shifting, the shift read as a
   * wrapping 32-bit shift: one bit set anywhere, or zero once the bit has
   * left the word.
   */
  ghost predicate ReachableMask(mask: bv32) {
    mask == 0 || exists k: bv32 :: k < 32 && mask == OneBit(k)
  }

  /** The loop starts on a reachable mask and its shift stays on one. */
  lemma ReachableMaskStep(mask: bv32)
    ensures ReachableMask(1)
    ensures ReachableMask(mask) ==> ReachableMask(mask << 1)
  {
    assert OneBit(0) == 1;
    if mask != 0 && ReachableMask(mask) {
      var k: bv32 :| k < 32 && mask == OneBit(k);
      if k < 31 {
        OneBitStep(k);
      } else {
        assert mask << 1 == 0;
      }
    }
  }

  /** A mask test passed by bit `p` leaves only zero or bit `p` itself. */
  lemma MaskTestInsideBit(value: bv32, p: bv32)
    requires p < 32
    ensures value & OneBit(p) == value ==> value == 0 || value == OneBit(p)
  {
  }

  /**
   * On a value that passes `isPowerOfTwo` with two or more bits set, the
   * exit test of the mask loop fails on every mask the loop reaches.
   */
  lemma MaskTestNeverPasses(value: bv32, mask: bv32)
    requires IsPowerOfTwo(value) && !AtMostOneBit(value) && ReachableMask(mask)
    ensures value & mask != value
  {
    if mask != 0 {
      var k: bv32 :| k < 32 && mask == OneBit(k);
      MaskTestInsideBit(value, k);
      assert OneBit(31) & IntMax != OneBit(31);
    }
  }

  /** A failed mask test happens below the set bit. */
  lemma MaskTestBelow(value: bv32, p: bv32, k: bv32)
    requires p <= k < 31 && value & OneBit(p) != value
    requires value != 0 ==> value == OneBit(k)
    ensures p < k
  {
  }

  // ---------------------------------------------------------------------
  // Meaning of the instructions on i32

  /** The remainder of C's division, truncated toward zero: it takes the dividend's sign. */
  function TruncRem(a: int, b: int): (r: int)
    requires b != 0
    ensures (if b < 0 then -b else b) > (if r < 0 then -r else r)
  {
    var aa := if a < 0 then -a else a;
    var bb := if b < 0 then -b else b;
    if a < 0 then -(aa % bb) else aa % bb
  }

  /** Multiplying by `2^k` is shifting left by `k`, in wrapping 32-bit arithmetic. */
  lemma MulByOneBitIsShl(x: bv32, k: bv32)
    requires k < 31
    ensures x * OneBit(k) == x << k
  {
  }

  /** `mul x, 0` passes the sign-bit test and becomes `shl x, 0`, which is `x`, not `0`. */
  lemma MulByZeroDiffers(x: bv32)
    requires x != 0
    ensures IsPowerOfTwo(0) && AtMostOneBit(0) && Log2(0) == 0
    ensures x * 0 != x << Log2(0)
  {
  }

  lemma {:induction false} BitsZero(n: nat)
    requires n <= 32
    ensures Bits(0, n) == 0
  {
    if n != 0 {
      BitsZero(n - 1);
    }
  }

  lemma MulAwayFromZero(d: int, t: int)
    requires d > 0
    ensures t >= 1 ==> d * t >= d
    ensures t <= -1 ==> d * t <= -d
  {
    assert d * t == d + d * (t - 1);
    assert d * t == -d + d * (t + 1);
  }

  lemma MulBelow(d: int, t: int)
    requires d > 0 && -d < d * t < d
    ensures t == 0
  {
    MulAwayFromZero(d, t);
  }

  /** The remainder is the unique `r` in `[0, d)` with `x == d * q + r`. */
  lemma ModUnique(x: int, d: int, q: int, r: int)
    requires d > 0 && 0 <= r < d && x == d * q + r
    ensures x % d == r
  {
    var q', r' := x / d, x % d;
    assert x == d * q' + r';
    assert d * (q - q') == r' - r;
    MulBelow(d, q - q');
  }

  lemma DivMod2(a: int, b: int, m: int)
    requires 0 <= b <= 1 && a >= 0 && m > 0
    ensures (b + 2 * a) % (2 * m) == b + 2 * (a % m)
  {
    var q, r := a / m, a % m;
    assert a == m * q + r;
    assert b + 2 * a == (2 * m) * q + (b + 2 * r);
    ModUnique(b + 2 * a, 2 * m, q, b + 2 * r);
  }

  /** One step of reading the low bits: a shared low bit, then the rest halved. */
  lemma LowBitsArith(bx: int, bm: int, b: int, a: int, am: int, m: int)
    requires 0 <= b <= 1 && a >= 0 && m > 0
    requires bx == b + 2 * a && bm == b + 2 * am && am == a % m
    ensures bm == bx % (2 * m)
  {
    DivMod2(a, b, m);
  }

  /** `m` holds exactly the low `k` bits. */
  predicate IsLowMask(m: bv32, k: nat)
    requires k <= 32
  {
    if k == 0 then m == 0 else m & 1 == 1 && IsLowMask(m >> 1, k - 1)
  }

  lemma AndFacts(x: bv32, m: bv32)
    ensures (x & m) >> 1 == (x >> 1) & (m >> 1)
    ensures m & 1 == 1 ==> LowBit(x & m) == LowBit(x)
    ensures m == 0 ==> x & m == 0
  {
  }

  lemma MaskedBitsStep(x: bv32, m: bv32, n: nat)
    requires 0 < n <= 32 && m & 1 == 1
    ensures Bits(x & m, n) == LowBit(x) + 2 * Bits((x >> 1) & (m >> 1), n - 1)
  {
    AndFacts(x, m);
  }

  /** Masking with the low `k` bits reads as the remainder modulo `2^k`. */
  lemma {:induction false} LowBitsAreMod(x: bv32, m: bv32, k: nat, n: nat)
    requires k <= n <= 32 && IsLowMask(m, k)
    ensures Bits(x & m, n) == Bits(x, n) % Pow2Int(k)
    decreases k
  {
    if k == 0 {
      AndFacts(x, m);
      BitsZero(n);
    } else {
      MaskedBitsStep(x, m, n);
      LowBitsAreMod(x >> 1, m >> 1, k - 1, n - 1);
      BitsBound(x >> 1, n - 1);
      LowBitsArith(Bits(x, n), Bits(x & m, n), LowBit(x), Bits(x >> 1, n - 1),
        Bits((x >> 1) & (m >> 1), n - 1), Pow2Int(k - 1));
    }
  }

  lemma OneBitShift(k: bv32)
    requires 0 < k < 32
    ensures OneBit(k) & 1 == 0 && OneBit(k) >> 1 == OneBit(k - 1)
    ensures (OneBit(k) - 1) & 1 == 1 && (OneBit(k) - 1) >> 1 == OneBit(k - 1) - 1
  {
  }

  /** `2^k - 1` is the mask of the low `k` bits. */
  lemma {:induction false} OneBitLessOneIsLowMask(k: bv32)
    requires k < 32
    ensures ToNat(k) <= 32 && IsLowMask(OneBit(k) - 1, ToNat(k))
    decreases k
  {
    ToNatBelow(k);
    if k != 0 {
      OneBitShift(k);
      OneBitLessOneIsLowMask(k - 1);
    }
  }

  /** `1 << k` reads as `2^k`. */
  lemma {:induction false} BitsOfOneBit(k: bv32, n: nat)
    requires k < 32 && ToNat(k) < n <= 32
    ensures Bits(OneBit(k), n) == Pow2Int(ToNat(k))
    decreases k
  {
    if k == 0 {
      BitsZero(n - 1);
    } else {
      OneBitShift(k);
      BitsOfOneBit(k - 1, n - 1);
    }
  }

  lemma OneBitNonNegative(k: bv32)
    requires k < 31
    ensures OneBit(k) & SignBit == 0 && (OneBit(k) - 1) & SignBit == 0
    ensures forall x: bv32 {:trigger x & (OneBit(k) - 1)} :: (x & (OneBit(k) - 1)) & SignBit == 0
  {
  }

  /** `x & (2^k - 1)` reads as the remainder of `x`'s unsigned value modulo `2^k`. */
  lemma SignedMasked(x: bv32, k: bv32)
    requires k < 31
    ensures Signed(OneBit(k)) == Pow2Int(ToNat(k))
    ensures Signed(x & (OneBit(k) - 1)) == Bits(x, 32) % Pow2Int(ToNat(k))
  {
    OneBitNonNegative(k);
    ToNatBelow(k);
    BitsOfOneBit(k, 32);
    OneBitLessOneIsLowMask(k);
    LowBitsAreMod(x, OneBit(k) - 1, ToNat(k), 32);
  }

  /** For a non-negative dividend, `srem` by `2^k` and `and` with `2^k - 1` give the same integer. */
  lemma SRemByOneBitIsAnd(x: bv32, k: bv32)
    requires k < 31 && Signed(x) >= 0
    ensures Signed(OneBit(k)) == Pow2Int(ToNat(k))
    ensures Signed(x & (OneBit(k) - 1)) == TruncRem(Signed(x), Signed(OneBit(k)))
  {
    SignedSign(x);
    SignedMasked(x, k);
  }

  lemma {:induction false} Pow2Split(a: nat, b: nat)
    ensures Pow2Int(a + b) == Pow2Int(a) * Pow2Int(b)
  {
    if a != 0 {
      Pow2Split(a - 1, b);
      var p, q := Pow2Int(a - 1), Pow2Int(b);
      assert Pow2Int(a + b) == 2 * Pow2Int(a - 1 + b);
      assert 2 * (p * q) == (2 * p) * q;
    }
  }

  /** Adding a multiple of `d` leaves the remainder alone. */
  lemma ModAddMultiple(s: int, d: int, q: int)
    requires d > 0
    ensures (s + d * q) % d == s % d
  {
    var q0, r0 := s / d, s % d;
    assert s == d * q0 + r0;
    assert s + d * q == d * (q0 + q) + r0;
    ModUnique(s + d * q, d, q0 + q, r0);
  }

  lemma ModNegZero(s: int, d: int)
    requires d > 0 && s % d == 0
    ensures (-s) % d == 0
  {
    var q := s / d;
    assert s == d * q;
    assert -s == d * (-q) + 0;
    ModUnique(-s, d, -q, 0);
  }

  /**
   * For a negative dividend, `and` with `2^k - 1` agrees with `srem` by `2^k`
   * exactly when the dividend is a multiple of `2^k`; otherwise the `and`
   * gives a positive number and `srem` a negative one.
   */
  lemma SRemByOneBitNegative(x: bv32, k: bv32)
    requires k < 31 && Signed(x) < 0
    ensures Signed(OneBit(k)) == Pow2Int(ToNat(k))
    ensures Signed(x & (OneBit(k) - 1)) == TruncRem(Signed(x), Signed(OneBit(k)))
        <==> Signed(x) % Pow2Int(ToNat(k)) == 0
  {
    SignedSign(x);
    SignedMasked(x, k);
    ToNatBelow(k);
    Pow2Split(ToNat(k), 32 - ToNat(k));
    NegativeRemArith(Signed(x), Bits(x, 32), Pow2Int(ToNat(k)), Pow2Int(32 - ToNat(k)));
  }

  /** The integer core of `SRemByOneBitNegative`: `b` is `s` plus a multiple of `d`. */
  lemma NegativeRemArith(s: int, b: int, d: int, q: int)
    requires s < 0 && d > 0 && b == s + d * q
    ensures b % d == TruncRem(s, d) <==> s % d == 0
  {
    ModAddMultiple(s, d, q);
    if s % d == 0 {
      ModNegZero(s, d);
    }
  }

  /**
   * `srem x, 6` passes the sign-bit test and becomes `and x, 5`: `6 srem 6`
   * is `0`, while `6 & 5` is `4`.
   */
  lemma SRemBySixDiffers()
    ensures IsPowerOfTwo(6) && !AtMostOneBit(6)
    ensures Signed(6) == 6 && Signed(6 & (6 - 1)) == 4
    ensures TruncRem(Signed(6), Signed(6)) == 0
  {
    IsPowerOfTwoAdmitsSix();
    BitsZero(29);
    assert Bits(1, 30) == 1 + 2 * Bits(0, 29);
    assert Bits(3, 31) == 1 + 2 * Bits(1, 30);
    assert Bits(6, 32) == 2 * Bits(3, 31);
    assert Bits(2, 31) == 2 * Bits(1, 30);
    assert Bits(4, 32) == 2 * Bits(2, 31);
  }
}
