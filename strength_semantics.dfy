/**
 * What the rewrites of the strength-reduction pass mean for the values
 * computed: when a `shl` computes the same `i32` as the `mul` it replaces,
 * and when an `and` computes the same as the `srem` it replaces.  `mul`
 * and `shl` wrap around at 32 bits; `srem` is the signed remainder, which
 * takes the sign of the dividend.
 */
module StrengthSemantics {
  import opened StrengthBits
  import opened StrengthIr
  import opened StrengthScan

  /** The value of an operand, given the values of the instructions and arguments it may name. */
  function Value(o: Operand, env: InstrId -> bv32): bv32 {
    match o
    case ConstInt(c) => c
    case Ref(id) => env(id)
  }

  /** Shifting by the logarithm of `c` multiplies by `c`, except for `c == 0`, where the shift keeps `x`. */
  lemma ShlByLog2(x: bv32, c: bv32)
    requires AtMostOneBit(c)
    ensures Log2(c) < 31
    ensures x << Log2(c) == x * c <==> c != 0 || x == 0
  {
    if c == 0 {
      if x != 0 {
        MulByZeroDiffers(x);
      }
    } else {
      MulByOneBitIsShl(x, Log2(c));
    }
  }

  /** Masking with `c - 1` is `srem` by a power of two `c` exactly for a dividend that is not negative or is a multiple of `c`. */
  lemma AndByPredecessor(x: bv32, c: bv32)
    requires AtMostOneBit(c) && c != 0
    ensures Signed(c) > 0
    ensures Signed(x & (c - 1)) == TruncRem(Signed(x), Signed(c)) <==> Signed(x) >= 0 || Signed(x) % Signed(c) == 0
  {
    var k := Log2(c);
    if Signed(x) >= 0 {
      SRemByOneBitIsAnd(x, k);
    } else {
      SRemByOneBitNegative(x, k);
    }
  }

  lemma MulCommutes(a: bv32, b: bv32)
    ensures a * b == b * a
  {
  }

  /** A `mul` the pass shifts has the operand it keeps on one side and the constant on the other. */
  lemma SelectShl(i: Instr)
    requires Select(i).ToShl?
    ensures i.Binary? && i.op == Mul && !Select(i).x.ConstInt?
    ensures (i.lhs == ConstInt(Select(i).c) && i.rhs == Select(i).x) ||
            (i.lhs == Select(i).x && i.rhs == ConstInt(Select(i).c))
  {
  }

  /** `ShlByLog2` for the factors `a * b` of `mul x, c`. */
  lemma ShlMatchesProduct(x: bv32, c: bv32, a: bv32, b: bv32)
    requires AtMostOneBit(c) && a == x && b == c
    ensures Log2(c) < 31
    ensures (x << Log2(c) == a * b) <==> (c != 0 || x == 0)
  {
    ShlByLog2(x, c);
  }

  /** `ShlByLog2` for the factors `a * b` of `mul c, x`. */
  lemma ShlMatchesSwappedProduct(x: bv32, c: bv32, a: bv32, b: bv32)
    requires AtMostOneBit(c) && a == c && b == x
    ensures Log2(c) < 31
    ensures (x << Log2(c) == a * b) <==> (c != 0 || x == 0)
  {
    ShlByLog2(x, c);
    MulCommutes(c, x);
  }

  /**
   * The `shl` the pass puts in place of `mul c, x` (constant on the left)
   * computes the same value exactly when `c` is not zero or `x` is zero:
   * `mul 0, x` becomes `shl x, 0`, which is `x`.
   */
  lemma ShlReplacesMulByLeftConstant(i: Instr, env: InstrId -> bv32)
    requires Select(i).ToShl? && AtMostOneBit(Select(i).c) && i.lhs.ConstInt?
    ensures Log2(Select(i).c) < 31
    ensures (Value(Select(i).x, env) << Log2(Select(i).c) == Value(i.lhs, env) * Value(i.rhs, env)) <==>
      (Select(i).c != 0 || Value(Select(i).x, env) == 0)
  {
    SelectShl(i);
    ShlMatchesSwappedProduct(Value(Select(i).x, env), Select(i).c, Value(i.lhs, env), Value(i.rhs, env));
  }

  /** The same for `mul x, c`, the constant on the right. */
  lemma ShlReplacesMulByRightConstant(i: Instr, env: InstrId -> bv32)
    requires Select(i).ToShl? && AtMostOneBit(Select(i).c) && i.rhs.ConstInt?
    ensures Log2(Select(i).c) < 31
    ensures (Value(Select(i).x, env) << Log2(Select(i).c) == Value(i.lhs, env) * Value(i.rhs, env)) <==>
      (Select(i).c != 0 || Value(Select(i).x, env) == 0)
  {
    SelectShl(i);
    ShlMatchesProduct(Value(Select(i).x, env), Select(i).c, Value(i.lhs, env), Value(i.rhs, env));
  }

  /**
   * The `and` the pass puts in place of an `srem` by a non-zero power of two
   * computes the same value exactly when the dividend is not negative or is
   * a multiple of the divisor.
   */
  lemma AndReplacesSRem(i: Instr, id: InstrId, env: InstrId -> bv32)
    requires Select(i).ToAnd? && AtMostOneBit(Select(i).c) && Select(i).c != 0
    ensures var s := Select(i); var n := Replacement(s, id); var x := Signed(Value(i.lhs, env));
      i.op == SRem && n.op == And && n.lhs == s.x == i.lhs && n.rhs == ConstInt(s.c - 1) &&
      Signed(s.c) > 0 &&
      ((Signed(Value(n.lhs, env) & n.rhs.bits) == TruncRem(x, Signed(Value(i.rhs, env)))) <==>
       (x >= 0 || x % Signed(s.c) == 0))
  {
    AndByPredecessor(Value(Select(i).x, env), Select(i).c);
  }

  /**
   * `srem x, 6` is rewritten, since 6 passes the sign-bit test, into
   * `and x, 5`; for `x == 6` that gives 4 where `srem` gives 0.
   */
  lemma AndReplacesSRemBySixWrongly(id: InstrId)
    ensures var i := Binary(id, SRem, Ref(id + 1), ConstInt(6));
      Select(i) == ToAnd(Ref(id + 1), 6) && !AtMostOneBit(6) &&
      Signed(6 & (6 - 1)) != TruncRem(Signed(6), Signed(6))
  {
    SRemBySixDiffers();
  }

  /**
   * `mul x, 6` is selected for a shift too, but the exit test of the mask
   * loop that counts the shift fails on every mask the loop reaches: the
   * masks reachable from 1 by shifting all fail it.  Such an instruction is
   * outside `Terminates`.
   */
  lemma MulBySixDoesNotTerminate(id: InstrId)
    ensures var i := Binary(id, Mul, Ref(id + 1), ConstInt(6));
      Select(i) == ToShl(Ref(id + 1), 6) && !ShlTerminates(i)
    ensures ReachableMask(1)
    ensures forall mask :: ReachableMask(mask) ==>
      ReachableMask(mask << 1) && 6 & mask != 6
  {
    IsPowerOfTwoAdmitsSix();
    ReachableMaskStep(1);
    forall mask | ReachableMask(mask)
      ensures ReachableMask(mask << 1) && 6 & mask != 6
    {
      ReachableMaskStep(mask);
      MaskTestNeverPasses(6, mask);
    }
  }
}
