/**
 * The two comparisons the function-merging pass makes between a pair of
 * functions: the cheap signature filter `equalArguments` and the
 * position-aligned structural comparator `checkSyntax` with its helpers
 * `zip` and `checkNumberOfConstants`.
 */
module MergeCompare {
  import opened MergeIr

  function Min(a: nat, b: nat): nat {
    if a <= b then a else b
  }

  // ---------------------------------------------------------------------
  // zip

  /** Pairs the i-th element of `c1` with the i-th of `c2`, stopping at the shorter one. */
  function ZipSeq<A, B>(c1: seq<A>, c2: seq<B>): seq<(A, B)> {
    if |c1| == 0 || |c2| == 0 then []
    else [(c1[0], c2[0])] + ZipSeq(c1[1..], c2[1..])
  }

  lemma {:induction false} ZipSeqAt<A, B>(c1: seq<A>, c2: seq<B>)
    ensures |ZipSeq(c1, c2)| == Min(|c1|, |c2|)
    ensures forall i :: 0 <= i < |ZipSeq(c1, c2)| ==> ZipSeq(c1, c2)[i] == (c1[i], c2[i])
  {
    if |c1| != 0 && |c2| != 0 {
      ZipSeqAt(c1[1..], c2[1..]);
    }
  }

  /** The tail of the longer sequence plays no part in the zip. */
  lemma ZipSeqIgnoresTail<A, B>(c1: seq<A>, c2: seq<B>, extra: seq<B>)
    requires |c1| <= |c2|
    ensures ZipSeq(c1, c2 + extra) == ZipSeq(c1, c2)
  {
    ZipSeqAt(c1, c2 + extra);
    ZipSeqAt(c1, c2);
  }

  /** The same when the first sequence is the longer one. */
  lemma ZipSeqIgnoresFirstTail<A, B>(c1: seq<A>, c2: seq<B>, extra: seq<A>)
    requires |c2| <= |c1|
    ensures ZipSeq(c1 + extra, c2) == ZipSeq(c1, c2)
  {
    ZipSeqAt(c1 + extra, c2);
    ZipSeqAt(c1, c2);
  }

  /** The source's `zip`: a loop pushing the aligned pairs into a vector. */
  method Zip<A, B>(c1: seq<A>, c2: seq<B>) returns (zipped: seq<(A, B)>)
    ensures |zipped| == Min(|c1|, |c2|)
    ensures forall i :: 0 <= i < |zipped| ==> zipped[i] == (c1[i], c2[i])
    ensures zipped == ZipSeq(c1, c2)
  {
    zipped := [];
    var k := 0;
    while k < |c1| && k < |c2|
      invariant k <= |c1| && k <= |c2|
      invariant |zipped| == k
      invariant forall i :: 0 <= i < k ==> zipped[i] == (c1[i], c2[i])
    {
      zipped := zipped + [(c1[k], c2[k])];
      k := k + 1;
    }
    ZipSeqAt(c1, c2);
  }

  // ---------------------------------------------------------------------
  // checkNumberOfConstants

  /** How many of the two operands are constants. */
  function ConstantCount(lhs: Value, rhs: Value): (n: nat)
    ensures n <= 2
    ensures n == 0 <==> !IsConstant(lhs) && !IsConstant(rhs)
    ensures n == 2 <==> IsConstant(lhs) && IsConstant(rhs)
  {
    (if IsConstant(lhs) then 1 else 0) + (if IsConstant(rhs) then 1 else 0)
  }

  predicate CheckNumberOfConstants(lhs1: Value, rhs1: Value, lhs2: Value, rhs2: Value) {
    ConstantCount(lhs1, rhs1) == ConstantCount(lhs2, rhs2)
  }

  // ---------------------------------------------------------------------
  // checkSyntax

  /**
   * What comparing one aligned instruction pair decides: the whole
   * comparison fails (`Reject`), succeeds at once (`Accept`), or the scan
   * goes on to the next pair (`Continue`).
   */
  datatype Verdict = Reject | Accept | Continue

  /**
   * The operand matching rule applied to two binary operators with the
   * same opcode and the same number of constant operands. Constants are
   * compared by identity, other operands only by type.
   */
  predicate OperandsMatch(commutative: bool, lhs1: Value, rhs1: Value, lhs2: Value, rhs2: Value) {
    var c := IsConstant;
    if commutative then
      if c(lhs1) && c(lhs2) && c(rhs1) && c(rhs2) then
        (lhs1 == lhs2 && rhs1 == rhs2) || (lhs1 == rhs2 && rhs1 == lhs2)
      else if c(lhs1) && c(lhs2) then
        lhs1 == lhs2 && TypeOf(rhs1) == TypeOf(rhs2)
      else if c(rhs1) && c(rhs2) then
        rhs1 == rhs2 && TypeOf(lhs1) == TypeOf(lhs2)
      else if c(lhs1) && c(rhs2) then
        lhs1 == rhs2 && TypeOf(rhs1) == TypeOf(lhs2)
      else if c(rhs1) && c(lhs2) then
        rhs1 == lhs2 && TypeOf(lhs1) == TypeOf(rhs2)
      else
        (TypeOf(lhs1) == TypeOf(lhs2) && TypeOf(rhs1) == TypeOf(rhs2))
        || (TypeOf(lhs1) == TypeOf(rhs2) && TypeOf(rhs1) == TypeOf(lhs2))
    else
      if c(lhs1) && c(lhs2) && c(rhs1) && c(rhs2) then
        lhs1 == lhs2 && rhs1 == rhs2
      else if c(lhs1) && c(lhs2) then
        lhs1 == lhs2 && TypeOf(rhs1) == TypeOf(rhs2)
      else if c(rhs1) && c(rhs2) then
        rhs1 == rhs2 && TypeOf(lhs1) == TypeOf(lhs2)
      else
        TypeOf(lhs1) == TypeOf(lhs2) && TypeOf(rhs1) == TypeOf(rhs2)
  }

  /** The body of the inner loop of `checkSyntax` for one aligned pair (I1 from F1, I2 from F2). */
  function ComparePair(i1: Instr, i2: Instr): Verdict {
    match i1
    case BinOp(op1, lhs1, rhs1) =>
      if !i2.BinOp? || op1 != i2.op then Reject
      else if !CheckNumberOfConstants(lhs1, rhs1, i2.lhs, i2.rhs) then Reject
      else if !OperandsMatch(IsCommutative(op1), lhs1, rhs1, i2.lhs, i2.rhs) then Reject
      else Continue
    case Ret(v1) =>
      if !i2.Ret? then Continue
      else if IsConstant(v1) && IsConstant(i2.v) then (if v1 == i2.v then Accept else Reject)
      else if IsConstant(v1) || IsConstant(i2.v) then Reject
      else if TypeOf(v1) == TypeOf(i2.v) then Accept
      else Continue
    case _ => Continue
  }

  /** The inner loop: the first verdict that is not `Continue`, if any. */
  function CompareInstrs(ps: seq<(Instr, Instr)>): Verdict {
    if |ps| == 0 then Continue
    else
      var v := ComparePair(ps[0].0, ps[0].1);
      if v != Continue then v else CompareInstrs(ps[1..])
  }

  /** The outer loop over aligned block pairs; an early return in the inner loop ends it. */
  function CompareBlocks(bps: seq<(Block, Block)>): bool {
    if |bps| == 0 then true
    else
      match CompareInstrs(ZipSeq(bps[0].0, bps[0].1))
      case Reject => false
      case Accept => true
      case Continue => CompareBlocks(bps[1..])
  }

  predicate CheckSyntax(f1: Function, f2: Function) {
    CompareBlocks(ZipSeq(f1.blocks, f2.blocks))
  }

  // --- an independent description of checkSyntax

  /** All aligned instruction pairs, block pair after block pair. */
  function InstrPairs(bps: seq<(Block, Block)>): seq<(Instr, Instr)> {
    if |bps| == 0 then [] else ZipSeq(bps[0].0, bps[0].1) + InstrPairs(bps[1..])
  }

  function AlignedPairs(f1: Function, f2: Function): seq<(Instr, Instr)> {
    InstrPairs(ZipSeq(f1.blocks, f2.blocks))
  }

  /** Every rejecting pair comes after some accepting pair. */
  predicate NoRejectBeforeAccept(ps: seq<(Instr, Instr)>) {
    forall j :: 0 <= j < |ps| && ComparePair(ps[j].0, ps[j].1) == Reject ==>
      exists k :: 0 <= k < j && ComparePair(ps[k].0, ps[k].1) == Accept
  }

  lemma {:induction false} CompareInstrsAppend(a: seq<(Instr, Instr)>, b: seq<(Instr, Instr)>)
    ensures CompareInstrs(a + b) == if CompareInstrs(a) != Continue then CompareInstrs(a) else CompareInstrs(b)
  {
    if |a| != 0 {
      assert (a + b)[0] == a[0];
      assert (a + b)[1..] == a[1..] + b;
      CompareInstrsAppend(a[1..], b);
    } else {
      assert a + b == b;
    }
  }

  lemma {:induction false} CompareBlocksFlattened(bps: seq<(Block, Block)>)
    ensures CompareBlocks(bps) == (CompareInstrs(InstrPairs(bps)) != Reject)
  {
    if |bps| != 0 {
      CompareInstrsAppend(ZipSeq(bps[0].0, bps[0].1), InstrPairs(bps[1..]));
      CompareBlocksFlattened(bps[1..]);
    }
  }

  lemma {:induction false} CompareInstrsFirstDecisive(ps: seq<(Instr, Instr)>)
    ensures CompareInstrs(ps) != Reject <==> NoRejectBeforeAccept(ps)
  {
    if |ps| != 0 {
      var v := ComparePair(ps[0].0, ps[0].1);
      if v == Reject {
        assert !NoRejectBeforeAccept(ps);
      } else if v == Accept {
        forall j | 0 <= j < |ps| && ComparePair(ps[j].0, ps[j].1) == Reject
          ensures exists k :: 0 <= k < j && ComparePair(ps[k].0, ps[k].1) == Accept
        {
          assert j != 0;
        }
      } else {
        CompareInstrsFirstDecisive(ps[1..]);
        var t := ps[1..];
        if NoRejectBeforeAccept(t) {
          forall j | 0 <= j < |ps| && ComparePair(ps[j].0, ps[j].1) == Reject
            ensures exists k :: 0 <= k < j && ComparePair(ps[k].0, ps[k].1) == Accept
          {
            assert ps[j] == t[j - 1];
            var k :| 0 <= k < j - 1 && ComparePair(t[k].0, t[k].1) == Accept;
            assert ps[k + 1] == t[k];
          }
        }
        if NoRejectBeforeAccept(ps) {
          forall j | 0 <= j < |t| && ComparePair(t[j].0, t[j].1) == Reject
            ensures exists k :: 0 <= k < j && ComparePair(t[k].0, t[k].1) == Accept
          {
            assert t[j] == ps[j + 1];
            var k :| 0 <= k < j + 1 && ComparePair(ps[k].0, ps[k].1) == Accept;
            assert k != 0;
            assert t[k - 1] == ps[k];
          }
        }
      }
    }
  }

  /**
   * checkSyntax succeeds exactly when, in the sequence of aligned
   * instruction pairs, no pair rejects before some pair has accepted.
   */
  lemma CheckSyntaxNoRejectBeforeAccept(f1: Function, f2: Function)
    ensures CheckSyntax(f1, f2) <==> NoRejectBeforeAccept(AlignedPairs(f1, f2))
  {
    CompareBlocksFlattened(ZipSeq(f1.blocks, f2.blocks));
    CompareInstrsFirstDecisive(AlignedPairs(f1, f2));
  }

  // --- properties of one aligned pair

  /** Rejections when I1 is a binary operator; such a pair never accepts. */
  lemma BinaryPairRejections(i1: Instr, i2: Instr)
    requires i1.BinOp?
    ensures !i2.BinOp? ==> ComparePair(i1, i2) == Reject
    ensures i2.BinOp? && i1.op != i2.op ==> ComparePair(i1, i2) == Reject
    ensures i2.BinOp? && ConstantCount(i1.lhs, i1.rhs) != ConstantCount(i2.lhs, i2.rhs) ==> ComparePair(i1, i2) == Reject
    ensures ComparePair(i1, i2) != Accept
  {
  }

  /** The comparison is asymmetric: a non-binary I1 against a binary I2 is not rejected. */
  lemma NonBinaryAgainstBinaryContinues(i1: Instr, i2: Instr)
    requires !i1.BinOp? && i2.BinOp?
    ensures ComparePair(i1, i2) == Continue
    ensures ComparePair(i2, i1) == Reject
  {
  }

  /** All four operands constant: identical constants, in position or (commutative only) swapped. */
  lemma AllConstantOperands(op: BinaryOpcode, l1: Value, r1: Value, l2: Value, r2: Value)
    requires IsConstant(l1) && IsConstant(r1) && IsConstant(l2) && IsConstant(r2)
    ensures ComparePair(BinOp(op, l1, r1), BinOp(op, l2, r2)) != Reject <==>
      (l1 == l2 && r1 == r2) || (IsCommutative(op) && l1 == r2 && r1 == l2)
  {
  }

  /** No constant operands: operand types equal in position or (commutative only) swapped. */
  lemma NoConstantOperands(op: BinaryOpcode, l1: Value, r1: Value, l2: Value, r2: Value)
    requires !IsConstant(l1) && !IsConstant(r1) && !IsConstant(l2) && !IsConstant(r2)
    ensures ComparePair(BinOp(op, l1, r1), BinOp(op, l2, r2)) != Reject <==>
      (TypeOf(l1) == TypeOf(l2) && TypeOf(r1) == TypeOf(r2))
      || (IsCommutative(op) && TypeOf(l1) == TypeOf(r2) && TypeOf(r1) == TypeOf(l2))
  {
  }

  /**
   * A non-commutative pair whose constants sit in crossed positions
   * (`c - x` against `y - c'`) is judged only by operand types: the two
   * constants are never compared.
   */
  lemma NonCommutativeCrossedConstants(op: BinaryOpcode, c1: Value, x: Value, y: Value, c2: Value)
    requires !IsCommutative(op)
    requires IsConstant(c1) && !IsConstant(x) && !IsConstant(y) && IsConstant(c2)
    ensures ComparePair(BinOp(op, c1, x), BinOp(op, y, c2)) != Reject <==>
      TypeOf(c1) == TypeOf(y) && TypeOf(x) == TypeOf(c2)
  {
  }

  /** For two binary operators the pair comparison does not depend on which side is I1. */
  lemma BinaryPairSymmetric(op1: BinaryOpcode, l1: Value, r1: Value, op2: BinaryOpcode, l2: Value, r2: Value)
    ensures ComparePair(BinOp(op1, l1, r1), BinOp(op2, l2, r2)) == ComparePair(BinOp(op2, l2, r2), BinOp(op1, l1, r1))
  {
  }

  /** For a commutative opcode, swapping the operands of I2 never changes the verdict. */
  lemma CommutativeSwapInvariant(op: BinaryOpcode, l1: Value, r1: Value, l2: Value, r2: Value)
    requires IsCommutative(op)
    ensures ComparePair(BinOp(op, l1, r1), BinOp(op, l2, r2)) == ComparePair(BinOp(op, l1, r1), BinOp(op, r2, l2))
  {
  }

  /**
   * `a - b` against `b - a`: with `a` and `b` of one type the pair is not
   * rejected, since non-constant operands are compared only by type.
   */
  lemma SwappedSubtractionNotRejected(a: Value, b: Value)
    requires a.NonConst? && b.NonConst? && TypeOf(a) == TypeOf(b)
    ensures ComparePair(BinOp(Sub, a, b), BinOp(Sub, b, a)) == Continue
  {
  }

  /** How a pair of return instructions ends or continues the scan. */
  lemma ReturnPairs(v1: Value, v2: Value)
    ensures IsConstant(v1) && IsConstant(v2) ==>
      ComparePair(Ret(v1), Ret(v2)) == (if v1 == v2 then Accept else Reject)
    ensures IsConstant(v1) != IsConstant(v2) ==> ComparePair(Ret(v1), Ret(v2)) == Reject
    ensures !IsConstant(v1) && !IsConstant(v2) ==>
      ComparePair(Ret(v1), Ret(v2)) == (if TypeOf(v1) == TypeOf(v2) then Accept else Continue)
  {
  }

  /** No instruction is rejected against itself. */
  lemma ComparePairReflexive(i: Instr)
    ensures ComparePair(i, i) != Reject
  {
  }

  lemma {:induction false} CompareInstrsReflexive(b: Block)
    ensures CompareInstrs(ZipSeq(b, b)) != Reject
  {
    if |b| != 0 {
      ComparePairReflexive(b[0]);
      CompareInstrsReflexive(b[1..]);
    }
  }

  lemma {:induction false} CompareBlocksReflexive(bs: seq<Block>)
    ensures CompareBlocks(ZipSeq(bs, bs))
  {
    if |bs| != 0 {
      CompareInstrsReflexive(bs[0]);
      CompareBlocksReflexive(bs[1..]);
    }
  }

  /** Every function is judged interchangeable with itself. */
  lemma CheckSyntaxReflexive(f: Function)
    ensures CheckSyntax(f, f)
  {
    CompareBlocksReflexive(f.blocks);
  }

  /**
   * Two return instructions of constants at the very start decide the
   * whole comparison, whatever follows.
   */
  lemma ConstantReturnDecidesAtOnce(f1: Function, f2: Function)
    requires |f1.blocks| > 0 && |f2.blocks| > 0
    requires |f1.blocks[0]| > 0 && |f2.blocks[0]| > 0
    requires f1.blocks[0][0].Ret? && f2.blocks[0][0].Ret?
    requires IsConstant(f1.blocks[0][0].v) && IsConstant(f2.blocks[0][0].v)
    ensures CheckSyntax(f1, f2) <==> f1.blocks[0][0].v == f2.blocks[0][0].v
  {
  }

  /** Blocks beyond the shorter function's block count are never looked at. */
  lemma CheckSyntaxIgnoresExtraBlocks(f1: Function, f2: Function, extra: seq<Block>)
    requires |f1.blocks| <= |f2.blocks|
    ensures CheckSyntax(f1, f2.(blocks := f2.blocks + extra)) == CheckSyntax(f1, f2)
  {
    ZipSeqIgnoresTail(f1.blocks, f2.blocks, extra);
  }

  /** The same when the first function is the one with more blocks. */
  lemma CheckSyntaxIgnoresFirstExtraBlocks(f1: Function, f2: Function, extra: seq<Block>)
    requires |f2.blocks| <= |f1.blocks|
    ensures CheckSyntax(f1.(blocks := f1.blocks + extra), f2) == CheckSyntax(f1, f2)
  {
    ZipSeqIgnoresFirstTail(f1.blocks, f2.blocks, extra);
  }

  lemma {:induction false} CompareBlocksPointwise(bps: seq<(Block, Block)>, bps': seq<(Block, Block)>)
    requires |bps| == |bps'|
    requires forall j :: 0 <= j < |bps| ==> ZipSeq(bps[j].0, bps[j].1) == ZipSeq(bps'[j].0, bps'[j].1)
    ensures CompareBlocks(bps) == CompareBlocks(bps')
  {
    if |bps| != 0 {
      assert ZipSeq(bps[0].0, bps[0].1) == ZipSeq(bps'[0].0, bps'[0].1);
      CompareBlocksPointwise(bps[1..], bps'[1..]);
    }
  }

  /**
   * Within an aligned block pair, instructions beyond the shorter block's
   * length are never looked at.
   */
  lemma CheckSyntaxIgnoresExtraInstructions(f1: Function, f2: Function, k: nat, extra: Block)
    requires k < |f1.blocks| && k < |f2.blocks| && |f1.blocks[k]| <= |f2.blocks[k]|
    ensures CheckSyntax(f1, f2.(blocks := f2.blocks[k := f2.blocks[k] + extra])) == CheckSyntax(f1, f2)
  {
    var bs2' := f2.blocks[k := f2.blocks[k] + extra];
    var z := ZipSeq(f1.blocks, f2.blocks);
    var z' := ZipSeq(f1.blocks, bs2');
    ZipSeqAt(f1.blocks, f2.blocks);
    ZipSeqAt(f1.blocks, bs2');
    forall j | 0 <= j < |z| ensures ZipSeq(z[j].0, z[j].1) == ZipSeq(z'[j].0, z'[j].1) {
      if j == k {
        ZipSeqIgnoresTail(f1.blocks[k], f2.blocks[k], extra);
      }
    }
    CompareBlocksPointwise(z, z');
  }

  /** The same when the first function's block is the longer one. */
  lemma CheckSyntaxIgnoresFirstExtraInstructions(f1: Function, f2: Function, k: nat, extra: Block)
    requires k < |f1.blocks| && k < |f2.blocks| && |f2.blocks[k]| <= |f1.blocks[k]|
    ensures CheckSyntax(f1.(blocks := f1.blocks[k := f1.blocks[k] + extra]), f2) == CheckSyntax(f1, f2)
  {
    var bs1' := f1.blocks[k := f1.blocks[k] + extra];
    var z := ZipSeq(f1.blocks, f2.blocks);
    var z' := ZipSeq(bs1', f2.blocks);
    ZipSeqAt(f1.blocks, f2.blocks);
    ZipSeqAt(bs1', f2.blocks);
    forall j | 0 <= j < |z| ensures ZipSeq(z[j].0, z[j].1) == ZipSeq(z'[j].0, z'[j].1) {
      if j == k {
        ZipSeqIgnoresFirstTail(f1.blocks[k], f2.blocks[k], extra);
      }
    }
    CompareBlocksPointwise(z, z');
  }

  // ---------------------------------------------------------------------
  // equalArguments

  /** Sum of the block lengths: `Function::getInstructionCount`. */
  function InstructionCount(bs: seq<Block>): nat {
    if |bs| == 0 then 0 else |bs[0]| + InstructionCount(bs[1..])
  }

  /** The erase loop: for each type of `ts`, remove one occurrence from `pool` if there is one. */
  function EraseEach(pool: multiset<TypeId>, ts: seq<TypeId>): multiset<TypeId> {
    if |ts| == 0 then pool
    else EraseEach(if ts[0] in pool then pool - multiset{ts[0]} else pool, ts[1..])
  }

  predicate EqualArguments(f1: Function, f2: Function) {
    if |f1.params| != |f2.params| then false
    else if f1.retTy != f2.retTy then false
    else if EraseEach(multiset(f2.params), f1.params) != multiset{} then false
    else if |f1.blocks| != |f2.blocks| then false
    else if InstructionCount(f1.blocks) != InstructionCount(f2.blocks) then false
    else true
  }

  /** The erase loop leaves exactly the multiset difference. */
  lemma MultisetDifferenceTwice(a: multiset<TypeId>, b: multiset<TypeId>, c: multiset<TypeId>)
    ensures (a - b) - c == a - (b + c)
  {
    forall t ensures ((a - b) - c)[t] == (a - (b + c))[t] {
    }
  }

  lemma {:induction false} EraseEachIsDifference(pool: multiset<TypeId>, ts: seq<TypeId>)
    ensures EraseEach(pool, ts) == pool - multiset(ts)
  {
    if |ts| != 0 {
      var t0 := ts[0];
      var p' := if t0 in pool then pool - multiset{t0} else pool;
      if t0 !in pool {
        RemoveAbsent(pool, t0);
      }
      EraseEachIsDifference(p', ts[1..]);
      MultisetOfCons(ts);
      MultisetDifferenceTwice(pool, multiset{t0}, multiset(ts[1..]));
    }
  }

  lemma RemoveAbsent(pool: multiset<TypeId>, t: TypeId)
    requires t !in pool
    ensures pool - multiset{t} == pool
  {
  }

  lemma MultisetOfCons(ts: seq<TypeId>)
    requires |ts| != 0
    ensures multiset(ts) == multiset{ts[0]} + multiset(ts[1..])
  {
    assert ts == [ts[0]] + ts[1..];
  }

  lemma EqualSizeSubMultiset(a: multiset<TypeId>, b: multiset<TypeId>)
    requires |a| == |b| && b - a == multiset{}
    ensures a == b
  {
    assert b <= a by {
      forall t ensures b[t] <= a[t] {
        assert (b - a)[t] == 0;
      }
    }
    assert |a - b| == |a| - |b|;
    assert a - b == multiset{};
    forall t ensures a[t] == b[t] {
      assert (a - b)[t] == 0;
    }
  }

  /**
   * The signature filter passes exactly when the parameter counts, return
   * types, parameter-type multisets, block counts and instruction counts
   * all agree.
   */
  lemma EqualArgumentsIff(f1: Function, f2: Function)
    ensures EqualArguments(f1, f2) <==>
      |f1.params| == |f2.params| && f1.retTy == f2.retTy
      && multiset(f1.params) == multiset(f2.params)
      && |f1.blocks| == |f2.blocks|
      && InstructionCount(f1.blocks) == InstructionCount(f2.blocks)
  {
    EraseEachIsDifference(multiset(f2.params), f1.params);
    if |f1.params| == |f2.params| && multiset(f2.params) - multiset(f1.params) == multiset{} {
      EqualSizeSubMultiset(multiset(f1.params), multiset(f2.params));
    }
  }

  /** Permuting either function's parameters never changes the filter's answer. */
  lemma EqualArgumentsPermutationInvariant(f1: Function, f2: Function, p1: seq<TypeId>, p2: seq<TypeId>)
    requires multiset(p1) == multiset(f1.params) && multiset(p2) == multiset(f2.params)
    ensures EqualArguments(f1.(params := p1), f2.(params := p2)) == EqualArguments(f1, f2)
  {
    EqualArgumentsIff(f1, f2);
    EqualArgumentsIff(f1.(params := p1), f2.(params := p2));
    assert |p1| == |multiset(p1)| == |f1.params|;
    assert |p2| == |multiset(p2)| == |f2.params|;
  }

  /** The filter is symmetric in its two functions. */
  lemma EqualArgumentsSymmetric(f1: Function, f2: Function)
    ensures EqualArguments(f1, f2) == EqualArguments(f2, f1)
  {
    EqualArgumentsIff(f1, f2);
    EqualArgumentsIff(f2, f1);
  }
}
