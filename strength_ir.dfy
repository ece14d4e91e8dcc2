/**
 * A small abstract IR for the strength-reduction pass: a function is a
 * sequence of basic blocks, a block a sequence of instructions, and every
 * instruction has an identity (LLVM's `Instruction *`).  An operand is
 * either an `i32` integer constant (LLVM's `ConstantInt`) or a reference to
 * some other value (an instruction result or an argument).
 */
module StrengthIr {

  type InstrId = nat

  datatype Operand =
    | ConstInt(bits: bv32)
    | Ref(id: InstrId)

  /** The binary opcodes the pass tells apart; every other one is `OtherBinary`. */
  datatype BinaryOpcode = Mul | SRem | Shl | And | OtherBinary(name: string)

  datatype Instr =
    | Binary(id: InstrId, op: BinaryOpcode, lhs: Operand, rhs: Operand)
    | NonBinary(id: InstrId, kind: string, operands: seq<Operand>)

  type Block = seq<Instr>
  type Function = seq<Block>

  /** The instructions the pass may rewrite: `mul` and `srem`. */
  predicate IsMulOrSRem(i: Instr) {
    i.Binary? && (i.op == Mul || i.op == SRem)
  }

  /** How many `mul` and `srem` instructions a block segment holds. */
  function MulSRemCount(s: seq<Instr>): nat {
    if s == [] then 0 else (if IsMulOrSRem(s[0]) then 1 else 0) + MulSRemCount(s[1..])
  }

  /** Two segments with the same kinds of instruction, position by position, hold as many. */
  lemma {:induction false} MulSRemCountSame(s: seq<Instr>, t: seq<Instr>)
    requires |s| == |t|
    requires forall k :: 0 <= k < |s| ==> IsMulOrSRem(s[k]) == IsMulOrSRem(t[k])
    ensures MulSRemCount(s) == MulSRemCount(t)
  {
    if s != [] {
      MulSRemCountSame(s[1..], t[1..]);
    }
  }

  // ---------------------------------------------------------------------
  // `replaceAllUsesWith`: every operand naming `from` names `to` instead

  function RenameOperand(o: Operand, from: InstrId, to: InstrId): Operand {
    if o == Ref(from) then Ref(to) else o
  }

  function RenameInstr(i: Instr, from: InstrId, to: InstrId): (r: Instr)
    ensures r.id == i.id && r.Binary? == i.Binary?
    ensures i.Binary? ==> r.op == i.op
  {
    match i
    case Binary(id, op, l, r) => Binary(id, op, RenameOperand(l, from, to), RenameOperand(r, from, to))
    case NonBinary(id, kind, ops) =>
      NonBinary(id, kind, seq(|ops|, k requires 0 <= k < |ops| => RenameOperand(ops[k], from, to)))
  }

  function Rename(f: Function, from: InstrId, to: InstrId): (g: Function)
    ensures |g| == |f|
    ensures forall b :: 0 <= b < |f| ==> |g[b]| == |f[b]|
    ensures forall b, p :: 0 <= b < |f| && 0 <= p < |f[b]| ==> g[b][p] == RenameInstr(f[b][p], from, to)
  {
    seq(|f|, b requires 0 <= b < |f| =>
      seq(|f[b]|, p requires 0 <= p < |f[b]| => RenameInstr(f[b][p], from, to)))
  }

  // ---------------------------------------------------------------------
  // `insertAfter` and `eraseFromParent`

  /** `n` placed right after the instruction at position `p` of block `b`. */
  function InsertAfter(f: Function, b: nat, p: nat, n: Instr): (g: Function)
    requires b < |f| && p < |f[b]|
    ensures |g| == |f| && |g[b]| == |f[b]| + 1
    ensures forall c :: 0 <= c < |f| && c != b ==> g[c] == f[c]
    ensures g[b][..p + 1] == f[b][..p + 1] && g[b][p + 1] == n && g[b][p + 2..] == f[b][p + 1..]
  {
    f[b := f[b][..p + 1] + [n] + f[b][p + 1..]]
  }

  /** A block without the instructions whose identity is `id`. */
  function EraseFromBlock(s: Block, id: InstrId): (r: Block)
    ensures |r| <= |s|
    ensures forall i :: i in r <==> i in s && i.id != id
  {
    if s == [] then []
    else if s[0].id == id then EraseFromBlock(s[1..], id)
    else [s[0]] + EraseFromBlock(s[1..], id)
  }

  /** `eraseFromParent` on the instruction `id`, wherever it sits; nothing happens when it is absent. */
  function Erase(f: Function, id: InstrId): (g: Function)
    ensures |g| == |f|
    ensures forall b :: 0 <= b < |f| ==> g[b] == EraseFromBlock(f[b], id)
  {
    seq(|f|, b requires 0 <= b < |f| => EraseFromBlock(f[b], id))
  }

  /** Erasing every identity of `ids`, in order. */
  function EraseAll(f: Function, ids: seq<InstrId>): (g: Function)
    ensures |g| == |f|
    decreases |ids|
  {
    if ids == [] then f else EraseAll(Erase(f, ids[0]), ids[1..])
  }

  // ---------------------------------------------------------------------
  // Identities and uses

  predicate HasInstr(f: Function, id: InstrId) {
    exists b, p :: 0 <= b < |f| && 0 <= p < |f[b]| && f[b][p].id == id
  }

  predicate OperandUses(o: Operand, id: InstrId) {
    o == Ref(id)
  }

  predicate InstrUses(i: Instr, id: InstrId) {
    match i
    case Binary(_, _, l, r) => OperandUses(l, id) || OperandUses(r, id)
    case NonBinary(_, _, ops) => exists k :: 0 <= k < |ops| && OperandUses(ops[k], id)
  }

  /** Some instruction of `f` has `id` among its operands. */
  predicate Uses(f: Function, id: InstrId) {
    exists b, p :: 0 <= b < |f| && 0 <= p < |f[b]| && InstrUses(f[b][p], id)
  }

  /** The identities of a block segment, in order. */
  function Ids(s: seq<Instr>): (r: seq<InstrId>)
    ensures |r| == |s| && forall k :: 0 <= k < |s| ==> r[k] == s[k].id
  {
    seq(|s|, k requires 0 <= k < |s| => s[k].id)
  }

  /** Total number of instructions. */
  function Size(f: Function): nat {
    if f == [] then 0 else |f[0]| + Size(f[1..])
  }

  /** Every identity in `f` is below `bound`: the identities from `bound` on are still free. */
  predicate IdsBelow(f: Function, bound: InstrId) {
    forall b, p :: 0 <= b < |f| && 0 <= p < |f[b]| ==> f[b][p].id < bound
  }

  // ---------------------------------------------------------------------
  // How the edits change identities and uses

  lemma RenameInstrUses(i: Instr, from: InstrId, to: InstrId, d: InstrId)
    requires d != to
    ensures InstrUses(RenameInstr(i, from, to), d) <==> d != from && InstrUses(i, d)
  {
    if i.NonBinary? {
      var r := RenameInstr(i, from, to);
      if InstrUses(r, d) {
        var k :| 0 <= k < |r.operands| && OperandUses(r.operands[k], d);
        assert OperandUses(i.operands[k], d);
      }
      if d != from && InstrUses(i, d) {
        var k :| 0 <= k < |i.operands| && OperandUses(i.operands[k], d);
        assert OperandUses(r.operands[k], d);
      }
    }
  }

  /** After `replaceAllUsesWith(from, to)`, nothing uses `from`, and every other use is as before. */
  lemma UsesRenamed(f: Function, from: InstrId, to: InstrId, d: InstrId)
    requires d != to
    ensures Uses(Rename(f, from, to), d) <==> d != from && Uses(f, d)
  {
    var g := Rename(f, from, to);
    if Uses(g, d) {
      var b, p :| 0 <= b < |g| && 0 <= p < |g[b]| && InstrUses(g[b][p], d);
      RenameInstrUses(f[b][p], from, to, d);
    }
    if d != from && Uses(f, d) {
      var b, p :| 0 <= b < |f| && 0 <= p < |f[b]| && InstrUses(f[b][p], d);
      RenameInstrUses(f[b][p], from, to, d);
      assert InstrUses(g[b][p], d);
    }
  }

  /** Inserting `n` adds its uses and no other. */
  lemma UsesInsertAfter(f: Function, b: nat, p: nat, n: Instr, d: InstrId)
    requires b < |f| && p < |f[b]|
    ensures Uses(InsertAfter(f, b, p, n), d) <==> Uses(f, d) || InstrUses(n, d)
  {
    var h := InsertAfter(f, b, p, n);
    if Uses(h, d) {
      var c, q :| 0 <= c < |h| && 0 <= q < |h[c]| && InstrUses(h[c][q], d);
      if c == b && q < p + 1 {
        assert h[c][q] == h[b][..p + 1][q] == f[b][q];
      } else if c == b && q > p + 1 {
        assert h[c][q] == h[b][p + 2..][q - p - 2] == f[b][q - 1];
      }
    }
    if Uses(f, d) {
      var c, q :| 0 <= c < |f| && 0 <= q < |f[c]| && InstrUses(f[c][q], d);
      if c == b && q < p + 1 {
        assert f[b][q] == f[b][..p + 1][q] == h[b][q];
      } else if c == b {
        assert f[b][q] == f[b][p + 1..][q - p - 1] == h[b][q + 1];
      } else {
        assert InstrUses(h[c][q], d);
      }
    }
    if InstrUses(n, d) {
      assert InstrUses(h[b][p + 1], d);
    }
  }

  /** The instructions left in a block once the listed identities are erased. */
  lemma {:induction false} EraseAllMembers(f: Function, ids: seq<InstrId>, b: nat, i: Instr)
    requires b < |f|
    ensures i in EraseAll(f, ids)[b] <==> i in f[b] && i.id !in ids
    decreases |ids|
  {
    if ids != [] {
      EraseAllMembers(Erase(f, ids[0]), ids[1..], b, i);
      assert ids == [ids[0]] + ids[1..];
    }
  }

  /** No instruction with a listed identity survives the erase, and every other one does. */
  lemma EraseAllHasInstr(f: Function, ids: seq<InstrId>, d: InstrId)
    ensures HasInstr(EraseAll(f, ids), d) <==> HasInstr(f, d) && d !in ids
  {
    var g := EraseAll(f, ids);
    if HasInstr(g, d) {
      var b, p :| 0 <= b < |g| && 0 <= p < |g[b]| && g[b][p].id == d;
      EraseAllMembers(f, ids, b, g[b][p]);
      var q :| 0 <= q < |f[b]| && f[b][q] == g[b][p];
    }
    if HasInstr(f, d) && d !in ids {
      var b, p :| 0 <= b < |f| && 0 <= p < |f[b]| && f[b][p].id == d;
      EraseAllMembers(f, ids, b, f[b][p]);
      var q :| 0 <= q < |g[b]| && g[b][q] == f[b][p];
    }
  }

  /** Erasing creates no use. */
  lemma EraseAllUses(f: Function, ids: seq<InstrId>, d: InstrId)
    requires Uses(EraseAll(f, ids), d)
    ensures Uses(f, d)
  {
    var g := EraseAll(f, ids);
    var b, p :| 0 <= b < |g| && 0 <= p < |g[b]| && InstrUses(g[b][p], d);
    EraseAllMembers(f, ids, b, g[b][p]);
    var q :| 0 <= q < |f[b]| && f[b][q] == g[b][p];
  }
}
