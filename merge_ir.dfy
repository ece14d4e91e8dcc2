/**
 * A small abstract IR standing in for the parts of LLVM's Function,
 * BasicBlock, Instruction and Value that the function-merging pass reads.
 * Types and constants are opaque identities compared by equality; LLVM
 * uniques constants, so two equal `Const` values are the same literal of
 * the same type.
 */
module MergeIr {

  type TypeId = nat
  type FuncId = nat

  /** The type of a function's address (LLVM's opaque `ptr`). */
  const PtrTy: TypeId := 0

  /** An operand. A function's address is a constant in LLVM, so `FuncRef` is one too. */
  datatype Value =
    | Const(lit: nat, ty: TypeId)
    | NonConst(name: nat, ty: TypeId)
    | FuncRef(fn: FuncId)

  function TypeOf(v: Value): TypeId {
    match v
    case Const(_, t) => t
    case NonConst(_, t) => t
    case FuncRef(_) => PtrTy
  }

  predicate IsConstant(v: Value) {
    v.Const? || v.FuncRef?
  }

  /** The binary opcodes of LLVM IR. */
  datatype BinaryOpcode =
    | Add | FAdd | Sub | FSub | Mul | FMul
    | UDiv | SDiv | FDiv | URem | SRem | FRem
    | Shl | LShr | AShr | And | Or | Xor

  /** Commutativity is a static property of the opcode, as in `Instruction::isCommutative`. */
  predicate IsCommutative(op: BinaryOpcode) {
    match op
    case Add | FAdd | Mul | FMul | And | Or | Xor => true
    case _ => false
  }

  /**
   * The instruction categories the pass distinguishes. `Call` is a call
   * instruction whose called operand is `callee` (a direct call has a
   * `FuncRef` there); `Other` is every remaining instruction with its operands.
   * Every `Ret` carries a value.
   */
  datatype Instr =
    | BinOp(op: BinaryOpcode, lhs: Value, rhs: Value)
    | Ret(v: Value)
    | Call(callee: Value, args: seq<Value>)
    | Other(operands: seq<Value>)

  type Block = seq<Instr>

  /** A function: a declaration is one without blocks, as `Function::isDeclaration` says. */
  datatype Function = Function(id: FuncId, name: string, params: seq<TypeId>, retTy: TypeId, blocks: seq<Block>)

  predicate IsDeclaration(f: Function) {
    |f.blocks| == 0
  }

  /** A module: its functions in module order. */
  datatype Module = Module(functions: seq<Function>)

  /** Distinct functions of a module have distinct identities. */
  predicate WellFormed(m: Module) {
    forall i, j :: 0 <= i < j < |m.functions| ==> m.functions[i].id != m.functions[j].id
  }

  function Operands(ins: Instr): seq<Value> {
    match ins
    case BinOp(_, l, r) => [l, r]
    case Ret(v) => [v]
    case Call(c, args) => [c] + args
    case Other(ops) => ops
  }

  /** `ins` is a user of function `g`. */
  predicate Mentions(ins: Instr, g: FuncId) {
    FuncRef(g) in Operands(ins)
  }

  /** `g.use_empty()`: no instruction anywhere in the module uses `g`. */
  predicate UseEmpty(m: Module, g: FuncId) {
    forall fi, bi, ii ::
      0 <= fi < |m.functions| && 0 <= bi < |m.functions[fi].blocks| && 0 <= ii < |m.functions[fi].blocks[bi]| ==>
        !Mentions(m.functions[fi].blocks[bi][ii], g)
  }

  /** No call instruction in the module has `g` as its called operand. */
  predicate NoCallTo(m: Module, g: FuncId) {
    forall fi, bi, ii ::
      0 <= fi < |m.functions| && 0 <= bi < |m.functions[fi].blocks| && 0 <= ii < |m.functions[fi].blocks[bi]| ==>
        !(m.functions[fi].blocks[bi][ii].Call? && m.functions[fi].blocks[bi][ii].callee == FuncRef(g))
  }

  predicate HasFunction(m: Module, g: FuncId) {
    exists k :: 0 <= k < |m.functions| && m.functions[k].id == g
  }
}
