/**
 * The function-merging pass itself: the call-site rewriter
 * `replaceFunctionCalls` and the per-function driver `runOnFunction`, which
 * scans the module in order, queues dead or duplicate functions in
 * `FunctionsToDelete`, records them in `AlreadyReplaced`, and erases the
 * queued functions after the scan.
 */
module MergePass {
  import opened MergeIr
  import opened MergeCompare

  // ---------------------------------------------------------------------
  // Positions of instructions in a module

  /** An instruction position: function index, block index, instruction index. */
  datatype Loc = Loc(f: nat, b: nat, i: nat)

  predicate ValidLoc(m: Module, l: Loc) {
    l.f < |m.functions| && l.b < |m.functions[l.f].blocks| && l.i < |m.functions[l.f].blocks[l.b]|
  }

  function InstrAt(m: Module, l: Loc): Instr
    requires ValidLoc(m, l)
  {
    m.functions[l.f].blocks[l.b][l.i]
  }

  function SetInstr(m: Module, l: Loc, ins: Instr): Module
    requires ValidLoc(m, l)
  {
    var fn := m.functions[l.f];
    Module(m.functions[l.f := fn.(blocks := fn.blocks[l.b := fn.blocks[l.b][l.i := ins]])])
  }

  /** The use list of `g` (`g.uses()`): the positions of the instructions that use it. */
  function Uses(m: Module, g: FuncId): set<Loc> {
    set fi: nat, bi: nat, ii: nat |
      fi < |m.functions| && bi < |m.functions[fi].blocks| && ii < |m.functions[fi].blocks[bi]|
      && Mentions(m.functions[fi].blocks[bi][ii], g)
      :: Loc(fi, bi, ii)
  }

  /** Everything about a function except its instructions. */
  predicate SameHeader(a: Function, b: Function) {
    && a.id == b.id && a.name == b.name && a.params == b.params && a.retTy == b.retTy
    && |a.blocks| == |b.blocks|
    && forall bi :: 0 <= bi < |a.blocks| ==> |a.blocks[bi]| == |b.blocks[bi]|
  }

  predicate SameShape(a: Module, b: Module) {
    |a.functions| == |b.functions|
    && forall j :: 0 <= j < |a.functions| ==> SameHeader(a.functions[j], b.functions[j])
  }

  lemma ModuleEquality(a: Module, b: Module)
    requires SameShape(a, b)
    requires forall fi, bi, ii ::
      0 <= fi < |a.functions| && 0 <= bi < |a.functions[fi].blocks| && 0 <= ii < |a.functions[fi].blocks[bi]| ==>
        a.functions[fi].blocks[bi][ii] == b.functions[fi].blocks[bi][ii]
    ensures a == b
  {
    forall j | 0 <= j < |a.functions| ensures a.functions[j] == b.functions[j] {
      var fa, fb := a.functions[j], b.functions[j];
      assert SameHeader(fa, fb);
      forall bi | 0 <= bi < |fa.blocks| ensures fa.blocks[bi] == fb.blocks[bi] {
        assert forall ii :: 0 <= ii < |fa.blocks[bi]| ==> fa.blocks[bi][ii] == fb.blocks[bi][ii];
      }
      assert fa.blocks == fb.blocks;
    }
    assert a.functions == b.functions;
  }

  // ---------------------------------------------------------------------
  // replaceFunctionCalls

  /** `setCalledFunction`: a call keeps its arguments and gets a new called operand. */
  function SetCallee(ins: Instr, f1: FuncId): Instr {
    if ins.Call? then ins.(callee := FuncRef(f1)) else ins
  }

  /** What the rewriter does to one instruction: a call that uses `f2` now calls `f1`. */
  function RetargetInstr(ins: Instr, f1: FuncId, f2: FuncId): Instr {
    if ins.Call? && Mentions(ins, f2) then SetCallee(ins, f1) else ins
  }

  function RetargetBlocks(bs: seq<Block>, f1: FuncId, f2: FuncId): seq<Block> {
    seq(|bs|, bi requires 0 <= bi < |bs| =>
      seq(|bs[bi]|, ii requires 0 <= ii < |bs[bi]| => RetargetInstr(bs[bi][ii], f1, f2)))
  }

  /** The module after every call instruction among the users of `f2` has been redirected to `f1`. */
  function RedirectCalls(m: Module, f1: FuncId, f2: FuncId): Module {
    Module(seq(|m.functions|, j requires 0 <= j < |m.functions| =>
      m.functions[j].(blocks := RetargetBlocks(m.functions[j].blocks, f1, f2))))
  }

  lemma UsesAreUsers(m: Module, g: FuncId)
    ensures forall l :: l in Uses(m, g) <==> ValidLoc(m, l) && Mentions(InstrAt(m, l), g)
  {
    forall l | ValidLoc(m, l) && Mentions(InstrAt(m, l), g) ensures l in Uses(m, g) {
      assert l == Loc(l.f, l.b, l.i);
    }
  }

  /** The first loop: keep the uses of `f2` whose user is a call instruction. */
  method CollectCallUses(m: Module, f2: FuncId) returns (usesToReplace: seq<Loc>)
    ensures forall l :: l in usesToReplace <==> ValidLoc(m, l) && InstrAt(m, l).Call? && Mentions(InstrAt(m, l), f2)
  {
    var uses := Uses(m, f2);
    UsesAreUsers(m, f2);
    usesToReplace := [];
    var rest := uses;
    while rest != {}
      invariant rest <= uses
      invariant forall l :: l in usesToReplace <==> l in uses && l !in rest && InstrAt(m, l).Call?
      decreases |rest|
    {
      var u :| u in rest;
      if InstrAt(m, u).Call? {
        usesToReplace := usesToReplace + [u];
      }
      rest := rest - {u};
    }
  }

  lemma SetInstrEffect(m: Module, l: Loc, ins: Instr)
    requires ValidLoc(m, l)
    ensures SameShape(m, SetInstr(m, l, ins))
    ensures forall fi, bi, ii ::
      0 <= fi < |m.functions| && 0 <= bi < |m.functions[fi].blocks| && 0 <= ii < |m.functions[fi].blocks[bi]| ==>
        SetInstr(m, l, ins).functions[fi].blocks[bi][ii] ==
          if Loc(fi, bi, ii) == l then ins else m.functions[fi].blocks[bi][ii]
  {
  }

  /** The second loop: `setCalledFunction(f1)` on the user of every collected use. */
  method SetCalledFunctions(m: Module, usesToReplace: seq<Loc>, f1: FuncId) returns (m': Module)
    requires forall l :: l in usesToReplace ==> ValidLoc(m, l)
    ensures SameShape(m, m')
    ensures forall fi, bi, ii ::
      0 <= fi < |m.functions| && 0 <= bi < |m.functions[fi].blocks| && 0 <= ii < |m.functions[fi].blocks[bi]| ==>
        m'.functions[fi].blocks[bi][ii] ==
          if Loc(fi, bi, ii) in usesToReplace then SetCallee(m.functions[fi].blocks[bi][ii], f1)
          else m.functions[fi].blocks[bi][ii]
  {
    m' := m;
    var k := 0;
    while k < |usesToReplace|
      invariant k <= |usesToReplace|
      invariant SameShape(m, m')
      invariant forall fi, bi, ii ::
        0 <= fi < |m.functions| && 0 <= bi < |m.functions[fi].blocks| && 0 <= ii < |m.functions[fi].blocks[bi]| ==>
          m'.functions[fi].blocks[bi][ii] ==
            if Loc(fi, bi, ii) in usesToReplace[..k] then SetCallee(m.functions[fi].blocks[bi][ii], f1)
            else m.functions[fi].blocks[bi][ii]
    {
      var u := usesToReplace[k];
      assert usesToReplace[..k + 1] == usesToReplace[..k] + [u];
      assert ValidLoc(m, u) && SameHeader(m.functions[u.f], m'.functions[u.f]);
      if InstrAt(m', u).Call? {
        SetInstrEffect(m', u, SetCallee(InstrAt(m', u), f1));
        m' := SetInstr(m', u, SetCallee(InstrAt(m', u), f1));
      }
      k := k + 1;
    }
    assert usesToReplace[..k] == usesToReplace;
  }

  /**
   * `replaceFunctionCalls`: every call instruction that uses `f2`, as its
   * callee or only as an argument, now calls `f1` with the same arguments;
   * every other instruction is unchanged.
   */
  method ReplaceFunctionCalls(m: Module, f1: FuncId, f2: FuncId) returns (m': Module)
    ensures SameShape(m, m')
    ensures forall fi, bi, ii ::
      0 <= fi < |m.functions| && 0 <= bi < |m.functions[fi].blocks| && 0 <= ii < |m.functions[fi].blocks[bi]| ==>
        var ins := m.functions[fi].blocks[bi][ii];
        m'.functions[fi].blocks[bi][ii] ==
          if ins.Call? && Mentions(ins, f2) then Call(FuncRef(f1), ins.args) else ins
    ensures m' == RedirectCalls(m, f1, f2)
  {
    var usesToReplace := CollectCallUses(m, f2);
    m' := SetCalledFunctions(m, usesToReplace, f1);
    forall fi, bi, ii |
      0 <= fi < |m.functions| && 0 <= bi < |m.functions[fi].blocks| && 0 <= ii < |m.functions[fi].blocks[bi]|
      ensures m'.functions[fi].blocks[bi][ii] == RedirectCalls(m, f1, f2).functions[fi].blocks[bi][ii]
    {
      var l := Loc(fi, bi, ii);
      assert ValidLoc(m, l) && InstrAt(m, l) == m.functions[fi].blocks[bi][ii];
    }
    ModuleEquality(m', RedirectCalls(m, f1, f2));
  }

  /**
   * After redirecting, no call targets `f2`; uses of any other function
   * than `f1` are never created; and a use of `f2` by an instruction that
   * is not a call survives.
   */
  lemma RedirectCallsUses(m: Module, f1: FuncId, f2: FuncId)
    requires f1 != f2
    ensures NoCallTo(RedirectCalls(m, f1, f2), f2)
    ensures forall g :: g != f1 && UseEmpty(m, g) ==> UseEmpty(RedirectCalls(m, f1, f2), g)
    ensures forall g :: g != f1 && NoCallTo(m, g) ==> NoCallTo(RedirectCalls(m, f1, f2), g)
    ensures forall fi, bi, ii ::
      0 <= fi < |m.functions| && 0 <= bi < |m.functions[fi].blocks| && 0 <= ii < |m.functions[fi].blocks[bi]|
      && !m.functions[fi].blocks[bi][ii].Call? && Mentions(m.functions[fi].blocks[bi][ii], f2) ==>
        !UseEmpty(RedirectCalls(m, f1, f2), f2)
  {
    var r := RedirectCalls(m, f1, f2);
    forall g | g != f1 && UseEmpty(m, g) ensures UseEmpty(r, g) {
      forall fi, bi, ii |
        0 <= fi < |r.functions| && 0 <= bi < |r.functions[fi].blocks| && 0 <= ii < |r.functions[fi].blocks[bi]|
        ensures !Mentions(r.functions[fi].blocks[bi][ii], g)
      {
        var ins := m.functions[fi].blocks[bi][ii];
        assert !Mentions(ins, g);
        if ins.Call? && Mentions(ins, f2) {
          assert Operands(r.functions[fi].blocks[bi][ii]) == [FuncRef(f1)] + ins.args;
          assert Operands(ins) == [ins.callee] + ins.args;
        }
      }
    }
    forall fi, bi, ii |
      0 <= fi < |m.functions| && 0 <= bi < |m.functions[fi].blocks| && 0 <= ii < |m.functions[fi].blocks[bi]|
      && !m.functions[fi].blocks[bi][ii].Call? && Mentions(m.functions[fi].blocks[bi][ii], f2)
      ensures !UseEmpty(r, f2)
    {
      assert r.functions[fi].blocks[bi][ii] == m.functions[fi].blocks[bi][ii];
    }
  }

  // ---------------------------------------------------------------------
  // Relating a module to itself after calls have been retargeted

  /** `b` is `a`, or the call `a` with its callee set to `fid`. */
  predicate InstrRetargeted(a: Instr, b: Instr, fid: FuncId) {
    b == a || (a.Call? && b == Call(FuncRef(fid), a.args))
  }

  predicate FunctionRetargeted(a: Function, b: Function, fid: FuncId) {
    SameHeader(a, b)
    && forall bi, ii :: 0 <= bi < |a.blocks| && 0 <= ii < |a.blocks[bi]| ==>
      InstrRetargeted(a.blocks[bi][ii], b.blocks[bi][ii], fid)
  }

  predicate ModuleRetargeted(a: Module, b: Module, fid: FuncId) {
    |a.functions| == |b.functions|
    && forall j :: 0 <= j < |a.functions| ==> FunctionRetargeted(a.functions[j], b.functions[j], fid)
  }

  lemma ModuleRetargetedTransitive(a: Module, b: Module, c: Module, fid: FuncId)
    requires ModuleRetargeted(a, b, fid) && ModuleRetargeted(b, c, fid)
    ensures ModuleRetargeted(a, c, fid)
  {
    forall j | 0 <= j < |a.functions| ensures FunctionRetargeted(a.functions[j], c.functions[j], fid) {
      var fa, fb, fc := a.functions[j], b.functions[j], c.functions[j];
      assert FunctionRetargeted(fa, fb, fid) && FunctionRetargeted(fb, fc, fid);
    }
  }

  lemma RedirectCallsRetargets(m: Module, fid: FuncId, g: FuncId)
    ensures ModuleRetargeted(m, RedirectCalls(m, fid, g), fid)
  {
    var r := RedirectCalls(m, fid, g);
    forall j | 0 <= j < |m.functions| ensures FunctionRetargeted(m.functions[j], r.functions[j], fid) {
    }
  }

  lemma ModuleRetargetedReflexive(m: Module, fid: FuncId)
    ensures ModuleRetargeted(m, m, fid)
  {
    forall j | 0 <= j < |m.functions| ensures FunctionRetargeted(m.functions[j], m.functions[j], fid) {
    }
  }

  /** Retargeting a call never changes a pair verdict: calls are not inspected. */
  lemma ComparePairIgnoresCallees(a: Instr, a': Instr, b: Instr, b': Instr, fid: FuncId)
    requires InstrRetargeted(a, a', fid) && InstrRetargeted(b, b', fid)
    ensures ComparePair(a', b') == ComparePair(a, b)
  {
  }

  lemma {:induction false} CompareInstrsIgnoresCallees(x: Block, x': Block, y: Block, y': Block, fid: FuncId)
    requires |x| == |x'| && |y| == |y'|
    requires forall ii :: 0 <= ii < |x| ==> InstrRetargeted(x[ii], x'[ii], fid)
    requires forall ii :: 0 <= ii < |y| ==> InstrRetargeted(y[ii], y'[ii], fid)
    ensures CompareInstrs(ZipSeq(x', y')) == CompareInstrs(ZipSeq(x, y))
  {
    if |x| != 0 && |y| != 0 {
      ComparePairIgnoresCallees(x[0], x'[0], y[0], y'[0], fid);
      CompareInstrsIgnoresCallees(x[1..], x'[1..], y[1..], y'[1..], fid);
    }
  }

  lemma {:induction false} CompareBlocksIgnoresCallees(xs: seq<Block>, xs': seq<Block>, ys: seq<Block>, ys': seq<Block>, fid: FuncId)
    requires |xs| == |xs'| && |ys| == |ys'|
    requires forall bi :: 0 <= bi < |xs| ==>
      (|xs[bi]| == |xs'[bi]| && forall ii :: 0 <= ii < |xs[bi]| ==> InstrRetargeted(xs[bi][ii], xs'[bi][ii], fid))
    requires forall bi :: 0 <= bi < |ys| ==>
      (|ys[bi]| == |ys'[bi]| && forall ii :: 0 <= ii < |ys[bi]| ==> InstrRetargeted(ys[bi][ii], ys'[bi][ii], fid))
    ensures CompareBlocks(ZipSeq(xs', ys')) == CompareBlocks(ZipSeq(xs, ys))
  {
    if |xs| != 0 && |ys| != 0 {
      CompareInstrsIgnoresCallees(xs[0], xs'[0], ys[0], ys'[0], fid);
      CompareBlocksIgnoresCallees(xs[1..], xs'[1..], ys[1..], ys'[1..], fid);
    }
  }

  lemma {:induction false} InstructionCountSameShape(xs: seq<Block>, xs': seq<Block>)
    requires |xs| == |xs'| && forall bi :: 0 <= bi < |xs| ==> |xs[bi]| == |xs'[bi]|
    ensures InstructionCount(xs) == InstructionCount(xs')
  {
    if |xs| != 0 {
      InstructionCountSameShape(xs[1..], xs'[1..]);
    }
  }

  /** Both comparisons judge a pair the same after calls have been retargeted. */
  lemma ComparisonsIgnoreCallees(f: Function, f': Function, g: Function, g': Function, fid: FuncId)
    requires FunctionRetargeted(f, f', fid) && FunctionRetargeted(g, g', fid)
    ensures EqualArguments(f', g') == EqualArguments(f, g)
    ensures CheckSyntax(f', g') == CheckSyntax(f, g)
  {
    InstructionCountSameShape(f.blocks, f'.blocks);
    InstructionCountSameShape(g.blocks, g'.blocks);
    CompareBlocksIgnoresCallees(f.blocks, f'.blocks, g.blocks, g'.blocks, fid);
  }

  // ---------------------------------------------------------------------
  // runOnFunction: the scan

  datatype ScanState = ScanState(m: Module, queue: seq<FuncId>, replaced: set<FuncId>)

  /**
   * The scan loop of `runOnFunction` for the function at index `fIdx`,
   * from module position `i` on, with `queue` standing for
   * `FunctionsToDelete` and `replaced` for `AlreadyReplaced`.
   */
  function Scan(m: Module, fIdx: nat, i: nat, queue: seq<FuncId>, replaced: set<FuncId>): ScanState
    requires fIdx < |m.functions|
    decreases |m.functions| - i
  {
    if i >= |m.functions| then ScanState(m, queue, replaced)
    else
      var f := m.functions[fIdx];
      var other := m.functions[i];
      if IsDeclaration(f) then ScanState(m, queue, replaced)
      else if f.name == "main" || other.name == "main" || IsDeclaration(other) then
        Scan(m, fIdx, i + 1, queue, replaced)
      else if i == fIdx || f.id in replaced then ScanState(m, queue, replaced)
      else if UseEmpty(m, other.id) then
        Scan(m, fIdx, i + 1, queue + [other.id], replaced + {other.id})
      else if EqualArguments(f, other) && CheckSyntax(f, other) then
        Scan(RedirectCalls(m, f.id, other.id), fIdx, i + 1, queue + [other.id], replaced + {other.id})
      else
        Scan(m, fIdx, i + 1, queue, replaced)
  }

  /** The functions of `fs` whose identity is not listed in `ids`, in order. */
  function Keep(fs: seq<Function>, ids: seq<FuncId>): seq<Function> {
    if |fs| == 0 then [] else (if fs[0].id in ids then [] else [fs[0]]) + Keep(fs[1..], ids)
  }

  /** `eraseFromParent` on the function with identity `g`. */
  function EraseFunction(m: Module, g: FuncId): Module {
    Module(Keep(m.functions, [g]))
  }

  /** The erase loop over `FunctionsToDelete`. */
  function EraseAll(m: Module, ids: seq<FuncId>): Module
    decreases |ids|
  {
    if |ids| == 0 then m else EraseFunction(EraseAll(m, ids[..|ids| - 1]), ids[|ids| - 1])
  }

  /** What one invocation leaves: the module, `AlreadyReplaced`, and the functions it erased. */
  datatype Outcome = Outcome(m: Module, replaced: set<FuncId>, erased: seq<FuncId>)

  function MergeOnce(m: Module, fIdx: nat, replaced: set<FuncId>): Outcome
    requires fIdx < |m.functions|
  {
    var s := Scan(m, fIdx, 0, [], replaced);
    Outcome(EraseAll(s.m, s.queue), s.replaced, s.queue)
  }

  /** The pass object with its two member fields. */
  class MergeFunctionPass {
    var functionsToDelete: seq<FuncId>
    var alreadyReplaced: set<FuncId>

    constructor ()
      ensures functionsToDelete == [] && alreadyReplaced == {}
    {
      functionsToDelete := [];
      alreadyReplaced := {};
    }

    /**
     * One invocation on the function at index `fIdx` of its parent module.
     * The queue is empty between invocations: the constructor leaves it
     * so and every invocation clears it.
     */
    method RunOnFunction(m: Module, fIdx: nat) returns (m': Module, modified: bool)
      requires fIdx < |m.functions|
      requires functionsToDelete == []
      modifies this
      ensures modified
      ensures functionsToDelete == []
      ensures m' == MergeOnce(m, fIdx, old(alreadyReplaced)).m
      ensures alreadyReplaced == MergeOnce(m, fIdx, old(alreadyReplaced)).replaced
    {
      ghost var target := Scan(m, fIdx, 0, [], alreadyReplaced);
      var mod := m;
      var i := 0;
      while i < |mod.functions|
        invariant |mod.functions| == |m.functions|
        invariant Scan(mod, fIdx, i, functionsToDelete, alreadyReplaced) == target
        decreases |mod.functions| - i
      {
        var f := mod.functions[fIdx];
        var other := mod.functions[i];
        if IsDeclaration(f) {
          break;
        }
        if f.name == "main" || other.name == "main" || IsDeclaration(other) {
          i := i + 1;
          continue;
        }
        if i != fIdx && f.id !in alreadyReplaced {
          if UseEmpty(mod, other.id) {
            functionsToDelete := functionsToDelete + [other.id];
            alreadyReplaced := alreadyReplaced + {other.id};
            i := i + 1;
            continue;
          }
          if EqualArguments(f, other) {
            if CheckSyntax(f, other) {
              mod := ReplaceFunctionCalls(mod, f.id, other.id);
              functionsToDelete := functionsToDelete + [other.id];
              alreadyReplaced := alreadyReplaced + {other.id};
            }
          }
        } else {
          break;
        }
        i := i + 1;
      }
      assert ScanState(mod, functionsToDelete, alreadyReplaced) == target;

      ghost var scanned := mod;
      var k := 0;
      while k < |functionsToDelete|
        invariant k <= |functionsToDelete|
        invariant mod == EraseAll(scanned, functionsToDelete[..k])
      {
        assert functionsToDelete[..k + 1][..k] == functionsToDelete[..k];
        mod := EraseFunction(mod, functionsToDelete[k]);
        k := k + 1;
      }
      assert functionsToDelete[..k] == functionsToDelete;
      functionsToDelete := [];
      m' := mod;
      modified := true;
    }
  }
}
