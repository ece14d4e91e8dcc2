/**
 * What the strength-reduction walk does: the rewrite selection for `mul`
 * and `srem`, and the walk over the blocks that inserts each replacement
 * right after the instruction it replaces and redirects every use to it.
 */
module StrengthScan {
  import opened StrengthBits
  import opened StrengthIr

  /** What the pass does with one instruction. */
  datatype Selection =
    | Keep
    | ToShl(x: Operand, c: bv32)   // `mul` by the constant `c`: `shl x, powerOfTwo(c)`
    | ToAnd(x: Operand, c: bv32)   // `srem x, c`: `and x, c - 1`

  /**
   * The choice made for each instruction: a `mul` whose left operand is an
   * integer constant passing `isPowerOfTwo` and whose right operand is not a
   * constant is shifted; otherwise the same with the operands swapped; an
   * `srem` by such a constant of a non-constant is masked.
   */
  function Select(i: Instr): Selection {
    match i
    case Binary(_, Mul, l, r) =>
      if l.ConstInt? && IsPowerOfTwo(l.bits) && !r.ConstInt? then ToShl(r, l.bits)
      else if r.ConstInt? && IsPowerOfTwo(r.bits) && !l.ConstInt? then ToShl(l, r.bits)
      else Keep
    case Binary(_, SRem, l, r) =>
      if r.ConstInt? && !l.ConstInt? && IsPowerOfTwo(r.bits) then ToAnd(l, r.bits) else Keep
    case _ => Keep
  }

  /**
   * A `mul` is shifted exactly when one operand is an integer constant
   * passing the sign-bit test and the other is no constant, the left
   * constant taking precedence; with two constants or none it is kept.
   */
  lemma SelectMul(id: InstrId, l: Operand, r: Operand)
    ensures var s := Select(Binary(id, Mul, l, r));
      && !s.ToAnd?
      && (l.ConstInt? == r.ConstInt? ==> s == Keep)
      && (l.ConstInt? && !r.ConstInt? ==> (s.ToShl? <==> IsPowerOfTwo(l.bits)))
      && (r.ConstInt? && !l.ConstInt? ==> (s.ToShl? <==> IsPowerOfTwo(r.bits)))
      && (s.ToShl? ==> s.x == (if l.ConstInt? then r else l) && ConstInt(s.c) == (if l.ConstInt? then l else r))
  {
  }

  /**
   * An `srem` is masked exactly when its divisor is an integer constant
   * passing the sign-bit test and its dividend is no constant; an `srem`
   * of a constant is never rewritten.
   */
  lemma SelectSRem(id: InstrId, l: Operand, r: Operand)
    ensures var s := Select(Binary(id, SRem, l, r));
      && !s.ToShl?
      && (l.ConstInt? ==> s == Keep)
      && (s.ToAnd? <==> r.ConstInt? && !l.ConstInt? && IsPowerOfTwo(r.bits))
      && (s.ToAnd? ==> s.x == l && ConstInt(s.c) == r)
  {
  }

  /** Every other instruction is left alone. */
  lemma SelectOther(i: Instr)
    requires !IsMulOrSRem(i)
    ensures Select(i) == Keep
  {
  }

  /** The mask loop ends on every constant a `mul` is shifted by. */
  ghost predicate ShlTerminates(i: Instr) {
    Select(i).ToShl? ==> AtMostOneBit(Select(i).c)
  }

  ghost predicate Terminates(f: Function) {
    forall b, p :: 0 <= b < |f| && 0 <= p < |f[b]| ==> ShlTerminates(f[b][p])
  }

  /** The instruction that replaces `i`, with the identity `id`. */
  ghost function Replacement(s: Selection, id: InstrId): (n: Instr)
    requires !s.Keep? && (s.ToShl? ==> AtMostOneBit(s.c))
    ensures n.id == id && n.Binary? && !IsMulOrSRem(n) && Select(n) == Keep
  {
    match s
    case ToShl(x, c) => Binary(id, Shl, x, ConstInt(Log2(c)))
    case ToAnd(x, c) => Binary(id, And, x, ConstInt(c - 1))
  }

  /** The state of the walk: the function as changed so far, the next fresh identity, the removal list. */
  datatype ScanState = ScanState(f: Function, next: InstrId, removed: seq<InstrId>)

  /** One rewrite: `n` goes in after position `p` of block `b`, and every use of `i` becomes a use of `n`. */
  function Rewrite(f: Function, b: nat, p: nat, n: Instr): Function
    requires b < |f| && p < |f[b]|
  {
    Rename(InsertAfter(f, b, p, n), f[b][p].id, n.id)
  }

  /**
   * The walk of `runOnFunction` from block `b`, position `p`: each
   * instruction is examined once, and a replacement, inserted right after
   * it, is examined next.
   */
  ghost function Scan(f: Function, b: nat, p: nat, next: InstrId, removed: seq<InstrId>): ScanState
    requires Terminates(f)
    requires b < |f| ==> p <= |f[b]|
    decreases |f| - b, (if b < |f| then MulSRemCount(f[b][p..]) else 0), (if b < |f| then |f[b]| - p else 0)
  {
    if b >= |f| then ScanState(f, next, removed)
    else if p == |f[b]| then Scan(f, b + 1, 0, next, removed)
    else
      var i := f[b][p];
      var s := Select(i);
      if s.Keep? then
        MulSRemCountStep(f[b], p);
        Scan(f, b, p + 1, next, removed)
      else
        var n := Replacement(s, next);
        RewriteFacts(f, b, p, n);
        Scan(Rewrite(f, b, p, n), b, p + 1, next + 1, removed + [i.id])
  }

  lemma MulSRemCountStep(s: seq<Instr>, p: nat)
    requires p < |s|
    ensures MulSRemCount(s[p..]) == (if IsMulOrSRem(s[p]) then 1 else 0) + MulSRemCount(s[p + 1..])
  {
    assert s[p..][1..] == s[p + 1..];
  }

  /** Renaming changes no choice except the operand that is kept. */
  lemma SelectRenamed(i: Instr, from: InstrId, to: InstrId)
    ensures Select(RenameInstr(i, from, to)).Keep? == Select(i).Keep?
    ensures Select(RenameInstr(i, from, to)).ToShl? == Select(i).ToShl?
    ensures !Select(i).Keep? ==> Select(RenameInstr(i, from, to)).c == Select(i).c
    ensures IsMulOrSRem(RenameInstr(i, from, to)) == IsMulOrSRem(i)
  {
  }

  /** A rewrite at a `mul` or `srem` keeps the walk terminating and leaves one fewer candidate ahead. */
  lemma RewriteFacts(f: Function, b: nat, p: nat, n: Instr)
    requires Terminates(f) && b < |f| && p < |f[b]| && IsMulOrSRem(f[b][p])
    requires Select(n) == Keep && !IsMulOrSRem(n)
    ensures var g := Rewrite(f, b, p, n);
      Terminates(g) && |g| == |f| && |g[b]| == |f[b]| + 1 &&
      MulSRemCount(g[b][p + 1..]) < MulSRemCount(f[b][p..])
  {
    var from, to := f[b][p].id, n.id;
    var h := InsertAfter(f, b, p, n);
    var g := Rename(h, from, to);
    forall c, q | 0 <= c < |g| && 0 <= q < |g[c]|
      ensures ShlTerminates(g[c][q])
    {
      SelectRenamed(h[c][q], from, to);
      if c == b && q == p + 1 {
      } else if c == b && q > p + 1 {
        assert h[c][q] == h[b][p + 2..][q - p - 2];
      } else if c == b {
        assert h[c][q] == h[b][..p + 1][q];
      }
    }
    MulSRemCountStep(f[b], p);
    MulSRemCountStep(g[b], p + 1);
    var gs, fs := g[b][p + 2..], f[b][p + 1..];
    forall k | 0 <= k < |gs|
      ensures IsMulOrSRem(gs[k]) == IsMulOrSRem(fs[k])
    {
      SelectRenamed(h[b][p + 2 + k], from, to);
      assert h[b][p + 2 + k] == h[b][p + 2..][k];
    }
    MulSRemCountSame(gs, fs);
    SelectRenamed(n, from, to);
  }

  // ---------------------------------------------------------------------
  // What the walk puts on the removal list

  /** The identities of the instructions of `s` the pass rewrites, in order. */
  function SelectedIn(s: seq<Instr>): seq<InstrId> {
    if s == [] then [] else (if Select(s[0]).Keep? then [] else [s[0].id]) + SelectedIn(s[1..])
  }

  /** The same over the blocks from `b` on. */
  function SelectedFrom(f: Function, b: nat): seq<InstrId>
    decreases |f| - b
  {
    if b >= |f| then [] else SelectedIn(f[b]) + SelectedFrom(f, b + 1)
  }

  /** The same from position `p` of block `b` on. */
  function Pending(f: Function, b: nat, p: nat): seq<InstrId>
    requires b < |f| ==> p <= |f[b]|
  {
    if b < |f| then SelectedIn(f[b][p..]) + SelectedFrom(f, b + 1) else []
  }

  /** Renaming operands changes neither identity nor choice, so not what is selected. */
  lemma {:induction false} SelectedInRenamed(t: seq<Instr>, s: seq<Instr>, from: InstrId, to: InstrId)
    requires |t| == |s| && forall k :: 0 <= k < |s| ==> t[k] == RenameInstr(s[k], from, to)
    ensures SelectedIn(t) == SelectedIn(s)
  {
    if s != [] {
      SelectRenamed(s[0], from, to);
      SelectedInRenamed(t[1..], s[1..], from, to);
    }
  }

  lemma {:induction false} SelectedFromRenamed(g: Function, f: Function, c: nat, from: InstrId, to: InstrId)
    requires |g| == |f|
    requires forall b :: c <= b < |f| ==> |g[b]| == |f[b]|
    requires forall b, p :: c <= b < |f| && 0 <= p < |f[b]| ==> g[b][p] == RenameInstr(f[b][p], from, to)
    ensures SelectedFrom(g, c) == SelectedFrom(f, c)
    decreases |f| - c
  {
    if c < |f| {
      SelectedInRenamed(g[c], f[c], from, to);
      SelectedFromRenamed(g, f, c + 1, from, to);
    }
  }

  /** Stepping over a kept instruction leaves the pending list as it is. */
  lemma PendingAfterKeep(f: Function, b: nat, p: nat)
    requires b < |f| && p < |f[b]| && Select(f[b][p]).Keep?
    ensures Pending(f, b, p) == Pending(f, b, p + 1)
  {
    assert f[b][p..][1..] == f[b][p + 1..];
  }

  /** At the end of a block the pending list is that of the next block. */
  lemma PendingAtBlockEnd(f: Function, b: nat)
    requires b < |f|
    ensures Pending(f, b, |f[b]|) == Pending(f, b + 1, 0)
  {
    if b + 1 < |f| {
      assert f[b + 1][0..] == f[b + 1];
    }
  }

  /** A rewrite takes the replaced instruction off the head of the pending list and changes nothing else in it. */
  lemma PendingAfterRewrite(f: Function, b: nat, p: nat, n: Instr)
    requires b < |f| && p < |f[b]| && !Select(f[b][p]).Keep? && Select(n).Keep?
    ensures var g := Rewrite(f, b, p, n);
      |g[b]| == |f[b]| + 1 && Pending(f, b, p) == [f[b][p].id] + Pending(g, b, p + 1)
  {
    RewriteKeepsSelectedInBlock(f, b, p, n);
    RewriteKeepsSelectedLater(f, b, p, n);
    PendingStep(f, Rewrite(f, b, p, n), b, p);
  }

  /** The pending list at a selected instruction, from one that agrees with `f` on everything behind it. */
  lemma PendingStep(f: Function, g: Function, b: nat, p: nat)
    requires b < |f| == |g| && p < |f[b]| && |g[b]| == |f[b]| + 1 && !Select(f[b][p]).Keep?
    requires SelectedIn(g[b][p + 1..]) == SelectedIn(f[b][p + 1..])
    requires SelectedFrom(g, b + 1) == SelectedFrom(f, b + 1)
    ensures Pending(f, b, p) == [f[b][p].id] + Pending(g, b, p + 1)
  {
    assert f[b][p..][1..] == f[b][p + 1..];
  }

  /** Behind the replacement, the block holds the same selected instructions as before the rewrite. */
  lemma RewriteKeepsSelectedInBlock(f: Function, b: nat, p: nat, n: Instr)
    requires b < |f| && p < |f[b]| && Select(n).Keep?
    ensures var g := Rewrite(f, b, p, n);
      |g[b]| == |f[b]| + 1 && SelectedIn(g[b][p + 1..]) == SelectedIn(f[b][p + 1..])
  {
    var from, to := f[b][p].id, n.id;
    var h := InsertAfter(f, b, p, n);
    var g: Function := Rename(h, from, to);
    var gs, fs := g[b][p + 2..], f[b][p + 1..];
    forall k | 0 <= k < |gs|
      ensures gs[k] == RenameInstr(fs[k], from, to)
    {
      assert h[b][p + 2 + k] == h[b][p + 2..][k];
    }
    SelectedInRenamed(gs, fs, from, to);
    SelectRenamed(n, from, to);
    assert g[b][p + 1..][1..] == gs;
  }

  /** The blocks after the rewritten one hold the same selected instructions as before. */
  lemma RewriteKeepsSelectedLater(f: Function, b: nat, p: nat, n: Instr)
    requires b < |f| && p < |f[b]|
    ensures SelectedFrom(Rewrite(f, b, p, n), b + 1) == SelectedFrom(f, b + 1)
  {
    var from, to := f[b][p].id, n.id;
    SelectedFromRenamed(Rewrite(f, b, p, n), f, b + 1, from, to);
  }

  /**
   * The walk appends to the removal list exactly the identities of the
   * instructions it has yet to reach that the pass rewrites, in block order.
   */
  lemma {:induction false} ScanRemovesSelected(f: Function, b: nat, p: nat, next: InstrId, removed: seq<InstrId>)
    requires Terminates(f) && (b < |f| ==> p <= |f[b]|)
    ensures Scan(f, b, p, next, removed).removed == removed + Pending(f, b, p)
    decreases |f| - b, (if b < |f| then MulSRemCount(f[b][p..]) else 0), (if b < |f| then |f[b]| - p else 0)
  {
    if b >= |f| {
    } else if p == |f[b]| {
      PendingAtBlockEnd(f, b);
      ScanRemovesSelected(f, b + 1, 0, next, removed);
    } else {
      var i := f[b][p];
      var s := Select(i);
      MulSRemCountStep(f[b], p);
      if s.Keep? {
        PendingAfterKeep(f, b, p);
        ScanRemovesSelected(f, b, p + 1, next, removed);
      } else {
        var n := Replacement(s, next);
        RewriteFacts(f, b, p, n);
        PendingAfterRewrite(f, b, p, n);
        ScanRemovesSelected(Rewrite(f, b, p, n), b, p + 1, next + 1, removed + [i.id]);
      }
    }
  }

  /** Over a whole function: the removal list grows by the selected instructions of `f`. */
  lemma ScanRemovesSelectedOfFunction(f: Function, next: InstrId, removed: seq<InstrId>)
    requires Terminates(f)
    ensures Scan(f, 0, 0, next, removed).removed == removed + SelectedFrom(f, 0)
  {
    ScanRemovesSelected(f, 0, 0, next, removed);
    if f != [] {
      assert f[0][0..] == f[0];
    }
  }

  // ---------------------------------------------------------------------
  // No use of a replaced instruction survives the walk

  /** A replacement reads only the operand of the instruction it replaces that is not the constant. */
  lemma ReplacementUses(i: Instr, id: InstrId, d: InstrId)
    requires !Select(i).Keep? && ShlTerminates(i)
    ensures InstrUses(Replacement(Select(i), id), d) ==> InstrUses(i, d)
  {
  }

  /** What a rewrite does to the uses of an identity other than the new one. */
  lemma RewriteUses(f: Function, b: nat, p: nat, n: Instr, d: InstrId)
    requires b < |f| && p < |f[b]| && d != n.id
    requires InstrUses(n, d) ==> InstrUses(f[b][p], d)
    ensures Uses(Rewrite(f, b, p, n), d) ==> d != f[b][p].id && Uses(f, d)
  {
    UsesRenamed(InsertAfter(f, b, p, n), f[b][p].id, n.id, d);
    UsesInsertAfter(f, b, p, n, d);
  }

  /** A rewrite brings in one identity, that of the replacement. */
  lemma RewriteIdsBelow(f: Function, b: nat, p: nat, n: Instr, bound: InstrId)
    requires b < |f| && p < |f[b]| && IdsBelow(f, bound) && n.id < bound
    ensures IdsBelow(Rewrite(f, b, p, n), bound)
  {
    var h := InsertAfter(f, b, p, n);
    var g: Function := Rename(h, f[b][p].id, n.id);
    forall c, q | 0 <= c < |g| && 0 <= q < |g[c]|
      ensures g[c][q].id < bound
    {
      if c == b && q < p + 1 {
        assert h[c][q] == h[b][..p + 1][q];
      } else if c == b && q > p + 1 {
        assert h[c][q] == h[b][p + 2..][q - p - 2];
      }
    }
  }

  /** One rewrite step keeps the hypotheses of `ScanLeavesNoUse`, with the replaced instruction now gone. */
  lemma RewriteKeepsNoUse(f: Function, b: nat, p: nat, next: InstrId, gone: set<InstrId>)
    requires b < |f| && p < |f[b]| && !Select(f[b][p]).Keep? && ShlTerminates(f[b][p])
    requires IdsBelow(f, next)
    requires forall d :: d in gone ==> d < next && !Uses(f, d)
    ensures var g := Rewrite(f, b, p, Replacement(Select(f[b][p]), next));
      IdsBelow(g, next + 1) && forall d :: d in gone + {f[b][p].id} ==> d < next + 1 && !Uses(g, d)
  {
    var i := f[b][p];
    var n := Replacement(Select(i), next);
    RewriteIdsBelow(f, b, p, n, next + 1);
    forall d | d in gone + {i.id}
      ensures d < next + 1 && !Uses(Rewrite(f, b, p, n), d)
    {
      ReplacementUses(i, next, d);
      RewriteUses(f, b, p, n, d);
    }
  }

  /**
   * Given fresh identities from `next` on, once the walk is over nothing
   * uses an instruction it replaced: neither one replaced earlier
   * (`gone`) nor one still ahead of it.
   */
  lemma {:induction false} ScanLeavesNoUse(f: Function, b: nat, p: nat, next: InstrId, removed: seq<InstrId>, gone: set<InstrId>)
    requires Terminates(f) && (b < |f| ==> p <= |f[b]|)
    requires IdsBelow(f, next)
    requires forall d :: d in gone ==> d < next && !Uses(f, d)
    ensures forall d :: d in gone || d in Pending(f, b, p) ==> !Uses(Scan(f, b, p, next, removed).f, d)
    decreases |f| - b, (if b < |f| then MulSRemCount(f[b][p..]) else 0), (if b < |f| then |f[b]| - p else 0)
  {
    if b >= |f| {
    } else if p == |f[b]| {
      PendingAtBlockEnd(f, b);
      ScanLeavesNoUse(f, b + 1, 0, next, removed, gone);
    } else {
      var i := f[b][p];
      var s := Select(i);
      MulSRemCountStep(f[b], p);
      if s.Keep? {
        PendingAfterKeep(f, b, p);
        ScanLeavesNoUse(f, b, p + 1, next, removed, gone);
      } else {
        var n := Replacement(s, next);
        RewriteFacts(f, b, p, n);
        PendingAfterRewrite(f, b, p, n);
        RewriteKeepsNoUse(f, b, p, next, gone);
        ScanLeavesNoUse(Rewrite(f, b, p, n), b, p + 1, next + 1, removed + [i.id], gone + {i.id});
      }
    }
  }

  // ---------------------------------------------------------------------
  // Nothing is left to rewrite

  /** Every instruction the pass would rewrite is on the list `ids`. */
  ghost predicate Settled(f: Function, ids: seq<InstrId>) {
    forall c, q :: 0 <= c < |f| && 0 <= q < |f[c]| && !Select(f[c][q]).Keep? ==> f[c][q].id in ids
  }

  /** The same for the instructions before position `p` of block `b`. */
  ghost predicate SettledBefore(f: Function, ids: seq<InstrId>, b: nat, p: nat) {
    forall c, q :: 0 <= c < |f| && 0 <= q < |f[c]| && (c < b || (c == b && q < p)) && !Select(f[c][q]).Keep? ==>
      f[c][q].id in ids
  }

  /** When the walk is over, every instruction still to be rewritten is on the removal list. */
  lemma {:induction false} ScanSettles(f: Function, b: nat, p: nat, next: InstrId, removed: seq<InstrId>)
    requires Terminates(f) && (b < |f| ==> p <= |f[b]|)
    requires SettledBefore(f, removed, b, p)
    ensures var s := Scan(f, b, p, next, removed); Settled(s.f, s.removed)
    decreases |f| - b, (if b < |f| then MulSRemCount(f[b][p..]) else 0), (if b < |f| then |f[b]| - p else 0)
  {
    if b >= |f| {
    } else if p == |f[b]| {
      ScanSettles(f, b + 1, 0, next, removed);
    } else {
      var i := f[b][p];
      var s := Select(i);
      MulSRemCountStep(f[b], p);
      if s.Keep? {
        ScanSettles(f, b, p + 1, next, removed);
      } else {
        var n := Replacement(s, next);
        var from := i.id;
        var h := InsertAfter(f, b, p, n);
        var g: Function := Rename(h, from, n.id);
        RewriteFacts(f, b, p, n);
        forall c, q | 0 <= c < |g| && 0 <= q < |g[c]| && (c < b || (c == b && q < p + 1)) && !Select(g[c][q]).Keep?
          ensures g[c][q].id in removed + [from]
        {
          SelectRenamed(h[c][q], from, n.id);
          if c == b {
            assert h[c][q] == h[b][..p + 1][q] == f[b][q];
          }
        }
        ScanSettles(g, b, p + 1, next + 1, removed + [from]);
      }
    }
  }

  lemma {:induction false} SelectedInNone(s: seq<Instr>)
    requires forall k :: 0 <= k < |s| ==> Select(s[k]).Keep?
    ensures SelectedIn(s) == []
  {
    if s != [] {
      SelectedInNone(s[1..]);
    }
  }

  /**
   * Erasing the removal list of a settled function leaves only
   * instructions the pass keeps, so a second walk selects nothing.
   */
  lemma {:induction false} SettledEraseSelectsNothing(f: Function, ids: seq<InstrId>, b: nat)
    requires Settled(f, ids)
    ensures var g := EraseAll(f, ids);
      forall c, q :: b <= c < |g| && 0 <= q < |g[c]| ==> Select(g[c][q]).Keep?
    ensures SelectedFrom(EraseAll(f, ids), b) == []
    decreases |f| - b
  {
    var g: Function := EraseAll(f, ids);
    forall c, q | b <= c < |g| && 0 <= q < |g[c]|
      ensures Select(g[c][q]).Keep?
    {
      EraseAllMembers(f, ids, c, g[c][q]);
    }
    if b < |g| {
      SelectedInNone(g[b]);
      SettledEraseSelectsNothing(f, ids, b + 1);
    }
  }
}
