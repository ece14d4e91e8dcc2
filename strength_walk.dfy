/**
 * The shape of the function the strength-reduction walk leaves.  The walk
 * renames one identity at a time; taken together its renamings are one map
 * from each rewritten instruction to the fresh identity of its replacement,
 * handed out in walk order.  The walk's result is the input with every
 * replacement inserted right after the instruction it replaces and every
 * operand renamed by that map; once the removal list is erased, each
 * instruction of the input sits where it was, the rewritten ones swapped
 * for their replacements.
 */
module StrengthWalk {
  import opened StrengthBits
  import opened StrengthIr
  import opened StrengthScan

  type Renaming = map<InstrId, InstrId>

  // ---------------------------------------------------------------------
  // Renaming by a map

  function RenameOperandBy(o: Operand, sigma: Renaming): Operand {
    if o.Ref? && o.id in sigma then Ref(sigma[o.id]) else o
  }

  function RenameInstrBy(i: Instr, sigma: Renaming): (r: Instr)
    ensures r.id == i.id && r.Binary? == i.Binary?
    ensures i.Binary? ==> r.op == i.op
  {
    match i
    case Binary(id, op, l, r) => Binary(id, op, RenameOperandBy(l, sigma), RenameOperandBy(r, sigma))
    case NonBinary(id, kind, ops) =>
      NonBinary(id, kind, seq(|ops|, k requires 0 <= k < |ops| => RenameOperandBy(ops[k], sigma)))
  }

  function RenameBlockBy(s: seq<Instr>, sigma: Renaming): (t: seq<Instr>)
    ensures |t| == |s| && forall k :: 0 <= k < |s| ==> t[k] == RenameInstrBy(s[k], sigma)
  {
    seq(|s|, k requires 0 <= k < |s| => RenameInstrBy(s[k], sigma))
  }

  function RenameBy(f: Function, sigma: Renaming): (g: Function)
    ensures |g| == |f| && forall b :: 0 <= b < |f| ==> g[b] == RenameBlockBy(f[b], sigma)
  {
    seq(|f|, b requires 0 <= b < |f| => RenameBlockBy(f[b], sigma))
  }

  /** The new identity of `d`: its image when the map renames it, `d` itself otherwise. */
  function NewId(sigma: Renaming, d: InstrId): InstrId {
    if d in sigma then sigma[d] else d
  }

  /**
   * After renaming by `sigma`, an instruction uses the new identity of every
   * identity it used, and no longer uses a renamed identity that no image
   * of `sigma` names.
   */
  lemma RenameInstrByUses(i: Instr, sigma: Renaming, d: InstrId)
    ensures InstrUses(i, d) ==> InstrUses(RenameInstrBy(i, sigma), NewId(sigma, d))
    ensures d in sigma && (forall e :: e in sigma ==> sigma[e] != d) ==> !InstrUses(RenameInstrBy(i, sigma), d)
  {
    if i.NonBinary? {
      var r := RenameInstrBy(i, sigma);
      if InstrUses(i, d) {
        var k :| 0 <= k < |i.operands| && OperandUses(i.operands[k], d);
        assert OperandUses(r.operands[k], NewId(sigma, d));
      }
      if d in sigma && (forall e :: e in sigma ==> sigma[e] != d) {
        forall k | 0 <= k < |r.operands|
          ensures !OperandUses(r.operands[k], d)
        {
        }
      }
    }
  }

  lemma RenameInstrByNothing(i: Instr)
    ensures RenameInstrBy(i, map[]) == i
  {
    if i.NonBinary? {
      assert RenameInstrBy(i, map[]).operands == i.operands;
    }
  }

  lemma RenameByNothing(f: Function)
    ensures RenameBy(f, map[]) == f
  {
    forall b, p | 0 <= b < |f| && 0 <= p < |f[b]|
      ensures RenameBy(f, map[])[b][p] == f[b][p]
    {
      RenameInstrByNothing(f[b][p]);
    }
    forall b | 0 <= b < |f|
      ensures RenameBy(f, map[])[b] == f[b]
    {
    }
  }

  /**
   * `replaceAllUsesWith(from, to)` after renaming by `sigma` is renaming by
   * `sigma` extended with `from`, when `from` is neither renamed by `sigma`
   * nor one of its images.
   */
  lemma RenameInstrAfterBy(i: Instr, sigma: Renaming, from: InstrId, to: InstrId)
    requires from !in sigma && forall d :: d in sigma ==> sigma[d] != from
    ensures RenameInstr(RenameInstrBy(i, sigma), from, to) == RenameInstrBy(i, sigma[from := to])
  {
    if i.NonBinary? {
      var a := RenameInstr(RenameInstrBy(i, sigma), from, to).operands;
      var c := RenameInstrBy(i, sigma[from := to]).operands;
      assert |a| == |c|;
      forall k | 0 <= k < |a|
        ensures a[k] == c[k]
      {
      }
    }
  }

  lemma RenameAfterBy(f: Function, sigma: Renaming, from: InstrId, to: InstrId)
    requires from !in sigma && forall d :: d in sigma ==> sigma[d] != from
    ensures Rename(RenameBy(f, sigma), from, to) == RenameBy(f, sigma[from := to])
  {
    var g, h := Rename(RenameBy(f, sigma), from, to), RenameBy(f, sigma[from := to]);
    forall b | 0 <= b < |f|
      ensures g[b] == h[b]
    {
      forall p | 0 <= p < |f[b]|
        ensures g[b][p] == h[b][p]
      {
        RenameInstrAfterBy(f[b][p], sigma, from, to);
      }
    }
  }

  /** Inserting a renamed instruction into a renamed function is renaming after the insertion. */
  lemma InsertAfterRenamedBy(f: Function, b: nat, p: nat, n: Instr, sigma: Renaming)
    requires b < |f| && p < |f[b]|
    ensures InsertAfter(RenameBy(f, sigma), b, p, RenameInstrBy(n, sigma)) == RenameBy(InsertAfter(f, b, p, n), sigma)
  {
    var g := InsertAfter(RenameBy(f, sigma), b, p, RenameInstrBy(n, sigma));
    var h := RenameBy(InsertAfter(f, b, p, n), sigma);
    var fb := InsertAfter(f, b, p, n)[b];
    var rb := RenameBy(f, sigma)[b];
    forall q | 0 <= q < |g[b]|
      ensures g[b][q] == h[b][q]
    {
      if q <= p {
        assert g[b][q] == g[b][..p + 1][q] == rb[..p + 1][q];
        assert fb[q] == fb[..p + 1][q] == f[b][..p + 1][q];
      } else if q > p + 1 {
        assert g[b][q] == g[b][p + 2..][q - p - 2] == rb[p + 1..][q - p - 2];
        assert fb[q] == fb[p + 2..][q - p - 2] == f[b][p + 1..][q - p - 2];
      }
    }
    assert g[b] == h[b];
  }

  function RenameSelectionBy(s: Selection, sigma: Renaming): Selection {
    match s
    case Keep => Keep
    case ToShl(x, c) => ToShl(RenameOperandBy(x, sigma), c)
    case ToAnd(x, c) => ToAnd(RenameOperandBy(x, sigma), c)
  }

  /** Renaming changes no choice, only the operand that is kept. */
  lemma SelectRenamedBy(i: Instr, sigma: Renaming)
    ensures Select(RenameInstrBy(i, sigma)) == RenameSelectionBy(Select(i), sigma)
    ensures ShlTerminates(RenameInstrBy(i, sigma)) == ShlTerminates(i)
  {
  }

  /** The replacement built from a renamed instruction is the renamed replacement. */
  lemma ReplacementRenamedBy(s: Selection, id: InstrId, sigma: Renaming)
    requires !s.Keep? && (s.ToShl? ==> AtMostOneBit(s.c))
    ensures Replacement(RenameSelectionBy(s, sigma), id) == RenameInstrBy(Replacement(s, id), sigma)
  {
  }

  lemma RenameByTerminates(f: Function, sigma: Renaming)
    requires Terminates(f)
    ensures Terminates(RenameBy(f, sigma))
  {
    forall b, p | 0 <= b < |f| && 0 <= p < |f[b]|
      ensures ShlTerminates(RenameBy(f, sigma)[b][p])
    {
      SelectRenamedBy(f[b][p], sigma);
    }
  }

  // ---------------------------------------------------------------------
  // Fresh identities

  /** The identities `next`, `next + 1`, ... handed out to `ids` in order. */
  function Fresh(ids: seq<InstrId>, next: InstrId): (sigma: Renaming)
    ensures forall d :: d in sigma <==> d in ids
    ensures forall d :: d in sigma ==> next <= sigma[d] < next + |ids|
  {
    if ids == [] then map[] else Fresh(ids[1..], next + 1)[ids[0] := next]
  }

  predicate NoDuplicates(ids: seq<InstrId>) {
    forall j, k :: 0 <= j < k < |ids| ==> ids[j] != ids[k]
  }

  /** Without duplicates, the `k`-th identity of `ids` is renamed to `next + k`. */
  lemma {:induction false} FreshAt(ids: seq<InstrId>, next: InstrId, k: nat)
    requires NoDuplicates(ids) && k < |ids|
    ensures Fresh(ids, next)[ids[k]] == next + k
  {
    if k != 0 {
      FreshAt(ids[1..], next + 1, k - 1);
    }
  }

  // ---------------------------------------------------------------------
  // The walk's result

  ghost predicate BlockTerminates(s: seq<Instr>) {
    forall k :: 0 <= k < |s| ==> ShlTerminates(s[k])
  }

  /** An instruction followed by its replacement, named by `sigma`, when it is rewritten. */
  ghost function Expansion(i: Instr, sigma: Renaming): seq<Instr>
    requires ShlTerminates(i)
  {
    if Select(i).Keep? then [i] else [i, Replacement(Select(i), NewId(sigma, i.id))]
  }

  /** A block segment with every replacement right after the instruction it replaces. */
  ghost function WithReplacements(s: seq<Instr>, sigma: Renaming): seq<Instr>
    requires BlockTerminates(s)
  {
    if s == [] then [] else Expansion(s[0], sigma) + WithReplacements(s[1..], sigma)
  }

  /** The input with every replacement inserted, operands not yet renamed. */
  ghost function Inserted(f: Function, sigma: Renaming): Function
    requires Terminates(f)
  {
    seq(|f|, c requires 0 <= c < |f| => WithReplacements(f[c], sigma))
  }

  /** The map the walk renames by: each rewritten instruction of `f` to a fresh identity, in walk order. */
  function FreshIds(f: Function, first: InstrId): Renaming {
    Fresh(SelectedFrom(f, 0), first)
  }

  /** What the walk leaves before the erase. */
  ghost function Walked(f: Function, first: InstrId): Function
    requires Terminates(f)
  {
    RenameBy(Inserted(f, FreshIds(f, first)), FreshIds(f, first))
  }

  /** Positions are identities: no two instructions of `f` share one. */
  ghost predicate UniqueIds(f: Function) {
    forall b, p, c, q ::
      0 <= b < |f| && 0 <= p < |f[b]| && 0 <= c < |f| && 0 <= q < |f[c]| && f[b][p].id == f[c][q].id ==>
        b == c && p == q
  }

  // ---------------------------------------------------------------------
  // The walk part-way: blocks before `b` and the first `q` instructions of
  // block `b` expanded, the rest as in the input

  ghost function Partial(f: Function, b: nat, q: nat, sigma: Renaming): Function
    requires Terminates(f) && (b < |f| ==> q <= |f[b]|)
  {
    seq(|f|, c requires 0 <= c < |f| =>
      if c < b then WithReplacements(f[c], sigma)
      else if c == b then WithReplacements(f[c][..q], sigma) + f[c][q..]
      else f[c])
  }

  /** Where the walk stands in block `b` when it reaches the `q`-th instruction of the input. */
  ghost function Offset(f: Function, b: nat, q: nat, sigma: Renaming): nat
    requires Terminates(f) && (b < |f| ==> q <= |f[b]|)
  {
    if b < |f| then |WithReplacements(f[b][..q], sigma)| else 0
  }

  lemma {:induction false} WithReplacementsTerminates(s: seq<Instr>, sigma: Renaming)
    requires BlockTerminates(s)
    ensures BlockTerminates(WithReplacements(s, sigma))
  {
    if s != [] {
      WithReplacementsTerminates(s[1..], sigma);
    }
  }

  lemma {:induction false} WithReplacementsAppend(s: seq<Instr>, i: Instr, sigma: Renaming)
    requires BlockTerminates(s) && ShlTerminates(i)
    ensures BlockTerminates(s + [i])
    ensures WithReplacements(s + [i], sigma) == WithReplacements(s, sigma) + Expansion(i, sigma)
  {
    if s == [] {
      assert (s + [i])[1..] == [];
    } else {
      assert (s + [i])[1..] == s[1..] + [i];
      WithReplacementsAppend(s[1..], i, sigma);
    }
  }

  lemma PartialFacts(f: Function, b: nat, q: nat, sigmaF: Renaming, sigma: Renaming)
    requires Terminates(f) && (b < |f| ==> q <= |f[b]|)
    ensures var h := RenameBy(Partial(f, b, q, sigmaF), sigma);
      && |h| == |f| && Terminates(h)
      && (b < |f| ==> |h[b]| == Offset(f, b, q, sigmaF) + |f[b]| - q)
      && (b < |f| && q < |f[b]| ==> h[b][Offset(f, b, q, sigmaF)] == RenameInstrBy(f[b][q], sigma))
  {
    var x := Partial(f, b, q, sigmaF);
    forall c | 0 <= c < |f|
      ensures BlockTerminates(x[c])
    {
      if c < b {
        WithReplacementsTerminates(f[c], sigmaF);
      } else if c == b {
        WithReplacementsTerminates(f[c][..q], sigmaF);
      }
    }
    RenameByTerminates(x, sigma);
    if b < |f| && q < |f[b]| {
      var w := WithReplacements(f[b][..q], sigmaF);
      assert x[b][|w|] == f[b][q..][0];
    }
  }

  lemma PartialAtStart(f: Function, sigma: Renaming)
    requires Terminates(f)
    ensures Partial(f, 0, 0, sigma) == f && Offset(f, 0, 0, sigma) == 0
  {
    forall c | 0 <= c < |f|
      ensures Partial(f, 0, 0, sigma)[c] == f[c]
    {
      if c == 0 {
        assert f[0][..0] == [] && f[0][0..] == f[0];
      }
    }
    if f != [] {
      assert f[0][..0] == [];
    }
  }

  lemma PartialAtEnd(f: Function, b: nat, q: nat, sigma: Renaming)
    requires Terminates(f) && b >= |f|
    ensures Partial(f, b, q, sigma) == Inserted(f, sigma)
  {
  }

  lemma PartialAtBlockEnd(f: Function, b: nat, sigma: Renaming)
    requires Terminates(f) && b < |f|
    ensures Partial(f, b, |f[b]|, sigma) == Partial(f, b + 1, 0, sigma)
    ensures Offset(f, b + 1, 0, sigma) == 0
  {
    var x, y := Partial(f, b, |f[b]|, sigma), Partial(f, b + 1, 0, sigma);
    forall c | 0 <= c < |f|
      ensures x[c] == y[c]
    {
      if c == b {
        assert f[b][..|f[b]|] == f[b] && f[b][|f[b]|..] == [];
      } else if c == b + 1 {
        assert f[c][..0] == [] && f[c][0..] == f[c];
      }
    }
    if b + 1 < |f| {
      assert f[b + 1][..0] == [];
    }
  }

  /** A part-way function is the one before with block `b` replaced. */
  lemma PartialUpdate(f: Function, b: nat, q1: nat, q2: nat, sigma: Renaming)
    requires Terminates(f) && b < |f| && q1 <= |f[b]| && q2 <= |f[b]|
    ensures Partial(f, b, q2, sigma)
      == Partial(f, b, q1, sigma)[b := WithReplacements(f[b][..q2], sigma) + f[b][q2..]]
  {
  }

  lemma KeepBlock(pre: seq<Instr>, i: Instr, post: seq<Instr>, sigma: Renaming)
    requires BlockTerminates(pre) && ShlTerminates(i) && Select(i).Keep?
    ensures BlockTerminates(pre + [i])
    ensures WithReplacements(pre + [i], sigma) + post == WithReplacements(pre, sigma) + ([i] + post)
  {
    WithReplacementsAppend(pre, i, sigma);
  }

  lemma SelectedBlock(pre: seq<Instr>, i: Instr, post: seq<Instr>, sigma: Renaming)
    requires BlockTerminates(pre) && ShlTerminates(i) && !Select(i).Keep?
    ensures BlockTerminates(pre + [i])
    ensures var w := WithReplacements(pre, sigma);
      var x := w + ([i] + post);
      x[..|w| + 1] + [Replacement(Select(i), NewId(sigma, i.id))] + x[|w| + 1..]
        == WithReplacements(pre + [i], sigma) + post
      && |WithReplacements(pre + [i], sigma)| == |w| + 2
  {
    WithReplacementsAppend(pre, i, sigma);
    SpliceAfter(WithReplacements(pre, sigma), i, Replacement(Select(i), NewId(sigma, i.id)), post);
  }

  /** Putting `r` right after `i`, which follows `w`, in `w + [i] + post`. */
  lemma SpliceAfter<T>(w: seq<T>, i: T, r: T, post: seq<T>)
    ensures var x := w + ([i] + post);
      x[..|w| + 1] + [r] + x[|w| + 1..] == w + [i, r] + post
  {
    var x := w + ([i] + post);
    assert x[..|w| + 1] == w + [i];
    assert x[|w| + 1..] == post;
  }

  lemma PartialAfterKeep(f: Function, b: nat, q: nat, sigma: Renaming)
    requires Terminates(f) && b < |f| && q < |f[b]| && Select(f[b][q]).Keep?
    ensures Partial(f, b, q + 1, sigma) == Partial(f, b, q, sigma)
    ensures Offset(f, b, q + 1, sigma) == Offset(f, b, q, sigma) + 1
  {
    var i := f[b][q];
    assert f[b][..q + 1] == f[b][..q] + [i];
    assert f[b][q..] == [i] + f[b][q + 1..];
    KeepBlock(f[b][..q], i, f[b][q + 1..], sigma);
    WithReplacementsAppend(f[b][..q], i, sigma);
    PartialUpdate(f, b, q, q + 1, sigma);
  }

  lemma PartialAfterSelected(f: Function, b: nat, q: nat, sigma: Renaming)
    requires Terminates(f) && b < |f| && q < |f[b]| && !Select(f[b][q]).Keep?
    ensures var i := f[b][q];
      InsertAfter(Partial(f, b, q, sigma), b, Offset(f, b, q, sigma), Replacement(Select(i), NewId(sigma, i.id)))
        == Partial(f, b, q + 1, sigma)
    ensures Offset(f, b, q + 1, sigma) == Offset(f, b, q, sigma) + 2
  {
    var i := f[b][q];
    assert f[b][..q + 1] == f[b][..q] + [i];
    assert f[b][q..] == [i] + f[b][q + 1..];
    SelectedBlock(f[b][..q], i, f[b][q + 1..], sigma);
    PartialUpdate(f, b, q, q + 1, sigma);
  }

  // ---------------------------------------------------------------------
  // One step of the walk on the part-way function

  /** A rewritten instruction is followed by its (kept) replacement, which the walk steps over. */
  lemma ScanSelectedStep(h: Function, b: nat, p: nat, next: InstrId, removed: seq<InstrId>)
    requires Terminates(h) && b < |h| && p < |h[b]| && !Select(h[b][p]).Keep?
    ensures var h' := Rewrite(h, b, p, Replacement(Select(h[b][p]), next));
      && Terminates(h') && |h'| == |h| && p + 2 <= |h'[b]|
      && Scan(h, b, p, next, removed) == Scan(h', b, p + 2, next + 1, removed + [h[b][p].id])
  {
    var n := Replacement(Select(h[b][p]), next);
    RewriteFacts(h, b, p, n);
    var h' := Rewrite(h, b, p, n);
    SelectRenamed(n, h[b][p].id, n.id);
    assert h'[b][p + 1] == RenameInstr(n, h[b][p].id, n.id);
  }

  /** The rewrite at the `q`-th instruction turns the part-way function at `q` into the one at `q + 1`. */
  lemma WalkRewrite(f: Function, b: nat, q: nat, sigmaF: Renaming, sigma: Renaming, next: InstrId)
    requires Terminates(f) && b < |f| && q < |f[b]| && !Select(f[b][q]).Keep?
    requires NewId(sigmaF, f[b][q].id) == next
    requires f[b][q].id !in sigma && forall d :: d in sigma ==> sigma[d] != f[b][q].id
    ensures var h := RenameBy(Partial(f, b, q, sigmaF), sigma);
      var p := Offset(f, b, q, sigmaF);
      && p < |h[b]| && h[b][p] == RenameInstrBy(f[b][q], sigma)
      && Rewrite(h, b, p, RenameInstrBy(Replacement(Select(f[b][q]), next), sigma))
        == RenameBy(Partial(f, b, q + 1, sigmaF), sigma[f[b][q].id := next])
  {
    var i := f[b][q];
    var x := Partial(f, b, q, sigmaF);
    var p := Offset(f, b, q, sigmaF);
    var r := Replacement(Select(i), next);
    PartialFacts(f, b, q, sigmaF, sigma);
    InsertAfterRenamedBy(x, b, p, r, sigma);
    PartialAfterSelected(f, b, q, sigmaF);
    RenameAfterBy(Partial(f, b, q + 1, sigmaF), sigma, i.id, next);
  }

  lemma PendingHere(f: Function, b: nat, q: nat)
    requires b < |f| && q < |f[b]| && !Select(f[b][q]).Keep?
    ensures Pending(f, b, q) == [f[b][q].id] + Pending(f, b, q + 1)
  {
    assert f[b][q..][1..] == f[b][q + 1..];
  }

  /** Handing out fresh identities from `next` equals handing `next` to the head and the rest from `next + 1`. */
  lemma FreshStep(sigma: Renaming, from: InstrId, rest: seq<InstrId>, next: InstrId)
    requires from !in rest
    ensures sigma + Fresh([from] + rest, next) == sigma[from := next] + Fresh(rest, next + 1)
  {
    assert ([from] + rest)[1..] == rest;
  }

  /**
   * `sigmaF` is what `sigma` becomes when the identities `pending` are met
   * in order and handed `next`, `next + 1`, ...: the walk's renamings from
   * here on, one identity at a time.
   */
  ghost predicate Splits(sigmaF: Renaming, sigma: Renaming, pending: seq<InstrId>, next: InstrId)
    decreases |pending|
  {
    if pending == [] then sigmaF == sigma
    else Splits(sigmaF, sigma[pending[0] := next], pending[1..], next + 1)
  }

  /** Handing out one identity at a time, to identities met once each, builds `sigma + Fresh(ids, next)`. */
  lemma {:induction false} SplitsFresh(sigma: Renaming, ids: seq<InstrId>, next: InstrId)
    requires NoDuplicates(ids) && forall d :: d in sigma ==> d !in ids
    ensures Splits(sigma + Fresh(ids, next), sigma, ids, next)
    decreases |ids|
  {
    if ids != [] {
      assert ids == [ids[0]] + ids[1..];
      NoDuplicatesTail(ids[0], ids[1..]);
      FreshStep(sigma, ids[0], ids[1..], next);
      SplitsFresh(sigma[ids[0] := next], ids[1..], next + 1);
    }
  }

  /** An identity already renamed and not met again keeps its image. */
  lemma {:induction false} SplitsKeeps(sigmaF: Renaming, sigma: Renaming, pending: seq<InstrId>, next: InstrId, d: InstrId)
    requires Splits(sigmaF, sigma, pending, next) && d in sigma && d !in pending
    ensures d in sigmaF && sigmaF[d] == sigma[d]
    decreases |pending|
  {
    if pending != [] {
      assert d != pending[0] && d !in pending[1..];
      SplitsKeeps(sigmaF, sigma[pending[0] := next], pending[1..], next + 1, d);
    }
  }

  /** Meeting the next identity hands it `next` for good. */
  lemma SplitsHead(sigmaF: Renaming, sigma: Renaming, from: InstrId, rest: seq<InstrId>, next: InstrId)
    requires Splits(sigmaF, sigma, [from] + rest, next) && from !in rest
    ensures Splits(sigmaF, sigma[from := next], rest, next + 1)
    ensures NewId(sigmaF, from) == next
  {
    assert ([from] + rest)[0] == from && ([from] + rest)[1..] == rest;
    SplitsKeeps(sigmaF, sigma[from := next], rest, next + 1, from);
  }

  /** Over a kept instruction, the walk moves to the next input position. */
  lemma WalkKeepStep(f: Function, sigmaF: Renaming, b: nat, q: nat, sigma: Renaming, next: InstrId, removed: seq<InstrId>)
    requires Terminates(f) && b < |f| && q < |f[b]| && Select(f[b][q]).Keep?
    ensures var h := RenameBy(Partial(f, b, q, sigmaF), sigma);
      && Terminates(h) && Offset(f, b, q, sigmaF) < |h[b]|
      && Offset(f, b, q + 1, sigmaF) == Offset(f, b, q, sigmaF) + 1
      && Scan(h, b, Offset(f, b, q, sigmaF), next, removed) == Scan(h, b, Offset(f, b, q + 1, sigmaF), next, removed)
      && h == RenameBy(Partial(f, b, q + 1, sigmaF), sigma)
  {
    PartialFacts(f, b, q, sigmaF, sigma);
    SelectRenamedBy(f[b][q], sigma);
    PartialAfterKeep(f, b, q, sigmaF);
  }

  /** Over a rewritten instruction and its replacement, the walk moves to the next input position with one more identity renamed. */
  lemma WalkSelectedStep(f: Function, sigmaF: Renaming, b: nat, q: nat, sigma: Renaming, next: InstrId, removed: seq<InstrId>)
    requires Terminates(f) && b < |f| && q < |f[b]| && !Select(f[b][q]).Keep?
    requires NewId(sigmaF, f[b][q].id) == next
    requires f[b][q].id !in sigma && forall d :: d in sigma ==> sigma[d] != f[b][q].id
    ensures var h := RenameBy(Partial(f, b, q, sigmaF), sigma);
      var h' := RenameBy(Partial(f, b, q + 1, sigmaF), sigma[f[b][q].id := next]);
      && Terminates(h) && Offset(f, b, q, sigmaF) <= |h[b]|
      && Terminates(h') && Offset(f, b, q + 1, sigmaF) <= |h'[b]|
      && Scan(h, b, Offset(f, b, q, sigmaF), next, removed)
        == Scan(h', b, Offset(f, b, q + 1, sigmaF), next + 1, removed + [f[b][q].id])
  {
    var i := f[b][q];
    var h := RenameBy(Partial(f, b, q, sigmaF), sigma);
    var p := Offset(f, b, q, sigmaF);
    PartialFacts(f, b, q, sigmaF, sigma);
    PartialFacts(f, b, q + 1, sigmaF, sigma[i.id := next]);
    SelectRenamedBy(i, sigma);
    WalkRewrite(f, b, q, sigmaF, sigma, next);
    ReplacementRenamedBy(Select(i), next, sigma);
    ScanSelectedStep(h, b, p, next, removed);
    PartialAfterSelected(f, b, q, sigmaF);
  }

  lemma NoDuplicatesTail(from: InstrId, rest: seq<InstrId>)
    requires NoDuplicates([from] + rest)
    ensures NoDuplicates(rest) && from !in rest
  {
    forall j, k | 0 <= j < k < |rest|
      ensures rest[j] != rest[k]
    {
      assert rest[j] == ([from] + rest)[j + 1];
      assert rest[k] == ([from] + rest)[k + 1];
    }
    forall k | 0 <= k < |rest|
      ensures rest[k] != from
    {
      assert rest[k] == ([from] + rest)[k + 1];
      assert from == ([from] + rest)[0];
    }
  }

  /** Past the last block the walk stops, and the full map is the one in hand. */
  lemma WalkEnd(f: Function, sigmaF: Renaming, b: nat, q: nat, sigma: Renaming, next: InstrId, removed: seq<InstrId>)
    requires Terminates(f) && b >= |f|
    requires Splits(sigmaF, sigma, Pending(f, b, q), next)
    ensures var h := RenameBy(Partial(f, b, q, sigmaF), sigma);
      Terminates(h) && Scan(h, b, Offset(f, b, q, sigmaF), next, removed).f == RenameBy(Inserted(f, sigmaF), sigmaF)
  {
    PartialFacts(f, b, q, sigmaF, sigma);
    assert sigmaF == sigma;
    PartialAtEnd(f, b, q, sigmaF);
  }

  /** At the end of a block the walk moves to the start of the next. */
  lemma WalkBlockEnd(f: Function, sigmaF: Renaming, b: nat, sigma: Renaming, next: InstrId, removed: seq<InstrId>)
    requires Terminates(f) && b < |f|
    ensures var h := RenameBy(Partial(f, b, |f[b]|, sigmaF), sigma);
      && Terminates(h) && Offset(f, b, |f[b]|, sigmaF) == |h[b]|
      && Offset(f, b + 1, 0, sigmaF) == 0
      && h == RenameBy(Partial(f, b + 1, 0, sigmaF), sigma)
      && Scan(h, b, Offset(f, b, |f[b]|, sigmaF), next, removed) == Scan(h, b + 1, 0, next, removed)
      && Pending(f, b, |f[b]|) == Pending(f, b + 1, 0)
  {
    PartialFacts(f, b, |f[b]|, sigmaF, sigma);
    PartialAtBlockEnd(f, b, sigmaF);
    PendingAtBlockEnd(f, b);
  }

  /** What the walk needs to hold at block `b`, input position `q`. */
  ghost predicate WalkReady(f: Function, sigmaF: Renaming, first: InstrId, b: nat, q: nat,
                            sigma: Renaming, next: InstrId, pending: seq<InstrId>)
  {
    && Terminates(f) && (b < |f| ==> q <= |f[b]|)
    && IdsBelow(f, first) && first <= next
    && (forall d :: d in sigma ==> first <= sigma[d])
    && pending == Pending(f, b, q)
    && NoDuplicates(pending) && (forall d :: d in sigma ==> d !in pending)
    && Splits(sigmaF, sigma, pending, next)
  }

  /** The invariants of the walk carry over a rewritten instruction. */
  lemma WalkSelectedInvariant(f: Function, sigmaF: Renaming, first: InstrId,
                              b: nat, q: nat, sigma: Renaming, next: InstrId, pending: seq<InstrId>)
    returns (sigma': Renaming, rest: seq<InstrId>)
    requires WalkReady(f, sigmaF, first, b, q, sigma, next, pending)
    requires b < |f| && q < |f[b]| && !Select(f[b][q]).Keep?
    ensures sigma' == sigma[f[b][q].id := next] && rest == Pending(f, b, q + 1)
    ensures NewId(sigmaF, f[b][q].id) == next
    ensures f[b][q].id !in sigma && (forall d :: d in sigma ==> sigma[d] != f[b][q].id)
    ensures WalkReady(f, sigmaF, first, b, q + 1, sigma', next + 1, rest)
  {
    var from := f[b][q].id;
    sigma', rest := sigma[from := next], Pending(f, b, q + 1);
    PendingHere(f, b, q);
    NoDuplicatesTail(from, rest);
    SplitsHead(sigmaF, sigma, from, rest, next);
    assert from < first;
  }

  /** `WalkSelectedInvariant` and `WalkSelectedStep` together, stated on the new map by name. */
  lemma WalkSelectedBoth(f: Function, sigmaF: Renaming, first: InstrId,
                         b: nat, q: nat, sigma: Renaming, next: InstrId, pending: seq<InstrId>, removed: seq<InstrId>)
    returns (sigma': Renaming, rest: seq<InstrId>)
    requires WalkReady(f, sigmaF, first, b, q, sigma, next, pending)
    requires b < |f| && q < |f[b]| && !Select(f[b][q]).Keep?
    ensures WalkReady(f, sigmaF, first, b, q + 1, sigma', next + 1, rest)
    ensures var h := RenameBy(Partial(f, b, q, sigmaF), sigma);
      var h' := RenameBy(Partial(f, b, q + 1, sigmaF), sigma');
      && Terminates(h) && Offset(f, b, q, sigmaF) <= |h[b]|
      && Terminates(h') && Offset(f, b, q + 1, sigmaF) <= |h'[b]|
      && Scan(h, b, Offset(f, b, q, sigmaF), next, removed)
        == Scan(h', b, Offset(f, b, q + 1, sigmaF), next + 1, removed + [f[b][q].id])
  {
    sigma', rest := WalkSelectedInvariant(f, sigmaF, first, b, q, sigma, next, pending);
    WalkSelectedStep(f, sigmaF, b, q, sigma, next, removed);
  }

  /**
   * The walk from the part-way function at block `b`, input position `q`,
   * with the identities met so far renamed by `sigma`, ends on the input
   * with every replacement inserted and every operand renamed by
   * `sigmaF`, the full map; `pending` are the identities still to be
   * rewritten.
   */
  lemma {:induction false} WalkShape(f: Function, sigmaF: Renaming, first: InstrId, b: nat, q: nat,
                                     sigma: Renaming, next: InstrId, pending: seq<InstrId>, removed: seq<InstrId>)
    requires WalkReady(f, sigmaF, first, b, q, sigma, next, pending)
    ensures var h := RenameBy(Partial(f, b, q, sigmaF), sigma);
      && Terminates(h) && (b < |h| ==> Offset(f, b, q, sigmaF) <= |h[b]|)
      && Scan(h, b, Offset(f, b, q, sigmaF), next, removed).f == RenameBy(Inserted(f, sigmaF), sigmaF)
    decreases |f| - b, if b < |f| then |f[b]| - q else 0, 1
  {
    PartialFacts(f, b, q, sigmaF, sigma);
    if b >= |f| {
      WalkEnd(f, sigmaF, b, q, sigma, next, removed);
    } else if q == |f[b]| {
      WalkBlockEnd(f, sigmaF, b, sigma, next, removed);
      WalkShape(f, sigmaF, first, b + 1, 0, sigma, next, pending, removed);
    } else if Select(f[b][q]).Keep? {
      WalkKeepStep(f, sigmaF, b, q, sigma, next, removed);
      PendingAfterKeep(f, b, q);
      WalkShape(f, sigmaF, first, b, q + 1, sigma, next, pending, removed);
    } else {
      WalkSelected(f, sigmaF, first, b, q, sigma, next, pending, removed);
    }
  }

  /** `WalkShape` at a rewritten instruction. */
  lemma {:induction false} WalkSelected(f: Function, sigmaF: Renaming, first: InstrId, b: nat, q: nat,
                                        sigma: Renaming, next: InstrId, pending: seq<InstrId>, removed: seq<InstrId>)
    requires WalkReady(f, sigmaF, first, b, q, sigma, next, pending)
    requires b < |f| && q < |f[b]| && !Select(f[b][q]).Keep?
    ensures var h := RenameBy(Partial(f, b, q, sigmaF), sigma);
      && Terminates(h) && Offset(f, b, q, sigmaF) <= |h[b]|
      && Scan(h, b, Offset(f, b, q, sigmaF), next, removed).f == RenameBy(Inserted(f, sigmaF), sigmaF)
    decreases |f| - b, |f[b]| - q, 0
  {
    var sigma', rest := WalkSelectedBoth(f, sigmaF, first, b, q, sigma, next, pending, removed);
    WalkShape(f, sigmaF, first, b, q + 1, sigma', next + 1, rest, removed + [f[b][q].id]);
  }

  // ---------------------------------------------------------------------
  // The walk from the start

  /** Every identity `SelectedIn` lists is that of an instruction of the segment. */
  lemma {:induction false} SelectedInWitness(s: seq<Instr>, k: nat) returns (p: nat)
    requires k < |SelectedIn(s)|
    ensures p < |s| && s[p].id == SelectedIn(s)[k] && !Select(s[p]).Keep?
    decreases |s|
  {
    var head := if Select(s[0]).Keep? then [] else [s[0].id];
    assert SelectedIn(s) == head + SelectedIn(s[1..]);
    if k < |head| {
      p := 0;
    } else {
      var p' := SelectedInWitness(s[1..], k - |head|);
      p := p' + 1;
    }
  }

  /** Every identity `SelectedFrom` lists is that of an instruction in block `b` or later. */
  lemma {:induction false} SelectedFromWitness(f: Function, b: nat, k: nat) returns (c: nat, p: nat)
    requires k < |SelectedFrom(f, b)|
    ensures b <= c < |f| && p < |f[c]| && f[c][p].id == SelectedFrom(f, b)[k] && !Select(f[c][p]).Keep?
    decreases |f| - b
  {
    if k < |SelectedIn(f[b])| {
      c := b;
      p := SelectedInWitness(f[b], k);
    } else {
      c, p := SelectedFromWitness(f, b + 1, k - |SelectedIn(f[b])|);
    }
  }

  lemma NoDuplicatesAppend(a: seq<InstrId>, b: seq<InstrId>)
    requires NoDuplicates(a) && NoDuplicates(b)
    requires forall j, k :: 0 <= j < |a| && 0 <= k < |b| ==> a[j] != b[k]
    ensures NoDuplicates(a + b)
  {
    forall j, k | 0 <= j < k < |a + b|
      ensures (a + b)[j] != (a + b)[k]
    {
      if k < |a| {
        assert (a + b)[j] == a[j] && (a + b)[k] == a[k];
      } else if j < |a| {
        assert (a + b)[j] == a[j] && (a + b)[k] == b[k - |a|];
      } else {
        assert (a + b)[j] == b[j - |a|] && (a + b)[k] == b[k - |a|];
      }
    }
  }

  /** A segment whose instructions have distinct identities lists each rewritten one once. */
  lemma {:induction false} SelectedInNoDuplicates(s: seq<Instr>)
    requires forall p, q :: 0 <= p < q < |s| ==> s[p].id != s[q].id
    ensures NoDuplicates(SelectedIn(s))
    decreases |s|
  {
    if s != [] {
      var head := if Select(s[0]).Keep? then [] else [s[0].id];
      var tail := SelectedIn(s[1..]);
      assert SelectedIn(s) == head + tail;
      forall p, q | 0 <= p < q < |s[1..]|
        ensures s[1..][p].id != s[1..][q].id
      {
        assert s[1..][p] == s[p + 1] && s[1..][q] == s[q + 1];
      }
      SelectedInNoDuplicates(s[1..]);
      forall j, k | 0 <= j < |head| && 0 <= k < |tail|
        ensures head[j] != tail[k]
      {
        var p := SelectedInWitness(s[1..], k);
        assert s[1..][p] == s[p + 1];
      }
      NoDuplicatesAppend(head, tail);
    }
  }

  /** With identities unique, the walk's rewritten identities from block `b` on are listed once each. */
  lemma {:induction false} SelectedFromNoDuplicates(f: Function, b: nat)
    requires UniqueIds(f)
    ensures NoDuplicates(SelectedFrom(f, b))
    decreases |f| - b
  {
    if b < |f| {
      SelectedInNoDuplicates(f[b]);
      SelectedFromNoDuplicates(f, b + 1);
      var here, later := SelectedIn(f[b]), SelectedFrom(f, b + 1);
      forall j, k | 0 <= j < |here| && 0 <= k < |later|
        ensures here[j] != later[k]
      {
        var p := SelectedInWitness(f[b], j);
        var c, p' := SelectedFromWitness(f, b + 1, k);
      }
      NoDuplicatesAppend(here, later);
    }
  }

  /**
   * The walk over a function whose identities are unique and below `first`
   * leaves `Walked(f, first)`: every replacement inserted right after the
   * instruction it replaces, and every use of a rewritten instruction
   * renamed to its replacement, the `k`-th rewritten one getting
   * `first + k` (`FreshAt`).
   */
  lemma WalkResult(f: Function, first: InstrId, removed: seq<InstrId>)
    requires Terminates(f) && IdsBelow(f, first) && UniqueIds(f)
    ensures Scan(f, 0, 0, first, removed).f == Walked(f, first)
  {
    var sigmaF := FreshIds(f, first);
    var pending := Pending(f, 0, 0);
    if f != [] {
      assert f[0][0..] == f[0];
    }
    assert pending == SelectedFrom(f, 0);
    SelectedFromNoDuplicates(f, 0);
    SplitsFresh(map[], pending, first);
    assert map[] + Fresh(pending, first) == sigmaF;
    WalkShape(f, sigmaF, first, 0, 0, map[], first, pending, removed);
    PartialAtStart(f, sigmaF);
    RenameByNothing(f);
  }

  // ---------------------------------------------------------------------
  // The erase after the walk

  /** The instructions of `s` whose identities are not in `ids`, in order. */
  function Without(s: seq<Instr>, ids: seq<InstrId>): seq<Instr> {
    if s == [] then [] else (if s[0].id in ids then [] else [s[0]]) + Without(s[1..], ids)
  }

  /** Erasing `x` and then the identities `rest` leaves what erasing both at once leaves. */
  lemma {:induction false} WithoutAfterErase(s: seq<Instr>, x: InstrId, rest: seq<InstrId>)
    ensures Without(EraseFromBlock(s, x), rest) == Without(s, [x] + rest)
    decreases |s|
  {
    if s != [] {
      WithoutAfterErase(s[1..], x, rest);
      if s[0].id != x {
        assert ([s[0]] + EraseFromBlock(s[1..], x))[1..] == EraseFromBlock(s[1..], x);
      }
    }
  }

  /** Each block after `EraseAll` keeps exactly its instructions whose identities are not listed. */
  lemma {:induction false} EraseAllBlock(f: Function, ids: seq<InstrId>, b: nat)
    requires b < |f|
    ensures EraseAll(f, ids)[b] == Without(f[b], ids)
    decreases |ids|
  {
    if ids == [] {
      WithoutNothing(f[b]);
    } else {
      EraseAllBlock(Erase(f, ids[0]), ids[1..], b);
      WithoutAfterErase(f[b], ids[0], ids[1..]);
      assert [ids[0]] + ids[1..] == ids;
    }
  }

  lemma {:induction false} WithoutNothing(s: seq<Instr>)
    ensures Without(s, []) == s
    decreases |s|
  {
    if s != [] {
      WithoutNothing(s[1..]);
      assert [s[0]] + s[1..] == s;
    }
  }

  lemma {:induction false} WithoutAppend(s: seq<Instr>, t: seq<Instr>, ids: seq<InstrId>)
    ensures Without(s + t, ids) == Without(s, ids) + Without(t, ids)
    decreases |s|
  {
    if s != [] {
      assert (s + t)[0] == s[0] && (s + t)[1..] == s[1..] + t;
      WithoutAppend(s[1..], t, ids);
    } else {
      assert s + t == t;
    }
  }

  /** Renaming operands keeps identities, so it commutes with erasing by identity. */
  lemma {:induction false} WithoutRenamed(s: seq<Instr>, sigma: Renaming, ids: seq<InstrId>)
    ensures Without(RenameBlockBy(s, sigma), ids) == RenameBlockBy(Without(s, ids), sigma)
    decreases |s|
  {
    if s != [] {
      var t := RenameBlockBy(s, sigma);
      assert t[1..] == RenameBlockBy(s[1..], sigma);
      WithoutRenamed(s[1..], sigma, ids);
      var head := if s[0].id in ids then [] else [s[0]];
      assert RenameBlockBy(head + Without(s[1..], ids), sigma)
        == RenameBlockBy(head, sigma) + RenameBlockBy(Without(s[1..], ids), sigma);
    }
  }

  /** An instruction as it stands once the walk and the erase are done: kept, or swapped for its replacement. */
  ghost function Swap(i: Instr, sigma: Renaming): Instr
    requires ShlTerminates(i)
  {
    if Select(i).Keep? then i else Replacement(Select(i), NewId(sigma, i.id))
  }

  /** A block with every rewritten instruction swapped for its replacement, in place. */
  ghost function Swapped(s: seq<Instr>, sigma: Renaming): (r: seq<Instr>)
    requires BlockTerminates(s)
    ensures |r| == |s| && forall k :: 0 <= k < |s| ==> r[k] == Swap(s[k], sigma)
  {
    seq(|s|, k requires 0 <= k < |s| => Swap(s[k], sigma))
  }

  /**
   * The function the pass leaves: each instruction where it was, the
   * rewritten ones swapped for their replacements, and every use of a
   * rewritten instruction renamed to its replacement.
   */
  ghost function InPlace(f: Function, sigma: Renaming): Function
    requires Terminates(f)
  {
    RenameBy(seq(|f|, b requires 0 <= b < |f| => Swapped(f[b], sigma)), sigma)
  }

  /** What erasing by identity leaves of one instruction followed by its replacement. */
  lemma WithoutOneExpansion(i: Instr, sigma: Renaming, ids: seq<InstrId>)
    requires ShlTerminates(i)
    requires Select(i).Keep? ==> i.id !in ids
    requires !Select(i).Keep? ==> i.id in ids && NewId(sigma, i.id) !in ids
    ensures Without(Expansion(i, sigma), ids) == [Swap(i, sigma)]
  {
    var e := Expansion(i, sigma);
    if Select(i).Keep? {
      assert e[1..] == [];
      assert Without(e, ids) == [i] + Without([], ids);
    } else {
      assert e[1..][1..] == [];
      assert Without(e[1..], ids) == [e[1]] + Without([], ids);
    }
  }

  lemma SwappedCons(s: seq<Instr>, sigma: Renaming)
    requires s != [] && BlockTerminates(s)
    ensures BlockTerminates(s[1..])
    ensures Swapped(s, sigma) == [Swap(s[0], sigma)] + Swapped(s[1..], sigma)
  {
    assert forall k :: 0 <= k < |s[1..]| ==> s[1..][k] == s[k + 1];
  }

  lemma WithoutExpansionTail(s: seq<Instr>, sigma: Renaming, ids: seq<InstrId>)
    requires s != [] && BlockTerminates(s)
    requires forall k :: 0 <= k < |s| && Select(s[k]).Keep? ==> s[k].id !in ids
    requires forall k :: 0 <= k < |s| && !Select(s[k]).Keep? ==> s[k].id in ids && NewId(sigma, s[k].id) !in ids
    ensures var t := s[1..];
      && BlockTerminates(t)
      && (forall k :: 0 <= k < |t| && Select(t[k]).Keep? ==> t[k].id !in ids)
      && (forall k :: 0 <= k < |t| && !Select(t[k]).Keep? ==> t[k].id in ids && NewId(sigma, t[k].id) !in ids)
  {
    assert forall k :: 0 <= k < |s[1..]| ==> s[1..][k] == s[k + 1];
  }

  /** Erasing the rewritten instructions, and nothing else, from a block with its replacements inserted swaps them in place. */
  lemma {:induction false} WithoutExpansion(s: seq<Instr>, sigma: Renaming, ids: seq<InstrId>)
    requires BlockTerminates(s)
    requires forall k :: 0 <= k < |s| && Select(s[k]).Keep? ==> s[k].id !in ids
    requires forall k :: 0 <= k < |s| && !Select(s[k]).Keep? ==> s[k].id in ids && NewId(sigma, s[k].id) !in ids
    ensures Without(WithReplacements(s, sigma), ids) == Swapped(s, sigma)
    decreases |s|
  {
    if s != [] {
      var t := s[1..];
      WithoutExpansionTail(s, sigma, ids);
      WithoutExpansion(t, sigma, ids);
      WithoutAppend(Expansion(s[0], sigma), WithReplacements(t, sigma), ids);
      WithoutOneExpansion(s[0], sigma, ids);
      SwappedCons(s, sigma);
    }
  }

  /** A rewritten instruction of the segment is listed by `SelectedIn`. */
  lemma {:induction false} SelectedInHas(s: seq<Instr>, k: nat)
    requires k < |s| && !Select(s[k]).Keep?
    ensures s[k].id in SelectedIn(s)
    decreases |s|
  {
    var head := if Select(s[0]).Keep? then [] else [s[0].id];
    assert SelectedIn(s) == head + SelectedIn(s[1..]);
    if k > 0 {
      assert s[1..][k - 1] == s[k];
      SelectedInHas(s[1..], k - 1);
    }
  }

  /** A rewritten instruction in block `c` is listed by `SelectedFrom` from any block up to `c`. */
  lemma {:induction false} SelectedFromHas(f: Function, b: nat, c: nat, k: nat)
    requires b <= c < |f| && k < |f[c]| && !Select(f[c][k]).Keep?
    ensures f[c][k].id in SelectedFrom(f, b)
    decreases c - b
  {
    if b == c {
      SelectedInHas(f[c], k);
    } else {
      SelectedFromHas(f, b + 1, c, k);
    }
  }

  /** What block `b` of the function the pass leaves holds. */
  lemma RunInPlaceBlock(f: Function, first: InstrId, removed: seq<InstrId>, b: nat)
    requires Terminates(f) && UniqueIds(f) && IdsBelow(f, first)
    requires forall d :: d in removed ==> d < first && !HasInstr(f, d)
    requires b < |f|
    ensures EraseAll(Walked(f, first), removed + SelectedFrom(f, 0))[b]
      == RenameBlockBy(Swapped(f[b], FreshIds(f, first)), FreshIds(f, first))
  {
    var sigma := FreshIds(f, first);
    var selected := SelectedFrom(f, 0);
    var ids := removed + selected;
    var s := f[b];
    forall j | 0 <= j < |selected|
      ensures selected[j] < first
    {
      var c, p := SelectedFromWitness(f, 0, j);
    }
    forall k | 0 <= k < |s|
      ensures Select(s[k]).Keep? ==> s[k].id !in ids
      ensures !Select(s[k]).Keep? ==> s[k].id in ids && NewId(sigma, s[k].id) !in ids
    {
      if Select(s[k]).Keep? {
        assert HasInstr(f, s[k].id);
        forall j | 0 <= j < |selected|
          ensures selected[j] != s[k].id
        {
          var c, p := SelectedFromWitness(f, 0, j);
        }
      } else {
        SelectedFromHas(f, 0, b, k);
      }
    }
    assert BlockTerminates(s);
    EraseAllBlock(Walked(f, first), ids, b);
    WithoutRenamed(WithReplacements(s, sigma), sigma, ids);
    WithoutExpansion(s, sigma, ids);
  }

  /**
   * Once the walk is done and the removal list erased, each instruction of
   * the input sits where it was, the rewritten ones swapped for their
   * replacements and every use renamed: the pass edits in place.  The
   * removal list may hold identities from earlier functions, none of which
   * is in `f`.
   */
  lemma RunInPlace(f: Function, first: InstrId, removed: seq<InstrId>)
    requires Terminates(f) && UniqueIds(f) && IdsBelow(f, first)
    requires forall d :: d in removed ==> d < first && !HasInstr(f, d)
    ensures EraseAll(Walked(f, first), removed + SelectedFrom(f, 0)) == InPlace(f, FreshIds(f, first))
  {
    var g := EraseAll(Walked(f, first), removed + SelectedFrom(f, 0));
    var h := InPlace(f, FreshIds(f, first));
    forall b | 0 <= b < |f|
      ensures g[b] == h[b]
    {
      RunInPlaceBlock(f, first, removed, b);
    }
  }

  /**
   * Position by position, the function the pass leaves: a kept instruction
   * keeps its identity and every operand it had, renamed; a rewritten one
   * is its replacement, with the fresh identity, in the same place.
   */
  lemma InPlaceAt(f: Function, sigma: Renaming, b: nat, k: nat)
    requires Terminates(f) && b < |f| && k < |f[b]|
    ensures var g := InPlace(f, sigma);
      |g| == |f| && |g[b]| == |f[b]|
    ensures var i, n := f[b][k], InPlace(f, sigma)[b][k];
      Select(i).Keep? ==> n.id == i.id && forall d :: InstrUses(i, d) ==> InstrUses(n, NewId(sigma, d))
    ensures var i, n := f[b][k], InPlace(f, sigma)[b][k];
      !Select(i).Keep? ==> n == RenameInstrBy(Replacement(Select(i), NewId(sigma, i.id)), sigma)
  {
    var i := f[b][k];
    forall d | InstrUses(i, d)
      ensures InstrUses(RenameInstrBy(i, sigma), NewId(sigma, d))
    {
      RenameInstrByUses(i, sigma, d);
    }
  }
}
