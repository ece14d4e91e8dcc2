/**
 * What one invocation of the function-merging pass guarantees about the
 * module: which functions it may erase, which it must erase, which it
 * never touches, and that no call is left targeting an erased function.
 */
module MergeProperties {
  import opened MergeIr
  import opened MergeCompare
  import opened MergePass

  /** A function the scan may examine: not `main` and not a declaration. */
  predicate IsCandidate(f: Function) {
    f.name != "main" && !IsDeclaration(f)
  }

  // ---------------------------------------------------------------------
  // Erasing

  lemma {:induction false} KeepMembers(fs: seq<Function>, ids: seq<FuncId>)
    ensures forall f :: f in Keep(fs, ids) <==> f in fs && f.id !in ids
  {
    if |fs| != 0 {
      KeepMembers(fs[1..], ids);
      assert fs == [fs[0]] + fs[1..];
    }
  }

  lemma {:induction false} KeepExtend(fs: seq<Function>, ids: seq<FuncId>, g: FuncId)
    ensures Keep(Keep(fs, ids), [g]) == Keep(fs, ids + [g])
  {
    if |fs| != 0 {
      KeepExtend(fs[1..], ids, g);
      if fs[0].id in ids {
        assert Keep(fs, ids) == Keep(fs[1..], ids);
      } else {
        var k := Keep(fs, ids);
        assert k == [fs[0]] + Keep(fs[1..], ids);
        assert k[1..] == Keep(fs[1..], ids);
      }
    }
  }

  /** Erasing the queued functions one by one keeps exactly the others, in module order. */
  lemma {:induction false} EraseAllKeeps(m: Module, ids: seq<FuncId>)
    ensures EraseAll(m, ids).functions == Keep(m.functions, ids)
    decreases |ids|
  {
    if |ids| == 0 {
      KeepNone(m.functions);
    } else {
      var init := ids[..|ids| - 1];
      EraseAllKeeps(m, init);
      KeepExtend(m.functions, init, ids[|ids| - 1]);
      assert init + [ids[|ids| - 1]] == ids;
    }
  }

  lemma {:induction false} KeepNone(fs: seq<Function>)
    ensures Keep(fs, []) == fs
  {
    if |fs| != 0 {
      KeepNone(fs[1..]);
    }
  }

  lemma NoCallToKept(m: Module, ids: seq<FuncId>, g: FuncId)
    requires NoCallTo(m, g)
    ensures NoCallTo(Module(Keep(m.functions, ids)), g)
  {
    var k := Keep(m.functions, ids);
    KeepMembers(m.functions, ids);
    forall fi, bi, ii | 0 <= fi < |k| && 0 <= bi < |k[fi].blocks| && 0 <= ii < |k[fi].blocks[bi]|
      ensures !(k[fi].blocks[bi][ii].Call? && k[fi].blocks[bi][ii].callee == FuncRef(g))
    {
      assert k[fi] in m.functions;
      var fj :| 0 <= fj < |m.functions| && m.functions[fj] == k[fi];
    }
  }

  // ---------------------------------------------------------------------
  // Facts about retargeted modules

  lemma RetargetedWellFormed(a: Module, b: Module, fid: FuncId)
    requires ModuleRetargeted(a, b, fid) && WellFormed(a)
    ensures WellFormed(b)
  {
    forall i, j | 0 <= i < j < |b.functions| ensures b.functions[i].id != b.functions[j].id {
      assert SameHeader(a.functions[i], b.functions[i]) && SameHeader(a.functions[j], b.functions[j]);
    }
  }

  lemma RetargetedUseEmpty(a: Module, b: Module, fid: FuncId, g: FuncId)
    requires ModuleRetargeted(a, b, fid) && g != fid && UseEmpty(a, g)
    ensures UseEmpty(b, g)
  {
    forall fi, bi, ii |
      0 <= fi < |b.functions| && 0 <= bi < |b.functions[fi].blocks| && 0 <= ii < |b.functions[fi].blocks[bi]|
      ensures !Mentions(b.functions[fi].blocks[bi][ii], g)
    {
      assert FunctionRetargeted(a.functions[fi], b.functions[fi], fid);
      var x := a.functions[fi].blocks[bi][ii];
      assert !Mentions(x, g);
      if x.Call? {
        assert Operands(x) == [x.callee] + x.args;
        assert Operands(Call(FuncRef(fid), x.args)) == [FuncRef(fid)] + x.args;
      }
    }
  }

  lemma UseEmptyNoCall(m: Module, g: FuncId)
    requires UseEmpty(m, g)
    ensures NoCallTo(m, g)
  {
    forall fi, bi, ii |
      0 <= fi < |m.functions| && 0 <= bi < |m.functions[fi].blocks| && 0 <= ii < |m.functions[fi].blocks[bi]|
      ensures !(m.functions[fi].blocks[bi][ii].Call? && m.functions[fi].blocks[bi][ii].callee == FuncRef(g))
    {
      var x := m.functions[fi].blocks[bi][ii];
      assert !Mentions(x, g);
      if x.Call? {
        assert Operands(x)[0] == x.callee;
      }
    }
  }

  // ---------------------------------------------------------------------
  // The scan

  /** When the current function is `main` or a declaration, the scan does nothing. */
  lemma {:induction false} ScanSkipsAll(m: Module, fIdx: nat, i: nat, q: seq<FuncId>, r: set<FuncId>)
    requires fIdx < |m.functions| && !IsCandidate(m.functions[fIdx])
    ensures Scan(m, fIdx, i, q, r) == ScanState(m, q, r)
    decreases |m.functions| - i
  {
    if i < |m.functions| && !IsDeclaration(m.functions[fIdx]) {
      ScanSkipsAll(m, fIdx, i + 1, q, r);
    }
  }

  /** Whether visiting `g` queues it: it is dead, or a duplicate of `f`. */
  predicate Merges(m: Module, f: Function, g: Function) {
    UseEmpty(m, g.id) || (EqualArguments(f, g) && CheckSyntax(f, g))
  }

  /** The module after visiting a function that merges: unchanged if dead, retargeted otherwise. */
  function Visit(m: Module, fid: FuncId, g: FuncId): Module {
    if UseEmpty(m, g) then m else RedirectCalls(m, fid, g)
  }

  lemma VisitRetargets(m: Module, fid: FuncId, g: FuncId)
    ensures ModuleRetargeted(m, Visit(m, fid, g), fid)
  {
    if UseEmpty(m, g) {
      ModuleRetargetedReflexive(m, fid);
    } else {
      RedirectCallsRetargets(m, fid, g);
    }
  }

  /** One step of the scan over a candidate before the current function. */
  lemma ScanStep(m: Module, fIdx: nat, i: nat, q: seq<FuncId>, r: set<FuncId>)
    requires i < fIdx < |m.functions|
    requires IsCandidate(m.functions[fIdx]) && m.functions[fIdx].id !in r && IsCandidate(m.functions[i])
    ensures var f, g := m.functions[fIdx], m.functions[i];
      Scan(m, fIdx, i, q, r) ==
        if Merges(m, f, g) then Scan(Visit(m, f.id, g.id), fIdx, i + 1, q + [g.id], r + {g.id})
        else Scan(m, fIdx, i + 1, q, r)
  {
  }

  /** The step of the scan that merges the function at `i` into the current one. */
  lemma ScanMerges(m: Module, fIdx: nat, i: nat, q: seq<FuncId>, r: set<FuncId>) returns (m': Module)
    requires i < fIdx < |m.functions|
    requires IsCandidate(m.functions[fIdx]) && m.functions[fIdx].id !in r && IsCandidate(m.functions[i])
    requires Merges(m, m.functions[fIdx], m.functions[i])
    ensures m' == Visit(m, m.functions[fIdx].id, m.functions[i].id)
    ensures ModuleRetargeted(m, m', m.functions[fIdx].id)
    ensures m'.functions[fIdx].id == m.functions[fIdx].id && IsCandidate(m'.functions[fIdx])
    ensures Scan(m, fIdx, i, q, r) == Scan(m', fIdx, i + 1, q + [m.functions[i].id], r + {m.functions[i].id})
  {
    ScanStep(m, fIdx, i, q, r);
    m' := Visit(m, m.functions[fIdx].id, m.functions[i].id);
    VisitRetargets(m, m.functions[fIdx].id, m.functions[i].id);
    assert SameHeader(m.functions[fIdx], m'.functions[fIdx]);
  }

  /**
   * Where the scan of a candidate goes from index `i`: it stops there, or it
   * goes on at `i + 1` from `m'`, `q'` and `r'`, which are `m`, `q` and `r`
   * unless the function at `i` merged into the current one.
   */
  lemma ScanNext(m: Module, fIdx: nat, i: nat, q: seq<FuncId>, r: set<FuncId>)
      returns (stop: bool, merged: bool, m': Module, q': seq<FuncId>, r': set<FuncId>)
    requires i <= fIdx < |m.functions| && IsCandidate(m.functions[fIdx])
    ensures stop ==> Scan(m, fIdx, i, q, r) == ScanState(m, q, r)
    ensures !stop ==> (
      && i < fIdx && ModuleRetargeted(m, m', m.functions[fIdx].id)
      && m'.functions[fIdx].id == m.functions[fIdx].id && IsCandidate(m'.functions[fIdx])
      && Scan(m, fIdx, i, q, r) == Scan(m', fIdx, i + 1, q', r'))
    ensures !merged ==> m' == m && q' == q && r' == r
    ensures merged ==> (
      && !stop && m.functions[fIdx].id !in r
      && IsCandidate(m.functions[i]) && Merges(m, m.functions[fIdx], m.functions[i])
      && m' == Visit(m, m.functions[fIdx].id, m.functions[i].id)
      && q' == q + [m.functions[i].id] && r' == r + {m.functions[i].id})
  {
    var f := m.functions[fIdx];
    var other := m.functions[i];
    stop, merged, m', q', r' := true, false, m, q, r;
    ModuleRetargetedReflexive(m, f.id);
    if i == fIdx || f.id in r {
      if i < fIdx && !IsCandidate(other) {
        stop := false;
      }
    } else if !IsCandidate(other) {
      stop := false;
    } else {
      stop := false;
      ScanStep(m, fIdx, i, q, r);
      if Merges(m, f, other) {
        merged := true;
        m' := ScanMerges(m, fIdx, i, q, r);
        q', r' := q + [other.id], r + {other.id};
      }
    }
  }

  /** The scan only retargets calls to the current function. */
  lemma {:induction false} ScanRetargets(m: Module, fIdx: nat, i: nat, q: seq<FuncId>, r: set<FuncId>)
    requires i <= fIdx < |m.functions|
    ensures ModuleRetargeted(m, Scan(m, fIdx, i, q, r).m, m.functions[fIdx].id)
    decreases |m.functions| - i
  {
    var f := m.functions[fIdx];
    ModuleRetargetedReflexive(m, f.id);
    if !IsCandidate(f) {
      ScanSkipsAll(m, fIdx, i, q, r);
    } else {
      var stop, merged, m', q', r' := ScanNext(m, fIdx, i, q, r);
      if !stop {
        ScanRetargets(m', fIdx, i + 1, q', r');
        ModuleRetargetedTransitive(m, m', Scan(m, fIdx, i, q, r).m, f.id);
      }
    }
  }

  /** `s` extends queue `q` and marks exactly the newly queued functions as replaced. */
  ghost predicate Extends(s: ScanState, q: seq<FuncId>, r: set<FuncId>) {
    && |q| <= |s.queue| && s.queue[..|q|] == q
    && (forall g :: g in s.replaced <==> g in r || g in s.queue[|q|..])
  }

  /** A state that extends `q` by `g` and more extends `q`, with `g` next after it. */
  lemma ExtendsCons(s: ScanState, q: seq<FuncId>, g: FuncId, r: set<FuncId>)
    requires Extends(s, q + [g], r + {g})
    ensures Extends(s, q, r) && |q| < |s.queue| && s.queue[|q|] == g
  {
    assert s.queue[..|q|] == s.queue[..|q| + 1][..|q|];
    assert s.queue[|q|..] == [g] + s.queue[|q| + 1..];
    assert s.queue[..|q| + 1][|q|] == g;
  }

  /**
   * The scan only appends to the queue, records in `replaced` exactly what
   * it queues, and queues nothing unless the current function is a
   * candidate not yet replaced.
   */
  lemma {:induction false} ScanExtends(m: Module, fIdx: nat, i: nat, q: seq<FuncId>, r: set<FuncId>)
    requires i <= fIdx < |m.functions|
    ensures Extends(Scan(m, fIdx, i, q, r), q, r)
    ensures |Scan(m, fIdx, i, q, r).queue| > |q| ==> IsCandidate(m.functions[fIdx]) && m.functions[fIdx].id !in r
    decreases |m.functions| - i
  {
    var f := m.functions[fIdx];
    if !IsCandidate(f) {
      ScanSkipsAll(m, fIdx, i, q, r);
    } else {
      var stop, merged, m', q', r' := ScanNext(m, fIdx, i, q, r);
      if !stop {
        ScanExtends(m', fIdx, i + 1, q', r');
        if merged {
          ExtendsCons(Scan(m, fIdx, i, q, r), q, m.functions[i].id, r);
        }
      }
    }
  }

  /** The identities of the candidates at indices `lo` up to (not including) `hi`. */
  ghost function CandidateIds(m: Module, lo: nat, hi: nat): set<FuncId>
    requires hi <= |m.functions|
  {
    set j | lo <= j < hi && IsCandidate(m.functions[j]) :: m.functions[j].id
  }

  /** Every entry of `queue` past `q` names a candidate at an index in `[lo, fIdx)`. */
  ghost predicate QueuedFrom(m: Module, fIdx: nat, lo: nat, q: seq<FuncId>, queue: seq<FuncId>) {
    fIdx < |m.functions|
    && forall k :: |q| <= k < |queue| ==> queue[k] in CandidateIds(m, lo, fIdx)
  }

  /** Retargeting keeps headers, so dropping index `lo` only shrinks the candidate set. */
  lemma CandidateIdsShrink(m: Module, m': Module, fid: FuncId, lo: nat, hi: nat)
    requires ModuleRetargeted(m, m', fid) && hi <= |m.functions|
    ensures CandidateIds(m', lo + 1, hi) <= CandidateIds(m, lo, hi)
  {
    forall g | g in CandidateIds(m', lo + 1, hi) ensures g in CandidateIds(m, lo, hi) {
      var j :| lo + 1 <= j < hi && IsCandidate(m'.functions[j]) && m'.functions[j].id == g;
      assert SameHeader(m.functions[j], m'.functions[j]);
    }
  }

  /** What the scan queues from `i + 1` on in `m'` it queues from `i` on in `m`, with the function at `i` if it merged. */
  lemma QueuedFromStep(m: Module, m': Module, fIdx: nat, i: nat, q: seq<FuncId>, q': seq<FuncId>,
                       queue: seq<FuncId>, merged: bool)
    requires i < fIdx < |m.functions| && ModuleRetargeted(m, m', m.functions[fIdx].id)
    requires QueuedFrom(m', fIdx, i + 1, q', queue)
    requires !merged ==> q' == q
    requires merged ==> (IsCandidate(m.functions[i]) && q' == q + [m.functions[i].id]
      && |q'| <= |queue| && queue[..|q'|] == q')
    ensures QueuedFrom(m, fIdx, i, q, queue)
  {
    CandidateIdsShrink(m, m', m.functions[fIdx].id, i, fIdx);
    if merged {
      assert queue[..|q'|][|q|] == m.functions[i].id;
      assert m.functions[i].id in CandidateIds(m, i, fIdx);
    }
  }

  /** Every function the scan queues is a candidate standing before the current function. */
  lemma {:induction false} ScanQueuesEarlierCandidates(m: Module, fIdx: nat, i: nat, q: seq<FuncId>, r: set<FuncId>)
    requires i <= fIdx < |m.functions|
    ensures QueuedFrom(m, fIdx, i, q, Scan(m, fIdx, i, q, r).queue)
    decreases |m.functions| - i
  {
    var f := m.functions[fIdx];
    if !IsCandidate(f) {
      ScanSkipsAll(m, fIdx, i, q, r);
    } else {
      var stop, merged, m', q', r' := ScanNext(m, fIdx, i, q, r);
      if !stop {
        ScanQueuesEarlierCandidates(m', fIdx, i + 1, q', r');
        if merged {
          ScanExtends(m', fIdx, i + 1, q', r');
        }
        QueuedFromStep(m, m', fIdx, i, q, q', Scan(m', fIdx, i + 1, q', r').queue, merged);
      }
    }
  }

  lemma ScanFacts(m: Module, fIdx: nat, i: nat, q: seq<FuncId>, r: set<FuncId>)
    requires i <= fIdx < |m.functions|
    ensures var s := Scan(m, fIdx, i, q, r);
      && ModuleRetargeted(m, s.m, m.functions[fIdx].id)
      && Extends(s, q, r)
      && QueuedFrom(m, fIdx, i, q, s.queue)
      && (|s.queue| > |q| ==> IsCandidate(m.functions[fIdx]) && m.functions[fIdx].id !in r)
  {
    ScanRetargets(m, fIdx, i, q, r);
    ScanExtends(m, fIdx, i, q, r);
    ScanQueuesEarlierCandidates(m, fIdx, i, q, r);
  }

  /**
   * A candidate before the current function that, in the module as it was
   * when the scan started, had no uses or passed both comparisons against
   * the current function is queued.
   */
  lemma {:induction false} ScanQueuesMergeable(m0: Module, m: Module, fIdx: nat, i: nat, q: seq<FuncId>, r: set<FuncId>, j: nat)
    requires WellFormed(m0) && fIdx < |m0.functions|
    requires ModuleRetargeted(m0, m, m0.functions[fIdx].id)
    requires i <= j < fIdx
    requires IsCandidate(m0.functions[fIdx]) && m0.functions[fIdx].id !in r
    requires IsCandidate(m0.functions[j]) && Merges(m0, m0.functions[fIdx], m0.functions[j])
    ensures m0.functions[j].id in Scan(m, fIdx, i, q, r).queue
    decreases |m.functions| - i
  {
    if i == j {
      ScanQueuesMergeableHere(m0, m, fIdx, i, q, r);
    } else {
      var m', q', r' := ScanAdvance(m0, m, fIdx, i, q, r);
      ScanQueuesMergeable(m0, m', fIdx, i + 1, q', r', j);
    }
  }

  /**
   * One step of the scan before the current function, as seen from the
   * module `m0` it started on: it goes on at the next index from a module
   * that is still `m0` retargeted, without the current function in `r`.
   */
  lemma ScanAdvance(m0: Module, m: Module, fIdx: nat, i: nat, q: seq<FuncId>, r: set<FuncId>)
      returns (m': Module, q': seq<FuncId>, r': set<FuncId>)
    requires WellFormed(m0) && fIdx < |m0.functions| && i < fIdx
    requires ModuleRetargeted(m0, m, m0.functions[fIdx].id)
    requires IsCandidate(m0.functions[fIdx]) && m0.functions[fIdx].id !in r
    ensures ModuleRetargeted(m0, m', m0.functions[fIdx].id) && m0.functions[fIdx].id !in r'
    ensures Scan(m, fIdx, i, q, r) == Scan(m', fIdx, i + 1, q', r')
  {
    var fid := m0.functions[fIdx].id;
    var f := m.functions[fIdx];
    var other := m.functions[i];
    assert FunctionRetargeted(m0.functions[fIdx], f, fid);
    assert FunctionRetargeted(m0.functions[i], other, fid);
    assert f.id == fid && other.id != fid;
    m', q', r' := m, q, r;
    if IsCandidate(other) {
      ScanStep(m, fIdx, i, q, r);
      if Merges(m, f, other) {
        m', q', r' := Visit(m, fid, other.id), q + [other.id], r + {other.id};
        VisitRetargets(m, fid, other.id);
        ModuleRetargetedTransitive(m0, m, m', fid);
      }
    }
  }

  /** The step of `ScanQueuesMergeable` at the candidate itself: it merges in `m` too, and is queued. */
  lemma ScanQueuesMergeableHere(m0: Module, m: Module, fIdx: nat, i: nat, q: seq<FuncId>, r: set<FuncId>)
    requires WellFormed(m0) && fIdx < |m0.functions|
    requires ModuleRetargeted(m0, m, m0.functions[fIdx].id)
    requires i < fIdx
    requires IsCandidate(m0.functions[fIdx]) && m0.functions[fIdx].id !in r
    requires IsCandidate(m0.functions[i]) && Merges(m0, m0.functions[fIdx], m0.functions[i])
    ensures m0.functions[i].id in Scan(m, fIdx, i, q, r).queue
  {
    var fid := m0.functions[fIdx].id;
    var g := m0.functions[i].id;
    var f := m.functions[fIdx];
    var other := m.functions[i];
    assert FunctionRetargeted(m0.functions[fIdx], f, fid);
    assert FunctionRetargeted(m0.functions[i], other, fid);
    assert f.id == fid && other.id == g && g != fid;
    MergesInRetargeted(m0, m, fIdx, i);
    var m' := ScanMerges(m, fIdx, i, q, r);
    ScanExtends(m', fIdx, i + 1, q + [g], r + {g});
    ExtendsCons(Scan(m', fIdx, i + 1, q + [g], r + {g}), q, g, r);
  }

  /** Retargeting calls to the current function keeps a pair mergeable. */
  lemma MergesInRetargeted(m0: Module, m: Module, fIdx: nat, i: nat)
    requires WellFormed(m0) && fIdx < |m0.functions| && i < fIdx
    requires ModuleRetargeted(m0, m, m0.functions[fIdx].id)
    requires Merges(m0, m0.functions[fIdx], m0.functions[i])
    ensures Merges(m, m.functions[fIdx], m.functions[i])
  {
    var fid := m0.functions[fIdx].id;
    var g := m0.functions[i].id;
    var f := m.functions[fIdx];
    var other := m.functions[i];
    assert FunctionRetargeted(m0.functions[fIdx], f, fid);
    assert FunctionRetargeted(m0.functions[i], other, fid);
    if !UseEmpty(m, g) {
      if UseEmpty(m0, g) {
        RetargetedUseEmpty(m0, m, fid, g);
      }
      ComparisonsIgnoreCallees(m0.functions[fIdx], f, m0.functions[i], other, fid);
    }
  }

  /** No call in `m` targets any function listed in `q`. */
  ghost predicate Uncalled(m: Module, q: seq<FuncId>) {
    forall g :: g in q ==> NoCallTo(m, g)
  }

  /** No call in the scanned module targets a queued function. */
  lemma {:induction false} ScanNoCallToQueued(m: Module, fIdx: nat, i: nat, q: seq<FuncId>, r: set<FuncId>)
    requires WellFormed(m) && i <= fIdx < |m.functions|
    requires Uncalled(m, q) && m.functions[fIdx].id !in q
    ensures Uncalled(Scan(m, fIdx, i, q, r).m, Scan(m, fIdx, i, q, r).queue)
    decreases |m.functions| - i
  {
    var f := m.functions[fIdx];
    if !IsCandidate(f) {
      ScanSkipsAll(m, fIdx, i, q, r);
    } else {
      var stop, merged, m', q', r' := ScanNext(m, fIdx, i, q, r);
      if !stop {
        if merged {
          var g := m.functions[i].id;
          assert g != f.id;
          VisitUncalled(m, f.id, g, q);
          RetargetedWellFormed(m, m', f.id);
        }
        ScanNoCallToQueued(m', fIdx, i + 1, q', r');
      }
    }
  }

  /** Visiting `g` leaves no call to it and keeps every other queued function uncalled. */
  lemma VisitUncalled(m: Module, fid: FuncId, g: FuncId, q: seq<FuncId>)
    requires Uncalled(m, q) && fid !in q && fid != g
    ensures Uncalled(Visit(m, fid, g), q + [g])
  {
    if UseEmpty(m, g) {
      UseEmptyNoCall(m, g);
    } else {
      RedirectCallsUses(m, fid, g);
    }
  }

  /** With nothing dead and nothing duplicate before the current function, the scan changes nothing. */
  lemma {:induction false} ScanNoChange(m: Module, fIdx: nat, i: nat, q: seq<FuncId>, r: set<FuncId>)
    requires i <= fIdx < |m.functions|
    requires forall j :: i <= j < fIdx && IsCandidate(m.functions[j]) ==>
      !UseEmpty(m, m.functions[j].id)
      && !(EqualArguments(m.functions[fIdx], m.functions[j]) && CheckSyntax(m.functions[fIdx], m.functions[j]))
    ensures Scan(m, fIdx, i, q, r) == ScanState(m, q, r)
    decreases |m.functions| - i
  {
    if !IsCandidate(m.functions[fIdx]) {
      ScanSkipsAll(m, fIdx, i, q, r);
    } else if i < fIdx {
      ScanNoChange(m, fIdx, i + 1, q, r);
    }
  }

  // ---------------------------------------------------------------------
  // One invocation

  /**
   * Only candidates standing before the current function are erased, and
   * only when the current function is itself a candidate not yet replaced;
   * `AlreadyReplaced` grows by exactly the erased functions.
   */
  lemma MergeOnceErasesOnlyEarlierCandidates(m: Module, fIdx: nat, r: set<FuncId>)
    requires fIdx < |m.functions|
    ensures var out := MergeOnce(m, fIdx, r);
      && (forall g :: g in out.erased ==>
            exists j :: 0 <= j < fIdx && m.functions[j].id == g && IsCandidate(m.functions[j]))
      && (out.erased != [] ==> IsCandidate(m.functions[fIdx]) && m.functions[fIdx].id !in r)
      && (forall g :: g in out.replaced <==> g in r || g in out.erased)
  {
    ScanFacts(m, fIdx, 0, [], r);
    var s := Scan(m, fIdx, 0, [], r);
    assert s.queue[0..] == s.queue;
    forall g | g in s.queue
      ensures exists j :: 0 <= j < fIdx && m.functions[j].id == g && IsCandidate(m.functions[j])
    {
      var k :| 0 <= k < |s.queue| && s.queue[k] == g;
      assert g in CandidateIds(m, 0, fIdx);
    }
  }

  /**
   * The current function, every function after it, `main` and every
   * declaration survive the invocation.
   */
  lemma MergeOnceKeepsProtected(m: Module, fIdx: nat, r: set<FuncId>)
    requires WellFormed(m) && fIdx < |m.functions|
    ensures var out := MergeOnce(m, fIdx, r);
      forall j :: 0 <= j < |m.functions| && (fIdx <= j || !IsCandidate(m.functions[j])) ==>
        m.functions[j].id !in out.erased && HasFunction(out.m, m.functions[j].id)
  {
    forall j | 0 <= j < |m.functions| && (fIdx <= j || !IsCandidate(m.functions[j]))
      ensures var out := MergeOnce(m, fIdx, r);
        m.functions[j].id !in out.erased && HasFunction(out.m, m.functions[j].id)
    {
      MergeOnceKeeps(m, fIdx, r, j);
    }
  }

  lemma MergeOnceKeeps(m: Module, fIdx: nat, r: set<FuncId>, j: nat)
    requires WellFormed(m) && fIdx < |m.functions|
    requires j < |m.functions| && (fIdx <= j || !IsCandidate(m.functions[j]))
    ensures var out := MergeOnce(m, fIdx, r);
      m.functions[j].id !in out.erased && HasFunction(out.m, m.functions[j].id)
  {
    var s := Scan(m, fIdx, 0, [], r);
    ScanFacts(m, fIdx, 0, [], r);
    NotEarlierCandidate(m, fIdx, j);
    assert FunctionRetargeted(m.functions[j], s.m.functions[j], m.functions[fIdx].id);
    EraseAllSpares(s.m, s.queue, j);
  }

  /** A function at or after `fIdx`, or one that is no candidate, is not among the candidates before `fIdx`. */
  lemma NotEarlierCandidate(m: Module, fIdx: nat, j: nat)
    requires WellFormed(m) && fIdx <= |m.functions|
    requires j < |m.functions| && (fIdx <= j || !IsCandidate(m.functions[j]))
    ensures m.functions[j].id !in CandidateIds(m, 0, fIdx)
  {
    forall j' | 0 <= j' < fIdx && IsCandidate(m.functions[j'])
      ensures m.functions[j'].id != m.functions[j].id
    {
      assert j' != j;
    }
  }

  /** A function whose identity is not listed survives the erase. */
  lemma EraseAllSpares(m: Module, ids: seq<FuncId>, j: nat)
    requires j < |m.functions| && m.functions[j].id !in ids
    ensures HasFunction(EraseAll(m, ids), m.functions[j].id)
  {
    EraseAllKeeps(m, ids);
    KeepMembers(m.functions, ids);
    var out := EraseAll(m, ids);
    assert m.functions[j] in out.functions;
    var k :| 0 <= k < |out.functions| && out.functions[k] == m.functions[j];
  }

  /**
   * A candidate before the current function that has no uses, or that
   * passes both comparisons against it, is erased and recorded as replaced.
   */
  lemma MergeOnceErasesDeadAndDuplicates(m: Module, fIdx: nat, r: set<FuncId>, j: nat)
    requires WellFormed(m) && j < fIdx < |m.functions|
    requires IsCandidate(m.functions[fIdx]) && m.functions[fIdx].id !in r
    requires IsCandidate(m.functions[j])
    requires UseEmpty(m, m.functions[j].id)
      || (EqualArguments(m.functions[fIdx], m.functions[j]) && CheckSyntax(m.functions[fIdx], m.functions[j]))
    ensures var out := MergeOnce(m, fIdx, r);
      m.functions[j].id in out.erased && m.functions[j].id in out.replaced && !HasFunction(out.m, m.functions[j].id)
  {
    var s := Scan(m, fIdx, 0, [], r);
    ModuleRetargetedReflexive(m, m.functions[fIdx].id);
    ScanQueuesMergeable(m, m, fIdx, 0, [], r, j);
    ScanFacts(m, fIdx, 0, [], r);
    assert s.queue[0..] == s.queue;
    EraseAllKeeps(s.m, s.queue);
    KeepMembers(s.m.functions, s.queue);
  }

  /** No erased function survives, and no call in the resulting module targets one. */
  lemma MergeOnceNoCallToErased(m: Module, fIdx: nat, r: set<FuncId>)
    requires WellFormed(m) && fIdx < |m.functions|
    ensures var out := MergeOnce(m, fIdx, r);
      forall g :: g in out.erased ==> !HasFunction(out.m, g) && NoCallTo(out.m, g)
  {
    var s := Scan(m, fIdx, 0, [], r);
    ScanNoCallToQueued(m, fIdx, 0, [], r);
    EraseAllKeeps(s.m, s.queue);
    KeepMembers(s.m.functions, s.queue);
    forall g | g in s.queue ensures NoCallTo(EraseAll(s.m, s.queue), g) {
      NoCallToKept(s.m, s.queue, g);
    }
  }

  /**
   * A duplicate that is still used other than as a callee is erased all the
   * same.  `h` passes `@g` as an argument to a call; the use is a call, so
   * the call is retargeted to the survivor `f`, `g` is erased, and the
   * retargeted call still names `g` among its arguments.
   */
  lemma MergeOnceErasesStillMentioned()
    ensures var g := Function(0, "g", [], 1, [[Ret(NonConst(0, 1))]]);
      var f := Function(1, "f", [], 1, [[Ret(NonConst(0, 1))]]);
      var h := Function(2, "h", [], 1, [[Call(FuncRef(7), [FuncRef(0)])]]);
      var out := MergeOnce(Module([g, f, h]), 1, {});
      out.erased == [0] && !HasFunction(out.m, 0) &&
      out.m.functions == [f, h.(blocks := [[Call(FuncRef(1), [FuncRef(0)])]])] &&
      Mentions(out.m.functions[1].blocks[0][0], 0)
  {
    var g := Function(0, "g", [], 1, [[Ret(NonConst(0, 1))]]);
    var f := Function(1, "f", [], 1, [[Ret(NonConst(0, 1))]]);
    var h := Function(2, "h", [], 1, [[Call(FuncRef(7), [FuncRef(0)])]]);
    var h' := h.(blocks := [[Call(FuncRef(1), [FuncRef(0)])]]);
    StillMentionedScan(g, f, h, h');
    StillMentionedKeep(g, f, h');
  }

  /** The three functions of the example above, with `h'` the caller after retargeting. */
  predicate StillMentionedExample(g: Function, f: Function, h: Function, h': Function) {
    && g == Function(0, "g", [], 1, [[Ret(NonConst(0, 1))]])
    && f == Function(1, "f", [], 1, [[Ret(NonConst(0, 1))]])
    && h == Function(2, "h", [], 1, [[Call(FuncRef(7), [FuncRef(0)])]])
    && h' == h.(blocks := [[Call(FuncRef(1), [FuncRef(0)])]])
  }

  lemma StillMentionedRedirect(g: Function, f: Function, h: Function, h': Function)
    requires StillMentionedExample(g, f, h, h')
    ensures RedirectCalls(Module([g, f, h]), 1, 0).functions == [g, f, h']
  {
    var m' := RedirectCalls(Module([g, f, h]), 1, 0);
    forall j | 0 <= j < 3
      ensures m'.functions[j] == [g, f, h'][j]
    {
      assert m'.functions[j].blocks[0][0] == [g, f, h'][j].blocks[0][0];
      assert m'.functions[j].blocks[0] == [g, f, h'][j].blocks[0];
      assert m'.functions[j].blocks == [g, f, h'][j].blocks;
    }
  }

  lemma StillMentionedScan(g: Function, f: Function, h: Function, h': Function)
    requires StillMentionedExample(g, f, h, h')
    ensures Scan(Module([g, f, h]), 1, 0, [], {}) == ScanState(Module([g, f, h']), [0], {0})
  {
    var m := Module([g, f, h]);
    assert Mentions(m.functions[2].blocks[0][0], 0);
    assert !UseEmpty(m, 0);
    assert EqualArguments(f, g) && CheckSyntax(f, g);
    StillMentionedRedirect(g, f, h, h');
    assert RedirectCalls(m, 1, 0) == Module([g, f, h']);
  }

  lemma StillMentionedKeep(g: Function, f: Function, h': Function)
    requires g.id == 0 && f.id == 1 && h'.id == 2
    ensures Keep([g, f, h'], [0]) == [f, h']
  {
    assert [h'][1..] == [];
    assert Keep([h'], [0]) == [h'];
    assert [f, h'][1..] == [h'];
    assert Keep([f, h'], [0]) == [f, h'];
    assert [g, f, h'][1..] == [f, h'];
  }

  /**
   * The resulting module is the input with some calls retargeted to the
   * current function and the erased functions removed, the survivors in
   * their original order.
   */
  lemma MergeOnceOnlyRetargetsAndErases(m: Module, fIdx: nat, r: set<FuncId>)
    requires fIdx < |m.functions|
    ensures var out := MergeOnce(m, fIdx, r);
      exists ms :: ModuleRetargeted(m, ms, m.functions[fIdx].id) && out.m.functions == Keep(ms.functions, out.erased)
  {
    var s := Scan(m, fIdx, 0, [], r);
    ScanFacts(m, fIdx, 0, [], r);
    EraseAllKeeps(s.m, s.queue);
  }

  /**
   * When no candidate before the current function is dead or a duplicate
   * of it (in particular when the current function is `main`, a
   * declaration or already replaced), the invocation changes nothing.
   */
  lemma MergeOnceIdentity(m: Module, fIdx: nat, r: set<FuncId>)
    requires fIdx < |m.functions|
    requires forall j :: 0 <= j < fIdx && IsCandidate(m.functions[j]) ==>
      !UseEmpty(m, m.functions[j].id)
      && !(EqualArguments(m.functions[fIdx], m.functions[j]) && CheckSyntax(m.functions[fIdx], m.functions[j]))
    ensures MergeOnce(m, fIdx, r) == Outcome(m, r, [])
  {
    ScanNoChange(m, fIdx, 0, [], r);
  }

  lemma MergeOnceSkipsNonCandidate(m: Module, fIdx: nat, r: set<FuncId>)
    requires fIdx < |m.functions|
    requires !IsCandidate(m.functions[fIdx]) || m.functions[fIdx].id in r
    ensures MergeOnce(m, fIdx, r) == Outcome(m, r, [])
  {
    if !IsCandidate(m.functions[fIdx]) {
      ScanSkipsAll(m, fIdx, 0, [], r);
    } else {
      ScanAlreadyReplaced(m, fIdx, 0, r);
    }
  }

  lemma {:induction false} ScanAlreadyReplaced(m: Module, fIdx: nat, i: nat, r: set<FuncId>)
    requires i <= fIdx < |m.functions|
    requires IsCandidate(m.functions[fIdx]) && m.functions[fIdx].id in r
    ensures Scan(m, fIdx, i, [], r) == ScanState(m, [], r)
    decreases fIdx - i
  {
    if !IsCandidate(m.functions[i]) {
      ScanAlreadyReplaced(m, fIdx, i + 1, r);
    }
  }
}
