/**
 * The strength-reduction pass object: `removeAllInstructions`, which
 * collects a call and everything after it in its block, and
 * `runOnFunction`, the walk followed by the deferred erase.
 */
module StrengthPass {
  import opened StrengthBits
  import opened StrengthIr
  import opened StrengthScan
  import opened StrengthWalk

  // ---------------------------------------------------------------------
  // `removeAllInstructions`

  /** The position of the first instruction of `s` with identity `id`, or `|s|` when there is none. */
  function FirstIndex(s: Block, id: InstrId): (j: nat)
    ensures j <= |s|
    ensures forall k :: 0 <= k < j ==> s[k].id != id
    ensures j < |s| ==> s[j].id == id
  {
    if s == [] then 0 else if s[0].id == id then 0 else 1 + FirstIndex(s[1..], id)
  }

  /** The identities from the instruction `id` to the end of the block; none when `id` is not in it. */
  function SuffixFrom(s: Block, id: InstrId): seq<InstrId> {
    Ids(s[FirstIndex(s, id)..])
  }

  /**
   * What `removeAllInstructions` collects: the identities of the block from
   * the first instruction `id` on, none when there is no such instruction.
   */
  lemma SuffixFromSpec(s: Block, id: InstrId)
    ensures var r := SuffixFrom(s, id);
      |r| <= |s| && r == Ids(s)[|s| - |r|..] &&
      (r == [] <==> forall k :: 0 <= k < |s| ==> s[k].id != id) &&
      (r != [] ==> r[0] == id && id !in Ids(s)[..|s| - |r|])
  {
    var j := FirstIndex(s, id);
    var r := SuffixFrom(s, id);
    assert |r| == |s| - j;
    forall k | 0 <= k < |r|
      ensures r[k] == Ids(s)[j..][k]
    {
      assert r[k] == s[j..][k].id == s[j + k].id;
    }
    if r != [] {
      forall k | 0 <= k < j
        ensures Ids(s)[..j][k] != id
      {
      }
    }
  }

  /** The state of the `removeAllInstructions` loop after the first `k` instructions of `s`. */
  ghost predicate Collecting(s: Block, id: InstrId, k: nat, found: bool, collected: seq<InstrId>) {
    var j := FirstIndex(s, id);
    k <= |s| && (found <==> j < k) && collected == (if found then Ids(s[j..k]) else [])
  }

  lemma CollectingStep(s: Block, id: InstrId, k: nat, collected: seq<InstrId>)
    requires k < |s| && (Collecting(s, id, k, true, collected) || (Collecting(s, id, k, false, collected) && s[k].id == id))
    ensures Collecting(s, id, k + 1, true, collected + [s[k].id])
  {
    var j := FirstIndex(s, id);
    assert s[j..k + 1] == s[j..k] + [s[k]];
  }

  lemma AppendOne(a: seq<InstrId>, b: seq<InstrId>, x: InstrId)
    ensures a + (b + [x]) == (a + b) + [x]
  {
  }

  lemma CollectingSkip(s: Block, id: InstrId, k: nat, collected: seq<InstrId>)
    requires k < |s| && Collecting(s, id, k, false, collected) && s[k].id != id
    ensures Collecting(s, id, k + 1, false, collected)
  {
  }

  lemma CollectingDone(s: Block, id: InstrId, found: bool, collected: seq<InstrId>)
    requires Collecting(s, id, |s|, found, collected)
    ensures collected == SuffixFrom(s, id)
  {
    if !found {
      assert s[|s|..] == [];
    }
  }

  // ---------------------------------------------------------------------
  // The deferred erase

  /** `eraseFromParent` on each listed instruction in turn. */
  method EraseListed(f: Function, ids: seq<InstrId>) returns (g: Function)
    ensures g == EraseAll(f, ids)
  {
    g := f;
    var k := 0;
    while k < |ids|
      invariant k <= |ids|
      invariant EraseAll(g, ids[k..]) == EraseAll(f, ids)
    {
      assert ids[k..][1..] == ids[k + 1..];
      g := Erase(g, ids[k]);
      k := k + 1;
    }
  }

  // ---------------------------------------------------------------------
  // The pass object

  class StrengthReduction {
    /** Instructions to erase once the walk is over. */
    var instructionsToRemove: seq<InstrId>
    /** Instructions recorded for copying into a new block. */
    var instructionsToCopy: seq<InstrId>

    constructor()
      ensures instructionsToRemove == [] && instructionsToCopy == []
    {
      instructionsToRemove := [];
      instructionsToCopy := [];
    }

    /**
     * Appends the call `callId` and every instruction after it in `bb`, in
     * block order, to both lists; the instructions before the call are not
     * recorded.
     */
    method RemoveAllInstructions(bb: Block, callId: InstrId)
      modifies this
      ensures instructionsToRemove == old(instructionsToRemove) + SuffixFrom(bb, callId)
      ensures instructionsToCopy == old(instructionsToCopy) + SuffixFrom(bb, callId)
    {
      ghost var collected: seq<InstrId> := [];
      var found := false;
      var k := 0;
      while k < |bb|
        invariant k <= |bb| && Collecting(bb, callId, k, found, collected)
        invariant instructionsToRemove == old(instructionsToRemove) + collected
        invariant instructionsToCopy == old(instructionsToCopy) + collected
      {
        if bb[k].id == callId {
          found := true;
        }
        if found {
          CollectingStep(bb, callId, k, collected);
          AppendOne(old(instructionsToRemove), collected, bb[k].id);
          AppendOne(old(instructionsToCopy), collected, bb[k].id);
          collected := collected + [bb[k].id];
          instructionsToRemove := instructionsToRemove + [bb[k].id];
          instructionsToCopy := instructionsToCopy + [bb[k].id];
        } else {
          CollectingSkip(bb, callId, k, collected);
        }
        k := k + 1;
      }
      CollectingDone(bb, callId, found, collected);
    }

    /**
     * The inner loop of `runOnFunction` over block `b` of `f`: it leaves the
     * walk at the start of the next block, with the function, the next fresh
     * identity and the removal list as `Scan` has them there.
     */
    method RunOnBlock(f: Function, b: nat, next: InstrId) returns (g: Function, next': InstrId)
      requires Terminates(f) && b < |f|
      modifies this
      ensures |g| == |f| && Terminates(g)
      ensures Scan(g, b + 1, 0, next', instructionsToRemove) == Scan(f, b, 0, next, old(instructionsToRemove))
      ensures instructionsToCopy == old(instructionsToCopy)
    {
      g, next' := f, next;
      var p := 0;
      while p < |g[b]|
        invariant |g| == |f| && p <= |g[b]| && Terminates(g)
        invariant Scan(g, b, p, next', instructionsToRemove) == Scan(f, b, 0, next, old(instructionsToRemove))
        invariant instructionsToCopy == old(instructionsToCopy)
        decreases MulSRemCount(g[b][p..]), |g[b]| - p
      {
        var i := g[b][p];
        var s := Select(i);
        MulSRemCountStep(g[b], p);
        if !s.Keep? {
          var n;
          if s.ToShl? {
            var power := PowerOfTwo(s.c);
            n := Binary(next', Shl, s.x, ConstInt(power));
          } else {
            n := Binary(next', And, s.x, ConstInt(s.c - 1));
          }
          assert n == Replacement(s, next');
          RewriteFacts(g, b, p, n);
          g := Rewrite(g, b, p, n);
          instructionsToRemove := instructionsToRemove + [i.id];
          next' := next' + 1;
        }
        p := p + 1;
      }
    }

    /**
     * One run over `f`: the walk rewrites as `Scan` says, then every
     * instruction on the removal list is erased.  `firstId` is the first
     * identity the new instructions may take.
     */
    method RunOnFunction(f: Function, firstId: InstrId) returns (g: Function, changed: bool)
      requires Terminates(f)
      modifies this
      ensures var s := Scan(f, 0, 0, firstId, old(instructionsToRemove));
        instructionsToRemove == s.removed && g == EraseAll(s.f, s.removed)
      ensures instructionsToRemove == old(instructionsToRemove) + SelectedFrom(f, 0)
      ensures forall d :: d in SelectedFrom(f, 0) ==> !HasInstr(g, d)
      ensures IdsBelow(f, firstId) ==> forall d :: d in SelectedFrom(f, 0) ==> !Uses(g, d)
      ensures SelectedFrom(g, 0) == []
      ensures instructionsToCopy == old(instructionsToCopy)
      ensures changed
      ensures (UniqueIds(f) && IdsBelow(f, firstId) &&
               (forall d :: d in old(instructionsToRemove) ==> d < firstId && !HasInstr(f, d))) ==>
        g == InPlace(f, FreshIds(f, firstId))
    {
      ghost var goal := Scan(f, 0, 0, firstId, old(instructionsToRemove));
      g := f;
      var next := firstId;
      var b := 0;
      while b < |g|
        invariant |g| == |f| && b <= |g| && Terminates(g)
        invariant Scan(g, b, 0, next, instructionsToRemove) == goal
        invariant instructionsToCopy == old(instructionsToCopy)
        decreases |g| - b
      {
        g, next := RunOnBlock(g, b, next);
        b := b + 1;
      }
      ScanRemovesSelectedOfFunction(f, firstId, old(instructionsToRemove));
      ScanSettles(f, 0, 0, firstId, old(instructionsToRemove));
      if IdsBelow(f, firstId) {
        ScanLeavesNoUse(f, 0, 0, firstId, old(instructionsToRemove), {});
        if f != [] {
          assert f[0][0..] == f[0];
        }
      }
      ghost var scanned := g;
      g := EraseListed(g, instructionsToRemove);
      SettledEraseSelectsNothing(scanned, instructionsToRemove, 0);
      forall d | d in SelectedFrom(f, 0)
        ensures !HasInstr(g, d) && (IdsBelow(f, firstId) ==> !Uses(g, d))
      {
        EraseAllHasInstr(scanned, instructionsToRemove, d);
        if Uses(g, d) {
          EraseAllUses(scanned, instructionsToRemove, d);
        }
      }
      if UniqueIds(f) && IdsBelow(f, firstId) &&
        forall d :: d in old(instructionsToRemove) ==> d < firstId && !HasInstr(f, d)
      {
        WalkResult(f, firstId, old(instructionsToRemove));
        RunInPlace(f, firstId, old(instructionsToRemove));
      }
      changed := true;
    }
  }
}
