/** `setupTimeOptimizer.ts`: the Held-Karp search over a bitmask table and the cost of a
    sequence read from the in-memory setup matrix. */
module SetupTimeOptimizer {
  import opened Common
  import opened Bitmask
  import opened SetupMatrix
  import opened HeldKarp

  /** `calculateTotalSetupTimeFromCache`: the sum of the transitions of `sequence`, or the
      first transition the matrix lacks. */
  method CalculateTotalSetupTimeFromCache(sequence: seq<Code>, cache: SetupMatrixCache) returns (r: Result<nat>)
    ensures r == PathCost(sequence, cache)
  {
    if |sequence| <= 1 {
      return Ok(0);
    }
    var totalTime := 0;
    var i := 0;
    while i < |sequence| - 1
      invariant 0 <= i <= |sequence| - 1
      invariant PathCost(sequence[..i + 1], cache) == Ok(totalTime)
    {
      var fromCode, toCode := sequence[i], sequence[i + 1];
      var setupTime := Lookup(cache, fromCode, toCode);
      PathCostOkIffAllPairsPresent(sequence[..i + 1], cache);
      ghost var done := sequence[..i + 1];
      assert forall j :: 0 <= j <= i ==> done[j] == sequence[j];
      if setupTime.None? {
        PathCostFailsAtFirstGap(sequence, cache, i);
        return Err(SetupTimeNotFound(fromCode, toCode));
      }
      assert sequence[..i + 2] == sequence[..i + 1] + [toCode];
      PathCostOfAppend(sequence[..i + 1], toCode, cache);
      totalTime := totalTime + setupTime.value;
      i := i + 1;
    }
    assert sequence[..i + 1] == sequence;
    return Ok(totalTime);
  }

  /** `dp[M][l]` during the pass over `mask`, once the predecessors `0 .. k-1` have been
      tried for the successor `l`: cells written by earlier passes hold their final value
      and cells of later passes are still absent. */
  ghost function Pending(codes: seq<Code>, cache: SetupMatrixCache, M: nat, l: nat, mask: nat, k: nat): Cell
    requires l < |codes| && k <= |codes|
  {
    if l == 0 || !Bit(M, l) then TableCell(codes, cache, M, l)
    else
      BitLowerBound(M, l);
      if M - Pow2(l) < mask then TableCell(codes, cache, M, l)
      else if M - Pow2(l) == mask then Relaxed(codes, cache, mask, l, k)
      else Empty
  }

  /** Every transition the passes over masks below `mask` looked up was present. */
  ghost predicate ProbedBelow(codes: seq<Code>, cache: SetupMatrixCache, mask: nat)
  {
    forall M, l, x ::
      (0 <= M < mask && 0 <= l < |codes| && 0 <= x < |codes|
       && Bit(M, l) && !Bit(M, x) && TableCell(codes, cache, M, l).Entry?) ==>
        Lookup(cache, codes[l], codes[x]).Some?
  }

  /** The table every pass expects: `Pow2(n)` rows of `n` cells. */
  ghost predicate TableShape(codes: seq<Code>, dp: array2<Cell>)
    reads {}
  {
    dp.Length0 == Pow2(|codes|) && dp.Length1 == |codes|
  }

  lemma {:induction false} RelaxedOverZero(codes: seq<Code>, cache: SetupMatrixCache, next: nat, k: nat)
    requires next < |codes| && k <= |codes|
    ensures Relaxed(codes, cache, 0, next, k) == Empty
  {
    if k > 0 {
      RelaxedOverZero(codes, cache, next, k - 1);
      NoBitsOfZero(k - 1);
    }
  }

  /** The table right after `dp[1][0] = { time: 0, prev: -1 }` is the table expected
      before the pass over mask 1. */
  lemma InitialTable(codes: seq<Code>, cache: SetupMatrixCache, M: nat, l: nat)
    requires l < |codes|
    ensures Pending(codes, cache, M, l, 1, 0) == if M == 1 && l == 0 then Entry(0, -1) else Empty
  {
    if l != 0 && Bit(M, l) {
      BitLowerBound(M, l);
      if M - Pow2(l) == 0 {
        RelaxedOverZero(codes, cache, l, |codes|);
      }
    }
  }

  /** Adding a successor to a mask reaches the cell that the pass over that mask relaxes. */
  lemma Successor(codes: seq<Code>, cache: SetupMatrixCache, mask: nat, last: nat, next: nat)
    requires mask < Pow2(|codes|) && last < |codes| && next < |codes|
    requires TableCell(codes, cache, mask, last).Entry? && !Bit(mask, next)
    ensures next != 0 && last != next
    ensures mask + Pow2(next) < Pow2(|codes|) && Bit(mask + Pow2(next), next)
    ensures forall k :: 0 <= k <= |codes| ==>
      Pending(codes, cache, mask + Pow2(next), next, mask, k) == Relaxed(codes, cache, mask, next, k)
  {
    EntryHoldsStart(codes, cache, mask, last);
    SetBitStaysBelow(mask, |codes|, next);
    SetBit(mask, next, next);
  }

  /** A successor already in the mask has no cell that the pass over the mask relaxes. */
  lemma NoSuccessorInMask(codes: seq<Code>, cache: SetupMatrixCache, mask: nat, next: nat, k1: nat, k2: nat)
    requires next < |codes| && k1 <= |codes| && k2 <= |codes| && Bit(mask, next)
    ensures forall M: nat :: Pending(codes, cache, M, next, mask, k1) == Pending(codes, cache, M, next, mask, k2)
  {
    forall M: nat | next != 0 && Bit(M, next)
      ensures M - Pow2(next) != mask
    {
      ClearedBitIsClear(M, next);
    }
  }

  /** The inner loop of the fill: relax `dp[mask | (1 << next)][next]` from `last` for every
      `next` outside the mask, or report the first such `next` whose transition is missing. */
  method RelaxSuccessors(codes: seq<Code>, cache: SetupMatrixCache, dp: array2<Cell>, mask: nat, last: nat, currentTime: nat)
    returns (missing: Option<nat>)
    requires TableShape(codes, dp) && mask < Pow2(|codes|) && last < |codes|
    requires TableCell(codes, cache, mask, last).Entry? && currentTime == TableCell(codes, cache, mask, last).time
    requires forall M, l :: 0 <= M < dp.Length0 && 0 <= l < dp.Length1 ==>
      dp[M, l] == Pending(codes, cache, M, l, mask, last)
    modifies dp
    ensures missing.None? ==> forall M, l :: 0 <= M < dp.Length0 && 0 <= l < dp.Length1 ==>
      dp[M, l] == Pending(codes, cache, M, l, mask, last + 1)
    ensures missing.None? ==> forall x :: 0 <= x < |codes| && !Bit(mask, x) ==>
      Lookup(cache, codes[last], codes[x]).Some?
    ensures missing.Some? ==>
      missing.value < |codes| && !Bit(mask, missing.value) && Lookup(cache, codes[last], codes[missing.value]).None?
  {
    var n := |codes|;
    var next := 0;
    while next < n
      invariant 0 <= next <= n
      invariant forall M, l :: 0 <= M < dp.Length0 && 0 <= l < dp.Length1 ==>
        dp[M, l] == Pending(codes, cache, M, l, mask, if l < next then last + 1 else last)
      invariant forall x :: 0 <= x < next && !Bit(mask, x) ==> Lookup(cache, codes[last], codes[x]).Some?
    {
      if Bit(mask, next) {
        NoSuccessorInMask(codes, cache, mask, next, last, last + 1);
      } else {
        var setupTime := Lookup(cache, codes[last], codes[next]);
        if setupTime.None? {
          return Some(next);
        }
        Successor(codes, cache, mask, last, next);
        var newMask := mask + Pow2(next);
        var newTime := currentTime + setupTime.value;
        if dp[newMask, next].Empty? || dp[newMask, next].time > newTime {
          dp[newMask, next] := Entry(newTime, last);
        }
      }
      next := next + 1;
    }
    return None;
  }

  /** The middle loop of the fill: the pass over one mask, or the first missing transition
      `(last, next)` it meets. */
  method ExpandMask(codes: seq<Code>, cache: SetupMatrixCache, dp: array2<Cell>, mask: nat)
    returns (missing: Option<(nat, nat)>)
    requires TableShape(codes, dp) && mask < Pow2(|codes|)
    requires forall M, l :: 0 <= M < dp.Length0 && 0 <= l < dp.Length1 ==>
      dp[M, l] == Pending(codes, cache, M, l, mask, 0)
    modifies dp
    ensures missing.None? ==> forall M, l :: 0 <= M < dp.Length0 && 0 <= l < dp.Length1 ==>
      dp[M, l] == Pending(codes, cache, M, l, mask, |codes|)
    ensures missing.None? ==> forall l, x ::
      (0 <= l < |codes| && 0 <= x < |codes| && Bit(mask, l) && !Bit(mask, x) && TableCell(codes, cache, mask, l).Entry?) ==>
        Lookup(cache, codes[l], codes[x]).Some?
    ensures missing.Some? ==> var (l, x) := missing.value;
      && l < |codes| && x < |codes| && TableCell(codes, cache, mask, l).Entry? && !Bit(mask, x)
      && Lookup(cache, codes[l], codes[x]).None?
  {
    var n := |codes|;
    var last := 0;
    while last < n
      invariant 0 <= last <= n
      invariant forall M, l :: 0 <= M < dp.Length0 && 0 <= l < dp.Length1 ==>
        dp[M, l] == Pending(codes, cache, M, l, mask, last)
      invariant forall l, x ::
        (0 <= l < last && 0 <= x < n && Bit(mask, l) && !Bit(mask, x) && TableCell(codes, cache, mask, l).Entry?) ==>
          Lookup(cache, codes[l], codes[x]).Some?
    {
      assert dp[mask, last] == TableCell(codes, cache, mask, last);
      if Bit(mask, last) && dp[mask, last].Entry? {
        var currentTime := dp[mask, last].time;
        var gap := RelaxSuccessors(codes, cache, dp, mask, last, currentTime);
        if gap.Some? {
          return Some((last, gap.value));
        }
      }
      last := last + 1;
    }
    return None;
  }

  /** When every look-up of the fill succeeded, the matrix holds every transition the
      table can need. */
  lemma ProbedMeansComplete(codes: seq<Code>, cache: SetupMatrixCache)
    requires |codes| >= 2 && ProbedBelow(codes, cache, Pow2(|codes|))
    ensures Complete(codes, cache)
  {
    var n := |codes|;
    assert Pow2(n) == 2 * Pow2(n - 1);
    BitsOfOne(0);
    forall j | 0 < j < n ensures Lookup(cache, codes[0], codes[j]).Some? {
      BitsOfOne(j);
    }
    forall i, j | 0 < i < n && 0 < j < n && i != j
      ensures Lookup(cache, codes[i], codes[j]).Some?
    {
      BitsOfOne(i);
      BitsOfOne(j);
      SetBit(1, i, i);
      SetBit(1, i, j);
      SetBitStaysBelow(1, n, i);
      TableCellOfAddedBit(codes, cache, 1, i);
      RelaxedBound(codes, cache, 1, i, n, 0);
    }
  }

  /** The reconstruction walks the back-pointers from the best cell; the stack holds the
      indices already passed, last index first. */
  function Reverse(s: seq<nat>): (r: seq<nat>)
    ensures |r| == |s| && forall i :: 0 <= i < |s| ==> r[i] == s[|s| - 1 - i]
  {
    if s == [] then [] else [s[|s| - 1]] + Reverse(s[..|s| - 1])
  }

  lemma ReverseSnoc(s: seq<nat>, x: nat)
    ensures Reverse(s + [x]) == [x] + Reverse(s)
  {
    assert (s + [x])[..|s|] == s;
  }

  /** The reconstruction's loop state towards the path `target`: once the walk is over the
      stack holds `target` reversed; before that, the walk still ahead from `(mask, pos)`
      followed by the reversed stack is `target`. */
  ghost predicate Trail(codes: seq<Code>, cache: SetupMatrixCache, mask: nat, pos: int, sequence: seq<nat>, target: seq<nat>)
  {
    if pos == -1 then target == Reverse(sequence)
    else
      && 0 <= pos < |codes| && mask < Pow2(|codes|)
      && TableCell(codes, cache, mask, pos).Entry?
      && target == Walk(codes, cache, mask, pos) + Reverse(sequence)
  }

  /** The reconstruction starts at the best cell of the full mask with an empty stack. */
  lemma TrailStarts(codes: seq<Code>, cache: SetupMatrixCache)
    requires |codes| >= 2 && Complete(codes, cache)
    ensures Trail(codes, cache, Pow2(|codes|) - 1, BestLast(codes, cache), [], OptimalPath(codes, cache))
  {
    HeldKarpResultReadsBestCell(codes, cache);
    assert OptimalPath(codes, cache) + Reverse([]) == OptimalPath(codes, cache);
  }

  /** One step of the reconstruction: pushing the current index and following its back-pointer
      keeps the loop state, and clears the current bit unless the walk ends. */
  lemma BackStep(codes: seq<Code>, cache: SetupMatrixCache, mask: nat, pos: nat, prev: int, sequence: seq<nat>, target: seq<nat>)
    requires Trail(codes, cache, mask, pos, sequence, target)
    requires pos < |codes| && prev == TableCell(codes, cache, mask, pos).prev
    ensures prev == -1 ==> Trail(codes, cache, mask, -1, sequence + [pos], target)
    ensures prev != -1 ==> mask >= Pow2(pos) && Trail(codes, cache, mask - Pow2(pos), prev, sequence + [pos], target)
  {
    WalkStep(codes, cache, mask, pos);
    ReverseSnoc(sequence, pos);
  }

  /** The fill of `findOptimalSequenceDP`: the table after every mask was expanded, or
      the first missing transition `(last, next)` the loops meet. */
  method FillTable(codes: seq<Code>, cache: SetupMatrixCache) returns (dp: array2<Cell>, gap: Option<(nat, nat)>)
    requires |codes| >= 2
    ensures fresh(dp) && TableShape(codes, dp)
    ensures gap.None? ==> Complete(codes, cache)
    ensures gap.None? ==> forall M, l :: 0 <= M < dp.Length0 && 0 <= l < dp.Length1 ==>
      dp[M, l] == TableCell(codes, cache, M, l)
    ensures gap.Some? ==> var (l, x) := gap.value;
      && l < |codes| && 0 < x < |codes| && l != x && Lookup(cache, codes[l], codes[x]).None?
  {
    var n := |codes|;
    // The table is dense: an absent `dp[mask][last]` is `Empty`, and a row with no entry
    // (the source's `if (!dp[mask]) continue`) makes the pass over it do nothing.
    dp := new Cell[Pow2(n), n]((_, _) => Empty);
    dp[1, 0] := Entry(0, -1);
    forall M: nat, l | 0 <= M < dp.Length0 && 0 <= l < dp.Length1
      ensures dp[M, l] == Pending(codes, cache, M, l, 1, 0)
    {
      InitialTable(codes, cache, M, l);
    }
    forall l: nat ensures !Bit(0, l) {
      NoBitsOfZero(l);
    }
    var mask := 1;
    while mask < Pow2(n)
      invariant 1 <= mask <= Pow2(n)
      invariant forall M, l :: 0 <= M < dp.Length0 && 0 <= l < dp.Length1 ==>
        dp[M, l] == Pending(codes, cache, M, l, mask, 0)
      invariant ProbedBelow(codes, cache, mask)
    {
      gap := ExpandMask(codes, cache, dp, mask);
      if gap.Some? {
        EntryHoldsStart(codes, cache, mask, gap.value.0);
        return;
      }
      mask := mask + 1;
    }
    ProbedMeansComplete(codes, cache);
    return dp, None;
  }

  /** The final scan of `findOptimalSequenceDP`: the first last index whose full-mask cell
      holds the least time, or -1 when no such cell is filled. */
  method BestEnding(codes: seq<Code>, cache: SetupMatrixCache, dp: array2<Cell>) returns (minTime: Bound, bestLast: int)
    requires TableShape(codes, dp) && |codes| >= 1
    requires forall M, l :: 0 <= M < dp.Length0 && 0 <= l < dp.Length1 ==>
      dp[M, l] == TableCell(codes, cache, M, l)
    ensures -1 <= bestLast < |codes|
    ensures bestLast == -1 <==> FirstMin(FullRow(codes, cache)).None?
    ensures bestLast != -1 ==>
      FirstMin(FullRow(codes, cache)) == Some(bestLast as nat) && minTime == Finite(FullRow(codes, cache)[bestLast].value)
  {
    var n := |codes|;
    var fullMask := Pow2(n) - 1;
    ghost var row := FullRow(codes, cache);
    minTime := Infinity;
    bestLast := -1;
    assert row[..0] == [];
    for last := 0 to n
      invariant -1 <= bestLast < last
      invariant (if bestLast == -1 then None else Some(bestLast as nat)) == FirstMin(row[..last])
      invariant minTime == if bestLast == -1 then Infinity else Finite(row[bestLast].value)
    {
      assert row[..last + 1][..last] == row[..last];
      if dp[fullMask, last].Entry? && Below(dp[fullMask, last].time, minTime) {
        minTime := Finite(dp[fullMask, last].time);
        bestLast := last;
      }
    }
    assert row[..n] == row;
  }

  /** The reconstruction of `findOptimalSequenceDP`: following the back-pointers from the
      best cell pushes the optimal path from its end. */
  method Reconstruct(codes: seq<Code>, cache: SetupMatrixCache, dp: array2<Cell>, bestLast: nat) returns (sequence: seq<nat>)
    requires TableShape(codes, dp) && |codes| >= 2 && Complete(codes, cache)
    requires forall M, l :: 0 <= M < dp.Length0 && 0 <= l < dp.Length1 ==>
      dp[M, l] == TableCell(codes, cache, M, l)
    requires bestLast == BestLast(codes, cache)
    ensures Reverse(sequence) == OptimalPath(codes, cache)
  {
    var n := |codes|;
    TrailStarts(codes, cache);
    ghost var target := OptimalPath(codes, cache);
    sequence := [];
    var currentMask: nat := Pow2(n) - 1;
    var currentPos: int := bestLast;
    while currentPos != -1
      invariant Trail(codes, cache, currentMask, currentPos, sequence, target)
      decreases currentMask + if currentPos == -1 then 0 else 1
    {
      var prev := dp[currentMask, currentPos].prev;
      BackStep(codes, cache, currentMask, currentPos, prev, sequence, target);
      sequence := sequence + [currentPos];
      if prev != -1 {
        currentMask := currentMask - Pow2(currentPos);
      }
      currentPos := prev;
    }
  }

  /** `findOptimalSequenceDP`. With fewer than two codes the codes themselves, at time 0.
      Otherwise the run fails exactly when the matrix lacks a transition the table needs,
      naming one, and it succeeds with the Held-Karp result: the cheapest ordering of all
      the codes that starts at `equipmentCodes[0]` (see `HeldKarpResultIsAnchoredOptimum`). */
  method FindOptimalSequenceDP(codes: seq<Code>, cache: SetupMatrixCache) returns (r: Result<OptimalSequenceResult>)
    ensures |codes| == 0 ==> r == Ok(OptimalSequenceResult([], 0))
    ensures |codes| == 1 ==> r == Ok(OptimalSequenceResult(codes, 0))
    ensures |codes| >= 2 ==> (r.Ok? <==> Complete(codes, cache))
    ensures |codes| >= 2 && r.Ok? ==> r.value == HeldKarpResult(codes, cache)
    ensures r.Err? ==> exists i, j ::
      && 0 <= i < |codes| && 0 < j < |codes| && i != j
      && Lookup(cache, codes[i], codes[j]).None? && r.error == SetupTimeNotFound(codes[i], codes[j])
  {
    var n := |codes|;
    if n == 0 {
      return Ok(OptimalSequenceResult([], 0));
    }
    if n == 1 {
      return Ok(OptimalSequenceResult(codes, 0));
    }
    var dp, gap := FillTable(codes, cache);
    if gap.Some? {
      var (last, next) := gap.value;
      return Err(SetupTimeNotFound(codes[last], codes[next]));
    }
    var minTime, bestLast := BestEnding(codes, cache, dp);
    FullRowReached(codes, cache);
    if bestLast == -1 {
      assert false;
      return Err(FailedToFindOptimal);
    }
    var sequence := Reconstruct(codes, cache, dp, bestLast);
    var path := Reverse(sequence);
    HeldKarpResultReadsBestCell(codes, cache);
    return Ok(OptimalSequenceResult(Codes(codes, path), minTime.n));
  }
}
