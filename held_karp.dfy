/** The Held-Karp table of `findOptimalSequenceDP` as functions of the codes and the matrix,
    and what it computes: the cheapest path that starts at `equipmentCodes[0]` and visits
    every code once.

    The fill loop writes `dp[mask | (1 << next)][next]` only while it processes `mask`, so
    cell `(M, l)` is written only during the pass over `M` without bit `l`, once per `last`
    in increasing order, and only on a strictly smaller time. `TableCell` is therefore the
    final table, defined on the mask; `Relaxed` is one cell part-way through that pass. */
module HeldKarp {
  import opened Common
  import opened Bitmask
  import opened SetupMatrix

  /** `dp[mask][last]`: absent, or `{ time, prev }` with `prev == -1` for the start cell. */
  datatype Cell = Empty | Entry(time: nat, prev: int)

  ghost predicate InRange(idx: seq<nat>, n: nat)
  {
    forall k :: 0 <= k < |idx| ==> idx[k] < n
  }

  /** `indices.map(idx => equipmentCodes[idx])`. */
  function Codes(codes: seq<Code>, idx: seq<nat>): (r: seq<Code>)
    requires InRange(idx, |codes|)
    ensures |r| == |idx|
  {
    seq(|idx|, k requires 0 <= k < |idx| => codes[idx[k]])
  }

  /** A path of indices that starts at index 0 and repeats none. */
  ghost predicate AnchoredPath(p: seq<nat>, n: nat)
  {
    |p| >= 1 && p[0] == 0 && Distinct(p) && InRange(p, n)
  }

  /** An ordering of all the indices `0 .. n-1`. */
  ghost predicate IndexPermutation(p: seq<nat>, n: nat)
  {
    Distinct(p) && InRange(p, n) && forall i :: 0 <= i < n ==> i in p
  }

  ghost predicate AnchoredPermutation(p: seq<nat>, n: nat)
  {
    IndexPermutation(p, n) && |p| >= 1 && p[0] == 0
  }

  /** Every transition the fill loop can read is present: each pair of different indices,
      except the pairs leading into index 0, which lies in every mask it reaches. */
  ghost predicate Complete(codes: seq<Code>, cache: SetupMatrixCache)
  {
    forall i, j :: 0 <= i < |codes| && 0 < j < |codes| && i != j ==>
      Lookup(cache, codes[i], codes[j]).Some?
  }

  /** The final `dp[mask][l]`. */
  ghost function TableCell(codes: seq<Code>, cache: SetupMatrixCache, mask: nat, l: nat): Cell
    requires l < |codes|
    decreases mask, 0, 0
  {
    if mask == 1 && l == 0 then Entry(0, -1)
    else if l == 0 || !Bit(mask, l) then Empty
    else
      BitLowerBound(mask, l);
      Relaxed(codes, cache, mask - Pow2(l), l, |codes|)
  }

  /** `dp[mask | (1 << next)][next]` after the pass over `mask` has tried `last = 0 .. k-1`. */
  ghost function Relaxed(codes: seq<Code>, cache: SetupMatrixCache, mask: nat, next: nat, k: nat): Cell
    requires next < |codes| && k <= |codes|
    decreases mask, 1, k
  {
    if k == 0 then Empty
    else
      var acc := Relaxed(codes, cache, mask, next, k - 1);
      var last := k - 1;
      if !Bit(mask, last) then acc
      else
        match TableCell(codes, cache, mask, last)
        case Empty => acc
        case Entry(t, _) =>
          match Lookup(cache, codes[last], codes[next])
          case None => acc
          case Some(w) => if acc.Empty? || acc.time > t + w then Entry(t + w, last) else acc
  }

  /** A relaxed cell names a predecessor that was tried, and its time is that predecessor's
      time plus the transition. */
  lemma {:induction false} RelaxedShape(codes: seq<Code>, cache: SetupMatrixCache, mask: nat, next: nat, k: nat)
    requires next < |codes| && k <= |codes|
    ensures var c := Relaxed(codes, cache, mask, next, k);
      c.Entry? ==>
        && 0 <= c.prev < k && Bit(mask, c.prev)
        && TableCell(codes, cache, mask, c.prev).Entry?
        && Lookup(cache, codes[c.prev], codes[next]).Some?
        && c.time == TableCell(codes, cache, mask, c.prev).time + Lookup(cache, codes[c.prev], codes[next]).value
  {
    if k > 0 {
      RelaxedShape(codes, cache, mask, next, k - 1);
    }
  }

  /** The back-pointer of a cell leads to a filled cell one bit smaller, or it is the start cell. */
  lemma TableCellShape(codes: seq<Code>, cache: SetupMatrixCache, mask: nat, l: nat)
    requires l < |codes|
    ensures var c := TableCell(codes, cache, mask, l);
      c.Entry? ==>
        || (mask == 1 && l == 0 && c == Entry(0, -1))
        || (&& l != 0 && Bit(mask, l) && mask >= Pow2(l)
            && 0 <= c.prev < |codes| && Bit(mask - Pow2(l), c.prev)
            && TableCell(codes, cache, mask - Pow2(l), c.prev).Entry?
            && Lookup(cache, codes[c.prev], codes[l]).Some?
            && c.time == TableCell(codes, cache, mask - Pow2(l), c.prev).time + Lookup(cache, codes[c.prev], codes[l]).value)
  {
    if !(mask == 1 && l == 0) && l != 0 && Bit(mask, l) {
      BitLowerBound(mask, l);
      RelaxedShape(codes, cache, mask - Pow2(l), l, |codes|);
    }
  }

  /** The cell reached by adding index `x` to `mask` is the relaxation over `mask`. */
  lemma TableCellOfAddedBit(codes: seq<Code>, cache: SetupMatrixCache, mask: nat, x: nat)
    requires 0 < x < |codes| && !Bit(mask, x)
    ensures Bit(mask + Pow2(x), x)
    ensures TableCell(codes, cache, mask + Pow2(x), x) == Relaxed(codes, cache, mask, x, |codes|)
  {
    SetBit(mask, x, x);
  }

  /** Every filled cell's mask holds index 0 and the cell's own index. */
  lemma {:induction false} EntryHoldsStart(codes: seq<Code>, cache: SetupMatrixCache, mask: nat, l: nat)
    requires l < |codes| && TableCell(codes, cache, mask, l).Entry?
    ensures Bit(mask, 0) && Bit(mask, l)
    decreases mask
  {
    TableCellShape(codes, cache, mask, l);
    var c := TableCell(codes, cache, mask, l);
    if c.prev == -1 {
      BitsOfOne(0);
    } else {
      EntryHoldsStart(codes, cache, mask - Pow2(l), c.prev);
      ClearBit(mask, l, 0);
    }
  }

  /** Trying one more predecessor `last` leaves the cell filled with a time no larger than
      that candidate. */
  lemma {:induction false} RelaxedBound(codes: seq<Code>, cache: SetupMatrixCache, mask: nat, next: nat, k: nat, p: nat)
    requires next < |codes| && k <= |codes| && p < k
    requires Bit(mask, p) && TableCell(codes, cache, mask, p).Entry?
    requires Lookup(cache, codes[p], codes[next]).Some?
    ensures Relaxed(codes, cache, mask, next, k).Entry?
    ensures Relaxed(codes, cache, mask, next, k).time
         <= TableCell(codes, cache, mask, p).time + Lookup(cache, codes[p], codes[next]).value
    decreases k
  {
    if p < k - 1 {
      RelaxedBound(codes, cache, mask, next, k - 1, p);
    }
  }

  /** Walking the back-pointers from `(mask, l)` to the start cell, in path order. */
  ghost function Walk(codes: seq<Code>, cache: SetupMatrixCache, mask: nat, l: nat): seq<nat>
    requires l < |codes|
    decreases mask
  {
    match TableCell(codes, cache, mask, l)
    case Empty => []
    case Entry(_, p) =>
      if p == -1 then [l]
      else
        TableCellShape(codes, cache, mask, l);
        Walk(codes, cache, mask - Pow2(l), p) + [l]
  }

  /** One step of the walk: the start cell ends it, any other filled cell continues it from
      the filled cell its back-pointer names, one bit smaller. */
  lemma WalkStep(codes: seq<Code>, cache: SetupMatrixCache, mask: nat, l: nat)
    requires l < |codes| && TableCell(codes, cache, mask, l).Entry?
    ensures var c := TableCell(codes, cache, mask, l);
      && (c.prev == -1 ==> mask == 1 && l == 0 && Walk(codes, cache, mask, l) == [0])
      && (c.prev != -1 ==>
            && l != 0 && Bit(mask, l) && mask >= Pow2(l) && 0 <= c.prev < |codes|
            && TableCell(codes, cache, mask - Pow2(l), c.prev).Entry?
            && Lookup(cache, codes[c.prev], codes[l]).Some?
            && c.time == TableCell(codes, cache, mask - Pow2(l), c.prev).time + Lookup(cache, codes[c.prev], codes[l]).value
            && Walk(codes, cache, mask, l) == Walk(codes, cache, mask - Pow2(l), c.prev) + [l])
  {
    TableCellShape(codes, cache, mask, l);
  }

  /** A path from index 0 extended by an index outside its mask: still a path from index 0,
      with that bit added to its mask and the transition added to its cost. */
  lemma ExtendPath(codes: seq<Code>, cache: SetupMatrixCache, w: seq<nat>, l: nat, t: nat)
    requires AnchoredPath(w, |codes|) && l < |codes| && !Bit(MaskOf(w), l)
    requires PathCost(Codes(codes, w), cache) == Ok(t)
    requires Lookup(cache, codes[w[|w| - 1]], codes[l]).Some?
    ensures AnchoredPath(w + [l], |codes|) && MaskOf(w + [l]) == MaskOf(w) + Pow2(l)
    ensures PathCost(Codes(codes, w + [l]), cache) == Ok(t + Lookup(cache, codes[w[|w| - 1]], codes[l]).value)
  {
    assert l !in w by { MaskOfBits(w, |codes|); }
    AppendFresh(w, l, |codes|);
    assert MaskOf(w + [l]) == MaskOf(w) + Pow2(l) by { assert (w + [l])[..|w|] == w; }
    CodesOfAppend(codes, w, l);
    var s := Codes(codes, w);
    assert s[|s| - 1] == codes[w[|w| - 1]];
    PathCostOfAppend(s, codes[l], cache);
  }

  /** Soundness of a cell: its back-pointers spell a path from index 0 over exactly the
      indices of the mask, ending at the cell's index, whose cost is the cell's time. */
  lemma {:induction false} WalkTracesCell(codes: seq<Code>, cache: SetupMatrixCache, mask: nat, l: nat)
    requires l < |codes| && mask < Pow2(|codes|)
    requires TableCell(codes, cache, mask, l).Entry?
    ensures var w := Walk(codes, cache, mask, l);
      && AnchoredPath(w, |codes|) && w[|w| - 1] == l && MaskOf(w) == mask
      && PathCost(Codes(codes, w), cache) == Ok(TableCell(codes, cache, mask, l).time)
    decreases mask
  {
    WalkStep(codes, cache, mask, l);
    var c := TableCell(codes, cache, mask, l);
    var w := Walk(codes, cache, mask, l);
    if c.prev == -1 {
      assert MaskOf(w) == MaskOf([]) + Pow2(0);
      assert Codes(codes, w) == [codes[0]];
    } else {
      var m', p := mask - Pow2(l), c.prev;
      WalkTracesCell(codes, cache, m', p);
      ClearedBitIsClear(mask, l);
      ExtendPath(codes, cache, Walk(codes, cache, m', p), l, TableCell(codes, cache, m', p).time);
    }
  }

  lemma CodesOfAppend(codes: seq<Code>, idx: seq<nat>, x: nat)
    requires InRange(idx, |codes|) && x < |codes|
    ensures InRange(idx + [x], |codes|)
    ensures Codes(codes, idx + [x]) == Codes(codes, idx) + [codes[x]]
  {
    assert Codes(codes, idx + [x]) == Codes(codes, idx) + [codes[x]];
  }

  /** Appending an index not yet on a path from index 0 gives a path from index 0. */
  lemma AppendFresh(p: seq<nat>, x: nat, n: nat)
    requires AnchoredPath(p, n) && x < n && x !in p
    ensures AnchoredPath(p + [x], n) && (p + [x])[|p|] == x
  {
    var p' := p + [x];
    assert forall k :: 0 <= k < |p| ==> p'[k] == p[k];
  }

  /** Dropping the last index of a path from index 0 of length two or more gives a path from
      index 0 that does not hold that index, and that index is not 0. */
  lemma PrefixOfAnchored(p: seq<nat>, n: nat)
    requires AnchoredPath(p, n) && |p| >= 2
    ensures AnchoredPath(p[..|p| - 1], n)
    ensures p[|p| - 1] != 0 && p[|p| - 1] < n && p[|p| - 1] !in p[..|p| - 1]
  {
    var q := p[..|p| - 1];
    assert forall k :: 0 <= k < |q| ==> q[k] == p[k];
  }

  /** The converse of `ExtendPath`: a path from index 0 of two or more indices whose cost is
      defined is such a path extended by its last index. */
  lemma TrimPath(codes: seq<Code>, cache: SetupMatrixCache, p: seq<nat>)
    requires AnchoredPath(p, |codes|) && |p| >= 2 && PathCost(Codes(codes, p), cache).Ok?
    ensures var q, x := p[..|p| - 1], p[|p| - 1];
      && AnchoredPath(q, |codes|) && 0 < x < |codes| && !Bit(MaskOf(q), x)
      && MaskOf(p) == MaskOf(q) + Pow2(x)
      && PathCost(Codes(codes, q), cache).Ok?
      && Lookup(cache, codes[q[|q| - 1]], codes[x]).Some?
      && PathCost(Codes(codes, p), cache).value
         == PathCost(Codes(codes, q), cache).value + Lookup(cache, codes[q[|q| - 1]], codes[x]).value
  {
    var q, x := p[..|p| - 1], p[|p| - 1];
    assert p == q + [x];
    PrefixOfAnchored(p, |codes|);
    assert !Bit(MaskOf(q), x) by { MaskOfBits(q, |codes|); }
    CodesOfAppend(codes, q, x);
    var s := Codes(codes, q);
    assert s[|s| - 1] == codes[q[|q| - 1]];
    PathCostOfAppend(s, codes[x], cache);
  }

  /** Optimality of a cell: for every path from index 0 whose cost is defined, the cell of
      its mask and last index is filled with a time no larger than that cost. */
  lemma {:induction false} CellBeatsAnchoredPath(codes: seq<Code>, cache: SetupMatrixCache, p: seq<nat>)
    requires AnchoredPath(p, |codes|) && PathCost(Codes(codes, p), cache).Ok?
    ensures TableCell(codes, cache, MaskOf(p), p[|p| - 1]).Entry?
    ensures TableCell(codes, cache, MaskOf(p), p[|p| - 1]).time <= PathCost(Codes(codes, p), cache).value
    decreases |p|
  {
    if |p| == 1 {
      assert p == [0];
      assert MaskOf(p) == MaskOf([]) + Pow2(0);
      assert Codes(codes, p) == [codes[0]];
    } else {
      var q, x := p[..|p| - 1], p[|p| - 1];
      TrimPath(codes, cache, p);
      CellBeatsAnchoredPath(codes, cache, q);
      EntryHoldsStart(codes, cache, MaskOf(q), q[|q| - 1]);
      TableCellOfAddedBit(codes, cache, MaskOf(q), x);
      RelaxedBound(codes, cache, MaskOf(q), x, |codes|, q[|q| - 1]);
    }
  }

  /** With a complete matrix every path from index 0 has a defined cost. */
  lemma AnchoredPathCostDefined(codes: seq<Code>, cache: SetupMatrixCache, p: seq<nat>)
    requires Complete(codes, cache) && AnchoredPath(p, |codes|)
    ensures PathCost(Codes(codes, p), cache).Ok?
  {
    var s := Codes(codes, p);
    forall k | 0 <= k < |s| - 1 ensures Lookup(cache, s[k], s[k + 1]).Some? {
      assert p[k] != p[k + 1] && p[k + 1] != p[0];
      assert s[k] == codes[p[k]] && s[k + 1] == codes[p[k + 1]];
    }
    PathCostOkIffAllPairsPresent(s, cache);
  }

  /** A permutation of all indices has the full mask `(1 << n) - 1`. */
  lemma PermutationHasFullMask(p: seq<nat>, n: nat)
    requires IndexPermutation(p, n) && n >= 1
    ensures MaskOf(p) == Pow2(n) - 1
  {
    MaskOfBits(p, n);
    forall i: nat ensures Bit(MaskOf(p), i) == Bit(Pow2(n) - 1, i) {
      FullMaskBits(n, i);
    }
    SameBitsSameMask(MaskOf(p), Pow2(n) - 1);
  }

  /** The indices `0 .. n-1` in order. */
  function Indices(n: nat): (id: seq<nat>)
    ensures |id| == n && forall i :: 0 <= i < n ==> id[i] == i
  {
    seq(n, i requires 0 <= i < n => i as nat)
  }

  lemma IndicesArePermutation(n: nat)
    ensures AnchoredPermutation(Indices(n), n) || n == 0
    ensures IndexPermutation(Indices(n), n)
    ensures forall x: nat :: x in Indices(n) <==> x < n
  {
    var id := Indices(n);
    forall i | 0 <= i < n ensures i in id { assert id[i] == i; }
    assert forall a, b :: 0 <= a < b < n ==> id[a] != id[b];
  }

  /** `dp[(1 << n) - 1][last]` as times. */
  ghost function FullRow(codes: seq<Code>, cache: SetupMatrixCache): seq<Option<nat>>
  {
    seq(|codes|, l requires 0 <= l < |codes| =>
      var c := TableCell(codes, cache, Pow2(|codes|) - 1, l);
      if c.Entry? then Some(c.time) else None)
  }

  /** With a complete matrix the full row has a filled cell, so the final scan finds one. */
  lemma FullRowReached(codes: seq<Code>, cache: SetupMatrixCache)
    requires |codes| >= 1 && Complete(codes, cache)
    ensures FirstMin(FullRow(codes, cache)).Some?
  {
    var n := |codes|;
    var id := Indices(n);
    IndicesArePermutation(n);
    AnchoredPathCostDefined(codes, cache, id);
    CellBeatsAnchoredPath(codes, cache, id);
    PermutationHasFullMask(id, n);
    assert FullRow(codes, cache)[n - 1].Some?;
    FirstMinIsFirstMinimum(FullRow(codes, cache));
  }

  /** `bestLast` of the final scan. */
  ghost function BestLast(codes: seq<Code>, cache: SetupMatrixCache): (b: nat)
    requires |codes| >= 1 && Complete(codes, cache)
    ensures b < |codes|
  {
    FullRowReached(codes, cache);
    FirstMin(FullRow(codes, cache)).value
  }

  /** The reconstructed path of indices. */
  ghost function OptimalPath(codes: seq<Code>, cache: SetupMatrixCache): seq<nat>
    requires |codes| >= 1 && Complete(codes, cache)
  {
    Walk(codes, cache, Pow2(|codes|) - 1, BestLast(codes, cache))
  }

  /** What `findOptimalSequenceDP` returns for two or more codes and a complete matrix. */
  ghost function HeldKarpResult(codes: seq<Code>, cache: SetupMatrixCache): OptimalSequenceResult
    requires |codes| >= 2 && Complete(codes, cache)
  {
    var full := Pow2(|codes|) - 1;
    var best := BestLast(codes, cache);
    BestCellFilled(codes, cache);
    WalkTracesCell(codes, cache, full, best);
    OptimalSequenceResult(Codes(codes, OptimalPath(codes, cache)), TableCell(codes, cache, full, best).time)
  }

  lemma {:induction false} DistinctCounts(s: seq<nat>)
    requires Distinct(s)
    ensures forall x :: multiset(s)[x] == if x in s then 1 else 0
    decreases |s|
  {
    if s != [] {
      var init := s[..|s| - 1];
      assert s == init + [s[|s| - 1]];
      assert forall k :: 0 <= k < |init| ==> init[k] == s[k];
      DistinctCounts(init);
    }
  }

  lemma CodesOfConcat(codes: seq<Code>, a: seq<nat>, b: seq<nat>)
    requires InRange(a, |codes|) && InRange(b, |codes|)
    ensures InRange(a + b, |codes|)
    ensures Codes(codes, a + b) == Codes(codes, a) + Codes(codes, b)
  {
  }

  /** Removing a matching element from the front of `a` and from inside `b` keeps the
      two multisets equal. */
  lemma RemoveMatching(a: seq<nat>, b: seq<nat>, i: nat)
    requires |a| >= 1 && i < |b| && b[i] == a[0] && multiset(a) == multiset(b)
    ensures multiset(a[1..]) == multiset(b[..i] + b[i + 1..])
  {
    assert a == [a[0]] + a[1..];
    assert b == b[..i] + [b[i]] + b[i + 1..];
    assert multiset(a[1..]) == multiset(a) - multiset{a[0]};
    assert multiset(b[..i] + b[i + 1..]) == multiset(b) - multiset{a[0]};
  }

  /** Reading `b` as codes around its element at `i`, with and without that element. */
  lemma CodesAroundIndex(codes: seq<Code>, b: seq<nat>, i: nat)
    requires i < |b| && InRange(b, |codes|)
    ensures InRange(b[..i] + b[i + 1..], |codes|)
    ensures Codes(codes, b) == Codes(codes, b[..i]) + [codes[b[i]]] + Codes(codes, b[i + 1..])
    ensures Codes(codes, b[..i] + b[i + 1..]) == Codes(codes, b[..i]) + Codes(codes, b[i + 1..])
  {
    assert b == b[..i] + [b[i]] + b[i + 1..];
    CodesOfConcat(codes, b[..i] + [b[i]], b[i + 1..]);
    CodesOfConcat(codes, b[..i], [b[i]]);
    CodesOfConcat(codes, b[..i], b[i + 1..]);
  }

  /** Rearranging indices rearranges the codes at them. */
  lemma {:induction false} CodesOfRearrangement(codes: seq<Code>, a: seq<nat>, b: seq<nat>)
    requires InRange(a, |codes|) && InRange(b, |codes|) && multiset(a) == multiset(b)
    ensures multiset(Codes(codes, a)) == multiset(Codes(codes, b))
    decreases |a|
  {
    if a == [] {
      assert |b| == |multiset(b)| == 0;
    } else {
      assert a[0] in multiset(b);
      var i :| 0 <= i < |b| && b[i] == a[0];
      RemoveMatching(a, b, i);
      CodesWithoutIndex(codes, a, 0);
      assert a[..0] + a[1..] == a[1..];
      CodesWithoutIndex(codes, b, i);
      CodesOfRearrangement(codes, a[1..], b[..i] + b[i + 1..]);
    }
  }

  /** The codes read from `b` are the code at `i` and the codes read from `b` without `i`. */
  lemma CodesWithoutIndex(codes: seq<Code>, b: seq<nat>, i: nat)
    requires i < |b| && InRange(b, |codes|)
    ensures InRange(b[..i] + b[i + 1..], |codes|)
    ensures multiset(Codes(codes, b)) == multiset{codes[b[i]]} + multiset(Codes(codes, b[..i] + b[i + 1..]))
  {
    CodesAroundIndex(codes, b, i);
    var cl, cr := Codes(codes, b[..i]), Codes(codes, b[i + 1..]);
    assert multiset(cl + [codes[b[i]]] + cr) == multiset{codes[b[i]]} + multiset(cl + cr);
  }

  /** An ordering of all indices, read as codes, is a rearrangement of the codes. */
  lemma PermutationRearrangesCodes(codes: seq<Code>, p: seq<nat>)
    requires IndexPermutation(p, |codes|)
    ensures |p| == |codes|
    ensures multiset(Codes(codes, p)) == multiset(codes)
  {
    var n := |codes|;
    var id := Indices(n);
    IndicesArePermutation(n);
    DistinctCounts(p);
    DistinctCounts(id);
    assert forall x :: x in p <==> x in id;
    assert multiset(p) == multiset(id);
    assert |p| == |multiset(p)| == |multiset(id)| == n;
    CodesOfRearrangement(codes, p, id);
    assert Codes(codes, id) == codes;
  }

  /** The result reads the cell of the full mask at the chosen last index. */
  lemma HeldKarpResultReadsBestCell(codes: seq<Code>, cache: SetupMatrixCache)
    requires |codes| >= 2 && Complete(codes, cache)
    ensures TableCell(codes, cache, Pow2(|codes|) - 1, BestLast(codes, cache)).Entry?
    ensures HeldKarpResult(codes, cache).time == TableCell(codes, cache, Pow2(|codes|) - 1, BestLast(codes, cache)).time
    ensures AnchoredPath(OptimalPath(codes, cache), |codes|)
    ensures MaskOf(OptimalPath(codes, cache)) == Pow2(|codes|) - 1
    ensures HeldKarpResult(codes, cache).sequence == Codes(codes, OptimalPath(codes, cache))
    ensures PathCost(HeldKarpResult(codes, cache).sequence, cache) == Ok(HeldKarpResult(codes, cache).time)
  {
    BestCellFilled(codes, cache);
    WalkTracesCell(codes, cache, Pow2(|codes|) - 1, BestLast(codes, cache));
  }

  /** The cell the final scan picks is filled. */
  lemma BestCellFilled(codes: seq<Code>, cache: SetupMatrixCache)
    requires |codes| >= 2 && Complete(codes, cache)
    ensures TableCell(codes, cache, Pow2(|codes|) - 1, BestLast(codes, cache)).Entry?
  {
    FullRowReached(codes, cache);
    FirstMinIsFirstMinimum(FullRow(codes, cache));
    assert FullRow(codes, cache)[BestLast(codes, cache)].Some?;
  }

  /** A path from index 0 whose mask is full visits every index. */
  lemma FullMaskPathIsPermutation(p: seq<nat>, n: nat)
    requires n >= 1 && AnchoredPath(p, n) && MaskOf(p) == Pow2(n) - 1
    ensures AnchoredPermutation(p, n)
  {
    MaskOfBits(p, n);
    forall i | 0 <= i < n ensures i in p {
      FullMaskBits(n, i);
    }
  }

  /** The reconstructed path visits every index once, starting at index 0, and the
      reported time is the cost of its sequence. */
  lemma OptimalPathIsAnchoredPermutation(codes: seq<Code>, cache: SetupMatrixCache)
    requires |codes| >= 2 && Complete(codes, cache)
    ensures AnchoredPermutation(OptimalPath(codes, cache), |codes|)
    ensures PathCost(HeldKarpResult(codes, cache).sequence, cache) == Ok(HeldKarpResult(codes, cache).time)
  {
    HeldKarpResultReadsBestCell(codes, cache);
    FullMaskPathIsPermutation(OptimalPath(codes, cache), |codes|);
  }

  /** No ordering of all indices that starts at index 0 costs less than the result. */
  lemma HeldKarpResultBeatsAnchoredPermutations(codes: seq<Code>, cache: SetupMatrixCache, p: seq<nat>)
    requires |codes| >= 2 && Complete(codes, cache) && AnchoredPermutation(p, |codes|)
    ensures PathCost(Codes(codes, p), cache).Ok?
    ensures HeldKarpResult(codes, cache).time <= PathCost(Codes(codes, p), cache).value
  {
    var n := |codes|;
    var row := FullRow(codes, cache);
    FullRowReached(codes, cache);
    FirstMinIsFirstMinimum(row);
    AnchoredPathCostDefined(codes, cache, p);
    CellBeatsAnchoredPath(codes, cache, p);
    PermutationHasFullMask(p, n);
    assert row[p[|p| - 1]].Some?;
  }

  /** The result ends at the lowest index whose full-row cell holds the minimum. */
  lemma HeldKarpResultEndsAtFirstMinimum(codes: seq<Code>, cache: SetupMatrixCache)
    requires |codes| >= 2 && Complete(codes, cache)
    ensures FullRow(codes, cache)[BestLast(codes, cache)] == Some(HeldKarpResult(codes, cache).time)
    ensures forall l :: 0 <= l < BestLast(codes, cache) ==>
      FullRow(codes, cache)[l].None? || FullRow(codes, cache)[l].value > HeldKarpResult(codes, cache).time
  {
    FullRowReached(codes, cache);
    FirstMinIsFirstMinimum(FullRow(codes, cache));
  }

  /** The Held-Karp result for two or more codes: an ordering of all the codes that starts
      at `equipmentCodes[0]`, whose time is the cost of its sequence, that costs no more
      than any other ordering starting at index 0, and that ends at the lowest index among
      the cheapest endings. */
  lemma HeldKarpResultIsAnchoredOptimum(codes: seq<Code>, cache: SetupMatrixCache)
    requires |codes| >= 2 && Complete(codes, cache)
    ensures var r, path := HeldKarpResult(codes, cache), OptimalPath(codes, cache);
      && AnchoredPermutation(path, |codes|)
      && r.sequence == Codes(codes, path)
      && |r.sequence| == |codes| && r.sequence[0] == codes[0]
      && multiset(r.sequence) == multiset(codes)
      && PathCost(r.sequence, cache) == Ok(r.time)
      && (forall p :: AnchoredPermutation(p, |codes|) ==>
            PathCost(Codes(codes, p), cache).Ok? && r.time <= PathCost(Codes(codes, p), cache).value)
  {
    OptimalPathIsAnchoredPermutation(codes, cache);
    PermutationRearrangesCodes(codes, OptimalPath(codes, cache));
    forall p | AnchoredPermutation(p, |codes|)
      ensures PathCost(Codes(codes, p), cache).Ok?
      ensures HeldKarpResult(codes, cache).time <= PathCost(Codes(codes, p), cache).value
    {
      HeldKarpResultBeatsAnchoredPermutations(codes, cache, p);
    }
  }

  /** The orderings of three indices that start at index 0. */
  lemma AnchoredPermutationsOfThree(p: seq<nat>)
    requires AnchoredPermutation(p, 3) && |p| == 3
    ensures p == [0, 1, 2] || p == [0, 2, 1]
  {
    assert 1 in p && 2 in p;
    var i :| 0 <= i < |p| && p[i] == 1;
    var j :| 0 <= j < |p| && p[j] == 2;
    assert i != 0 && j != 0 && i != j;
  }

  lemma TestCacheHoldsEveryPairOfABC()
    ensures Complete(["A", "B", "C"], TestCache())
  {
    var codes, cache := ["A", "B", "C"], TestCache();
    forall i, j | 0 <= i < 3 && 0 < j < 3 && i != j
      ensures Lookup(cache, codes[i], codes[j]).Some?
    {
      assert i == 0 || i == 1 || i == 2;
    }
  }

  lemma TestCacheCostsOfThree()
    ensures Codes(["A", "B", "C"], [0, 1, 2]) == ["A", "B", "C"]
    ensures Codes(["A", "B", "C"], [0, 2, 1]) == ["A", "C", "B"]
    ensures PathCost(["A", "B", "C"], TestCache()) == Ok(45)
    ensures PathCost(["A", "C", "B"], TestCache()) == Ok(50)
    ensures PathCost(["B", "A", "C"], TestCache()) == Ok(25)
  {
    assert ["A", "B", "C"][..2] == ["A", "B"];
    assert ["A", "C", "B"][..2] == ["A", "C"];
    assert ["B", "A", "C"][..2] == ["B", "A"];
  }

  /** For three codes the result is the cheaper of the two orderings that start at index 0. */
  lemma HeldKarpResultOfThree(codes: seq<Code>, cache: SetupMatrixCache)
    requires |codes| == 3 && Complete(codes, cache)
    ensures var r := HeldKarpResult(codes, cache);
      && PathCost(Codes(codes, [0, 1, 2]), cache).Ok? && PathCost(Codes(codes, [0, 2, 1]), cache).Ok?
      && (r.time == PathCost(Codes(codes, [0, 1, 2]), cache).value || r.time == PathCost(Codes(codes, [0, 2, 1]), cache).value)
      && r.time <= PathCost(Codes(codes, [0, 1, 2]), cache).value
      && r.time <= PathCost(Codes(codes, [0, 2, 1]), cache).value
  {
    var p, q := [0, 1, 2], [0, 2, 1];
    OptimalPathOfThree(codes, cache);
    HeldKarpResultReadsBestCell(codes, cache);
    OrderingsOfThree();
    HeldKarpResultBeatsAnchoredPermutations(codes, cache, p);
    HeldKarpResultBeatsAnchoredPermutations(codes, cache, q);
  }

  /** The two orderings of three indices that start at index 0. */
  lemma OrderingsOfThree()
    ensures AnchoredPermutation([0, 1, 2], 3) && AnchoredPermutation([0, 2, 1], 3)
  {
    var p, q := [0, 1, 2], [0, 2, 1];
    assert p[0] == 0 && p[1] == 1 && p[2] == 2;
    assert q[0] == 0 && q[1] == 2 && q[2] == 1;
  }

  /** For three codes the reconstructed path is one of those two orderings. */
  lemma OptimalPathOfThree(codes: seq<Code>, cache: SetupMatrixCache)
    requires |codes| == 3 && Complete(codes, cache)
    ensures OptimalPath(codes, cache) == [0, 1, 2] || OptimalPath(codes, cache) == [0, 2, 1]
  {
    OptimalPathIsAnchoredPermutation(codes, cache);
    PermutationRearrangesCodes(codes, OptimalPath(codes, cache));
    AnchoredPermutationsOfThree(OptimalPath(codes, cache));
  }

  /** On the test matrix, the search anchored at "A" reports 45 minutes for A, B, C, while
      starting at "B" gives the rearrangement B, A, C of 25 minutes: the result is the best
      ordering that starts at `equipmentCodes[0]`, not the best ordering overall. */
  lemma AnchoringMissesCheaperStart()
    ensures Complete(["A", "B", "C"], TestCache())
    ensures HeldKarpResult(["A", "B", "C"], TestCache()).time == 45
    ensures multiset(["B", "A", "C"]) == multiset(["A", "B", "C"])
    ensures PathCost(["B", "A", "C"], TestCache()) == Ok(25)
  {
    TestCacheHoldsEveryPairOfABC();
    TestCacheCostsOfThree();
    HeldKarpResultOfThree(["A", "B", "C"], TestCache());
  }
}
